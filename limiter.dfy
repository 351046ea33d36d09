/**
 * The in-memory rate limiter of the bot.  Its one piece of state is the
 * registry of request ledgers, which every operation may update in place;
 * the wall clock is passed in as `now` (whole seconds).  Each method is
 * proved to leave the registry, and return the value, that the matching
 * function of `LimiterSpec` describes.
 */
module Limiter {
  import opened LimiterSpec

  /** Drop expired entries from the front of `q`, one `popleft` at a time. */
  method PopExpired(q: Queue, now: int, window: int) returns (p: Queue)
    ensures p == Prune(q, now, window)
  {
    p := q;
    while p != [] && now - p[0] > window
      invariant Prune(p, now, window) == Prune(q, now, window)
      decreases |p|
    {
      p := p[1..];
    }
  }

  /** The number of entries of `q` strictly less than a day old. */
  method CountRecentRequests(q: Queue, now: int) returns (n: nat)
    ensures n == CountRecent(q, now)
  {
    n := 0;
    for i := 0 to |q|
      invariant n + CountRecent(q[i..], now) == CountRecent(q, now)
    {
      assert q[i..][1..] == q[i + 1..];
      if now - q[i] < StatsHorizon {
        n := n + 1;
      }
    }
  }

  /**
   * One user's ledgers after the first phase of cleanup: every queue pruned
   * with `maxAge`, then the queues left empty deleted.
   */
  method CleanUserLedgers(types: map<string, Queue>, now: int, maxAge: int) returns (kept: map<string, Queue>)
    ensures kept == CleanLedgers(types, now, maxAge)
  {
    var pruned := types;
    var emptied: set<string> := {};
    var pending := types.Keys;
    while pending != {}
      invariant pending <= types.Keys && pruned.Keys == types.Keys
      invariant forall t :: t in pending ==> pruned[t] == types[t]
      invariant forall t :: t in types && t !in pending ==> pruned[t] == Prune(types[t], now, maxAge)
      invariant forall t :: t in emptied <==> t in types && t !in pending && Prune(types[t], now, maxAge) == []
      decreases pending
    {
      var t :| t in pending;
      var q := PopExpired(pruned[t], now, maxAge);
      pruned := pruned[t := q];
      if q == [] {
        emptied := emptied + {t};
      }
      pending := pending - {t};
    }
    kept := pruned - emptied;
  }

  /**
   * The recent-entry count and the activity flag of one user, summed over
   * that user's ledgers in any order.
   */
  method UserRecentRequests(types: map<string, Queue>, now: int) returns (count: nat, recent: bool)
    ensures count == UserTracked(types, now)
    ensures recent == HasRecent(types, now)
  {
    count := 0;
    recent := false;
    var pending := types.Keys;
    var done: set<string> := {};
    while pending != {}
      invariant pending + done == types.Keys && pending !! done
      invariant count == SumOver(done, RecentIn(types, now))
      invariant recent <==> exists s :: s in done && CountRecent(types[s], now) > 0
      decreases pending
    {
      var t :| t in pending;
      var n := CountRecentRequests(types[t], now);
      SumOverAdd(done, RecentIn(types, now), t);
      count := count + n;
      if n > 0 {
        recent := true;
      }
      done := done + {t};
      pending := pending - {t};
    }
  }

  /**
   * The first phase of cleanup over the whole registry: every user's
   * ledgers cleaned, and the users left without a ledger collected.
   */
  method CleanEachUser(reg: Registry, now: int, maxAge: int) returns (mid: Registry, gone: set<int>)
    ensures mid.Keys == reg.Keys
    ensures forall v :: v in reg ==> mid[v] == CleanLedgers(reg[v], now, maxAge)
    ensures forall v :: v in gone <==> v in reg && mid[v] == map[]
  {
    mid := reg;
    gone := {};
    var pending := reg.Keys;
    while pending != {}
      invariant pending <= reg.Keys && mid.Keys == reg.Keys
      invariant forall v :: v in pending ==> mid[v] == reg[v]
      invariant forall v :: v in reg && v !in pending ==> mid[v] == CleanLedgers(reg[v], now, maxAge)
      invariant gone <= reg.Keys - pending
      invariant forall v :: v in reg && v !in pending ==> (v in gone <==> mid[v] == map[])
      decreases pending
    {
      ghost var some := Pick(pending);
      var u :| u in pending;
      var kept := CleanUserLedgers(mid[u], now, maxAge);
      mid := mid[u := kept];
      if kept == map[] {
        gone := gone + {u};
      }
      pending := pending - {u};
    }
  }

  /** Both phases of cleanup: the users left without a ledger are deleted. */
  method CleanRegistry(reg: Registry, now: int, maxAge: int) returns (cleaned: Registry, removed: nat)
    ensures cleaned == Cleaned(reg, now, maxAge)
    ensures removed == |RemovedUsers(reg, now, maxAge)|
  {
    var mid, gone := CleanEachUser(reg, now, maxAge);
    CleanedByParts(reg, now, maxAge, mid, gone);
    cleaned := mid - gone;
    removed := |gone|;
  }

  /** The figures of `get_global_stats`, gathered one user at a time. */
  method RegistryStats(reg: Registry, now: int) returns (stats: GlobalStats)
    ensures stats.totalUsers == |reg|
    ensures stats.activeUsers == |ActiveUsers(reg, now)|
    ensures stats.totalRequestsTracked == TotalTracked(reg, now)
  {
    var active := 0;
    var tracked := 0;
    ghost var activeSet: set<int> := {};
    var pending := reg.Keys;
    while pending != {}
      invariant pending <= reg.Keys
      invariant Tally(reg, now, reg.Keys - pending, tracked, activeSet)
      invariant active == |activeSet|
      decreases pending
    {
      ghost var some := Pick(pending);
      var u :| u in pending;
      var count, recent := UserRecentRequests(reg[u], now);
      TallyStep(reg, now, pending, tracked, activeSet, u);
      tracked := tracked + count;
      if recent {
        activeSet := activeSet + {u};
        active := active + 1;
      }
      pending := pending - {u};
    }
    TallyComplete(reg, now, tracked, activeSet);
    stats := GlobalStats(|reg|, active, tracked);
  }

  class RateLimiter {
    /** `user_requests`: user id, then request type, then the ledger. */
    var requests: Registry

    /** Every ledger is of a configured type and within its quota. */
    ghost predicate Valid()
      reads this
    {
      WellFormed(requests)
    }

    constructor ()
      ensures Valid()
      ensures requests == map[]
    {
      requests := map[];
    }

    /** `check_rate_limit`: admit and record the request, or deny it. */
    method CheckRateLimit(u: int, t: string, now: int) returns (allowed: bool)
      requires Valid()
      modifies this
      ensures Valid()
      ensures CheckOutcome(old(requests), u, t, now) == Outcome(allowed, requests)
      ensures Chronological(old(requests), now) ==> Chronological(requests, now)
    {
      OperationsKeepWellFormed(requests, u, t, now);
      if Chronological(requests, now) {
        OperationsKeepChronological(requests, u, t, now);
      }
      if t !in Limits {
        return true;
      }
      var lim := Limits[t];
      var q := PopExpired(QueueOf(requests, u, t), now, lim.timeWindow);
      if |q| >= lim.maxRequests {
        requests := WithQueue(requests, u, t, q);
        return false;
      }
      requests := WithQueue(requests, u, t, q + [now]);
      return true;
    }

    /** `get_remaining_requests`: the free quota, read after pruning the ledger. */
    method GetRemainingRequests(u: int, t: string, now: int) returns (remaining: int)
      requires Valid()
      modifies this
      ensures Valid()
      ensures RemainingOutcome(old(requests), u, t, now) == Outcome(remaining, requests)
      ensures Chronological(old(requests), now) ==> Chronological(requests, now)
    {
      OperationsKeepWellFormed(requests, u, t, now);
      if Chronological(requests, now) {
        OperationsKeepChronological(requests, u, t, now);
      }
      if t !in Limits {
        return -1;
      }
      var lim := Limits[t];
      var before := requests;
      var q := PopExpired(QueueOf(before, u, t), now, lim.timeWindow);
      remaining := if lim.maxRequests - |q| < 0 then 0 else lim.maxRequests - |q|;
      assert remaining == Free(QueueOf(before, u, t), now, lim);
      requests := WithQueue(before, u, t, q);
    }

    /** `get_reset_time`: when the oldest recorded request leaves the window. */
    method GetResetTime(u: int, t: string, now: int) returns (resetAt: int)
      requires Valid()
      modifies this
      ensures Valid()
      ensures ResetOutcome(old(requests), u, t, now) == Outcome(resetAt, requests)
      ensures Chronological(old(requests), now) ==> Chronological(requests, now)
    {
      OperationsKeepWellFormed(requests, u, t, now);
      if Chronological(requests, now) {
        OperationsKeepChronological(requests, u, t, now);
      }
      if t !in Limits {
        return now;
      }
      var q := QueueOf(requests, u, t);
      requests := WithQueue(requests, u, t, q);
      if q == [] {
        return now;
      }
      resetAt := q[0] + Limits[t].timeWindow;
    }

    /** One iteration of `get_user_stats`: the remaining count, then the reset time. */
    method TypeStatsOf(u: int, t: string, now: int) returns (st: TypeStats)
      requires Valid() && t in Limits
      modifies this
      ensures Valid()
      ensures StatsFor(old(requests), u, t, now) == Outcome(st, requests)
    {
      var lim := Limits[t];
      ghost var before := requests;
      var remaining := GetRemainingRequests(u, t, now);
      ghost var mid := requests;
      var resetAt := GetResetTime(u, t, now);
      st := TypeStats(lim.maxRequests, remaining, lim.maxRequests - remaining, resetAt, lim.description);
      StatsForSteps(before, u, t, now, remaining, mid, resetAt, requests);
    }

    /** `get_user_stats`: the figures of every configured type, in configuration order. */
    method GetUserStats(u: int, now: int) returns (stats: map<string, TypeStats>)
      requires Valid()
      modifies this
      ensures Valid()
      ensures CollectStats(old(requests), u, now, PolicyOrder) == Outcome(stats, requests)
    {
      PolicyOrderKnown();
      stats := map[];
      ghost var start := requests;
      for i := 0 to |PolicyOrder|
        invariant Valid()
        invariant CollectStats(start, u, now, PolicyOrder[..i]) == Outcome(stats, requests)
      {
        var t := PolicyOrder[i];
        ghost var before := requests;
        var st := TypeStatsOf(u, t, now);
        CollectStatsStep(start, u, now, PolicyOrder, i, stats, before, st, requests);
        stats := stats[t := st];
      }
      assert PolicyOrder[..|PolicyOrder|] == PolicyOrder;
    }

    /**
     * `cleanup_old_data`: prune every ledger with `maxAgeHours` hours, drop
     * the emptied ledgers and then the users left without one; returns the
     * number of users dropped, which the source only logs.
     */
    method CleanupOldData(now: int, maxAgeHours: int := 24) returns (removed: nat)
      requires Valid()
      modifies this
      ensures Valid()
      ensures requests == Cleaned(old(requests), now, maxAgeHours * 3600)
      ensures removed == |RemovedUsers(old(requests), now, maxAgeHours * 3600)|
      ensures Chronological(old(requests), now) ==> Chronological(requests, now)
    {
      var maxAge := maxAgeHours * 3600;
      CleanupKeepsInvariants(requests, now, maxAge);
      requests, removed := CleanRegistry(requests, now, maxAge);
    }

    /** `get_global_stats`: users known, users active in the last day, entries of the last day. */
    method GetGlobalStats(now: int) returns (stats: GlobalStats)
      ensures stats.totalUsers == |requests|
      ensures stats.activeUsers == |ActiveUsers(requests, now)|
      ensures stats.totalRequestsTracked == TotalTracked(requests, now)
    {
      stats := RegistryStats(requests, now);
    }
  }
}
