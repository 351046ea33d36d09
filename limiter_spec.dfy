/**
 * The sliding-window rate limiter of utils/rate_limiter.py as values: the
 * policy table, one (user, request type) queue of timestamps, and the
 * registry `user id -> request type -> queue`, with what each operation
 * of the limiter returns and what it leaves behind. Time is an integer
 * number of seconds passed in as `now`.
 */
module LimiterSpec {

  /** One row of the policy table. */
  datatype Limit = Limit(maxRequests: nat, timeWindow: nat, description: string)

  const TextQuery: string := "text_query"
  const DocumentAnalysis: string := "document_analysis"

  /** The hard-coded policy table, keyed by request type. */
  const Limits: map<string, Limit> := map[
    TextQuery := Limit(10, 3600, "10 queries per hour"),
    DocumentAnalysis := Limit(3, 86400, "3 document analyses per day")
  ]

  /** The table's types in the order the source lists them. */
  const PolicyOrder: seq<string> := [TextQuery, DocumentAnalysis]

  lemma PolicyOrderListsLimits()
    ensures forall t :: t in Limits <==> t in PolicyOrder
    ensures |PolicyOrder| == 2 && PolicyOrder[0] != PolicyOrder[1]
    ensures Limits.Keys == {TextQuery, DocumentAnalysis}
  {
  }

  lemma PolicyOrderKnown()
    ensures |PolicyOrder| == 2
    ensures forall k :: 0 <= k < |PolicyOrder| ==> PolicyOrder[k] in Limits
  {
  }

  /** Request timestamps of one (user, type) pair, oldest at the front. */
  type Queue = seq<int>

  /** `user id -> request type -> queue`. */
  type Registry = map<int, map<string, Queue>>

  function Min(a: int, b: int): int {
    if a <= b then a else b
  }

  predicate Sorted(q: Queue) {
    forall i, j :: 0 <= i < j < |q| ==> q[i] <= q[j]
  }

  predicate NotAfter(q: Queue, now: int) {
    forall i :: 0 <= i < |q| ==> q[i] <= now
  }

  /**
   * How many entries the `popleft` loop drops: the length of the longest
   * prefix of `q` whose entries are all strictly more than `window` seconds
   * old.
   */
  function Expired(q: Queue, now: int, window: int): (n: nat)
    ensures n <= |q|
    ensures forall i :: 0 <= i < n ==> now - q[i] > window
    ensures n < |q| ==> now - q[n] <= window
    decreases |q|
  {
    if q != [] && now - q[0] > window then 1 + Expired(q[1..], now, window) else 0
  }

  /** The `popleft` loop: drop the front entry while it is expired. */
  function Prune(q: Queue, now: int, window: int): (p: Queue)
    ensures |p| <= |q|
    decreases |q|
  {
    if q != [] && now - q[0] > window then Prune(q[1..], now, window) else q
  }

  /** The loop drops exactly the expired prefix. */
  lemma {:induction false} PruneDropsExpired(q: Queue, now: int, window: int)
    ensures Prune(q, now, window) == q[Expired(q, now, window)..]
    decreases |q|
  {
    if q != [] && now - q[0] > window {
      PruneDropsExpired(q[1..], now, window);
      assert q[1..][Expired(q[1..], now, window)..] == q[1 + Expired(q[1..], now, window)..];
    }
  }

  /**
   * On a sorted queue pruning keeps exactly the entries at most `window`
   * seconds old: an entry exactly `window` old still counts.
   */
  lemma PruneKeepsExactlyRecent(q: Queue, now: int, window: int)
    requires Sorted(q)
    ensures Sorted(Prune(q, now, window))
    ensures forall i :: 0 <= i < |q| ==>
      (i >= |q| - |Prune(q, now, window)| <==> now - q[i] <= window)
    ensures forall x :: x in Prune(q, now, window) ==> now - x <= window
  {
    PruneDropsExpired(q, now, window);
    var k := Expired(q, now, window);
    forall i | k <= i < |q| ensures now - q[i] <= window {
      assert q[k] <= q[i];
    }
  }

  /** Pruning twice at the same instant is pruning once. */
  lemma PruneIdempotent(q: Queue, now: int, window: int)
    ensures Prune(Prune(q, now, window), now, window) == Prune(q, now, window)
  {
  }

  /** Pruning keeps a queue sorted and no later than `now`. */
  lemma PruneKeepsOrder(q: Queue, now: int, window: int)
    requires Sorted(q) && NotAfter(q, now)
    ensures Sorted(Prune(q, now, window)) && NotAfter(Prune(q, now, window), now)
  {
    PruneDropsExpired(q, now, window);
  }

  /** The verdict of `check_rate_limit` on a known type, and the queue it leaves. */
  datatype Verdict = Verdict(allowed: bool, queue: Queue)

  function Admit(q: Queue, now: int, lim: Limit): Verdict {
    var p := Prune(q, now, lim.timeWindow);
    if |p| >= lim.maxRequests then Verdict(false, p) else Verdict(true, p + [now])
  }

  /**
   * A helper: admission is decided on the pruned queue, and an admitted
   * request appends exactly `now` at the back.
   */
  lemma AdmitDecision(q: Queue, now: int, lim: Limit)
    ensures var p := Prune(q, now, lim.timeWindow);
      var v := Admit(q, now, lim);
      && (v.allowed <==> |p| < lim.maxRequests)
      && v.queue == if v.allowed then p + [now] else p
  {
  }

  /** How many entries of `q` are at most `window` seconds old at `now`. */
  function CountWithin(q: Queue, now: int, window: int): (n: nat)
    ensures n <= |q|
    decreases |q|
  {
    if q == [] then 0 else (if now - q[0] <= window then 1 else 0) + CountWithin(q[1..], now, window)
  }

  lemma {:induction false} CountWithinAll(q: Queue, now: int, window: int)
    requires Sorted(q) && (q != [] ==> now - q[0] <= window)
    ensures CountWithin(q, now, window) == |q|
    decreases |q|
  {
    if q != [] {
      CountWithinAll(q[1..], now, window);
    }
  }

  /** On a sorted queue, pruning keeps as many entries as lie within the window. */
  lemma {:induction false} PruneLengthCountsWithin(q: Queue, now: int, window: int)
    requires Sorted(q)
    ensures |Prune(q, now, window)| == CountWithin(q, now, window)
    decreases |q|
  {
    if q != [] {
      if now - q[0] > window {
        PruneLengthCountsWithin(q[1..], now, window);
      } else {
        CountWithinAll(q, now, window);
      }
    }
  }

  /**
   * On a sorted queue a request is admitted exactly when fewer than
   * `maxRequests` entries are at most `timeWindow` seconds old, and the
   * queue left behind holds exactly those entries, plus `now` when the
   * request was admitted.
   */
  lemma AdmitByRecentCount(q: Queue, now: int, lim: Limit)
    requires Sorted(q)
    ensures var v := Admit(q, now, lim);
      && (v.allowed <==> CountWithin(q, now, lim.timeWindow) < lim.maxRequests)
      && (forall x :: x in v.queue <==> (x in q && now - x <= lim.timeWindow) || (v.allowed && x == now))
  {
    var w := lim.timeWindow;
    var p := Prune(q, now, w);
    PruneLengthCountsWithin(q, now, w);
    PruneKeepsExactlyRecent(q, now, w);
    PruneDropsExpired(q, now, w);
    forall x ensures x in p <==> x in q && now - x <= w {
      if x in q && now - x <= w {
        PruneKeepsRecentEntry(q, now, w, x);
      }
    }
  }

  /** A queue within its cap stays within it. */
  lemma AdmitBounded(q: Queue, now: int, lim: Limit)
    requires |q| <= lim.maxRequests
    ensures |Admit(q, now, lim).queue| <= lim.maxRequests
  {
  }

  /**
   * With a clock that does not go back, the queue stays sorted, and after
   * the call it holds no entry more than `timeWindow` seconds old.
   */
  lemma AdmitKeepsOrder(q: Queue, now: int, lim: Limit)
    requires Sorted(q) && NotAfter(q, now)
    ensures var v := Admit(q, now, lim);
      && Sorted(v.queue) && NotAfter(v.queue, now)
      && forall x :: x in v.queue ==> now - x <= lim.timeWindow
  {
    PruneKeepsExactlyRecent(q, now, lim.timeWindow);
    PruneKeepsOrder(q, now, lim.timeWindow);
  }

  /** `n` copies of `x`: the queue after `n` admissions at instant `x`. */
  function Repeat(x: int, n: nat): (r: Queue)
    ensures |r| == n && forall i :: 0 <= i < n ==> r[i] == x
  {
    seq(n, _ => x)
  }

  /** A queue recorded entirely at `now` loses nothing to pruning. */
  lemma PruneFresh(now: int, k: nat, window: nat)
    ensures Prune(Repeat(now, k), now, window) == Repeat(now, k)
  {
  }

  /** A helper for the burst arithmetic. */
  lemma MinStep(a: int, b: int)
    ensures Min(a, b) - 1 == Min(a - 1, b - 1)
  {
  }

  /** `n` admission attempts at one instant: how many are admitted, and the queue after. */
  datatype BurstCount = BurstCount(admitted: nat, queue: Queue)

  function Burst(q: Queue, now: int, lim: Limit, n: nat): BurstCount
    decreases n
  {
    if n == 0 then BurstCount(0, q)
    else
      var v := Admit(q, now, lim);
      var rest := Burst(v.queue, now, lim, n - 1);
      BurstCount((if v.allowed then 1 else 0) + rest.admitted, rest.queue)
  }

  /** One attempt on a queue recorded entirely at `now`. */
  lemma AdmitFresh(k: nat, now: int, lim: Limit)
    ensures Admit(Repeat(now, k), now, lim)
      == if k < lim.maxRequests then Verdict(true, Repeat(now, k + 1)) else Verdict(false, Repeat(now, k))
  {
    PruneFresh(now, k, lim.timeWindow);
    assert Repeat(now, k + 1) == Repeat(now, k) + [now];
  }

  /** The first of `n` attempts at one instant, on a queue recorded at that instant. */
  lemma BurstFreshStep(k: nat, now: int, lim: Limit, n: nat)
    requires n > 0
    ensures var k' := if k < lim.maxRequests then k + 1 else k;
      var rest := Burst(Repeat(now, k'), now, lim, n - 1);
      Burst(Repeat(now, k), now, lim, n) == BurstCount(k' - k + rest.admitted, rest.queue)
  {
    BurstUnfold(Repeat(now, k), now, lim, n);
    AdmitFresh(k, now, lim);
  }

  /** The first of `n` attempts, on any queue. */
  lemma BurstUnfold(q: Queue, now: int, lim: Limit, n: nat)
    requires n > 0
    ensures var v := Admit(q, now, lim);
      var rest := Burst(v.queue, now, lim, n - 1);
      Burst(q, now, lim, n) == BurstCount((if v.allowed then 1 else 0) + rest.admitted, rest.queue)
  {
  }

  lemma {:induction false} BurstFrom(k: nat, now: int, lim: Limit, n: nat)
    requires k <= lim.maxRequests
    ensures var m := Min(n, lim.maxRequests - k);
      Burst(Repeat(now, k), now, lim, n) == BurstCount(m, Repeat(now, k + m))
    decreases n
  {
    if n > 0 {
      BurstFreshStep(k, now, lim, n);
      if k < lim.maxRequests {
        MinStep(n, lim.maxRequests - k);
        BurstFrom(k + 1, now, lim, n - 1);
      } else {
        MinStep(n, 0);
        BurstFrom(k, now, lim, n - 1);
      }
    }
  }

  /**
   * No phantom consumption: `n` attempts at one instant on an empty queue
   * admit exactly `min(n, maxRequests)` and record exactly that many entries.
   */
  lemma BurstFromEmpty(now: int, lim: Limit, n: nat)
    ensures Burst([], now, lim, n) == BurstCount(Min(n, lim.maxRequests), Repeat(now, Min(n, lim.maxRequests)))
  {
    BurstFrom(0, now, lim, n);
    assert Repeat(now, 0) == [];
  }

  /** Fifteen text queries at one instant: ten admitted, ten recorded. */
  lemma FifteenTextQueriesAtOnce(now: int)
    ensures Burst([], now, Limits[TextQuery], 15) == BurstCount(10, Repeat(now, 10))
  {
    BurstFromEmpty(now, Limits[TextQuery], 15);
  }

  /**
   * `get_remaining_requests` on one queue of a known type:
   * `max(0, maxRequests - |pruned queue|)`.
   */
  function Free(q: Queue, now: int, lim: Limit): int {
    var p := Prune(q, now, lim.timeWindow);
    if lim.maxRequests - |p| < 0 then 0 else lim.maxRequests - |p|
  }

  /** The free quota lies in `[0, maxRequests]` and is full once every entry has aged out. */
  lemma FreeBounds(q: Queue, now: int, lim: Limit)
    ensures 0 <= Free(q, now, lim) <= lim.maxRequests
    ensures |q| <= lim.maxRequests ==>
      Free(q, now, lim) == lim.maxRequests - |Prune(q, now, lim.timeWindow)|
    ensures (forall x :: x in q ==> now - x > lim.timeWindow) ==> Free(q, now, lim) == lim.maxRequests
  {
    if forall x :: x in q ==> now - x > lim.timeWindow {
      assert forall i :: 0 <= i < |q| ==> q[i] in q;
      PruneAllExpired(q, now, lim.timeWindow);
    }
  }

  /** Remaining quota goes down by exactly one on each admission at one instant. */
  lemma AdmissionUsesOneSlot(q: Queue, now: int, lim: Limit)
    requires Admit(q, now, lim).allowed
    ensures Free(Admit(q, now, lim).queue, now, lim) == Free(q, now, lim) - 1
  {
    var p := Prune(q, now, lim.timeWindow);
    PruneDropsExpired(q, now, lim.timeWindow);
    assert Prune(p + [now], now, lim.timeWindow) == p + [now] by {
      if p != [] {
        assert (p + [now])[0] == p[0];
      }
    }
  }

  /**
   * The window's edge: after ten text queries at `t0` an eleventh at `t0`
   * is denied, no slot is free at `t0 + 3600` (exactly one window later),
   * and all ten are free at `t0 + 3601`.
   */
  lemma TextQueryWindowEdge(t0: int)
    ensures !Admit(Repeat(t0, 10), t0, Limits[TextQuery]).allowed
    ensures Free(Repeat(t0, 10), t0 + 3600, Limits[TextQuery]) == 0
    ensures Free(Repeat(t0, 10), t0 + 3601, Limits[TextQuery]) == 10
  {
    var q := Repeat(t0, 10);
    assert Prune(q, t0, 3600) == q;
    assert Prune(q, t0 + 3600, 3600) == q;
    FreeBounds(q, t0 + 3601, Limits[TextQuery]);
  }

  // ----- The registry -----

  predicate Present(reg: Registry, u: int, t: string) {
    u in reg && t in reg[u]
  }

  /** The queue of `(u, t)`, or the empty queue a `defaultdict` would create. */
  function QueueOf(reg: Registry, u: int, t: string): Queue {
    if Present(reg, u, t) then reg[u][t] else []
  }

  /** Store `q` as the queue of `(u, t)`, creating the user's entry if absent. */
  function WithQueue(reg: Registry, u: int, t: string, q: Queue): Registry {
    reg[u := (if u in reg then reg[u] else map[])[t := q]]
  }

  /** `after` and `before` agree on every ledger other than `(u, t)`. */
  ghost predicate OnlyTouches(before: Registry, after: Registry, u: int, t: string) {
    && (forall v :: v != u ==> (v in after <==> v in before))
    && (forall v :: v != u && v in before ==> after[v] == before[v])
    && (forall s :: s != t ==> (Present(after, u, s) <==> Present(before, u, s)))
    && (forall s :: s != t ==> QueueOf(after, u, s) == QueueOf(before, u, s))
  }

  lemma WithQueueFrame(reg: Registry, u: int, t: string, q: Queue)
    ensures Present(WithQueue(reg, u, t, q), u, t) && QueueOf(WithQueue(reg, u, t, q), u, t) == q
    ensures OnlyTouches(reg, WithQueue(reg, u, t, q), u, t)
  {
  }

  /** Every ledger is of a known type and within that type's cap. */
  ghost predicate WellFormed(reg: Registry) {
    forall u, t :: Present(reg, u, t) ==> t in Limits && |reg[u][t]| <= Limits[t].maxRequests
  }

  /** Every ledger is sorted and holds no timestamp later than `now`. */
  ghost predicate Chronological(reg: Registry, now: int) {
    forall u, t :: Present(reg, u, t) ==> Sorted(reg[u][t]) && NotAfter(reg[u][t], now)
  }

  /** Every ledger is sorted, oldest entry first. */
  ghost predicate LedgersSorted(reg: Registry) {
    forall u, t :: Present(reg, u, t) ==> Sorted(reg[u][t])
  }

  lemma ChronologicalLater(reg: Registry, t0: int, now: int)
    requires Chronological(reg, t0) && t0 <= now
    ensures Chronological(reg, now)
  {
  }

  /** What an operation returns, and the registry it leaves. */
  datatype Outcome<T> = Outcome(value: T, registry: Registry)

  /** `check_rate_limit(u, t)` at time `now`. */
  function CheckOutcome(reg: Registry, u: int, t: string, now: int): (o: Outcome<bool>)
    ensures t !in Limits ==> o == Outcome(true, reg)
    ensures t in Limits ==> Present(o.registry, u, t) && OnlyTouches(reg, o.registry, u, t)
  {
    if t !in Limits then Outcome(true, reg)
    else
      var v := Admit(QueueOf(reg, u, t), now, Limits[t]);
      WithQueueFrame(reg, u, t, v.queue);
      Outcome(v.allowed, WithQueue(reg, u, t, v.queue))
  }

  /** `get_remaining_requests(u, t)` at time `now`. */
  function RemainingOutcome(reg: Registry, u: int, t: string, now: int): (o: Outcome<int>)
    ensures t !in Limits ==> o == Outcome(-1, reg)
    ensures t in Limits ==> Present(o.registry, u, t) && OnlyTouches(reg, o.registry, u, t)
  {
    if t !in Limits then Outcome(-1, reg)
    else
      var lim := Limits[t];
      var p := Prune(QueueOf(reg, u, t), now, lim.timeWindow);
      WithQueueFrame(reg, u, t, p);
      Outcome(Free(QueueOf(reg, u, t), now, lim), WithQueue(reg, u, t, p))
  }

  /** `get_reset_time(u, t)` at time `now`: it creates the ledger but does not prune it. */
  function ResetOutcome(reg: Registry, u: int, t: string, now: int): (o: Outcome<int>)
    ensures t !in Limits ==> o == Outcome(now, reg)
    ensures t in Limits ==> Present(o.registry, u, t) && OnlyTouches(reg, o.registry, u, t)
    ensures t in Limits ==> QueueOf(o.registry, u, t) == QueueOf(reg, u, t)
  {
    if t !in Limits then Outcome(now, reg)
    else
      var q := QueueOf(reg, u, t);
      WithQueueFrame(reg, u, t, q);
      Outcome(if q == [] then now else q[0] + Limits[t].timeWindow, WithQueue(reg, u, t, q))
  }

  /**
   * Unknown request types fail open: admission always succeeds, the
   * remaining count is -1, the reset time is `now`, and the registry is
   * left exactly as it was.
   */
  lemma UnknownTypesFailOpen(reg: Registry, u: int, t: string, now: int)
    requires t !in Limits
    ensures CheckOutcome(reg, u, t, now) == Outcome(true, reg)
    ensures RemainingOutcome(reg, u, t, now) == Outcome(-1, reg)
    ensures ResetOutcome(reg, u, t, now) == Outcome(now, reg)
  {
  }

  /**
   * On a known type each operation materialises the `(u, t)` ledger and
   * touches no other; admission decides on the pruned ledger, and the
   * remaining count is read from the pruned ledger.
   */
  lemma KnownTypeOutcomes(reg: Registry, u: int, t: string, now: int)
    requires t in Limits
    ensures var lim := Limits[t];
      var p := Prune(QueueOf(reg, u, t), now, lim.timeWindow);
      var c := CheckOutcome(reg, u, t, now);
      var r := RemainingOutcome(reg, u, t, now);
      && (c.value <==> |p| < lim.maxRequests)
      && QueueOf(c.registry, u, t) == (if c.value then p + [now] else p)
      && QueueOf(r.registry, u, t) == p
      && 0 <= r.value <= lim.maxRequests
  {
    var lim := Limits[t];
    var q := QueueOf(reg, u, t);
    var p := Prune(q, now, lim.timeWindow);
    var v := Admit(q, now, lim);
    KnownTypeLedgers(reg, u, t, now);
    AdmitDecision(q, now, lim);
    FreeBounds(q, now, lim);
    var c := CheckOutcome(reg, u, t, now);
    assert c.value == v.allowed;
    assert QueueOf(c.registry, u, t) == v.queue;
    assert v.queue == if v.allowed then p + [now] else p;
    assert QueueOf(c.registry, u, t) == (if c.value then p + [now] else p);
  }

  /** The value and the `(u, t)` ledger each known-type operation leaves. */
  lemma KnownTypeLedgers(reg: Registry, u: int, t: string, now: int)
    requires t in Limits
    ensures var lim := Limits[t];
      var q := QueueOf(reg, u, t);
      var v := Admit(q, now, lim);
      var c := CheckOutcome(reg, u, t, now);
      var r := RemainingOutcome(reg, u, t, now);
      && c.value == v.allowed && QueueOf(c.registry, u, t) == v.queue
      && r.value == Free(q, now, lim) && QueueOf(r.registry, u, t) == Prune(q, now, lim.timeWindow)
  {
    var lim := Limits[t];
    var q := QueueOf(reg, u, t);
    WithQueueFrame(reg, u, t, Admit(q, now, lim).queue);
    WithQueueFrame(reg, u, t, Prune(q, now, lim.timeWindow));
  }

  /**
   * What the reset time means. On an empty ledger it is `now`. Otherwise it
   * is the last instant at which the oldest entry still counts: pruning at
   * any instant up to it drops nothing, and pruning at any later instant
   * drops that entry. So on the ledger the call leaves, a full ledger is
   * denied up to the reset time and admitted after it, and the free quota
   * is larger at any later instant than at the reset time itself. The call
   * does not prune, so when the oldest entry has already expired the reset
   * time lies before `now`.
   */
  lemma ResetTimeMeaning(reg: Registry, u: int, t: string, now: int, s: int)
    requires t in Limits
    ensures var q := QueueOf(reg, u, t);
      var lim := Limits[t];
      var o := ResetOutcome(reg, u, t, now);
      var r := o.value;
      && (q == [] ==> r == now)
      && (q != [] ==> (Prune(q, s, lim.timeWindow) == q <==> s <= r))
      && (q != [] && |q| == lim.maxRequests ==> (CheckOutcome(o.registry, u, t, s).value <==> r < s))
      && (q != [] && |q| <= lim.maxRequests && r < s ==>
            RemainingOutcome(o.registry, u, t, s).value > RemainingOutcome(o.registry, u, t, r).value)
      && (q != [] && now - q[0] > lim.timeWindow ==> r < now)
  {
    var q := QueueOf(reg, u, t);
    var lim := Limits[t];
    var o := ResetOutcome(reg, u, t, now);
    if q != [] {
      var r := o.value;
      assert r == q[0] + lim.timeWindow;
      PruneFront(q, s, lim.timeWindow);
      PruneFront(q, r, lim.timeWindow);
      KnownTypeLedgers(o.registry, u, t, s);
      KnownTypeLedgers(o.registry, u, t, r);
    }
  }

  /**
   * A helper: pruning a non-empty queue leaves it whole exactly when its
   * front entry is still within the window, and otherwise shortens it.
   */
  lemma PruneFront(q: Queue, now: int, window: int)
    requires q != []
    ensures Prune(q, now, window) == q <==> now - q[0] <= window
    ensures now - q[0] > window ==> |Prune(q, now, window)| < |q|
  {
    if now - q[0] > window {
      assert |Prune(q[1..], now, window)| <= |q| - 1;
    }
  }

  /** The registry invariant survives admission, the remaining-count read and the reset read. */
  lemma OperationsKeepWellFormed(reg: Registry, u: int, t: string, now: int)
    requires WellFormed(reg)
    ensures WellFormed(CheckOutcome(reg, u, t, now).registry)
    ensures WellFormed(RemainingOutcome(reg, u, t, now).registry)
    ensures WellFormed(ResetOutcome(reg, u, t, now).registry)
  {
    if t in Limits {
      var lim := Limits[t];
      var q := QueueOf(reg, u, t);
      assert |q| <= lim.maxRequests;
      AdmitBounded(q, now, lim);
      WithQueueWellFormed(reg, u, t, Admit(q, now, lim).queue);
      WithQueueWellFormed(reg, u, t, Prune(q, now, lim.timeWindow));
      WithQueueWellFormed(reg, u, t, q);
    }
  }

  lemma WithQueueWellFormed(reg: Registry, u: int, t: string, q: Queue)
    requires WellFormed(reg) && t in Limits && |q| <= Limits[t].maxRequests
    ensures WellFormed(WithQueue(reg, u, t, q))
  {
    var r := WithQueue(reg, u, t, q);
    forall v, s | Present(r, v, s) ensures s in Limits && |r[v][s]| <= Limits[s].maxRequests {
      if v != u || s != t {
        assert Present(reg, v, s) && r[v][s] == reg[v][s];
      }
    }
  }

  lemma WithQueueChronological(reg: Registry, u: int, t: string, q: Queue, now: int)
    requires Chronological(reg, now) && Sorted(q) && NotAfter(q, now)
    ensures Chronological(WithQueue(reg, u, t, q), now)
  {
    var r := WithQueue(reg, u, t, q);
    forall v, s | Present(r, v, s) ensures Sorted(r[v][s]) && NotAfter(r[v][s], now) {
      if v != u || s != t {
        assert Present(reg, v, s) && r[v][s] == reg[v][s];
      }
    }
  }

  /** With a clock that does not go back, every ledger stays sorted. */
  lemma OperationsKeepChronological(reg: Registry, u: int, t: string, now: int)
    requires Chronological(reg, now)
    ensures Chronological(CheckOutcome(reg, u, t, now).registry, now)
    ensures Chronological(RemainingOutcome(reg, u, t, now).registry, now)
    ensures Chronological(ResetOutcome(reg, u, t, now).registry, now)
  {
    if t in Limits {
      var q := QueueOf(reg, u, t);
      assert Sorted(q) && NotAfter(q, now) by {
        if Present(reg, u, t) {
          assert q == reg[u][t];
        }
      }
      AdmitKeepsOrder(q, now, Limits[t]);
      PruneKeepsOrder(q, now, Limits[t].timeWindow);
      WithQueueChronological(reg, u, t, Admit(q, now, Limits[t]).queue, now);
      WithQueueChronological(reg, u, t, Prune(q, now, Limits[t].timeWindow), now);
      WithQueueChronological(reg, u, t, q, now);
    }
  }

  // ----- get_user_stats -----

  datatype TypeStats = TypeStats(limit: int, remaining: int, used: int, resetTime: int, description: string)

  /** One iteration of `get_user_stats`: the remaining count, then the reset time. */
  function StatsFor(reg: Registry, u: int, t: string, now: int): Outcome<TypeStats>
    requires t in Limits
  {
    var lim := Limits[t];
    var rem := RemainingOutcome(reg, u, t, now);
    var rs := ResetOutcome(rem.registry, u, t, now);
    Outcome(TypeStats(lim.maxRequests, rem.value, lim.maxRequests - rem.value, rs.value, lim.description),
            rs.registry)
  }

  /** `get_user_stats` over the listed types, in order. */
  function CollectStats(reg: Registry, u: int, now: int, types: seq<string>): Outcome<map<string, TypeStats>>
    requires forall k :: 0 <= k < |types| ==> types[k] in Limits
    decreases |types|
  {
    if types == [] then Outcome(map[], reg)
    else
      var prev := CollectStats(reg, u, now, types[..|types| - 1]);
      var t := types[|types| - 1];
      var st := StatsFor(prev.registry, u, t, now);
      Outcome(prev.value[t := st.value], st.registry)
  }

  /** `StatsFor` is the remaining-count read followed by the reset read. */
  lemma StatsForSteps(reg: Registry, u: int, t: string, now: int, remaining: int, mid: Registry, resetAt: int, after: Registry)
    requires t in Limits
    requires RemainingOutcome(reg, u, t, now) == Outcome(remaining, mid)
    requires ResetOutcome(mid, u, t, now) == Outcome(resetAt, after)
    ensures var lim := Limits[t];
      StatsFor(reg, u, t, now)
        == Outcome(TypeStats(lim.maxRequests, remaining, lim.maxRequests - remaining, resetAt, lim.description), after)
  {
  }

  /** Collecting one more type extends the report by that type's figures. */
  lemma CollectStatsStep(reg: Registry, u: int, now: int, types: seq<string>, i: nat,
                         stats: map<string, TypeStats>, before: Registry, st: TypeStats, after: Registry)
    requires forall k :: 0 <= k < |types| ==> types[k] in Limits
    requires i < |types|
    requires CollectStats(reg, u, now, types[..i]) == Outcome(stats, before)
    requires StatsFor(before, u, types[i], now) == Outcome(st, after)
    ensures CollectStats(reg, u, now, types[..i + 1]) == Outcome(stats[types[i] := st], after)
  {
    assert types[..i + 1][..i] == types[..i];
  }

  /** The figures of one type, read off the ledger `q` it had before the call. */
  predicate StatsDescribe(st: TypeStats, q: Queue, now: int, lim: Limit) {
    var p := Prune(q, now, lim.timeWindow);
    && st.limit == lim.maxRequests
    && st.remaining == Free(q, now, lim)
    && st.used == st.limit - st.remaining
    && st.resetTime == (if p == [] then now else p[0] + lim.timeWindow)
    && st.description == lim.description
  }

  /**
   * One type's figures: the reset time is read after the remaining count
   * has pruned the ledger, so it is that of the pruned ledger.
   */
  lemma StatsForMeaning(reg: Registry, u: int, t: string, now: int)
    requires t in Limits
    ensures var o := StatsFor(reg, u, t, now);
      && StatsDescribe(o.value, QueueOf(reg, u, t), now, Limits[t])
      && QueueOf(o.registry, u, t) == Prune(QueueOf(reg, u, t), now, Limits[t].timeWindow)
      && OnlyTouches(reg, o.registry, u, t)
  {
    var rem := RemainingOutcome(reg, u, t, now);
    assert QueueOf(rem.registry, u, t) == Prune(QueueOf(reg, u, t), now, Limits[t].timeWindow);
  }

  /**
   * What `get_user_stats` reports for one known type `t`: its limit, the
   * free quota and the reset time of the pruned ledger, with `used` equal to
   * the number of requests the pruned ledger holds; the call leaves that
   * ledger pruned.
   */
  predicate ReportsType(o: Outcome<map<string, TypeStats>>, reg: Registry, u: int, t: string, now: int)
    requires t in Limits
  {
    var p := Prune(QueueOf(reg, u, t), now, Limits[t].timeWindow);
    && t in o.value
    && StatsDescribe(o.value[t], QueueOf(reg, u, t), now, Limits[t])
    && o.value[t].used == |p|
    && QueueOf(o.registry, u, t) == p
  }

  /**
   * `get_user_stats` reports each known type and nothing else, and leaves
   * every other user's entry as it was.
   */
  lemma UserStatsMeaning(reg: Registry, u: int, now: int)
    requires WellFormed(reg)
    ensures var o := CollectStats(reg, u, now, PolicyOrder);
      && o.value.Keys == Limits.Keys
      && ReportsType(o, reg, u, TextQuery, now)
      && ReportsType(o, reg, u, DocumentAnalysis, now)
      && (forall v :: v != u ==> (v in o.registry <==> v in reg))
      && (forall v :: v != u && v in reg ==> o.registry[v] == reg[v])
  {
    UserStatsUnfold(reg, u, now);
    TwoStepsReport(reg, u, TextQuery, DocumentAnalysis, now);
    PolicyOrderListsLimits();
  }

  /** A ledger of a well-formed registry is within its type's limit. */
  lemma QueueWithinLimit(reg: Registry, u: int, t: string)
    requires WellFormed(reg) && t in Limits
    ensures |QueueOf(reg, u, t)| <= Limits[t].maxRequests
  {
    if Present(reg, u, t) {
      assert QueueOf(reg, u, t) == reg[u][t];
    }
  }

  /** The figures of two distinct types read one after the other. */
  lemma TwoStepsReport(reg: Registry, u: int, t: string, s: string, now: int)
    requires WellFormed(reg) && t in Limits && s in Limits && t != s
    ensures var a := StatsFor(reg, u, t, now);
      var b := StatsFor(a.registry, u, s, now);
      var o := Outcome(map[t := a.value, s := b.value], b.registry);
      && o.value.Keys == {t, s}
      && ReportsType(o, reg, u, t, now)
      && ReportsType(o, reg, u, s, now)
      && (forall v :: v != u ==> (v in o.registry <==> v in reg))
      && (forall v :: v != u && v in reg ==> o.registry[v] == reg[v])
  {
    var a := StatsFor(reg, u, t, now);
    var b := StatsFor(a.registry, u, s, now);
    StatsForMeaning(reg, u, t, now);
    StatsForMeaning(a.registry, u, s, now);
    QueueWithinLimit(reg, u, t);
    QueueWithinLimit(reg, u, s);
    assert QueueOf(a.registry, u, s) == QueueOf(reg, u, s);
    assert QueueOf(b.registry, u, t) == QueueOf(a.registry, u, t);
    StatsUsedIsPrunedLength(reg, u, t, now);
    StatsUsedIsPrunedLength(a.registry, u, s, now);
  }

  /** The two steps of `get_user_stats`, text queries first. */
  lemma UserStatsUnfold(reg: Registry, u: int, now: int)
    ensures var a := StatsFor(reg, u, TextQuery, now);
      var b := StatsFor(a.registry, u, DocumentAnalysis, now);
      CollectStats(reg, u, now, PolicyOrder)
        == Outcome(map[TextQuery := a.value, DocumentAnalysis := b.value], b.registry)
  {
    var a := StatsFor(reg, u, TextQuery, now);
    var one := PolicyOrder[..1];
    assert one == [TextQuery] && one[..0] == [];
    assert CollectStats(reg, u, now, one[..0]) == Outcome(map[], reg);
    assert CollectStats(reg, u, now, one) == Outcome(map[TextQuery := a.value], a.registry);
    assert PolicyOrder[..|PolicyOrder| - 1] == one;
  }

  /** On a ledger within its limit `used` is the number of requests still in the window. */
  lemma StatsUsedIsPrunedLength(reg: Registry, u: int, t: string, now: int)
    requires t in Limits && |QueueOf(reg, u, t)| <= Limits[t].maxRequests
    ensures StatsDescribe(StatsFor(reg, u, t, now).value, QueueOf(reg, u, t), now, Limits[t])
    ensures StatsFor(reg, u, t, now).value.used == |Prune(QueueOf(reg, u, t), now, Limits[t].timeWindow)|
  {
    StatsForMeaning(reg, u, t, now);
    FreeBounds(QueueOf(reg, u, t), now, Limits[t]);
  }

  // ----- cleanup_old_data -----

  /** One user's ledgers after pruning with `maxAge`, the ones left empty deleted. */
  function CleanLedgers(types: map<string, Queue>, now: int, maxAge: int): map<string, Queue> {
    map t | t in types && Prune(types[t], now, maxAge) != [] :: Prune(types[t], now, maxAge)
  }

  /** The registry after `cleanup_old_data`, users left with no ledger deleted. */
  function Cleaned(reg: Registry, now: int, maxAge: int): Registry {
    map u | u in reg && CleanLedgers(reg[u], now, maxAge) != map[] :: CleanLedgers(reg[u], now, maxAge)
  }

  /** The users `cleanup_old_data` deletes. */
  function RemovedUsers(reg: Registry, now: int, maxAge: int): set<int> {
    set u | u in reg && CleanLedgers(reg[u], now, maxAge) == map[]
  }

  /**
   * A registry whose every user entry has been cleaned, minus the users
   * left empty, is the cleaned registry.
   */
  lemma CleanedByParts(reg: Registry, now: int, maxAge: int, mid: Registry, gone: set<int>)
    requires mid.Keys == reg.Keys
    requires forall v :: v in reg ==> mid[v] == CleanLedgers(reg[v], now, maxAge)
    requires forall v :: v in gone <==> v in reg && CleanLedgers(reg[v], now, maxAge) == map[]
    ensures mid - gone == Cleaned(reg, now, maxAge)
    ensures gone == RemovedUsers(reg, now, maxAge)
  {
    var c := Cleaned(reg, now, maxAge);
    var r := mid - gone;
    forall v ensures v in r <==> v in c {
      if v in reg {
        assert v in c <==> CleanLedgers(reg[v], now, maxAge) != map[];
      }
    }
    assert r.Keys == c.Keys;
    forall v | v in c ensures r[v] == c[v] {
      assert mid[v] == CleanLedgers(reg[v], now, maxAge);
    }
    assert forall v :: v in gone <==> v in RemovedUsers(reg, now, maxAge);
  }

  /** A ledger survives cleanup, pruned, exactly when pruning leaves something. */
  lemma CleanedAt(reg: Registry, now: int, maxAge: int, u: int, t: string)
    ensures Present(Cleaned(reg, now, maxAge), u, t) <==>
      Present(reg, u, t) && Prune(reg[u][t], now, maxAge) != []
    ensures Present(Cleaned(reg, now, maxAge), u, t) ==>
      Cleaned(reg, now, maxAge)[u][t] == Prune(reg[u][t], now, maxAge)
  {
    if Present(reg, u, t) && Prune(reg[u][t], now, maxAge) != [] {
      assert t in CleanLedgers(reg[u], now, maxAge);
    }
  }

  /**
   * After cleanup no ledger and no user entry is empty, and the deleted
   * users and the survivors partition the old registry.
   */
  lemma CleanupShape(reg: Registry, now: int, maxAge: int)
    ensures var c := Cleaned(reg, now, maxAge);
      && (forall u :: u in c ==> c[u] != map[])
      && (forall u, t :: Present(c, u, t) ==> c[u][t] != [])
      && c.Keys == reg.Keys - RemovedUsers(reg, now, maxAge)
      && |RemovedUsers(reg, now, maxAge)| + |c| == |reg|
  {
    var c := Cleaned(reg, now, maxAge);
    var gone := RemovedUsers(reg, now, maxAge);
    assert c.Keys == reg.Keys - gone;
    assert |reg.Keys - gone| == |reg.Keys| - |gone|;
  }

  lemma PruneKeepsRecentEntry(q: Queue, now: int, window: int, x: int)
    requires Sorted(q) && x in q && now - x <= window
    ensures x in Prune(q, now, window)
  {
    PruneKeepsExactlyRecent(q, now, window);
    PruneDropsExpired(q, now, window);
    var i :| 0 <= i < |q| && q[i] == x;
    var p := Prune(q, now, window);
    assert p[i - (|q| - |p|)] == x;
  }

  /**
   * On sorted ledgers, cleanup leaves no entry more than `maxAge` seconds
   * old, and keeps every entry (hence every user) with one at most `maxAge` old.
   */
  lemma CleanupOnSortedLedgers(reg: Registry, now: int, maxAge: int)
    requires LedgersSorted(reg)
    ensures var c := Cleaned(reg, now, maxAge);
      && (forall u, t :: Present(c, u, t) ==> forall x :: x in c[u][t] ==> now - x <= maxAge)
      && (forall u, t, x :: Present(reg, u, t) && x in reg[u][t] && now - x <= maxAge ==>
            Present(c, u, t) && x in c[u][t])
  {
    var c := Cleaned(reg, now, maxAge);
    forall u, t | Present(c, u, t) ensures forall x :: x in c[u][t] ==> now - x <= maxAge {
      CleanedAt(reg, now, maxAge, u, t);
      PruneKeepsExactlyRecent(reg[u][t], now, maxAge);
    }
    forall u, t, x | Present(reg, u, t) && x in reg[u][t] && now - x <= maxAge
      ensures Present(c, u, t) && x in c[u][t]
    {
      PruneKeepsRecentEntry(reg[u][t], now, maxAge, x);
      CleanedAt(reg, now, maxAge, u, t);
    }
  }

  lemma {:induction false} PruneAllExpired(q: Queue, now: int, window: int)
    requires forall i :: 0 <= i < |q| ==> now - q[i] > window
    ensures Prune(q, now, window) == []
    decreases |q|
  {
    if q != [] {
      PruneAllExpired(q[1..], now, window);
    }
  }

  /** When every entry is older than `maxAge`, cleanup deletes every user. */
  lemma CleanupOfExpiredRegistry(reg: Registry, now: int, maxAge: int)
    requires forall u, t, x :: Present(reg, u, t) && x in reg[u][t] ==> now - x > maxAge
    ensures Cleaned(reg, now, maxAge) == map[]
    ensures RemovedUsers(reg, now, maxAge) == reg.Keys
  {
    forall u | u in reg ensures CleanLedgers(reg[u], now, maxAge) == map[] {
      forall t | t in reg[u] ensures Prune(reg[u][t], now, maxAge) == [] {
        assert forall i :: 0 <= i < |reg[u][t]| ==> reg[u][t][i] in reg[u][t];
        PruneAllExpired(reg[u][t], now, maxAge);
      }
    }
  }

  lemma CleanupKeepsInvariants(reg: Registry, now: int, maxAge: int)
    ensures WellFormed(reg) ==> WellFormed(Cleaned(reg, now, maxAge))
    ensures Chronological(reg, now) ==> Chronological(Cleaned(reg, now, maxAge), now)
  {
    var c := Cleaned(reg, now, maxAge);
    forall u, t | Present(c, u, t)
      ensures Present(reg, u, t) && c[u][t] == Prune(reg[u][t], now, maxAge)
    {
      CleanedAt(reg, now, maxAge, u, t);
    }
    if Chronological(reg, now) {
      forall u, t | Present(c, u, t) ensures Sorted(c[u][t]) && NotAfter(c[u][t], now) {
        PruneKeepsOrder(reg[u][t], now, maxAge);
      }
    }
  }

  // ----- get_global_stats -----

  /** Horizon of `get_global_stats`: entries strictly less than a day old count. */
  const StatsHorizon: int := 86400

  /** How many entries of `q` are strictly less than `StatsHorizon` seconds old. */
  function CountRecent(q: Queue, now: int): (n: nat)
    ensures n <= |q|
    decreases |q|
  {
    if q == [] then 0 else (if now - q[0] < StatsHorizon then 1 else 0) + CountRecent(q[1..], now)
  }

  lemma {:induction false} CountRecentAll(q: Queue, now: int)
    requires Sorted(q) && (q != [] ==> now - q[0] < StatsHorizon)
    ensures CountRecent(q, now) == |q|
    decreases |q|
  {
    if q != [] {
      CountRecentAll(q[1..], now);
    }
  }

  /**
   * On a sorted ledger the recent count is the length of the ledger pruned
   * with a window of `StatsHorizon - 1` seconds: the statistics use a strict
   * bound where the quota uses a non-strict one.
   */
  lemma {:induction false} CountRecentIsPrunedLength(q: Queue, now: int)
    requires Sorted(q)
    ensures CountRecent(q, now) == |Prune(q, now, StatsHorizon - 1)|
    decreases |q|
  {
    if q != [] {
      if now - q[0] > StatsHorizon - 1 {
        CountRecentIsPrunedLength(q[1..], now);
      } else {
        CountRecentAll(q, now);
      }
    }
  }

  /** The user has an entry less than a day old in some ledger. */
  predicate HasRecent(types: map<string, Queue>, now: int) {
    exists t :: t in types && CountRecent(types[t], now) > 0
  }

  /** Users counted by `active_users`. */
  function ActiveUsers(reg: Registry, now: int): set<int> {
    set u | u in reg && HasRecent(reg[u], now)
  }

  /** Some element of a non-empty set. */
  ghost function Pick<K>(s: set<K>): (x: K)
    requires s != {}
    ensures x in s
  {
    var x :| x in s; x
  }

  /** The sum of `f` over a finite set. */
  ghost function SumOver<K>(s: set<K>, f: K -> nat): nat
    decreases s
  {
    if s == {} then 0 else var x := Pick(s); f(x) + SumOver(s - {x}, f)
  }

  /** The sum does not depend on which element is taken first. */
  lemma {:induction false} SumOverRemove<K>(s: set<K>, f: K -> nat, y: K)
    requires y in s
    ensures SumOver(s, f) == f(y) + SumOver(s - {y}, f)
    decreases s
  {
    var x := Pick(s);
    if x != y {
      SumOverRemove(s - {x}, f, y);
      SumOverRemove(s - {y}, f, x);
      assert s - {x} - {y} == s - {y} - {x};
    }
  }

  lemma SumOverAdd<K>(s: set<K>, f: K -> nat, y: K)
    requires y !in s
    ensures SumOver(s + {y}, f) == SumOver(s, f) + f(y)
  {
    SumOverRemove(s + {y}, f, y);
    assert s + {y} - {y} == s;
  }

  function RecentIn(types: map<string, Queue>, now: int): string -> nat {
    t => if t in types then CountRecent(types[t], now) else 0
  }

  /** The recent entries of one user, over all of that user's ledgers. */
  ghost function UserTracked(types: map<string, Queue>, now: int): nat {
    SumOver(types.Keys, RecentIn(types, now))
  }

  ghost function TrackedOf(reg: Registry, now: int): int -> nat {
    u => if u in reg then UserTracked(reg[u], now) else 0
  }

  /** `total_requests_tracked`: recent entries over the whole registry. */
  ghost function TotalTracked(reg: Registry, now: int): nat {
    SumOver(reg.Keys, TrackedOf(reg, now))
  }

  /**
   * The running figures of `get_global_stats` after the users `done`: the
   * recent entries summed over them, and those of them that are active.
   */
  ghost predicate Tally(reg: Registry, now: int, done: set<int>, tracked: int, active: set<int>) {
    && done <= reg.Keys
    && tracked == SumOver(done, TrackedOf(reg, now))
    && active <= done
    && (forall v :: v in active <==> v in done && HasRecent(reg[v], now))
  }

  /** Taking user `u` off the users still to visit adds `u`'s figures to the tally. */
  lemma TallyStep(reg: Registry, now: int, pending: set<int>, tracked: int, active: set<int>, u: int)
    requires pending <= reg.Keys && u in pending
    requires Tally(reg, now, reg.Keys - pending, tracked, active)
    ensures u !in active && |active + {u}| == |active| + 1
    ensures Tally(reg, now, reg.Keys - (pending - {u}), tracked + UserTracked(reg[u], now),
                  if HasRecent(reg[u], now) then active + {u} else active)
  {
    var done := reg.Keys - pending;
    assert reg.Keys - (pending - {u}) == done + {u};
    TallyAdd(reg, now, done, tracked, active, u);
  }

  lemma TallyAdd(reg: Registry, now: int, done: set<int>, tracked: int, active: set<int>, u: int)
    requires Tally(reg, now, done, tracked, active) && u in reg && u !in done
    ensures u !in active
    ensures Tally(reg, now, done + {u}, tracked + UserTracked(reg[u], now),
                  if HasRecent(reg[u], now) then active + {u} else active)
  {
    SumOverAdd(done, TrackedOf(reg, now), u);
  }

  lemma TallyComplete(reg: Registry, now: int, tracked: int, active: set<int>)
    requires Tally(reg, now, reg.Keys - {}, tracked, active)
    ensures tracked == TotalTracked(reg, now)
    ensures active == ActiveUsers(reg, now)
  {
    assert reg.Keys - {} == reg.Keys;
    assert forall v :: v in active <==> v in ActiveUsers(reg, now);
  }

  datatype GlobalStats = GlobalStats(totalUsers: nat, activeUsers: nat, totalRequestsTracked: nat)

  /** Active users are registered users, so there are never more of them. */
  lemma ActiveAtMostTotal(reg: Registry, now: int)
    ensures ActiveUsers(reg, now) <= reg.Keys
    ensures |ActiveUsers(reg, now)| <= |reg|
  {
    var a := ActiveUsers(reg, now);
    assert a <= reg.Keys;
    assert |reg.Keys - a| == |reg.Keys| - |a|;
  }
}
