/** The fetch queue: two rings, a limit overall and per host, and reference-counted fetchers. */
module FetchScheduler {

  type Host = nat     // an interned host name
  type Scheme = nat   // an interned scheme

  const MAX_FETCHERS := 10

  // fetch_msg_type; anything from FINISHED on completes the fetch.
  const FINISHED: nat := 4
  const ERROR: nat := 6
  const ABORTED: nat := ERROR

  predicate Finishing(msg: nat) {
    msg >= FINISHED
  }

  datatype Outcome = Queued | NoFetchHandler | BadUrl

  class Fetch {
    const host: Host
    const fetcherd: nat
    var isActive: bool
    var lastMsg: nat

    constructor (h: Host, d: nat)
      ensures host == h && fetcherd == d && !isActive && lastMsg == 0
    {
      host, fetcherd, isActive, lastMsg := h, d, false, 0;
    }
  }

  /** RING_COUNTBYLWCHOST */
  function CountHost(ring: seq<Fetch>, h: Host): nat {
    if ring == [] then 0
    else CountHost(ring[..|ring| - 1], h) + (if ring[|ring| - 1].host == h then 1 else 0)
  }

  /** The fetches of one host, in order. */
  ghost function OfHost(ring: seq<Fetch>, h: Host): seq<Fetch> {
    if ring == [] then []
    else OfHost(ring[..|ring| - 1], h) + (if ring[|ring| - 1].host == h then [ring[|ring| - 1]] else [])
  }

  ghost predicate Distinct(ring: seq<Fetch>) {
    forall i, j :: 0 <= i < j < |ring| ==> ring[i] != ring[j]
  }

  function Without(ring: seq<Fetch>, i: nat): (r: seq<Fetch>)
    requires i < |ring|
    ensures |r| == |ring| - 1
  {
    ring[..i] + ring[i + 1..]
  }

  lemma WithoutIsRing(ring: seq<Fetch>, i: nat)
    requires i < |ring| && Distinct(ring)
    ensures Distinct(Without(ring, i)) && ring[i] !in Without(ring, i)
    ensures forall f <- ring :: f == ring[i] || f in Without(ring, i)
    ensures forall f <- Without(ring, i) :: f in ring
  {
  }

  lemma InsertIsRing(ring: seq<Fetch>, fetch: Fetch)
    requires Distinct(ring) && fetch !in ring
    ensures Distinct(ring + [fetch])
    ensures forall f <- ring :: f in ring + [fetch]
    ensures fetch in ring + [fetch]
    ensures forall f <- ring + [fetch] :: f in ring || f == fetch
    ensures forall h :: CountHost(ring + [fetch], h) == CountHost(ring, h) + (if fetch.host == h then 1 else 0)
  {
  }

  ghost predicate Removal(ring: seq<Fetch>, less: seq<Fetch>, f: Fetch) {
    exists i :: 0 <= i < |ring| && ring[i] == f && less == Without(ring, i)
  }

  /** RING_REMOVE: the order of the others stands. */
  method RingRemove(ring: seq<Fetch>, f: Fetch) returns (r: seq<Fetch>)
    requires Distinct(ring) && f in ring
    ensures Removal(ring, r, f) && Distinct(r) && f !in r
    ensures forall g <- r :: g in ring
    ensures forall g <- ring :: g == f || g in r
    ensures |r| < |ring| && forall h :: CountHost(r, h) <= CountHost(ring, h)
  {
    hide CountHost;
    var i :| 0 <= i < |ring| && ring[i] == f;
    WithoutIsRing(ring, i);
    r := Without(ring, i);
    hide Without;
    forall h { CountHostWithout(ring, i, h); }
  }

  lemma CountHostWithout(ring: seq<Fetch>, i: nat, h: Host)
    requires i < |ring|
    ensures CountHost(Without(ring, i), h) <= CountHost(ring, h)
  {
    hide CountHost;
    assert ring == ring[..i] + ring[i..] && ring[i..] == [ring[i]] + ring[i + 1..];
    CountHostConcat(ring[..i], ring[i..], h);
    CountHostConcat([ring[i]], ring[i + 1..], h);
    CountHostConcat(ring[..i], ring[i + 1..], h);
  }

  lemma {:induction false} CountHostConcat(a: seq<Fetch>, b: seq<Fetch>, h: Host)
    ensures CountHost(a + b, h) == CountHost(a, h) + CountHost(b, h)
  {
    if b == [] {
      assert a + b == a;
    } else {
      var n := |b| - 1;
      assert (a + b)[..|a + b| - 1] == a + b[..n];
      CountHostConcat(a, b[..n], h);
    }
  }

  lemma {:induction false} OfHostConcat(a: seq<Fetch>, b: seq<Fetch>, h: Host)
    ensures OfHost(a + b, h) == OfHost(a, h) + OfHost(b, h)
  {
    if b == [] {
      assert a + b == a;
    } else {
      var n := |b| - 1;
      assert (a + b)[..|a + b| - 1] == a + b[..n];
      OfHostConcat(a, b[..n], h);
    }
  }

  /** Taking out a fetch with no fetch of its host before it takes off the first of its host. */
  lemma OfHostWithout(ring: seq<Fetch>, i: nat, h: Host)
    requires i < |ring| && forall j :: 0 <= j < i ==> ring[j].host != ring[i].host
    ensures OfHost(ring, h) == (if ring[i].host == h then [ring[i]] else []) + OfHost(Without(ring, i), h)
  {
    hide OfHost;
    assert ring == ring[..i] + ([ring[i]] + ring[i + 1..]);
    OfHostConcat(ring[..i], [ring[i]] + ring[i + 1..], h);
    OfHostConcat([ring[i]], ring[i + 1..], h);
    OfHostConcat(ring[..i], ring[i + 1..], h);
    OfHostOne(ring[i], h);
    if ring[i].host == h { NoneOfHost(ring[..i], h); }
  }

  lemma OfHostOne(f: Fetch, h: Host)
    ensures OfHost([f], h) == if f.host == h then [f] else []
  {
    assert [f][..0] == [];
  }

  lemma {:induction false} NoneOfHost(ring: seq<Fetch>, h: Host)
    requires forall j :: 0 <= j < |ring| ==> ring[j].host != h
    ensures OfHost(ring, h) == []
  {
    if ring == [] {
    } else {
      NoneOfHost(ring[..|ring| - 1], h);
    }
  }

  // What serving the queue comes to.

  /** The place of the first queued fetch whose host is below its limit, or the length of the queue. */
  ghost function FirstFree(active: seq<Fetch>, queue: seq<Fetch>, perHost: nat): (i: nat)
    ensures i <= |queue| && forall j :: 0 <= j < i ==> CountHost(active, queue[j].host) >= perHost
    ensures i < |queue| ==> CountHost(active, queue[i].host) < perHost
  {
    if queue == [] then 0
    else
      var n := |queue| - 1;
      var i := FirstFree(active, queue[..n], perHost);
      if i < n || CountHost(active, queue[n].host) < perHost then i else n + 1
  }

  datatype Dispatched = Dispatched(begun: seq<Fetch>, queue: seq<Fetch>, refused: bool) {
    /** What is left of the queue but for a fetch that was refused. */
    ghost function Waiting(): seq<Fetch> {
      if refused && queue != [] then queue[..|queue| - 1] else queue
    }

    /** The fetches whose start was asked for. */
    ghost function Tried(): set<Fetch> {
      (set f | f in begun) + if refused && queue != [] then {queue[|queue| - 1]} else {}
    }

    /** What is left of the queue with a fetch that was refused put first. */
    ghost function Untried(): seq<Fetch> {
      if refused && queue != [] then [queue[|queue| - 1]] + queue[..|queue| - 1] else queue
    }
  }

  /**
   * Serving the queue one fetch at a time, start(n) being the answer to the n-th start: always the first fetch
   * whose host is below its limit, until none may start or one is refused, which goes to the end.
   */
  ghost function Dispatch(active: seq<Fetch>, queue: seq<Fetch>, max: nat, perHost: nat, start: nat -> bool, n: nat): Dispatched
    decreases |queue|
  {
    var i := FirstFree(active, queue, perHost);
    if |active| >= max || i == |queue| then Dispatched([], queue, false)
    else if !start(n) then Dispatched([], Without(queue, i) + [queue[i]], true)
    else
      var d := Dispatch(active + [queue[i]], Without(queue, i), max, perHost, start, n + 1);
      d.(begun := [queue[i]] + d.begun)
  }

  /** No queued fetch may start. */
  ghost predicate Stuck(active: seq<Fetch>, queue: seq<Fetch>, max: nat, perHost: nat) {
    |active| >= max || forall f <- queue :: CountHost(active, f.host) >= perHost
  }

  /** A queue without some of its fetches, in order. */
  ghost function Minus(queue: seq<Fetch>, gone: set<Fetch>): seq<Fetch> {
    if queue == [] then []
    else Minus(queue[..|queue| - 1], gone) + if queue[|queue| - 1] in gone then [] else [queue[|queue| - 1]]
  }

  /** The first step of serving the queue. */
  lemma DispatchStep(active: seq<Fetch>, queue: seq<Fetch>, max: nat, perHost: nat, start: nat -> bool, n: nat)
    ensures var i, d := FirstFree(active, queue, perHost), Dispatch(active, queue, max, perHost, start, n);
            && (|active| >= max || i == |queue| ==> d == Dispatched([], queue, false))
            && (|active| < max && i < |queue| && !start(n) ==> d == Dispatched([], Without(queue, i) + [queue[i]], true))
            && (|active| < max && i < |queue| && start(n) ==>
                  var e := Dispatch(active + [queue[i]], Without(queue, i), max, perHost, start, n + 1);
                  d == Dispatched([queue[i]] + e.begun, e.queue, e.refused))
  {
    hide CountHost;
  }

  /**
   * Work is conserved: the fetches begun are those answered true; serving ends with no fetch that may start,
   * or with one that might have started and was answered false, and that one is last in the queue.
   */
  lemma {:induction false} DispatchConserves(active: seq<Fetch>, queue: seq<Fetch>, max: nat, perHost: nat, start: nat -> bool, n: nat)
    ensures var d := Dispatch(active, queue, max, perHost, start, n);
            var now := active + d.begun;
            && (forall k :: n <= k < n + |d.begun| ==> start(k))
            && (d.refused ==> d.queue != [] && !start(n + |d.begun|) && |now| < max
                              && CountHost(now, d.queue[|d.queue| - 1].host) < perHost)
            && (d.refused <==> !Stuck(now, d.queue, max, perHost))
    decreases |queue|
  {
    hide CountHost, Dispatch;
    DispatchStep(active, queue, max, perHost, start, n);
    var i := FirstFree(active, queue, perHost);
    var d := Dispatch(active, queue, max, perHost, start, n);
    if |active| >= max || i == |queue| {
      assert active + [] == active;
    } else if !start(n) {
      assert active + [] == active && d.queue[|d.queue| - 1] == queue[i];
      assert d.queue[|d.queue| - 1] in d.queue;
    } else {
      DispatchConserves(active + [queue[i]], Without(queue, i), max, perHost, start, n + 1);
      var e := Dispatch(active + [queue[i]], Without(queue, i), max, perHost, start, n + 1);
      assert active + [queue[i]] + e.begun == active + d.begun;
    }
  }

  /** The fetches of every host are tried in queue order. */
  lemma {:induction false} DispatchInOrder(active: seq<Fetch>, queue: seq<Fetch>, max: nat, perHost: nat, start: nat -> bool, n: nat, h: Host)
    ensures var d := Dispatch(active, queue, max, perHost, start, n);
            OfHost(d.begun, h) + OfHost(d.Untried(), h) == OfHost(queue, h)
    decreases |queue|
  {
    hide CountHost, OfHost, Dispatch, Without;
    NoneOfHost([], h);
    DispatchStep(active, queue, max, perHost, start, n);
    var i := FirstFree(active, queue, perHost);
    if |active| < max && i < |queue| {
      OfHostWithout(queue, i, h);
      OfHostOne(queue[i], h);
      var d := Dispatch(active, queue, max, perHost, start, n);
      if start(n) {
        DispatchInOrder(active + [queue[i]], Without(queue, i), max, perHost, start, n + 1, h);
        var e := Dispatch(active + [queue[i]], Without(queue, i), max, perHost, start, n + 1);
        OfHostConcat([queue[i]], e.begun, h);
      } else {
        assert d.queue[..|d.queue| - 1] == Without(queue, i);
        OfHostConcat([queue[i]], Without(queue, i), h);
      }
    }
  }

  lemma {:induction false} MinusConcat(a: seq<Fetch>, b: seq<Fetch>, gone: set<Fetch>)
    ensures Minus(a + b, gone) == Minus(a, gone) + Minus(b, gone)
  {
    if b == [] {
      assert a + b == a;
    } else {
      var n := |b| - 1;
      assert (a + b)[..|a + b| - 1] == a + b[..n];
      MinusConcat(a, b[..n], gone);
    }
  }

  lemma {:induction false} MinusSame(queue: seq<Fetch>, a: set<Fetch>, b: set<Fetch>)
    requires forall f <- queue :: f in a <==> f in b
    ensures Minus(queue, a) == Minus(queue, b)
  {
    if queue == [] {
    } else {
      MinusSame(queue[..|queue| - 1], a, b);
    }
  }

  lemma {:induction false} MinusNone(queue: seq<Fetch>)
    ensures Minus(queue, {}) == queue
  {
    if queue == [] {
    } else {
      MinusNone(queue[..|queue| - 1]);
    }
  }

  lemma MinusWithout(queue: seq<Fetch>, i: nat, gone: set<Fetch>)
    requires Distinct(queue) && i < |queue|
    ensures Minus(queue, gone + {queue[i]}) == Minus(Without(queue, i), gone)
  {
    hide Minus;
    var a, x, b := queue[..i], queue[i], queue[i + 1..];
    assert queue == a + ([x] + b);
    MinusConcat(a, [x] + b, gone + {x});
    MinusConcat([x], b, gone + {x});
    MinusConcat(a, b, gone);
    MinusSame(a, gone + {x}, gone);
    MinusSame(b, gone + {x}, gone);
    MinusOne(x, gone);
  }

  lemma MinusOne(x: Fetch, gone: set<Fetch>)
    ensures Minus([x], gone + {x}) == []
  {
    assert [x][..0] == [];
  }

  /** No fetch is lost or doubled. */
  lemma {:induction false} DispatchKeepsAll(active: seq<Fetch>, queue: seq<Fetch>, max: nat, perHost: nat, start: nat -> bool, n: nat)
    ensures var d := Dispatch(active, queue, max, perHost, start, n);
            multiset(d.begun) + multiset(d.queue) == multiset(queue)
    decreases |queue|
  {
    hide CountHost, Dispatch, Without;
    DispatchStep(active, queue, max, perHost, start, n);
    var i := FirstFree(active, queue, perHost);
    if |active| < max && i < |queue| {
      WithoutMultiset(queue, i);
      if start(n) { DispatchKeepsAll(active + [queue[i]], Without(queue, i), max, perHost, start, n + 1); }
    }
  }

  /** The fetches that were not tried wait in their old order. */
  lemma {:induction false} DispatchKeepsOrder(active: seq<Fetch>, queue: seq<Fetch>, max: nat, perHost: nat, start: nat -> bool, n: nat)
    requires Distinct(queue)
    ensures var d := Dispatch(active, queue, max, perHost, start, n);
            d.Waiting() == Minus(queue, d.Tried())
    decreases |queue|
  {
    hide CountHost, Minus, Distinct, Dispatch, Without;
    DispatchStep(active, queue, max, perHost, start, n);
    var i := FirstFree(active, queue, perHost);
    var d := Dispatch(active, queue, max, perHost, start, n);
    if |active| >= max || i == |queue| {
      MinusNone(queue);
      assert d.Tried() == {};
    } else if start(n) {
      WithoutIsRing(queue, i);
      DispatchKeepsOrder(active + [queue[i]], Without(queue, i), max, perHost, start, n + 1);
      var e := Dispatch(active + [queue[i]], Without(queue, i), max, perHost, start, n + 1);
      MinusWithout(queue, i, e.Tried());
      assert d.Tried() == e.Tried() + {queue[i]};
    } else {
      MinusWithout(queue, i, {});
      MinusNone(Without(queue, i));
      assert d.Waiting() == Without(queue, i);
      assert d.Tried() == {} + {queue[i]};
    }
  }

  lemma WithoutMultiset(queue: seq<Fetch>, i: nat)
    requires i < |queue|
    ensures multiset(queue) == multiset(Without(queue, i)) + multiset{queue[i]}
  {
    assert queue == queue[..i] + ([queue[i]] + queue[i + 1..]);
  }

  method CountByHost(ring: seq<Fetch>, h: Host) returns (count: nat)
    ensures count == CountHost(ring, h) == |OfHost(ring, h)|
  {
    count := 0;
    var i := 0;
    while i < |ring|
      invariant 0 <= i <= |ring|
      invariant count == CountHost(ring[..i], h) == |OfHost(ring[..i], h)|
    {
      assert ring[..i + 1][..i] == ring[..i];
      if ring[i].host == h { count := count + 1; }
      i := i + 1;
    }
    assert ring[..|ring|] == ring;
  }

  ghost function LiveOn(live: set<Fetch>, d: nat): set<Fetch> {
    set f | f in live && f.fetcherd == d
  }

  /** A fetcher is held once by its registration and once by every live fetch; those need it registered. */
  ghost predicate RefsHeld(refs: seq<int>, live: set<Fetch>, registered: set<nat>) {
    && |refs| == MAX_FETCHERS
    && (forall d :: 0 <= d < MAX_FETCHERS ==> refs[d] == (if d in registered then 1 else 0) + |LiveOn(live, d)|)
    && (forall f <- live :: f.fetcherd < MAX_FETCHERS && f.fetcherd in registered)
  }

  /** A fetcher that is held is a registered one. */
  lemma HeldByRegistration(refs: seq<int>, live: set<Fetch>, registered: set<nat>, d: nat)
    requires RefsHeld(refs, live, registered) && d < MAX_FETCHERS
    ensures refs[d] >= 0 && (refs[d] > 0 <==> d in registered)
  {
  }

  lemma RegisterHeld(refs: seq<int>, live: set<Fetch>, registered: set<nat>, d: nat)
    requires RefsHeld(refs, live, registered) && d < MAX_FETCHERS && d !in registered
    ensures refs[d] == 0 && RefsHeld(refs[d := 1], live, registered + {d})
  {
  }

  lemma LiveOnAdd(live: set<Fetch>, f: Fetch, d: nat)
    requires f !in live
    ensures |LiveOn(live + {f}, d)| == |LiveOn(live, d)| + if d == f.fetcherd then 1 else 0
  {
    assert f !in LiveOn(live, d);
    if d == f.fetcherd {
      assert LiveOn(live + {f}, d) == LiveOn(live, d) + {f};
    } else {
      assert LiveOn(live + {f}, d) == LiveOn(live, d);
    }
  }

  lemma StartHeld(refs: seq<int>, live: set<Fetch>, registered: set<nat>, f: Fetch)
    requires RefsHeld(refs, live, registered) && f !in live && f.fetcherd < MAX_FETCHERS && f.fetcherd in registered
    ensures RefsHeld(refs[f.fetcherd := refs[f.fetcherd] + 1], live + {f}, registered)
  {
    hide LiveOn;
    forall d: nat { LiveOnAdd(live, f, d); }
  }

  lemma FreeHeld(refs: seq<int>, live: set<Fetch>, registered: set<nat>, f: Fetch)
    requires RefsHeld(refs, live, registered) && f in live
    ensures f.fetcherd < MAX_FETCHERS && refs[f.fetcherd] > 1
    ensures RefsHeld(refs[f.fetcherd := refs[f.fetcherd] - 1], live - {f}, registered)
  {
    hide LiveOn;
    assert live - {f} + {f} == live;
    forall d: nat { LiveOnAdd(live - {f}, f, d); }
  }

  class Scheduler {
    var fetchRing: seq<Fetch>           // active fetches
    var queueRing: seq<Fetch>           // queued fetches
    var refcount: seq<int>              // per fetcher
    var scheme: seq<Scheme>             // per fetcher
    const maxFetchers: nat
    const maxFetchersPerHost: nat

    ghost var live: set<Fetch>          // fetches not yet freed
    ghost var removed: set<Fetch>       // fetches taken off the queues
    ghost var told: set<Fetch>          // fetches whose user was sent a finishing message, or who aborted them
    ghost var freed: set<Fetch>
    ghost var registered: set<nat>      // fetchers added and not quit

    constructor (max: nat, maxPerHost: nat)
      ensures Valid() && live == {} && fetchRing == queueRing == []
      ensures maxFetchers == max && maxFetchersPerHost == maxPerHost
    {
      fetchRing, queueRing := [], [];
      live, removed, told, freed, registered := {}, {}, {}, {}, {};
      refcount, scheme := seq(MAX_FETCHERS, _ => 0), seq(MAX_FETCHERS, _ => 0);
      maxFetchers, maxFetchersPerHost := max, maxPerHost;
      new;
      forall d: nat ensures LiveOn(live, d) == {} { }
    }

    /** A fetch is in one ring, the one its flag says, once, until it is removed. */
    ghost predicate RingsOk()
      reads this, live
    {
      && Distinct(fetchRing) && Distinct(queueRing)
      && (forall f <- fetchRing :: f in live && f !in removed && f.isActive)
      && (forall f <- queueRing :: f in live && f !in removed && !f.isActive)
      && (forall f <- live :: f in removed || f in (if f.isActive then fetchRing else queueRing))
    }

    /** Neither limit is ever exceeded. */
    ghost predicate LimitsOk()
      reads this
    {
      |fetchRing| <= maxFetchers && forall h :: CountHost(fetchRing, h) <= maxFetchersPerHost
    }

    ghost predicate RefsOk()
      reads this
    {
      RefsHeld(refcount, live, registered) && |refcount| == |scheme| == MAX_FETCHERS
    }

    /** The last message is a finishing one exactly when the user knows of an end; no fetch goes before. */
    ghost predicate ToldOk()
      reads this, live
    {
      && (forall f <- live :: f in told <==> Finishing(f.lastMsg))
      && freed <= told && freed !! live
    }

    ghost predicate Valid()
      reads this, live
    {
      RingsOk() && LimitsOk() && RefsOk() && ToldOk()
    }

    /** Whether fetches of this host are held back. */
    ghost predicate AtLimit(h: Host)
      reads this
    {
      CountHost(fetchRing, h) >= maxFetchersPerHost
    }

    /** Nothing but the rings and the active flags changed. */
    twostate predicate OnlyDispatched()
      reads this, live
    {
      && live == old(live) && removed == old(removed) && told == old(told) && freed == old(freed)
      && registered == old(registered) && refcount == old(refcount) && scheme == old(scheme)
      && forall f <- live :: f.lastMsg == old(f.lastMsg)
    }

    /** fetch_dispatch_job: the fetch at place i starts, or is refused and goes to the end of the queue. */
    method DispatchJob(i: nat, answer: bool) returns (started: bool)
      requires Valid() && i < |queueRing| && |fetchRing| < maxFetchers && !AtLimit(queueRing[i].host)
      modifies this`fetchRing, this`queueRing, live`isActive
      ensures Valid() && OnlyDispatched()
      ensures started == answer
      ensures started ==> fetchRing == old(fetchRing) + [old(queueRing[i])] && queueRing == Without(old(queueRing), i)
      ensures !started ==> fetchRing == old(fetchRing) && queueRing == Without(old(queueRing), i) + [old(queueRing[i])]
    {
      hide CountHost, OfHost;
      var fetch := queueRing[i];
      WithoutIsRing(queueRing, i);
      InsertIsRing(Without(queueRing, i), fetch);
      InsertIsRing(fetchRing, fetch);
      queueRing := Without(queueRing, i);
      hide Without, Distinct;
      started := answer;   // of the fetcher's start operation
      if !started {
        queueRing := queueRing + [fetch];
      } else {
        fetchRing := fetchRing + [fetch];
        fetch.isActive := true;
      }
    }

    /**
     * fetch_choose_and_dispatch: the first fetch whose host is below its limit is tried, although the scan
     * steps over whole runs of one host at a time.
     */
    method ChooseAndDispatch(answer: bool) returns (started: bool)
      requires Valid() && queueRing != [] && |fetchRing| < maxFetchers
      modifies this`fetchRing, this`queueRing, live`isActive
      ensures Valid() && OnlyDispatched()
      ensures var i := FirstFree(old(fetchRing), old(queueRing), maxFetchersPerHost);
              && started == (i < |old(queueRing)| && answer)
              && fetchRing == old(fetchRing) + (if started then [old(queueRing)[i]] else [])
              && queueRing == if i == |old(queueRing)| then old(queueRing)
                              else Without(old(queueRing), i) + if answer then [] else [old(queueRing)[i]]
    {
      hide CountHost, OfHost, LiveOn, Without, Scheduler.RefsOk, Scheduler.ToldOk, Scheduler.RingsOk, Scheduler.LimitsOk;
      var item := 0;
      while item < |queueRing|
        invariant item <= |queueRing|
        invariant Valid() && OnlyDispatched()
        invariant fetchRing == old(fetchRing) && queueRing == old(queueRing)
        invariant forall j :: 0 <= j < item ==> AtLimit(queueRing[j].host)
      {
        var countByHost := CountByHost(fetchRing, queueRing[item].host);
        if countByHost < maxFetchersPerHost {
          assert item == FirstFree(fetchRing, queueRing, maxFetchersPerHost);
          started := DispatchJob(item, answer);
          return;
        }
        // step over the other fetches of the same host
        var sameHost := true;
        while sameHost && item + 1 != |queueRing|
          invariant item < |queueRing| && AtLimit(queueRing[item].host)
          invariant forall j :: 0 <= j < item ==> AtLimit(queueRing[j].host)
          decreases |queueRing| - item, sameHost
        {
          sameHost := queueRing[item].host == queueRing[item + 1].host;
          if sameHost { item := item + 1; }
        }
        item := item + 1;
      }
      started := false;
    }

    /** fetch_dispatch_jobs: the queue is served as Dispatch says, start(n) being the answer to the n-th start. */
    method DispatchJobs(start: nat -> bool) returns (polling: bool)
      requires Valid()
      modifies this`fetchRing, this`queueRing, live`isActive
      ensures Valid() && OnlyDispatched()
      ensures polling <==> fetchRing != []
      ensures var d := Dispatch(old(fetchRing), old(queueRing), maxFetchers, maxFetchersPerHost, start, 0);
              fetchRing == old(fetchRing) + d.begun && queueRing == d.queue
    {
      hide CountHost, OfHost, LiveOn, Without, Dispatch, Scheduler.RefsOk, Scheduler.ToldOk, Scheduler.RingsOk, Scheduler.LimitsOk;
      var allQueued, allActive := |queueRing|, |fetchRing|;
      ghost var d := Dispatch(fetchRing, queueRing, maxFetchers, maxFetchersPerHost, start, 0);
      ghost var begun := [];
      var asked, more := 0, true;
      while more && allQueued != 0 && allActive < maxFetchers
        invariant Valid() && OnlyDispatched()
        invariant allQueued == |queueRing| && allActive == |fetchRing| && asked >= 0
        invariant fetchRing == old(fetchRing) + begun
        invariant more ==> var e := Dispatch(fetchRing, queueRing, maxFetchers, maxFetchersPerHost, start, asked);
                           d.begun == begun + e.begun && d.queue == e.queue
        invariant !more ==> d.begun == begun && d.queue == queueRing
        decreases allQueued, more
      {
        ghost var queue, i := queueRing, FirstFree(fetchRing, queueRing, maxFetchersPerHost);
        DispatchStep(fetchRing, queueRing, maxFetchers, maxFetchersPerHost, start, asked);
        more := ChooseAndDispatch(start(asked));
        if more {
          assert queueRing == Without(queue, i);
          begun := begun + [queue[i]];
          allQueued, allActive := allQueued - 1, allActive + 1;
        }
        asked := asked + 1;
      }
      DispatchStep(fetchRing, queueRing, maxFetchers, maxFetchersPerHost, start, asked);
      polling := allActive > 0;
    }

    /** get_fetcher_for_scheme: the first registered fetcher of the scheme; a held fetcher is a registered one. */
    method GetFetcherForScheme(s: Scheme) returns (d: int)
      requires Valid()
      ensures -1 <= d < MAX_FETCHERS
      ensures d >= 0 ==> d in registered && scheme[d] == s
      ensures forall e :: 0 <= e < (if d >= 0 then d else MAX_FETCHERS) ==> e !in registered || scheme[e] != s
    {
      hide CountHost, OfHost, LiveOn, Distinct, Scheduler.RingsOk, Scheduler.LimitsOk, Scheduler.ToldOk;
      d := 0;
      while d < MAX_FETCHERS
        invariant 0 <= d <= MAX_FETCHERS
        invariant forall e :: 0 <= e < d ==> e !in registered || scheme[e] != s
      {
        HeldByRegistration(refcount, live, registered, d);
        if refcount[d] > 0 && scheme[d] == s { return; }
        d := d + 1;
      }
      d := -1;
    }

    /** fetcher_add: the first place that is not registered is taken, if there is one. */
    method FetcherAdd(s: Scheme, initialised: bool) returns (ok: bool)
      requires Valid()
      modifies this`refcount, this`scheme, this`registered
      ensures Valid()
      ensures ok <==> initialised && exists d :: 0 <= d < MAX_FETCHERS && d !in old(registered)
      ensures !ok ==> registered == old(registered) && refcount == old(refcount) && scheme == old(scheme)
      ensures ok ==> exists d :: 0 <= d < MAX_FETCHERS && d !in old(registered) && registered == old(registered) + {d}
                                 && refcount == old(refcount)[d := 1] && scheme == old(scheme)[d := s]
                                 && forall e :: 0 <= e < d ==> e in old(registered)
    {
      hide CountHost, OfHost, LiveOn, Distinct, RefsHeld;
      var d := 0;
      while d < MAX_FETCHERS && refcount[d] != 0
        invariant 0 <= d <= MAX_FETCHERS && Valid()
        invariant registered == old(registered) && refcount == old(refcount) && scheme == old(scheme)
        invariant forall e :: 0 <= e < d ==> e in registered
      {
        HeldByRegistration(refcount, live, registered, d);
        d := d + 1;
      }
      if d < MAX_FETCHERS { HeldByRegistration(refcount, live, registered, d); }
      if d == MAX_FETCHERS || !initialised {
        ok := false;
        return;
      }
      RegisterHeld(refcount, live, registered, d);
      scheme := scheme[d := s];
      refcount := refcount[d := refcount[d] + 1];
      registered := registered + {d};
      ok := true;
    }

    /**
     * fetch_start: with a fetcher for the scheme, and its setup accepting the address, the fetch is queued
     * last and the queue is served; otherwise nothing changes.
     */
    method FetchStart(s: Scheme, h: Host, setupOk: bool, start: nat -> bool) returns (outcome: Outcome, fetch: Fetch?)
      requires Valid()
      modifies this`fetchRing, this`queueRing, this`refcount, this`live, live`isActive
      ensures Valid()
      ensures outcome == NoFetchHandler <==> forall d :: 0 <= d < MAX_FETCHERS ==> d !in registered || scheme[d] != s
      ensures outcome == BadUrl <==> !setupOk && exists d :: 0 <= d < MAX_FETCHERS && d in registered && scheme[d] == s
      ensures outcome == Queued ==> fetch != null && fresh(fetch) && fetch.host == h && fetch.lastMsg == 0
      ensures outcome == Queued ==> fetch.fetcherd < MAX_FETCHERS && fetch.fetcherd in registered && scheme[fetch.fetcherd] == s && live == old(live) + {fetch}
      ensures outcome == Queued ==> refcount == old(refcount)[fetch.fetcherd := old(refcount)[fetch.fetcherd] + 1]
      ensures outcome == Queued ==>
                var d := Dispatch(old(fetchRing), old(queueRing) + [fetch], maxFetchers, maxFetchersPerHost, start, 0);
                fetchRing == old(fetchRing) + d.begun && queueRing == d.queue
      ensures outcome != Queued ==> live == old(live) && fetchRing == old(fetchRing) && queueRing == old(queueRing)
                                    && refcount == old(refcount) && forall f <- live :: f.isActive == old(f.isActive)
    {
      hide CountHost, OfHost, LiveOn, Distinct, RefsHeld, Scheduler.ToldOk, Scheduler.RingsOk, Scheduler.LimitsOk, Dispatch;
      var d := GetFetcherForScheme(s);
      if d == -1 { return NoFetchHandler, null; }
      if !setupOk { return BadUrl, null; }
      fetch := Enqueue(h, d);
      var polling := DispatchJobs(start);
      outcome := Queued;
    }

    method Enqueue(h: Host, d: nat) returns (fetch: Fetch)
      requires Valid() && d in registered && d < MAX_FETCHERS
      modifies this`queueRing, this`refcount, this`live
      ensures Valid() && fresh(fetch) && fetch.host == h && fetch.fetcherd == d && fetch.lastMsg == 0
      ensures live == old(live) + {fetch} && queueRing == old(queueRing) + [fetch]
      ensures refcount == old(refcount)[d := old(refcount)[d] + 1]
    {
      hide CountHost, OfHost, LiveOn, Distinct, RefsHeld;
      fetch := new Fetch(h, d);
      InsertIsRing(queueRing, fetch);
      StartHeld(refcount, live, registered, fetch);
      refcount := refcount[d := refcount[d] + 1];
      queueRing := queueRing + [fetch];
      live := live + {fetch};
    }

    /** fetch_abort */
    method FetchAbort(f: Fetch)
      requires Valid() && f in live
      modifies f`lastMsg, this`told
      ensures Valid() && told == old(told) + {f} && Finishing(f.lastMsg)
    {
      hide CountHost, OfHost, LiveOn, Distinct, RefsHeld;
      f.lastMsg := ABORTED;
      told := told + {f};
    }

    /** fetch_send_callback: the last message only ever rises, so a finished fetch stays finished. */
    method SendCallback(f: Fetch, msg: nat)
      requires Valid() && f in live
      modifies f`lastMsg, this`told
      ensures Valid() && f.lastMsg == (if msg > old(f.lastMsg) then msg else old(f.lastMsg))
      ensures told == old(told) + if Finishing(msg) then {f} else {}
      ensures old(Finishing(f.lastMsg)) ==> Finishing(f.lastMsg)
    {
      hide CountHost, OfHost, LiveOn, Distinct, RefsHeld;
      if msg > f.lastMsg { f.lastMsg := msg; }
      if Finishing(msg) { told := told + {f}; }
    }

    /** fetch_remove_from_queues */
    method RemoveFromQueues(f: Fetch)
      requires Valid() && f in live && f !in removed
      modifies this`fetchRing, this`queueRing, this`removed
      ensures Valid() && removed == old(removed) + {f}
      ensures f !in fetchRing && f !in queueRing
      ensures f.isActive ==> Removal(old(fetchRing), fetchRing, f) && queueRing == old(queueRing)
      ensures !f.isActive ==> Removal(old(queueRing), queueRing, f) && fetchRing == old(fetchRing)
    {
      hide CountHost, OfHost, LiveOn, Distinct, RefsHeld, Removal;
      if f.isActive {
        fetchRing := RingRemove(fetchRing, f);
      } else {
        queueRing := RingRemove(queueRing, f);
      }
      removed := removed + {f};
    }

    /** fetch_free: a user who was told of no end is sent an error before the fetch goes. */
    method FetchFree(f: Fetch)
      requires Valid() && f in live && f in removed
      modifies f`lastMsg, this`refcount, this`live, this`told, this`freed
      ensures Valid() && live == old(live) - {f} && freed == old(freed) + {f}
      ensures f in told && told == old(told) + {f}
      ensures refcount == old(refcount)[f.fetcherd := old(refcount)[f.fetcherd] - 1] && refcount[f.fetcherd] > 0
    {
      hide CountHost, OfHost, LiveOn, Distinct, RefsHeld;
      FreeHeld(refcount, live, registered, f);
      assert f.fetcherd < |refcount|;
      if f.lastMsg < FINISHED { SendCallback(f, ERROR); }
      refcount := refcount[f.fetcherd := refcount[f.fetcherd] - 1];
      live := live - {f};
      freed := freed + {f};
    }

    /** fetcher_quit: every fetcher goes, even one that fetches still hold; the counts stand only if none do. */
    method FetcherQuit()
      requires Valid()
      modifies this`refcount, this`registered
      ensures |refcount| == MAX_FETCHERS && forall d :: 0 <= d < MAX_FETCHERS ==> refcount[d] == 0
      ensures registered == {}
      ensures live == {} <==> Valid()
    {
      hide CountHost, OfHost, LiveOn, Distinct;
      var d := 0;
      while d < MAX_FETCHERS
        invariant 0 <= d <= MAX_FETCHERS == |refcount| && live == old(live) && registered == old(registered)
        invariant forall e :: 0 <= e < d ==> refcount[e] == 0
        invariant forall e :: d <= e < MAX_FETCHERS ==> refcount[e] == old(refcount)[e]
      {
        HeldByRegistration(old(refcount), live, registered, d);
        if refcount[d] > 1 { refcount := refcount[d := 1]; }
        if refcount[d] == 1 { refcount := refcount[d := 0]; }
        d := d + 1;
      }
      registered := {};
      if live == {} { NoneLive(refcount); }
    }
  }

  lemma NoneLive(refs: seq<int>)
    requires |refs| == MAX_FETCHERS && forall d :: 0 <= d < MAX_FETCHERS ==> refs[d] == 0
    ensures RefsHeld(refs, {}, {})
  {
  }
}
