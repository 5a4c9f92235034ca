/** The interned strings: chains hung from buckets, each string knowing the pointer that leads to it. */
module InternTable {
  import opened StringHash

  const NR_BUCKETS: nat := 4091

  type Addr = nat
  const NULL: Addr := 0

  /** Where a pointer to a string is kept: a bucket, or another string's next field. */
  datatype Place = Bucket(b: nat) | NextOf(s: Addr)

  datatype Node = Node(prevptr: Place, next: Addr, bytes: seq<Byte>, hash: bv32, refcnt: int, insensitive: Addr)

  type Memory = map<Addr, Node>

  function BucketOf(h: bv32): (b: nat)
    ensures b < NR_BUCKETS
  {
    h as nat % NR_BUCKETS
  }

  /** The i-th string of a chain, or NULL at its end. */
  function At(chain: seq<Addr>, i: nat): Addr {
    if i < |chain| then chain[i] else NULL
  }

  /** The pointer that leads to the i-th string. */
  function PlaceOf(b: nat, chain: seq<Addr>, i: nat): Place
    requires i <= |chain|
  {
    if i == 0 then Bucket(b) else NextOf(chain[i - 1])
  }

  /** The i-th string of a chain is linked both ways and belongs to the bucket. */
  ghost predicate LinkOk(mem: Memory, b: nat, chain: seq<Addr>, i: nat)
    requires i < |chain|
  {
    && chain[i] != NULL && chain[i] in mem
    && mem[chain[i]].next == At(chain, i + 1)
    && mem[chain[i]].prevptr == PlaceOf(b, chain, i)
    && BucketOf(mem[chain[i]].hash) == b
  }

  ghost predicate Distinct(chain: seq<Addr>) {
    forall i, j :: 0 <= i < j < |chain| ==> chain[i] != chain[j]
  }

  ghost predicate ChainOk(first: Addr, mem: Memory, b: nat, chain: seq<Addr>) {
    && first == At(chain, 0) && Distinct(chain)
    && forall i :: 0 <= i < |chain| ==> LinkOk(mem, b, chain, i)
  }

  /** Every bucket leads to its chain, and every string is on the chain of its bucket. */
  ghost predicate ChainsOk(buckets: seq<Addr>, mem: Memory, chains: seq<seq<Addr>>) {
    && |buckets| == |chains| == NR_BUCKETS && NULL !in mem
    && (forall b :: 0 <= b < NR_BUCKETS ==> ChainOk(buckets[b], mem, b, chains[b]))
    && (forall a <- mem :: a in chains[BucketOf(mem[a].hash)])
  }

  /** No two strings have the same bytes. */
  ghost predicate Unique(mem: Memory) {
    && (forall a <- mem :: mem[a].hash == Hash(mem[a].bytes))
    && (forall a, b | a in mem && b in mem && a != b :: mem[a].bytes != mem[b].bytes)
  }

  /** A caseless companion is the lower-case string. */
  ghost predicate CompanionOk(mem: Memory, a: Addr)
    requires a in mem
  {
    var c := mem[a].insensitive;
    c != NULL ==> c in mem && mem[c].bytes == Lower(mem[a].bytes)
  }

  ghost predicate CompanionsOk(mem: Memory) {
    forall a <- mem :: CompanionOk(mem, a)
  }

  /** The strings that have s as their companion. */
  ghost function Companies(mem: Memory, s: Addr): set<Addr> {
    set a | a in mem && mem[a].insensitive == s
  }

  /** A count is the references given out and one for each string that has it as its companion. */
  ghost predicate CountOk(mem: Memory, given: map<Addr, nat>, a: Addr)
    requires a in mem && a in given
  {
    mem[a].refcnt == given[a] + |Companies(mem, a)|
  }

  /** A string stays only for a reference, or for a string other than itself. */
  ghost predicate Needed(mem: Memory, a: Addr)
    requires a in mem
  {
    mem[a].refcnt >= (if mem[a].insensitive == a then 2 else 1)
  }

  ghost predicate CountsOk(mem: Memory, given: map<Addr, nat>) {
    && given.Keys == mem.Keys
    && forall a <- mem :: CountOk(mem, given, a)
  }

  // What changes, field by field.

  /** Links, bytes and companions are the same: only counts may differ. */
  ghost predicate SameLinks(m: Memory, n: Memory) {
    && m.Keys == n.Keys
    && forall a <- m :: n[a] == m[a].(refcnt := n[a].refcnt, insensitive := n[a].insensitive)
  }

  lemma SameLinksChains(buckets: seq<Addr>, m: Memory, n: Memory, chains: seq<seq<Addr>>)
    requires ChainsOk(buckets, m, chains) && SameLinks(m, n)
    ensures ChainsOk(buckets, n, chains)
  {
    forall b | 0 <= b < NR_BUCKETS ensures ChainOk(buckets[b], n, b, chains[b]) {
      assert ChainOk(buckets[b], m, b, chains[b]);
      forall i | 0 <= i < |chains[b]| ensures LinkOk(n, b, chains[b], i) { assert LinkOk(m, b, chains[b], i); }
    }
  }

  /** A chain none of whose strings changed its links stands. */
  lemma OtherChain(first: Addr, m: Memory, n: Memory, b: nat, chain: seq<Addr>)
    requires ChainOk(first, m, b, chain)
    requires forall a <- m :: BucketOf(m[a].hash) == b ==> a in n && n[a] == m[a]
    ensures ChainOk(first, n, b, chain)
  {
    forall i | 0 <= i < |chain| ensures LinkOk(n, b, chain, i) { assert LinkOk(m, b, chain, i); }
  }

  /** Memory after a new string is put at the head of its bucket. */
  function Pushed(buckets: seq<Addr>, mem: Memory, a: Addr, s: seq<Byte>, h: bv32): Memory
    requires |buckets| == NR_BUCKETS
  {
    var first := buckets[BucketOf(h)];
    var m := if first in mem then mem[first := mem[first].(prevptr := NextOf(a))] else mem;
    m[a := Node(Bucket(BucketOf(h)), first, s, h, 1, NULL)]
  }

  lemma PushChains(buckets: seq<Addr>, mem: Memory, chains: seq<seq<Addr>>, a: Addr, s: seq<Byte>, h: bv32)
    requires ChainsOk(buckets, mem, chains) && a !in mem && a != NULL
    ensures var b := BucketOf(h);
            ChainsOk(buckets[b := a], Pushed(buckets, mem, a, s, h), chains[b := [a] + chains[b]])
  {
    hide BucketOf, LinkOk, Pushed;
    var b := BucketOf(h);
    var n, chain := Pushed(buckets, mem, a, s, h), [a] + chains[b];
    PushedIs(buckets, mem, chains, a, s, h);
    forall c | 0 <= c < NR_BUCKETS && c != b ensures ChainOk(buckets[c], n, c, chains[c]) {
      OtherChain(buckets[c], mem, n, c, chains[c]);
    }
    forall x <- n ensures x in chains[b := chain][BucketOf(n[x].hash)] {
      assert chain[0] == a;
    }
  }

  lemma PushedIs(buckets: seq<Addr>, mem: Memory, chains: seq<seq<Addr>>, a: Addr, s: seq<Byte>, h: bv32)
    requires ChainsOk(buckets, mem, chains) && a !in mem && a != NULL
    ensures var b, n := BucketOf(h), Pushed(buckets, mem, a, s, h);
            && ChainOk(a, n, b, [a] + chains[b]) && n.Keys == mem.Keys + {a} && n[a].hash == h
            && (forall x <- mem :: n[x].hash == mem[x].hash)
            && (forall x <- mem :: BucketOf(mem[x].hash) != b ==> n[x] == mem[x])
  {
    hide BucketOf;
    var b := BucketOf(h);
    var n, old_, chain := Pushed(buckets, mem, a, s, h), chains[b], [a] + chains[b];
    assert ChainOk(buckets[b], mem, b, old_);
    if |old_| > 0 { assert LinkOk(mem, b, old_, 0); }
    assert Distinct(chain) by {
      forall i | 0 <= i < |old_| ensures old_[i] != a { assert LinkOk(mem, b, old_, i); }
    }
    forall i | 0 <= i < |chain| ensures LinkOk(n, b, chain, i) {
      if i > 0 { assert LinkOk(mem, b, old_, i - 1); }
      if i > 1 { assert old_[0] != old_[i - 1]; }
    }
  }

  /** A bucket leads to a string or nowhere. */
  lemma HeadIn(buckets: seq<Addr>, mem: Memory, chains: seq<seq<Addr>>, b: nat)
    requires ChainsOk(buckets, mem, chains) && b < NR_BUCKETS
    ensures |buckets| == |chains| == NR_BUCKETS && NULL !in mem && (buckets[b] != NULL ==> buckets[b] in mem)
  {
    hide BucketOf;
    assert ChainOk(buckets[b], mem, b, chains[b]);
    if |chains[b]| > 0 { assert LinkOk(mem, b, chains[b], 0); }
  }

  /** Buckets and memory after a string is taken out through the pointer that leads to it. */
  function UnlinkedBuckets(buckets: seq<Addr>, mem: Memory, s: Addr): seq<Addr>
    requires s in mem
  {
    var place := mem[s].prevptr;
    if place.Bucket? && place.b < |buckets| then buckets[place.b := mem[s].next] else buckets
  }

  function Unlinked(mem: Memory, s: Addr): Memory
    requires s in mem
  {
    var place, next := mem[s].prevptr, mem[s].next;
    var m := if place.NextOf? && place.s in mem then mem[place.s := mem[place.s].(next := next)] else mem;
    (if next in m then m[next := m[next].(prevptr := place)] else m) - {s}
  }

  function Without(chain: seq<Addr>, i: nat): seq<Addr>
    requires i < |chain|
  {
    chain[..i] + chain[i + 1..]
  }

  /** What the pointers of a string lead to. */
  lemma PlaceIs(buckets: seq<Addr>, mem: Memory, chains: seq<seq<Addr>>, s: Addr) returns (i: nat)
    requires ChainsOk(buckets, mem, chains) && s in mem
    ensures |buckets| == |chains| == NR_BUCKETS && NULL !in mem
    ensures var b := BucketOf(mem[s].hash);
            && i < |chains[b]| && chains[b][i] == s
            && mem[s].prevptr == PlaceOf(b, chains[b], i) && mem[s].next == At(chains[b], i + 1)
            && ChainOk(buckets[b], mem, b, chains[b])
    ensures mem[s].prevptr.NextOf? ==> mem[s].prevptr.s in mem && mem[s].prevptr.s != s
    ensures mem[s].prevptr.Bucket? ==> mem[s].prevptr.b < |buckets| && buckets[mem[s].prevptr.b] == s
    ensures mem[s].next != NULL ==> mem[s].next in mem && mem[s].next != s
  {
    hide BucketOf;
    var b := BucketOf(mem[s].hash);
    var chain := chains[b];
    i :| 0 <= i < |chain| && chain[i] == s;
    assert ChainOk(buckets[b], mem, b, chain);
    assert LinkOk(mem, b, chain, i);
    if i > 0 { assert LinkOk(mem, b, chain, i - 1); }
    if i + 1 < |chain| { assert LinkOk(mem, b, chain, i + 1); }
  }

  lemma UnlinkLink(mem: Memory, b: nat, chain: seq<Addr>, i: nat, j: nat)
    requires i < |chain| && j < |chain| - 1 && Distinct(chain) && chain[i] in mem
    requires forall k :: 0 <= k < |chain| ==> LinkOk(mem, b, chain, k)
    ensures LinkOk(Unlinked(mem, chain[i]), b, Without(chain, i), j)
  {
    hide BucketOf;
    var k := if j < i then j else j + 1;
    assert LinkOk(mem, b, chain, k) && LinkOk(mem, b, chain, i);
    assert chain[k] != chain[i];
    if i > 0 { assert LinkOk(mem, b, chain, i - 1); }
    if i + 1 < |chain| { assert LinkOk(mem, b, chain, i + 1); }
  }

  /** Only strings of the same bucket change, and only in their links. */
  lemma UnlinkedIs(buckets: seq<Addr>, mem: Memory, chains: seq<seq<Addr>>, s: Addr)
    requires ChainsOk(buckets, mem, chains) && s in mem
    ensures Unlinked(mem, s).Keys == mem.Keys - {s}
    ensures forall x <- Unlinked(mem, s) ::
              && Unlinked(mem, s)[x] == mem[x].(next := Unlinked(mem, s)[x].next, prevptr := Unlinked(mem, s)[x].prevptr)
              && (BucketOf(mem[x].hash) != BucketOf(mem[s].hash) ==> Unlinked(mem, s)[x] == mem[x])
  {
    hide BucketOf;
    var b := BucketOf(mem[s].hash);
    var i := PlaceIs(buckets, mem, chains, s);
    if i > 0 { assert LinkOk(mem, b, chains[b], i - 1); }
    if i + 1 < |chains[b]| { assert LinkOk(mem, b, chains[b], i + 1); }
  }

  lemma UnlinkOwn(first: Addr, mem: Memory, b: nat, chain: seq<Addr>, i: nat)
    requires ChainOk(first, mem, b, chain) && i < |chain| && chain[i] in mem
    ensures ChainOk(if i == 0 then mem[chain[i]].next else first, Unlinked(mem, chain[i]), b, Without(chain, i))
  {
    hide BucketOf, Unlinked;
    var less := Without(chain, i);
    forall j | 0 <= j < |less| ensures LinkOk(Unlinked(mem, chain[i]), b, less, j) { UnlinkLink(mem, b, chain, i, j); }
    assert LinkOk(mem, b, chain, i);
  }

  /** Taking a string out leaves every other one on its chain. */
  lemma UnlinkChains(buckets: seq<Addr>, mem: Memory, chains: seq<seq<Addr>>, s: Addr, i: nat)
    requires ChainsOk(buckets, mem, chains) && s in mem
    requires i < |chains[BucketOf(mem[s].hash)]| && chains[BucketOf(mem[s].hash)][i] == s
    ensures var b := BucketOf(mem[s].hash);
            ChainsOk(UnlinkedBuckets(buckets, mem, s), Unlinked(mem, s), chains[b := Without(chains[b], i)])
  {
    hide BucketOf, Unlinked, LinkOk;
    var b := BucketOf(mem[s].hash);
    var n, chain, less := Unlinked(mem, s), chains[b], Without(chains[b], i);
    var k := PlaceIs(buckets, mem, chains, s);
    assert k == i;
    UnlinkedIs(buckets, mem, chains, s);
    UnlinkOwn(buckets[b], mem, b, chain, i);
    hide ChainOk;
    var after := UnlinkedBuckets(buckets, mem, s);
    forall c | 0 <= c < NR_BUCKETS && c != b ensures ChainOk(after[c], n, c, chains[c]) {
      OtherChain(buckets[c], mem, n, c, chains[c]);
    }
    hide Without, UnlinkedBuckets;
    forall x <- n ensures x in chains[b := less][BucketOf(n[x].hash)] {
      assert x in chains[BucketOf(mem[x].hash)] && mem[x].hash == n[x].hash;
      if BucketOf(n[x].hash) == b { StillIn(chain, i, x); }
    }
  }

  lemma StillIn(chain: seq<Addr>, i: nat, x: Addr)
    requires i < |chain| && x in chain && x != chain[i]
    ensures x in Without(chain, i)
  {
    var j :| 0 <= j < |chain| && chain[j] == x;
    assert Without(chain, i)[if j < i then j else j - 1] == x;
  }
}
