/** Interning: strings are the same object exactly when they have the same bytes, and go when nothing needs them. */
module Interning {
  import opened StringHash
  import opened InternTable

  /** All that holds of the strings whatever chains they are on. */
  ghost predicate StringsOk(mem: Memory, given: map<Addr, nat>) {
    NULL !in mem && Unique(mem) && CompanionsOk(mem) && CountsOk(mem, given)
  }

  /** Two companions are one object exactly when the strings match ignoring case. */
  lemma SameCompanion(mem: Memory, a: Addr, b: Addr)
    requires Unique(mem) && CompanionsOk(mem) && a in mem && b in mem
    requires mem[a].insensitive != NULL && mem[b].insensitive != NULL
    ensures mem[a].insensitive == mem[b].insensitive <==> Lower(mem[a].bytes) == Lower(mem[b].bytes)
  {
  }

  /** A companion has no companion but itself. */
  lemma CompanionOfCompanion(mem: Memory, a: Addr)
    requires Unique(mem) && CompanionsOk(mem) && a in mem && mem[a].insensitive != NULL
    ensures var c := mem[a].insensitive; c in mem && mem[c].insensitive in {NULL, c}
  {
  }

  // Each change of the table.

  function Counted(mem: Memory, s: Addr, step: int): Memory
    requires s in mem
  {
    mem[s := mem[s].(refcnt := mem[s].refcnt + step)]
  }

  lemma SameLinksUnique(m: Memory, n: Memory)
    requires Unique(m) && SameLinks(m, n)
    ensures Unique(n)
  {
  }

  lemma PushedUnique(buckets: seq<Addr>, mem: Memory, a: Addr, s: seq<Byte>)
    requires Unique(mem) && |buckets| == NR_BUCKETS && a !in mem && forall x <- mem :: mem[x].bytes != s
    ensures Unique(Pushed(buckets, mem, a, s, Hash(s)))
  {
    hide Hash, BucketOf;
    var n := Pushed(buckets, mem, a, s, Hash(s));
    forall x, y | x in n && y in n && x != y ensures n[x].bytes != n[y].bytes { }
  }

  /** A reference given out, or handed back. */
  lemma CountedOk(mem: Memory, given: map<Addr, nat>, s: Addr, step: int)
    requires StringsOk(mem, given) && s in mem && given[s] + step >= 0
    ensures StringsOk(Counted(mem, s, step), given[s := given[s] + step])
    ensures SameLinks(mem, Counted(mem, s, step))
  {
    hide CompanionOk, CountOk, Unique;
    assert SameLinks(mem, Counted(mem, s, step));
    SameLinksUnique(mem, Counted(mem, s, step));
    var n, g := Counted(mem, s, step), given[s := given[s] + step];
    forall x <- n ensures CompanionOk(n, x) { CountedCompanion(mem, s, step, x); }
    forall x <- n ensures CountOk(n, g, x) { CountedCount(mem, given, s, step, x); }
  }

  lemma CountedCompanion(mem: Memory, s: Addr, step: int, x: Addr)
    requires s in mem && x in mem && CompanionOk(mem, x)
    ensures CompanionOk(Counted(mem, s, step), x)
  {
  }

  lemma CountedCount(mem: Memory, given: map<Addr, nat>, s: Addr, step: int, x: Addr)
    requires s in mem && x in mem && s in given && x in given && CountOk(mem, given, x) && given[s] + step >= 0
    ensures CountOk(Counted(mem, s, step), given[s := given[s] + step], x)
  {
    assert Companies(Counted(mem, s, step), x) == Companies(mem, x);
  }

  /** A new string, of bytes that no string has. */
  lemma PushedOk(buckets: seq<Addr>, mem: Memory, given: map<Addr, nat>, a: Addr, s: seq<Byte>)
    requires StringsOk(mem, given) && |buckets| == NR_BUCKETS && a != NULL && a !in mem
    requires forall x <- mem :: mem[x].bytes != s
    ensures StringsOk(Pushed(buckets, mem, a, s, Hash(s)), given[a := 1])
  {
    hide CompanionOk, CountOk, Hash, BucketOf, Unique;
    PushedUnique(buckets, mem, a, s);
    NotCompanion(mem, a);
    var n, g := Pushed(buckets, mem, a, s, Hash(s)), given[a := 1];
    forall x <- n ensures CompanionOk(n, x) { PushedCompanion(buckets, mem, a, s, Hash(s), x); }
    forall x <- n ensures CountOk(n, g, x) { PushedCount(buckets, mem, given, a, s, Hash(s), x); }
  }

  lemma PushedCompanion(buckets: seq<Addr>, mem: Memory, a: Addr, s: seq<Byte>, h: bv32, x: Addr)
    requires |buckets| == NR_BUCKETS && a !in mem && x in Pushed(buckets, mem, a, s, h)
    requires x in mem ==> CompanionOk(mem, x)
    ensures CompanionOk(Pushed(buckets, mem, a, s, h), x)
  {
  }

  lemma PushedCount(buckets: seq<Addr>, mem: Memory, given: map<Addr, nat>, a: Addr, s: seq<Byte>, h: bv32, x: Addr)
    requires |buckets| == NR_BUCKETS && a !in mem && a != NULL && given.Keys == mem.Keys && x != NULL
    requires x in Pushed(buckets, mem, a, s, h) && (x in mem ==> CountOk(mem, given, x))
    requires forall y <- mem :: mem[y].insensitive != a
    ensures CountOk(Pushed(buckets, mem, a, s, h), given[a := 1], x)
  {
    hide BucketOf;
    var n := Pushed(buckets, mem, a, s, h);
    if x == a {
      assert Companies(n, a) == {};
    } else {
      assert Companies(n, x) == Companies(mem, x);
    }
  }

  lemma NotCompanion(mem: Memory, a: Addr)
    requires CompanionsOk(mem) && a != NULL && a !in mem
    ensures forall y <- mem :: mem[y].insensitive != a
  {
  }

  /** A given reference becomes that of a companion. */
  lemma JoinedOk(mem: Memory, given: map<Addr, nat>, s: Addr, c: Addr)
    requires StringsOk(mem, given) && s in mem && c in mem && mem[s].insensitive == NULL
    requires mem[c].bytes == Lower(mem[s].bytes) && given[c] >= 1
    ensures StringsOk(Joined(mem, s, c), given[c := given[c] - 1])
    ensures SameLinks(mem, Joined(mem, s, c))
  {
    hide CompanionOk, CountOk, Unique;
    assert SameLinks(mem, Joined(mem, s, c));
    SameLinksUnique(mem, Joined(mem, s, c));
    var n, g := Joined(mem, s, c), given[c := given[c] - 1];
    forall x <- n ensures CompanionOk(n, x) { JoinedCompanion(mem, s, c, x); }
    forall x <- n ensures CountOk(n, g, x) { JoinedCount(mem, given, s, c, x); }
  }

  function Joined(mem: Memory, s: Addr, c: Addr): Memory
    requires s in mem
  {
    mem[s := mem[s].(insensitive := c)]
  }

  lemma JoinedCompanion(mem: Memory, s: Addr, c: Addr, x: Addr)
    requires s in mem && x in mem && c in mem && mem[c].bytes == Lower(mem[s].bytes) && CompanionOk(mem, x)
    ensures CompanionOk(Joined(mem, s, c), x)
  {
  }

  lemma JoinedCount(mem: Memory, given: map<Addr, nat>, s: Addr, c: Addr, x: Addr)
    requires s in mem && x in mem && c in given && x in given && CountOk(mem, given, x)
    requires mem[s].insensitive == NULL && c != NULL && x != NULL && given[c] >= 1
    ensures CountOk(Joined(mem, s, c), given[c := given[c] - 1], x)
  {
    var n := Joined(mem, s, c);
    if x == c {
      assert Companies(n, c) == Companies(mem, c) + {s};
    } else {
      assert Companies(n, x) == Companies(mem, x);
    }
  }

  /** What is given out once a string is gone: its hold on its companion is still to be handed back. */
  ghost function GivenAfter(mem: Memory, given: map<Addr, nat>, s: Addr): map<Addr, nat>
    requires s in mem && given.Keys == mem.Keys
  {
    var c := mem[s].insensitive;
    (if c != s && c in given then given[c := given[c] + 1] else given) - {s}
  }

  /** Some links changed and one string went. */
  ghost predicate DropsOnly(m: Memory, n: Memory, s: Addr) {
    && n.Keys == m.Keys - {s}
    && forall x <- n :: n[x] == m[x].(next := n[x].next, prevptr := n[x].prevptr)
  }

  /** A string that nothing but itself needs is taken out. */
  lemma DroppedOk(mem: Memory, n: Memory, given: map<Addr, nat>, s: Addr)
    requires StringsOk(mem, given) && s in mem && given[s] == 0 && Companies(mem, s) <= {s} && DropsOnly(mem, n, s)
    ensures StringsOk(n, GivenAfter(mem, given, s))
  {
    hide CompanionOk, CountOk, Hash, Companies;
    forall x <- n ensures CompanionOk(n, x) { DroppedCompanion(mem, n, s, x); }
    forall x <- n ensures CountOk(n, GivenAfter(mem, given, s), x) { DroppedCount(mem, n, given, s, x); }
  }

  lemma DroppedCompanion(mem: Memory, n: Memory, s: Addr, x: Addr)
    requires s in mem && x in n && DropsOnly(mem, n, s) && CompanionOk(mem, x) && Companies(mem, s) <= {s}
    ensures CompanionOk(n, x)
  {
  }

  lemma DroppedCount(mem: Memory, n: Memory, given: map<Addr, nat>, s: Addr, x: Addr)
    requires s in mem && x in n && DropsOnly(mem, n, s) && given.Keys == mem.Keys && CountOk(mem, given, x)
    ensures CountOk(n, GivenAfter(mem, given, s), x)
  {
    assert Companies(n, x) == Companies(mem, x) - {s};
  }

  /** What interning takes for the same string, with plain or with caseless comparison. */
  ghost predicate Matches(n: Node, s: seq<Byte>, caseless: bool) {
    && n.hash == Hash(Copied(s, caseless)) && |n.bytes| == |s|
    && (if caseless then n.bytes == Lower(s) else StrnEqual(n.bytes, s))
  }

  function Copied(s: seq<Byte>, caseless: bool): seq<Byte> {
    if caseless then Lower(s) else s
  }

  /** A string is looked for along one chain, and that finds it wherever it is. */
  lemma OnChain(buckets: seq<Addr>, mem: Memory, chains: seq<seq<Addr>>, chain: seq<Addr>, s: seq<Byte>, caseless: bool)
    requires ChainsOk(buckets, mem, chains) && chain == chains[BucketOf(Hash(Copied(s, caseless)))]
    requires forall i :: 0 <= i < |chain| ==> chain[i] in mem && !Matches(mem[chain[i]], s, caseless)
    ensures forall x <- mem :: !Matches(mem[x], s, caseless)
  {
  }

  /** Bytes that match nothing are the bytes of no string. */
  lemma Unmatched(mem: Memory, s: seq<Byte>, caseless: bool)
    requires Unique(mem) && forall x <- mem :: !Matches(mem[x], s, caseless)
    ensures forall x <- mem :: mem[x].bytes != Copied(s, caseless)
  {
    hide Hash, StrnEqual;
    forall x <- mem ensures mem[x].bytes != Copied(s, caseless) {
      StrnEqualSelf(s);
    }
  }

  /** The strings that go when a reference to s is handed back: s if nothing else needs it, and then its companion. */
  ghost function Dead(mem: Memory, given: map<Addr, nat>, s: Addr): set<Addr>
    requires s in mem && given.Keys == mem.Keys
  {
    if given[s] == 1 && Companies(mem, s) <= {s} then
      {s} + CompanionGone(mem, given, s)
    else {}
  }

  ghost function CompanionGone(mem: Memory, given: map<Addr, nat>, s: Addr): set<Addr>
    requires s in mem && given.Keys == mem.Keys
  {
    var c := mem[s].insensitive;
    if c != s && c in mem && given[c] == 0 && Companies(mem, c) <= {s, c} then {c} else {}
  }

  lemma CountOf(mem: Memory, given: map<Addr, nat>, s: Addr)
    requires StringsOk(mem, given) && s in mem
    ensures s in given && CountOk(mem, given, s)
  {
  }

  lemma CountedCompanies(mem: Memory, given: map<Addr, nat>, s: Addr, step: int)
    requires s in mem && given.Keys == mem.Keys && given[s] + step >= 0
    ensures forall x :: Companies(Counted(mem, s, step), x) == Companies(mem, x)
    ensures CompanionGone(Counted(mem, s, step), given[s := given[s] + step], s) == CompanionGone(mem, given, s)
  {
  }

  lemma NoCompanion(mem: Memory, given: map<Addr, nat>, s: Addr)
    requires s in mem && given.Keys == mem.Keys && NULL !in mem && mem[s].insensitive in {NULL, s}
    ensures CompanionGone(mem, given, s) == {} && GivenAfter(mem, given, s) == given - {s}
    ensures {s} + CompanionGone(mem, given, s) == {s}
  {
  }

  lemma GivenAfterOf(mem: Memory, given: map<Addr, nat>, s: Addr)
    requires s in mem && given.Keys == mem.Keys && mem[s].insensitive in mem && mem[s].insensitive != s
    ensures var g, c := GivenAfter(mem, given, s), mem[s].insensitive; c in g && g[c] == given[c] + 1
  {
  }

  lemma DroppedNeeded(mem: Memory, n: Memory, s: Addr)
    requires s in mem && DropsOnly(mem, n, s) && forall x <- mem :: x == s || Needed(mem, x)
    ensures forall x <- n :: Needed(n, x)
  {
  }

  lemma OneElement(c: set<Addr>, s: Addr)
    ensures c <= {s} <==> |c| == (if s in c then 1 else 0)
  {
    if c <= {s} {
      assert c == if s in c then {s} else {};
    } else if s in c {
      var x :| x in c && x != s;
      assert {s, x} <= c;
      SubsetSize({s, x}, c);
    }
  }

  lemma SubsetSize(a: set<Addr>, b: set<Addr>)
    requires a <= b
    ensures |a| <= |b|
  {
    assert b == a + (b - a);
  }

  /** The count says when nothing else needs a string. */
  lemma GoneIff(mem: Memory, given: map<Addr, nat>, s: Addr)
    requires s in mem && s in given && given[s] >= 1 && CountOk(mem, given, s)
    ensures var left := mem[s].refcnt - 1;
            (left == 0 || (left == 1 && mem[s].insensitive == s)) <==> (given[s] == 1 && Companies(mem, s) <= {s})
  {
    OneElement(Companies(mem, s), s);
  }

  /** What a string still counts when it goes. */
  lemma LastCount(mem: Memory, given: map<Addr, nat>, s: Addr)
    requires s in mem && s in given && given[s] == 0 && CountOk(mem, given, s) && Companies(mem, s) <= {s}
    ensures mem[s].refcnt == if mem[s].insensitive == s then 1 else 0
  {
    OneElement(Companies(mem, s), s);
  }

  /** Once a string is gone, its companion goes if the string was all that needed it, and nothing after that. */
  lemma DeadAfter(mem: Memory, n: Memory, given: map<Addr, nat>, s: Addr)
    requires StringsOk(mem, given) && s in mem && DropsOnly(mem, n, s) && StringsOk(n, GivenAfter(mem, given, s))
    requires mem[s].insensitive != NULL && mem[s].insensitive != s
    ensures var c := mem[s].insensitive;
            && c in mem && c in n
            && Dead(n, GivenAfter(mem, given, s), c) == CompanionGone(mem, given, s)
  {
    hide Hash, CompanionsOk, CountsOk, Unique;
    var c := mem[s].insensitive;
    GivenKeys(mem, given);
    CompanionOfCompanion(mem, s);
    assert Companies(n, c) == Companies(mem, c) - {s};
  }

  /** A reference to s was handed back: some strings went, and nothing else about the others changed. */
  ghost predicate HandedBack(m: Memory, g: map<Addr, nat>, n: Memory, h: map<Addr, nat>, s: Addr, gone: set<Addr>) {
    && n.Keys == m.Keys - gone
    && (forall x <- n :: n[x].bytes == m[x].bytes && n[x].insensitive == m[x].insensitive)
    && (forall x <- n :: x in g && x in h && g[x] == h[x] + if x == s then 1 else 0)
  }

  lemma HandedBackCounted(m: Memory, g: map<Addr, nat>, s: Addr)
    requires s in m && g.Keys == m.Keys && g[s] >= 1
    ensures HandedBack(m, g, Counted(m, s, -1), g[s := g[s] - 1], s, {})
  {
  }

  lemma HandedBackGone(m: Memory, g: map<Addr, nat>, n: Memory, h: map<Addr, nat>, s: Addr, gone: set<Addr>)
    requires s in m && g.Keys == m.Keys && g[s] >= 1 && s in gone
    requires HandedBack(Counted(m, s, -1), g[s := g[s] - 1], n, h, s, gone)
    ensures HandedBack(m, g, n, h, s, gone)
  {
  }

  lemma HandedBackDropped(m: Memory, g: map<Addr, nat>, n: Memory, s: Addr)
    requires s in m && g.Keys == m.Keys && DropsOnly(m, n, s)
    ensures HandedBack(m, g, n, g - {s}, s, {s})
  {
  }

  lemma HandedBackThen(m: Memory, g: map<Addr, nat>, mid: Memory, n: Memory, h: map<Addr, nat>, s: Addr, gone: set<Addr>)
    requires s in m && g.Keys == m.Keys && DropsOnly(m, mid, s) && m[s].insensitive in mid && m[s].insensitive != s
    requires HandedBack(mid, GivenAfter(m, g, s), n, h, m[s].insensitive, gone)
    ensures HandedBack(m, g, n, h, s, {s} + gone)
  {
  }

  /** One string got a companion, perhaps a new one; nothing else about the others changed. */
  ghost predicate Joins(m: Memory, g: map<Addr, nat>, n: Memory, h: map<Addr, nat>, s: Addr) {
    && s in n && n.Keys == m.Keys + {n[s].insensitive}
    && (forall x <- m :: x in n && x in g && x in h && n[x].bytes == m[x].bytes && h[x] == g[x])
    && (forall x <- m :: x != s ==> n[x].insensitive == m[x].insensitive)
  }

  lemma JoinedNeeded(mem: Memory, s: Addr, c: Addr)
    requires s in mem && (s == c ==> mem[s].refcnt >= 2) && forall x <- mem :: Needed(mem, x)
    ensures forall x <- Joined(mem, s, c) :: Needed(Joined(mem, s, c), x)
  {
  }

  /** Between the lookup of a companion and its use. */
  lemma InternedStays(buckets: seq<Addr>, m: Memory, mid: Memory, g: map<Addr, nat>, h: map<Addr, nat>,
                      s: Addr, c: Addr, space: Addr, low: seq<Byte>, hash: bv32)
    requires |buckets| == NR_BUCKETS && s in m && m[s].insensitive == NULL && NULL !in m && g.Keys == m.Keys && c in mid
    requires space !in m && Needed(m, s)
    requires c in m ==> mid == Counted(m, c, 1) && h == g[c := g[c] + 1]
    requires c !in m ==> c == space && mid == Pushed(buckets, m, space, low, hash) && h == g[c := 1]
    ensures s in mid && mid[s].insensitive == NULL && mid[s].bytes == m[s].bytes && c in h && h[c] >= 1
    ensures s == c ==> mid[s].refcnt >= 2
    ensures Joins(m, g, Joined(mid, s, c), h[c := h[c] - 1], s)
  {
    if c in m { SharedStays(m, mid, g, h, s, c); } else { NewStays(buckets, m, mid, g, h, s, c, low, hash); }
  }

  lemma SharedStays(m: Memory, mid: Memory, g: map<Addr, nat>, h: map<Addr, nat>, s: Addr, c: Addr)
    requires s in m && m[s].insensitive == NULL && NULL !in m && g.Keys == m.Keys && c in m && Needed(m, s)
    requires mid == Counted(m, c, 1) && h == g[c := g[c] + 1]
    ensures s in mid && mid[s].insensitive == NULL && mid[s].bytes == m[s].bytes && c in h && h[c] >= 1
    ensures s == c ==> mid[s].refcnt >= 2
    ensures Joins(m, g, Joined(mid, s, c), h[c := h[c] - 1], s)
  {
    var n, k := Joined(mid, s, c), h[c := h[c] - 1];
    assert k == g;
    assert n.Keys == m.Keys + {c};
    forall x <- m ensures n[x].bytes == m[x].bytes && (x != s ==> n[x].insensitive == m[x].insensitive) { }
  }

  lemma NewStays(buckets: seq<Addr>, m: Memory, mid: Memory, g: map<Addr, nat>, h: map<Addr, nat>,
                 s: Addr, c: Addr, low: seq<Byte>, hash: bv32)
    requires |buckets| == NR_BUCKETS && s in m && m[s].insensitive == NULL && NULL !in m && g.Keys == m.Keys && c !in m
    requires mid == Pushed(buckets, m, c, low, hash) && h == g[c := 1]
    ensures s in mid && mid[s].insensitive == NULL && mid[s].bytes == m[s].bytes && c in h && h[c] >= 1 && s != c
    ensures Joins(m, g, Joined(mid, s, c), h[c := h[c] - 1], s)
  {
    hide BucketOf;
  }

  lemma GivenKeys(mem: Memory, given: map<Addr, nat>)
    requires StringsOk(mem, given)
    ensures given.Keys == mem.Keys && NULL !in mem
  {
  }

  class Context {
    const buckets: array<Addr>
    var mem: Memory
    ghost var chains: seq<seq<Addr>>
    ghost var given: map<Addr, nat>    // references given out, for every string

    constructor ()
      ensures Valid() && mem == map[] && fresh(buckets)
    {
      buckets := new Addr[NR_BUCKETS](_ => NULL);
      mem, given := map[], map[];
      chains := seq(NR_BUCKETS, _ => []);
    }

    ghost predicate Valid()
      reads this, buckets
    {
      && buckets.Length == NR_BUCKETS
      && ChainsOk(buckets[..], mem, chains) && StringsOk(mem, given)
      && forall x <- mem :: Needed(mem, x)
    }

    /** The search of lwc__intern. */
    method Lookup(s: seq<Byte>, h: bv32, caseless: bool) returns (str: Addr)
      requires Valid() && h == Hash(Copied(s, caseless))
      ensures str == NULL <==> forall x <- mem :: !Matches(mem[x], s, caseless)
      ensures str != NULL ==> str in mem && Matches(mem[str], s, caseless)
    {
      hide BucketOf, Hash, StrnEqual, StringsOk, Needed;
      var bucket := BucketOf(h);
      str := buckets[bucket];
      ghost var chain, i := chains[bucket], 0;
      assert ChainOk(str, mem, bucket, chain);
      if |chain| > 0 { assert LinkOk(mem, bucket, chain, 0); }
      while str != NULL
        invariant 0 <= i <= |chain| && str == At(chain, i) && (i < |chain| ==> str != NULL)
        invariant forall j :: 0 <= j < i ==> chain[j] in mem && !Matches(mem[chain[j]], s, caseless)
        decreases |chain| - i
      {
        assert LinkOk(mem, bucket, chain, i);
        if mem[str].hash == h && |mem[str].bytes| == |s| {
          var same;
          if caseless {
            same := LcaseStrncmp(mem[str].bytes, s);
          } else {
            same := Strncmp(mem[str].bytes, s);
          }
          if same { return; }
        }
        str := mem[str].next;
        i := i + 1;
        if i < |chain| { assert LinkOk(mem, bucket, chain, i); }
      }
      OnChain(buckets[..], mem, chains, chain, s, caseless);
    }

    /** lwc__intern: the matching string gets one more reference, or a new one is put at the head of its bucket. */
    method Intern(s: seq<Byte>, caseless: bool, space: Addr) returns (str: Addr)
      requires Valid() && space != NULL && space !in mem    // what the allocator would return
      modifies this, buckets
      ensures Valid() && str in mem && Matches(mem[str], s, caseless)
      ensures given == old(given)[str := if str in old(mem) then old(given)[str] + 1 else 1]
      ensures str in old(mem) <==> exists x <- old(mem) :: Matches(old(mem)[x], s, caseless)
      ensures str in old(mem) ==> mem == Counted(old(mem), str, 1)
      ensures str !in old(mem) ==> str == space && mem == Pushed(old(buckets[..]), old(mem), space, Copied(s, caseless), Hash(Copied(s, caseless)))
    {
      hide BucketOf, Hash, StrnEqual, Needed, ChainsOk, ChainOk, Unique, CompanionsOk;
      var h;
      if caseless {
        h := CalculateLcaseHash(s);
      } else {
        h := CalculateHash(s);
      }
      str := Lookup(s, h, caseless);
      if str != NULL {
        Ref(str);
        return;
      }
      Unmatched(mem, s, caseless);
      StrnEqualSelf(s);
      PushNew(space, Copied(s, caseless), h);
      str := space;
    }

    /** lwc_string_ref */
    method Ref(str: Addr)
      requires Valid() && str in mem
      modifies this`mem, this`given
      ensures Valid() && mem == Counted(old(mem), str, 1) && given == old(given)[str := old(given)[str] + 1]
    {
      hide BucketOf, StringsOk, ChainsOk;
      assert given.Keys == mem.Keys by { GivenKeys(mem, given); }
      CountedOk(mem, given, str, 1);
      SameLinksChains(buckets[..], mem, Counted(mem, str, 1), chains);
      given := given[str := given[str] + 1];
      mem := Counted(mem, str, 1);
    }

    method PushNew(space: Addr, bytes: seq<Byte>, h: bv32)
      requires Valid() && space != NULL && space !in mem && h == Hash(bytes)
      requires forall x <- mem :: mem[x].bytes != bytes
      modifies this, buckets
      ensures Valid() && mem == Pushed(old(buckets[..]), old(mem), space, bytes, h) && given == old(given)[space := 1]
    {
      hide BucketOf, Hash, StringsOk, ChainsOk;
      ghost var was := buckets[..];
      PushChains(was, mem, chains, space, bytes, h);
      PushedOk(was, mem, given, space, bytes);
      var bucket := BucketOf(h);
      HeadIn(was, mem, chains, bucket);
      var first := buckets[bucket];
      given, chains := given[space := 1], chains[bucket := [space] + chains[bucket]];
      if first != NULL {
        mem := mem[first := mem[first].(prevptr := NextOf(space))];
      }
      mem := mem[space := Node(Bucket(bucket), first, bytes, h, 1, NULL)];
      buckets[bucket] := space;
      assert buckets[..] == was[bucket := space];
    }

    /**
     * lwc_intern_string: bytes without a NUL always give the string of those bytes. Others do unless a string
     * of other bytes has the same length and hash and agrees as far as the first NUL.
     */
    method InternString(s: seq<Byte>, space: Addr) returns (str: Addr)
      requires Valid() && space != NULL && space !in mem
      modifies this, buckets
      ensures Valid() && str in mem && given == old(given)[str := if str in old(mem) then old(given)[str] + 1 else 1]
      ensures forall x <- old(mem) :: x in mem && mem[x].bytes == old(mem)[x].bytes && mem[x].insensitive == old(mem)[x].insensitive
      ensures mem.Keys == old(mem).Keys + {str}
      ensures NulFree(s) ==> mem[str].bytes == s
      ensures (forall x <- old(mem) :: Matches(old(mem)[x], s, false) ==> old(mem)[x].bytes == s) ==> mem[str].bytes == s
      ensures (forall x <- old(mem) :: old(mem)[x].bytes != s) && mem[str].bytes == s
              ==> forall x <- old(mem) :: !Matches(old(mem)[x], s, false)
    {
      hide BucketOf, Hash, StrnEqual, StringsOk, ChainsOk, Needed;
      str := Intern(s, false, space);
      if NulFree(s) { StrnEqualNulFree(mem[str].bytes, s); }
      assert str in old(mem) ==> Matches(old(mem)[str], s, false);
    }

    /** lwc__intern_caseless_string: the companion is the lower-case string, new or already there. */
    method InternCaseless(s: Addr, space: Addr)
      requires Valid() && s in mem && mem[s].insensitive == NULL && space != NULL && space !in mem
      modifies this, buckets
      ensures Valid() && s in mem && mem[s].insensitive in mem && NULL !in mem
      ensures mem[mem[s].insensitive].bytes == Lower(mem[s].bytes)
      ensures Joins(old(mem), old(given), mem, given, s)
    {
      hide BucketOf, Hash, StringsOk, ChainsOk, Needed, Joins, Pushed;
      GivenKeys(mem, given);
      ghost var was := buckets[..];
      var c := Intern(mem[s].bytes, true, space);
      ghost var mid, g := mem, given;
      InternedStays(was, old(mem), mid, old(given), g, s, c, space, Lower(old(mem)[s].bytes), Hash(Lower(old(mem)[s].bytes)));
      GivenKeys(mem, given);
      JoinedOk(mem, given, s, c);
      JoinedNeeded(mem, s, c);
      SameLinksChains(buckets[..], mem, Joined(mem, s, c), chains);
      given, mem := given[c := given[c] - 1], Joined(mem, s, c);
      GivenKeys(mem, given);
    }

    /** lwc_string_caseless_isequal */
    method CaselessIsEqual(a: Addr, b: Addr, space1: Addr, space2: Addr) returns (same: bool)
      requires Valid() && a in mem && b in mem
      requires space1 != NULL && space2 != NULL && space1 !in mem && space2 !in mem && space1 != space2
      modifies this, buckets
      ensures Valid() && same == (Lower(old(mem)[a].bytes) == Lower(old(mem)[b].bytes))
      ensures same == SameIgnoringCase(old(mem)[a].bytes, old(mem)[b].bytes)
      ensures forall x <- old(mem) :: x in mem && mem[x].bytes == old(mem)[x].bytes
    {
      hide BucketOf, Hash, ChainsOk, Needed, CountsOk, Lower, CompanionOk, SameIgnoringCase;
      LowerSame(mem[a].bytes, mem[b].bytes);
      if mem[a].insensitive == NULL { InternCaseless(a, space1); }
      if mem[b].insensitive == NULL {
        var space := if space1 in mem then space2 else space1;
        InternCaseless(b, space);
      }
      SameCompanion(mem, a, b);
      same := mem[a].insensitive == mem[b].insensitive;
    }

    /** Taking a string out of its chain through the pointer that leads to it, and freeing it. */
    method TakeOut(s: Addr)
      requires buckets.Length == NR_BUCKETS && ChainsOk(buckets[..], mem, chains) && s in mem
      modifies this`mem, this`chains, buckets
      ensures mem == Unlinked(old(mem), s) && ChainsOk(buckets[..], mem, chains)
      ensures DropsOnly(old(mem), mem, s)
    {
      hide BucketOf, ChainsOk, ChainOk;
      ghost var was, b := buckets[..], BucketOf(mem[s].hash);
      ghost var i := PlaceIs(was, mem, chains, s);
      UnlinkChains(was, mem, chains, s, i);
      UnlinkedIs(was, mem, chains, s);
      chains := chains[b := Without(chains[b], i)];
      var place, next := mem[s].prevptr, mem[s].next;
      match place {
        case Bucket(slot) =>
          buckets[slot] := next;
          assert buckets[..] == was[slot := next];
        case NextOf(p) =>
          mem := mem[p := mem[p].(next := next)];
      }
      if next != NULL {
        mem := mem[next := mem[next].(prevptr := place)];
      }
      mem := mem - {s};
    }

    /** lwc_string_unref: the string goes with its last need, and its companion with it if that was its last. */
    method Unref(s: Addr)
      requires Valid() && s in mem && s in given && given[s] >= 1
      modifies this, buckets
      ensures Valid() && HandedBack(old(mem), old(given), mem, given, s, Dead(old(mem), old(given), s))
      decreases |mem|, 1
    {
      hide BucketOf, ChainsOk, Companies, StringsOk, CountOk, CompanionGone, HandedBack;
      ghost var m, g := mem, given;
      CountOf(mem, given, s);
      GivenKeys(mem, given);
      GoneIff(mem, given, s);
      CountedOk(mem, given, s, -1);
      CountedCompanies(mem, given, s, -1);
      HandedBackCounted(mem, given, s);
      SameLinksChains(buckets[..], mem, Counted(mem, s, -1), chains);
      given, mem := given[s := given[s] - 1], Counted(mem, s, -1);
      if mem[s].refcnt == 0 || (mem[s].refcnt == 1 && mem[s].insensitive == s) {
        Destroy(s);
        HandedBackGone(m, g, mem, given, s, {s} + CompanionGone(m, g, s));
      }
    }

    /** lwc_string_destroy */
    method Destroy(s: Addr)
      requires buckets.Length == NR_BUCKETS && ChainsOk(buckets[..], mem, chains) && StringsOk(mem, given) && s in mem && s in given
      requires given[s] == 0 && Companies(mem, s) <= {s} && forall x <- mem :: x == s || Needed(mem, x)
      modifies this, buckets
      ensures Valid() && HandedBack(old(mem), old(given), mem, given, s, {s} + CompanionGone(old(mem), old(given), s))
      decreases |mem|, 0
    {
      hide BucketOf, ChainsOk, Companies, StringsOk, CountOk, Dead, CompanionGone, Unlinked, Needed, HandedBack, GivenAfter;
      ghost var m, g := mem, given;
      CountOf(mem, given, s);
      GivenKeys(mem, given);
      var n := mem[s];
      LastCount(mem, given, s);
      TakeOut(s);
      DroppedOk(m, mem, g, s);
      DroppedNeeded(m, mem, s);
      given := GivenAfter(m, g, s);
      if n.insensitive != NULL && n.refcnt == 0 {
        DeadAfter(m, mem, g, s);
        ghost var mid := mem;
        GivenAfterOf(m, g, s);
        Unref(n.insensitive);
        HandedBackThen(m, g, mid, mem, given, s, CompanionGone(m, g, s));
      } else {
        NoCompanion(m, g, s);
        HandedBackDropped(m, g, mem, s);
      }
    }
  }

  /** Interning is hash-consing: two interned strings are one object exactly when the bytes are equal. */
  method InternBoth(ctx: Context, s: seq<Byte>, t: seq<Byte>, space1: Addr, space2: Addr) returns (a: Addr, b: Addr)
    requires ctx.Valid() && space1 != NULL && space2 != NULL && space1 != space2
    requires space1 !in ctx.mem && space2 !in ctx.mem
    modifies ctx, ctx.buckets
    ensures ctx.Valid() && a in ctx.mem && b in ctx.mem
    ensures NulFree(s) && NulFree(t) ==> (a == b <==> s == t) && ctx.mem[a].bytes == s && ctx.mem[b].bytes == t
  {
    hide StrnEqual, Hash, CompanionsOk, CountsOk, ChainsOk;
    a := ctx.InternString(s, space1);
    b := ctx.InternString(t, if space1 in ctx.mem then space2 else space1);
  }
}
