/** The selector hash: chains that selectors are put into and taken out of, with their filters. */
module SelectorHash {
  import opened SelectorChain

  const SLOTS: nat := 193     // 64 each for identifiers, classes and elements, and one for the rest

  type Sels = map<Addr, Selector>
  type Chains = seq<seq<Item>>

  ghost predicate ChainOk(chain: seq<Item>, b: nat, sels: Sels, keys: map<Addr, Key>) {
    && (forall s <- Names(chain) :: s in sels && sels[s].slot == b)
    && Keyed(Names(chain), keys) && Sorted(Names(chain), keys) && Distinct(Names(chain))
  }

  ghost predicate HashOk(chains: Chains, sels: Sels, keys: map<Addr, Key>) {
    |chains| == SLOTS && forall b :: 0 <= b < SLOTS ==> ChainOk(chains[b], b, sels, keys)
  }

  ghost predicate InHash(chains: Chains, sels: Sels, s: Addr) {
    s in sels && sels[s].slot < |chains| && s in Names(chains[sels[s].slot])
  }

  function ItemOf(sels: Sels, s: Addr): Item
    requires s in sels
  {
    Item(s, sels[s].bloom)
  }

  ghost function SetOf(list: seq<Addr>): set<Addr> {
    set s | s in list
  }

  ghost function Blooms(sels: Sels): map<Addr, nat> {
    map s | s in sels :: sels[s].bloom
  }

  /** Every filter in the hash is that of its selector. */
  ghost predicate FiltersOk(chains: Chains, sels: Sels) {
    forall b :: 0 <= b < |chains| ==> BloomsOk(chains[b], Blooms(sels))
  }

  lemma FiltersGrow(chains: Chains, sels: Sels, also: Sels)
    requires FiltersOk(chains, sels) && forall s <- sels :: s in also && also[s] == sels[s]
    ensures FiltersOk(chains, also)
  {
    forall b | 0 <= b < |chains| ensures BloomsOk(chains[b], Blooms(also)) { assert BloomsOk(chains[b], Blooms(sels)); }
  }

  // Taking selectors out.

  /** What taking selectors out of the hash one by one leaves. */
  ghost function PurgeAll(chains: Chains, gone: set<Addr>): (r: Chains)
    ensures |r| == |chains| && forall b :: 0 <= b < |chains| ==> r[b] == Purged(chains[b], gone)
  {
    seq(|chains|, b requires 0 <= b < |chains| => Purged(chains[b], gone))
  }

  lemma PurgeNone(chains: Chains)
    ensures PurgeAll(chains, {}) == chains
  {
    forall b | 0 <= b < |chains| ensures Purged(chains[b], {}) == chains[b] { KeepAll(chains[b], {}); }
  }

  lemma PurgeTwice(chains: Chains, a: set<Addr>, b: set<Addr>)
    ensures PurgeAll(PurgeAll(chains, a), b) == PurgeAll(chains, a + b)
  {
    hide Purged;
    forall c | 0 <= c < |chains| ensures Purged(Purged(chains[c], a), b) == Purged(chains[c], a + b) {
      PurgedTwice(chains[c], a, b);
    }
  }

  /** Taking one selector out of its chain leaves the other chains alone. */
  lemma PurgeOne(chains: Chains, sels: Sels, keys: map<Addr, Key>, s: Addr, i: nat)
    requires HashOk(chains, sels, keys) && s in sels && sels[s].slot < SLOTS
    requires i < |chains[sels[s].slot]| && chains[sels[s].slot][i].sel == s
    ensures chains[sels[s].slot := Removed(chains[sels[s].slot], i)] == PurgeAll(chains, {s})
  {
    hide Purged, Removed;
    var slot := sels[s].slot;
    forall b | 0 <= b < SLOTS
      ensures Purged(chains[b], {s}) == if b == slot then Removed(chains[slot], i) else chains[b]
    {
      assert ChainOk(chains[b], b, sels, keys);
      if b == slot {
        RemovedIsPurged(chains[slot], i);
      } else {
        assert forall j :: 0 <= j < |chains[b]| ==> Names(chains[b])[j] in Names(chains[b]);
        KeepAll(chains[b], {s});
      }
    }
  }

  lemma PurgeMembers(chains: Chains, sels: Sels, gone: set<Addr>)
    ensures forall s :: InHash(PurgeAll(chains, gone), sels, s) <==> InHash(chains, sels, s) && s !in gone
  {
    hide Purged;
    forall s ensures InHash(PurgeAll(chains, gone), sels, s) <==> InHash(chains, sels, s) && s !in gone {
      if s in sels && sels[s].slot < |chains| { PurgedMembers(chains[sels[s].slot], gone, s); }
    }
  }

  /** Removals keep every filter right exactly when no chain's head passes to a selector with another filter. */
  lemma PurgeFilters(chains: Chains, sels: Sels, gone: set<Addr>)
    requires FiltersOk(chains, sels)
    ensures FiltersOk(PurgeAll(chains, gone), sels) <==> forall b :: 0 <= b < |chains| ==> HeadFits(chains[b], gone)
  {
    hide BloomsOk, HeadFits, Purged;
    forall b | 0 <= b < |chains| ensures BloomsOk(Purged(chains[b], gone), Blooms(sels)) <==> HeadFits(chains[b], gone) {
      PurgedBlooms(chains[b], gone, Blooms(sels));
    }
    var after := PurgeAll(chains, gone);
    if FiltersOk(after, sels) {
      forall b | 0 <= b < |chains| ensures HeadFits(chains[b], gone) { assert BloomsOk(after[b], Blooms(sels)); }
    }
  }

  // Putting selectors in.

  /** The hash with one selector put in. */
  ghost function PutOne(chains: Chains, sels: Sels, keys: map<Addr, Key>, s: Addr): (r: Chains)
    ensures |r| == |chains|
  {
    if s in sels && sels[s].slot < |chains| then
      chains[sels[s].slot := Put(chains[sels[s].slot], keys, ItemOf(sels, s))]
    else chains
  }

  /** The hash with the first k of these selectors put in. */
  ghost function PutAll(chains: Chains, sels: Sels, keys: map<Addr, Key>, list: seq<Addr>, k: nat): (r: Chains)
    requires k <= |list|
    ensures |r| == |chains|
  {
    if k == 0 then chains else PutOne(PutAll(chains, sels, keys, list, k - 1), sels, keys, list[k - 1])
  }

  /** A selector goes in where the chain stays sorted. */
  lemma PutOk(chain: seq<Item>, b: nat, sels: Sels, keys: map<Addr, Key>, s: Addr)
    requires ChainOk(chain, b, sels, keys) && s in sels && sels[s].slot == b && s in keys && s !in Names(chain)
    ensures ChainOk(Put(chain, keys, ItemOf(sels, s)), b, sels, keys)
  {
    hide Place, Sorted, Distinct;
    var i := Place(Names(chain), keys, s);
    InsertedOk(Names(chain), keys, s, i);
    assert Names(Put(chain, keys, ItemOf(sels, s))) == Inserted(Names(chain), i, s);
  }

  lemma PutMembers(chains: Chains, sels: Sels, keys: map<Addr, Key>, s: Addr)
    requires s in sels && sels[s].slot < |chains|
    ensures forall x :: InHash(PutOne(chains, sels, keys, s), sels, x) <==> InHash(chains, sels, x) || x == s
  {
    var chain, i := chains[sels[s].slot], Place(Names(chains[sels[s].slot]), keys, s);
    hide Place;
    var names := Names(chain);
    assert Names(Inserted(chain, i, ItemOf(sels, s))) == Inserted(names, i, s);
    assert names == names[..i] + names[i..];
    assert forall x :: x in Inserted(names, i, s) <==> x in names || x == s;
  }

  lemma PutFilters(chains: Chains, sels: Sels, keys: map<Addr, Key>, s: Addr)
    ensures FiltersOk(chains, sels) ==> FiltersOk(PutOne(chains, sels, keys, s), sels)
  {
    hide Place;
  }

  lemma {:induction false} PutAllFilters(chains: Chains, sels: Sels, keys: map<Addr, Key>, list: seq<Addr>, k: nat)
    requires k <= |list| && FiltersOk(chains, sels)
    ensures FiltersOk(PutAll(chains, sels, keys, list, k), sels)
  {
    hide FiltersOk, PutOne;
    if k == 0 {
    } else {
      PutAllFilters(chains, sels, keys, list, k - 1);
      PutFilters(PutAll(chains, sels, keys, list, k - 1), sels, keys, list[k - 1]);
    }
  }

  /** Whether putting in the k-th of these selectors needs room: its chain is not empty by then. */
  predicate NeedsRoom(chains: Chains, sels: Sels, list: seq<Addr>, k: nat)
    requires k < |list|
  {
    && list[k] in sels && sels[list[k]].slot < |chains|
    && (chains[sels[list[k]].slot] != [] || exists j :: 0 <= j < k && list[j] in sels && sels[list[j]].slot == sels[list[k]].slot)
  }

  /** How many of the first k selectors go in, room(j) saying whether there is memory when the j-th needs it. */
  ghost function PutCount(chains: Chains, sels: Sels, list: seq<Addr>, room: nat -> bool, k: nat): (n: nat)
    requires k <= |list|
    ensures n <= k && (forall j :: 0 <= j < n && NeedsRoom(chains, sels, list, j) ==> room(j))
    ensures n < k ==> NeedsRoom(chains, sels, list, n) && !room(n)
  {
    if k == 0 then 0
    else
      var n := PutCount(chains, sels, list, room, k - 1);
      if n == k - 1 && (NeedsRoom(chains, sels, list, k - 1) ==> room(k - 1)) then k else n
  }

  lemma {:induction false} EmptyChain(chains: Chains, sels: Sels, keys: map<Addr, Key>, list: seq<Addr>, k: nat, b: nat)
    requires k <= |list| && b < |chains|
    ensures PutAll(chains, sels, keys, list, k)[b] == [] <==>
              chains[b] == [] && forall j :: 0 <= j < k ==> !(list[j] in sels && sels[list[j]].slot == b)
  {
    hide Place;
    if k == 0 {
    } else {
      EmptyChain(chains, sels, keys, list, k - 1, b);
    }
  }

  lemma RoomNeeded(chains: Chains, sels: Sels, keys: map<Addr, Key>, list: seq<Addr>, k: nat)
    requires k < |list| && list[k] in sels && sels[list[k]].slot < |chains|
    ensures PutAll(chains, sels, keys, list, k)[sels[list[k]].slot] != [] <==> NeedsRoom(chains, sels, list, k)
  {
    EmptyChain(chains, sels, keys, list, k, sels[list[k]].slot);
  }

  /** The item at the head of a chain after k selectors: the last that was put before the head there was. */
  ghost function Head(first: Item, b: nat, sels: Sels, keys: map<Addr, Key>, list: seq<Addr>, k: nat): Item
    requires k <= |list|
  {
    if k == 0 then first
    else
      var before, s := Head(first, b, sels, keys, list, k - 1), list[k - 1];
      if s in sels && sels[s].slot == b && Passes(keys, before.sel, s) then ItemOf(sels, s) else before
  }

  lemma {:induction false} HeadIs(chains: Chains, sels: Sels, keys: map<Addr, Key>, list: seq<Addr>, k: nat, b: nat)
    requires k <= |list| && b < |chains| && chains[b] != []
    ensures var r := PutAll(chains, sels, keys, list, k)[b]; r != [] && r[0] == Head(chains[b][0], b, sels, keys, list, k)
  {
    if k == 0 {
    } else {
      HeadIs(chains, sels, keys, list, k - 1, b);
    }
  }

  /** Without what was put in, a chain has the items it had. */
  lemma {:induction false} KeepPut(chains: Chains, sels: Sels, keys: map<Addr, Key>, list: seq<Addr>, k: nat, b: nat, gone: set<Addr>)
    requires k <= |list| && b < |chains| && forall j :: 0 <= j < k ==> list[j] in gone
    ensures Keep(PutAll(chains, sels, keys, list, k)[b], gone) == Keep(chains[b], gone)
  {
    hide Keep, Place, Inserted;
    if k == 0 {
    } else {
      KeepPut(chains, sels, keys, list, k - 1, b, gone);
      var c, s := PutAll(chains, sels, keys, list, k - 1), list[k - 1];
      if s in sels && sels[s].slot == b {
        KeepInserted(c[b], Place(Names(c[b]), keys, s), ItemOf(sels, s), gone);
      }
    }
  }

  /** What is left of a chain when putting in was given up after k selectors: only its head's filter may differ. */
  ghost function RolledBack(chains: Chains, sels: Sels, keys: map<Addr, Key>, list: seq<Addr>, k: nat): (r: Chains)
    requires k <= |list|
    ensures |r| == |chains|
    ensures forall b :: 0 <= b < |chains| ==>
              r[b] == if chains[b] == [] then [] else Rebloom(chains[b], Head(chains[b][0], b, sels, keys, list, k).bloom)
  {
    seq(|chains|, b requires 0 <= b < |chains| =>
      if chains[b] == [] then [] else Rebloom(chains[b], Head(chains[b][0], b, sels, keys, list, k).bloom))
  }

  /** Taking back the first k selectors, none of which was there before. */
  lemma RollBack(chains: Chains, sels: Sels, keys: map<Addr, Key>, list: seq<Addr>, k: nat)
    requires k <= |list| && forall b, s :: 0 <= b < |chains| && s in list[..k] ==> s !in Names(chains[b])
    ensures PurgeAll(PutAll(chains, sels, keys, list, k), SetOf(list[..k])) == RolledBack(chains, sels, keys, list, k)
  {
    hide Keep, PutAll, Head, Rebloom;
    var put, gone := PutAll(chains, sels, keys, list, k), SetOf(list[..k]);
    forall b | 0 <= b < |chains| ensures Purged(put[b], gone) == RolledBack(chains, sels, keys, list, k)[b] {
      assert forall j :: 0 <= j < k ==> list[j] == list[..k][j];
      KeepPut(chains, sels, keys, list, k, b, gone);
      assert forall i :: 0 <= i < |chains[b]| ==> Names(chains[b])[i] == chains[b][i].sel;
      KeepAll(chains[b], gone);
      if chains[b] != [] { HeadIs(chains, sels, keys, list, k, b); } else { NoRebloom(); }
    }
  }

  lemma NoRebloom()
    ensures forall bloom :: Rebloom([], bloom) == []
  {
  }

  /** Whether giving up after k selectors leaves every head the filter it had. */
  ghost predicate HeadsFit(chains: Chains, sels: Sels, keys: map<Addr, Key>, list: seq<Addr>, k: nat)
    requires k <= |list|
  {
    forall b :: 0 <= b < |chains| && chains[b] != [] ==>
      Head(chains[b][0], b, sels, keys, list, k).bloom == chains[b][0].bloom
  }

  /** Giving up changes nothing exactly when each selector left at the head of a chain that was not empty has
      that head's filter; the selectors of every chain are the same in any case. */
  lemma RolledBackSame(chains: Chains, sels: Sels, keys: map<Addr, Key>, list: seq<Addr>, k: nat)
    requires k <= |list|
    ensures var r := RolledBack(chains, sels, keys, list, k);
            && (r == chains <==> HeadsFit(chains, sels, keys, list, k))
            && (forall b :: 0 <= b < |chains| ==> Names(r[b]) == Names(chains[b]))
            && (FiltersOk(chains, sels) ==> (FiltersOk(r, sels) <==> HeadsFit(chains, sels, keys, list, k)))
  {
    hide Head, Rebloom, FiltersOk;
    var r := RolledBack(chains, sels, keys, list, k);
    forall b | 0 <= b < |chains|
      ensures Names(r[b]) == Names(chains[b])
      ensures chains[b] == [] || (r[b] == chains[b] <==> Head(chains[b][0], b, sels, keys, list, k).bloom == chains[b][0].bloom)
    {
      if chains[b] != [] { RebloomSame(chains[b], Head(chains[b][0], b, sels, keys, list, k).bloom); }
    }
    if FiltersOk(chains, sels) { RolledBackFilters(chains, sels, keys, list, k); }
  }

  lemma RolledBackFilters(chains: Chains, sels: Sels, keys: map<Addr, Key>, list: seq<Addr>, k: nat)
    requires k <= |list| && FiltersOk(chains, sels)
    ensures FiltersOk(RolledBack(chains, sels, keys, list, k), sels) <==> HeadsFit(chains, sels, keys, list, k)
  {
    hide Head, Rebloom, BloomsOk;
    var r, blooms := RolledBack(chains, sels, keys, list, k), Blooms(sels);
    forall b | 0 <= b < |chains|
      ensures BloomsOk(r[b], blooms) <==>
                chains[b] == [] || Head(chains[b][0], b, sels, keys, list, k).bloom == chains[b][0].bloom
    {
      assert BloomsOk(chains[b], blooms);
      if chains[b] != [] { RebloomOk(chains[b], Head(chains[b][0], b, sels, keys, list, k).bloom, blooms); }
    }
  }
}
