/** One chain of the selector hash: selectors by specificity and rule index, each with its filter. */
module SelectorChain {

  type Addr = nat

  /** A selector, with the chain it hashes to. */
  datatype Selector = Selector(slot: nat, specificity: nat, rule: Addr, bloom: nat)

  datatype Item = Item(sel: Addr, bloom: nat)

  /** What a chain is sorted by: specificity, then rule index. */
  datatype Key = Key(specificity: nat, index: nat)

  /** Whether a selector comes after another for sure. */
  predicate Above(a: Key, b: Key) {
    a.specificity > b.specificity || (a.specificity == b.specificity && a.index > b.index)
  }

  function Names(chain: seq<Item>): (names: seq<Addr>)
    ensures |names| == |chain| && forall i :: 0 <= i < |chain| ==> names[i] == chain[i].sel
  {
    seq(|chain|, i requires 0 <= i < |chain| => chain[i].sel)
  }

  ghost predicate Distinct(names: seq<Addr>) {
    forall i, j :: 0 <= i < j < |names| ==> names[i] != names[j]
  }

  ghost predicate Keyed(names: seq<Addr>, keys: map<Addr, Key>) {
    forall s <- names :: s in keys
  }

  /** Less specific selectors come first, and of equally specific ones those of earlier rules. */
  ghost predicate InOrder(a: Key, b: Key) {
    a.specificity < b.specificity || (a.specificity == b.specificity && a.index <= b.index)
  }

  ghost predicate Sorted(names: seq<Addr>, keys: map<Addr, Key>)
    requires Keyed(names, keys)
  {
    forall i, j :: 0 <= i < j < |names| ==> InOrder(keys[names[i]], keys[names[j]])
  }

  /** Each filter is that of its selector. */
  ghost predicate BloomsOk(chain: seq<Item>, blooms: map<Addr, nat>) {
    forall i :: 0 <= i < |chain| ==> chain[i].sel in blooms && chain[i].bloom == blooms[chain[i].sel]
  }

  function Inserted<T>(s: seq<T>, i: nat, x: T): seq<T>
    requires i <= |s|
  {
    s[..i] + [x] + s[i..]
  }

  function Without<T>(s: seq<T>, i: nat): seq<T>
    requires i < |s|
  {
    s[..i] + s[i + 1..]
  }

  /** Whether a selector in a chain comes after a new one for sure. */
  predicate Passes(keys: map<Addr, Key>, x: Addr, s: Addr) {
    x in keys && s in keys && Above(keys[x], keys[s])
  }

  /** The first place whose selector comes after the new one for sure. */
  ghost function Place(names: seq<Addr>, keys: map<Addr, Key>, s: Addr): (i: nat)
    ensures i <= |names| && (forall j :: 0 <= j < i ==> !Passes(keys, names[j], s))
    ensures i < |names| ==> Passes(keys, names[i], s)
  {
    if names == [] || Passes(keys, names[0], s) then 0 else 1 + Place(names[1..], keys, s)
  }

  /** A chain with a selector put in. */
  ghost function Put(chain: seq<Item>, keys: map<Addr, Key>, x: Item): seq<Item> {
    Inserted(chain, Place(Names(chain), keys, x.sel), x)
  }

  /** _insert_into_chain; only a chain that has a selector already needs room for another. */
  method InsertIntoChain(chain: seq<Item>, x: Item, keys: map<Addr, Key>, room: bool) returns (ok: bool, r: seq<Item>)
    requires Keyed(Names(chain), keys) && x.sel in keys
    ensures ok <==> chain == [] || room
    ensures r == if ok then Put(chain, keys, x) else chain
  {
    if chain == [] { return true, [x]; }
    if !room { return false, chain; }
    var search := 0;
    while search < |chain| && !Above(keys[Names(chain)[search]], keys[x.sel])
      invariant 0 <= search <= |chain|
      invariant forall j :: 0 <= j < search ==> !Passes(keys, Names(chain)[j], x.sel)
    {
      search := search + 1;
    }
    assert search == Place(Names(chain), keys, x.sel);
    ok, r := true, Inserted(chain, search, x);
  }

  /** _remove_from_chain; a head with others behind it takes over the next selector but keeps its own filter. */
  function Removed(chain: seq<Item>, i: nat): seq<Item>
    requires i < |chain|
  {
    if i == 0 && |chain| > 1 then [Item(chain[1].sel, chain[0].bloom)] + chain[2..] else Without(chain, i)
  }

  method RemoveFromChain(chain: seq<Item>, sel: Addr) returns (ok: bool, r: seq<Item>, ghost i: nat)
    ensures ok <==> sel in Names(chain)
    ensures !ok ==> r == chain
    ensures ok ==> i < |chain| && chain[i].sel == sel && (forall j :: 0 <= j < i ==> chain[j].sel != sel)
                   && r == Removed(chain, i) && Names(r) == Without(Names(chain), i)
  {
    var search := 0;
    while search < |chain| && chain[search].sel != sel
      invariant 0 <= search <= |chain| && forall j :: 0 <= j < search ==> chain[j].sel != sel
    {
      search := search + 1;
    }
    if search == |chain| { return false, chain, 0; }
    assert Names(chain)[search] == sel;
    ok, r, i := true, Removed(chain, search), search;
  }

  /** A new selector goes behind exactly those that may come before it. */
  lemma PlaceSplits(names: seq<Addr>, keys: map<Addr, Key>, sel: Addr, j: nat)
    requires Keyed(names, keys) && sel in keys && Sorted(names, keys) && j < |names|
    ensures names[j] in keys && (j < Place(names, keys, sel) <==> InOrder(keys[names[j]], keys[sel]))
  {
    var i := Place(names, keys, sel);
    assert names[j] in names;
    if j < i {
      assert !Passes(keys, names[j], sel);
    } else {
      assert names[i] in names && Passes(keys, names[i], sel);
      assert i < j ==> InOrder(keys[names[i]], keys[names[j]]);
    }
  }

  lemma InsertedOk(names: seq<Addr>, keys: map<Addr, Key>, sel: Addr, i: nat)
    requires Keyed(names, keys) && sel in keys && Sorted(names, keys) && Distinct(names) && sel !in names
    requires i == Place(names, keys, sel)
    ensures var r := Inserted(names, i, sel);
            Keyed(r, keys) && Sorted(r, keys) && Distinct(r) && forall s :: s in r <==> s in names || s == sel
  {
    hide Place, InOrder;
    var r := Inserted(names, i, sel);
    assert forall j :: 0 <= j < |r| ==> r[j] == if j < i then names[j] else if j == i then sel else names[j - 1];
    assert forall s :: s in names <==> s in names[..i] || s in names[i..];
    forall j, k | 0 <= j < k < |r| ensures InOrder(keys[r[j]], keys[r[k]]) {
      if k == i {
        PlaceSplits(names, keys, sel, j);
      } else if j == i {
        PlaceSplits(names, keys, sel, k - 1);
        NotInOrder(keys[names[k - 1]], keys[sel]);
      }
    }
  }

  lemma NotInOrder(a: Key, b: Key)
    requires !InOrder(a, b)
    ensures InOrder(b, a)
  {
  }

  lemma WithoutOk(names: seq<Addr>, keys: map<Addr, Key>, i: nat)
    requires Keyed(names, keys) && Sorted(names, keys) && Distinct(names) && i < |names|
    ensures var r := Without(names, i);
            Keyed(r, keys) && Sorted(r, keys) && Distinct(r) && forall s :: s in r <==> s in names && s != names[i]
  {
  }

  // Removing several selectors.

  /** A chain without some of its selectors. */
  ghost function Keep(chain: seq<Item>, gone: set<Addr>): seq<Item> {
    if chain == [] then []
    else (if chain[0].sel in gone then [] else [chain[0]]) + Keep(chain[1..], gone)
  }

  /** A chain whose head has this filter. */
  function Rebloom(chain: seq<Item>, bloom: nat): seq<Item> {
    if chain == [] then [] else [Item(chain[0].sel, bloom)] + chain[1..]
  }

  /** What removing selectors one by one leaves: the head keeps the filter it had, whichever selector it gets. */
  ghost function Purged(chain: seq<Item>, gone: set<Addr>): seq<Item> {
    if chain == [] then [] else Rebloom(Keep(chain, gone), chain[0].bloom)
  }

  lemma {:induction false} KeepTwice(chain: seq<Item>, a: set<Addr>, b: set<Addr>)
    ensures Keep(Keep(chain, a), b) == Keep(chain, a + b)
  {
    if chain == [] {
    } else {
      KeepTwice(chain[1..], a, b);
      var rest := Keep(chain[1..], a);
      assert ([chain[0]] + rest)[1..] == rest && [] + rest == rest;
    }
  }

  lemma {:induction false} KeepSame(chain: seq<Item>, a: set<Addr>, b: set<Addr>)
    requires forall i :: 0 <= i < |chain| ==> (chain[i].sel in a <==> chain[i].sel in b)
    ensures Keep(chain, a) == Keep(chain, b)
  {
    if chain == [] {
    } else {
      KeepSame(chain[1..], a, b);
    }
  }

  lemma {:induction false} KeepAll(chain: seq<Item>, gone: set<Addr>)
    requires forall i :: 0 <= i < |chain| ==> chain[i].sel !in gone
    ensures Keep(chain, gone) == chain && Purged(chain, gone) == chain
  {
    if chain == [] {
    } else {
      KeepAll(chain[1..], gone);
    }
  }

  lemma {:induction false} KeepMembers(chain: seq<Item>, gone: set<Addr>, s: Addr)
    ensures s in Names(Keep(chain, gone)) <==> s in Names(chain) && s !in gone
  {
    if chain == [] {
    } else {
      KeepMembers(chain[1..], gone, s);
      var rest, kept := Keep(chain[1..], gone), Keep(chain, gone);
      assert Names(chain) == [chain[0].sel] + Names(chain[1..]);
      assert Names(kept) == (if chain[0].sel in gone then [] else [chain[0].sel]) + Names(rest);
    }
  }

  lemma PurgedMembers(chain: seq<Item>, gone: set<Addr>, s: Addr)
    ensures s in Names(Purged(chain, gone)) <==> s in Names(chain) && s !in gone
  {
    KeepMembers(chain, gone, s);
    assert chain != [] ==> Names(Purged(chain, gone)) == Names(Keep(chain, gone));
  }

  lemma PurgedTwice(chain: seq<Item>, a: set<Addr>, b: set<Addr>)
    ensures Purged(Purged(chain, a), b) == Purged(chain, a + b)
  {
    KeepTwice(chain, a, b);
    if chain != [] && Keep(chain, a) != [] {
      var r := Keep(chain, a);
      assert Rebloom(r, chain[0].bloom)[1..] == r[1..];
    }
  }

  lemma {:induction false} KeepOne(chain: seq<Item>, i: nat)
    requires i < |chain| && Distinct(Names(chain))
    ensures Keep(chain, {chain[i].sel}) == Without(chain, i)
  {
    var s := chain[i].sel;
    assert forall j :: 0 <= j < |chain| && j != i ==> Names(chain)[j] != Names(chain)[i];
    if i == 0 {
      KeepAll(chain[1..], {s});
    } else {
      assert forall j :: 0 <= j < |chain| - 1 ==> Names(chain[1..])[j] == Names(chain)[j + 1];
      KeepOne(chain[1..], i - 1);
      assert Without(chain, i) == [chain[0]] + Without(chain[1..], i - 1);
    }
  }

  /** One removal. */
  lemma RemovedIsPurged(chain: seq<Item>, i: nat)
    requires i < |chain| && Distinct(Names(chain))
    ensures Removed(chain, i) == Purged(chain, {chain[i].sel})
  {
    KeepOne(chain, i);
  }

  /** What was put in is taken out again. */
  lemma {:induction false} KeepInserted(chain: seq<Item>, i: nat, x: Item, gone: set<Addr>)
    requires i <= |chain| && x.sel in gone
    ensures Keep(Inserted(chain, i, x), gone) == Keep(chain, gone)
  {
    var r := Inserted(chain, i, x);
    if i == 0 {
      assert r[1..] == chain;
    } else {
      KeepInserted(chain[1..], i - 1, x, gone);
      assert r[1..] == Inserted(chain[1..], i - 1, x) && r[0] == chain[0];
    }
  }

  /** Whether removing these selectors leaves the head its own filter. */
  ghost predicate HeadFits(chain: seq<Item>, gone: set<Addr>) {
    chain == [] || Keep(chain, gone) == [] || Keep(chain, gone)[0].bloom == chain[0].bloom
  }

  lemma {:induction false} KeepBlooms(chain: seq<Item>, gone: set<Addr>, blooms: map<Addr, nat>)
    requires BloomsOk(chain, blooms)
    ensures BloomsOk(Keep(chain, gone), blooms)
  {
    if chain == [] {
    } else {
      KeepBlooms(chain[1..], gone, blooms);
    }
  }

  /** After removals the filters are right exactly when no selector took over the head with a different filter. */
  lemma PurgedBlooms(chain: seq<Item>, gone: set<Addr>, blooms: map<Addr, nat>)
    requires BloomsOk(chain, blooms)
    ensures BloomsOk(Purged(chain, gone), blooms) <==> HeadFits(chain, gone)
  {
    hide Keep, BloomsOk, Rebloom;
    KeepBlooms(chain, gone, blooms);
    if chain != [] { RebloomOk(Keep(chain, gone), chain[0].bloom, blooms); }
  }

  lemma RebloomSame(chain: seq<Item>, bloom: nat)
    ensures Names(Rebloom(chain, bloom)) == Names(chain)
    ensures chain != [] ==> (Rebloom(chain, bloom) == chain <==> bloom == chain[0].bloom)
  {
    if chain != [] { assert chain == [chain[0]] + chain[1..]; }
  }

  /** A changed filter at the head is right exactly when it is not changed. */
  lemma RebloomOk(chain: seq<Item>, bloom: nat, blooms: map<Addr, nat>)
    requires BloomsOk(chain, blooms)
    ensures BloomsOk(Rebloom(chain, bloom), blooms) <==> chain == [] || bloom == chain[0].bloom
  {
    if chain != [] {
      var r := Rebloom(chain, bloom);
      assert r[0] == Item(chain[0].sel, bloom);
      assert forall j :: 1 <= j < |r| ==> r[j] == chain[j];
    }
  }
}
