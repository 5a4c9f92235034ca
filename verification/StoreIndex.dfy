/** The index of the cache: entries of two elements each, their blocks, sizes and pins. */
module StoreIndex {
  import opened BlockMap
  import opened BlockDisk

  type Url = nat    // an interned address; it also stands for the 32-bit name of its file

  datatype Kind = Data | Meta

  datatype Element = Element(data: seq<Byte>, size: nat, block: nat, ref: nat, heap: bool)

  datatype Entry = Entry(lastUsed: int, useCount: nat, invalid: bool, data: Element, meta: Element) {
    function Elem(k: Kind): Element {
      if k.Data? then data else meta
    }

    function With(k: Kind, e: Element): (r: Entry)
      ensures r.Elem(k) == e && forall j :: j != k ==> r.Elem(j) == Elem(j)
    {
      if k.Data? then this.(data := e) else this.(meta := e)
    }

    predicate Pinned() {
      data.heap || meta.heap
    }

    function Size(): nat {
      data.size + meta.size
    }
  }

  const UNUSED := Element([], 0, 0, 0, false)
  const FRESH := Entry(0, 0, false, UNUSED, UNUSED)

  type Index = map<Url, Entry>

  /** Every block an element of this kind holds is marked, and is held by that element alone. */
  ghost predicate BlocksOk(index: Index, k: Kind, use: seq<bv8>) {
    && |use| == MAP_BYTES && InUse(use, 0)
    && (forall u <- index :: Elem(index, u, k).block < BLOCK_COUNT && InUse(use, Elem(index, u, k).block))
    && (forall u, v | u in index && v in index && u != v ::
          Elem(index, u, k).block == 0 || Elem(index, u, k).block != Elem(index, v, k).block)
  }

  function Elem(index: Index, u: Url, k: Kind): Element
    requires u in index
  {
    index[u].Elem(k)
  }

  /** The sum of all element sizes. */
  ghost function Total(index: Index): nat {
    if index == map[] then 0
    else
      var u :| u in index;
      index[u].Size() + Total(index - {u})
  }

  lemma {:induction false} TotalTake(index: Index, u: Url)
    requires u in index
    ensures Total(index) == index[u].Size() + Total(index - {u})
  {
    var v :| v in index && Total(index) == index[v].Size() + Total(index - {v});
    if u == v {
    } else {
      TotalTake(index - {v}, u);
      TotalTake(index - {u}, v);
      assert index - {u} - {v} == index - {v} - {u};
    }
  }

  lemma TotalSet(index: Index, u: Url, e: Entry)
    ensures Total(index[u := e]) == Total(index) + e.Size() - if u in index then index[u].Size() else 0
  {
    hide Total;
    TotalTake(index[u := e], u);
    assert index[u := e] - {u} == index - {u};
    if u in index { TotalTake(index, u); } else { assert index - {u} == index; }
  }

  /** An entry marked invalid is still there only because something holds it. */
  ghost predicate HeldIfInvalid(e: Entry) {
    e.invalid ==> e.Pinned()
  }

  lemma SetHeld(index: Index, after: Index, u: Url)
    requires (forall v <- index :: HeldIfInvalid(index[v])) && u in after && after == index[u := after[u]] && after[u].Pinned()
    ensures forall v <- after :: HeldIfInvalid(after[v])
  {
  }

  /** What invalidating one entry does: a pinned one is marked, any other goes. */
  function Invalidated(index: Index, u: Url): Index
    requires u in index
  {
    if index[u].Pinned() then index[u := index[u].(invalid := true)] else index - {u}
  }

  /** What invalidating several entries does. */
  function Swept(index: Index, gone: seq<Url>): Index {
    map u | u in index && (u !in gone || index[u].Pinned()) ::
      if u in gone then index[u].(invalid := true) else index[u]
  }

  lemma SweptStep(index: Index, order: seq<Url>, i: nat)
    requires i < |order| && forall j :: 0 <= j < i ==> order[j] != order[i]
    requires order[i] in index
    ensures order[i] in Swept(index, order[..i]) && Swept(index, order[..i])[order[i]] == index[order[i]]
    ensures Invalidated(Swept(index, order[..i]), order[i]) == Swept(index, order[..i + 1])
  {
  }

  /** Entries are never lost while pinned, and never changed but for their mark. */
  lemma SweptKeepsPins(index: Index, gone: seq<Url>, u: Url)
    ensures u in Swept(index, gone) <==> u in index && (u !in gone || index[u].Pinned())
    ensures u in Swept(index, gone) ==> Swept(index, gone)[u] == index[u].(invalid := index[u].invalid || u in gone)
  {
  }

  // Eviction order.

  /** compar: entries with allocations come last, then the most used, then the most recent. */
  function Compar(a: Entry, b: Entry): int {
    if !a.data.heap && b.data.heap then -1
    else if a.data.heap && !b.data.heap then 1
    else if !a.meta.heap && b.meta.heap then -1
    else if a.meta.heap && !b.meta.heap then 1
    else if a.useCount < b.useCount then -1
    else if a.useCount > b.useCount then 1
    else if a.lastUsed < b.lastUsed then -1
    else if a.lastUsed > b.lastUsed then 1
    else 0
  }

  /** Whether one address may stand before another. */
  ghost predicate Before(index: Index, a: Url, b: Url) {
    a != b && a in index && b in index && Compar(index[a], index[b]) <= 0
  }

  /** The addresses of the index, once each, in the order of compar. */
  ghost predicate IsOrder(index: Index, order: seq<Url>) {
    && (forall u :: u in order <==> u in index)
    && (forall i, j :: 0 <= i < j < |order| ==> Before(index, order[i], order[j]))
  }

  /** If a sweep in this order touches an entry that something holds, no entry that nothing holds is left. */
  lemma PinnedLast(index: Index, order: seq<Url>, n: nat, i: nat)
    requires IsOrder(index, order) && i < n <= |order| && order[i] in index && index[order[i]].Pinned()
    ensures forall u <- Swept(index, order[..n]) :: index[u].Pinned()
  {
  }

  /** The first entry is used less than the second, or as much and was not used later. */
  ghost predicate NoFresher(a: Entry, b: Entry) {
    a.useCount < b.useCount || (a.useCount == b.useCount && a.lastUsed <= b.lastUsed)
  }

  /** Held data and then held metadata put an entry last. */
  ghost predicate MayGoFirst(a: Entry, b: Entry) {
    if a.data.heap != b.data.heap then b.data.heap
    else if a.meta.heap != b.meta.heap then b.meta.heap
    else NoFresher(a, b)
  }

  /** Of the entries that nothing holds, those that went are no fresher than those that stayed. */
  ghost predicate StalestWent(index: Index, after: Index) {
    forall u, v | u in index && v in index && u !in after && v in after && !index[u].Pinned() && !index[v].Pinned() ::
      NoFresher(index[u], index[v])
  }

  lemma SweptStalest(index: Index, order: seq<Url>, n: nat)
    requires IsOrder(index, order) && n <= |order|
    ensures StalestWent(index, Swept(index, order[..n]))
  {
    var after := Swept(index, order[..n]);
    forall u, v | u in index && v in index && u !in after && v in after && !index[u].Pinned() && !index[v].Pinned()
      ensures NoFresher(index[u], index[v])
    {
      var i :| 0 <= i < n && order[i] == u;
      assert v in order && v !in order[..n];
      var j :| 0 <= j < |order| && order[j] == v;
      assert forall k :: 0 <= k < n ==> order[k] in order[..n];
      assert Before(index, order[i], order[j]);
    }
  }

  /** The sizes of a run of entries. */
  ghost function SizeOf(index: Index, order: seq<Url>): nat
    requires forall u <- order :: u in index
  {
    if order == [] then 0
    else SizeOf(index, order[..|order| - 1]) + index[order[|order| - 1]].Size()
  }

  /** The shortest run from the front whose sizes exceed the hysteresis, or all if none does. */
  ghost predicate ShortestOver(index: Index, order: seq<Url>, n: nat, hysteresis: nat)
    requires forall u <- order :: u in index
  {
    && n <= |order|
    && (n == |order| || SizeOf(index, order[..n]) > hysteresis)
    && forall i :: 0 <= i < n ==> SizeOf(index, order[..i]) <= hysteresis
  }

  lemma SizeStep(index: Index, order: seq<Url>, i: nat)
    requires (forall u <- order :: u in index) && i < |order|
    ensures SizeOf(index, order[..i + 1]) == SizeOf(index, order[..i]) + index[order[i]].Size()
  {
    assert order[..i + 1][..i] == order[..i];
  }

  lemma SweepNone(index: Index, order: seq<Url>)
    ensures Swept(index, order[..0]) == index && SizeOf(index, order[..0]) == 0
  {
  }

  /** Any order the sort may leave: nothing but IsOrder is promised of it. */
  method EvictionOrder(index: Index) returns (order: seq<Url>)
    ensures IsOrder(index, order)
    ensures forall i, j :: 0 <= i < j < |order| ==> MayGoFirst(index[order[i]], index[order[j]])
  {
    order := [];
    var left := index;
    while left != map[]
      invariant left.Keys <= index.Keys && forall u <- left :: left[u] == index[u]
      invariant IsOrder(index - left.Keys, order)
      decreases |left|
    {
      var u :| u in left;
      order := Insert(index - left.Keys, order, u, index[u]);
      assert index - (left - {u}).Keys == (index - left.Keys)[u := index[u]];
      left := left - {u};
    }
    assert index - {} == index;
    OrderMeans(index, order);
  }

  lemma OrderMeans(index: Index, order: seq<Url>)
    requires IsOrder(index, order)
    ensures forall i, j :: 0 <= i < j < |order| ==> MayGoFirst(index[order[i]], index[order[j]])
  {
    forall i, j | 0 <= i < j < |order| ensures MayGoFirst(index[order[i]], index[order[j]]) {
      assert Before(index, order[i], order[j]);
    }
  }

  lemma ComparOrders(a: Entry, b: Entry, c: Entry)
    ensures Compar(a, b) >= 0 ==> Compar(b, a) <= 0
    ensures Compar(a, b) <= 0 && Compar(b, c) <= 0 ==> Compar(a, c) <= 0
  {
  }

  lemma Inserted(index: Index, order: seq<Url>, i: nat, u: Url, e: Entry)
    requires IsOrder(index, order) && u !in index && i <= |order|
    requires forall j :: 0 <= j < i ==> Compar(index[order[j]], e) <= 0
    requires forall j :: i <= j < |order| ==> Compar(e, index[order[j]]) <= 0
    ensures IsOrder(index[u := e], order[..i] + [u] + order[i..])
  {
  }

  method Insert(index: Index, order: seq<Url>, u: Url, e: Entry) returns (r: seq<Url>)
    requires IsOrder(index, order) && u !in index
    ensures IsOrder(index[u := e], r)
  {
    hide Compar;
    var i := |order|;
    while i > 0 && Compar(e, index[order[i - 1]]) < 0
      invariant 0 <= i <= |order|
      invariant forall j :: i <= j < |order| ==> Compar(e, index[order[j]]) <= 0
    {
      i := i - 1;
    }
    forall j | 0 <= j < i ensures Compar(index[order[j]], e) <= 0 {
      ComparOrders(e, index[order[i - 1]], e);
      ComparOrders(index[order[j]], index[order[i - 1]], e);
      assert j < i - 1 ==> Before(index, order[j], order[i - 1]);
    }
    Inserted(index, order, i, u, e);
    r := order[..i] + [u] + order[i..];
  }

  // Keeping the blocks apart.

  lemma BlocksWithout(index: Index, k: Kind, use: seq<bv8>, now: seq<bv8>, u: Url)
    requires BlocksOk(index, k, use) && u in index && |now| == |use|
    requires var b := Elem(index, u, k).block;
             forall c :: InUse(now, c) <==> InUse(use, c) && (b == 0 || c != b)
    ensures BlocksOk(index - {u}, k, now)
  {
  }

  /** The block of an element, or 0, is marked. */
  lemma BlockHeld(index: Index, k: Kind, use: seq<bv8>, u: Url, e: Entry)
    requires BlocksOk(index, k, use) && e == if u in index then index[u] else FRESH
    ensures |use| == MAP_BYTES && InUse(use, 0) && e.Elem(k).block < BLOCK_COUNT && InUse(use, e.Elem(k).block)
    ensures u in index ==> Elem(index, u, k) == e.Elem(k)
    ensures u !in index ==> e.Elem(k).block == 0
  {
    hide InUse;
  }

  lemma BlocksWith(index: Index, k: Kind, use: seq<bv8>, now: seq<bv8>, u: Url, e: Entry)
    requires BlocksOk(index, k, use) && |now| == |use| && e.Elem(k).block < BLOCK_COUNT
    requires InUse(now, e.Elem(k).block) && forall c :: InUse(use, c) ==> InUse(now, c)
    requires || e.Elem(k).block == 0 || !InUse(use, e.Elem(k).block)
             || (u in index && e.Elem(k).block == Elem(index, u, k).block)
    ensures BlocksOk(index[u := e], k, now)
  {
  }

  /** A block of an entry that went. */
  ghost predicate Freed(index: Index, after: Index, k: Kind, c: nat) {
    c != 0 && exists u :: u in index && u !in after && Elem(index, u, k).block == c
  }

  /** The blocks given back are exactly those of the entries that went. */
  ghost predicate UseAfter(index: Index, after: Index, k: Kind, use: seq<bv8>, now: seq<bv8>) {
    forall c :: InUse(now, c) <==> InUse(use, c) && !Freed(index, after, k, c)
  }

  lemma SameUse(index: Index, after: Index, k: Kind, use: seq<bv8>)
    requires index.Keys <= after.Keys
    ensures UseAfter(index, after, k, use, use)
  {
  }

  lemma OneFreed(index: Index, k: Kind, u: Url, use: seq<bv8>, now: seq<bv8>)
    requires u in index
    requires var b := Elem(index, u, k).block; forall c :: InUse(now, c) <==> InUse(use, c) && (b == 0 || c != b)
    ensures UseAfter(index, index - {u}, k, use, now)
  {
    hide InUse;
    forall c: nat ensures Freed(index, index - {u}, k, c) <==> c != 0 && c == Elem(index, u, k).block { }
  }

  /** The blocks given back do not depend on marks. */
  lemma SameBlocks(index: Index, marked: Index, after: Index, k: Kind, use: seq<bv8>, now: seq<bv8>)
    requires UseAfter(marked, after, k, use, now) && marked.Keys == index.Keys
    requires forall u <- index :: Elem(marked, u, k).block == Elem(index, u, k).block
    ensures UseAfter(index, after, k, use, now)
  {
    hide InUse;
    forall c: nat ensures Freed(index, after, k, c) <==> Freed(marked, after, k, c) {
      if Freed(index, after, k, c) {
        var u :| u in index && u !in after && Elem(index, u, k).block == c;
        assert Elem(marked, u, k).block == c;
      }
      if Freed(marked, after, k, c) {
        var u :| u in marked && u !in after && Elem(marked, u, k).block == c;
      }
    }
  }

  lemma UseAfterTwice(a: Index, b: Index, c: Index, k: Kind, first: seq<bv8>, second: seq<bv8>, third: seq<bv8>)
    requires UseAfter(a, b, k, first, second) && UseAfter(b, c, k, second, third)
    requires c.Keys <= b.Keys <= a.Keys && forall u <- b :: Elem(b, u, k).block == Elem(a, u, k).block
    ensures UseAfter(a, c, k, first, third)
  {
    hide InUse;
    forall x: nat ensures Freed(a, c, k, x) <==> Freed(a, b, k, x) || Freed(b, c, k, x) {
      if Freed(b, c, k, x) {
        var u :| u in b && u !in c && Elem(b, u, k).block == x;
        assert Elem(a, u, k).block == x;
      }
      if Freed(a, b, k, x) {
        var u :| u in a && u !in b && Elem(a, u, k).block == x;
      }
      if Freed(a, c, k, x) {
        var u :| u in a && u !in c && Elem(a, u, k).block == x;
        assert u in b ==> Elem(b, u, k).block == x;
      }
    }
  }

  /** The blocks given back by one more step of a sweep. */
  lemma SweptUse(index: Index, gone: seq<Url>, u: Url, k: Kind, first: seq<bv8>, second: seq<bv8>, third: seq<bv8>)
    requires var b := Swept(index, gone);
             u in b && UseAfter(index, b, k, first, second) && UseAfter(b, Invalidated(b, u), k, second, third)
    ensures UseAfter(index, Invalidated(Swept(index, gone), u), k, first, third)
    ensures Invalidated(Swept(index, gone), u).Keys <= Swept(index, gone).Keys
  {
    hide UseAfter;
    UseAfterTwice(index, Swept(index, gone), Invalidated(Swept(index, gone), u), k, first, second, third);
  }

  // What is on disk.

  datatype Disk = Disk(blocks: map<(Kind, nat), seq<Byte>>, files: map<(Kind, Url), seq<Byte>>) {
    function BlockFile(k: Kind, bf: nat): seq<Byte> {
      if (k, bf) in blocks then blocks[(k, bf)] else []
    }

    /** store_read_block and store_read_file */
    function Read(k: Kind, u: Url, e: Element): Option<seq<Byte>> {
      if e.block != 0 then
        ReadAt(BlockFile(k, e.block / BLOCKS_PER_FILE), e.block % BLOCKS_PER_FILE * BLOCK_SIZE, e.size)
      else if (k, u) in files then ReadAt(files[(k, u)], 0, e.size)
      else None
    }

    /** store_write_block and store_write_file */
    function Write(k: Kind, u: Url, e: Element): Disk {
      if e.block != 0 then
        var bf := e.block / BLOCKS_PER_FILE;
        var file := WriteAt(BlockFile(k, bf), e.block % BLOCKS_PER_FILE * BLOCK_SIZE, e.data);
        this.(blocks := blocks[(k, bf) := file])
      else
        this.(files := files[(k, u) := WriteAt(if (k, u) in files then files[(k, u)] else [], 0, e.data)])
    }

    function Unlink(k: Kind, u: Url): Disk {
      this.(files := files - {(k, u)})
    }

    lemma WriteRead(k: Kind, u: Url, e: Element)
      requires e.size == |e.data|
      ensures Write(k, u, e).Read(k, u, e) == Some(e.data)
    {
    }

    /** A write that stays within its block leaves every other element as it was. */
    lemma WriteReadOther(k: Kind, u: Url, e: Element, j: Kind, v: Url, f: Element)
      requires (k, u) != (j, v) && Read(j, v, f).Some?
      requires e.block != 0 ==> |e.data| <= BLOCK_SIZE
      requires k == j && f.block != 0 ==> f.block != e.block && f.size <= BLOCK_SIZE
      ensures Write(k, u, e).Read(j, v, f) == Read(j, v, f)
    {
      hide ReadAt, WriteAt;
      var bf, bg := e.block / BLOCKS_PER_FILE, f.block / BLOCKS_PER_FILE;
      if e.block != 0 && f.block != 0 && k == j && bf == bg {
        var bi, bj := e.block % BLOCKS_PER_FILE, f.block % BLOCKS_PER_FILE;
        assert bi != bj;
        ReadElsewhere(BlockFile(k, bf), bi * BLOCK_SIZE, e.data, bj * BLOCK_SIZE, f.size);
      }
    }
  }

  /** A write of more than a block shows up in the block after it. */
  lemma WriteSpills(disk: Disk, k: Kind, u: Url, e: Element, v: Url, f: Element)
    requires e.block != 0 && f.block == e.block + 1 && f.block % BLOCKS_PER_FILE != 0
    requires |e.data| > BLOCK_SIZE && 0 < f.size <= BLOCK_SIZE && disk.Read(k, v, f).Some?
    ensures var r := disk.Write(k, u, e).Read(k, v, f); r.Some? && r.value != [] && r.value[0] == e.data[BLOCK_SIZE]
  {
  }

  /** An element holds these bytes, or was never stored. */
  ghost predicate Keeps(disk: Disk, k: Kind, u: Url, e: Element, bytes: Option<seq<Byte>>) {
    match bytes
    case Some(s) =>
      && e.size == |s| && (e.heap ==> e.data == s) && disk.Read(k, u, e) == Some(s)
      && (e.block != 0 ==> e.size <= BLOCK_SIZE)
    case None =>
      e.size == 0 && e.block == 0 && (e.heap ==> e.data == [])
  }

  type Contents = map<(Kind, Url), seq<Byte>>

  ghost function Bytes(stored: Contents, k: Kind, u: Url): Option<seq<Byte>> {
    if (k, u) in stored then Some(stored[(k, u)]) else None
  }

  /** Every element in the index has, in memory and on disk, the bytes last stored there. */
  ghost predicate AllKept(index: Index, disk: Disk, stored: Contents) {
    && (forall u, k | u in index :: Keeps(disk, k, u, Elem(index, u, k), Bytes(stored, k, u)))
    && (forall key <- stored :: key.1 in index)
  }

  ghost function Only(stored: Contents, index: Index): Contents {
    map key | key in stored && key.1 in index :: stored[key]
  }

  /** A store that is within its block, or not in one, keeps all the others and the new bytes. */
  lemma StoreKept(index: Index, disk: Disk, stored: Contents, use: seq<bv8>, k: Kind, u: Url, e: Entry)
    requires AllKept(index, disk, stored) && BlocksOk(index[u := e], k, use)
    requires u in index ==> forall j :: j != k ==> e.Elem(j) == Elem(index, u, j)
    requires u !in index ==> forall j :: j != k ==> e.Elem(j) == UNUSED
    requires var el := e.Elem(k); el.size == |el.data| && (el.block != 0 ==> el.size <= BLOCK_SIZE)
    ensures AllKept(index[u := e], disk.Write(k, u, e.Elem(k)), stored[(k, u) := e.Elem(k).data])
  {
    hide InUse, Disk.Write, Disk.Read;
    var el := e.Elem(k);
    var after, then_ := disk.Write(k, u, el), stored[(k, u) := el.data];
    var more := index[u := e];
    forall v, j | v in more ensures Keeps(after, j, v, Elem(more, v, j), Bytes(then_, j, v)) {
      if (j, v) == (k, u) {
        disk.WriteRead(k, u, el);
      } else {
        var f := Elem(more, v, j);
        if v in index { assert Keeps(disk, j, v, Elem(index, v, j), Bytes(stored, j, v)); }
        assert k == j ==> f.block == 0 || f.block != Elem(more, u, k).block;
        if (j, v) in stored { disk.WriteReadOther(k, u, el, j, v, f); }
      }
    }
  }

  /** Nothing on disk changed but that files of this entry may be gone. */
  ghost predicate OnlyUnlinked(disk: Disk, after: Disk, u: Url) {
    && after.blocks == disk.blocks
    && (forall j, v | v != u :: (j, v) in after.files <==> (j, v) in disk.files)
    && (forall j, v | v != u && (j, v) in disk.files :: after.files[(j, v)] == disk.files[(j, v)])
  }

  lemma OnlyUnlinkedTwice(a: Disk, b: Disk, c: Disk, u: Url)
    requires OnlyUnlinked(a, b, u) && OnlyUnlinked(b, c, u)
    ensures OnlyUnlinked(a, c, u)
  {
  }

  lemma OnlyAll(index: Index, disk: Disk, stored: Contents)
    ensures AllKept(index, disk, stored) ==> Only(stored, index) == stored
  {
  }

  lemma StoredIndexed(index: Index, disk: Disk, stored: Contents, k: Kind, u: Url)
    requires AllKept(index, disk, stored) && (k, u) in stored
    ensures u in index
  {
  }

  lemma SameOnly(stored: Contents, a: Index, b: Index)
    requires a.Keys == b.Keys
    ensures Only(stored, a) == Only(stored, b)
  {
  }

  lemma TotalNone()
    ensures Total(map[]) == 0
  {
  }

  lemma OnlyOnly(stored: Contents, a: Index, b: Index)
    requires b.Keys <= a.Keys
    ensures Only(Only(stored, a), b) == Only(stored, b)
  {
  }

  /** The same blocks and sizes. */
  predicate SameShape(a: Entry, b: Entry) {
    forall k: Kind :: a.Elem(k).size == b.Elem(k).size && a.Elem(k).block == b.Elem(k).block
  }

  lemma ShapeKeepsBlocks(index: Index, use: seq<bv8>, k: Kind, u: Url, e: Entry)
    requires u in index && SameShape(index[u], e) && BlocksOk(index, k, use)
    ensures BlocksOk(index[u := e], k, use)
  {
  }

  lemma ShapeKeepsTotal(index: Index, u: Url, e: Entry)
    requires u in index && SameShape(index[u], e)
    ensures Total(index[u := e]) == Total(index)
  {
    hide Total;
    TotalSet(index, u, e);
    assert index[u].Elem(Data).size == e.Elem(Data).size && index[u].Elem(Meta).size == e.Elem(Meta).size;
  }

  /** An allocation, if there is one, holds the bytes last stored. */
  ghost predicate HeapKeeps(e: Element, bytes: Option<seq<Byte>>) {
    e.heap ==> e.data == if bytes.Some? then bytes.value else []
  }

  lemma ShapeKept(index: Index, disk: Disk, stored: Contents, u: Url, e: Entry)
    requires u in index && SameShape(index[u], e) && AllKept(index, disk, stored)
    requires forall k :: HeapKeeps(e.Elem(k), Bytes(stored, k, u))
    ensures AllKept(index[u := e], disk, stored) && Only(stored, index[u := e]) == stored
  {
  }

  lemma HeapKept(index: Index, disk: Disk, stored: Contents, u: Url, k: Kind)
    requires u in index && AllKept(index, disk, stored)
    ensures HeapKeeps(Elem(index, u, k), Bytes(stored, k, u))
    ensures (k, u) in stored ==> disk.Read(k, u, Elem(index, u, k)) == Some(stored[(k, u)])
    ensures (k, u) !in stored ==> disk.Read(k, u, Elem(index, u, k)) in [None, Some([])]
  {
  }

  /** Whether a store of n bytes leaves no element of more than a block in a block. */
  predicate StaysInBlock(index: Index, u: Url, k: Kind, n: nat) {
    n <= BLOCK_SIZE || u !in index || Elem(index, u, k).block == 0
  }

  /**
   * One element was set: it is held once, and its block is the lowest free one if the bytes fit in a block;
   * if they do not it stays what it was.
   */
  ghost predicate SetIn(index: Index, use: seq<bv8>, after: Index, u: Url, k: Kind, data: seq<Byte>, now: int) {
    && u in after && after == index[u := after[u]]
    && var was := if u in index then index[u] else FRESH;
    && var e := after[u].Elem(k);
    && after[u] == was.(lastUsed := now, useCount := 1).With(k, e)
    && e.data == data && e.size == |data| && e.ref == 1 && e.heap
    && (if |data| <= BLOCK_SIZE then Lowest(use, e.block) else e.block == was.Elem(k).block)
  }

  /** entry_release_alloc: the last reference gives up the allocation; the count has eight bits. */
  function Released(e: Element): Element {
    if !e.heap then e
    else if e.ref == 1 then e.(ref := 0, heap := false, data := [])
    else e.(ref := (e.ref + 255) % 256)
  }

  /** An entry just used. */
  function Touched(e: Entry, now: int): Entry {
    e.(lastUsed := now, useCount := (e.useCount + 1) % 0x1_0000)
  }

  /** Dropping an entry, and unlinking its own files only, keeps all the others. */
  lemma DropKept(index: Index, disk: Disk, after: Disk, stored: Contents, u: Url)
    requires AllKept(index, disk, stored) && u in index && OnlyUnlinked(disk, after, u)
    ensures AllKept(index - {u}, after, Only(stored, index - {u}))
  {
    forall v, j | v in index && v != u
      ensures Keeps(after, j, v, Elem(index, v, j), Bytes(Only(stored, index - {u}), j, v))
    {
      assert Keeps(disk, j, v, Elem(index, v, j), Bytes(stored, j, v));
    }
  }
}
