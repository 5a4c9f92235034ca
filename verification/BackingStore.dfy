/** The disk cache: its operations, over every run of which the index, the use maps and the disk agree. */
module BackingStore {
  import opened BlockMap
  import opened BlockDisk
  import opened StoreIndex

  datatype Outcome = Ok | NotFound | PermissionDenied | SaveFailed

  class Store {
    const limit: nat
    const hysteresis: nat
    const dataUse: array<bv8>
    const metaUse: array<bv8>
    var entries: Index
    var totalAlloc: int
    var disk: Disk
    ghost var stored: Contents      // what was last stored, for every entry of the index

    /** An empty cache, with block 0 of each kind set aside. */
    constructor (l: nat, h: nat)
      ensures Valid() && Intact() && entries == map[] && stored == map[] && limit == l && hysteresis == h
      ensures fresh(dataUse) && fresh(metaUse) && forall c, k :: InUse(Use(k)[..], c) <==> c == 0
    {
      limit, hysteresis := l, h;
      dataUse := new bv8[MAP_BYTES](i => if i == 0 then 1 else 0);
      metaUse := new bv8[MAP_BYTES](i => if i == 0 then 1 else 0);
      entries, totalAlloc, disk, stored := map[], 0, Disk(map[], map[]), map[];
      new;
      OnlyFirst(dataUse[..]);
      OnlyFirst(metaUse[..]);
    }

    function Use(k: Kind): array<bv8> {
      if k.Data? then dataUse else metaUse
    }

    /** The blocks are kept apart and the sizes add up. */
    ghost predicate Sound()
      reads this, dataUse, metaUse
    {
      && dataUse != metaUse
      && BlocksOk(entries, Data, dataUse[..]) && BlocksOk(entries, Meta, metaUse[..])
      && totalAlloc == Total(entries)
    }

    ghost predicate Valid()
      reads this, dataUse, metaUse
    {
      Sound() && forall u <- entries :: HeldIfInvalid(entries[u])
    }

    ghost predicate Intact()
      reads this
    {
      AllKept(entries, disk, stored)
    }

    /** Between two states of the index, each use map loses exactly the blocks of the entries that went. */
    twostate predicate UseKept(index: Index)
      reads this, dataUse, metaUse
    {
      UseAfter(index, entries, Data, old(dataUse[..]), dataUse[..]) && UseAfter(index, entries, Meta, old(metaUse[..]), metaUse[..])
    }

    /** invalidate_element: the block is given back or the file unlinked, and the size taken off. */
    method InvalidateElement(u: Url, k: Kind)
      requires u in entries && Use(k).Length == MAP_BYTES && Elem(entries, u, k).block < BLOCK_COUNT
      modifies Use(k), this`disk, this`totalAlloc
      ensures totalAlloc == old(totalAlloc) - Elem(entries, u, k).size
      ensures var b := Elem(entries, u, k).block;
              && (forall c :: InUse(Use(k)[..], c) <==> old(InUse(Use(k)[..], c)) && (b == 0 || c != b))
              && disk == if b == 0 then old(disk).Unlink(k, u) else old(disk)
      ensures OnlyUnlinked(old(disk), disk, u)
    {
      hide InUse;
      var e := Elem(entries, u, k);
      if e.block != 0 {
        FreeBlock(Use(k), e.block);
      } else {
        disk := disk.Unlink(k, u);
      }
      totalAlloc := totalAlloc - e.size;
    }

    /** invalidate_entry: a pinned entry is only marked; any other gives back all it holds and goes. */
    method InvalidateEntry(u: Url)
      requires Sound() && u in entries && forall v <- entries :: v != u ==> HeldIfInvalid(entries[v])
      modifies this, dataUse, metaUse
      ensures Valid() && entries == Invalidated(old(entries), u) && UseKept(old(entries))
      ensures old(Intact()) ==> Intact() && stored == Only(old(stored), entries)
    {
      hide Total, InUse, AllKept, BlocksOk, UseAfter;
      MarkInvalid(u);
      if !entries[u].Pinned() {
        ghost var marked := entries;
        RemoveEntry(u);
        assert entries == old(entries) - {u};
        SameBlocks(old(entries), marked, entries, Data, old(dataUse[..]), dataUse[..]);
        SameBlocks(old(entries), marked, entries, Meta, old(metaUse[..]), metaUse[..]);
      } else {
        SameUse(old(entries), entries, Data, dataUse[..]);
        SameUse(old(entries), entries, Meta, metaUse[..]);
      }
    }

    /** Replacing an entry by one of the same shape. */
    method Replace(u: Url, e: Entry)
      requires Sound() && u in entries && SameShape(entries[u], e)
      modifies this`entries
      ensures Sound() && entries == old(entries)[u := e]
      ensures old(Intact()) && (forall k :: HeapKeeps(e.Elem(k), Bytes(stored, k, u)))
              ==> Intact() && Only(stored, entries) == stored
    {
      hide Total, InUse, AllKept, Only, BlocksOk, HeapKeeps, SameShape;
      ShapeKeepsTotal(entries, u, e);
      ShapeKeepsBlocks(entries, dataUse[..], Data, u, e);
      ShapeKeepsBlocks(entries, metaUse[..], Meta, u, e);
      if Intact() && forall k :: HeapKeeps(e.Elem(k), Bytes(stored, k, u)) {
        ShapeKept(entries, disk, stored, u, e);
      }
      entries := entries[u := e];
    }

    method MarkInvalid(u: Url)
      requires Sound() && u in entries
      modifies this`entries
      ensures Sound() && entries == old(entries)[u := old(entries)[u].(invalid := true)]
      ensures old(Intact()) ==> Intact() && Only(stored, entries) == stored
    {
      hide Total, InUse, AllKept, Only, BlocksOk, HeapKeeps;
      if Intact() { HeapKept(entries, disk, stored, u, Data); HeapKept(entries, disk, stored, u, Meta); }
      Replace(u, entries[u].(invalid := true));
    }

    /** get_store_entry: a use is noted. */
    method Touch(u: Url, now: int)
      requires Valid() && u in entries
      modifies this`entries
      ensures Valid() && entries == old(entries)[u := Touched(old(entries)[u], now)]
      ensures old(Intact()) ==> Intact() && Only(stored, entries) == stored
    {
      hide Total, InUse, AllKept, Only, BlocksOk, HeapKeeps;
      if Intact() { HeapKept(entries, disk, stored, u, Data); HeapKept(entries, disk, stored, u, Meta); }
      Replace(u, Touched(entries[u], now));
    }

    method RemoveEntry(u: Url)
      requires Sound() && u in entries
      modifies this, dataUse, metaUse
      ensures Sound() && entries == old(entries) - {u} && UseKept(old(entries))
      ensures old(Intact()) ==> Intact() && stored == Only(old(stored), entries)
    {
      hide Total, InUse, AllKept, Only, OnlyUnlinked;
      ghost var was := disk;
      InvalidateElement(u, Meta);
      ghost var mid := disk;
      InvalidateElement(u, Data);
      hide BlocksOk;
      OnlyUnlinkedTwice(was, mid, disk, u);
      TotalTake(entries, u);
      BlocksWithout(entries, Data, old(dataUse[..]), dataUse[..], u);
      BlocksWithout(entries, Meta, old(metaUse[..]), metaUse[..], u);
      OneFreed(entries, Data, u, old(dataUse[..]), dataUse[..]);
      OneFreed(entries, Meta, u, old(metaUse[..]), metaUse[..]);
      hide UseAfter;
      entries := entries - {u};
      stored := Only(stored, entries);
      if old(Intact()) { DropKept(old(entries), was, disk, old(stored), u); }
    }

    /** store_evict: once over the limit, the shortest run in eviction order that frees enough is invalidated. */
    method Evict() returns (ghost order: seq<Url>, ghost n: nat)
      requires Valid()
      modifies this, dataUse, metaUse
      ensures Valid() && UseKept(old(entries))
      ensures old(Intact()) ==> Intact() && stored == Only(old(stored), entries)
      ensures StalestWent(old(entries), entries)
      ensures old(totalAlloc) < limit ==> entries == old(entries) && disk == old(disk)
      ensures old(totalAlloc) >= limit ==>
                && IsOrder(old(entries), order) && ShortestOver(old(entries), order, n, hysteresis)
                && entries == Swept(old(entries), order[..n])
    {
      hide Total, InUse, AllKept, BlocksOk, Compar, SizeOf, UseAfter, Swept, Invalidated, HeldIfInvalid, Only, NoFresher;
      order, n := [], 0;
      SameUse(entries, entries, Data, dataUse[..]);
      SameUse(entries, entries, Meta, metaUse[..]);
      if totalAlloc < limit {
        OnlyAll(entries, disk, stored);
        return;
      }
      var list := EvictionOrder(entries);
      order := list;
      ghost var index := entries;
      SweepNone(index, order);
      OnlyAll(entries, disk, stored);
      var removed, ent := 0, 0;
      while ent < |list|
        invariant ent <= |list| && n == ent && Valid() && UseKept(index)
        invariant entries == Swept(index, list[..ent])
        invariant removed == SizeOf(index, list[..ent])
        invariant forall i :: 0 <= i < ent ==> SizeOf(index, list[..i]) <= hysteresis
        invariant ent < |list| ==> removed <= hysteresis
        invariant old(Intact()) ==> Intact() && stored == Only(old(stored), entries)
      {
        SweptStep(index, list, ent);
        SizeStep(index, list, ent);
        removed := removed + entries[list[ent]].data.size + entries[list[ent]].meta.size;
        ghost var before, useData, useMeta := entries, dataUse[..], metaUse[..];
        InvalidateEntry(list[ent]);
        SweptUse(index, list[..ent], list[ent], Data, old(dataUse[..]), useData, dataUse[..]);
        SweptUse(index, list[..ent], list[ent], Meta, old(metaUse[..]), useMeta, metaUse[..]);
        OnlyOnly(old(stored), before, entries);
        ent, n := ent + 1, n + 1;
        if removed > hysteresis { break; }
      }
      SweptStalest(index, list, n);
    }

    /**
     * store, with set_store_entry: after eviction the element takes the new bytes, in a small block if they
     * fit and one is free, unless something holds what is there.
     */
    method StoreElement(u: Url, k: Kind, data: seq<Byte>, now: int)
      returns (outcome: Outcome, ghost left: Index, ghost use: seq<bv8>, ghost order: seq<Url>, ghost n: nat)
      requires Valid()
      modifies this, dataUse, metaUse
      ensures Valid()
      ensures StalestWent(old(entries), left)
      ensures old(totalAlloc) < limit ==> left == old(entries)
      ensures UseAfter(old(entries), left, k, old(Use(k)[..]), use)
      ensures old(totalAlloc) >= limit ==>
                && IsOrder(old(entries), order) && ShortestOver(old(entries), order, n, hysteresis)
                && left == Swept(old(entries), order[..n])
      ensures outcome == PermissionDenied <==> u in old(entries) && old(Elem(entries, u, k)).heap
      ensures outcome == Ok || outcome == PermissionDenied
      ensures outcome == PermissionDenied ==> entries == left && (old(Intact()) ==> Intact() && stored == Only(old(stored), left))
      ensures outcome == Ok ==> SetIn(left, use, entries, u, k, data, now)
      ensures outcome == Ok ==> u in entries && forall c :: InUse(Use(k)[..], c) <==> InUse(use, c) || c == Elem(entries, u, k).block
      ensures outcome == Ok && old(Intact()) && StaysInBlock(left, u, k, |data|) ==>
                Intact() && stored == Only(old(stored), left)[(k, u) := data]
      ensures outcome == Ok && old(totalAlloc) < limit ==> disk == old(disk).Write(k, u, Elem(entries, u, k))
    {
      hide Total, InUse, AllKept, BlocksOk, Compar, Before, SizeOf, Swept, IsOrder, Only, Disk.Write, SetIn, UseAfter, StalestWent;
      order, n := Evict();
      left, use := entries, Use(k)[..];
      if old(totalAlloc) >= limit { SweptKeepsPins(old(entries), order[..n], u); }
      if u in entries && Elem(entries, u, k).heap {
        outcome := PermissionDenied;
        return;
      }
      OnlyAll(entries, disk, stored);
      SetElement(u, k, data, now);
      outcome := Ok;
    }

    /** The rest of set_store_entry, and the write. */
    method SetElement(u: Url, k: Kind, data: seq<Byte>, now: int)
      requires Valid() && !(u in entries && Elem(entries, u, k).heap)
      modifies this, dataUse, metaUse
      ensures Valid() && SetIn(old(entries), old(Use(k)[..]), entries, u, k, data, now) && u in entries
      ensures forall c :: InUse(Use(k)[..], c) <==> old(InUse(Use(k)[..], c)) || c == Elem(entries, u, k).block
      ensures old(Intact()) && StaysInBlock(old(entries), u, k, |data|) ==>
                Intact() && stored == old(stored)[(k, u) := data]
      ensures disk == old(disk).Write(k, u, Elem(entries, u, k))
    {
      hide Total, InUse, AllKept, Disk.Write, BlocksOk, Lowest, HeldIfInvalid;
      var se := if u in entries then entries[u] else FRESH;
      totalAlloc := totalAlloc - se.Elem(k).size + |data|;
      var set_ := PickBlock(u, k, se, data, now);
      TotalSet(entries, u, set_);
      SetHeld(entries, entries[u := set_], u);
      if old(Intact()) && StaysInBlock(entries, u, k, |data|) {
        StoreKept(entries, disk, stored, Use(k)[..], k, u, set_);
      }
      entries := entries[u := set_];
      disk := disk.Write(k, u, set_.Elem(k));
      stored := stored[(k, u) := data];
    }

    /** The entry with the element set, in its block. */
    method PickBlock(u: Url, k: Kind, se: Entry, data: seq<Byte>, now: int) returns (set_: Entry)
      requires dataUse != metaUse && BlocksOk(entries, Data, dataUse[..]) && BlocksOk(entries, Meta, metaUse[..])
      requires se == if u in entries then entries[u] else FRESH
      modifies Use(k)
      ensures BlocksOk(entries[u := set_], Data, dataUse[..]) && BlocksOk(entries[u := set_], Meta, metaUse[..])
      ensures set_ == se.(lastUsed := now, useCount := 1).With(k, Element(data, |data|, set_.Elem(k).block, 1, true))
      ensures if |data| <= BLOCK_SIZE then Lowest(old(Use(k)[..]), set_.Elem(k).block) else set_.Elem(k).block == se.Elem(k).block
      ensures forall c :: InUse(Use(k)[..], c) <==> old(InUse(Use(k)[..], c)) || c == set_.Elem(k).block
    {
      hide InUse, UsedBelow;
      BlockHeld(entries, Data, dataUse[..], u, se);
      BlockHeld(entries, Meta, metaUse[..], u, se);
      var block := se.Elem(k).block;
      if |data| <= BLOCK_SIZE {
        block := AllocBlock(Use(k));
      }
      hide BlocksOk;
      set_ := se.(lastUsed := now, useCount := 1).With(k, Element(data, |data|, block, 1, true));
      BlocksWith(entries, Data, old(dataUse[..]), dataUse[..], u, set_);
      BlocksWith(entries, Meta, old(metaUse[..]), metaUse[..], u, set_);
    }

    /** fetch: a held element gets one more reference, any other is read from disk. */
    method Fetch(u: Url, k: Kind, now: int) returns (outcome: Outcome, data: seq<Byte>)
      requires Valid()
      modifies this`entries
      ensures Valid()
      ensures old(Intact()) ==> Intact()
      ensures u !in old(entries) ==> outcome == NotFound && entries == old(entries)
      ensures old(Intact()) && (k, u) in stored ==> outcome == Ok && data == stored[(k, u)]
      ensures u in old(entries) ==>
                var e := old(Elem(entries, u, k));
                && u in entries && entries == old(entries)[u := Touched(old(entries)[u], now).With(k, Elem(entries, u, k))]
                && (outcome == Ok <==> e.heap || old(disk).Read(k, u, e).Some?)
                && (outcome == Ok ==> data == if e.heap then e.data else old(disk).Read(k, u, e).value)
                && Elem(entries, u, k) == if e.heap then e.(ref := (e.ref + 1) % 256)
                                          else if outcome == Ok then e.(data := data, ref := 1, heap := true)
                                          else e.(data := [], ref := 0)
    {
      hide Total, InUse, AllKept, BlocksOk, Disk.Read, Only;
      data := [];
      if Intact() && (k, u) in stored { StoredIndexed(entries, disk, stored, k, u); }
      if u !in entries { return NotFound, []; }
      if Intact() { HeapKept(entries, disk, stored, u, Data); HeapKept(entries, disk, stored, u, Meta); }
      Touch(u, now);
      var e := Elem(entries, u, k);
      var f;
      if e.heap {
        f := e.(ref := (e.ref + 1) % 256);
        outcome, data := Ok, e.data;
      } else {
        var read := disk.Read(k, u, e);
        match read
        case Some(bytes) =>
          f := e.(data := bytes, ref := 1, heap := true);
          outcome, data := Ok, bytes;
        case None =>
          f := e.(data := [], ref := 0);
          outcome := if e.block != 0 then SaveFailed else NotFound;
      }
      Replace(u, entries[u].With(k, f));
    }

    /** release: the last reference lets an invalidated entry go. */
    method Release(u: Url, k: Kind, now: int) returns (outcome: Outcome)
      requires Valid()
      modifies this, dataUse, metaUse
      ensures Valid() && UseKept(old(entries))
      ensures old(Intact()) ==> Intact() && stored == Only(old(stored), entries)
      ensures outcome == (if u in old(entries) then Ok else NotFound)
      ensures u !in old(entries) ==> entries == old(entries)
      ensures u in old(entries) ==>
                var was := old(entries)[u];
                var e := Touched(was, now).With(k, Released(was.Elem(k)));
                entries == if was.invalid && !e.Pinned() then old(entries) - {u} else old(entries)[u := e]
    {
      hide Total, InUse, AllKept, BlocksOk, UseAfter, Released;
      OnlyAll(entries, disk, stored);
      SameUse(entries, entries, Data, dataUse[..]);
      SameUse(entries, entries, Meta, metaUse[..]);
      if u !in entries { return NotFound; }
      LetGo(u, k, now);
      if entries[u].invalid {
        Reinvalidate(u, old(entries));
      } else {
        SameUse(old(entries), entries, Data, dataUse[..]);
        SameUse(old(entries), entries, Meta, metaUse[..]);
      }
      outcome := Ok;
    }

    /** A use is noted and a reference handed back. */
    method LetGo(u: Url, k: Kind, now: int)
      requires Valid() && u in entries
      modifies this`entries
      ensures Sound() && forall v <- entries :: v != u ==> HeldIfInvalid(entries[v])
      ensures entries == old(entries)[u := Touched(old(entries)[u], now).With(k, Released(old(Elem(entries, u, k))))]
      ensures old(Intact()) ==> Intact() && stored == Only(stored, entries)
      ensures !entries[u].invalid ==> Valid()
      ensures forall v, j | v in entries :: Elem(entries, v, j).block == Elem(old(entries), v, j).block
    {
      hide Total, InUse, AllKept, BlocksOk, Only;
      if Intact() { HeapKept(entries, disk, stored, u, Data); HeapKept(entries, disk, stored, u, Meta); }
      Touch(u, now);
      Replace(u, entries[u].With(k, Released(Elem(entries, u, k))));
    }

    /** Invalidating an entry after a change that kept all blocks. */
    method Reinvalidate(u: Url, ghost index: Index)
      requires Sound() && u in entries && forall v <- entries :: v != u ==> HeldIfInvalid(entries[v])
      requires index.Keys == entries.Keys && forall v, k | v in index :: Elem(entries, v, k).block == Elem(index, v, k).block
      modifies this, dataUse, metaUse
      ensures Valid() && entries == Invalidated(old(entries), u) && UseKept(index)
      ensures old(Intact()) ==> Intact() && stored == Only(old(stored), entries)
    {
      hide Total, InUse, AllKept, BlocksOk, UseAfter, Only;
      ghost var marked := entries;
      InvalidateEntry(u);
      SameBlocks(index, marked, entries, Data, old(dataUse[..]), dataUse[..]);
      SameBlocks(index, marked, entries, Meta, old(metaUse[..]), metaUse[..]);
    }

    /** invalidate */
    method Invalidate(u: Url, now: int) returns (outcome: Outcome)
      requires Valid()
      modifies this, dataUse, metaUse
      ensures Valid() && UseKept(old(entries))
      ensures old(Intact()) ==> Intact() && stored == Only(old(stored), entries)
      ensures outcome == (if u in old(entries) then Ok else NotFound)
      ensures u !in old(entries) ==> entries == old(entries)
      ensures u in old(entries) ==>
                var e := Touched(old(entries)[u], now);
                entries == if e.Pinned() then old(entries)[u := e.(invalid := true)] else old(entries) - {u}
    {
      hide Total, InUse, AllKept, BlocksOk, UseAfter;
      OnlyAll(entries, disk, stored);
      SameUse(entries, entries, Data, dataUse[..]);
      SameUse(entries, entries, Meta, metaUse[..]);
      if u !in entries { return NotFound; }
      Touch(u, now);
      Reinvalidate(u, old(entries));
      outcome := Ok;
    }
  }

  /**
   * An element kept in a block and stored anew with more bytes than fit in one is written over the block
   * after it: the next fetch of the element there succeeds and does not give what was stored.
   */
  method NeighbourLost(s: Store, u: Url, v: Url, k: Kind, data: seq<Byte>, now: int)
    returns (outcome: Outcome, got: seq<Byte>)
    requires s.Valid() && s.Intact() && u in s.entries && v in s.entries && s.totalAlloc < s.limit
    requires !Elem(s.entries, u, k).heap && !Elem(s.entries, v, k).heap
    requires !StaysInBlock(s.entries, u, k, |data|)
    requires var b := Elem(s.entries, v, k).block; b == Elem(s.entries, u, k).block + 1 && b % BLOCKS_PER_FILE != 0
    requires (k, v) in s.stored && s.stored[(k, v)] != [] && data[BLOCK_SIZE] != s.stored[(k, v)][0]
    modifies s, s.dataUse, s.metaUse
    ensures outcome == Ok && got != old(s.stored)[(k, v)]
  {
    hide Total, InUse, BlocksOk, Compar, Before, SizeOf, Swept, IsOrder, Only, Disk.Write, Disk.Read;
    ghost var disk, f := s.disk, Elem(s.entries, v, k);
    assert Keeps(disk, k, v, f, Some(s.stored[(k, v)])) by {
      assert Keeps(disk, k, v, f, Bytes(s.stored, k, v));
    }
    ghost var left, use, order, n;
    outcome, left, use, order, n := s.StoreElement(u, k, data, now);
    WriteSpills(disk, k, u, Elem(s.entries, u, k), v, f);
    outcome, got := s.Fetch(v, k, now);
  }

  lemma NextBlock(use: seq<bv8>, b: nat, block: nat)
    requires (forall c: nat :: InUse(use, c) <==> c < b) && b < BLOCK_COUNT && Lowest(use, block) && b > 0
    ensures block == b
  {
    hide InUse;
    assert !InUse(use, b);
  }

  /** An address whose data is one byte, in the given block. */
  ghost predicate Small(s: Store, u: Url, block: nat, byte: Byte, held: bool)
    reads s
  {
    && u in s.entries && !s.entries[u].invalid && (Data, u) in s.stored && s.stored[(Data, u)] == [byte]
    && var e := Elem(s.entries, u, Data); e.block == block && e.size == 1 && e.heap == held && (held ==> e.ref == 1)
  }

  /** A first byte for an address goes into the next block. */
  method StoreSmall(s: Store, u: Url, b: nat, byte: Byte)
    requires s.Valid() && s.Intact() && s.totalAlloc < s.limit && u !in s.entries
    requires 0 < b < BLOCK_COUNT && forall c: nat :: InUse(s.dataUse[..], c) <==> c < b
    modifies s, s.dataUse, s.metaUse
    ensures s.Valid() && s.Intact() && s.totalAlloc == old(s.totalAlloc) + 1 && Small(s, u, b, byte, true)
    ensures s.entries.Keys == old(s.entries).Keys + {u} && forall v <- old(s.entries) :: s.entries[v] == old(s.entries)[v]
    ensures s.stored == old(s.stored)[(Data, u) := [byte]] && forall c: nat :: InUse(s.dataUse[..], c) <==> c < b + 1
  {
    hide Total, InUse, BlocksOk, AllKept, Disk.Write, Only, IsOrder, ShortestOver, Swept;
    OnlyAll(s.entries, s.disk, s.stored);
    assert s.Use(Data) == s.dataUse;
    var outcome;
    ghost var left, use, order, n;
    outcome, left, use, order, n := s.StoreElement(u, Data, [byte], 0);
    NextBlock(use, b, Elem(s.entries, u, Data).block);
    TotalSet(old(s.entries), u, s.entries[u]);
  }

  method ReleaseSmall(s: Store, u: Url, ghost b: nat, ghost byte: Byte)
    requires s.Valid() && s.Intact() && Small(s, u, b, byte, true)
    modifies s, s.dataUse, s.metaUse
    ensures s.Valid() && s.Intact() && s.totalAlloc == old(s.totalAlloc) && Small(s, u, b, byte, false)
    ensures s.entries.Keys == old(s.entries).Keys && forall v <- s.entries :: v != u ==> s.entries[v] == old(s.entries)[v]
    ensures s.stored == old(s.stored)
  {
    hide Total, InUse, BlocksOk, AllKept, Only, UseAfter;
    OnlyAll(s.entries, s.disk, s.stored);
    var outcome := s.Release(u, Data, 0);
    assert s.stored == old(s.stored) by { SameOnly(old(s.stored), old(s.entries), s.entries); }
    TotalSet(old(s.entries), u, s.entries[u]);
  }

  /** Two small elements, released, and the first stored anew with 8193 bytes: the second is lost. */
  method OverflowRun() returns (outcome: Outcome, got: seq<Byte>)
    ensures outcome == Ok && got != [2]
  {
    hide Total, InUse, BlocksOk, AllKept, Disk.Write, Disk.Read, Only, UseAfter;
    var s := new Store(1_000_000, 0);
    assert s.Use(Data) == s.dataUse && s.totalAlloc == 0 by { TotalNone(); }
    StoreSmall(s, 1, 1, 1);
    StoreSmall(s, 2, 2, 2);
    ReleaseSmall(s, 1, 1, 1);
    ReleaseSmall(s, 2, 2, 2);
    outcome, got := NeighbourLost(s, 1, 2, Data, seq(BLOCK_SIZE + 1, _ => 0), 0);
  }

  /** Invalidating keeps later fetches from the entry exactly when nothing held it. */
  method InvalidateThenFetch(s: Store, u: Url, k: Kind, now: int) returns (outcome: Outcome, got: seq<Byte>)
    requires s.Valid() && s.Intact() && (k, u) in s.stored
    modifies s, s.dataUse, s.metaUse
    ensures u in old(s.entries) && (outcome == Ok <==> old(s.entries)[u].Pinned())
    ensures outcome == Ok ==> got == old(s.stored)[(k, u)]
  {
    hide Total, InUse, BlocksOk, AllKept, Disk.Read;
    StoredIndexed(s.entries, s.disk, s.stored, k, u);
    outcome := s.Invalidate(u, now);
    outcome, got := s.Fetch(u, k, now);
  }
}
