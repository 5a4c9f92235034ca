/** The resource-fork writer of the icon tool, and a reader that follows the format's offsets. */
module ResourceFork {
  import opened BitString

  datatype Record = Record(rtype: seq<byte>, id: nat, data: seq<byte>, name: seq<byte>, attrs: byte)

  datatype Error = BadType | BadId | NameTooLong | PackRange

  datatype Result<T> = Ok(value: T) | Err(error: Error)

  // ----- big-endian packing -----

  function Pack16(n: nat): (r: seq<byte>)
    requires n < 0x1_0000
    ensures |r| == 2
  {
    [n / 256, n % 256]
  }

  function Pack32(n: nat): (r: seq<byte>)
    requires n < 0x1_0000_0000
    ensures |r| == 4
  {
    Pack16(n / 0x1_0000) + Pack16(n % 0x1_0000)
  }

  /** Reading past the end of the file gives zeros or nothing. */
  function U8(f: seq<byte>, pos: nat): nat {
    if pos < |f| then f[pos] else 0
  }

  function U16(f: seq<byte>, pos: nat): nat {
    U8(f, pos) * 256 + U8(f, pos + 1)
  }

  function U24(f: seq<byte>, pos: nat): nat {
    U8(f, pos) * 0x1_0000 + U16(f, pos + 1)
  }

  function U32(f: seq<byte>, pos: nat): nat {
    U16(f, pos) * 0x1_0000 + U16(f, pos + 2)
  }

  function Sub(f: seq<byte>, pos: nat, n: nat): seq<byte> {
    if pos + n <= |f| then f[pos..pos + n] else []
  }

  /** piece lies at pos of f. */
  ghost predicate At(f: seq<byte>, pos: nat, piece: seq<byte>) {
    pos + |piece| <= |f| && f[pos..pos + |piece|] == piece
  }

  lemma AtNested(f: seq<byte>, p: nat, whole: seq<byte>, q: nat, part: seq<byte>)
    requires At(f, p, whole) && At(whole, q, part)
    ensures At(f, p + q, part)
  {
    var inner := f[p + q..p + q + |part|];
    forall k | 0 <= k < |part|
      ensures inner[k] == part[k]
    {
      assert inner[k] == f[p..p + |whole|][q + k];
      assert part[k] == whole[q..q + |part|][k];
    }
  }

  lemma AtParts(f: seq<byte>, pos: nat, a: seq<byte>, b: seq<byte>)
    requires At(f, pos, a + b)
    ensures At(f, pos, a) && At(f, pos + |a|, b)
  {
    assert At(a + b, 0, a) && At(a + b, |a|, b);
    AtNested(f, pos, a + b, 0, a);
    AtNested(f, pos, a + b, |a|, b);
  }

  lemma Read8(f: seq<byte>, pos: nat, b: byte)
    requires At(f, pos, [b])
    ensures U8(f, pos) == b
  {
  }

  lemma Read16(f: seq<byte>, pos: nat, n: nat)
    requires n < 0x1_0000 && At(f, pos, Pack16(n))
    ensures U16(f, pos) == n
  {
  }

  lemma Read32(f: seq<byte>, pos: nat, n: nat)
    requires n < 0x1_0000_0000 && At(f, pos, Pack32(n))
    ensures U32(f, pos) == n
  {
  }

  /** The low three bytes of a 32-bit offset. */
  lemma Read24(f: seq<byte>, pos: nat, n: nat)
    requires n < 0x1_0000_0000 && At(f, pos, Pack32(n)[1..])
    ensures U24(f, pos) == n % 0x100_0000
  {
    var hi, lo := n / 0x1_0000, n % 0x1_0000;
    assert Pack32(n)[1..] == [hi % 256] + Pack16(lo);
    AtParts(f, pos, [hi % 256], Pack16(lo));
    Read8(f, pos, hi % 256);
    Read16(f, pos + 1, lo);
  }

  lemma ReadSub(f: seq<byte>, pos: nat, piece: seq<byte>)
    requires At(f, pos, piece)
    ensures Sub(f, pos, |piece|) == piece
  {
  }

  // ----- pieces laid end to end -----

  function Concat(pieces: seq<seq<byte>>): seq<byte> {
    if pieces == [] then [] else Concat(pieces[..|pieces| - 1]) + pieces[|pieces| - 1]
  }

  /** Where piece i starts. */
  function Offset(pieces: seq<seq<byte>>, i: nat): nat
    requires i <= |pieces|
  {
    if i == 0 then 0 else Offset(pieces, i - 1) + |pieces[i - 1]|
  }

  lemma {:induction false} ConcatLength(pieces: seq<seq<byte>>, i: nat)
    requires i <= |pieces|
    ensures |Concat(pieces[..i])| == Offset(pieces, i)
  {
    if i == 0 {
    } else {
      ConcatLength(pieces, i - 1);
      assert pieces[..i][..i - 1] == pieces[..i - 1];
    }
  }

  lemma ConcatSnoc(pieces: seq<seq<byte>>, i: nat)
    requires i < |pieces|
    ensures Concat(pieces[..i + 1]) == Concat(pieces[..i]) + pieces[i]
    ensures Concat(pieces[..0]) == []
  {
    assert pieces[..i + 1][..i] == pieces[..i];
  }

  /** Every piece lies at its offset. */
  lemma {:induction false} ConcatAt(pieces: seq<seq<byte>>, n: nat, i: nat)
    requires i < n <= |pieces|
    ensures At(Concat(pieces[..n]), Offset(pieces, i), pieces[i])
    decreases n
  {
    var last := pieces[..n];
    assert last[..n - 1] == pieces[..n - 1];
    ConcatLength(pieces, n - 1);
    if i == n - 1 {
    } else {
      ConcatAt(pieces, n - 1, i);
      assert Concat(last)[..|Concat(pieces[..n - 1])|] == Concat(pieces[..n - 1]);
      AtNested(Concat(last), 0, Concat(pieces[..n - 1]), Offset(pieces, i), pieces[i]);
    }
  }

  lemma PieceAt(f: seq<byte>, pos: nat, pieces: seq<seq<byte>>, i: nat)
    requires i < |pieces| && At(f, pos, Concat(pieces))
    ensures At(f, pos + Offset(pieces, i), pieces[i])
  {
    assert pieces[..|pieces|] == pieces;
    ConcatAt(pieces, |pieces|, i);
    AtNested(f, pos, Concat(pieces), Offset(pieces, i), pieces[i]);
  }

  lemma {:induction false} OffsetOfEqual(pieces: seq<seq<byte>>, n: nat, i: nat)
    requires i <= |pieces| && forall k :: 0 <= k < i ==> |pieces[k]| == n
    ensures Offset(pieces, i) == n * i
  {
    if i == 0 {
    } else {
      OffsetOfEqual(pieces, n, i - 1);
      assert n * i == n * (i - 1) + n;
    }
  }

  // ----- the layout -----

  predicate Packable(r: Record) {
    |r.rtype| == 4 && r.id < 0x1_0000 && |r.data| < 0x1_0000_0000 && |r.name| <= 255
  }

  function DataPiece(r: Record): seq<byte> {
    if |r.data| < 0x1_0000_0000 then Pack32(|r.data|) + r.data else []
  }

  /** Names are length-prefixed; an empty name takes no room. */
  function NamePiece(r: Record): seq<byte> {
    if 0 < |r.name| <= 255 then [|r.name|] + r.name else []
  }

  function DataPieces(rs: seq<Record>): (p: seq<seq<byte>>)
    ensures |p| == |rs|
  {
    seq(|rs|, i requires 0 <= i < |rs| => DataPiece(rs[i]))
  }

  function NamePieces(rs: seq<Record>): (p: seq<seq<byte>>)
    ensures |p| == |rs|
  {
    seq(|rs|, i requires 0 <= i < |rs| => NamePiece(rs[i]))
  }

  function DataOff(rs: seq<Record>, i: nat): nat
    requires i < |rs|
  {
    Offset(DataPieces(rs), i)
  }

  function NameOff(rs: seq<Record>, i: nat): nat
    requires i < |rs|
  {
    if rs[i].name == [] then 0xFFFF else Offset(NamePieces(rs), i)
  }

  /** The types in first-seen order. */
  function Types(rs: seq<Record>): seq<seq<byte>> {
    if rs == [] then []
    else
      var ts, t := Types(rs[..|rs| - 1]), rs[|rs| - 1].rtype;
      if t in ts then ts else ts + [t]
  }

  ghost predicate Below(s: seq<nat>, n: nat) {
    forall k :: 0 <= k < |s| ==> s[k] < n
  }

  ghost predicate Increasing(s: seq<nat>) {
    forall j, k :: 0 <= j < k < |s| ==> s[j] < s[k]
  }

  /** The records of a type, in insertion order. */
  function OfType(rs: seq<Record>, t: seq<byte>): (r: seq<nat>)
    ensures Below(r, |rs|) && Increasing(r)
  {
    if rs == [] then []
    else
      var n := |rs| - 1;
      var r := OfType(rs[..n], t);
      if rs[n].rtype == t then r + [n] else r
  }

  lemma {:induction false} OfTypeIs(rs: seq<Record>, t: seq<byte>)
    ensures forall i :: i in OfType(rs, t) <==> 0 <= i < |rs| && rs[i].rtype == t
  {
    if rs == [] {
    } else {
      var n := |rs| - 1;
      OfTypeIs(rs[..n], t);
      assert forall i :: 0 <= i < n ==> rs[..n][i] == rs[i];
    }
  }

  /** Records come in order of identifier, those of equal identifier in insertion order. */
  predicate Precedes(rs: seq<Record>, i: nat, j: nat) {
    i < |rs| && j < |rs| && (rs[i].id < rs[j].id || (rs[i].id == rs[j].id && i < j))
  }

  ghost predicate Ordered(rs: seq<Record>, s: seq<nat>) {
    Below(s, |rs|) && forall j, k :: 0 <= j < k < |s| ==> Precedes(rs, s[j], s[k])
  }

  /** How many of the records in order have an identifier not greater than id. */
  function Rank(rs: seq<Record>, s: seq<nat>, id: nat): (p: nat)
    requires Ordered(rs, s)
    ensures p <= |s|
    ensures forall k :: 0 <= k < p ==> rs[s[k]].id <= id
    ensures forall k :: p <= k < |s| ==> rs[s[k]].id > id
  {
    if s == [] then 0
    else
      var n := |s| - 1;
      if rs[s[n]].id <= id then
        assert forall k :: 0 <= k < n ==> Precedes(rs, s[k], s[n]);
        |s|
      else Rank(rs, s[..n], id)
  }

  function Insert(s: seq<nat>, p: nat, i: nat): (r: seq<nat>)
    requires p <= |s|
    ensures |r| == |s| + 1
    ensures forall k :: 0 <= k < |r| ==> r[k] == if k < p then s[k] else if k == p then i else s[k - 1]
  {
    s[..p] + [i] + s[p..]
  }

  /** list.sort by identifier, which is stable: each record goes behind those not greater. */
  function SortById(rs: seq<Record>, s: seq<nat>): (r: seq<nat>)
    requires Below(s, |rs|) && Increasing(s)
    ensures Ordered(rs, r) && multiset(r) == multiset(s)
  {
    if s == [] then []
    else
      var n := |s| - 1;
      var r, i := SortById(rs, s[..n]), s[n];
      SortStep(rs, s, r);
      Insert(r, Rank(rs, r, rs[i].id), i)
  }

  lemma SortStep(rs: seq<Record>, s: seq<nat>, r: seq<nat>)
    requires Below(s, |rs|) && Increasing(s) && s != []
    requires Ordered(rs, r) && multiset(r) == multiset(s[..|s| - 1])
    ensures var i := s[|s| - 1];
            var t := Insert(r, Rank(rs, r, rs[i].id), i);
            Ordered(rs, t) && multiset(t) == multiset(s)
  {
    hide Insert, Rank, Ordered;
    var n := |s| - 1;
    var i := s[n];
    assert s == s[..n] + [i];
    BelowSame(r, s[..n], i);
    InsertedOrdered(rs, r, i, Rank(rs, r, rs[i].id));
    InsertMultiset(r, Rank(rs, r, rs[i].id), i);
  }

  lemma InsertMultiset(s: seq<nat>, p: nat, i: nat)
    requires p <= |s|
    ensures multiset(Insert(s, p, i)) == multiset(s) + multiset{i}
  {
    assert s == s[..p] + s[p..];
  }

  lemma BelowSame(r: seq<nat>, s: seq<nat>, n: nat)
    requires multiset(r) == multiset(s) && Below(s, n)
    ensures Below(r, n)
  {
    forall k | 0 <= k < |r| ensures r[k] < n {
      assert r[k] in multiset(s);
    }
  }

  lemma InsertedOrdered(rs: seq<Record>, s: seq<nat>, i: nat, p: nat)
    requires i < |rs| && Ordered(rs, s) && Below(s, i) && p == Rank(rs, s, rs[i].id)
    ensures Ordered(rs, Insert(s, p, i))
  {
  }

  function Group(rs: seq<Record>, t: seq<byte>): (g: seq<nat>)
    ensures Below(g, |rs|)
  {
    SortById(rs, OfType(rs, t))
  }

  /** A type's group is exactly the records of that type, in order of identifier. */
  lemma GroupIs(rs: seq<Record>, t: seq<byte>)
    ensures Ordered(rs, Group(rs, t))
    ensures multiset(Group(rs, t)) == multiset(OfType(rs, t))
    ensures forall i :: i in Group(rs, t) <==> 0 <= i < |rs| && rs[i].rtype == t
  {
    var s, g := OfType(rs, t), Group(rs, t);
    OfTypeIs(rs, t);
    assert forall i :: i in g <==> i in multiset(g);
    assert forall i :: i in s <==> i in multiset(s);
  }

  function Zeros(n: nat): (z: seq<byte>)
    ensures |z| == n
  {
    seq(n, _ => 0)
  }

  // Sizes of the parts of the map.
  const ADMIN_SIZE: nat := 28
  const TYPE_SIZE: nat := 8
  const REF_SIZE: nat := 12
  const DATA_OFFSET: nat := 0x100

  /** The number of references in the first k types. */
  function RefsBefore(rs: seq<Record>, k: nat): nat
    requires k <= |Types(rs)|
  {
    if k == 0 then 0 else RefsBefore(rs, k - 1) + |Group(rs, Types(rs)[k - 1])|
  }

  function RefListsStart(rs: seq<Record>): nat {
    ADMIN_SIZE + 2 + TYPE_SIZE * |Types(rs)|
  }

  function NameListOffset(rs: seq<Record>): nat {
    RefListsStart(rs) + REF_SIZE * RefsBefore(rs, |Types(rs)|)
  }

  /** The offset of a type's references, from the type list. */
  function RefOffset(rs: seq<Record>, k: nat): nat
    requires k <= |Types(rs)|
  {
    2 + TYPE_SIZE * |Types(rs)| + REF_SIZE * RefsBefore(rs, k)
  }

  /** What struct.pack and the name check accept. */
  ghost predicate Fits(rs: seq<Record>) {
    && rs != []
    && (forall i :: 0 <= i < |rs| ==> Packable(rs[i]) && DataOff(rs, i) < 0x1_0000_0000 && NameOff(rs, i) < 0x1_0000)
    && NameListOffset(rs) < 0x1_0000
    && DATA_OFFSET + |Concat(DataPieces(rs))| < 0x1_0000_0000
    && NameListOffset(rs) + |Concat(NamePieces(rs))| < 0x1_0000_0000
  }

  lemma FitsBasics(rs: seq<Record>)
    requires Fits(rs)
    ensures NameListOffset(rs) < 0x1_0000 && Types(rs) != []
  {
  }

  ghost function RefEntry(rs: seq<Record>, i: nat): (r: seq<byte>)
    requires Fits(rs) && i < |rs|
    ensures |r| == REF_SIZE
  {
    assert Packable(rs[i]);
    Pack16(rs[i].id) + Pack16(NameOff(rs, i)) + [rs[i].attrs] + Pack32(DataOff(rs, i))[1..] + Pack32(0)
  }

  ghost function RefEntries(rs: seq<Record>, g: seq<nat>): (r: seq<seq<byte>>)
    requires Fits(rs) && Below(g, |rs|)
    ensures |r| == |g| && forall j :: 0 <= j < |g| ==> |r[j]| == REF_SIZE
  {
    seq(|g|, j requires 0 <= j < |g| => RefEntry(rs, g[j]))
  }

  ghost function RefLists(rs: seq<Record>): (r: seq<seq<byte>>)
    requires Fits(rs)
    ensures |r| == |Types(rs)|
  {
    seq(|Types(rs)|, k requires 0 <= k < |Types(rs)| => Concat(RefEntries(rs, Group(rs, Types(rs)[k]))))
  }

  lemma {:induction false} RefListOffset(rs: seq<Record>, k: nat)
    requires Fits(rs) && k <= |Types(rs)|
    ensures Offset(RefLists(rs), k) == REF_SIZE * RefsBefore(rs, k)
  {
    hide Group, Types, Fits, Concat;
    if k == 0 {
    } else {
      RefListOffset(rs, k - 1);
      var entries := RefEntries(rs, Group(rs, Types(rs)[k - 1]));
      RefListLength(entries);
      assert RefLists(rs)[k - 1] == Concat(entries);
    }
  }

  lemma RefListLength(entries: seq<seq<byte>>)
    requires forall k :: 0 <= k < |entries| ==> |entries[k]| == REF_SIZE
    ensures |Concat(entries)| == REF_SIZE * |entries|
  {
    ConcatLength(entries, |entries|);
    assert entries[..|entries|] == entries;
    OffsetOfEqual(entries, REF_SIZE, |entries|);
  }

  lemma {:induction false} RefsGrow(rs: seq<Record>, j: nat, k: nat)
    requires j <= k <= |Types(rs)|
    ensures RefsBefore(rs, j) <= RefsBefore(rs, k)
    decreases k
  {
    hide Group, Types;
    if j == k {
    } else {
      RefsGrow(rs, j, k - 1);
    }
  }

  /** Every listed type has records. */
  lemma {:induction false} TypeUsed(rs: seq<Record>, k: nat)
    requires k < |Types(rs)|
    ensures exists i :: 0 <= i < |rs| && rs[i].rtype == Types(rs)[k]
  {
    var n := |rs| - 1;
    if k < |Types(rs[..n])| {
      TypeUsed(rs[..n], k);
      var i :| 0 <= i < n && rs[..n][i].rtype == Types(rs[..n])[k];
      assert rs[i].rtype == Types(rs)[k];
    } else {
      assert rs[n].rtype == Types(rs)[k];
    }
  }

  /** If the name list is in reach of the map, the counts and offsets of the type list fit too. */
  lemma GroupSize(rs: seq<Record>, k: nat)
    requires NameListOffset(rs) < 0x1_0000 && k < |Types(rs)|
    ensures 1 <= |Group(rs, Types(rs)[k])| <= 0x1_0000 && |Types(rs)| <= 0x1_0000 && RefOffset(rs, k) < 0x1_0000
  {
    hide Group, Types;
    GroupIs(rs, Types(rs)[k]);
    TypeUsed(rs, k);
    var i :| 0 <= i < |rs| && rs[i].rtype == Types(rs)[k];
    assert i in Group(rs, Types(rs)[k]);
    RefsGrow(rs, k, |Types(rs)|);
    RefsGrow(rs, k + 1, |Types(rs)|);
  }

  lemma TypeLength(rs: seq<Record>, k: nat)
    requires k < |Types(rs)| && forall i :: 0 <= i < |rs| ==> |rs[i].rtype| == 4
    ensures |Types(rs)[k]| == 4
  {
  }

  ghost function TypeEntry(rs: seq<Record>, k: nat): (r: seq<byte>)
    requires Fits(rs) && k < |Types(rs)|
    ensures |r| == TYPE_SIZE
  {
    GroupSize(rs, k);
    TypeLength(rs, k);
    Types(rs)[k] + Pack16(|Group(rs, Types(rs)[k])| - 1) + Pack16(RefOffset(rs, k))
  }

  ghost function TypeEntries(rs: seq<Record>): (r: seq<seq<byte>>)
    requires Fits(rs)
    ensures |r| == |Types(rs)| && forall k :: 0 <= k < |r| ==> |r[k]| == TYPE_SIZE
  {
    hide Types, Fits, TypeEntry;
    seq(|Types(rs)|, k requires 0 <= k < |Types(rs)| => TypeEntry(rs, k))
  }

  ghost function Admin(rs: seq<Record>): (r: seq<byte>)
    requires Fits(rs)
    ensures |r| == ADMIN_SIZE
  {
    Zeros(16) + Pack32(0) + Pack16(0) + Pack16(0) + Pack16(ADMIN_SIZE) + Pack16(NameListOffset(rs))
  }

  lemma TypesNonEmpty(rs: seq<Record>)
    requires rs != []
    ensures Types(rs) != []
  {
  }

  ghost function TypeList(rs: seq<Record>): (r: seq<byte>)
    requires Fits(rs)
  {
    TypesNonEmpty(rs);
    GroupSize(rs, 0);
    Pack16(|Types(rs)| - 1) + Concat(TypeEntries(rs))
  }

  ghost function ResourceMap(rs: seq<Record>): (r: seq<byte>)
    requires Fits(rs)
  {
    Admin(rs) + TypeList(rs) + Concat(RefLists(rs)) + Concat(NamePieces(rs))
  }

  lemma TypeListLength(rs: seq<Record>)
    requires Fits(rs)
    ensures |TypeList(rs)| == 2 + TYPE_SIZE * |Types(rs)|
    ensures |Concat(RefLists(rs))| == REF_SIZE * RefsBefore(rs, |Types(rs)|)
    ensures |ResourceMap(rs)| == NameListOffset(rs) + |Concat(NamePieces(rs))|
  {
    hide Group, Types, Fits, Concat, Offset;
    var entries, lists := TypeEntries(rs), RefLists(rs);
    ConcatLength(entries, |entries|);
    assert entries[..|entries|] == entries;
    OffsetOfEqual(entries, TYPE_SIZE, |entries|);
    ConcatLength(lists, |lists|);
    assert lists[..|lists|] == lists;
    RefListOffset(rs, |lists|);
  }

  ghost function Header(rs: seq<Record>): (r: seq<byte>)
    requires Fits(rs)
    ensures |r| == 16
  {
    TypeListLength(rs);
    var dataLength := |Concat(DataPieces(rs))|;
    Pack32(DATA_OFFSET) + Pack32(DATA_OFFSET + dataLength) + Pack32(dataLength) + Pack32(|ResourceMap(rs)|)
  }

  /** The whole file. */
  ghost function Fork(rs: seq<Record>): (r: seq<byte>)
    requires Fits(rs)
  {
    Header(rs) + Zeros(DATA_OFFSET - 16) + Concat(DataPieces(rs)) + ResourceMap(rs)
  }

  // ----- reading it back -----

  datatype Option<T> = None | Some(value: T)

  datatype Resource = Resource(id: nat, attrs: nat, name: seq<byte>, data: Option<seq<byte>>)

  datatype TypeGroup = TypeGroup(rtype: seq<byte>, resources: seq<Resource>)

  /** One reference: its data lies at a 24-bit offset, its name at a 16-bit one unless that is 0xFFFF. */
  function ReadRef(f: seq<byte>, pos: nat, dataStart: nat, nameStart: nat): Resource {
    var nameOff, at := U16(f, pos + 2), U24(f, pos + 5);
    var name := if nameOff == 0xFFFF then [] else Sub(f, nameStart + nameOff + 1, U8(f, nameStart + nameOff));
    Resource(U16(f, pos), U8(f, pos + 4), name, ReadData(f, dataStart + at))
  }

  /** A length and as many bytes, if they are all there. */
  function ReadData(f: seq<byte>, pos: nat): Option<seq<byte>> {
    var n := U32(f, pos);
    if pos + 4 + n <= |f| then Some(f[pos + 4..pos + 4 + n]) else None
  }

  function ReadType(f: seq<byte>, typeList: nat, k: nat, dataStart: nat, nameStart: nat): TypeGroup {
    var pos := typeList + 2 + TYPE_SIZE * k;
    var refs := typeList + U16(f, pos + 6);
    TypeGroup(Sub(f, pos, 4), seq(U16(f, pos + 4) + 1, j requires j >= 0 => ReadRef(f, refs + REF_SIZE * j, dataStart, nameStart)))
  }

  /** Follow header, map, type list, reference lists and name list. */
  function ReadFork(f: seq<byte>): seq<TypeGroup> {
    var dataStart, mapStart := U32(f, 0), U32(f, 4);
    var typeList, nameStart := mapStart + U16(f, mapStart + 24), mapStart + U16(f, mapStart + 26);
    seq(U16(f, typeList) + 1, k requires k >= 0 => ReadType(f, typeList, k, dataStart, nameStart))
  }

  /** The record as inserted. */
  ghost function Inserted(rs: seq<Record>, i: nat): Resource
    requires i < |rs|
  {
    Resource(rs[i].id, rs[i].attrs, rs[i].name, Some(rs[i].data))
  }

  /** The records as inserted, grouped by first-seen type and ordered by identifier. */
  ghost function Expected(rs: seq<Record>): seq<TypeGroup> {
    seq(|Types(rs)|, k requires 0 <= k < |Types(rs)| => ExpectedGroup(rs, Types(rs)[k]))
  }

  ghost function ExpectedGroup(rs: seq<Record>, t: seq<byte>): TypeGroup {
    var g := Group(rs, t);
    TypeGroup(t, seq(|g|, j requires 0 <= j < |g| => Inserted(rs, g[j])))
  }

  ghost function MapOffset(rs: seq<Record>): nat {
    DATA_OFFSET + |Concat(DataPieces(rs))|
  }

  /** The regions of the file lie end to end, with exact lengths, where the header says. */
  lemma ForkRegions(rs: seq<Record>)
    requires Fits(rs)
    ensures var f := Fork(rs);
            && At(f, DATA_OFFSET, Concat(DataPieces(rs))) && At(f, MapOffset(rs), ResourceMap(rs))
            && |f| == MapOffset(rs) + |ResourceMap(rs)|
            && U32(f, 0) == DATA_OFFSET && U32(f, 4) == MapOffset(rs)
            && U32(f, 8) == |Concat(DataPieces(rs))| && U32(f, 12) == |ResourceMap(rs)|
  {
    hide Fits, Concat, ResourceMap;
    var f, header, pad := Fork(rs), Header(rs), Zeros(DATA_OFFSET - 16);
    var data, rmap := Concat(DataPieces(rs)), ResourceMap(rs);
    assert At(f, 0, f);
    AtParts(f, 0, header + pad + data, rmap);
    AtParts(f, 0, header + pad, data);
    AtParts(f, 0, header, pad);
    HeaderReads(rs);
  }

  lemma HeaderReads(rs: seq<Record>)
    requires Fits(rs) && At(Fork(rs), 0, Header(rs))
    ensures var f := Fork(rs);
            && U32(f, 0) == DATA_OFFSET && U32(f, 4) == MapOffset(rs)
            && U32(f, 8) == |Concat(DataPieces(rs))| && U32(f, 12) == |ResourceMap(rs)|
  {
    hide Concat, ResourceMap, Fork, Pack32, U32;
    TypeListLength(rs);
    var f, n, m := Fork(rs), |Concat(DataPieces(rs))|, |ResourceMap(rs)|;
    AtParts(f, 0, Pack32(DATA_OFFSET) + Pack32(DATA_OFFSET + n) + Pack32(n), Pack32(m));
    AtParts(f, 0, Pack32(DATA_OFFSET) + Pack32(DATA_OFFSET + n), Pack32(n));
    AtParts(f, 0, Pack32(DATA_OFFSET), Pack32(DATA_OFFSET + n));
    Read32(f, 0, DATA_OFFSET);
    Read32(f, 4, DATA_OFFSET + n);
    Read32(f, 8, n);
    Read32(f, 12, m);
  }

  lemma AdminReads(f: seq<byte>, pos: nat, rs: seq<Record>)
    requires Fits(rs) && At(f, pos, Admin(rs))
    ensures U16(f, pos + 24) == ADMIN_SIZE && U16(f, pos + 26) == NameListOffset(rs)
  {
    hide U16, Pack16, NameListOffset, At;
    var front := Zeros(16) + Pack32(0) + Pack16(0) + Pack16(0);
    AtParts(f, pos, front + Pack16(ADMIN_SIZE), Pack16(NameListOffset(rs)));
    AtParts(f, pos, front, Pack16(ADMIN_SIZE));
    Read16(f, pos + 24, ADMIN_SIZE);
    Read16(f, pos + 26, NameListOffset(rs));
  }

  lemma TypeListReads(f: seq<byte>, pos: nat, rs: seq<Record>)
    requires Fits(rs) && At(f, pos, TypeList(rs))
    ensures Types(rs) != [] && U16(f, pos) == |Types(rs)| - 1
    ensures At(f, pos + 2, Concat(TypeEntries(rs)))
  {
    hide Concat, Types, U16, Pack16, TypeEntries, At;
    TypesNonEmpty(rs);
    GroupSize(rs, 0);
    AtParts(f, pos, Pack16(|Types(rs)| - 1), Concat(TypeEntries(rs)));
    Read16(f, pos, |Types(rs)| - 1);
  }

  /** The parts of the map, at the offsets it gives for them. */
  lemma MapReads(f: seq<byte>, pos: nat, rs: seq<Record>)
    requires Fits(rs) && At(f, pos, ResourceMap(rs))
    ensures U16(f, pos + 24) == ADMIN_SIZE && U16(f, pos + 26) == NameListOffset(rs)
    ensures Types(rs) != [] && U16(f, pos + ADMIN_SIZE) == |Types(rs)| - 1
    ensures At(f, pos + ADMIN_SIZE + 2, Concat(TypeEntries(rs)))
    ensures At(f, pos + RefListsStart(rs), Concat(RefLists(rs)))
    ensures At(f, pos + NameListOffset(rs), Concat(NamePieces(rs)))
  {
    hide Concat, Types, U16, Pack16, TypeEntries, RefLists, NamePieces, Admin, TypeList, At, Fits, RefsBefore;
    TypeListLength(rs);
    var admin, types, refs, names := Admin(rs), TypeList(rs), Concat(RefLists(rs)), Concat(NamePieces(rs));
    AtParts(f, pos, admin + types + refs, names);
    AtParts(f, pos, admin + types, refs);
    AtParts(f, pos, admin, types);
    AdminReads(f, pos, rs);
    TypeListReads(f, pos + ADMIN_SIZE, rs);
  }

  /** A type list entry gives the type, the number of references and where they are. */
  lemma TypeReads(f: seq<byte>, pos: nat, rs: seq<Record>, k: nat)
    requires Fits(rs) && k < |Types(rs)| && At(f, pos, Concat(TypeEntries(rs)))
    ensures var p := pos + TYPE_SIZE * k;
            && Sub(f, p, 4) == Types(rs)[k]
            && U16(f, p + 4) + 1 == |Group(rs, Types(rs)[k])|
            && U16(f, p + 6) == RefOffset(rs, k)
  {
    hide Concat, Types, Group, U16, Pack16, Offset, RefOffset;
    GroupSize(rs, k);
    TypeLength(rs, k);
    OffsetOfEqual(TypeEntries(rs), TYPE_SIZE, k);
    PieceAt(f, pos, TypeEntries(rs), k);
    var p, t, n := pos + TYPE_SIZE * k, Types(rs)[k], |Group(rs, Types(rs)[k])|;
    assert At(f, p, TypeEntry(rs, k));
    AtParts(f, p, t + Pack16(n - 1), Pack16(RefOffset(rs, k)));
    AtParts(f, p, t, Pack16(n - 1));
    ReadSub(f, p, t);
    Read16(f, p + 4, n - 1);
    Read16(f, p + 6, RefOffset(rs, k));
  }

  /** Reference j of type k lies where the type list entry leads. */
  lemma RefAt(f: seq<byte>, pos: nat, rs: seq<Record>, k: nat, j: nat)
    requires Fits(rs) && k < |Types(rs)| && At(f, pos, Concat(RefLists(rs)))
    requires j < |Group(rs, Types(rs)[k])|
    ensures At(f, pos + REF_SIZE * RefsBefore(rs, k) + REF_SIZE * j, RefEntry(rs, Group(rs, Types(rs)[k])[j]))
  {
    hide Concat, Types, Group, Offset, Fits, RefEntry, RefsBefore;
    var entries := RefEntries(rs, Group(rs, Types(rs)[k]));
    RefListOffset(rs, k);
    PieceAt(f, pos, RefLists(rs), k);
    OffsetOfEqual(entries, REF_SIZE, j);
    PieceAt(f, pos + REF_SIZE * RefsBefore(rs, k), entries, j);
  }

  /** Whether the data lies where the low 24 bits of its offset lead. */
  ghost predicate Reached(f: seq<byte>, dataStart: nat, rs: seq<Record>, i: nat)
    requires i < |rs|
  {
    DataOff(rs, i) < 0x100_0000 || At(f, dataStart + DataOff(rs, i) % 0x100_0000, DataPiece(rs[i]))
  }

  /** What reading reference i back gives: the name is lost if its offset is the mark for no name, and
      the data is recovered exactly when it lies where 24 bits lead. */
  ghost predicate ReadsBack(x: Resource, f: seq<byte>, dataStart: nat, rs: seq<Record>, i: nat)
    requires i < |rs|
  {
    && x.id == rs[i].id && x.attrs == rs[i].attrs
    && x.name == (if NameOff(rs, i) == 0xFFFF then [] else rs[i].name)
    && (x.data == Some(rs[i].data) <==> Reached(f, dataStart, rs, i))
  }

  lemma RefFields(f: seq<byte>, pos: nat, rs: seq<Record>, i: nat)
    requires Fits(rs) && i < |rs| && At(f, pos, RefEntry(rs, i))
    ensures U16(f, pos) == rs[i].id && U16(f, pos + 2) == NameOff(rs, i)
    ensures U8(f, pos + 4) == rs[i].attrs && U24(f, pos + 5) == DataOff(rs, i) % 0x100_0000
  {
    hide U16, U24, Pack16, Pack32, At, DataOff, NameOff;
    assert Packable(rs[i]);
    var id, nameOff, dataOff := Pack16(rs[i].id), Pack16(NameOff(rs, i)), Pack32(DataOff(rs, i))[1..];
    AtParts(f, pos, id + nameOff + [rs[i].attrs] + dataOff, Pack32(0));
    AtParts(f, pos, id + nameOff + [rs[i].attrs], dataOff);
    AtParts(f, pos, id + nameOff, [rs[i].attrs]);
    AtParts(f, pos, id, nameOff);
    Read16(f, pos, rs[i].id);
    Read16(f, pos + 2, NameOff(rs, i));
    Read8(f, pos + 4, rs[i].attrs);
    Read24(f, pos + 5, DataOff(rs, i));
  }

  lemma PackableIn(rs: seq<Record>, i: nat)
    requires Fits(rs) && i < |rs|
    ensures Packable(rs[i])
  {
  }

  lemma RefReads(f: seq<byte>, pos: nat, dataStart: nat, nameStart: nat, rs: seq<Record>, i: nat)
    requires Fits(rs) && i < |rs| && At(f, pos, RefEntry(rs, i))
    requires At(f, dataStart, Concat(DataPieces(rs))) && At(f, nameStart, Concat(NamePieces(rs)))
    ensures ReadsBack(ReadRef(f, pos, dataStart, nameStart), f, dataStart, rs, i)
  {
    hide Concat, U8, U16, U24, U32, At, Sub, RefEntry, DataOff, NameOff, NamePieces, DataPieces, Packable, Fits;
    PackableIn(rs, i);
    RefFields(f, pos, rs, i);
    DataReads(f, dataStart, rs, i);
    NameReads(f, nameStart, rs, i);
  }

  /** Data is read back exactly from where its length and bytes lie. */
  lemma DataAt(f: seq<byte>, pos: nat, d: seq<byte>)
    requires |d| < 0x1_0000_0000
    ensures ReadData(f, pos) == Some(d) <==> At(f, pos, Pack32(|d|) + d)
  {
    hide Pack32, U32;
    var n := U32(f, pos);
    if At(f, pos, Pack32(|d|) + d) {
      AtParts(f, pos, Pack32(|d|), d);
      Read32(f, pos, |d|);
    }
    if ReadData(f, pos) == Some(d) {
      Pack32Of(f, pos);
      assert f[pos..pos + 4 + n] == f[pos..pos + 4] + f[pos + 4..pos + 4 + n];
    }
  }

  lemma Pack32Of(f: seq<byte>, pos: nat)
    requires pos + 4 <= |f|
    ensures U32(f, pos) < 0x1_0000_0000 && f[pos..pos + 4] == Pack32(U32(f, pos))
  {
    var hi, lo := U16(f, pos), U16(f, pos + 2);
    assert U32(f, pos) / 0x1_0000 == hi && U32(f, pos) % 0x1_0000 == lo;
  }

  lemma DataReads(f: seq<byte>, pos: nat, rs: seq<Record>, i: nat)
    requires i < |rs| && Packable(rs[i]) && At(f, pos, Concat(DataPieces(rs)))
    ensures ReadData(f, pos + DataOff(rs, i) % 0x100_0000) == Some(rs[i].data) <==> Reached(f, pos, rs, i)
  {
    hide Concat, Offset, Pack32, ReadData;
    PieceAt(f, pos, DataPieces(rs), i);
    DataAt(f, pos + DataOff(rs, i) % 0x100_0000, rs[i].data);
  }

  lemma NameReads(f: seq<byte>, pos: nat, rs: seq<Record>, i: nat)
    requires i < |rs| && Packable(rs[i]) && At(f, pos, Concat(NamePieces(rs)))
    ensures if rs[i].name == [] then NameOff(rs, i) == 0xFFFF
            else U8(f, pos + NameOff(rs, i)) == |rs[i].name| && Sub(f, pos + NameOff(rs, i) + 1, |rs[i].name|) == rs[i].name
  {
    hide Concat, Offset, Sub;
    if rs[i].name == [] { return; }
    PieceAt(f, pos, NamePieces(rs), i);
    var p, n := pos + NameOff(rs, i), rs[i].name;
    AtParts(f, p, [|n|], n);
    Read8(f, p, |n|);
    ReadSub(f, p + 1, n);
  }

  /** Every record's data lies where 24 bits of its offset lead, and no name is at the mark for no name. */
  ghost predicate Recoverable(rs: seq<Record>)
    requires Fits(rs)
  {
    forall i :: 0 <= i < |rs| ==> Reached(Fork(rs), DATA_OFFSET, rs, i) && (rs[i].name != [] ==> NameOff(rs, i) != 0xFFFF)
  }

  ghost predicate GroupReadsBack(x: TypeGroup, f: seq<byte>, rs: seq<Record>, t: seq<byte>, g: seq<nat>) {
    && Below(g, |rs|)
    && x.rtype == t && |x.resources| == |g|
    && forall j :: 0 <= j < |g| ==> ReadsBack(x.resources[j], f, DATA_OFFSET, rs, g[j])
  }

  /** What the reader makes of type k. */
  ghost function ReadGroup(rs: seq<Record>, k: nat): TypeGroup
    requires Fits(rs)
  {
    ReadType(Fork(rs), MapOffset(rs) + ADMIN_SIZE, k, DATA_OFFSET, MapOffset(rs) + NameListOffset(rs))
  }

  lemma GroupReads(rs: seq<Record>, k: nat)
    requires Fits(rs) && k < |Types(rs)|
    ensures GroupReadsBack(ReadGroup(rs, k), Fork(rs), rs, Types(rs)[k], Group(rs, Types(rs)[k]))
  {
    hide Concat, Offset, U16, U32, At, Sub, Group, Types, Fits, Fork, ReadsBack, ReadRef, RefsBefore, NamePieces, DataPieces;
    var f, m, g := Fork(rs), MapOffset(rs), Group(rs, Types(rs)[k]);
    ForkRegions(rs);
    MapReads(f, m, rs);
    TypeReads(f, m + ADMIN_SIZE + 2, rs, k);
    var r := ReadGroup(rs, k);
    forall j | 0 <= j < |g|
      ensures ReadsBack(r.resources[j], f, DATA_OFFSET, rs, g[j])
    {
      RefAt(f, m + RefListsStart(rs), rs, k, j);
      RefReads(f, m + ADMIN_SIZE + RefOffset(rs, k) + REF_SIZE * j, DATA_OFFSET, m + NameListOffset(rs), rs, g[j]);
    }
  }

  /** The round trip: following the offsets of the file recovers exactly the inserted records if and
      only if all of them are recoverable. */
  lemma RoundTrip(rs: seq<Record>)
    requires Fits(rs)
    ensures ReadFork(Fork(rs)) == Expected(rs) <==> Recoverable(rs)
  {
    hide Group, Types, Fits, Fork, ReadFork, ReadGroup, ExpectedGroup, Recoverable;
    ReadTypes(rs);
    var f := Fork(rs);
    if Recoverable(rs) {
      forall k | 0 <= k < |Types(rs)|
        ensures ReadFork(f)[k] == Expected(rs)[k]
      {
        SameGroup(rs, k);
      }
    }
    if ReadFork(f) == Expected(rs) {
      OnlyRecoverable(rs);
    }
  }

  /** The reader finds as many types as there are, where they are. */
  lemma ReadTypes(rs: seq<Record>)
    requires Fits(rs)
    ensures |ReadFork(Fork(rs))| == |Types(rs)|
    ensures forall k :: 0 <= k < |Types(rs)| ==>
              ReadFork(Fork(rs))[k] == ReadGroup(rs, k)
  {
    hide Types, Fits, Fork, U16, U32, Concat, ReadType, At, TypeEntries, RefLists, NamePieces;
    ForkRegions(rs);
    MapReads(Fork(rs), MapOffset(rs), rs);
  }

  lemma SameGroup(rs: seq<Record>, k: nat)
    requires Fits(rs) && k < |Types(rs)| && Recoverable(rs)
    ensures ReadGroup(rs, k) == ExpectedGroup(rs, Types(rs)[k])
  {
    hide Group, Types, Fits, ReadGroup, Reached, Fork;
    GroupReads(rs, k);
    var g, e := Group(rs, Types(rs)[k]), ExpectedGroup(rs, Types(rs)[k]);
    var r := ReadGroup(rs, k);
    forall j | 0 <= j < |g|
      ensures r.resources[j] == e.resources[j]
    {
      assert ReadsBack(r.resources[j], Fork(rs), DATA_OFFSET, rs, g[j]);
    }
    assert r.resources == e.resources;
  }

  lemma OnlyRecoverable(rs: seq<Record>)
    requires Fits(rs) && ReadFork(Fork(rs)) == Expected(rs)
    ensures Recoverable(rs)
  {
    hide Group, Types, Fits, Fork, ReadGroup, ReadFork, Reached, NameOff;
    ReadTypes(rs);
    forall i | 0 <= i < |rs|
      ensures Reached(Fork(rs), DATA_OFFSET, rs, i) && (rs[i].name != [] ==> NameOff(rs, i) != 0xFFFF)
    {
      var k := TypeOf(rs, i);
      GroupReads(rs, k);
      GroupIs(rs, Types(rs)[k]);
      var g := Group(rs, Types(rs)[k]);
      var j :| 0 <= j < |g| && g[j] == i;
      var r := ReadFork(Fork(rs))[k];
      assert r == ExpectedGroup(rs, Types(rs)[k]);
      assert ReadsBack(r.resources[j], Fork(rs), DATA_OFFSET, rs, g[j]);
      assert r.resources[j] == Inserted(rs, i);
    }
  }

  /** Every record's type is listed. */
  lemma {:induction false} TypeOf(rs: seq<Record>, i: nat) returns (k: nat)
    requires i < |rs|
    ensures k < |Types(rs)| && Types(rs)[k] == rs[i].rtype
    decreases |rs|
  {
    var n := |rs| - 1;
    if i < n {
      k := TypeOf(rs[..n], i);
    } else {
      var ts := Types(rs[..n]);
      if rs[n].rtype in ts {
        k :| 0 <= k < |ts| && ts[k] == rs[n].rtype;
      } else {
        k := |ts|;
      }
    }
  }

  /** Types are listed once each, in the order in which they are first seen. */
  lemma {:induction false} TypesFirstSeen(rs: seq<Record>, j: nat, k: nat) returns (i: nat)
    requires j < k < |Types(rs)|
    ensures Types(rs)[j] != Types(rs)[k]
    ensures i < |rs| && rs[i].rtype == Types(rs)[j] && forall m :: 0 <= m <= i ==> rs[m].rtype != Types(rs)[k]
    decreases |rs|
  {
    var n := |rs| - 1;
    var ts := Types(rs[..n]);
    if k < |ts| {
      i := TypesFirstSeen(rs[..n], j, k);
    } else {
      TypeUsed(rs[..n], j);
      i :| 0 <= i < n && rs[..n][i].rtype == ts[j];
      forall m | 0 <= m <= i
        ensures rs[m].rtype != Types(rs)[k]
      {
        var t := TypeOf(rs[..n], m);
      }
    }
  }

  // ----- the builder -----

  class Builder {
    var records: seq<Record>

    ghost predicate Valid()
      reads this
    {
      forall i :: 0 <= i < |records| ==> |records[i].rtype| == 4 && records[i].id < 0x1_0000
    }

    constructor ()
      ensures Valid() && records == []
    {
      records := [];
    }

    /** ResourceFork.add */
    method Add(rtype: seq<byte>, rid: int, data: seq<byte>, name: seq<byte>, attrs: int) returns (res: Result<()>)
      requires Valid()
      modifies this
      ensures Valid()
      ensures res.Ok? <==> |rtype| == 4 && -0x8000 <= rid <= 0x7FFF
      ensures records == if res.Ok? then old(records) + [Record(rtype, rid % 0x1_0000, data, name, attrs % 256)] else old(records)
    {
      if |rtype| != 4 {
        return Err(BadType);
      }
      if !(-0x8000 <= rid <= 0x7FFF) {
        return Err(BadId);
      }
      records := records + [Record(rtype, rid % 0x1_0000, data, name, attrs % 256)];
      return Ok(());
    }

    /** The data area: every record's data behind its length. */
    method PackData() returns (ok: bool, blob: seq<byte>, offsets: seq<nat>)
      ensures ok <==> forall i :: 0 <= i < |records| ==> |records[i].data| < 0x1_0000_0000
      ensures ok ==> blob == Concat(DataPieces(records)) && |offsets| == |records|
      ensures ok ==> forall i :: 0 <= i < |records| ==> offsets[i] == DataOff(records, i)
    {
      hide Pack32, Offset;
      ok, blob, offsets := true, [], [];
      ghost var pieces := DataPieces(records);
      assert pieces[..0] == [];
      for i := 0 to |records|
        invariant ok ==> forall j :: 0 <= j < i ==> |records[j].data| < 0x1_0000_0000
        invariant ok ==> blob == Concat(pieces[..i]) && |offsets| == i
        invariant ok ==> forall j :: 0 <= j < i ==> offsets[j] == DataOff(records, j)
      {
        var r := records[i];
        if |r.data| >= 0x1_0000_0000 {
          return false, blob, offsets;
        }
        ConcatLength(pieces, i);
        ConcatSnoc(pieces, i);
        offsets := offsets + [|blob|];
        blob := blob + (Pack32(|r.data|) + r.data);
      }
      assert pieces[..|records|] == pieces;
    }

    /** The name list: every non-empty name behind its length. */
    method PackNames() returns (ok: bool, blob: seq<byte>, offsets: seq<nat>)
      ensures ok <==> forall i :: 0 <= i < |records| ==> |records[i].name| <= 255
      ensures ok ==> blob == Concat(NamePieces(records)) && |offsets| == |records|
      ensures ok ==> forall i :: 0 <= i < |records| ==> offsets[i] == NameOff(records, i)
    {
      hide Offset;
      ok, blob, offsets := true, [], [];
      ghost var pieces := NamePieces(records);
      assert pieces[..0] == [];
      for i := 0 to |records|
        invariant ok ==> forall j :: 0 <= j < i ==> |records[j].name| <= 255
        invariant ok ==> blob == Concat(pieces[..i]) && |offsets| == i
        invariant ok ==> forall j :: 0 <= j < i ==> offsets[j] == NameOff(records, j)
      {
        var r := records[i];
        ConcatLength(pieces, i);
        ConcatSnoc(pieces, i);
        if r.name != [] {
          offsets := offsets + [|blob|];
          if |r.name| > 255 {
            return false, blob, offsets;
          }
          blob := blob + ([|r.name|] + r.name);
        } else {
          offsets := offsets + [0xFFFF];
        }
      }
      assert pieces[..|records|] == pieces;
    }

    /** Collect the records of each type, keeping first-seen order. */
    method CollectByType() returns (order: seq<seq<byte>>, groups: map<seq<byte>, seq<nat>>)
      ensures order == Types(records)
      ensures forall t :: t in groups <==> t in order
      ensures forall t :: t in groups ==> groups[t] == OfType(records, t)
    {
      order, groups := [], map[];
      for i := 0 to |records|
        invariant order == Types(records[..i])
        invariant forall t :: t in groups <==> t in order
        invariant forall t :: t in groups ==> groups[t] == OfType(records[..i], t)
      {
        hide Below, Increasing;
        var t := records[i].rtype;
        assert records[..i + 1][..i] == records[..i];
        if t !in groups {
          NotSeen(records[..i], t);
          groups := groups[t := []];
          order := order + [t];
        }
        groups := groups[t := groups[t] + [i]];
      }
      assert records[..|records|] == records;
    }

    /** Group records by type, keeping first-seen order, and sort every group by identifier. */
    method GroupByType() returns (order: seq<seq<byte>>, groups: map<seq<byte>, seq<nat>>)
      ensures order == Types(records)
      ensures forall k :: 0 <= k < |order| ==> order[k] in groups && groups[order[k]] == Group(records, order[k])
    {
      hide Types, OfType, SortById;
      order, groups := CollectByType();
      for k := 0 to |order|
        invariant forall j :: 0 <= j < |order| ==>
                    order[j] in groups && groups[order[j]] == if j < k then Group(records, order[j]) else OfType(records, order[j])
      {
        forall j | 0 <= j < |order| && j != k ensures order[j] != order[k] {
          if j < k { var i := TypesFirstSeen(records, j, k); } else { var i := TypesFirstSeen(records, k, j); }
        }
        groups := groups[order[k] := SortById(records, groups[order[k]])];
      }
    }

    /** Walk the types to place their reference lists; the name list comes behind the last. */
    method PlaceRefLists(order: seq<seq<byte>>, groups: map<seq<byte>, seq<nat>>) returns (offsets: seq<nat>, end: nat)
      requires order == Types(records)
      requires forall k :: 0 <= k < |order| ==> order[k] in groups && groups[order[k]] == Group(records, order[k])
      ensures |offsets| == |order| && forall k :: 0 <= k < |order| ==> offsets[k] == RefOffset(records, k)
      ensures end == NameListOffset(records)
    {
      hide Types, Group;
      offsets, end := [], ADMIN_SIZE + 2 + TYPE_SIZE * |order|;
      for k := 0 to |order|
        invariant end == ADMIN_SIZE + RefOffset(records, k)
        invariant |offsets| == k && forall j :: 0 <= j < k ==> offsets[j] == RefOffset(records, j)
      {
        offsets := offsets + [end - ADMIN_SIZE];
        end := end + REF_SIZE * |groups[order[k]]|;
      }
    }

    method PackTypeList(order: seq<seq<byte>>, groups: map<seq<byte>, seq<nat>>, offsets: seq<nat>) returns (blob: seq<byte>)
      requires Fits(records) && order == Types(records)
      requires forall k :: 0 <= k < |order| ==> order[k] in groups && groups[order[k]] == Group(records, order[k])
      requires |offsets| == |order| && forall k :: 0 <= k < |order| ==> offsets[k] == RefOffset(records, k)
      ensures blob == TypeList(records)
    {
      hide Types, Group, Pack16, RefOffset, Fits;
      ghost var pieces := TypeEntries(records);
      assert pieces[..0] == [];
      FitsBasics(records);
      GroupSize(records, 0);
      blob := Pack16(|order| - 1);
      for k := 0 to |order|
        invariant blob == Pack16(|order| - 1) + Concat(pieces[..k])
      {
        GroupSize(records, k);
        ConcatSnoc(pieces, k);
        blob := blob + (order[k] + Pack16(|groups[order[k]]| - 1) + Pack16(offsets[k]));
      }
      assert pieces[..|order|] == pieces;
    }

    method PackRefs(order: seq<seq<byte>>, groups: map<seq<byte>, seq<nat>>, nameOffs: seq<nat>, dataOffs: seq<nat>)
      returns (blob: seq<byte>)
      requires Fits(records) && order == Types(records)
      requires forall k :: 0 <= k < |order| ==> order[k] in groups && groups[order[k]] == Group(records, order[k])
      requires |nameOffs| == |dataOffs| == |records|
      requires forall i :: 0 <= i < |records| ==> nameOffs[i] == NameOff(records, i) && dataOffs[i] == DataOff(records, i)
      ensures blob == Concat(RefLists(records))
    {
      hide Types, Group, Pack16, Pack32, NameOff, DataOff, Fits;
      ghost var lists := RefLists(records);
      assert lists[..0] == [];
      blob := [];
      for k := 0 to |order|
        invariant blob == Concat(lists[..k])
      {
        ConcatSnoc(lists, k);
        var list := PackGroup(groups[order[k]], nameOffs, dataOffs);
        blob := blob + list;
      }
      assert lists[..|order|] == lists;
    }

    method PackGroup(g: seq<nat>, nameOffs: seq<nat>, dataOffs: seq<nat>) returns (blob: seq<byte>)
      requires Fits(records) && Below(g, |records|)
      requires |nameOffs| == |dataOffs| == |records|
      requires forall i :: 0 <= i < |records| ==> nameOffs[i] == NameOff(records, i) && dataOffs[i] == DataOff(records, i)
      ensures blob == Concat(RefEntries(records, g))
    {
      hide Pack16, Pack32, NameOff, DataOff;
      ghost var entries := RefEntries(records, g);
      assert entries[..0] == [];
      blob := [];
      for j := 0 to |g|
        invariant blob == Concat(entries[..j])
      {
        var r := records[g[j]];
        ConcatSnoc(entries, j);
        blob := blob + (Pack16(r.id) + Pack16(nameOffs[g[j]]) + [r.attrs] + Pack32(dataOffs[g[j]])[1..] + Pack32(0));
      }
      assert entries[..|g|] == entries;
    }

    /** ResourceFork.build: the whole file, or an error exactly when something does not fit its field. */
    method Build() returns (res: Result<seq<byte>>)
      requires Valid()
      ensures res.Ok? <==> Fits(records)
      ensures res.Ok? ==> res.value == Fork(records)
      ensures res.Err? ==> res.error == PackRange || (res.error == NameTooLong && exists i :: 0 <= i < |records| && |records[i].name| > 255)
    {
      hide Types, Group, Pack16, Pack32, NameOff, DataOff, Concat, NameListOffset, RefOffset, ResourceMap;
      var ok, dataBlob, dataOffs := PackData();
      if !ok {
        return Err(PackRange);
      }
      var order, groups := GroupByType();
      var nameBlob, nameOffs;
      ok, nameBlob, nameOffs := PackNames();
      if !ok {
        return Err(NameTooLong);
      }
      var refOffs, nameListOffset := PlaceRefLists(order, groups);
      // The ranges of the packed fields.
      if records == [] || nameListOffset >= 0x1_0000
         || (exists i :: 0 <= i < |nameOffs| && nameOffs[i] >= 0x1_0000) || (exists i :: 0 <= i < |dataOffs| && dataOffs[i] >= 0x1_0000_0000)
         || DATA_OFFSET + |dataBlob| >= 0x1_0000_0000 || nameListOffset + |nameBlob| >= 0x1_0000_0000 {
        return Err(PackRange);
      }
      assert Fits(records);
      var typeList := PackTypeList(order, groups, refOffs);
      var refLists := PackRefs(order, groups, nameOffs, dataOffs);
      res := Assemble(dataBlob, typeList, refLists, nameBlob, nameListOffset);
    }

    /** Put header, data area and map together. */
    method Assemble(dataBlob: seq<byte>, typeList: seq<byte>, refLists: seq<byte>, nameBlob: seq<byte>, nameListOffset: nat)
      returns (res: Result<seq<byte>>)
      requires Fits(records) && dataBlob == Concat(DataPieces(records)) && nameBlob == Concat(NamePieces(records))
      requires typeList == TypeList(records) && refLists == Concat(RefLists(records)) && nameListOffset == NameListOffset(records)
      ensures res == Ok(Fork(records))
    {
      hide Types, Pack16, Pack32, Concat, NameListOffset, TypeList;
      TypeListLength(records);
      var mapAdmin := Zeros(16) + Pack32(0) + Pack16(0) + Pack16(0) + Pack16(ADMIN_SIZE) + Pack16(nameListOffset);
      var rmap := mapAdmin + typeList + refLists + nameBlob;
      var header := Pack32(DATA_OFFSET) + Pack32(DATA_OFFSET + |dataBlob|) + Pack32(|dataBlob|) + Pack32(|rmap|);
      res := Ok(header + Zeros(DATA_OFFSET - 16) + dataBlob + rmap);
    }
  }

  lemma {:induction false} NotSeen(rs: seq<Record>, t: seq<byte>)
    requires t !in Types(rs)
    ensures OfType(rs, t) == []
  {
    OfTypeIs(rs, t);
    if OfType(rs, t) == [] {
    } else {
      var i := OfType(rs, t)[0];
      assert i in OfType(rs, t);
      var k := TypeOf(rs, i);
    }
  }

  /** A file with a single type. */
  lemma {:induction false} OneType(rs: seq<Record>, t: seq<byte>)
    requires rs != [] && forall i :: 0 <= i < |rs| ==> rs[i].rtype == t
    ensures Types(rs) == [t]
  {
    if |rs| == 1 {
    } else {
      OneType(rs[..|rs| - 1], t);
    }
  }

  lemma {:induction false} OfTypeBound(rs: seq<Record>, t: seq<byte>)
    ensures |OfType(rs, t)| <= |rs|
  {
    if rs == [] {
    } else {
      OfTypeBound(rs[..|rs| - 1], t);
    }
  }

  lemma OneTypeOffset(rs: seq<Record>, t: seq<byte>)
    requires rs != [] && forall i :: 0 <= i < |rs| ==> rs[i].rtype == t
    ensures NameListOffset(rs) <= 38 + REF_SIZE * |rs|
  {
    OneType(rs, t);
    GroupIs(rs, t);
    OfTypeBound(rs, t);
    assert |multiset(Group(rs, t))| == |multiset(OfType(rs, t))|;
    hide Group;
    assert RefsBefore(rs, 1) == |Group(rs, t)| + RefsBefore(rs, 0);
  }

  /** Two resources, the first of 16 MiB: the second, which is empty, is recovered only if the first begins
      with what looks like an empty resource. */
  lemma DataTooFar(first: seq<byte>) returns (rs: seq<Record>)
    requires |first| == 0x100_0000
    ensures Fits(rs) && (ReadFork(Fork(rs)) == Expected(rs) <==> first[..4] == [0, 0, 0, 0])
  {
    hide Fits, Fork, ReadFork, Expected, DataOff, NameOff, Concat, DataPieces, Reached, At, U32, ResourceMap, MapOffset;
    rs := FarData(first);
    RoundTrip(rs);
    var f := Fork(rs);
    ForkRegions(rs);
    assert Reached(f, DATA_OFFSET, rs, 0) by { SmallOffset(f, DATA_OFFSET, rs, 0); }
    FarReached(f, rs, first);
  }

  lemma SmallOffset(f: seq<byte>, dataStart: nat, rs: seq<Record>, i: nat)
    requires i < |rs| && DataOff(rs, i) < 0x100_0000
    ensures Reached(f, dataStart, rs, i)
  {
  }

  lemma FarReached(f: seq<byte>, rs: seq<Record>, first: seq<byte>)
    requires |rs| == 2 && |first| == 0x100_0000 && rs[0].data == first && rs[1].data == [] && DataOff(rs, 1) == 0x100_0004
    requires At(f, DATA_OFFSET, Concat(DataPieces(rs)))
    ensures Reached(f, DATA_OFFSET, rs, 1) <==> first[..4] == [0, 0, 0, 0]
  {
    hide Concat;
    PieceAt(f, DATA_OFFSET, DataPieces(rs), 0);
    AtParts(f, DATA_OFFSET, Pack32(0x100_0000), first);
    assert f[DATA_OFFSET + 4..DATA_OFFSET + 8] == first[..4];
    assert DataPiece(rs[1]) == [0, 0, 0, 0];
  }

  lemma FarData(first: seq<byte>) returns (rs: seq<Record>)
    requires |first| == 0x100_0000
    ensures Fits(rs) && |rs| == 2 && rs[0].data == first && rs[1].data == [] && rs[0].name == rs[1].name == []
    ensures DataOff(rs, 0) == 0 && DataOff(rs, 1) == 0x100_0004
  {
    hide NameListOffset, Pack32;
    var t: seq<byte> := [1, 1, 1, 1];
    rs := [Record(t, 1, first, [], 0), Record(t, 2, [], [], 0)];
    OneTypeOffset(rs, t);
    var d, n := DataPieces(rs), NamePieces(rs);
    assert |d[0]| == 0x100_0004 && |d[1]| == 4 && n[0] == n[1] == [];
    assert DataOff(rs, 0) == 0;
    assert DataOff(rs, 1) == 0x100_0004 by { assert Offset(d, 1) == Offset(d, 0) + |d[0]|; }
    assert |Concat(d)| == 0x100_0008 by {
      ConcatLength(d, 2);
      assert d[..2] == d;
      assert Offset(d, 2) == Offset(d, 1) + |d[1]|;
    }
    assert |Concat(n)| == 0 by {
      ConcatLength(n, 2);
      assert n[..2] == n;
      OffsetOfEqual(n, 0, 2);
    }
  }

  /** A name whose offset is the mark for no name is lost. */
  lemma NameAtMark(long: seq<byte>) returns (rs: seq<Record>)
    requires |long| == 255
    ensures Fits(rs) && ReadFork(Fork(rs)) != Expected(rs)
  {
    hide Fits, Fork, ReadFork, Expected, NameOff, Reached;
    rs := FullNames(long);
    RoundTrip(rs);
  }

  /** Names that fill 65535 bytes, and one more. */
  lemma FullNames(long: seq<byte>) returns (rs: seq<Record>)
    requires |long| == 255
    ensures Fits(rs) && |rs| == 257 && rs[256].name != [] && NameOff(rs, 256) == 0xFFFF
  {
    hide NameListOffset, Pack32, Offset;
    var t: seq<byte> := [1, 1, 1, 1];
    rs := seq(257, i => Record(t, 0, [], if i < 255 then long else if i == 255 then long[1..] else [1], 0));
    OneTypeOffset(rs, t);
    var d, n := DataPieces(rs), NamePieces(rs);
    assert forall i :: 0 <= i < 257 ==> |d[i]| == 4 && |n[i]| == if i < 255 then 256 else if i == 255 then 255 else 2;
    forall i | 0 <= i < 257 ensures Packable(rs[i]) && DataOff(rs, i) == 4 * i && NameOff(rs, i) <= 0xFFFF && (i == 256 ==> NameOff(rs, i) == 0xFFFF) {
      OffsetOfEqual(d, 4, i);
      NamesFill(n, i);
    }
    assert |Concat(d)| == 4 * 257 by {
      ConcatLength(d, 257);
      assert d[..257] == d;
      OffsetOfEqual(d, 4, 257);
    }
    assert |Concat(n)| == 0x1_0001 by {
      ConcatLength(n, 257);
      assert n[..257] == n;
      NamesFill(n, 257);
    }
  }

  lemma NamesFill(n: seq<seq<byte>>, i: nat)
    requires |n| == 257 && forall k :: 0 <= k < 257 ==> |n[k]| == if k < 255 then 256 else if k == 255 then 255 else 2
    requires i <= 257
    ensures i <= 255 ==> Offset(n, i) == 256 * i
    ensures i == 256 ==> Offset(n, i) == 0xFFFF
    ensures i == 257 ==> Offset(n, i) == 0x1_0001
  {
  }
}
