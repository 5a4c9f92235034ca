/** The resumable table decoder of lzw.c. */
module LzwDecoder {
  import opened BitString
  import opened LzwReader
  import opened LzwSpec

  type Colour = x: int | 0 <= x < 0x1_0000_0000

  datatype ColourMap = NoMap | ColourMap(colours: seq<Colour>)

  /** How values become pixels: a full colour table and the index left transparent, if at most 255. */
  datatype Ink = Ink(colours: seq<Colour>, transparencyIndex: nat) {
    ghost function Paint(pixel: Colour, value: byte): Colour
      requires |colours| == 256
    {
      if value == transparencyIndex then pixel else colours[value]
    }

    /** A run of values painted over consecutive pixels. */
    ghost function PaintRun(pixels: seq<Colour>, pos: nat, run: seq<byte>): (r: seq<Colour>)
      requires |colours| == 256 && pos + |run| <= |pixels|
      ensures |r| == |pixels|
    {
      seq(|pixels|, k requires 0 <= k < |pixels| =>
        if pos <= k < pos + |run| then Paint(pixels[k], run[k - pos]) else pixels[k])
    }

    lemma PaintNothing(pixels: seq<Colour>, pos: nat)
      requires |colours| == 256 && pos <= |pixels|
      ensures PaintRun(pixels, pos, []) == pixels
    {
    }

    lemma PaintRunTwice(pixels: seq<Colour>, pos: nat, a: seq<byte>, b: seq<byte>)
      requires |colours| == 256 && pos + |a| + |b| <= |pixels|
      ensures PaintRun(PaintRun(pixels, pos, a), pos + |a|, b) == PaintRun(pixels, pos, a + b)
    {
    }
  }

  /** A table entry: the last value of a record, linked to the record it extends. */
  datatype Entry = Entry(value: byte, first: byte, count: nat, base: nat)

  predicate Live(clear: nat, size: nat, code: nat) {
    code < size && code != clear && code != clear + 1
  }

  ghost predicate EntryOk(t: seq<Entry>, clear: nat, c: nat)
    requires c < |t|
  {
    if c < clear then Standard(t[c], c)
    else if c < clear + 2 then true
    else
      && t[c].base < c && Live(clear, c, t[c].base)
      && t[c].count == t[t[c].base].count + 1
      && t[c].first == t[t[c].base].first
  }

  /** The table invariant: single values first, then entries that each extend a smaller live one. */
  ghost predicate TableOk(t: seq<Entry>, clear: nat, size: nat) {
    && clear + 2 <= size <= |t| == TABLE_ENTRY_MAX
    && forall c :: 0 <= c < size ==> EntryOk(t, clear, c)
  }

  predicate Standard(e: Entry, c: nat) {
    e.value == e.first == c % 256 && e.count == 1
  }

  lemma InitialOk(t: seq<Entry>, minimumCodeSize: nat)
    requires |t| == TABLE_ENTRY_MAX && minimumCodeSize < CODE_MAX
    requires forall c :: 0 <= c < Pow2(minimumCodeSize) && c < |t| ==> Standard(t[c], c)
    ensures Dict(minimumCodeSize, minimumCodeSize + 1, Pow2(minimumCodeSize) + 2, t).Ok()
  {
    Pow2Monotone(minimumCodeSize, 11);
    Pow2Of12();
    if minimumCodeSize >= 2 { Pow2Monotone(2, minimumCodeSize); }
  }

  /** The record ending at an entry. */
  ghost function Record(t: seq<Entry>, clear: nat, code: nat): (r: seq<byte>)
    requires code < |t|
    ensures r != []
    decreases code
  {
    if code < clear || t[code].base >= code then [t[code].value]
    else Record(t, clear, t[code].base) + [t[code].value]
  }

  lemma {:induction false} RecordShape(t: seq<Entry>, clear: nat, size: nat, code: nat)
    requires TableOk(t, clear, size) && Live(clear, size, code)
    ensures |Record(t, clear, code)| == t[code].count <= code + 1
    ensures Record(t, clear, code)[0] == t[code].first
    ensures t[code].count == 1 <==> code < clear
    ensures code >= clear ==> t[code].base < code && Record(t, clear, code) == Record(t, clear, t[code].base) + [t[code].value]
    decreases code
  {
    assert EntryOk(t, clear, code);
    if code < clear {
    } else {
      RecordShape(t, clear, size, t[code].base);
    }
  }

  /** Records below size do not depend on entries from size on. */
  lemma {:induction false} RecordStable(t: seq<Entry>, u: seq<Entry>, clear: nat, size: nat, code: nat)
    requires |t| == |u| && TableOk(t, clear, size) && Live(clear, size, code)
    requires forall c :: 0 <= c < size ==> u[c] == t[c]
    ensures Record(u, clear, code) == Record(t, clear, code)
    decreases code
  {
    assert EntryOk(t, clear, code);
    if code < clear {
    } else {
      RecordStable(t, u, clear, size, t[code].base);
    }
  }

  /** The string table that the linked entries stand for. */
  ghost function Strings(t: seq<Entry>, clear: nat, size: nat): (r: seq<seq<byte>>)
    requires size <= |t|
    ensures |r| == size
  {
    seq(size, c requires 0 <= c < size => if Live(clear, size, c) then Record(t, clear, c) else [])
  }

  lemma StringsInitial(t: seq<Entry>, minimumCodeSize: nat)
    requires TableOk(t, Pow2(minimumCodeSize), Pow2(minimumCodeSize) + 2)
    ensures Strings(t, Pow2(minimumCodeSize), Pow2(minimumCodeSize) + 2) == InitialTable(minimumCodeSize)
  {
    forall c | 0 <= c < Pow2(minimumCodeSize)
      ensures Record(t, Pow2(minimumCodeSize), c) == [c % 256]
    {
      assert EntryOk(t, Pow2(minimumCodeSize), c);
    }
  }

  /** lzw__table_add_entry appends one string: the previous record and one more value. */
  lemma StringsAdd(t: seq<Entry>, clear: nat, size: nat, prev: nat, v: byte)
    requires TableOk(t, clear, size) && size < TABLE_ENTRY_MAX && Live(clear, size, prev)
    ensures var u := t[size := Entry(v, t[prev].first, t[prev].count + 1, prev)];
            && TableOk(u, clear, size + 1)
            && Strings(u, clear, size + 1) == Strings(t, clear, size) + [Record(t, clear, prev) + [v]]
  {
    var u := t[size := Entry(v, t[prev].first, t[prev].count + 1, prev)];
    forall c | 0 <= c < size && Live(clear, size, c)
      ensures Record(u, clear, c) == Record(t, clear, c)
    {
      RecordStable(t, u, clear, size, c);
    }
    forall c | 0 <= c < size + 1
      ensures EntryOk(u, clear, c)
    {
      if c < size { assert EntryOk(t, clear, c); }
    }
  }

  /** The table-building half of the context, as a value. */
  datatype Dict = Dict(minimum: nat, width: nat, size: nat, entries: seq<Entry>) {
    ghost function Clear(): nat { Pow2(minimum) }

    ghost predicate Has(code: nat) {
      Live(Clear(), size, code)
    }

    ghost predicate Ok() {
      && minimum < width <= CODE_MAX
      && TableOk(entries, Clear(), size)
      && WidthOk()
    }

    /** Codes are always just wide enough for the table, up to the maximum. */
    ghost predicate WidthOk()
      requires minimum < width
    {
      minimum >= 2 ==> Pow2(width - 1) <= size && (size < Pow2(width) || width == CODE_MAX)
    }

    ghost function RecordOf(code: nat): (r: seq<byte>)
      requires Ok() && Has(code)
      ensures r != []
    {
      Record(entries, Clear(), code)
    }

    /** What the textbook decoder writes, the previous code being prev. */
    ghost function Textbook(bits: seq<bool>, end: LzwResult, prev: nat): Output
      requires Ok() && Has(prev)
    {
      Running(minimum, bits, end, width, Strings(entries, Clear(), size), RecordOf(prev))
    }

    /** The table as lzw__handle_clear leaves it. */
    ghost function Cleared(): Dict {
      this.(width := minimum + 1, size := Clear() + 2)
    }

    /** The table as lzw__decode leaves it when the new code follows prev. */
    ghost function Added(prev: nat, code: nat): Dict
      requires Ok() && Has(prev) && code <= size && (code < size ==> Has(code))
    {
      if size >= TABLE_ENTRY_MAX then this
      else
        var v := if code < size then entries[code].first else entries[prev].first;
        this.(width := Widen(width, size + 1), size := size + 1,
        entries := entries[size := Entry(v, entries[prev].first, entries[prev].count + 1, prev)])
    }

    /** Walking back from code has reached c, the entry ending its first n values. */
    ghost predicate Walked(code: nat, n: nat, c: nat)
      requires Ok() && Has(code)
    {
      0 < n <= |RecordOf(code)| && Has(c) && RecordOf(c) == RecordOf(code)[..n]
    }

    /** Every backward walk stays in live entries and meets the values in reverse. */
    lemma WalkStep(code: nat, n: nat, c: nat)
      requires Ok() && Has(code) && Walked(code, n, c)
      ensures c < |entries| && 0 < n <= |RecordOf(code)| && entries[c].value == RecordOf(code)[n - 1]
      ensures n > 1 ==> Walked(code, n - 1, entries[c].base)
    {
      RecordShape(entries, Clear(), size, c);
      assert EntryOk(entries, Clear(), c);
      var r := RecordOf(c);
      assert r[n - 1] == entries[c].value;
      if n > 1 {
        assert RecordOf(entries[c].base) == r[..n - 1];
        assert r[..n - 1] == RecordOf(code)[..n - 1];
      }
    }

    /** For minimum code sizes from 2 on, the code width is the bit length of the table size, up to 12. */
    lemma WidthIsBitLength()
      requires Ok() && minimum >= 2
      ensures width == Min(CODE_MAX, BitLength(size))
    {
      Pow2Of12();
      if size < Pow2(width) {
        BitLengthIs(size, width);
      } else {
        assert size == TABLE_ENTRY_MAX;
        BitLengthIs(size, 13);
      }
    }

    /** Every record fits the table. */
    lemma CountIs(code: nat)
      requires Ok() && Has(code)
      ensures code < |entries| && entries[code].count == |RecordOf(code)| <= TABLE_ENTRY_MAX
    {
      RecordShape(entries, Clear(), size, code);
    }

    lemma SingleRecord(code: nat)
      requires Ok() && code < Clear()
      ensures Has(code) && |RecordOf(code)| == 1
    {
    }

    lemma ClearedOk(bits: seq<bool>, end: LzwResult, code: nat)
      requires Ok() && code < Clear()
      ensures Cleared().Ok() && Cleared().Has(code)
      ensures Cleared().RecordOf(code) == [code % 256]
      ensures Cleared().Textbook(bits, end, code)
              == Running(minimum, bits, end, minimum + 1, InitialTable(minimum), [code % 256])
    {
      hide EntryOk, Running, Pow2;
      ClearedIsOk(code);
      StringsInitial(entries, minimum);
      assert Strings(entries, Clear(), Clear() + 2)[code] == [code % 256];
    }

    lemma ClearedIsOk(code: nat)
      requires Ok() && code < Clear()
      ensures Cleared().Ok() && Cleared().Has(code)
    {
      hide EntryOk;
      if minimum >= 2 { Pow2Monotone(2, minimum); }
    }

    /** Adding an entry appends one string and keeps the table and the code width right. */
    lemma AddedStrings(prev: nat, code: nat)
      requires Ok() && Has(prev) && code <= size && (code < size ==> Has(code))
      ensures var strings, p := Strings(entries, Clear(), size), RecordOf(prev);
              var s := StringFor(strings, p, code);
              var d := Added(prev, code);
              && s != []
              && TableOk(d.entries, Clear(), d.size)
              && Strings(d.entries, Clear(), d.size) == Extend(strings, p + [s[0]])
    {
      hide EntryOk, Record;
      RecordShape(entries, Clear(), size, prev);
      if code < size { RecordShape(entries, Clear(), size, code); }
      if size < TABLE_ENTRY_MAX {
        StringsAdd(entries, Clear(), size, prev, if code < size then entries[code].first else entries[prev].first);
      }
    }

    lemma AddedWidth(prev: nat, code: nat)
      requires Ok() && Has(prev) && code <= size && (code < size ==> Has(code))
      ensures var d := Added(prev, code);
              && minimum < d.width <= CODE_MAX && d.WidthOk()
              && d.width == Widen(width, d.size)
    {
      Pow2Monotone(minimum + 1, width);
      Pow2Of12();
    }

    /** The textbook decoder on the end of data and on the special codes. */
    lemma Special(bits: seq<bool>, end: LzwResult, prev: nat)
      requires Ok() && Has(prev)
      ensures |bits| <= width ==> Textbook(bits, end, prev) == Output([], end)
      ensures |bits| > width ==>
                var code := Value(bits[..width]);
                && (code == Clear() + 1 ==> Textbook(bits, end, prev) == Output([], EoiCode))
                && (code > size ==> Textbook(bits, end, prev) == Output([], BadCode))
                && (code == Clear() ==> Textbook(bits, end, prev) == Fresh(minimum, bits[width..], end))
    {
    }

    /** One ordinary code of lzw__decode is one ordinary code of the textbook decoder. */
    lemma AddedOk(bits: seq<bool>, end: LzwResult, prev: nat, code: nat)
      requires Ok() && Has(prev) && width < |bits| && code == Value(bits[..width])
      requires code <= size && code != Clear() && code != Clear() + 1
      ensures var d := Added(prev, code);
              d.Ok() && d.Has(code) && Textbook(bits, end, prev) == Emit(d.RecordOf(code), d.Textbook(bits[width..], end, code))
    {
      assert code < TABLE_ENTRY_MAX by {
        ValueBound(bits[..width]);
        Pow2Monotone(width, 12);
        Pow2Of12();
      }
      AddedStrings(prev, code);
      AddedWidth(prev, code);
      var d := Added(prev, code);
      assert d.Ok() && d.Has(code);
      assert d.RecordOf(code) == Strings(d.entries, Clear(), d.size)[code];
    }
  }

  class LzwContext {
    const input: ReadContext

    var prevCode: nat          // code read previously
    var prevCodeFirst: byte    // its first value
    var prevCodeCount: nat     // its number of values

    var initialCodeSize: nat
    var codeSize: nat
    var codeMax: nat           // largest code of the current size
    var clearCode: nat
    var eoiCode: nat
    var tableSize: nat         // next table position to fill

    var outputCode: nat        // code that has been partly written
    var outputLeft: nat        // values of it still to write

    var hasTransparency: bool
    var transparencyIdx: byte
    var colourMap: ColourMap

    const table: array<Entry>
    const stackBase: array<byte>

    constructor ()
      ensures Allocated() && fresh(input) && fresh(table) && fresh(stackBase)
    {
      input := new ReadContext();
      prevCode, prevCodeFirst, prevCodeCount := 0, 0, 0;
      initialCodeSize, codeSize, codeMax := 1, 1, 1;
      clearCode, eoiCode, tableSize := 1, 2, 3;
      outputCode, outputLeft := 0, 0;
      hasTransparency, transparencyIdx, colourMap := false, 0, NoMap;
      var t := new Entry[TABLE_ENTRY_MAX](_ => Entry(0, 0, 0, 0));
      var s := new byte[TABLE_ENTRY_MAX](_ => 0);
      table, stackBase := t, s;
    }

    ghost predicate Allocated()
      reads input
    {
      table.Length == stackBase.Length == TABLE_ENTRY_MAX && input.Valid()
    }

    ghost function Table(): Dict
      reads this, table
      requires initialCodeSize > 0
    {
      Dict(initialCodeSize - 1, codeSize, tableSize, table[..])
    }

    /** The constants of a decode and its table. */
    ghost predicate Valid()
      reads this, input, table
    {
      && Allocated()
      && 0 < initialCodeSize <= CODE_MAX
      && clearCode == Pow2(initialCodeSize - 1)
      && eoiCode == clearCode + 1
      && codeMax == Pow2(codeSize) - 1
      && Table().Ok()
    }

    /** The previous code and any partly written code are live. */
    ghost predicate Decoding()
      reads this, input, table
    {
      && Valid() && LiveNow()
      && (outputLeft > 0 ==> Table().Has(outputCode) && outputLeft <= |Table().RecordOf(outputCode)|)
    }

    ghost predicate LiveNow()
      reads this, input, table
      requires Valid()
    {
      Table().Has(prevCode) && prevCodeFirst == table[prevCode].first && prevCodeCount == table[prevCode].count
    }

    /** What the textbook decoder writes from here, the previous code being prev. */
    ghost function Textbook(prev: nat): Output
      reads this, input, table
      requires Valid() && Table().Has(prev)
    {
      Table().Textbook(input.Remaining(), input.End(), prev)
    }

    /** The values of the partly written code that are still to come. */
    ghost function Pending(): seq<byte>
      reads this, input, table
      requires Decoding()
    {
      if outputLeft == 0 then [] else Last(Table().RecordOf(outputCode), outputLeft)
    }

    /** Everything later calls will write. */
    ghost function Future(): Output
      reads this, input, table
      requires Decoding()
    {
      Emit(Pending(), Textbook(prevCode))
    }

    /** lzw__handle_clear */
    method HandleClear() returns (res: LzwResult, code: nat)
      requires Valid()
      modifies this`codeSize, this`codeMax, this`tableSize, input
      ensures Valid() && Table() == old(Table()).Cleared()
      ensures var f := Fresh(initialCodeSize - 1, old(input.Remaining()), old(input.End()));
              if res == Ok then code < clearCode && Table().Has(code) && f == Emit(Table().RecordOf(code), Textbook(code))
              else f == Output([], res)
    {
      hide Running, Fresh, TableOk, Strings, Record, Flatten, Bits;
      ghost var before := Table();
      codeSize := initialCodeSize;
      codeMax := Pow2(initialCodeSize) - 1;
      tableSize := eoiCode + 1;
      assert Table() == before.Cleared();
      res, code := ReadFirst();
      before.ClearedOk(input.Remaining(), input.End(), if res == Ok then code else 0);
      assert Table() == before.Cleared();
    }

    /** lzw__table_add_entry */
    method TableAddEntry(value: byte)
      requires Decoding() && tableSize < TABLE_ENTRY_MAX
      modifies this`tableSize, table
      ensures tableSize == old(tableSize) + 1
      ensures table[..] == old(table[..])[old(tableSize) := Entry(value, prevCodeFirst, prevCodeCount + 1, prevCode)]
    {
      table[tableSize] := Entry(value, prevCodeFirst, prevCodeCount + 1, prevCode);
      tableSize := tableSize + 1;
    }

    /** The table update of lzw__decode for an ordinary code. */
    method AddCode(code: nat)
      requires Decoding() && code <= tableSize && (code < tableSize ==> Table().Has(code))
      modifies this`codeSize, this`codeMax, this`tableSize, table
      ensures Table() == old(Table()).Added(prevCode, code)
      ensures codeMax == Pow2(codeSize) - 1
    {
      if tableSize < TABLE_ENTRY_MAX {
        var size := tableSize;
        TableAddEntry(if code < size then table[code].first else prevCodeFirst);
        // Ensure code size is increased, if needed.
        if size == codeMax && codeSize < CODE_MAX {
          codeSize := codeSize + 1;
          codeMax := Pow2(codeSize) - 1;
        }
      }
    }

    /** lzw__decode up to the write: the next code to write, with the table brought up to date. */
    method NextCode() returns (res: LzwResult, code: nat)
      requires Decoding()
      modifies this`codeSize, this`codeMax, this`tableSize, input, table
      ensures Valid()
      ensures if res == Ok
              then Table().Has(code) && old(Textbook(prevCode)) == Emit(Table().RecordOf(code), Textbook(code))
              else old(Textbook(prevCode)) == Output([], res)
    {
      hide Running, Fresh, TableOk, Strings, Record, Flatten, Bits;
      ghost var before, bits, end := Table(), input.Remaining(), input.End();
      res, code := input.ReadCode(codeSize);
      assert Table() == before && Valid();
      before.Special(bits, end, prevCode);
      if res != Ok {
        return res, 0;
      }
      if code == eoiCode {
        return EoiCode, 0;
      } else if code > tableSize {
        return BadCode, 0;
      } else if code == clearCode {
        res, code := HandleClear();
      } else {
        before.AddedOk(bits, end, prevCode, code);
        AddCode(code);
        assert Table() == before.Added(prevCode, code);
        assert Valid();
      }
    }

    /** The loop of lzw__handle_clear: the first code after a run of clear codes. */
    method ReadFirst() returns (res: LzwResult, code: nat)
      requires input.Valid() && 0 < codeSize == initialCodeSize <= CODE_MAX && clearCode == Pow2(initialCodeSize - 1)
      modifies input
      ensures input.Valid()
      ensures var minimum := initialCodeSize - 1;
              var f := Fresh(minimum, old(input.Remaining()), old(input.End()));
              if res == Ok then
                && code < clearCode
                && f == Emit([code % 256], Running(minimum, input.Remaining(), input.End(), minimum + 1,
                                                   InitialTable(minimum), [code % 256]))
              else f == Output([], res)
    {
      hide Running, Flatten, Bits, Value, ReadContext.Valid;
      ghost var minimum, end := initialCodeSize - 1, input.End();
      ghost var f := Fresh(minimum, input.Remaining(), end);
      while true
        modifies input
        invariant input.Valid() && input.End() == end
        invariant Fresh(minimum, input.Remaining(), end) == f
        decreases |input.Remaining()|
      {
        res, code := input.ReadCode(codeSize);
        if res != Ok {
          return res, 0;
        }
        if code != clearCode { break; }
      }
      // The first code must be from the initial table.
      if code > clearCode {
        return BadIcode, 0;
      }
    }

    /** The standard table entries of lzw_decode_init; values are 8 bits wide. */
    method InitTable(clear: nat)
      requires clear <= table.Length
      modifies table
      ensures forall c :: 0 <= c < clear ==> Standard(table[c], c)
    {
      for i := 0 to clear
        invariant forall c :: 0 <= c < i ==> Standard(table[c], c)
      {
        table[i] := Entry(i % 256, i % 256, 1, table[i].base);
      }
    }

    /** The table-building context at the start of lzw_decode_init. */
    method InitContext(minimumCodeSize: nat)
      requires Allocated() && minimumCodeSize < CODE_MAX
      modifies this, table
      ensures Valid() && initialCodeSize == minimumCodeSize + 1
    {
      initialCodeSize := minimumCodeSize + 1;
      clearCode := Pow2(minimumCodeSize);
      eoiCode := Pow2(minimumCodeSize) + 1;
      Pow2Monotone(minimumCodeSize, 11);
      Pow2Of12();
      InitTable(clearCode);
      codeSize, codeMax, tableSize := initialCodeSize, Pow2(initialCodeSize) - 1, eoiCode + 1;
      InitialOk(table[..], minimumCodeSize);
    }

    /** lzw_decode_init: decoding starts out with all of the textbook decoder's output to come. */
    method DecodeInit(minimumCodeSize: byte, data: seq<byte>, pos: nat) returns (res: LzwResult)
      requires Allocated()
      modifies this, input, table
      ensures Allocated()
      ensures minimumCodeSize >= CODE_MAX ==> res == BadIcode
      ensures minimumCodeSize < CODE_MAX ==>
                var f := DecodeAt(minimumCodeSize, data, pos);
                if res == Ok then Decoding() && Future() == f && f.values != [] else f == Output([], res)
    {
      hide Running, Fresh, Flatten, Bits, Pow2, Dict.Ok, Dict.RecordOf;
      if minimumCodeSize >= CODE_MAX {
        return BadIcode;
      }
      input.Init(data, pos);
      InitContext(minimumCodeSize);
      outputLeft := 0;
      var code;
      res, code := HandleClear();
      if res != Ok {
        return;
      }
      StartOutput(code);
    }

    /** The end of lzw_decode_init: add the first code for immediate output. */
    method StartOutput(code: nat)
      requires Valid() && code < clearCode && Table().Has(code)
      modifies this
      ensures Decoding() && Future() == Emit(old(Table().RecordOf(code)), old(Textbook(code)))
    {
      hide ReadContext.Valid, Running, Fresh, Flatten, Bits, Dict.Ok, Dict.RecordOf;
      ghost var d := Table();
      d.SingleRecord(code);
      Commit(code);
      outputCode := code;
      outputLeft := 1;
      hasTransparency, transparencyIdx, colourMap := false, 0, NoMap;
      assert Table() == d;
      assert Pending() == d.RecordOf(code);
    }

    /** Store details of this code as the previous code. */
    method Commit(code: nat)
      requires Valid() && Table().Has(code)
      modifies this`prevCode, this`prevCodeFirst, this`prevCodeCount
      ensures Valid() && prevCode == code && prevCodeFirst == table[code].first && prevCodeCount == table[code].count
      ensures Table() == old(Table())
    {
      prevCodeFirst := table[code].first;
      prevCodeCount := table[code].count;
      prevCode := code;
    }

    /** The loop both writers start with: pass over the values there is no room for. */
    method Skip(code: nat, n: nat) returns (c: nat)
      requires Valid() && Table().Has(code) && n <= |Table().RecordOf(code)|
      ensures n < |Table().RecordOf(code)| ==> Table().Walked(code, |Table().RecordOf(code)| - n, c)
    {
      c := code;
      for i := 0 to n
        invariant i < |Table().RecordOf(code)| ==> Table().Walked(code, |Table().RecordOf(code)| - i, c)
      {
        Table().WalkStep(code, |Table().RecordOf(code)| - i, c);
        c := table[c].base;
      }
    }

    /** The loop of lzw__write_fn: walk back from c, filling n places of output from the end. */
    method WriteBack(output: array<byte>, pos: nat, n: nat, ghost d: Dict, ghost code: nat, ghost start: nat, c0: nat)
      requires table.Length == TABLE_ENTRY_MAX && table[..] == d.entries && d.Ok() && d.Has(code)
      requires pos + n <= output.Length && start + n <= |d.RecordOf(code)|
      requires n > 0 ==> d.Walked(code, start + n, c0)
      modifies output
      ensures forall k :: 0 <= k < output.Length ==>
                output[k] == if pos <= k < pos + n then d.RecordOf(code)[start + k - pos] else old(output[k])
    {
      hide Dict.Ok, Dict.Walked, Dict.RecordOf;
      ghost var record := d.RecordOf(code);
      var c, i := c0, n;
      while i != 0
        invariant 0 <= i <= n && table[..] == d.entries
        invariant i > 0 ==> d.Walked(code, start + i, c)
        invariant forall k :: 0 <= k < output.Length ==>
                    output[k] == if pos + i <= k < pos + n then record[start + k - pos] else old(output[k])
      {
        d.WalkStep(code, start + i, c);
        i := i - 1;
        var entry := table[c];
        assert entry == d.entries[c];
        output[pos + i] := entry.value;
        c := entry.base;
      }
    }

    /** lzw__write_fn: the next values of a code, as many as there is room for. */
    method Write(output: array<byte>, outputLength: nat, outputUsed: nat, code: nat, left: nat) returns (count: nat)
      requires Valid() && Table().Has(code) && 0 < left <= |Table().RecordOf(code)|
      requires outputUsed <= outputLength <= output.Length
      modifies this`outputCode, this`outputLeft, output
      ensures Valid() && count == Min(left, outputLength - outputUsed)
      ensures outputCode == code && outputLeft == left - count
      ensures output[..] == Splice(old(output[..]), outputUsed, Next(Table().RecordOf(code), left, count))
    {
      hide Dict.Ok, Dict.Walked, Dict.RecordOf, Pow2;
      ghost var d, before := Table(), output[..];
      ghost var record := d.RecordOf(code);
      var space := outputLength - outputUsed;
      count := Min(left, space);
      outputCode := code;
      outputLeft := left - count;
      var c := Skip(code, left - count);
      WriteBack(output, outputUsed, count, d, code, |record| - left, c);
      assert Table() == d;
    }

    /** Store a code as the previous code, the first values of its record having been written:
        what was written and what is still to come make up its whole record. */
    method Finish(code: nat, ghost run: seq<byte>)
      requires Valid() && Table().Has(code) && run <= Table().RecordOf(code)
      requires outputCode == code && outputLeft == |Table().RecordOf(code)| - |run|
      modifies this`prevCode, this`prevCodeFirst, this`prevCodeCount
      ensures Decoding() && Emit(run, Future()) == Emit(old(Table().RecordOf(code)), old(Textbook(code)))
    {
      hide Running, Fresh, Flatten, Bits, Dict.Ok, Dict.RecordOf;
      ghost var d, t := Table(), Textbook(code);
      Commit(code);
      assert Table() == d;
      assert run + Pending() == d.RecordOf(code);
      assert Textbook(prevCode) == t;
      assert run + (Pending() + t.values) == (run + Pending()) + t.values;
    }

    /** lzw__decode with lzw__write_fn: one code read and as much of it written as fits. */
    method DecodeCode(output: array<byte>, outputLength: nat, outputUsed: nat)
      returns (res: LzwResult, outputWritten: nat, ghost run: seq<byte>)
      requires Decoding() && outputLeft == 0 && outputUsed < outputLength <= output.Length
      modifies this, input, table, output
      ensures Allocated() && outputWritten == outputUsed + |run| <= outputLength
      ensures output[..] == Splice(old(output[..]), outputUsed, run)
      ensures if res == Ok
              then run != [] && Decoding() && (outputLeft > 0 ==> outputWritten == outputLength) && old(Future()) == Emit(run, Future())
              else run == [] && old(Future()) == Output([], res)
    {
      hide Running, Fresh, Flatten, Bits, Dict.Ok, Dict.RecordOf, Next, Splice, Pow2, Last;
      ghost var future := Textbook(prevCode);
      assert Future() == future;
      var code;
      res, code := NextCode();
      if res != Ok {
        SpliceNothing(output[..], outputUsed);
        return res, outputUsed, [];
      }
      ghost var d := Table();
      d.CountIs(code);
      var count := Write(output, outputLength, outputUsed, code, table[code].count);
      run := Next(d.RecordOf(code), |d.RecordOf(code)|, count);
      NextPrefix(d.RecordOf(code), count);
      assert Table() == d;
      Finish(code, run);
      outputWritten := outputUsed + count;
    }

    /** Writing more of the partly written code takes values off the front of the future. */
    lemma Resumed(left: nat, run: seq<byte>, before: Output)
      requires Valid() && LiveNow() && Table().Has(outputCode)
      requires outputLeft <= left <= |Table().RecordOf(outputCode)| && run == Next(Table().RecordOf(outputCode), left, left - outputLeft)
      requires before == Emit(Last(Table().RecordOf(outputCode), left), Textbook(prevCode))
      ensures Decoding() && before == Emit(run, Future())
    {
      hide Running, Fresh, Flatten, Bits, Dict.Ok, Dict.RecordOf;
      var t := Textbook(prevCode);
      assert Last(Table().RecordOf(outputCode), left) == run + Pending();
      assert run + (Pending() + t.values) == (run + Pending()) + t.values;
    }

    /** Go on writing the partly written code, from its exact next value. */
    method Resume(output: array<byte>, outputLength: nat, outputUsed: nat) returns (count: nat, ghost run: seq<byte>)
      requires Decoding() && outputLeft != 0 && outputUsed <= outputLength <= output.Length
      modifies this`outputCode, this`outputLeft, output
      ensures Decoding() && count == |run| <= outputLength - outputUsed
      ensures outputLeft > 0 ==> outputUsed + count == outputLength
      ensures output[..] == Splice(old(output[..]), outputUsed, run)
      ensures old(Future()) == Emit(run, Future())
    {
      hide Running, Fresh, Flatten, Bits, Dict.Ok, Dict.RecordOf, Next, Splice, Pow2, Last;
      ghost var d, left, future := Table(), outputLeft, Future();
      count := Write(output, outputLength, outputUsed, outputCode, outputLeft);
      assert Table() == d;
      run := Next(d.RecordOf(outputCode), left, count);
      Resumed(left, run, future);
    }

    /** lzw_decode: fill the context's own buffer with the next values; a code that does not fit is
        carried over to the next call. The call returns Ok exactly when the buffer was filled. */
    method Decode() returns (res: LzwResult, outputWritten: nat)
      requires Decoding()
      modifies this, input, table, stackBase
      ensures Allocated()
      ensures outputWritten == Min(stackBase.Length, |old(Future()).values|)
      ensures stackBase[..outputWritten] == old(Future()).values[..outputWritten]
      ensures res == Ok <==> outputWritten == stackBase.Length
      ensures if res == Ok
              then Decoding() && Future() == Output(old(Future()).values[outputWritten..], old(Future()).end)
              else res == old(Future()).end
    {
      hide Running, Fresh, Flatten, Bits, Dict.Ok, Dict.RecordOf, Splice, Pow2;
      ghost var future := Future();
      var outputLength := stackBase.Length;
      outputWritten := 0;
      ghost var out: seq<byte> := [];
      if outputLeft != 0 {
        ghost var before := stackBase[..];
        outputWritten, out := Resume(stackBase, outputLength, 0);
        SpliceAppend(before, [], out);
      }
      while outputWritten != outputLength
        invariant Decoding() && stackBase.Length == outputLength
        invariant outputWritten == |out| <= outputLength && stackBase[..outputWritten] == out
        invariant outputLeft > 0 ==> outputWritten == outputLength
        invariant future == Emit(out, Future())
        decreases outputLength - outputWritten
      {
        ghost var run, before := [], stackBase[..];
        res, outputWritten, run := DecodeCode(stackBase, outputLength, outputWritten);
        SpliceAppend(before, out, run);
        EmitEmit(out, run, if res == Ok then Future() else Output([], res));
        out := out + run;
        if res != Ok {
          return;
        }
      }
      return Ok, outputWritten;
    }

    ghost predicate Mapped()
      reads this
    {
      colourMap.ColourMap? && |colourMap.colours| == 256
    }

    ghost function CurrentInk(): Ink
      reads this
      requires Mapped()
    {
      Ink(colourMap.colours, if hasTransparency then transparencyIdx else 256)
    }

    /** lzw_decode_init_map */
    method DecodeInitMap(minimumCodeSize: byte, transparencyIndex: nat, colours: ColourMap, data: seq<byte>, pos: nat)
      returns (res: LzwResult)
      requires Allocated() && (colours.ColourMap? ==> |colours.colours| == 256)
      modifies this, input, table
      ensures Allocated()
      ensures colours.NoMap? ==> res == BadParam
      ensures colours.ColourMap? && minimumCodeSize >= CODE_MAX ==> res == BadIcode
      ensures colours.ColourMap? && minimumCodeSize < CODE_MAX ==>
                var f := DecodeAt(minimumCodeSize, data, pos);
                if res == Ok then Decoding() && Future() == f && f.values != [] else f == Output([], res)
      ensures res == Ok ==> Mapped() && CurrentInk() == Ink(colours.colours, Min(transparencyIndex, 256))
    {
      hide Dict.Textbook, ReadContext.Valid, Running, Fresh, Flatten, Bits, Dict.Ok, Dict.RecordOf;
      if colours.NoMap? {
        return BadParam;
      }
      res := DecodeInit(minimumCodeSize, data, pos);
      if res != Ok {
        return;
      }
      ghost var d := Table();
      hasTransparency := transparencyIndex <= 0xFF;
      transparencyIdx := transparencyIndex % 256;
      colourMap := colours;
      assert Table() == d;
    }

    /** The loops of lzw__map_write_fn: walk back from c, painting n pixels from the end. */
    method MapWriteBack(output: array<Colour>, pos: nat, n: nat, ghost d: Dict, ghost code: nat, ghost start: nat, c0: nat)
      requires table.Length == TABLE_ENTRY_MAX && table[..] == d.entries && d.Ok() && d.Has(code) && Mapped()
      requires pos + n <= output.Length && start + n <= |d.RecordOf(code)|
      requires n > 0 ==> d.Walked(code, start + n, c0)
      modifies output
      ensures forall k :: 0 <= k < output.Length ==>
                output[k] == if pos <= k < pos + n then CurrentInk().Paint(old(output[k]), d.RecordOf(code)[start + k - pos])
                             else old(output[k])
    {
      hide Dict.Ok, Dict.Walked, Dict.RecordOf;
      ghost var record, ink := d.RecordOf(code), CurrentInk();
      var c, i := c0, n;
      while i != 0
        invariant 0 <= i <= n && table[..] == d.entries
        invariant i > 0 ==> d.Walked(code, start + i, c)
        invariant forall k :: 0 <= k < output.Length ==>
                    output[k] == if pos + i <= k < pos + n then ink.Paint(old(output[k]), record[start + k - pos])
                                 else old(output[k])
      {
        d.WalkStep(code, start + i, c);
        i := i - 1;
        var entry := table[c];
        assert entry == d.entries[c];
        if !hasTransparency || entry.value != transparencyIdx {
          output[pos + i] := colourMap.colours[entry.value];
        }
        c := entry.base;
      }
    }

    /** lzw__map_write_fn: the next values of a code, as many as there is room for, as pixels. */
    method MapWrite(output: array<Colour>, base: nat, outputLength: nat, outputUsed: nat, code: nat, left: nat)
      returns (count: nat)
      requires Valid() && Mapped() && Table().Has(code) && 0 < left <= |Table().RecordOf(code)|
      requires outputUsed <= outputLength && base + outputLength <= output.Length
      modifies this`outputCode, this`outputLeft, output
      ensures Valid() && count == Min(left, outputLength - outputUsed)
      ensures outputCode == code && outputLeft == left - count
      ensures output[..] == CurrentInk().PaintRun(old(output[..]), base + outputUsed, Next(Table().RecordOf(code), left, count))
    {
      hide Dict.Ok, Dict.Walked, Dict.RecordOf, Pow2;
      ghost var d := Table();
      ghost var record := d.RecordOf(code);
      var space := outputLength - outputUsed;
      count := Min(left, space);
      outputCode := code;
      outputLeft := left - count;
      var c := Skip(code, left - count);
      MapWriteBack(output, base + outputUsed, count, d, code, |record| - left, c);
      assert Table() == d;
    }

    /** lzw__decode with lzw__map_write_fn. */
    method MapDecodeCode(output: array<Colour>, base: nat, outputLength: nat, outputUsed: nat)
      returns (res: LzwResult, outputWritten: nat, ghost run: seq<byte>)
      requires Decoding() && Mapped() && outputLeft == 0
      requires outputUsed < outputLength && base + outputLength <= output.Length
      modifies this, input, table, output
      ensures Allocated() && Mapped() && CurrentInk() == old(CurrentInk())
      ensures outputWritten == outputUsed + |run| <= outputLength
      ensures output[..] == CurrentInk().PaintRun(old(output[..]), base + outputUsed, run)
      ensures if res == Ok
              then run != [] && Decoding() && (outputLeft > 0 ==> outputWritten == outputLength) && old(Future()) == Emit(run, Future())
              else run == [] && old(Future()) == Output([], res)
    {
      hide Dict.Textbook, ReadContext.Valid, ReadContext.Remaining, ReadContext.End, Running, Fresh, Flatten, Bits, Dict.Ok, Dict.RecordOf, Next, Ink.PaintRun, Pow2, Last;
      ghost var future, ink := Textbook(prevCode), CurrentInk();
      assert Future() == future;
      var code;
      res, code := NextCode();
      if res != Ok {
        CurrentInk().PaintNothing(output[..], base + outputUsed);
        return res, outputUsed, [];
      }
      outputWritten, run := PaintCode(output, base, outputLength, outputUsed, code);
    }

    /** The end of lzw__decode: as much of the code as fits is painted, and it becomes the previous code. */
    method PaintCode(output: array<Colour>, base: nat, outputLength: nat, outputUsed: nat, code: nat)
      returns (outputWritten: nat, ghost run: seq<byte>)
      requires Valid() && Mapped() && Table().Has(code)
      requires outputUsed < outputLength && base + outputLength <= output.Length
      modifies this, output
      ensures Mapped() && CurrentInk() == old(CurrentInk()) && outputWritten == outputUsed + |run| <= outputLength && run != []
      ensures output[..] == CurrentInk().PaintRun(old(output[..]), base + outputUsed, run)
      ensures Decoding() && (outputLeft > 0 ==> outputWritten == outputLength)
      ensures Emit(run, Future()) == Emit(old(Table().RecordOf(code)), old(Textbook(code)))
    {
      hide Dict.Textbook, ReadContext.Valid, ReadContext.Remaining, ReadContext.End, Running, Fresh, Flatten, Bits, Dict.Ok, Dict.RecordOf, Next, Ink.PaintRun, Pow2, Last;
      ghost var d, ink, t := Table(), CurrentInk(), Textbook(code);
      d.CountIs(code);
      var count := MapWrite(output, base, outputLength, outputUsed, code, table[code].count);
      run := Next(d.RecordOf(code), |d.RecordOf(code)|, count);
      NextPrefix(d.RecordOf(code), count);
      assert Table() == d && CurrentInk() == ink && Textbook(code) == t;
      Finish(code, run);
      outputWritten := outputUsed + count;
    }

    /** Go on painting the partly written code, from its exact next value. */
    method MapResume(output: array<Colour>, base: nat, outputLength: nat) returns (count: nat, ghost run: seq<byte>)
      requires Decoding() && Mapped() && outputLeft != 0 && base + outputLength <= output.Length
      modifies this`outputCode, this`outputLeft, output
      ensures Decoding() && count == |run| <= outputLength
      ensures outputLeft > 0 ==> count == outputLength
      ensures output[..] == CurrentInk().PaintRun(old(output[..]), base, run)
      ensures old(Future()) == Emit(run, Future())
    {
      hide Running, Fresh, Flatten, Bits, Dict.Ok, Dict.RecordOf, Next, Ink.PaintRun, Pow2, Last;
      ghost var d, left, future := Table(), outputLeft, Future();
      count := MapWrite(output, base, outputLength, 0, outputCode, outputLeft);
      assert Table() == d;
      run := Next(d.RecordOf(outputCode), left, count);
      Resumed(left, run, future);
    }

    /** lzw_decode_map: paint the next values into outputLength pixels of the caller's buffer from
        base; a code that does not fit is carried over to the next call. The call returns Ok exactly
        when the buffer was filled. */
    method DecodeMap(output: array<Colour>, base: nat, outputLength: nat) returns (res: LzwResult, outputWritten: nat)
      requires Decoding() && (Mapped() || colourMap.NoMap?) && base + outputLength <= output.Length
      modifies this, input, table, output
      ensures Allocated() && outputWritten <= outputLength
      ensures old(colourMap).NoMap? ==> res == NoColour && outputWritten == 0 && output[..] == old(output[..])
      ensures old(Mapped()) ==>
                && outputWritten == Min(outputLength, |old(Future()).values|)
                && output[..] == old(CurrentInk()).PaintRun(old(output[..]), base, old(Future()).values[..outputWritten])
                && (res == Ok <==> outputWritten == outputLength)
                && if res == Ok
                   then Decoding() && Mapped() && CurrentInk() == old(CurrentInk())
                        && Future() == Output(old(Future()).values[outputWritten..], old(Future()).end)
                   else res == old(Future()).end
    {
      hide Running, Fresh, Flatten, Bits, Dict.Ok, Dict.RecordOf, Ink.PaintRun, Pow2;
      outputWritten := 0;
      if colourMap.NoMap? {
        return NoColour, 0;
      }
      ghost var future, ink, before := Future(), CurrentInk(), output[..];
      ghost var out: seq<byte> := [];
      ink.PaintNothing(before, base);
      if outputLeft != 0 {
        outputWritten, out := MapResume(output, base, outputLength);
      }
      while outputWritten != outputLength
        invariant Decoding() && Mapped() && CurrentInk() == ink
        invariant outputWritten == |out| <= outputLength && output[..] == ink.PaintRun(before, base, out)
        invariant outputLeft > 0 ==> outputWritten == outputLength
        invariant future == Emit(out, Future())
        decreases outputLength - outputWritten
      {
        ghost var run;
        res, outputWritten, run := MapDecodeCode(output, base, outputLength, outputWritten);
        EmitEmit(out, run, if res == Ok then Future() else Output([], res));
        ink.PaintRunTwice(before, base, out, run);
        out := out + run;
        if res != Ok {
          return;
        }
      }
      return Ok, outputWritten;
    }
  }

  /** n values of s from where only left are left. */
  ghost function Next(s: seq<byte>, left: nat, n: nat): (r: seq<byte>)
    requires n <= left <= |s|
    ensures |r| == n
  {
    s[|s| - left..|s| - left + n]
  }

  lemma SpliceNothing<T>(s: seq<T>, pos: nat)
    requires pos <= |s|
    ensures Splice(s, pos, []) == s
  {
  }

  lemma SpliceAppend<T>(s: seq<T>, out: seq<T>, run: seq<T>)
    requires |out| + |run| <= |s| && s[..|out|] == out
    ensures Splice(s, |out|, run)[..|out| + |run|] == out + run
  {
  }

  lemma NextPrefix(s: seq<byte>, n: nat)
    requires n <= |s|
    ensures Next(s, |s|, n) <= s
  {
  }

  ghost function Splice<T>(s: seq<T>, pos: nat, run: seq<T>): (r: seq<T>)
    requires pos + |run| <= |s|
    ensures |r| == |s|
  {
    seq(|s|, k requires 0 <= k < |s| => if pos <= k < pos + |run| then run[k - pos] else s[k])
  }

  ghost function Last(s: seq<byte>, n: nat): seq<byte>
    requires n <= |s|
  {
    s[|s| - n..]
  }
}
