/** An encoder as Appendix F of GIF89a describes it, written from the dictionary of strings alone,
    and the proof that decoding gives back what it encoded. */
module LzwEncoder {
  import opened BitString
  import opened LzwReader
  import opened SubBlocks
  import opened LzwSpec

  /** The strings of a new dictionary: the single values. Other codes have no string. */
  ghost function Initial(minimumCodeSize: nat): seq<seq<byte>> {
    seq(Pow2(minimumCodeSize) + 2, c => if 0 <= c < Pow2(minimumCodeSize) && c < 256 then [c] else [])
  }

  ghost predicate Begins(s: seq<byte>, rest: seq<byte>) {
    s != [] && s <= rest
  }

  /** The code of a longest string of the dictionary that rest begins with; past its end if there is none. */
  ghost function Longest(dict: seq<seq<byte>>, rest: seq<byte>): (c: nat)
    ensures c < |dict| ==> Begins(dict[c], rest)
    ensures forall i :: 0 <= i < |dict| && Begins(dict[i], rest) ==> c < |dict| && |dict[i]| <= |dict[c]|
  {
    if dict == [] then 0
    else
      var n := |dict| - 1;
      var c := Longest(dict[..n], rest);
      if Begins(dict[n], rest) && (c >= n || |dict[c]| < |dict[n]|) then n
      else if c >= n then |dict|
      else c
  }

  /** The codes in use when size strings are known fit this width. */
  ghost function CodeWidth(size: nat): nat {
    Min(CODE_MAX, BitLength(size))
  }

  /** Everything left to encode can be encoded. */
  ghost predicate Codable(minimumCodeSize: nat, dict: seq<seq<byte>>, rest: seq<byte>) {
    && Initial(minimumCodeSize) <= dict
    && forall i :: 0 <= i < |rest| ==> rest[i] < Pow2(minimumCodeSize)
  }

  lemma LongestExists(minimumCodeSize: nat, dict: seq<seq<byte>>, rest: seq<byte>)
    requires Codable(minimumCodeSize, dict, rest) && rest != []
    ensures Longest(dict, rest) < |dict| && Begins(dict[Longest(dict, rest)], rest)
  {
    var c := rest[0];
    assert dict[c] == Initial(minimumCodeSize)[c] == [c];
    assert Begins(dict[c], rest);
  }

  /** The dictionary learns the string just written with the value after it, while there is room. */
  ghost function Learn(dict: seq<seq<byte>>, s: seq<byte>, rest: seq<byte>): seq<seq<byte>> {
    if |s| < |rest| && |dict| < 4096 then dict + [rest[..|s| + 1]] else dict
  }

  /** The bits of what is left: clear codes wherever clears asks for one, and the end code last. The
      width of a code goes by the strings that were known when the code before it was written. */
  ghost function Encode(minimumCodeSize: nat, known: nat, dict: seq<seq<byte>>, rest: seq<byte>,
                        clears: nat -> bool): (bits: seq<bool>)
    requires Codable(minimumCodeSize, dict, rest) && known > 0
    ensures |bits| > 0
    decreases |rest|, 1
  {
    var clear := Pow2(minimumCodeSize);
    if rest == [] then LowBits(clear + 1, CodeWidth(known))
    else if clears(|rest|) then
      LowBits(clear, CodeWidth(known)) + EncodeString(minimumCodeSize, clear + 2, Initial(minimumCodeSize), rest, clears)
    else EncodeString(minimumCodeSize, known, dict, rest, clears)
  }

  ghost function EncodeString(minimumCodeSize: nat, known: nat, dict: seq<seq<byte>>, rest: seq<byte>,
                              clears: nat -> bool): (bits: seq<bool>)
    requires Codable(minimumCodeSize, dict, rest) && known > 0 && rest != []
    ensures |bits| > 0
    decreases |rest|, 0
  {
    LongestExists(minimumCodeSize, dict, rest);
    var c := Longest(dict, rest);
    var s := dict[c];
    LowBits(c, CodeWidth(known)) + Encode(minimumCodeSize, |dict|, Learn(dict, s, rest), rest[|s|..], clears)
  }

  /** The bits of values, with an empty dictionary at first. */
  ghost function EncodeAll(minimumCodeSize: nat, values: seq<byte>, clears: nat -> bool): (bits: seq<bool>)
    requires forall i :: 0 <= i < |values| ==> values[i] < Pow2(minimumCodeSize)
  {
    Encode(minimumCodeSize, Pow2(minimumCodeSize) + 2, Initial(minimumCodeSize), values, clears)
  }

  // Codes and their widths

  lemma {:induction false} MaskSmall(x: nat, n: nat)
    requires x < Pow2(n)
    ensures Mask(x, n) == x
  {
    if n == 0 {
    } else {
      MaskSmall(x / 2, n - 1);
    }
  }

  lemma {:induction false} BitLengthBounds(n: nat)
    requires n > 0
    ensures BitLength(n) > 0 && Pow2(BitLength(n) - 1) <= n < Pow2(BitLength(n))
  {
    if n == 1 {
    } else {
      BitLengthBounds(n / 2);
    }
  }

  /** A code no greater than the number of known strings fits the width. */
  lemma CodeFits(known: nat, c: nat)
    requires 0 < known <= TABLE_ENTRY_MAX && c <= known && c < TABLE_ENTRY_MAX
    ensures 0 < CodeWidth(known) && c < Pow2(CodeWidth(known))
  {
    hide BitLength, Pow2;
    BitLengthBounds(known);
    Pow2Of12();
  }

  /** Reading the width of a code gives the code. */
  lemma FirstCode(c: nat, width: nat, rest: seq<bool>)
    requires c < Pow2(width)
    ensures var bits := LowBits(c, width) + rest; Value(bits[..width]) == c && bits[width..] == rest
  {
    ValueOfLowBits(c, width);
    MaskSmall(c, width);
    var bits := LowBits(c, width) + rest;
    assert bits[..width] == LowBits(c, width);
  }

  lemma Pow2Next(n: nat)
    ensures Pow2(n + 1) == 2 * Pow2(n)
  {
  }

  lemma InitialWidth(minimumCodeSize: nat)
    requires 2 <= minimumCodeSize < CODE_MAX
    ensures Pow2(minimumCodeSize) + 2 < Pow2(minimumCodeSize + 1) <= TABLE_ENTRY_MAX
    ensures CodeWidth(Pow2(minimumCodeSize) + 2) == minimumCodeSize + 1
  {
    hide BitLength;
    assert Pow2(2) == 4;
    Pow2Monotone(2, minimumCodeSize);
    Pow2Monotone(minimumCodeSize + 1, 12);
    Pow2Of12();
    BitLengthIs(Pow2(minimumCodeSize) + 2, minimumCodeSize + 1);
  }

  lemma WidthWidens(known: nat)
    requires 0 < known < TABLE_ENTRY_MAX
    ensures Widen(CodeWidth(known), known + 1) == CodeWidth(known + 1)
  {
    hide BitLength, Pow2;
    var k := BitLength(known);
    BitLengthBounds(known);
    Pow2Of12();
    assert k <= 12 by {
      if k > 12 { Pow2Monotone(12, k - 1); }
    }
    Pow2Next(k);
    if known + 1 == Pow2(k) {
      BitLengthIs(known + 1, k + 1);
    } else {
      BitLengthIs(known + 1, k);
    }
  }

  // Decoding

  /** The decoder's table has the strings of the dictionary. */
  ghost predicate Knows(table: seq<seq<byte>>, dict: seq<seq<byte>>) {
    |table| == |dict| && forall c :: 0 <= c < |dict| && dict[c] != [] ==> table[c] == dict[c]
  }

  /** The decoder is one string behind: that of the previous code and the value after it. */
  ghost predicate Behind(table: seq<seq<byte>>, prev: seq<byte>, dict: seq<seq<byte>>, rest: seq<byte>) {
    && |table| <= TABLE_ENTRY_MAX && prev != []
    && Knows(Heard(table, prev, rest), dict)
  }

  ghost function Heard(table: seq<seq<byte>>, prev: seq<byte>, rest: seq<byte>): seq<seq<byte>> {
    if rest != [] && |table| < TABLE_ENTRY_MAX then table + [prev + [rest[0]]] else table
  }

  lemma InitialKnown(minimumCodeSize: nat)
    ensures StringTable(minimumCodeSize, InitialTable(minimumCodeSize))
    ensures Knows(InitialTable(minimumCodeSize), Initial(minimumCodeSize))
  {
  }

  /** A code of the dictionary stands for the same string at the decoder, even the one it is behind. */
  lemma SameString(table: seq<seq<byte>>, prev: seq<byte>, dict: seq<seq<byte>>, rest: seq<byte>, c: nat)
    requires Behind(table, prev, dict, rest) && c < |dict| && Begins(dict[c], rest)
    ensures c <= |table| && c < TABLE_ENTRY_MAX && StringFor(table, prev, c) == dict[c]
    ensures Extend(table, prev + [dict[c][0]]) == Heard(table, prev, rest)
  {
    var heard := Heard(table, prev, rest);
    assert heard[c] == dict[c];
    assert dict[c][0] == rest[0];
    if c == |table| {
      assert dict[c] == prev + [rest[0]];
      assert dict[c][0] == prev[0];
    }
  }

  /** Then the decoder is behind by the next string. */
  lemma StillBehind(table: seq<seq<byte>>, dict: seq<seq<byte>>, rest: seq<byte>, s: seq<byte>)
    requires Knows(table, dict) && |table| <= TABLE_ENTRY_MAX && Begins(s, rest)
    ensures Behind(table, s, Learn(dict, s, rest), rest[|s|..])
  {
    if |s| < |rest| {
      assert rest[..|s| + 1] == s + [rest[|s|..][0]];
    }
  }

  /** What decoding rest must give: all of it, and the end code if anything comes after that code. */
  ghost function Decoded(rest: seq<byte>, tail: seq<bool>, end: LzwResult): Output {
    Output(rest, if tail == [] then end else EoiCode)
  }

  lemma RunningStep(minimumCodeSize: nat, c: nat, more: seq<bool>, end: LzwResult, table: seq<seq<byte>>, prev: seq<byte>)
    requires StringTable(minimumCodeSize, table) && prev != [] && more != []
    requires c <= |table| <= TABLE_ENTRY_MAX && c < TABLE_ENTRY_MAX && c != Pow2(minimumCodeSize) && c != Pow2(minimumCodeSize) + 1
    ensures var s := StringFor(table, prev, c);
            && s != []
            && var table' := Extend(table, prev + [s[0]]);
            && StringTable(minimumCodeSize, table') && CodeWidth(|table|) > 0 && CodeWidth(|table'|) > 0
            && Running(minimumCodeSize, LowBits(c, CodeWidth(|table|)) + more, end, CodeWidth(|table|), table, prev)
            == Emit(s, Running(minimumCodeSize, more, end, CodeWidth(|table'|), table', s))
  {
    hide CodeWidth, LowBits, Value, Pow2;
    CodeFits(|table|, c);
    FirstCode(c, CodeWidth(|table|), more);
    var s := StringFor(table, prev, c);
    var table' := Extend(table, prev + [s[0]]);
    CodeFits(|table'|, 0);
    assert Widen(CodeWidth(|table|), |table'|) == CodeWidth(|table'|) by {
      if |table| < TABLE_ENTRY_MAX {
        WidthWidens(|table|);
      } else {
        FullWidth();
      }
    }
  }

  lemma FullWidth()
    ensures CodeWidth(TABLE_ENTRY_MAX) == CODE_MAX
  {
    hide BitLength;
    Pow2Of12();
    BitLengthIs(4096, 13);
  }

  /** Clear and end codes while decoding. */
  lemma RunningControl(minimumCodeSize: nat, more: seq<bool>, end: LzwResult, table: seq<seq<byte>>, prev: seq<byte>)
    requires StringTable(minimumCodeSize, table) && prev != [] && |table| <= TABLE_ENTRY_MAX
    ensures var clear, width := Pow2(minimumCodeSize), CodeWidth(|table|);
            && width > 0
            && (more != [] ==> Running(minimumCodeSize, LowBits(clear, width) + more, end, width, table, prev)
                               == Fresh(minimumCodeSize, more, end))
            && Running(minimumCodeSize, LowBits(clear + 1, width) + more, end, width, table, prev)
               == Decoded([], more, end)
  {
    hide CodeWidth, LowBits, Value, Pow2;
    var clear, width := Pow2(minimumCodeSize), CodeWidth(|table|);
    CodeFits(|table|, clear);
    CodeFits(|table|, clear + 1);
    FirstCode(clear, width, more);
    FirstCode(clear + 1, width, more);
  }

  lemma FreshStep(minimumCodeSize: nat, c: nat, more: seq<bool>, end: LzwResult)
    requires 2 <= minimumCodeSize < CODE_MAX && c <= Pow2(minimumCodeSize) && more != []
    ensures var clear, table := Pow2(minimumCodeSize), InitialTable(minimumCodeSize);
            && StringTable(minimumCodeSize, table) && CodeWidth(|table|) == minimumCodeSize + 1
            && Fresh(minimumCodeSize, LowBits(c, CodeWidth(|table|)) + more, end)
               == if c == clear then Fresh(minimumCodeSize, more, end)
                  else Emit([c % 256], Running(minimumCodeSize, more, end, CodeWidth(|table|), table, [c % 256]))
  {
    InitialWidth(minimumCodeSize);
    hide CodeWidth, LowBits, Value, Pow2;
    InitialKnown(minimumCodeSize);
    FirstCode(c, minimumCodeSize + 1, more);
  }

  /** Decoding goes on with what is left, one string behind the encoder. */
  lemma {:induction false} RunningDecodes(minimumCodeSize: nat, table: seq<seq<byte>>, prev: seq<byte>, dict: seq<seq<byte>>,
                                          rest: seq<byte>, clears: nat -> bool, tail: seq<bool>, end: LzwResult)
    requires 2 <= minimumCodeSize < CODE_MAX && Codable(minimumCodeSize, dict, rest)
    requires StringTable(minimumCodeSize, table) && Behind(table, prev, dict, rest) && CodeWidth(|table|) > 0
    ensures var bits := Encode(minimumCodeSize, |table|, dict, rest, clears) + tail;
            Running(minimumCodeSize, bits, end, CodeWidth(|table|), table, prev) == Decoded(rest, tail, end)
    decreases |rest|, 1
  {
    hide Running, Fresh, CodeWidth, LowBits, Behind, Longest;
    var clear, width := Pow2(minimumCodeSize), CodeWidth(|table|);
    assert |table| <= TABLE_ENTRY_MAX && prev != [] by { BehindIs(table, prev, dict, rest); }
    if rest == [] {
      RunningControl(minimumCodeSize, tail, end, table, prev);
    } else if clears(|rest|) {
      var more := EncodeString(minimumCodeSize, clear + 2, Initial(minimumCodeSize), rest, clears) + tail;
      RunningControl(minimumCodeSize, more, end, table, prev);
      assert Encode(minimumCodeSize, |table|, dict, rest, clears) + tail == LowBits(clear, width) + more;
      FreshDecodes(minimumCodeSize, rest, clears, tail, end);
    } else {
      RunningString(minimumCodeSize, table, prev, dict, rest, clears, tail, end);
    }
  }

  lemma BehindIs(table: seq<seq<byte>>, prev: seq<byte>, dict: seq<seq<byte>>, rest: seq<byte>)
    requires Behind(table, prev, dict, rest)
    ensures |table| <= TABLE_ENTRY_MAX && prev != []
    ensures Knows(Heard(table, prev, rest), dict)
  {
  }

  lemma {:induction false} RunningString(minimumCodeSize: nat, table: seq<seq<byte>>, prev: seq<byte>, dict: seq<seq<byte>>,
                                         rest: seq<byte>, clears: nat -> bool, tail: seq<bool>, end: LzwResult)
    requires 2 <= minimumCodeSize < CODE_MAX && Codable(minimumCodeSize, dict, rest) && rest != []
    requires StringTable(minimumCodeSize, table) && Behind(table, prev, dict, rest) && CodeWidth(|table|) > 0
    ensures var bits := EncodeString(minimumCodeSize, |table|, dict, rest, clears) + tail;
            Running(minimumCodeSize, bits, end, CodeWidth(|table|), table, prev) == Decoded(rest, tail, end)
    decreases |rest|, 0
  {
    hide Running, CodeWidth, LowBits, Behind, Longest, Encode, Pow2, Heard, Extend, StringFor, Knows;
    LongestExists(minimumCodeSize, dict, rest);
    var c := Longest(dict, rest);
    var s := dict[c];
    BehindIs(table, prev, dict, rest);
    NoControl(minimumCodeSize, dict, c);
    SameString(table, prev, dict, rest, c);
    var table', dict', rest' := Heard(table, prev, rest), Learn(dict, s, rest), rest[|s|..];
    var more := Encode(minimumCodeSize, |dict|, dict', rest', clears) + tail;
    RunningStep(minimumCodeSize, c, more, end, table, prev);
    assert |table'| == |dict| && |table'| <= TABLE_ENTRY_MAX by { KnowsSize(table, prev, dict, rest); }
    StillBehind(table', dict, rest, s);
    RunningDecodes(minimumCodeSize, table', s, dict', rest', clears, tail, end);
    assert EncodeString(minimumCodeSize, |table|, dict, rest, clears) + tail == LowBits(c, CodeWidth(|table|)) + more;
    assert rest == s + rest';
  }

  lemma KnowsSize(table: seq<seq<byte>>, prev: seq<byte>, dict: seq<seq<byte>>, rest: seq<byte>)
    requires Behind(table, prev, dict, rest)
    ensures |Heard(table, prev, rest)| == |dict| <= TABLE_ENTRY_MAX
  {
  }

  lemma NoControl(minimumCodeSize: nat, dict: seq<seq<byte>>, c: nat)
    requires Initial(minimumCodeSize) <= dict && c < |dict| && dict[c] != []
    ensures c != Pow2(minimumCodeSize) && c != Pow2(minimumCodeSize) + 1
  {
    if c < |Initial(minimumCodeSize)| {
      assert dict[c] == Initial(minimumCodeSize)[c];
    }
  }

  /** Decoding after a clear code. */
  lemma {:induction false} FreshDecodes(minimumCodeSize: nat, rest: seq<byte>, clears: nat -> bool, tail: seq<bool>, end: LzwResult)
    requires 2 <= minimumCodeSize < CODE_MAX && Codable(minimumCodeSize, Initial(minimumCodeSize), rest) && rest != []
    ensures var bits := EncodeString(minimumCodeSize, Pow2(minimumCodeSize) + 2, Initial(minimumCodeSize), rest, clears) + tail;
            Fresh(minimumCodeSize, bits, end) == Decoded(rest, tail, end)
    decreases |rest|, 0
  {
    hide Running, Fresh, CodeWidth, LowBits, Behind, StringTable, Longest, Encode, Pow2, Knows;
    var dict, table := Initial(minimumCodeSize), InitialTable(minimumCodeSize);
    LongestExists(minimumCodeSize, dict, rest);
    var c := Longest(dict, rest);
    assert dict[c] == [c];
    var dict', rest' := Learn(dict, [c], rest), rest[1..];
    var more := Encode(minimumCodeSize, |dict|, dict', rest', clears) + tail;
    FreshStep(minimumCodeSize, c, more, end);
    InitialKnown(minimumCodeSize);
    InitialWidth(minimumCodeSize);
    StillBehind(table, dict, rest, [c]);
    RunningDecodes(minimumCodeSize, table, [c], dict', rest', clears, tail, end);
    assert EncodeString(minimumCodeSize, |dict|, dict, rest, clears) + tail == LowBits(c, CodeWidth(|dict|)) + more;
    assert rest == [c] + rest';
  }

  lemma FreshEnd(minimumCodeSize: nat, tail: seq<bool>, end: LzwResult)
    requires 2 <= minimumCodeSize < CODE_MAX
    ensures Fresh(minimumCodeSize, LowBits(Pow2(minimumCodeSize) + 1, minimumCodeSize + 1) + tail, end)
            == Output([], if tail == [] then end else BadIcode)
  {
    InitialWidth(minimumCodeSize);
    hide Running, CodeWidth, LowBits, Value, Pow2;
    FirstCode(Pow2(minimumCodeSize) + 1, minimumCodeSize + 1, tail);
  }

  /** Decoding gives back whatever was encoded, with clear codes anywhere and anything after it. */
  lemma BitsRoundTrip(minimumCodeSize: nat, values: seq<byte>, clears: nat -> bool, tail: seq<bool>, end: LzwResult)
    requires 2 <= minimumCodeSize < CODE_MAX
    requires forall i :: 0 <= i < |values| ==> values[i] < Pow2(minimumCodeSize)
    ensures var out := Fresh(minimumCodeSize, EncodeAll(minimumCodeSize, values, clears) + tail, end);
            && out.values == values
            && out.end == if tail == [] then end else if values == [] then BadIcode else EoiCode
  {
    hide Running, CodeWidth, LowBits, Fresh, Pow2, EncodeString;
    var clear, dict := Pow2(minimumCodeSize), Initial(minimumCodeSize);
    InitialWidth(minimumCodeSize);
    if values == [] {
      FreshEnd(minimumCodeSize, tail, end);
    } else {
      var more := EncodeString(minimumCodeSize, clear + 2, dict, values, clears) + tail;
      FreshDecodes(minimumCodeSize, values, clears, tail, end);
      if clears(|values|) {
        FreshStep(minimumCodeSize, clear, more, end);
        assert EncodeAll(minimumCodeSize, values, clears) + tail == LowBits(clear, minimumCodeSize + 1) + more;
      }
    }
  }

  // Bytes and sub-blocks

  /** Bits packed into bytes, the last one filled up with zero bits. */
  ghost function Pack(bits: seq<bool>): seq<byte> {
    if bits == [] then []
    else
      var n := Min(8, |bits|);
      ValueBound(bits[..n]);
      Pow2Monotone(n, 8);
      assert Pow2(8) == 256;
      [Value(bits[..n])] + Pack(bits[n..])
  }

  /** The bytes cut into full sub-blocks and a last one. */
  ghost function Cut(bytes: seq<byte>): seq<Block> {
    if bytes == [] then []
    else
      var n := Min(255, |bytes|);
      [bytes[..n]] + Cut(bytes[n..])
  }

  lemma {:induction false} LowBitsOfValue(bits: seq<bool>, n: nat)
    requires |bits| <= n
    ensures LowBits(Value(bits), n) == bits + seq(n - |bits|, _ => false)
    decreases n
  {
    if n == 0 {
    } else if bits == [] {
      LowBitsOfValue([], n - 1);
    } else {
      LowBitsOfValue(bits[1..], n - 1);
      assert Value(bits) / 2 == Value(bits[1..]) && (Value(bits) % 2 == 1 <==> bits[0]);
    }
  }

  lemma PackFirst(bits: seq<bool>)
    requires bits != []
    ensures var n := Min(8, |bits|); Bits(Pack(bits)) == LowBits(Value(bits[..n]), 8) + Bits(Pack(bits[n..]))
  {
    hide LowBits, Value;
    var n := Min(8, |bits|);
    assert Pack(bits)[1..] == Pack(bits[n..]);
  }

  lemma {:induction false} Packed(bits: seq<bool>)
    ensures bits <= Bits(Pack(bits))
    decreases |bits|
  {
    hide LowBits, Value, Bits;
    if bits == [] {
    } else {
      var n := Min(8, |bits|);
      Packed(bits[n..]);
      LowBitsOfValue(bits[..n], 8);
      PackFirst(bits);
      assert bits == bits[..n] + bits[n..];
    }
  }

  lemma {:induction false} CutJoined(bytes: seq<byte>)
    ensures Join(Cut(bytes)) == bytes
    decreases |bytes|
  {
    if bytes == [] {
    } else {
      var n := Min(255, |bytes|);
      CutJoined(bytes[n..]);
      assert Cut(bytes)[1..] == Cut(bytes[n..]);
    }
  }

  /** The image data of values (section 22 of GIF89a). */
  ghost function ImageData(minimumCodeSize: byte, values: seq<byte>, clears: nat -> bool): seq<byte>
    requires forall i :: 0 <= i < |values| ==> values[i] < Pow2(minimumCodeSize)
  {
    [minimumCodeSize] + Lay(Cut(Pack(EncodeAll(minimumCodeSize, values, clears)))) + [0]
  }

  /** However the bytes of an encoding are cut into sub-blocks and whether or not a terminator comes after
      them, they decode to the values. */
  lemma LaidRoundTrip(minimumCodeSize: nat, values: seq<byte>, clears: nat -> bool,
                      p: seq<byte>, blocks: seq<Block>, rest: seq<byte>)
    requires 2 <= minimumCodeSize < CODE_MAX
    requires forall i :: 0 <= i < |values| ==> values[i] < Pow2(minimumCodeSize)
    requires EncodeAll(minimumCodeSize, values, clears) <= Bits(Join(blocks))
    requires Truncated(rest) || rest[0] == 0
    ensures DecodeAt(minimumCodeSize, p + Lay(blocks) + rest, |p|).values == values
  {
    hide Flatten, Lay, Join, Bits, EncodeAll, Fresh;
    var bits, data := EncodeAll(minimumCodeSize, values, clears), p + Lay(blocks) + rest;
    assert data[|p|..] == Lay(blocks) + rest;
    FlattenFrom(data, |p|, blocks, rest);
    var tail := Bits(Join(blocks))[|bits|..];
    assert Bits(Join(blocks)) == bits + tail;
    BitsRoundTrip(minimumCodeSize, values, clears, tail, Flatten(data, |p|).end);
  }

  /** Two ways to cut the same bytes decode alike, wherever they lie. */
  lemma CutAnywhere(minimumCodeSize: nat, p: seq<byte>, blocks: seq<Block>, q: seq<byte>, cuts: seq<Block>, rest: seq<byte>)
    requires Join(blocks) == Join(cuts) && (Truncated(rest) || rest[0] == 0)
    ensures DecodeAt(minimumCodeSize, p + Lay(blocks) + rest, |p|) == DecodeAt(minimumCodeSize, q + Lay(cuts) + rest, |q|)
  {
    hide Flatten, Lay, Join, Bits, Fresh;
    assert (p + Lay(blocks) + rest)[|p|..] == Lay(blocks) + rest;
    assert (q + Lay(cuts) + rest)[|q|..] == Lay(cuts) + rest;
    FlattenFrom(p + Lay(blocks) + rest, |p|, blocks, rest);
    FlattenFrom(q + Lay(cuts) + rest, |q|, cuts, rest);
  }

  /** Image data written into a file decodes to its values. */
  lemma ImageRoundTrip(minimumCodeSize: byte, values: seq<byte>, clears: nat -> bool, p: seq<byte>, rest: seq<byte>)
    requires 2 <= minimumCodeSize < CODE_MAX
    requires forall i :: 0 <= i < |values| ==> values[i] < Pow2(minimumCodeSize)
    ensures var data := p + ImageData(minimumCodeSize, values, clears) + rest;
            data[|p|] == minimumCodeSize && DecodeAt(minimumCodeSize, data, |p| + 1).values == values
  {
    hide Lay, Join, Bits, EncodeAll, DecodeAt, Pack, Cut;
    var bytes := Pack(EncodeAll(minimumCodeSize, values, clears));
    Packed(EncodeAll(minimumCodeSize, values, clears));
    CutJoined(bytes);
    LaidRoundTrip(minimumCodeSize, values, clears, p + [minimumCodeSize], Cut(bytes), [0] + rest);
    assert p + ImageData(minimumCodeSize, values, clears) + rest == p + [minimumCodeSize] + Lay(Cut(bytes)) + ([0] + rest);
  }
}
