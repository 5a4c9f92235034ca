/** The textbook variable-length-code LZW decoder of Appendix F of GIF89a, on a flat bit
    string and a table of strings. */
module LzwSpec {
  import opened BitString
  import opened LzwReader

  const TABLE_ENTRY_MAX := 4096

  /** Everything a decoder writes, and why it stops. */
  datatype Output = Output(values: seq<byte>, end: LzwResult)

  ghost function Emit(s: seq<byte>, rest: Output): Output {
    Output(s + rest.values, rest.end)
  }

  lemma EmitEmit(a: seq<byte>, b: seq<byte>, rest: Output)
    ensures Emit(a, Emit(b, rest)) == Emit(a + b, rest)
  {
  }

  /** The strings standing for single values; the clear and end codes have none. */
  ghost function InitialTable(minimumCodeSize: nat): seq<seq<byte>> {
    var clear := Pow2(minimumCodeSize);
    seq(clear + 2, i => if 0 <= i < clear then [i % 256] else [])
  }

  ghost predicate StringTable(minimumCodeSize: nat, table: seq<seq<byte>>) {
    var clear := Pow2(minimumCodeSize);
    && clear + 2 <= |table|
    && forall i :: 0 <= i < |table| && i != clear && i != clear + 1 ==> table[i] != []
  }

  /** Decoding just after a clear code. */
  ghost function Fresh(minimumCodeSize: nat, bits: seq<bool>, end: LzwResult): Output
    decreases |bits|
  {
    var clear := Pow2(minimumCodeSize);
    var width := minimumCodeSize + 1;
    if |bits| <= width then Output([], end)
    else
      var code := Value(bits[..width]);
      if code == clear then Fresh(minimumCodeSize, bits[width..], end)
      else if code > clear then Output([], BadIcode)
      else
        var s := [code % 256];
        Emit(s, Running(minimumCodeSize, bits[width..], end, width, InitialTable(minimumCodeSize), s))
  }

  /** Decoding with a table, the current code width and the string of the previous code. */
  ghost function Running(minimumCodeSize: nat, bits: seq<bool>, end: LzwResult,
                         width: nat, table: seq<seq<byte>>, prev: seq<byte>): Output
    requires width > 0 && StringTable(minimumCodeSize, table) && prev != []
    decreases |bits|
  {
    var clear := Pow2(minimumCodeSize);
    if |bits| <= width then Output([], end)
    else
      var code := Value(bits[..width]);
      if code == clear + 1 then Output([], EoiCode)
      else if code > |table| then Output([], BadCode)
      else if code == clear then Fresh(minimumCodeSize, bits[width..], end)
      else
        var s := StringFor(table, prev, code);
        var table' := Extend(table, prev + [s[0]]);
        Emit(s, Running(minimumCodeSize, bits[width..], end, Widen(width, |table'|), table', s))
  }

  ghost function Extend(table: seq<seq<byte>>, s: seq<byte>): seq<seq<byte>> {
    if |table| < TABLE_ENTRY_MAX then table + [s] else table
  }

  /** Codes get wider once every code of the current width is taken. */
  ghost function Widen(width: nat, size: nat): nat {
    if size == Pow2(width) && width < CODE_MAX then width + 1 else width
  }

  ghost function StringFor(table: seq<seq<byte>>, prev: seq<byte>, code: nat): seq<byte>
    requires prev != []
  {
    if code < |table| then table[code] else prev + [prev[0]]
  }

  /** What the data at pos decodes to. */
  ghost function DecodeAt(minimumCodeSize: nat, data: seq<byte>, pos: nat): Output {
    var flat := Flatten(data, pos);
    Fresh(minimumCodeSize, Bits(flat.bytes), flat.end)
  }
}
