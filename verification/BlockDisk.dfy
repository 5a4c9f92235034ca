/** Files written and read at byte offsets, and what a write at one block does to the next. */
module BlockDisk {
  type Byte = bv8

  const BLOCK_SIZE: nat := 8192

  datatype Option<T> = None | Some(value: T)

  /** nsu_pwrite: a gap before the offset is filled with zeros; writing nothing leaves the file alone. */
  function WriteAt(file: seq<Byte>, off: nat, data: seq<Byte>): seq<Byte> {
    if data == [] then file
    else
      (if off <= |file| then file[..off] else file + seq(off - |file|, _ => 0)) + data
      + (if off + |data| <= |file| then file[off + |data|..] else [])
  }

  /** nsu_pread of n bytes, when it does not come up short. */
  function ReadAt(file: seq<Byte>, off: nat, n: nat): Option<seq<Byte>> {
    if n == 0 then Some([])
    else if off + n <= |file| then Some(file[off..off + n])
    else None
  }

  lemma ReadElsewhere(file: seq<Byte>, off: nat, data: seq<Byte>, at: nat, n: nat)
    requires off + |data| <= at || at + n <= off
    requires ReadAt(file, at, n).Some?
    ensures ReadAt(WriteAt(file, off, data), at, n) == ReadAt(file, at, n)
  {
    if data != [] && n > 0 {
      var r := WriteAt(file, off, data);
      assert |file| <= |r|;
      forall i | at <= i < at + n ensures r[i] == file[i] {
        if i < off {
          assert r[i] == (if off <= |file| then file[..off] else file + seq(off - |file|, _ => 0))[i];
        } else {
          assert r[i] == file[off + |data|..][i - off - |data|];
        }
      }
      assert r[at..at + n] == file[at..at + n];
    }
  }

  /**
   * A write of n bytes at block b spares the m bytes at block c, whatever is written, exactly when it does
   * not reach block c.
   */
  lemma SparesBlock(file: seq<Byte>, b: nat, n: nat, c: nat, m: nat)
    requires b != c && 0 < m <= BLOCK_SIZE && ReadAt(file, c * BLOCK_SIZE, m).Some?
    ensures (forall data :: |data| == n ==> ReadAt(WriteAt(file, b * BLOCK_SIZE, data), c * BLOCK_SIZE, m)
                                            == ReadAt(file, c * BLOCK_SIZE, m))
            <==> (c < b || n <= (c - b) * BLOCK_SIZE)
  {
    var off, at := b * BLOCK_SIZE, c * BLOCK_SIZE;
    if c < b || n <= (c - b) * BLOCK_SIZE {
      forall data: seq<Byte> | |data| == n
        ensures ReadAt(WriteAt(file, off, data), at, m) == ReadAt(file, at, m)
      {
        ReadElsewhere(file, off, data, at, m);
      }
    } else {
      var data: seq<Byte> := seq(n, _ => !file[at]);
      assert WriteAt(file, off, data)[at] == data[at - off] != file[at];
      assert WriteAt(file, off, data)[at..at + m][0] == WriteAt(file, off, data)[at];
      assert file[at..at + m][0] == file[at];
      assert |data| == n && ReadAt(WriteAt(file, off, data), at, m) != ReadAt(file, at, m);
    }
  }
}
