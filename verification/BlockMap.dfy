/** The use map of the small-block files: one bit a block, handed out lowest first. */
module BlockMap {

  const BLOCK_FILE_COUNT: nat := 6
  const BLOCK_USE_MAP_SIZE: nat := 128
  const BLOCKS_PER_FILE: nat := 1024
  const MAP_BYTES: nat := BLOCK_FILE_COUNT * BLOCK_USE_MAP_SIZE
  const BLOCK_COUNT: nat := MAP_BYTES * 8

  function Bit(n: nat): bv8
    requires n < 8
  {
    1 << n
  }

  predicate Has(x: bv8, n: nat)
    requires n < 8
  {
    x & Bit(n) != 0
  }

  function With(x: bv8, n: nat): bv8
    requires n < 8
  {
    x | Bit(n)
  }

  function Minus(x: bv8, n: nat): bv8
    requires n < 8
  {
    x & !Bit(n)
  }

  predicate InUse(use: seq<bv8>, block: nat) {
    block / 8 < |use| && Has(use[block / 8], block % 8)
  }

  lemma SetBit(x: bv8, i: nat, j: nat)
    requires i < 8 && j < 8
    ensures Has(With(x, i), j) <==> i == j || Has(x, j)
  {
  }

  lemma FullByte(x: bv8)
    ensures x == 0xff <==> forall i :: 0 <= i < 8 ==> Has(x, i)
  {
    if forall i :: 0 <= i < 8 ==> Has(x, i) {
      assert Has(x, 0) && Has(x, 1) && Has(x, 2) && Has(x, 3);
      assert Has(x, 4) && Has(x, 5) && Has(x, 6) && Has(x, 7);
    } else {
      var i :| 0 <= i < 8 && !Has(x, i);
      assert Has(0xff, i);
    }
  }

  lemma BlockOf(use: seq<bv8>, at: nat, bit: nat)
    requires at < |use| && bit < 8
    ensures InUse(use, at * 8 + bit) <==> Has(use[at], bit)
  {
  }

  /** Setting one block's bit marks that block and no other. */
  lemma MarkBlock(use: seq<bv8>, idx: nat, bit: nat)
    requires idx < |use| && bit < 8
    ensures forall b :: InUse(use[idx := With(use[idx], bit)], b) <==> b == idx * 8 + bit || InUse(use, b)
  {
    forall b: nat
      ensures InUse(use[idx := With(use[idx], bit)], b) <==> b == idx * 8 + bit || InUse(use, b)
    {
      hide Has, With, Minus;
      SetBit(use[idx], bit, b % 8);
      assert b == b / 8 * 8 + b % 8;
      if b / 8 != idx { assert b != idx * 8 + bit; }
    }
  }

  lemma UnmarkBlock(use: seq<bv8>, idx: nat, bit: nat)
    requires idx < |use| && bit < 8
    ensures forall b :: InUse(use[idx := Minus(use[idx], bit)], b) <==> b != idx * 8 + bit && InUse(use, b)
  {
  }

  /** A map in which only block 0 is set aside. */
  lemma OnlyFirst(use: seq<bv8>)
    requires |use| > 0 && use[0] == 1 && forall i :: 1 <= i < |use| ==> use[i] == 0
    ensures forall b :: InUse(use, b) <==> b == 0
  {
    forall b: nat ensures InUse(use, b) <==> b == 0 {
      if b < 8 { assert Has(1, b) <==> b == 0; } else if b / 8 < |use| { assert !Has(0, b % 8); }
    }
  }

  /** Every block below the given byte is in use. */
  ghost predicate UsedBelow(use: seq<bv8>, n: nat) {
    forall b :: 0 <= b < n ==> InUse(use, b)
  }

  lemma ByteUsed(use: seq<bv8>, idx: nat)
    requires idx < |use| && use[idx] == 0xff && UsedBelow(use, idx * 8)
    ensures UsedBelow(use, (idx + 1) * 8)
  {
  }

  /** The lowest free block, or 0, which is never free, if there is none. */
  ghost predicate Lowest(use: seq<bv8>, block: nat) {
    && (block == 0 <==> UsedBelow(use, BLOCK_COUNT))
    && (block != 0 ==> block < BLOCK_COUNT && !InUse(use, block) && UsedBelow(use, block))
  }

  /** alloc_block: the lowest free block is taken; 0, which is never free, says that there is none. */
  method AllocBlock(use: array<bv8>) returns (block: nat)
    requires use.Length == MAP_BYTES && InUse(use[..], 0)
    modifies use
    ensures Lowest(old(use[..]), block)
    ensures forall b :: InUse(use[..], b) <==> (b == block || old(InUse(use[..], b)))
  {
    hide InUse, Has, With, Minus;
    var bf := 0;
    while bf < BLOCK_FILE_COUNT
      invariant 0 <= bf <= BLOCK_FILE_COUNT
      invariant use[..] == old(use[..]) && UsedBelow(use[..], bf * BLOCK_USE_MAP_SIZE * 8)
    {
      var idx := 0;
      while idx < BLOCK_USE_MAP_SIZE
        invariant 0 <= idx <= BLOCK_USE_MAP_SIZE
        invariant use[..] == old(use[..]) && UsedBelow(use[..], (bf * BLOCK_USE_MAP_SIZE + idx) * 8)
      {
        var at := bf * BLOCK_USE_MAP_SIZE + idx;
        if use[at] != 0xff {
          block := TakeBit(use, at);
          return;
        }
        ByteUsed(use[..], at);
        idx := idx + 1;
      }
      bf := bf + 1;
    }
    block := 0;
  }

  /** The lowest clear bit of a byte that has one. */
  method TakeBit(use: array<bv8>, at: nat) returns (block: nat)
    requires at < use.Length && use[at] != 0xff && UsedBelow(use[..], at * 8)
    modifies use
    ensures at * 8 <= block < at * 8 + 8 && !old(InUse(use[..], block)) && old(UsedBelow(use[..], block))
    ensures forall b :: InUse(use[..], b) <==> (b == block || old(InUse(use[..], b)))
  {
    hide InUse, Has, With, Minus;
    FullByte(use[at]);
    ghost var free :| 0 <= free < 8 && !Has(use[at], free);
    ghost var was := use[..];
    var bit := 0;
    while Has(use[at], bit)
      invariant 0 <= bit <= free && use[..] == was
      invariant UsedBelow(was, at * 8 + bit)
      decreases 8 - bit
    {
      BlockOf(was, at, bit);
      bit := bit + 1;
    }
    BlockOf(was, at, bit);
    MarkBlock(was, at, bit);
    use[at] := With(use[at], bit);
    assert use[..] == was[at := With(was[at], bit)];
    block := at * 8 + bit;
  }

  /** The part of invalidate_element that gives a block back. */
  method FreeBlock(use: array<bv8>, block: nat)
    requires use.Length == MAP_BYTES && block < BLOCK_COUNT
    modifies use
    ensures forall b :: InUse(use[..], b) <==> b != block && old(InUse(use[..], b))
  {
    hide InUse, Has, With, Minus;
    var bf, bi := block / BLOCKS_PER_FILE, block % BLOCKS_PER_FILE;
    var at := bf * BLOCK_USE_MAP_SIZE + bi / 8;
    assert at * 8 + bi % 8 == block;
    ghost var was := use[..];
    UnmarkBlock(was, at, bi % 8);
    use[at] := Minus(use[at], bi % 8);
    ghost var now := was[at := Minus(was[at], bi % 8)];
    assert use[..] == now && forall b :: InUse(now, b) <==> b != block && InUse(was, b);
  }
}
