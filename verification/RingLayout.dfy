/** The layout of a packet mapping: frames in blocks in one region of memory. */
module RingLayout {
  import opened Words
  import opened Bits
  import opened Arithmetic

  /** struct tpacket_req, four 32-bit fields. */
  datatype Layout = Layout(blockSize: u32, blockNr: u32, frameSize: u32, frameNr: u32)

  const NO_LAYOUT := Layout(0, 0, 0, 0)

  /** The supported frame sizes. */
  const ETH_FRAME_LEN := 2048
  const JUMBO_FRAME_LEN := 16384
  const SUPER_JUMBO_FRAME_LEN := 65536

  predicate FrameSizeIsValid(frameSize: nat) {
    frameSize in {ETH_FRAME_LEN, JUMBO_FRAME_LEN, SUPER_JUMBO_FRAME_LEN}
  }

  /** The layout asked for, each field cut to 32 bits: eight frames to a block. */
  function LayoutFor(frameSize: u32, frameNr: nat): Layout {
    Layout(8 * frameSize % U32, frameNr / 8 % U32, frameSize, frameNr % U32)
  }

  /** The arguments ldab_packet_mmap_create goes on with. */
  predicate Accepted(frameSize: u32, frameNr: nat) {
    var l := LayoutFor(frameSize, frameNr);
    PowerOf2(frameSize) && PowerOf2(frameNr) && l.frameNr != 0 && l.blockNr != 0
  }

  /** The length passed to mmap and munmap: a 32-bit product. */
  function MappedLength(l: Layout): u32 {
    l.blockSize * l.blockNr % U32
  }

  /** ... and can get a mapping for: mmap gives no region of length 0. */
  predicate Mappable(frameSize: u32, frameNr: nat) {
    Accepted(frameSize, frameNr) && MappedLength(LayoutFor(frameSize, frameNr)) != 0
  }

  // ---------------------------------------------------------------- powers of two

  lemma {:induction false} Pow2Divides(k: nat, n: nat)
    requires n <= k
    ensures Pow2(k) % Pow2(n) == 0
    decreases k
  {
    if n < k {
      Pow2Divides(k - 1, n);
      var p, q := Pow2(n), Pow2(k - 1) / Pow2(n);
      assert Pow2(k - 1) == q * p;
      Regroup(2, q, p);
      DivMod(2 * q, 0, p);
    } else {
      DivMod(1, 0, Pow2(n));
    }
  }

  lemma Pow2Values()
    ensures Pow2(3) == 8 && Pow2(11) == ETH_FRAME_LEN && Pow2(14) == JUMBO_FRAME_LEN
    ensures Pow2(16) == SUPER_JUMBO_FRAME_LEN && Pow2(32) == U32
  {
    assert Pow2(2) == 4 && Pow2(4) == 16 && Pow2(6) == 64 && Pow2(8) == 256 && Pow2(10) == 1024 && Pow2(12) == 4096;
    Pow2Of32();
  }

  /** The supported frame sizes pass the power-of-two test. */
  lemma SupportedSizesPass(frameSize: nat)
    requires FrameSizeIsValid(frameSize)
    ensures PowerOf2(frameSize)
  {
    Pow2Values();
    Pow2IsPowerOf2(11);
    Pow2IsPowerOf2(14);
    Pow2IsPowerOf2(16);
  }

  lemma {:induction false} StrictlyBelow(k: nat, n: nat)
    requires k < n
    ensures Pow2(k) < Pow2(n)
    decreases n
  {
    if k < n - 1 {
      StrictlyBelow(k, n - 1);
    }
  }

  lemma CountBelow(n: nat) returns (k: nat)
    requires PowerOf2(n) && n % U32 != 0
    ensures k < 32 && n == Pow2(k) < U32
  {
    Pow2Values();
    k := PowerOf2IsPow2(n);
    hide Pow2, PowerOf2;
    if 32 <= k {
      Pow2Divides(k, 32);
      assert false;
    }
    StrictlyBelow(k, 32);
  }

  lemma CountAbove(k: nat)
    requires 8 <= Pow2(k)
    ensures Pow2(k) % 8 == 0
  {
    Pow2Values();
    if 3 <= k {
      Pow2Divides(k, 3);
    } else {
      StrictlyBelow(k, 3);
      assert false;
    }
  }

  /** An accepted frame count is a power of two, at least 8 and below 2^32, so nothing of
      it is cut off and the blocks hold it exactly. */
  lemma AcceptedCounts(frameSize: u32, frameNr: nat) returns (k: nat)
    requires Accepted(frameSize, frameNr)
    ensures frameNr == Pow2(k) && 8 <= frameNr < U32 && frameNr % 8 == 0
    ensures var l := LayoutFor(frameSize, frameNr); l.frameNr == frameNr && 8 * l.blockNr == frameNr
  {
    hide Pow2, PowerOf2;
    k := CountBelow(frameNr);
    CountAbove(k);
  }

  /** Of powers of two, the counts from 8 up to what fits 32 bits are accepted. */
  lemma AcceptedByNumbers(frameSize: u32, frameNr: nat)
    requires PowerOf2(frameSize) && PowerOf2(frameNr)
    ensures Accepted(frameSize, frameNr) <==> 8 <= frameNr < U32
  {
    hide PowerOf2;
    if Accepted(frameSize, frameNr) {
      var k := AcceptedCounts(frameSize, frameNr);
    }
  }

  // ---------------------------------------------------------------- tiling

  /** In 32 bits a power of two is either itself or nothing. */
  lemma Pow2InWord(k: nat)
    ensures Pow2(k) % U32 == if k < 32 then Pow2(k) else 0
    ensures k < 32 <==> Pow2(k) < U32
  {
    Pow2Of32();
    if k < 32 {
      StrictlyBelow(k, 32);
    } else {
      Pow2Divides(k, 32);
      if 32 < k {
        StrictlyBelow(32, k);
      }
    }
  }

  /** The mapping is as long as all its frames together, or of length 0: with powers of two
      the 32-bit product loses either nothing or everything. */
  lemma MappedLengthExactly(frameSize: u32, frameNr: nat)
    requires Accepted(frameSize, frameNr)
    ensures var l := LayoutFor(frameSize, frameNr);
            && MappedLength(l) == (if frameSize * frameNr < U32 then frameSize * frameNr else 0)
            && (frameSize * frameNr < U32 ==> l.blockSize == 8 * frameSize)
  {
    var l := LayoutFor(frameSize, frameNr);
    var k := AcceptedCounts(frameSize, frameNr);
    if frameSize != 0 {
      var i := PowerOf2IsPow2(frameSize);
      hide Pow2, PowerOf2, MappedLength;
      Products(frameSize, i, frameNr, k, l);
    }
  }

  lemma Products(frameSize: u32, i: nat, frameNr: nat, k: nat, l: Layout)
    requires frameSize == Pow2(i) && 8 <= frameNr == Pow2(k) && 8 * l.blockNr == frameNr
    requires l.blockSize == 8 * frameSize % U32
    ensures MappedLength(l) == if frameSize * frameNr < U32 then frameSize * frameNr else 0
    ensures frameSize * frameNr < U32 ==> l.blockSize == 8 * frameSize
  {
    AtLeastEight(k);
    Pow2Sum(i, k);
    EightTimes(i);
    BlockProduct(i, k, l);
    LengthOf(l, l.blockSize * l.blockNr);
    CutProduct(i + 3, i + k, l.blockSize, l.blockSize * l.blockNr, frameSize * frameNr);
    hide Pow2, MappedLength;
  }

  /** The product of the block fields, depending on whether the block size was cut. */
  lemma BlockProduct(i: nat, k: nat, l: Layout)
    requires 3 <= k && 8 * l.blockNr == Pow2(k) && l.blockSize == Pow2(i + 3) % U32
    ensures i + 3 < 32 ==> l.blockSize * l.blockNr == Pow2(i + k)
    ensures 32 <= i + 3 ==> l.blockSize * l.blockNr == 0
  {
    EightTimes(k - 3);
    Pow2Sum(i + 3, k - 3);
    Pow2InWord(i + 3);
    hide Pow2;
    FactorsOf(l.blockSize, l.blockNr, Pow2(i + 3), Pow2(k - 3));
  }

  lemma FactorsOf(x: nat, y: nat, p: nat, q: nat)
    requires y == q
    ensures x == p ==> x * y == p * q
    ensures x == 0 ==> x * y == 0
  {
  }

  lemma CutProduct(e: nat, f: nat, blockSize: nat, product: nat, total: nat)
    requires e <= f && blockSize == Pow2(e) % U32 && total == Pow2(f)
    requires product == if e < 32 then Pow2(f) else 0
    ensures product % U32 == if total < U32 then total else 0
    ensures total < U32 ==> blockSize == Pow2(e)
  {
    Pow2InWord(e);
    Pow2InWord(f);
    hide Pow2;
  }

  lemma EightTimes(k: nat)
    ensures 8 * Pow2(k) == Pow2(k + 3)
  {
    assert Pow2(k + 1) == 2 * Pow2(k) && Pow2(k + 2) == 2 * Pow2(k + 1);
  }

  lemma LengthOf(l: Layout, product: nat)
    requires l.blockSize * l.blockNr == product
    ensures MappedLength(l) == product % U32
  {
  }

  lemma AtLeastEight(k: nat)
    requires 8 <= Pow2(k)
    ensures 3 <= k
  {
    if k < 3 {
      assert Pow2(3) == 8;
      StrictlyBelow(k, 3);
    }
  }

  /** The arguments a mapping can be had for: a size and a count that are powers of two, at
      least eight frames, and all of them together below 2^32 bytes. */
  lemma MappableExactly(frameSize: u32, frameNr: nat)
    ensures Mappable(frameSize, frameNr) <==>
            0 < frameSize && PowerOf2(frameSize) && PowerOf2(frameNr) && 8 <= frameNr && frameSize * frameNr < U32
  {
    hide PowerOf2, MappedLength;
    if Accepted(frameSize, frameNr) {
      var k := AcceptedCounts(frameSize, frameNr);
      MappedLengthExactly(frameSize, frameNr);
      MulNonNegative(frameSize, frameNr);
      NotZero(frameSize, frameNr);
    } else if 0 < frameSize && 8 <= frameNr && frameSize * frameNr < U32 {
      MulOrder(frameNr, 1, frameSize);
      assert frameNr < U32;
    }
  }

  lemma NotZero(x: nat, y: nat)
    requires 0 < y
    ensures x * y == 0 <==> x == 0
  {
  }

  /** Frame a of the I/O vector covers this part of the mapping. */
  predicate InFrame(frameSize: nat, a: nat, offset: nat) {
    a * frameSize <= offset < a * frameSize + frameSize
  }

  /** Frames tile the mapping: every byte of frameNr frames is in exactly one of them, and
      none sticks out. */
  lemma FramesTile(frameSize: nat, frameNr: nat, offset: nat, a: nat)
    requires 0 < frameSize
    ensures offset < frameSize * frameNr <==> exists b: nat :: b < frameNr && InFrame(frameSize, b, offset)
    ensures InFrame(frameSize, a, offset) <==> a == offset / frameSize
  {
    var q := offset / frameSize;
    assert offset == q * frameSize + offset % frameSize;
    assert InFrame(frameSize, q, offset);
    forall b: nat | InFrame(frameSize, b, offset)
      ensures b == q && (b < frameNr <==> offset < frameSize * frameNr)
    {
      DivMod(b, offset - b * frameSize, frameSize);
      FrameBelow(frameSize, frameNr, b, offset);
    }
  }

  lemma FrameBelow(frameSize: nat, frameNr: nat, a: nat, offset: nat)
    requires 0 < frameSize && InFrame(frameSize, a, offset)
    ensures a < frameNr <==> offset < frameSize * frameNr
  {
    MulOrder(frameSize, a, frameNr);
    MulOrder(frameSize, frameNr, a);
    assert frameSize * a == a * frameSize;
  }

  /** No frame lies across two blocks of eight frames. */
  lemma FrameInOneBlock(frameSize: nat, a: nat, offset: nat)
    requires 0 < frameSize && InFrame(frameSize, a, offset)
    ensures offset / (8 * frameSize) == a / 8
  {
    var b, j := a / 8, a % 8;
    PlaceInBlock(frameSize, a, b, j);
    DivMod(b, j * frameSize + (offset - a * frameSize), 8 * frameSize);
  }

  lemma PlaceInBlock(frameSize: nat, a: nat, b: nat, j: nat)
    requires 0 < frameSize && a == 8 * b + j && j < 8
    ensures a * frameSize == b * (8 * frameSize) + j * frameSize
    ensures 0 <= j * frameSize <= 7 * frameSize
  {
    Distribute(frameSize, 8 * b, j);
    Regroup(frameSize, 8, b);
    MulOrder(frameSize, j, 7);
    MulNonNegative(j, frameSize);
  }
}
