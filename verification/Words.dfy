/** Bytes, machine words and their byte orders.

    Words are unbounded integers confined to a machine range by a subset type. The
    file formats below are written in the order of the machine that runs the daemon;
    the model fixes that order to least significant byte first. */
module Words {

  type byte = x: int | 0 <= x < 0x100
  type u8 = x: int | 0 <= x < 0x100
  type u16 = x: int | 0 <= x < 0x1_0000
  type u32 = x: int | 0 <= x < 0x1_0000_0000

  const U16 := 0x1_0000
  const U32 := 0x1_0000_0000
  const U64 := 0x1_0000_0000_0000_0000

  function Min(x: int, y: int): int {
    if x < y then x else y
  }

  /** The number of values that fit n bytes. */
  function Base(n: nat): (b: nat)
    ensures 1 <= b
  {
    if n == 0 then 1 else 0x100 * Base(n - 1)
  }

  lemma BaseValues()
    ensures Base(2) == U16 && Base(4) == U32
  {
    assert Base(1) == 0x100;
    assert Base(3) == 0x100 * Base(2);
  }

  function Encode(x: nat, n: nat): (s: seq<byte>)
    requires x < Base(n)
    ensures |s| == n
  {
    if n == 0 then [] else [x % 0x100] + Encode(x / 0x100, n - 1)
  }

  function Decode(s: seq<byte>): (x: nat)
    ensures x < Base(|s|)
  {
    if s == [] then 0 else s[0] + 0x100 * Decode(s[1..])
  }

  lemma {:induction false} DecodeOfEncode(x: nat, n: nat)
    requires x < Base(n)
    ensures Decode(Encode(x, n)) == x
  {
    if n != 0 {
      DecodeOfEncode(x / 0x100, n - 1);
      assert Encode(x, n)[1..] == Encode(x / 0x100, n - 1);
    }
  }

  lemma {:induction false} EncodeOfDecode(s: seq<byte>)
    ensures Encode(Decode(s), |s|) == s
  {
    if s != [] {
      EncodeOfDecode(s[1..]);
      assert Decode(s) % 0x100 == s[0] && Decode(s) / 0x100 == Decode(s[1..]);
    }
  }

  function Encode16(x: u16): (s: seq<byte>)
    ensures |s| == 2
  {
    BaseValues();
    Encode(x, 2)
  }

  function Encode32(x: u32): (s: seq<byte>)
    ensures |s| == 4
  {
    BaseValues();
    Encode(x, 4)
  }

  function Decode16(s: seq<byte>): (x: u16)
    requires |s| == 2
  {
    BaseValues();
    Decode(s)
  }

  function Decode32(s: seq<byte>): (x: u32)
    requires |s| == 4
  {
    BaseValues();
    Decode(s)
  }

  lemma RoundTrip16(x: u16)
    ensures Decode16(Encode16(x)) == x
  {
    BaseValues();
    DecodeOfEncode(x, 2);
  }

  lemma RoundTrip32(x: u32)
    ensures Decode32(Encode32(x)) == x
  {
    BaseValues();
    DecodeOfEncode(x, 4);
  }

  lemma EncodeOfDecode32(s: seq<byte>)
    requires |s| == 4
    ensures Encode32(Decode32(s)) == s
  {
    BaseValues();
    EncodeOfDecode(s);
  }

  /** The least significant byte comes first. */
  lemma EncodeBytes(x: u16, y: u32)
    ensures Encode16(x) == [x % 0x100, x / 0x100]
    ensures Encode32(y) == [y % 0x100, y / 0x100 % 0x100, y / 0x1_0000 % 0x100, y / 0x100_0000]
  {
    BaseValues();
    EncodeTwo(x);
    EncodeTwo(y % 0x1_0000);
    EncodeTwo(y / 0x1_0000);
    assert Encode(y, 4) == [y % 0x100] + ([y / 0x100 % 0x100] + Encode(y / 0x100 / 0x100, 2));
  }

  lemma EncodeTwo(x: u16)
    ensures x < Base(2) && Encode(x, 2) == [x % 0x100, x / 0x100]
  {
    BaseValues();
    assert Base(1) == 0x100;
    assert Encode(x / 0x100, 1) == [x / 0x100];
  }

  lemma DecodeBytes(a: byte, b: byte, c: byte, d: byte)
    ensures Decode16([a, b]) == a + 0x100 * b
    ensures Decode32([a, b, c, d]) == a + 0x100 * b + 0x1_0000 * c + 0x100_0000 * d
  {
    assert [a, b, c, d][1..] == [b, c, d] && [b, c, d][1..] == [c, d] && [c, d][1..] == [d] && [a, b][1..] == [b];
    assert Decode([d]) == d && Decode([b]) == b;
    assert Decode([c, d]) == c + 0x100 * d;
    assert Decode([b, c, d]) == b + 0x100 * Decode([c, d]);
    assert Decode([a, b, c, d]) == a + 0x100 * Decode([b, c, d]);
  }

  /** bswap_16 and bswap_32: the word whose bytes are those of x, last one first. */
  function Reversed(s: seq<byte>): (r: seq<byte>)
    ensures |r| == |s|
    ensures forall k :: 0 <= k < |s| ==> r[k] == s[|s| - 1 - k]
  {
    if s == [] then [] else Reversed(s[1..]) + [s[0]]
  }

  function Swap16(x: u16): u16 {
    Decode16(Reversed(Encode16(x)))
  }

  function Swap32(x: u32): u32 {
    Decode32(Reversed(Encode32(x)))
  }

  /** Swapping exchanges the first byte with the last one and the inner two. */
  lemma SwapBytes(a: byte, b: byte, c: byte, d: byte)
    ensures Swap16(a + 0x100 * b) == b + 0x100 * a
    ensures Swap32(a + 0x100 * b + 0x1_0000 * c + 0x100_0000 * d) == d + 0x100 * c + 0x1_0000 * b + 0x100_0000 * a
  {
    DecodeBytes(a, b, c, d);
    DecodeBytes(d, c, b, a);
    DecodeBytes(b, a, 0, 0);
    BaseValues();
    EncodeOfDecode([a, b]);
    EncodeOfDecode([a, b, c, d]);
    hide Encode, Decode;
    assert Reversed([a, b]) == [b, a] && Reversed([a, b, c, d]) == [d, c, b, a];
  }

  lemma Swap16Involutive(x: u16)
    ensures Swap16(Swap16(x)) == x
  {
    var r := Reversed(Encode16(x));
    BaseValues();
    EncodeOfDecode(r);
    assert Reversed(r) == Encode16(x);
    RoundTrip16(x);
  }

  lemma Swap32Involutive(x: u32)
    ensures Swap32(Swap32(x)) == x
  {
    var r := Reversed(Encode32(x));
    BaseValues();
    EncodeOfDecode(r);
    assert Reversed(r) == Encode32(x);
    RoundTrip32(x);
  }
}
