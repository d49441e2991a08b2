/**
 * Bit strings and bytes: how the encoder packs eight code characters into one byte
 * (most significant bit first) and how the decoder expands a byte back into eight.
 */
module Bits {
  import opened Common

  function Pow2(n: nat): (r: nat)
    ensures r >= 1
  {
    if n == 0 then 1 else 2 * Pow2(n - 1)
  }

  function BitChar(one: bool): char {
    if one then '1' else '0'
  }

  /**
   * The value of a bit string read most significant bit first: the character at index i
   * weighs 2^(|x|-1-i). Any character other than '1' counts as a zero bit.
   */
  function BitsValue(x: string): (v: nat)
    ensures v < Pow2(|x|)
  {
    if x == [] then 0 else (if x[0] == '1' then Pow2(|x| - 1) else 0) + BitsValue(x[1..])
  }

  /** The n-bit binary string of v, most significant bit first (v taken modulo 2^n). */
  function ToBits(v: nat, n: nat): (r: string)
    ensures |r| == n && IsBits(r)
  {
    if n == 0 then [] else ToBits(v / 2, n - 1) + [BitChar(v % 2 == 1)]
  }

  /** The eight-character binary string of a byte, most significant bit first. */
  function ByteBits(b: Byte): (r: string)
    ensures |r| == 8 && IsBits(r)
  {
    ToBits(b, 8)
  }

  function Reverse(s: string): (r: string)
    ensures |r| == |s|
    ensures forall k :: 0 <= k < |s| ==> r[k] == s[|s| - 1 - k]
  {
    if s == [] then [] else Reverse(s[1..]) + [s[0]]
  }

  /** The bits of a byte stream, byte after byte. */
  function Unpack(bytes: seq<Byte>): (r: string)
    ensures |r| == 8 * |bytes|
  {
    if bytes == [] then [] else Unpack(bytes[..|bytes| - 1]) + ByteBits(bytes[|bytes| - 1])
  }

  /** The bytes whose bits are x, eight bits to a byte. */
  function Pack(x: string): (r: seq<Byte>)
    requires |x| % 8 == 0
    ensures |r| == |x| / 8
  {
    if x == [] then [] else Pack(x[..|x| - 8]) + [BitsValue(x[|x| - 8..])]
  }

  /** Halving twice in a row divides by the product. */
  lemma DivDiv(v: nat, m: nat)
    requires m > 0
    ensures (v / 2) / m == v / (2 * m)
  {
    var q, r := v / 2, v % 2;
    var a, t := q / m, q % m;
    assert v == (2 * m) * a + (2 * t + r);
    assert 0 <= 2 * t + r < 2 * m;
    var d := v / (2 * m);
    var e := v % (2 * m);
    assert (2 * m) * (a - d) == e - (2 * t + r);
    assert a - d >= 1 ==> (2 * m) * (a - d) >= 2 * m;
    assert a - d <= -1 ==> (2 * m) * (d - a) >= 2 * m;
  }

  /** Bit k of ToBits(v, n), counted from the most significant end, is bit n-1-k of v. */
  lemma {:induction false} ToBitsAt(v: nat, n: nat, k: nat)
    requires k < n
    ensures ToBits(v, n)[k] == BitChar((v / Pow2(n - 1 - k)) % 2 == 1)
    decreases n
  {
    if k < n - 1 {
      ToBitsAt(v / 2, n - 1, k);
      DivDiv(v, Pow2(n - 2 - k));
    }
  }

  /** Appending one bit doubles the value and adds the bit. */
  lemma {:induction false} BitsValueSnoc(x: string, c: char)
    ensures BitsValue(x + [c]) == 2 * BitsValue(x) + (if c == '1' then 1 else 0)
    decreases |x|
  {
    if x != [] {
      assert (x + [c])[1..] == x[1..] + [c];
      BitsValueSnoc(x[1..], c);
    }
  }

  /** Reading back the n-bit string of v < 2^n gives v. */
  lemma {:induction false} ValueOfToBits(v: nat, n: nat)
    requires v < Pow2(n)
    ensures BitsValue(ToBits(v, n)) == v
    decreases n
  {
    if n > 0 {
      ValueOfToBits(v / 2, n - 1);
      BitsValueSnoc(ToBits(v / 2, n - 1), BitChar(v % 2 == 1));
    }
  }

  /** Writing out the value of a bit string in |x| bits gives the string back. */
  lemma {:induction false} ToBitsOfValue(x: string)
    requires IsBits(x)
    ensures ToBits(BitsValue(x), |x|) == x
    decreases |x|
  {
    if x != [] {
      var y, c := x[..|x| - 1], x[|x| - 1];
      assert x == y + [c];
      ToBitsOfValue(y);
      BitsValueSnoc(y, c);
    }
  }

  /** Expanding a byte and packing the result gives the byte back. */
  lemma ByteRoundTrip(b: Byte)
    ensures BitsValue(ByteBits(b)) == b
  {
    assert Pow2(8) == 256;
    ValueOfToBits(b, 8);
  }

  /** Packing an eight-bit string and expanding the byte gives the string back. */
  lemma BitsRoundTrip(x: string)
    requires |x| == 8 && IsBits(x)
    ensures BitsValue(x) < 256
    ensures ByteBits(BitsValue(x)) == x
  {
    assert Pow2(8) == 256;
    ToBitsOfValue(x);
  }

  /** Both parts of a bit string are bit strings. */
  lemma SliceBits(x: string, k: nat)
    requires IsBits(x) && k <= |x|
    ensures IsBits(x[..k]) && IsBits(x[k..])
  {
    assert forall i :: 0 <= i < |x| - k ==> x[k..][i] == x[k + i];
  }

  /** Packing eight more bits appends one byte. */
  lemma PackSnoc(x: string, y: string)
    requires |x| % 8 == 0 && |y| == 8
    ensures Pack(x + y) == Pack(x) + [BitsValue(y)]
  {
    var xy := x + y;
    assert xy[..|xy| - 8] == x && xy[|xy| - 8..] == y;
  }

  /** Unpacking the packing of a whole number of bytes gives the bits back. */
  lemma {:induction false} UnpackPack(x: string)
    requires |x| % 8 == 0 && IsBits(x)
    ensures Unpack(Pack(x)) == x
    decreases |x|
  {
    if x != [] {
      var front, last := x[..|x| - 8], x[|x| - 8..];
      assert x == front + last;
      SliceBits(x, |x| - 8);
      BitsRoundTrip(last);
      PackSnoc(front, last);
      UnpackSnoc(Pack(front), BitsValue(last));
      UnpackPack(front);
    }
  }

  /** Packing the bits of a byte stream gives the stream back. */
  lemma {:induction false} PackUnpack(bytes: seq<Byte>)
    ensures Pack(Unpack(bytes)) == bytes
    decreases |bytes|
  {
    if bytes != [] {
      var front := bytes[..|bytes| - 1];
      PackUnpack(front);
      var x := Unpack(bytes);
      assert x[..|x| - 8] == Unpack(front);
      assert x[|x| - 8..] == ByteBits(bytes[|bytes| - 1]);
      ByteRoundTrip(bytes[|bytes| - 1]);
    }
  }

  /** Appending a byte appends its eight bits. */
  lemma UnpackSnoc(bytes: seq<Byte>, b: Byte)
    ensures Unpack(bytes + [b]) == Unpack(bytes) + ByteBits(b)
  {
    assert (bytes + [b])[..|bytes|] == bytes;
  }

  /**
   * The byte the encoder flushes (huffman.cpp:33-38): bit i of the buffer, counted from 0,
   * adds 2^(7-i) when it is '1'.
   */
  method PackByte(buffer: string) returns (b: Byte)
    requires |buffer| >= 8
    ensures b == BitsValue(buffer[..8])
    ensures IsBits(buffer[..8]) ==> ByteBits(b) == buffer[..8]
  {
    var x := buffer[..8];
    var acc := 0;
    for i := 0 to 8
      invariant acc + BitsValue(x[i..]) == BitsValue(x)
    {
      assert x[i..][1..] == x[i + 1..];
      if buffer[i] == '1' {
        acc := acc + Pow2(7 - i);
      }
    }
    assert x[8..] == [];
    assert Pow2(8) == 256;
    b := acc;
    if IsBits(x) {
      BitsRoundTrip(x);
    }
  }

  /**
   * The decoder's expansion of one byte (huffman.cpp:62-74): bit i, taken least significant
   * first, then the whole string reversed so that the most significant bit comes first.
   */
  method ExpandByte(b: Byte) returns (bits: string)
    ensures bits == ByteBits(b)
    ensures BitsValue(bits) == b
  {
    var lsbFirst := "";
    for i := 0 to 8
      invariant |lsbFirst| == i
      invariant forall k :: 0 <= k < i ==> lsbFirst[k] == BitChar((b / Pow2(k)) % 2 == 1)
    {
      lsbFirst := lsbFirst + [BitChar((b / Pow2(i)) % 2 == 1)];
    }
    bits := Reverse(lsbFirst);
    forall k | 0 <= k < 8 ensures bits[k] == ByteBits(b)[k] {
      ToBitsAt(b, 8, k);
    }
    ByteRoundTrip(b);
  }
}
