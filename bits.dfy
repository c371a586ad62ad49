/** Bit strings and their packing into bytes: `binary_to_decimal`
    (huffmanCompress.cpp:515-521), `std::bitset<8>(byte).to_string()`, the
    zero padding and the MSB-first byte split of the payload, and the 4-byte
    little-endian length field. A bit string is a `std::string` of '0' and '1'
    characters in the source and a `seq<char>` here. */
module Bits {
  import opened Bytes

  function Pow2(n: nat): (p: nat)
    ensures p >= 1
  {
    if n == 0 then 1 else 2 * Pow2(n - 1)
  }

  predicate IsBits(s: seq<char>)
  {
    forall i :: 0 <= i < |s| ==> s[i] == '0' || s[i] == '1'
  }

  /** `binary_to_decimal`: a left fold `result * 2 + (c - '0')`. */
  function BinaryToDecimal(s: seq<char>): (r: int)
    ensures IsBits(s) ==> 0 <= r < Pow2(|s|)
    decreases |s|
  {
    if s == [] then 0
    else 2 * BinaryToDecimal(s[..|s| - 1]) + ((s[|s| - 1] as int) - ('0' as int))
  }

  /** The low `n` bits of `v`, most significant first: for `n == 8` this is
      `std::bitset<8>(v).to_string()`. */
  function ToBits(n: nat, v: nat): (s: seq<char>)
    ensures |s| == n
  {
    if n == 0 then [] else ToBits(n - 1, v / 2) + [if v % 2 == 0 then '0' else '1']
  }

  /** Reading a bit string as a number and printing it back with as many
      digits gives the bit string again. */
  lemma {:induction false} ToBitsOfBinary(s: seq<char>)
    requires IsBits(s)
    ensures ToBits(|s|, BinaryToDecimal(s)) == s
    decreases |s|
  {
    if s != [] {
      var init := s[..|s| - 1];
      ToBitsOfBinary(init);
      assert s == init + [s[|s| - 1]];
    }
  }

  /** Printing a number below 2^n in n digits and reading it back gives the
      number again. */
  lemma {:induction false} BinaryOfToBits(n: nat, v: nat)
    requires v < Pow2(n)
    ensures BinaryToDecimal(ToBits(n, v)) == v
    decreases n
  {
    if n > 0 {
      var s := ToBits(n, v);
      assert s[..|s| - 1] == ToBits(n - 1, v / 2);
      BinaryOfToBits(n - 1, v / 2);
    }
  }

  /** `padding = (8 - n % 8) % 8`: the number of zero bits that makes `n`
      bits a whole number of bytes. */
  function Padding(n: nat): (p: nat)
    ensures p < 8 && (n + p) % 8 == 0
    ensures n % 8 == 0 <==> p == 0
  {
    (8 - n % 8) % 8
  }

  function Zeros(k: nat): (s: seq<char>)
    ensures |s| == k && IsBits(s)
    ensures forall i :: 0 <= i < k ==> s[i] == '0'
  {
    seq(k, i => '0')
  }

  /** The payload loop: each 8-character chunk becomes one byte via
      `binary_to_decimal`. */
  function Pack(bits: seq<char>): (r: seq<byte>)
    requires IsBits(bits) && |bits| % 8 == 0
    ensures |r| * 8 == |bits|
    decreases |bits|
  {
    if bits == [] then []
    else [BinaryToDecimal(bits[..8]) as byte] + Pack(bits[8..])
  }

  /** The reader's loop: each byte becomes its eight bits. */
  function Unpack(bytes: seq<byte>): (r: seq<char>)
    ensures |r| == 8 * |bytes|
  {
    if bytes == [] then [] else ToBits(8, bytes[0] as nat) + Unpack(bytes[1..])
  }

  lemma {:induction false} UnpackAppend(a: seq<byte>, b: seq<byte>)
    ensures Unpack(a + b) == Unpack(a) + Unpack(b)
    decreases |a|
  {
    if a == [] {
      assert a + b == b;
    } else {
      assert (a + b)[0] == a[0] && (a + b)[1..] == a[1..] + b;
      UnpackAppend(a[1..], b);
    }
  }

  /** Unpacking the packed bytes gives back the bit string. */
  lemma {:induction false} UnpackPack(bits: seq<char>)
    requires IsBits(bits) && |bits| % 8 == 0
    ensures Unpack(Pack(bits)) == bits
    decreases |bits|
  {
    if bits != [] {
      var chunk := bits[..8];
      ToBitsOfBinary(chunk);
      UnpackPack(bits[8..]);
      assert bits == chunk + bits[8..];
    }
  }

  /** The padded payload: `padding` zero bits, then the code bits, split
      into bytes. It has exactly ceil(n / 8) bytes. */
  function PackPadded(bits: seq<char>): (r: seq<byte>)
    requires IsBits(bits)
    ensures |r| == (|bits| + 7) / 8
  {
    Pack(Zeros(Padding(|bits|)) + bits)
  }

  /** Unpacking the padded payload gives the zero padding, then the bits. */
  lemma PackPaddedUnpacks(bits: seq<char>)
    requires IsBits(bits)
    ensures Unpack(PackPadded(bits)) == Zeros(Padding(|bits|)) + bits
  {
    UnpackPack(Zeros(Padding(|bits|)) + bits);
  }

  /** `v >> 8`. */
  function Shr8(v: nat): nat
  {
    v / 0x100
  }

  /** The four bytes `(char)(v >> (i * 8))`, i = 0..3, of a `uint32_t`. */
  function LittleEndian32(v: nat): (r: seq<byte>)
    ensures |r| == 4
  {
    [Truncate(v), Truncate(Shr8(v)), Truncate(Shr8(Shr8(v))), Truncate(Shr8(Shr8(Shr8(v))))]
  }

  /** The reader's `value |= (uint32_t(b[i]) & 0xFF) << (i * 8)`. */
  function FromLittleEndian32(b: seq<byte>): (v: nat)
    requires |b| == 4
    ensures v < 0x1_0000_0000
  {
    b[0] as nat + 0x100 * b[1] as nat + 0x1_0000 * b[2] as nat + 0x100_0000 * b[3] as nat
  }

  /** A value is its part above the low byte, shifted back, plus the low byte. */
  lemma Split8(v: nat)
    ensures v == Shr8(v) * 0x100 + v % 0x100
  {
  }

  /** Reducing modulo 2^32 drops whole multiples of 2^32. */
  lemma ModOfSplit(q: nat, r: nat)
    requires r < 0x1_0000_0000
    ensures (q * 0x1_0000_0000 + r) % 0x1_0000_0000 == r
  {
  }

  /** The length field reads back as the value written, reduced to 32 bits. */
  lemma LittleEndian32RoundTrip(v: nat)
    ensures FromLittleEndian32(LittleEndian32(v)) == v % 0x1_0000_0000
  {
    var w1 := Shr8(v);
    var w2 := Shr8(w1);
    var w3 := Shr8(w2);
    Split8(v);
    Split8(w1);
    Split8(w2);
    Split8(w3);
    var low := w3 % 0x100 * 0x100_0000 + w2 % 0x100 * 0x1_0000 + w1 % 0x100 * 0x100 + v % 0x100;
    assert v == Shr8(w3) * 0x1_0000_0000 + low;
    ModOfSplit(Shr8(w3), low);
  }
}
