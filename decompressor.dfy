/** The reading side of huffmanCompress.cpp as the source writes it, loop by
    loop: the symbol table, the four-byte count, the payload bytes, the
    stripping of the padding and the greedy decoding of
    `decompressFileUtil`, and `binary_to_decimal`. Each method is proved to
    compute the reader functions of `Format`. */
module Decompressor {
  import opened Bytes
  import opened Bits
  import opened Huffman
  import opened Format

  /** `binary_to_decimal`: `result = result * 2 + in[i] - '0'` over the
      string. */
  method BinaryToDecimalLoop(s: seq<char>) returns (result: int)
    ensures result == BinaryToDecimal(s)
    ensures IsBits(s) ==> 0 <= result < Pow2(|s|)
  {
    result := 0;
    for i := 0 to |s|
      invariant result == BinaryToDecimal(s[..i])
    {
      assert s[..i + 1][..i] == s[..i];
      result := result * 2 + (s[i] as int) - ('0' as int);
    }
    assert s[..|s|] == s;
  }

  /** The decoding loops of `decompressFileUtil`: the inner loop grows
      `code` bit by bit until it is a key of `table`, then emits its
      symbol; when the bits run out without a match, the outer loop stops
      (after checking `binary_to_decimal(code) == 0`, which can only end
      a loop that is ending anyway). */
  method DecodeGreedy(bits: seq<char>, table: map<seq<char>, byte>) returns (out: seq<byte>)
    ensures out == Decode(bits, table)
  {
    out := [];
    var i := 0;
    while i < |bits|
      invariant i <= |bits|
      invariant out + Decode(bits[i..], table) == Decode(bits, table)
      decreases |bits| - i
    {
      var start := i;
      var code: seq<char> := [];
      var found := false;
      while i < |bits|
        invariant start <= i <= |bits|
        invariant code == bits[start..i]
        invariant FirstMatch(bits[start..], table, 1) == FirstMatch(bits[start..], table, i - start + 1)
        decreases |bits| - i
      {
        code := code + [bits[i]];
        i := i + 1;
        assert code == bits[start..i];
        assert bits[start..][..i - start] == code;
        if code in table {
          DecodeMatch(bits, start, i, table);
          out := out + [table[code]];
          found := true;
          break;
        }
      }
      if !found {
        DecodeNoMatch(bits, start, table);
        assert bits[i..] == [];
        var value := BinaryToDecimalLoop(code);
        if value == 0 {
          break;
        }
      }
    }
    assert bits[|bits|..] == [];
  }

  /** A match of the bits from `start` to `i` emits its symbol and goes on
      from `i`. */
  lemma {:induction false} DecodeMatch(bits: seq<char>, start: nat, i: nat, table: map<seq<char>, byte>)
    requires start < i <= |bits|
    requires FirstMatch(bits[start..], table, 1) == FirstMatch(bits[start..], table, i - start)
    requires bits[start..i] in table
    ensures Decode(bits[start..], table) == [table[bits[start..i]]] + Decode(bits[i..], table)
  {
    var rest := bits[start..];
    assert rest[..i - start] == bits[start..i];
    assert rest[i - start..] == bits[i..];
  }

  /** Bits that contain no code decode to nothing. */
  lemma {:induction false} DecodeNoMatch(bits: seq<char>, start: nat, table: map<seq<char>, byte>)
    requires start <= |bits|
    requires FirstMatch(bits[start..], table, 1) == FirstMatch(bits[start..], table, |bits| - start + 1)
    ensures Decode(bits[start..], table) == []
  {
  }

  /** Reading `len` bytes from `p` gives the bytes read one by one. */
  lemma {:induction false} ReadOfAt(buf: seq<byte>, p: nat, len: nat, got: seq<byte>)
    requires 1 <= len && |got| == len
    requires forall k :: 0 <= k < len ==> At(buf, p + k) == Some(got[k])
    ensures Read(buf, p, len) == Some(got)
  {
    assert At(buf, p + (len - 1)) == Some(got[len - 1]);
    var r := Read(buf, p, len).value;
    forall k | 0 <= k < len
      ensures r[k] == got[k]
    {
      assert At(buf, p + k) == Some(got[k]);
    }
    assert r == got;
  }

  /** A byte that cannot be read makes the whole read fail. */
  lemma {:induction false} ReadGap(buf: seq<byte>, p: nat, len: nat, k: nat)
    requires k < len && At(buf, p + k).None?
    ensures Read(buf, p, len) == None
  {
  }

  /** The table loop of `decompressFileUtil`: for each of the `n` entries,
      read the symbol and the signed code length, take the code with
      `substr` and record `CodeWithChar[code] = ch`. */
  method ReadTable(buf: seq<byte>, start: nat, n: nat) returns (r: Option<TableRead>)
    ensures r == ParseTable(buf, start, n, map[])
  {
    var codes: map<seq<char>, byte> := map[];
    var p: nat := start;
    for i := 0 to n
      invariant ParseTable(buf, p, n - i, codes) == ParseTable(buf, start, n, map[])
    {
      var ok, ch, code, next := ReadEntry(buf, p, n - i, codes);
      if !ok {
        return None;
      }
      codes := codes[code := ch];
      p := next;
    }
    r := Some(TableRead(codes, p));
  }

  /** One pass of the table loop from `p`: the symbol, the code and the
      position after them, or `ok == false` where the source throws or
      meets a negative length. */
  method ReadEntry(buf: seq<byte>, p: nat, ghost k: nat, ghost codes: map<seq<char>, byte>)
    returns (ok: bool, ch: byte, code: seq<char>, next: nat)
    requires k > 0
    ensures ok ==> ParseTable(buf, p, k, codes) == ParseTable(buf, next, k - 1, codes[code := ch])
    ensures !ok ==> ParseTable(buf, p, k, codes) == None
  {
    var sym := At(buf, p);
    var size := At(buf, p + 1);
    if sym.None? || size.None? {
      ReadGap(buf, p, 2, if sym.None? then 0 else 1);
      return false, 0, [], p;
    }
    ReadOfAt(buf, p, 2, [sym.value, size.value]);
    var len := SignedChar(size.value);
    if len < 0 || p + 2 > |buf| {
      return false, 0, [], p;
    }
    code := AsChars(buf[p + 2..Min(p + 2 + len, |buf|)]);
    TableEntry(buf, p, k, codes, sym.value, size.value);
    ok, ch, next := true, sym.value, p + 2 + len;
  }

  /** One entry of the table loop, when its two bytes can be read, its
      length is not negative and `substr` does not throw. */
  lemma {:induction false} TableEntry(buf: seq<byte>, p: nat, k: nat, codes: map<seq<char>, byte>, ch: byte, size: byte)
    requires k > 0 && Read(buf, p, 2) == Some([ch, size])
    requires SignedChar(size) >= 0 && p + 2 <= |buf|
    ensures var len := SignedChar(size);
            ParseTable(buf, p, k, codes)
              == ParseTable(buf, p + 2 + len, k - 1, codes[AsChars(buf[p + 2..Min(p + 2 + len, |buf|)]) := ch])
  {
  }

  /** `x << (i * 8)` is `x` times this weight. */
  function ByteWeight(i: nat): nat
  {
    if i == 0 then 1 else 0x100 * ByteWeight(i - 1)
  }

  /** The value of little-endian bytes; on bytes the `|` of the shifted
      bytes is their sum, as no two of them share a bit. */
  function LittleEndianValue(b: seq<byte>): nat
  {
    if b == [] then 0 else LittleEndianValue(b[..|b| - 1]) + (b[|b| - 1] as nat) * ByteWeight(|b| - 1)
  }

  /** Four little-endian bytes have the value the reader's formula gives. */
  lemma {:induction false} LittleEndianValueOf4(b: seq<byte>)
    requires |b| == 4
    ensures LittleEndianValue(b) == FromLittleEndian32(b)
  {
    assert ByteWeight(1) == 0x100;
    assert ByteWeight(2) == 0x1_0000;
    assert ByteWeight(3) == 0x100_0000;
    var b1, b2, b3 := b[..1], b[..2], b[..3];
    assert b1[..0] == [] && b2[..1] == b1 && b3[..2] == b2 && b[..3] == b3;
    assert LittleEndianValue(b1) == b[0] as nat;
    assert LittleEndianValue(b2) == LittleEndianValue(b1) + (b[1] as nat) * 0x100;
    assert LittleEndianValue(b3) == LittleEndianValue(b2) + (b[2] as nat) * 0x1_0000;
  }

  /** The count loop: `encoded_data_size |= (byte & 0xFF) << (i * 8)` for
      the four bytes from `p`. */
  method ReadCount(buf: seq<byte>, p: nat) returns (r: Option<nat>)
    ensures r.Some? <==> Read(buf, p, 4).Some?
    ensures r.Some? ==> r.value == FromLittleEndian32(Read(buf, p, 4).value)
  {
    var value := 0;
    ghost var got: seq<byte> := [];
    for i := 0 to 4
      invariant |got| == i && forall k :: 0 <= k < i ==> At(buf, p + k) == Some(got[k])
      invariant value == LittleEndianValue(got)
    {
      var b := At(buf, p + i);
      if b.None? {
        ReadGap(buf, p, 4, i);
        return None;
      }
      assert (got + [b.value])[..i] == got;
      got := got + [b.value];
      value := value + (b.value as nat) * ByteWeight(i);
    }
    ReadOfAt(buf, p, 4, got);
    LittleEndianValueOf4(got);
    r := Some(value);
  }

  /** Rounding up to a multiple of 8 and dividing by 8 divides by 8. */
  lemma {:induction false} RoundedBytes(x: nat)
    ensures x / 8 * 8 / 8 == x / 8
  {
  }

  /** The bytes `compressedData[q]` up to `compressedData[q + len - 1]`,
      unpacked to their bits one byte at a time. */
  method ReadBits(buf: seq<byte>, q: nat, len: nat) returns (r: Option<seq<char>>)
    requires len >= 1
    ensures r.Some? <==> Read(buf, q, len).Some?
    ensures r.Some? ==> r.value == Unpack(Read(buf, q, len).value)
  {
    var bits: seq<char> := [];
    ghost var got: seq<byte> := [];
    for i := 0 to len
      invariant |got| == i && forall k :: 0 <= k < i ==> At(buf, q + k) == Some(got[k])
      invariant bits == Unpack(got)
    {
      var b := At(buf, q + i);
      if b.None? {
        ReadGap(buf, q, len, i);
        return None;
      }
      UnpackAppend(got, [b.value]);
      UnpackSingle(b.value);
      bits := bits + ByteBits(b.value);
      assert (got + [b.value])[..i] == got;
      got := got + [b.value];
    }
    ReadOfAt(buf, q, len, got);
    r := Some(bits);
  }

  /** From the padding byte at `q`: read `padding`, round the count up in
      `uint32_t`, read the bytes up to `to` as bits, drop the padding
      byte's own bits and `padding` more, and decode the rest. */
  method ReadPayload(buf: seq<byte>, q: nat, field: nat, codes: map<seq<char>, byte>) returns (r: Option<Parsed>)
    ensures r == PayloadAt(buf, q, field, codes)
  {
    var rounded := (field + 7) % 0x1_0000_0000 / 8 * 8;
    RoundedBytes((field + 7) % 0x1_0000_0000);
    var to: nat := 1 + q + rounded / 8;
    assert to - q == PayloadLength(field);
    var padByte := At(buf, q);
    if padByte.None? {
      ReadGap(buf, q, PayloadLength(field), 0);
      return None;
    }
    var padding := SignedChar(padByte.value);
    var read := ReadBits(buf, q, to - q);
    if read.None? {
      return None;
    }
    PaddingByteFirst(buf, q, to - q);
    ghost var bytes := Read(buf, q, to - q).value;
    var bits := read.value[8..];
    if padding < 0 || padding > |bits| {
      assert Unpadded(bytes) == None;
      return None;
    }
    bits := bits[padding..];
    var decoded := DecodeGreedy(bits, codes);
    r := Some(Parsed(decoded, to));
  }

  /** The first byte read from `q` is the byte at `q`. */
  lemma {:induction false} PaddingByteFirst(buf: seq<byte>, q: nat, len: nat)
    requires len >= 1 && Read(buf, q, len).Some?
    ensures At(buf, q) == Some(Read(buf, q, len).value[0])
  {
  }

  /** `decompressFileUtil(compressedData, path, pos)`: the decoded file and
      the position after the record; `None` where the source throws or
      reads past the terminating '\0'. */
  method DecompressFileUtil(buf: seq<byte>, pos: nat) returns (r: Option<Parsed>)
    ensures r == ParseRecord(buf, pos)
  {
    var first := At(buf, pos);
    if first.None? {
      return None;
    }
    var numUnique := SignedChar(first.value);
    var p := pos + 1;
    if numUnique == 0 {
      return Some(Parsed([], p));
    }
    if numUnique < 0 {
      return None;
    }
    var table := ReadTable(buf, p, numUnique);
    if table.None? {
      return None;
    }
    var count := ReadCount(buf, table.value.next);
    if count.None? {
      return None;
    }
    r := ReadPayload(buf, table.value.next + 4, count.value, table.value.codes);
  }
}
