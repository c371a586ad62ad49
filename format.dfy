/** The byte layout of one compressed file and the reader of
    `decompressFileUtil` (huffmanCompress.cpp:389-502), stated as functions.

    A record written by `compressFileUtil` (huffmanCompress.cpp:296-387) is
    - one byte: the number of distinct symbols, cast to `char`;
    - per symbol, in the order the leaves leave the priority queue: the
      symbol, its code length cast to `char`, the code's '0'/'1' characters;
    - four bytes: a bit count, little-endian;
    - one byte: the number of zero bits padded in front of the codes;
    - the padded code bits, eight to a byte, most significant bit first.
    An empty file is the single byte 0. */
module Format {
  import opened Bytes
  import opened Bits
  import opened Huffman
  import opened TreeBuild

  function Min(a: nat, b: nat): nat
  {
    if a <= b then a else b
  }

  /** The characters of a code string, as the bytes appended to the output. */
  function CodeBytes(code: seq<char>): (r: seq<byte>)
    ensures |r| == |code|
  {
    seq(|code|, i requires 0 <= i < |code| => Truncate(code[i] as int))
  }

  /** Bytes taken back as the characters of a `std::string`. */
  function AsChars(b: seq<byte>): (r: seq<char>)
    ensures |r| == |b|
  {
    seq(|b|, i requires 0 <= i < |b| => (b[i] as int) as char)
  }

  /** A code written as bytes reads back as the same code. */
  lemma {:induction false} AsCharsOfCodeBytes(code: seq<char>)
    requires IsBits(code)
    ensures AsChars(CodeBytes(code)) == code
  {
    forall i | 0 <= i < |code|
      ensures AsChars(CodeBytes(code))[i] == code[i]
    {
      assert code[i] == '0' || code[i] == '1';
    }
  }

  /** The `ch` of a node: the symbol of a leaf, ' ' for an internal node. */
  function NodeChar(n: Node): byte
  {
    if n.Leaf? then n.ch else 32
  }

  function SymbolsOf(order: seq<Node>): (r: seq<byte>)
    ensures |r| == |order|
  {
    seq(|order|, i requires 0 <= i < |order| => NodeChar(order[i]))
  }

  lemma {:induction false} SymbolsAppend(order: seq<Node>, n: Node)
    ensures SymbolsOf(order + [n]) == SymbolsOf(order) + [NodeChar(n)]
  {
    assert forall i :: 0 <= i < |order| ==> (order + [n])[i] == order[i];
  }

  /** One symbol's header entry: the symbol, `(char)code_size`, the code. */
  function HeaderEntry(s: byte, table: map<byte, seq<char>>): (r: seq<byte>)
    ensures |r| == 2 + |CodeOf(table, s)|
  {
    [s, Truncate(|CodeOf(table, s)|)] + CodeBytes(CodeOf(table, s))
  }

  /** The header entries of `syms`, in order. */
  function Header(syms: seq<byte>, table: map<byte, seq<char>>): seq<byte>
  {
    if syms == [] then [] else HeaderEntry(syms[0], table) + Header(syms[1..], table)
  }

  lemma {:induction false} HeaderAppend(syms: seq<byte>, s: byte, table: map<byte, seq<char>>)
    ensures Header(syms + [s], table) == Header(syms, table) + HeaderEntry(s, table)
    decreases |syms|
  {
    if syms == [] {
      assert syms + [s] == [s];
      assert [s][1..] == [];
    } else {
      assert (syms + [s])[0] == syms[0] && (syms + [s])[1..] == syms[1..] + [s];
      HeaderAppend(syms[1..], s, table);
      ConcatAssoc(HeaderEntry(syms[0], table), Header(syms[1..], table), HeaderEntry(s, table));
    }
  }

  /** `uint32_t encoded_data_size = encoded_data.size() + 1`: the count
      the writer stores. */
  function WrittenField(n: nat): nat
  {
    (n + 1) % 0x1_0000_0000
  }

  /** The count of code bits itself, which is what the reader needs. */
  function IntendedField(n: nat): nat
  {
    n % 0x1_0000_0000
  }

  /** The padding byte followed by the padded code bits. */
  function Payload(bits: seq<char>): (r: seq<byte>)
    requires IsBits(bits)
    ensures |r| == 1 + (|bits| + 7) / 8
  {
    [Truncate(Padding(|bits|))] + PackPadded(bits)
  }

  /** The record of non-empty data whose code bits are `bits`. */
  function Frame(syms: seq<byte>, table: map<byte, seq<char>>, field: nat, bits: seq<char>): seq<byte>
    requires IsBits(bits)
  {
    [Truncate(|syms|)] + Header(syms, table) + LittleEndian32(field) + Payload(bits)
  }

  /** The record for `data` with header order `syms`, code table `table`
      and bit-count field `field`. */
  function RecordBytes(syms: seq<byte>, table: map<byte, seq<char>>, data: seq<byte>, field: nat): (r: seq<byte>)
    requires AllBits(table)
    ensures |r| >= 1
  {
    if data == [] then [0] else Frame(syms, table, field, Encode(data, table))
  }

  /** The `.huff` file of `compressFile`: the same layout without the
      four-byte count; an empty file gives the two bytes 0, 0. */
  function SingleFileBytes(syms: seq<byte>, table: map<byte, seq<char>>, data: seq<byte>): (r: seq<byte>)
    requires AllBits(table)
    ensures |r| >= 2
  {
    if data == [] then [0, 0]
    else
      var bits := Encode(data, table);
      [Truncate(|syms|)] + Header(syms, table) + Payload(bits)
  }

  /** The single-file layout is the record layout with the count left out. */
  lemma {:induction false} SingleFileIsRecordWithoutCount(syms: seq<byte>, table: map<byte, seq<char>>, data: seq<byte>, field: nat)
    requires AllBits(table) && data != []
    ensures var k := 1 + |Header(syms, table)|;
            var single := SingleFileBytes(syms, table, data);
            k <= |single| && RecordBytes(syms, table, data, field) == single[..k] + LittleEndian32(field) + single[k..]
  {
    var bits := Encode(data, table);
    var head := [Truncate(|syms|)] + Header(syms, table);
    var tail := Payload(bits);
    var single := SingleFileBytes(syms, table, data);
    assert single == head + tail;
    assert single[..|head|] == head && single[|head|..] == tail;
    ConcatAssoc(head, LittleEndian32(field), tail);
    assert RecordBytes(syms, table, data, field) == head + LittleEndian32(field) + tail;
  }

  // ---------------------------------------------------------------------
  // The reader

  /** `compressedData[i]`: index `size()` reads the terminating '\0'; past
      it the read is undefined and the model reports no value. */
  function At(buf: seq<byte>, i: nat): (r: Option<byte>)
    ensures r.Some? <==> i <= |buf|
  {
    if i < |buf| then Some(buf[i]) else if i == |buf| then Some(0) else None
  }

  /** `len` successive reads `compressedData[p + k]`, k = 0..len-1. */
  function Read(buf: seq<byte>, p: nat, len: nat): (r: Option<seq<byte>>)
    ensures r.Some? ==> |r.value| == len
    ensures r.Some? <==> p + len <= |buf| || (1 <= len && p + len == |buf| + 1)
  {
    if p + len <= |buf| then Some(buf[p..p + len])
    else if 1 <= len && p + len == |buf| + 1 then Some(buf[p..] + [0])
    else None
  }

  datatype TableRead = TableRead(codes: map<seq<char>, byte>, next: nat)

  /** The header loop of `decompressFileUtil` for `k` more entries from
      `p`: read the symbol and the signed code length, take the code with
      `substr` (which throws past the end and stops early at the end), and
      record `CodeWithChar[code] = ch`. A negative code length is
      reported as an error. */
  function ParseTable(buf: seq<byte>, p: nat, k: nat, acc: map<seq<char>, byte>): (r: Option<TableRead>)
    ensures r.Some? ==> r.value.next >= p
    decreases k
  {
    if k == 0 then Some(TableRead(acc, p))
    else match Read(buf, p, 2)
      case None => None
      case Some(pair) =>
        var len := SignedChar(pair[1]);
        if len < 0 || p + 2 > |buf| then None
        else ParseTable(buf, p + 2 + len, k - 1, acc[AsChars(buf[p + 2..Min(p + 2 + len, |buf|)]) := pair[0]])
  }

  datatype Parsed = Parsed(data: seq<byte>, next: nat)

  /** The bytes read from the padding byte on, `to - pos`: the padding
      byte and the count rounded up to whole bytes in `uint32_t`
      arithmetic (rounding up to a multiple of 8 and then dividing by 8 is
      dividing by 8 once). */
  function PayloadLength(field: nat): (len: nat)
    ensures len >= 1
  {
    1 + (field + 7) % 0x1_0000_0000 / 8
  }

  /** The code bits of the bytes read: the padding byte's own eight bits
      are dropped, then `padding` more; a negative or too large padding
      makes `substr` throw. */
  function Unpadded(bytes: seq<byte>): Option<seq<char>>
    requires |bytes| >= 1
  {
    var padding := SignedChar(bytes[0]);
    var bits := Unpack(bytes)[8..];
    if padding < 0 || padding > |bits| then None else Some(bits[padding..])
  }

  /** From the padding byte at `q` on: read, unpad and decode. */
  function PayloadAt(buf: seq<byte>, q: nat, field: nat, codes: map<seq<char>, byte>): (r: Option<Parsed>)
    ensures r.Some? ==> r.value.next > q
  {
    match Read(buf, q, PayloadLength(field))
    case None => None
    case Some(bytes) =>
      match Unpadded(bytes)
      case None => None
      case Some(bits) => Some(Parsed(Decode(bits, codes), q + PayloadLength(field)))
  }

  /** After the header, from `p`: the four-byte count, then the payload. */
  function CountAt(buf: seq<byte>, p: nat, codes: map<seq<char>, byte>): (r: Option<Parsed>)
    ensures r.Some? ==> r.value.next > p
  {
    match Read(buf, p, 4)
    case None => None
    case Some(le) => PayloadAt(buf, p + 4, FromLittleEndian32(le), codes)
  }

  /** After a positive symbol count `n`, from `p`: the header, then the rest. */
  function TableAt(buf: seq<byte>, p: nat, n: nat): (r: Option<Parsed>)
    ensures r.Some? ==> r.value.next > p
  {
    match ParseTable(buf, p, n, map[])
    case None => None
    case Some(t) => CountAt(buf, t.next, t.codes)
  }

  /** `decompressFileUtil(compressedData, path, pos)`: the decoded file
      and the position after the record. A negative symbol count, a read
      past the terminating '\0' and an out-of-range `substr` are errors. */
  function ParseRecord(buf: seq<byte>, pos: nat): (r: Option<Parsed>)
    ensures r.Some? ==> r.value.next > pos
  {
    match At(buf, pos)
    case None => None
    case Some(b) =>
      var n := SignedChar(b);
      if n == 0 then Some(Parsed([], pos + 1))
      else if n < 0 then None
      else TableAt(buf, pos + 1, n)
  }

  // ---------------------------------------------------------------------
  // Reading back what was written

  /** The reader's table after the header entries of `syms`. */
  function Inverse(syms: seq<byte>, table: map<byte, seq<char>>, acc: map<seq<char>, byte>): map<seq<char>, byte>
    decreases |syms|
  {
    if syms == [] then acc else Inverse(syms[1..], table, acc[CodeOf(table, syms[0]) := syms[0]])
  }

  /** The reader's table after a whole header of `syms`. */
  function ReaderTable(syms: seq<byte>, w: map<byte, seq<char>>): map<seq<char>, byte>
  {
    Inverse(syms, w, map[])
  }

  /** The eight bits of a byte, most significant first. */
  function ByteBits(b: byte): seq<char>
  {
    ToBits(8, b as nat)
  }

  /** `part` lies in `buf` starting at `p`. */
  ghost predicate Contains(buf: seq<byte>, p: nat, part: seq<byte>)
  {
    p + |part| <= |buf| && Matches(buf, p, part)
  }

  /** The bytes of `buf` from `p` on agree with `part`, one by one. */
  ghost predicate Matches(buf: seq<byte>, p: nat, part: seq<byte>)
    requires p + |part| <= |buf|
    decreases |part|
  {
    part == [] || (buf[p] == part[0] && Matches(buf, p + 1, part[1..]))
  }

  /** Lying in `buf` at `p` is being the slice of `buf` from `p`. */
  lemma {:induction false} ContainsSlice(buf: seq<byte>, p: nat, part: seq<byte>)
    ensures Contains(buf, p, part) <==> p + |part| <= |buf| && buf[p..p + |part|] == part
    decreases |part|
  {
    if part != [] && p + |part| <= |buf| {
      ContainsSlice(buf, p + 1, part[1..]);
      assert buf[p..p + |part|] == [buf[p]] + buf[p + 1..p + 1 + |part[1..]|];
      assert part == [part[0]] + part[1..];
    }
  }

  lemma {:induction false} SliceSplit(buf: seq<byte>, p: nat, a: seq<byte>, b: seq<byte>)
    requires p + |a| + |b| <= |buf| && buf[p..p + |a| + |b|] == a + b
    ensures buf[p..p + |a|] == a
    ensures buf[p + |a|..p + |a| + |b|] == b
  {
    assert buf[p..p + |a|] == buf[p..p + |a| + |b|][..|a|];
    assert buf[p + |a|..p + |a| + |b|] == buf[p..p + |a| + |b|][|a|..];
  }

  /** The header loop reads back the header entries of `syms` when every
      code is a bit string shorter than 128 (so its length byte is a
      non-negative `char`). */
  lemma {:induction false} HeaderParses(buf: seq<byte>, p: nat, syms: seq<byte>, table: map<byte, seq<char>>, acc: map<seq<char>, byte>, end: nat)
    requires AllBits(table)
    requires forall i :: 0 <= i < |syms| ==> |CodeOf(table, syms[i])| < 128
    requires end == p + |Header(syms, table)| && end <= |buf| && buf[p..end] == Header(syms, table)
    ensures ParseTable(buf, p, |syms|, acc) == Some(TableRead(Inverse(syms, table, acc), end))
    decreases |syms|
  {
    if syms != [] {
      var s := syms[0];
      var code := CodeOf(table, s);
      var entry := HeaderEntry(s, table);
      var rest := Header(syms[1..], table);
      var next := p + |entry|;
      SliceSplit(buf, p, entry, rest);
      EntryParses(buf, p, s, code, |syms|, acc, next);
      assert forall i :: 0 <= i < |syms[1..]| ==> |CodeOf(table, syms[1..][i])| < 128 by {
        forall i | 0 <= i < |syms[1..]|
          ensures |CodeOf(table, syms[1..][i])| < 128
        {
          assert syms[1..][i] == syms[i + 1];
        }
      }
      HeaderParses(buf, next, syms[1..], table, acc[code := s], end);
    }
  }

  /** One header entry reads back as its code mapped to its symbol. */
  lemma {:induction false} EntryParses(buf: seq<byte>, p: nat, s: byte, code: seq<char>, k: nat, acc: map<seq<char>, byte>, next: nat)
    requires IsBits(code) && |code| < 128 && 0 < k
    requires next == p + 2 + |code| && next <= |buf|
    requires buf[p..next] == [s, Truncate(|code|)] + CodeBytes(code)
    ensures ParseTable(buf, p, k, acc) == ParseTable(buf, next, k - 1, acc[code := s])
  {
    SliceSplit(buf, p, [s, Truncate(|code|)], CodeBytes(code));
    assert Read(buf, p, 2) == Some([s, Truncate(|code|)]);
    assert SignedChar(Truncate(|code|)) == |code|;
    assert Min(p + 2 + |code|, |buf|) == next;
    AsCharsOfCodeBytes(code);
  }

  /** The reader's table holds every written code, each mapped to its
      symbol, and nothing else beyond `acc`, provided distinct symbols of
      `syms` have distinct codes. */
  lemma {:induction false} InverseSpec(syms: seq<byte>, table: map<byte, seq<char>>, acc: map<seq<char>, byte>)
    requires forall i, j :: 0 <= i < |syms| && 0 <= j < |syms| && CodeOf(table, syms[i]) == CodeOf(table, syms[j]) ==> syms[i] == syms[j]
    ensures forall i :: 0 <= i < |syms| ==> CodeOf(table, syms[i]) in Inverse(syms, table, acc)
                                            && Inverse(syms, table, acc)[CodeOf(table, syms[i])] == syms[i]
    ensures forall c :: c in Inverse(syms, table, acc) ==>
              c in acc || exists i :: 0 <= i < |syms| && c == CodeOf(table, syms[i])
    decreases |syms|
  {
    if syms != [] {
      var acc' := acc[CodeOf(table, syms[0]) := syms[0]];
      var tail := syms[1..];
      assert forall i :: 0 <= i < |tail| ==> tail[i] == syms[i + 1];
      InverseSpec(tail, table, acc');
      var r := Inverse(syms, table, acc);
      assert r == Inverse(tail, table, acc');
      forall i | 0 <= i < |syms|
        ensures CodeOf(table, syms[i]) in r && r[CodeOf(table, syms[i])] == syms[i]
      {
        if i > 0 {
          assert syms[i] == tail[i - 1];
        } else if c :| c in tail && CodeOf(table, c) == CodeOf(table, syms[0]) {
          var j :| 0 <= j < |tail| && tail[j] == c;
          assert syms[j + 1] == c;
        } else {
          InverseKeeps(tail, table, acc', CodeOf(table, syms[0]));
        }
      }
      forall c | c in r
        ensures c in acc || exists i :: 0 <= i < |syms| && c == CodeOf(table, syms[i])
      {
        if c !in acc' {
          var j :| 0 <= j < |tail| && c == CodeOf(table, tail[j]);
          assert c == CodeOf(table, syms[j + 1]);
        } else if c !in acc {
          assert c == CodeOf(table, syms[0]);
        }
      }
    }
  }

  /** An entry no later header entry writes keeps its value. */
  lemma {:induction false} InverseKeeps(syms: seq<byte>, table: map<byte, seq<char>>, acc: map<seq<char>, byte>, c: seq<char>)
    requires c in acc
    requires forall i :: 0 <= i < |syms| ==> CodeOf(table, syms[i]) != c
    ensures c in Inverse(syms, table, acc) && Inverse(syms, table, acc)[c] == acc[c]
    decreases |syms|
  {
    if syms != [] {
      assert forall i :: 0 <= i < |syms[1..]| ==> syms[1..][i] == syms[i + 1];
      InverseKeeps(syms[1..], table, acc[CodeOf(table, syms[0]) := syms[0]], c);
    }
  }

  /** What the writer knows after `buildTree` on non-empty `data` and the
      header loop: the tree's leaves are the initial leaves, and the header
      order lists each of them once. */
  ghost predicate Built(root: Node, order: seq<Node>, data: seq<byte>)
  {
    && LeafNodes(root) == multiset(AllLeaves(Frequencies(data)))
    && multiset(order) == LeafNodes(root)
  }

  /** What the reader needs of a tree and its header order: every byte of
      the data is a symbol of the tree and has a header entry, every header
      entry is a symbol of the tree, and there is one entry per leaf. */
  ghost predicate Covers(root: Node, order: seq<Node>, data: seq<byte>)
  {
    && (forall i :: 0 <= i < |data| ==> data[i] in Symbols(root) && data[i] in SymbolsOf(order))
    && (forall i :: 0 <= i < |order| ==> NodeChar(order[i]) in Symbols(root))
    && |LeafNodes(root)| == |order|
  }

  /** The byte at `i` of the data has a leaf in the tree and an entry in
      the header order. */
  lemma {:induction false} ByteCovered(root: Node, order: seq<Node>, data: seq<byte>, i: nat)
    requires Built(root, order, data) && i < |data|
    ensures data[i] in Symbols(root) && data[i] in SymbolsOf(order)
  {
    var s := data[i];
    var leaf := Leaf(s, Frequencies(data)[s]);
    ByteLeaf(root, order, data, i);
    assert leaf in multiset(order);
    var j :| 0 <= j < |order| && order[j] == leaf;
    assert SymbolsOf(order)[j] == s;
    LeavesCarrySymbols(root, s);
  }

  /** The byte at `i` of the data has its leaf, with the byte's count, in
      the tree. */
  lemma {:induction false} ByteLeaf(root: Node, order: seq<Node>, data: seq<byte>, i: nat)
    requires Built(root, order, data) && i < |data|
    ensures Leaf(data[i], Frequencies(data)[data[i]]) in LeafNodes(root)
  {
    var freq := Frequencies(data);
    var s := data[i];
    assert multiset(data)[s] > 0;
    InitialLeavesMembers(freq, |freq|, Leaf(s, freq[s]));
  }

  /** Every byte of the data has a leaf, in the tree and in the header
      order; every header entry is a leaf of the tree. */
  lemma {:induction false} BuiltFacts(root: Node, order: seq<Node>, data: seq<byte>)
    requires Built(root, order, data)
    ensures Covers(root, order, data)
  {
    forall i | 0 <= i < |data|
      ensures data[i] in Symbols(root) && data[i] in SymbolsOf(order)
    {
      ByteCovered(root, order, data, i);
    }
    forall i | 0 <= i < |order|
      ensures NodeChar(order[i]) in Symbols(root)
    {
      assert order[i] in multiset(order);
      LeavesCarrySymbols(root, NodeChar(order[i]));
    }
    assert |multiset(order)| == |order|;
  }

  /** In a prefix-free table, the reader's inverse over a header that
      lists only table symbols decodes each listed symbol. */
  lemma {:induction false} InverseDecodable(w: map<byte, seq<char>>, syms: seq<byte>, s: byte)
    requires PrefixFree(w)
    requires forall i :: 0 <= i < |syms| ==> syms[i] in w
    requires s in syms && s in w && |w[s]| >= 1
    ensures Decodable(s, w, ReaderTable(syms, w))
  {
    forall i, j | 0 <= i < |syms| && 0 <= j < |syms| && CodeOf(w, syms[i]) == CodeOf(w, syms[j])
      ensures syms[i] == syms[j]
    {
      assert IsPrefix(w[syms[i]], w[syms[j]]);
    }
    InverseSpec(syms, w, map[]);
    var r := ReaderTable(syms, w);
    var k :| 0 <= k < |syms| && syms[k] == s;
    forall c | c in r && IsPrefix(c, w[s])
      ensures c == w[s]
    {
      var j :| 0 <= j < |syms| && c == CodeOf(w, syms[j]);
      assert syms[j] in w && IsPrefix(w[syms[j]], w[s]);
    }
  }

  /** Every byte of the data is decodable with the table the reader
      rebuilds from the header. */
  lemma {:induction false} ReaderCodesDecode(root: Node, order: seq<Node>, data: seq<byte>)
    requires Covers(root, order, data)
    ensures forall i :: 0 <= i < |data| ==> Decodable(data[i], CodeTable(root), ReaderTable(SymbolsOf(order), CodeTable(root)))
  {
    var w := CodeTable(root);
    var syms := SymbolsOf(order);
    CodeTableProperties(root);
    forall i | 0 <= i < |data|
      ensures Decodable(data[i], w, ReaderTable(syms, w))
    {
      InverseDecodable(w, syms, data[i]);
    }
  }

  /** A header the reader takes back as written: codes of bits, each
      shorter than 128 characters, and between 1 and 127 entries, so that
      every length and the count read back as non-negative `char`s. */
  ghost predicate HeaderFits(syms: seq<byte>, w: map<byte, seq<char>>)
  {
    && AllBits(w)
    && 0 < |syms| < 128
    && forall i :: 0 <= i < |syms| ==> |CodeOf(w, syms[i])| < 128
  }

  /** The header of a built tree with fewer than 128 leaves fits. */
  lemma {:induction false} HeaderCodesShort(root: Node, order: seq<Node>, data: seq<byte>)
    requires Covers(root, order, data) && |order| < 128
    ensures HeaderFits(SymbolsOf(order), CodeTable(root))
  {
    LeafCount(root);
    CodeLengthBound(root);
    CodeTableProperties(root);
  }

  /** A record whose first byte is a count in 1..127 goes on to its table. */
  lemma {:induction false} RecordStart(buf: seq<byte>, pos: nat, k: nat)
    requires 0 < k < 128 && pos < |buf| && buf[pos] == Truncate(k)
    ensures ParseRecord(buf, pos) == TableAt(buf, pos + 1, k)
  {
    assert SignedChar(buf[pos]) == k;
  }

  /** A table that parses hands its end and codes on to the count. */
  lemma {:induction false} TableStep(buf: seq<byte>, p: nat, k: nat, t: TableRead)
    requires ParseTable(buf, p, k, map[]) == Some(t)
    ensures TableAt(buf, p, k) == CountAt(buf, t.next, t.codes)
  {
  }

  /** A little-endian count that fits 32 bits hands its value on. */
  lemma {:induction false} CountStep(buf: seq<byte>, p: nat, codes: map<seq<char>, byte>, field: nat)
    requires field < 0x1_0000_0000
    requires p + 4 <= |buf| && buf[p..p + 4] == LittleEndian32(field)
    ensures CountAt(buf, p, codes) == PayloadAt(buf, p + 4, field, codes)
  {
    var le := LittleEndian32(field);
    assert Read(buf, p, 4) == Some(le) by {
      ContainsSlice(buf, p, le);
      ReadSlice(buf, p, le);
    }
    LittleEndian32RoundTrip(field);
  }

  /** The four parts of a record laid out in a buffer. */
  lemma {:induction false} RecordSlices(buf: seq<byte>, pos: nat, a: byte, head: seq<byte>, le: seq<byte>, body: seq<byte>)
    requires Contains(buf, pos, [a] + head + le + body)
    ensures buf[pos] == a
    ensures buf[pos + 1..pos + 1 + |head|] == head
    ensures buf[pos + 1 + |head|..pos + 1 + |head| + |le|] == le
  {
    ContainsSlice(buf, pos, [a] + head + le + body);
    SliceSplit(buf, pos, [a] + head + le, body);
    SliceSplit(buf, pos, [a] + head, le);
    SliceSplit(buf, pos, [a], head);
  }

  /** Reading a record whose table parses, up to its padding byte. */
  lemma {:induction false} RecordPrefixReads(buf: seq<byte>, pos: nat, k: nat, head: seq<byte>, codes: map<seq<char>, byte>, field: nat)
    requires 0 < k < 128 && field < 0x1_0000_0000
    requires pos + 1 + |head| + 4 <= |buf| && buf[pos] == Truncate(k)
    requires buf[pos + 1 + |head|..pos + 1 + |head| + 4] == LittleEndian32(field)
    requires ParseTable(buf, pos + 1, k, map[]) == Some(TableRead(codes, pos + 1 + |head|))
    ensures ParseRecord(buf, pos) == PayloadAt(buf, pos + 1 + |head| + 4, field, codes)
  {
    var c := pos + 1 + |head|;
    calc {
      ParseRecord(buf, pos);
      { RecordStart(buf, pos, k); }
      TableAt(buf, pos + 1, k);
      { TableStep(buf, pos + 1, k, TableRead(codes, c)); }
      CountAt(buf, c, codes);
      { CountStep(buf, c, codes, field); }
      PayloadAt(buf, c + 4, field, codes);
    }
  }

  /** Reading a record up to its padding byte, for any header whose
      codes are bit strings shorter than 128 and a symbol count in
      1..127 (so both read back as non-negative `char`s). */
  lemma {:induction false} HeaderReads(buf: seq<byte>, pos: nat, syms: seq<byte>, w: map<byte, seq<char>>, field: nat, body: seq<byte>)
    requires HeaderFits(syms, w) && field < 0x1_0000_0000
    requires Contains(buf, pos, [Truncate(|syms|)] + Header(syms, w) + LittleEndian32(field) + body)
    ensures ParseRecord(buf, pos) == PayloadAt(buf, pos + 1 + |Header(syms, w)| + 4, field, ReaderTable(syms, w))
  {
    var head := Header(syms, w);
    RecordSlices(buf, pos, Truncate(|syms|), head, LittleEndian32(field), body);
    HeaderParses(buf, pos + 1, syms, w, map[], pos + 1 + |head|);
    RecordPrefixReads(buf, pos, |syms|, head, ReaderTable(syms, w), field);
  }

  /** Reading a record of code bits `bits` up to its padding byte. */
  lemma {:induction false} FrameReads(buf: seq<byte>, pos: nat, syms: seq<byte>, w: map<byte, seq<char>>, field: nat, bits: seq<char>, q: nat)
    requires HeaderFits(syms, w) && field < 0x1_0000_0000 && IsBits(bits)
    requires Contains(buf, pos, Frame(syms, w, field, bits)) && q == pos + 1 + |Header(syms, w)| + 4
    ensures ParseRecord(buf, pos) == PayloadAt(buf, q, field, ReaderTable(syms, w))
  {
    HeaderReads(buf, pos, syms, w, field, Payload(bits));
  }

  /** The payload of a record lies right after its little-endian count
      and ends the record. */
  lemma {:induction false} FramePayload(buf: seq<byte>, pos: nat, syms: seq<byte>, w: map<byte, seq<char>>, field: nat, bits: seq<char>, q: nat, end: nat)
    requires IsBits(bits) && Contains(buf, pos, Frame(syms, w, field, bits))
    requires q == pos + 1 + |Header(syms, w)| + 4 && end == pos + |Frame(syms, w, field, bits)|
    ensures Contains(buf, q, Payload(bits)) && end == q + |Payload(bits)|
  {
    var head, body := [Truncate(|syms|)] + Header(syms, w) + LittleEndian32(field), Payload(bits);
    assert Frame(syms, w, field, bits) == head + body;
    ContainsSlice(buf, pos, head + body);
    SliceSplit(buf, pos, head, body);
    ContainsSlice(buf, q, body);
  }

  /** What the reader needs of a writer's table and header order: the
      header reads back as written and every byte of the data decodes
      with the table rebuilt from the header. */
  ghost predicate Readable(syms: seq<byte>, w: map<byte, seq<char>>, data: seq<byte>)
  {
    && HeaderFits(syms, w)
    && forall i :: 0 <= i < |data| ==> Decodable(data[i], w, ReaderTable(syms, w))
  }

  /** The table and header order of a built tree with fewer than 128
      leaves are readable for the data the tree was built from. */
  lemma {:induction false} BuiltReadable(root: Node, order: seq<Node>, data: seq<byte>)
    requires Built(root, order, data) && |order| < 128
    ensures Readable(SymbolsOf(order), CodeTable(root), data)
  {
    BuiltFacts(root, order, data);
    HeaderCodesShort(root, order, data);
    ReaderCodesDecode(root, order, data);
  }

  /** A payload whose padding byte says `pad` and whose bits after that
      byte are `pad` zeros then `rest` unpads to `rest`. */
  lemma {:induction false} UnpaddedOf(bytes: seq<byte>, pad: nat, rest: seq<char>)
    requires |bytes| >= 1 && SignedChar(bytes[0]) == pad
    requires Unpack(bytes)[8..] == Zeros(pad) + rest
    ensures Unpadded(bytes) == Some(rest)
  {
    assert (Zeros(pad) + rest)[pad..] == rest;
  }

  /** Past the padding byte, a payload unpacks to the zero padding and
      then the bits. */
  lemma {:induction false} UnpackPayload(bits: seq<char>)
    requires IsBits(bits)
    ensures Unpack(Payload(bits))[8..] == Zeros(Padding(|bits|)) + bits
  {
    var head := [Truncate(Padding(|bits|))];
    UnpackAppend(head, PackPadded(bits));
    PackPaddedUnpacks(bits);
    assert |Unpack(head)| == 8;
    assert (Unpack(head) + Unpack(PackPadded(bits)))[8..] == Unpack(PackPadded(bits));
  }

  /** A single byte unpacks to its eight bits. */
  lemma {:induction false} UnpackSingle(b: byte)
    ensures Unpack([b]) == ToBits(8, b as nat)
  {
    assert [b][1..] == [];
  }

  /** Bytes appended after the padding byte unpack after the bits that
      follow it. */
  lemma {:induction false} UnpackAfter(body: seq<byte>, more: seq<byte>, rest: seq<char>, tail: seq<char>)
    requires |body| >= 1 && Unpack(body)[8..] == rest && Unpack(more) == tail
    ensures Unpack(body + more)[8..] == rest + tail
  {
    UnpackAppend(body, more);
    assert (Unpack(body) + tail)[8..] == Unpack(body)[8..] + tail;
  }

  /** The padding byte and the packed bits unpad to the bits. */
  lemma {:induction false} UnpaddedOfPadded(bits: seq<char>)
    requires IsBits(bits)
    ensures Unpadded(Payload(bits)) == Some(bits)
  {
    UnpackPayload(bits);
    UnpaddedOf(Payload(bits), Padding(|bits|), bits);
  }

  /** With one more byte read after them, its bits follow the code bits. */
  lemma {:induction false} UnpaddedOfPaddedExtra(bits: seq<char>, extra: byte)
    requires IsBits(bits)
    ensures Unpadded(Payload(bits) + [extra]) == Some(bits + ToBits(8, extra as nat))
  {
    var tail := ToBits(8, extra as nat);
    UnpackSingle(extra);
    UnpackPayload(bits);
    UnpackAfter(Payload(bits), [extra], Zeros(Padding(|bits|)) + bits, tail);
    ConcatAssoc(Zeros(Padding(|bits|)), bits, tail);
    UnpaddedOf(Payload(bits) + [extra], Padding(|bits|), bits + ToBits(8, extra as nat));
  }

  lemma {:induction false} ReadSlice(buf: seq<byte>, q: nat, body: seq<byte>)
    requires Contains(buf, q, body)
    ensures Read(buf, q, |body|) == Some(body)
  {
    ContainsSlice(buf, q, body);
  }

  /** Reading one byte past a slice also takes the byte after it, or the
      terminating '\0' when the slice ends the buffer. */
  lemma {:induction false} ReadSliceExtra(buf: seq<byte>, q: nat, body: seq<byte>, end: nat, extra: byte)
    requires Contains(buf, q, body) && end == q + |body| && At(buf, end) == Some(extra)
    ensures Read(buf, q, |body| + 1) == Some(body + [extra])
  {
    ContainsSlice(buf, q, body);
    if q + |body| < |buf| {
      assert buf[q..q + |body| + 1] == buf[q..q + |body|] + [buf[q + |body|]];
    } else {
      assert buf[q..] == buf[q..q + |body|];
    }
  }

  lemma {:induction false} PayloadAtOf(buf: seq<byte>, q: nat, field: nat, codes: map<seq<char>, byte>, body: seq<byte>, bits: seq<char>, next: nat)
    requires Read(buf, q, PayloadLength(field)) == Some(body)
    requires Unpadded(body) == Some(bits)
    requires next == q + PayloadLength(field)
    ensures PayloadAt(buf, q, field, codes) == Some(Parsed(Decode(bits, codes), next))
  {
  }

  /** When the count rounds up to exactly the bytes written, the reader
      drops the padding and decodes exactly the written bits. */
  lemma {:induction false} PayloadExact(buf: seq<byte>, q: nat, bits: seq<char>, field: nat, codes: map<seq<char>, byte>, end: nat)
    requires IsBits(bits) && PayloadLength(field) == |Payload(bits)|
    requires Contains(buf, q, Payload(bits)) && end == q + |Payload(bits)|
    ensures PayloadAt(buf, q, field, codes) == Some(Parsed(Decode(bits, codes), end))
  {
    ReadSlice(buf, q, Payload(bits));
    UnpaddedOfPadded(bits);
    PayloadAtOf(buf, q, field, codes, Payload(bits), bits, end);
  }

  /** When the count rounds up to one byte more than was written, the
      reader also takes the byte after the record (the terminating '\0' at
      the end of the buffer) and decodes its bits as well. */
  lemma {:induction false} PayloadOverRead(buf: seq<byte>, q: nat, bits: seq<char>, field: nat, codes: map<seq<char>, byte>, end: nat, extra: byte)
    requires IsBits(bits) && PayloadLength(field) == |Payload(bits)| + 1
    requires Contains(buf, q, Payload(bits)) && end == q + |Payload(bits)| && At(buf, end) == Some(extra)
    ensures PayloadAt(buf, q, field, codes) == Some(Parsed(Decode(bits + ByteBits(extra), codes), end + 1))
  {
    ReadSliceExtra(buf, q, Payload(bits), end, extra);
    UnpaddedOfPaddedExtra(bits, extra);
    PayloadAtOf(buf, q, field, codes, Payload(bits) + [extra], bits + ByteBits(extra), end + 1);
  }

  /** A record whose count rounds up to the bytes written decodes its
      code bits and ends where the record ends. */
  lemma {:induction false} FrameReadsExactly(buf: seq<byte>, pos: nat, syms: seq<byte>, w: map<byte, seq<char>>, field: nat, bits: seq<char>, end: nat)
    requires HeaderFits(syms, w) && field < 0x1_0000_0000 && IsBits(bits)
    requires PayloadLength(field) == |Payload(bits)|
    requires Contains(buf, pos, Frame(syms, w, field, bits)) && end == pos + |Frame(syms, w, field, bits)|
    ensures ParseRecord(buf, pos) == Some(Parsed(Decode(bits, ReaderTable(syms, w)), end))
  {
    var q := pos + 1 + |Header(syms, w)| + 4;
    var codes := ReaderTable(syms, w);
    calc {
      ParseRecord(buf, pos);
      { FrameReads(buf, pos, syms, w, field, bits, q); }
      PayloadAt(buf, q, field, codes);
      { FramePayload(buf, pos, syms, w, field, bits, q, end);
        PayloadExact(buf, q, bits, field, codes, end); }
      Some(Parsed(Decode(bits, codes), end));
    }
  }

  /** A record whose count rounds up to one byte more also decodes the
      bits of the byte after it and ends one past it. */
  lemma {:induction false} FrameReadsOneMore(buf: seq<byte>, pos: nat, syms: seq<byte>, w: map<byte, seq<char>>, field: nat, bits: seq<char>, end: nat, extra: byte)
    requires HeaderFits(syms, w) && field < 0x1_0000_0000 && IsBits(bits)
    requires PayloadLength(field) == |Payload(bits)| + 1
    requires Contains(buf, pos, Frame(syms, w, field, bits)) && end == pos + |Frame(syms, w, field, bits)|
    requires At(buf, end) == Some(extra)
    ensures ParseRecord(buf, pos) == Some(Parsed(Decode(bits + ByteBits(extra), ReaderTable(syms, w)), end + 1))
  {
    var q := pos + 1 + |Header(syms, w)| + 4;
    var codes := ReaderTable(syms, w);
    calc {
      ParseRecord(buf, pos);
      { FrameReads(buf, pos, syms, w, field, bits, q); }
      PayloadAt(buf, q, field, codes);
      { FramePayload(buf, pos, syms, w, field, bits, q, end);
        PayloadOverRead(buf, q, bits, field, codes, end, extra); }
      Some(Parsed(Decode(bits + ByteBits(extra), codes), end + 1));
    }
  }

  /** The count of code bits as intended rounds up to the bytes written. */
  lemma {:induction false} IntendedFieldRounds(bits: seq<char>)
    requires IsBits(bits) && |bits| + 7 < 0x1_0000_0000
    ensures IntendedField(|bits|) < 0x1_0000_0000
    ensures PayloadLength(IntendedField(|bits|)) == |Payload(bits)|
  {
    assert IntendedField(|bits|) == |bits|;
    PayloadLengthBelow(|bits|);
  }

  /** The count written as bits + 1 rounds up to the bytes written, and to
      one byte more when the number of bits is a multiple of 8. */
  lemma {:induction false} WrittenFieldRounds(bits: seq<char>)
    requires IsBits(bits) && |bits| + 8 < 0x1_0000_0000
    ensures WrittenField(|bits|) < 0x1_0000_0000
    ensures |bits| % 8 != 0 ==> PayloadLength(WrittenField(|bits|)) == |Payload(bits)|
    ensures |bits| % 8 == 0 ==> PayloadLength(WrittenField(|bits|)) == |Payload(bits)| + 1
  {
    assert WrittenField(|bits|) == |bits| + 1;
    PayloadLengthBelow(|bits| + 1);
    RoundUpOneMore(|bits|);
  }

  /** Below the `uint32_t` limit the count rounds up without wrapping. */
  lemma {:induction false} PayloadLengthBelow(field: nat)
    requires field + 7 < 0x1_0000_0000
    ensures PayloadLength(field) == 1 + (field + 7) / 8
  {
    assert (field + 7) % 0x1_0000_0000 == field + 7;
  }

  /** One more bit needs one more byte exactly when the bits filled
      whole bytes. */
  lemma {:induction false} RoundUpOneMore(n: nat)
    ensures n % 8 != 0 ==> (n + 8) / 8 == (n + 7) / 8
    ensures n % 8 == 0 ==> (n + 8) / 8 == (n + 7) / 8 + 1
  {
    var q, r := n / 8, n % 8;
    assert n == 8 * q + r;
    if r == 0 {
      assert (n + 8) / 8 == q + 1;
      assert (n + 7) / 8 == q;
    } else {
      assert (n + 8) / 8 == q + 1;
      assert (n + 7) / 8 == q + 1;
    }
  }

  /** A record of non-empty data whose count rounds up to exactly the
      bytes written reads back as the data and ends where the record ends. */
  lemma {:induction false} RecordReadsExactly(buf: seq<byte>, pos: nat, syms: seq<byte>, w: map<byte, seq<char>>, data: seq<byte>, field: nat, end: nat)
    requires data != [] && Readable(syms, w, data)
    requires field < 0x1_0000_0000 && PayloadLength(field) == |Payload(Encode(data, w))|
    requires Contains(buf, pos, RecordBytes(syms, w, data, field)) && end == pos + |RecordBytes(syms, w, data, field)|
    ensures ParseRecord(buf, pos) == Some(Parsed(data, end))
  {
    RecordFrame(buf, pos, syms, w, data, field, end);
    FrameReadsExactly(buf, pos, syms, w, field, Encode(data, w), end);
    DecodeExactly(buf, pos, data, w, ReaderTable(syms, w), end);
  }

  /** A record of non-empty data whose count rounds up to one byte more
      reads back as the data followed by the decoding of the byte after
      the record, and ends one past the record. */
  lemma {:induction false} RecordReadsOneMore(buf: seq<byte>, pos: nat, syms: seq<byte>, w: map<byte, seq<char>>, data: seq<byte>, field: nat, end: nat, extra: byte)
    requires data != [] && Readable(syms, w, data)
    requires field < 0x1_0000_0000 && PayloadLength(field) == |Payload(Encode(data, w))| + 1
    requires Contains(buf, pos, RecordBytes(syms, w, data, field)) && end == pos + |RecordBytes(syms, w, data, field)|
    requires At(buf, end) == Some(extra)
    ensures ParseRecord(buf, pos) == Some(Parsed(data + Decode(ByteBits(extra), ReaderTable(syms, w)), end + 1))
  {
    RecordFrame(buf, pos, syms, w, data, field, end);
    FrameDecodesOneMore(buf, pos, syms, w, data, field, end, extra);
  }

  /** The frame of the code bits of `data` whose count rounds up to one
      byte more reads back as `data` followed by the decoding of the byte
      after it. */
  lemma {:induction false} FrameDecodesOneMore(buf: seq<byte>, pos: nat, syms: seq<byte>, w: map<byte, seq<char>>, data: seq<byte>, field: nat, end: nat, extra: byte)
    requires Readable(syms, w, data)
    requires field < 0x1_0000_0000 && PayloadLength(field) == |Payload(Encode(data, w))| + 1
    requires Contains(buf, pos, Frame(syms, w, field, Encode(data, w))) && end == pos + |Frame(syms, w, field, Encode(data, w))|
    requires At(buf, end) == Some(extra)
    ensures ParseRecord(buf, pos) == Some(Parsed(data + Decode(ByteBits(extra), ReaderTable(syms, w)), end + 1))
  {
    var bits, r, tail := Encode(data, w), ReaderTable(syms, w), ByteBits(extra);
    calc {
      ParseRecord(buf, pos);
      { FrameReadsOneMore(buf, pos, syms, w, field, bits, end, extra); }
      Some(Parsed(Decode(bits + tail, r), end + 1));
      { DecodeEncode(data, w, r, tail); }
      Some(Parsed(data + Decode(tail, r), end + 1));
    }
  }

  /** The record of non-empty data is the frame of its code bits. */
  lemma {:induction false} RecordFrame(buf: seq<byte>, pos: nat, syms: seq<byte>, w: map<byte, seq<char>>, data: seq<byte>, field: nat, end: nat)
    requires data != [] && AllBits(w) && Contains(buf, pos, RecordBytes(syms, w, data, field))
    requires end == pos + |RecordBytes(syms, w, data, field)|
    ensures Contains(buf, pos, Frame(syms, w, field, Encode(data, w)))
    ensures end == pos + |Frame(syms, w, field, Encode(data, w))|
  {
  }

  /** Decoding the code bits of decodable data gives the data. */
  lemma {:induction false} DecodeExactly(buf: seq<byte>, pos: nat, data: seq<byte>, w: map<byte, seq<char>>, r: map<seq<char>, byte>, next: nat)
    requires forall i :: 0 <= i < |data| ==> Decodable(data[i], w, r)
    requires ParseRecord(buf, pos) == Some(Parsed(Decode(Encode(data, w), r), next))
    ensures ParseRecord(buf, pos) == Some(Parsed(data, next))
  {
    DecodeAll(data, w, r);
  }

  /** The record of empty data, the single byte 0, reads back empty. */
  lemma {:induction false} EmptyRecordReads(buf: seq<byte>, pos: nat)
    requires Contains(buf, pos, [0])
    ensures ParseRecord(buf, pos) == Some(Parsed([], pos + 1))
  {
    assert buf[pos] == 0;
  }

  /** With the count of code bits itself in the length field, the reader
      gives back exactly the data and stops right after its record,
      for every readable table (and fewer than 2^32 - 7 code bits). Empty
      data is the single byte 0 and reads back empty. */
  lemma {:induction false} IntendedRecordRoundTrip(buf: seq<byte>, pos: nat, syms: seq<byte>, w: map<byte, seq<char>>, data: seq<byte>, field: nat, end: nat)
    requires AllBits(w) && (data == [] || Readable(syms, w, data))
    requires |Encode(data, w)| + 7 < 0x1_0000_0000 && field == IntendedField(|Encode(data, w)|)
    requires Contains(buf, pos, RecordBytes(syms, w, data, field)) && end == pos + |RecordBytes(syms, w, data, field)|
    ensures ParseRecord(buf, pos) == Some(Parsed(data, end))
  {
    if data == [] {
      EmptyRecordReads(buf, pos);
    } else {
      IntendedFieldRounds(Encode(data, w));
      RecordReadsExactly(buf, pos, syms, w, data, field, end);
    }
  }

  /** The code bits of decodable data decode back to it. */
  lemma {:induction false} DecodeAll(data: seq<byte>, w: map<byte, seq<char>>, r: map<seq<char>, byte>)
    requires forall i :: 0 <= i < |data| ==> Decodable(data[i], w, r)
    ensures Decode(Encode(data, w), r) == data
  {
    DecodeEncode(data, w, r, []);
    assert Encode(data, w) + [] == Encode(data, w);
    assert data + [] == data;
  }

  /** With the count written as bits + 1, as `compressFileUtil` does, the
      record still reads back exactly when the number of code bits is
      not a multiple of 8. */
  lemma {:induction false} WrittenRecordRoundTrip(buf: seq<byte>, pos: nat, syms: seq<byte>, w: map<byte, seq<char>>, data: seq<byte>, field: nat, end: nat)
    requires data != [] && Readable(syms, w, data)
    requires |Encode(data, w)| + 8 < 0x1_0000_0000 && |Encode(data, w)| % 8 != 0
    requires field == WrittenField(|Encode(data, w)|)
    requires Contains(buf, pos, RecordBytes(syms, w, data, field)) && end == pos + |RecordBytes(syms, w, data, field)|
    ensures ParseRecord(buf, pos) == Some(Parsed(data, end))
  {
    WrittenFieldRounds(Encode(data, w));
    RecordReadsExactly(buf, pos, syms, w, data, field, end);
  }

  /** When the number of code bits is a multiple of 8, the count written
      as bits + 1 rounds up to one byte more than was written: the reader
      takes the byte after the record (the next entry's first byte,
      or the terminating '\0'), decodes its bits as extra symbols and
      returns a position one past the record. */
  lemma {:induction false} WrittenRecordOverReads(buf: seq<byte>, pos: nat, syms: seq<byte>, w: map<byte, seq<char>>, data: seq<byte>, field: nat, end: nat, extra: byte)
    requires data != [] && Readable(syms, w, data)
    requires |Encode(data, w)| + 8 < 0x1_0000_0000 && |Encode(data, w)| % 8 == 0
    requires field == WrittenField(|Encode(data, w)|)
    requires Contains(buf, pos, RecordBytes(syms, w, data, field)) && end == pos + |RecordBytes(syms, w, data, field)|
    requires At(buf, end) == Some(extra)
    ensures ParseRecord(buf, pos) == Some(Parsed(data + Decode(ByteBits(extra), ReaderTable(syms, w)), end + 1))
  {
    WrittenFieldRounds(Encode(data, w));
    RecordReadsOneMore(buf, pos, syms, w, data, field, end, extra);
  }

  /** The symbol count is written as `(char)N`. With all 256 symbols
      present it wraps to 0, and the reader takes the record for that of an
      empty file: it yields nothing and stops after the first byte. */
  lemma {:induction false} FullAlphabetReadsEmpty(buf: seq<byte>, pos: nat, syms: seq<byte>, w: map<byte, seq<char>>, data: seq<byte>, field: nat)
    requires AllBits(w) && data != [] && |syms| == 256
    requires Contains(buf, pos, RecordBytes(syms, w, data, field))
    ensures ParseRecord(buf, pos) == Some(Parsed([], pos + 1))
  {
    var r := RecordBytes(syms, w, data, field);
    assert r[0] == Truncate(256) == 0;
    assert buf[pos] == r[0];
  }

  /** With 128 to 255 symbols the count reads back as a negative `char`,
      and the reader fails on the record. */
  lemma {:induction false} SignedCountFails(buf: seq<byte>, pos: nat, syms: seq<byte>, w: map<byte, seq<char>>, data: seq<byte>, field: nat)
    requires AllBits(w) && data != [] && 128 <= |syms| < 256
    requires Contains(buf, pos, RecordBytes(syms, w, data, field))
    ensures ParseRecord(buf, pos).None?
  {
    var r := RecordBytes(syms, w, data, field);
    assert r[0] == Truncate(|syms|);
    assert buf[pos] == r[0];
  }
}
