/** The `huffmanCompress` object (huffmanCompress.h:31-46) and its
    compressing side (huffmanCompress.cpp): `buildTree`, the lone-symbol
    fix, the encoding loop, the header drain of `pq`, the four-byte count
    and the payload loop of `compressFileUtil` and `compressFile`. Each
    method is proved against the layout functions of `Format`. */
module Compressor {
  import opened Bytes
  import opened Bits
  import opened Huffman
  import opened TreeBuild
  import opened Format
  import opened Heap

  /** `CompareNode` as the key the heap compares by: `a` is less than `b`
      exactly when `a.freq < b.freq`. */
  function FreqKey(n: Node): int
  {
    n.freq
  }

  /** `freq`: the loop `freq[c]++` over the text. */
  method CountFrequencies(text: seq<byte>) returns (freq: seq<int>)
    ensures freq == Frequencies(text)
    ensures Sum(freq) == |text|
  {
    freq := seq(256, s => 0);
    SumZeros(256);
    assert text[..0] == [];
    var i := 0;
    while i < |text|
      invariant i <= |text|
      invariant freq == Frequencies(text[..i])
      invariant Sum(freq) == i
    {
      var c := text[i];
      FrequenciesAppend(text[..i], c);
      SumIncrement(freq, c as nat);
      freq := freq[c := freq[c] + 1];
      assert text[..i + 1] == text[..i] + [c];
      i := i + 1;
    }
    assert text[..|text|] == text;
  }

  /** The node inserted for the trees extracted first, `a`, and second,
      `b`: their frequencies summed, with the orientation fix that puts an
      internal node on the left of a leaf. */
  function Join(a: Node, b: Node): (r: Node)
    ensures r.Internal? && r.freq == a.freq + b.freq
    ensures (r.left == a && r.right == b) || (r.left == b && r.right == a)
    ensures !(r.left.Leaf? && r.right.Internal?)
  {
    if a.Leaf? && b.Internal? then Internal(a.freq + b.freq, b, a)
    else Internal(a.freq + b.freq, a, b)
  }

  /** A tree that no tree of `bag` is less than, under `CompareNode`, has
      the least frequency of the bag. */
  lemma {:induction false} LeastByFreq(h: MinHeap<Node>, bag: multiset<Node>, m: Node)
    requires h.key == FreqKey && forall x :: x in bag ==> !h.Comp(x, m)
    ensures Least(m, bag)
  {
  }

  /** `m` has the least frequency of `bag`. */
  ghost predicate Least(m: Node, bag: multiset<Node>)
  {
    forall x :: x in bag ==> m.freq <= x.freq
  }

  /** One round of the merge loop of `buildTree`: take the two least
      trees, put the internal one on the left of a leaf, and insert their
      merge. On an empty heap the first `extractMin` throws
      `underflow_error`, reported as `underflow`. `trees` is the bag of
      trees the heap holds; `a` and `b` are the trees extracted, each of
      least frequency among those left when it is taken. */
  method MergeRound(h: MinHeap<Node>, ghost trees: seq<Node>) returns (underflow: bool, ghost next: seq<Node>, ghost a: Node, ghost b: Node)
    requires h.Valid() && h.key == FreqKey
    requires multiset(h.data) == multiset(trees) && |h.data| != 1
    modifies h
    ensures h.Valid()
    ensures underflow <==> trees == []
    ensures !underflow ==> a in multiset(trees) && Least(a, multiset(trees))
    ensures !underflow ==> b in multiset(trees) - multiset{a} && Least(b, multiset(trees) - multiset{a})
    ensures !underflow ==> multiset(next) == multiset(trees) - multiset{a} - multiset{b} + multiset{Join(a, b)}
    ensures !underflow ==> multiset(h.data) == multiset(next) && |h.data| == old(|h.data|) - 1
    ensures !underflow ==> ForestLeaves(next) == ForestLeaves(trees) && FreqTotal(next) == FreqTotal(trees)
    ensures !underflow && AllWellFormed(trees) ==> AllWellFormed(next)
  {
    var x, y;
    underflow, x, y := TakeTwo(h, trees);
    if underflow {
      return true, trees, x, y;
    }
    // the orientation fix: an internal node goes to the left of a leaf
    h.Insert(Join(x, y));
    a, b := x, y;
    next := JoinRound(trees, a, b);
  }

  /** The forest after a round that joins `a` and `b` keeps the leaves,
      the total frequency and the well-formedness of the forest before. */
  lemma {:induction false} JoinRound(trees: seq<Node>, a: Node, b: Node) returns (next: seq<Node>)
    requires a in multiset(trees) && b in multiset(trees) - multiset{a}
    ensures multiset(next) == multiset(trees) - multiset{a} - multiset{b} + multiset{Join(a, b)}
    ensures ForestLeaves(next) == ForestLeaves(trees) && FreqTotal(next) == FreqTotal(trees)
    ensures AllWellFormed(trees) ==> AllWellFormed(next)
  {
    if a.Leaf? && b.Internal? {
      next := MergeRoundBag(trees, a, b, b, a);
    } else {
      next := MergeRoundBag(trees, a, b, a, b);
    }
  }

  /** The two `extractMin` calls of a merge round: `x` is of least
      frequency in the heap and `y` of least frequency among the rest. */
  method TakeTwo(h: MinHeap<Node>, ghost trees: seq<Node>) returns (underflow: bool, x: Node, y: Node)
    requires h.Valid() && h.key == FreqKey
    requires multiset(h.data) == multiset(trees) && |h.data| != 1
    modifies h
    ensures h.Valid()
    ensures underflow <==> trees == []
    ensures !underflow ==> x in multiset(trees) && Least(x, multiset(trees))
    ensures !underflow ==> y in multiset(trees) - multiset{x} && Least(y, multiset(trees) - multiset{x})
    ensures !underflow ==> multiset(h.data) == multiset(trees) - multiset{x} - multiset{y} && |h.data| == old(|h.data|) - 2
  {
    ghost var bag := multiset(h.data);
    var first := h.ExtractMin();
    if first.Underflow? {
      assert |trees| == |multiset(trees)| == 0;
      return true, Leaf(0, 0), Leaf(0, 0);
    }
    assert |trees| >= 2 by {
      assert |trees| == |multiset(trees)| == |bag|;
    }
    LeastByFreq(h, bag, first.value);
    ghost var rest := multiset(h.data);
    var second := h.ExtractMin();
    LeastByFreq(h, rest, second.value);
    underflow, x, y := false, first.value, second.value;
  }

  /** A bag of one tree held in a heap of one element is that element. */
  lemma {:induction false} LastTree(trees: seq<Node>, data: seq<Node>)
    requires multiset(data) == multiset(trees) && |data| == 1
    ensures trees == [data[0]]
    ensures FreqTotal(trees) == data[0].freq && ForestLeaves(trees) == LeafNodes(data[0])
  {
    assert |trees| == |multiset(trees)| == 1;
    assert data[0] in multiset(trees);
    assert trees[1..] == [];
  }

  /** The merge loop of `buildTree` on its copy of `pq`, then the final
      `extractMin` that gives the root. On an empty heap the first
      `extractMin` throws `underflow_error`, reported as `None`. `forest`
      is the bag of trees the heap holds. */
  method MergeAll(h: MinHeap<Node>, ghost forest: seq<Node>) returns (r: Option<Node>)
    requires h.Valid() && h.key == FreqKey
    requires multiset(h.data) == multiset(forest)
    modifies h
    ensures r.None? <==> forest == []
    ensures r.Some? ==> MergedFrom(r.value, forest)
  {
    ghost var trees := forest;
    while h.Size() != 1
      invariant h.Valid() && h.key == FreqKey
      invariant multiset(h.data) == multiset(trees)
      invariant forest == [] <==> trees == []
      invariant ForestLeaves(trees) == ForestLeaves(forest)
      invariant FreqTotal(trees) == FreqTotal(forest)
      invariant AllWellFormed(forest) ==> AllWellFormed(trees)
      decreases |h.data|
    {
      var underflow;
      ghost var a, b;
      underflow, trees, a, b := MergeRound(h, trees);
      if underflow {
        return None;
      }
    }
    LastTree(trees, h.data);
    var last := h.ExtractMin();
    r := Some(last.value);
  }

  /** The header order of `compressFileUtil`: `pq` is drained with
      `extractMin`, so no node comes before one of smaller frequency. */
  ghost predicate Ascending(order: seq<Node>)
  {
    forall i, j :: 0 <= i < j < |order| ==> order[i].freq <= order[j].freq
  }

  /** The lone-symbol fix on `charWithCode`: when the table has a single
      entry and its code is empty, the code becomes "0". */
  method FixLoneCode(codes: map<byte, seq<char>>) returns (r: map<byte, seq<char>>)
    ensures r == LoneFix(codes)
  {
    r := codes;
    if |codes| == 1 {
      var s :| s in codes;
      LoneKey(codes, s);
      if codes[s] == [] {
        r := codes[s := ['0']];
      }
    }
  }

  /** A table of one entry has no other key. */
  lemma {:induction false} LoneKey(codes: map<byte, seq<char>>, s: byte)
    requires |codes| == 1 && s in codes
    ensures codes.Keys == {s}
  {
    forall t | t in codes
      ensures t == s
    {
      var rest := codes.Keys - {s};
      assert codes.Keys == rest + {s};
      assert |rest| == 0;
      assert t !in rest;
    }
  }

  /** The loop `encoded_data += charWithCode[c]` over the data. */
  method EncodeData(data: seq<byte>, codes: map<byte, seq<char>>) returns (bits: seq<char>)
    ensures bits == Encode(data, codes)
  {
    bits := [];
    for i := 0 to |data|
      invariant bits == Encode(data[..i], codes)
    {
      EncodeAppend(data[..i], [data[i]], codes);
      assert Encode([data[i]], codes) == CodeOf(codes, data[i]) + Encode([], codes);
      bits := bits + CodeOf(codes, data[i]);
      assert data[..i + 1] == data[..i] + [data[i]];
    }
    assert data[..|data|] == data;
  }

  /** `v >> (i * 8)` for a non-negative `v`: `i` shifts right by a byte. */
  function ShiftBytes(v: nat, i: nat): nat
  {
    if i == 0 then v else Shr8(ShiftBytes(v, i - 1))
  }

  /** Byte `i` of the length field is the low byte of `v >> (i * 8)`. */
  lemma {:induction false} LittleEndianByte(v: nat, i: nat)
    requires i < 4
    ensures LittleEndian32(v)[i] == Truncate(ShiftBytes(v, i))
  {
    if i > 0 {
      assert ShiftBytes(v, 1) == Shr8(v);
    }
    if i > 1 {
      assert ShiftBytes(v, 2) == Shr8(Shr8(v));
    }
    if i > 2 {
      assert ShiftBytes(v, 3) == Shr8(Shr8(Shr8(v)));
    }
  }

  /** The loop `in += (char)(encoded_data_size >> (i * 8))`, i = 0..3. */
  method WriteCount(v: nat) returns (out: seq<byte>)
    ensures out == LittleEndian32(v)
  {
    out := [];
    for i := 0 to 4
      invariant out == LittleEndian32(v)[..i]
    {
      LittleEndianByte(v, i);
      out := out + [Truncate(ShiftBytes(v, i))];
      assert LittleEndian32(v)[..i + 1] == LittleEndian32(v)[..i] + [LittleEndian32(v)[i]];
    }
  }

  /** The padding byte and the payload loop: `(char)padding`, then each
      8-character chunk of the zero-padded bits as one byte, until the
      padded string is empty. */
  method WritePayload(bits: seq<char>) returns (out: seq<byte>)
    requires IsBits(bits)
    ensures out == Payload(bits)
  {
    var padding := (8 - |bits| % 8) % 8;
    out := [Truncate(padding)];
    var padded := Zeros(padding) + bits;
    while padded != []
      invariant IsBits(padded) && |padded| % 8 == 0
      invariant out + Pack(padded) == Payload(bits)
      decreases |padded|
    {
      var b := BinaryToDecimal(padded[..8]) as byte;
      assert Pack(padded) == [b] + Pack(padded[8..]);
      ConcatAssoc(out, [b], Pack(padded[8..]));
      out := out + [b];
      padded := padded[8..];
    }
  }

  /** The `huffmanCompress` object: the `root` of the last tree built and
      the priority queue `pq` of leaves, which `buildTree` fills and the
      header loop drains. */
  class HuffmanCompress {
    var root: Option<Node>
    const pq: MinHeap<Node>

    /** `pq` is a heap ordered by `CompareNode`. */
    ghost predicate Valid()
      reads this, pq
    {
      pq.Valid() && pq.key == FreqKey
    }

    /** Between two compressions `pq` is empty. */
    ghost predicate Idle()
      reads this, pq
    {
      Valid() && pq.data == []
    }

    /** `huffmanCompress()`: no tree and an empty queue. */
    constructor ()
      ensures Idle() && root == None && fresh(pq)
    {
      root := None;
      pq := new MinHeap(FreqKey);
    }

    /** The loop of `buildTree` that inserts a leaf into `pq` for every
        byte value with a non-zero count, in ascending byte order. */
    method InsertLeaves(freq: seq<int>)
      requires Valid() && |freq| == 256
      modifies pq
      ensures Valid()
      ensures multiset(pq.data) == old(multiset(pq.data)) + multiset(AllLeaves(freq))
    {
      for i := 0 to 256
        invariant Valid()
        invariant multiset(pq.data) == old(multiset(pq.data)) + multiset(InitialLeaves(freq, i))
      {
        InitialLeavesStep(freq, i);
        if freq[i] != 0 {
          pq.Insert(Leaf(i as byte, freq[i]));
        }
      }
    }

    /** `buildTree`: counts the bytes of `text`, adds their leaves to `pq`,
        merges a copy of `pq` down to one tree, stores it in `root` and
        adds its codes to `codes`. When the copy is empty the first
        `extractMin` throws `underflow_error`: `None`, and `root` is kept. */
    method BuildTree(text: seq<byte>, codes: map<byte, seq<char>>) returns (r: Option<map<byte, seq<char>>>)
      requires Valid()
      modifies this, pq
      ensures Valid()
      ensures multiset(pq.data) == old(multiset(pq.data)) + multiset(AllLeaves(Frequencies(text)))
      ensures r.None? <==> old(pq.data) == [] && text == []
      ensures r.None? ==> root == old(root)
      ensures r.Some? ==> root.Some? && r.value == GenerateCodes(root.value, [], codes)
      ensures r.Some? ==> MergedFrom(root.value, old(pq.data) + AllLeaves(Frequencies(text)))
    {
      ghost var before := pq.data;
      var freq := CountFrequencies(text);
      InsertLeaves(freq);
      ghost var forest := before + AllLeaves(freq);
      assert forest == [] <==> before == [] && text == [] by {
        LeavesOfText(text);
      }
      r := PlantTree(forest, codes);
    }

    /** The end of `buildTree`: merges a copy of `pq`, which holds
        `forest`, stores the tree in `root` and adds its codes to `codes`;
        `None` when the copy is empty. */
    method PlantTree(ghost forest: seq<Node>, codes: map<byte, seq<char>>) returns (r: Option<map<byte, seq<char>>>)
      requires Valid() && multiset(pq.data) == multiset(forest)
      modifies this
      ensures Valid()
      ensures r.None? <==> forest == []
      ensures r.None? ==> root == old(root)
      ensures r.Some? ==> root.Some? && r.value == GenerateCodes(root.value, [], codes)
      ensures r.Some? ==> MergedFrom(root.value, forest)
    {
      var t := MergeCopy(pq, forest);
      if t.Some? {
        root := t;
        r := Some(GenerateCodes(t.value, [], codes));
      } else {
        r := None;
      }
    }

    /** `HuffmanTree = pq`: merges a copy of `pq`, which holds `forest`,
        down to one tree; `pq` itself is left as it is. */
    static method MergeCopy(pq: MinHeap<Node>, ghost forest: seq<Node>) returns (r: Option<Node>)
      requires pq.Valid() && pq.key == FreqKey
      requires multiset(pq.data) == multiset(forest)
      ensures r.None? <==> forest == []
      ensures r.Some? ==> MergedFrom(r.value, forest)
    {
      var tree := new MinHeap.Copy(pq);
      r := MergeAll(tree, forest);
    }

    /** One round of the header loop: extract the least node of `pq` and
        write its entry, the symbol `ch`, `(char)` of the length of
        `charWithCode[ch]` and that code. */
    method TakeEntry(codes: map<byte, seq<char>>) returns (entry: seq<byte>, ghost node: Node)
      requires Valid() && pq.data != []
      modifies pq
      ensures Valid()
      ensures multiset(pq.data) + multiset{node} == old(multiset(pq.data))
      ensures node in old(pq.data) && forall x :: x in pq.data ==> x in old(pq.data)
      ensures forall x :: x in old(pq.data) ==> node.freq <= x.freq
      ensures entry == HeaderEntry(NodeChar(node), codes)
    {
      var current := pq.ExtractMin();
      node := current.value;
      var ch := NodeChar(current.value);
      var code := CodeOf(codes, ch);
      entry := [ch] + [Truncate(|code|)] + CodeBytes(code);
      assert [ch] + [Truncate(|code|)] == [ch, Truncate(|code|)];
      forall x | x in pq.data
        ensures x in old(pq.data)
      {
        assert x in multiset(pq.data);
      }
      forall x | x in old(pq.data)
        ensures node.freq <= x.freq
      {
        assert x in old(multiset(pq.data));
        assert !pq.Comp(x, node);
      }
    }

    /** The header loop: while `pq` is not empty, take its least node and
        append its entry. `order` is the sequence of extracted nodes. */
    method WriteHeader(codes: map<byte, seq<char>>) returns (out: seq<byte>, ghost order: seq<Node>)
      requires Valid()
      modifies pq
      ensures Idle()
      ensures multiset(order) == old(multiset(pq.data))
      ensures Ascending(order)
      ensures out == Header(SymbolsOf(order), codes)
    {
      out, order := [], [];
      while !pq.Empty()
        invariant Valid()
        invariant multiset(order) + multiset(pq.data) == old(multiset(pq.data))
        invariant Ascending(order)
        invariant forall i, x :: 0 <= i < |order| && x in pq.data ==> order[i].freq <= x.freq
        invariant out == Header(SymbolsOf(order), codes)
        decreases |pq.data|
      {
        var entry, node := TakeEntry(codes);
        HeaderAppend(SymbolsOf(order), NodeChar(node), codes);
        SymbolsAppend(order, node);
        out := out + entry;
        order := order + [node];
      }
    }

    /** The steps `compressFile` and `compressFileUtil` share for
        non-empty data: `buildTree` with an empty `charWithCode`, the
        lone-symbol fix, the encoding loop, `(char)pq.size()` and the
        header loop. */
    method Prepare(data: seq<byte>) returns (codes: map<byte, seq<char>>, bits: seq<char>, head: seq<byte>, ghost order: seq<Node>)
      requires Idle() && data != []
      modifies this, pq
      ensures Idle() && root.Some?
      ensures Built(root.value, order, data) && WellFormed(root.value) && root.value.freq == |data|
      ensures Ascending(order)
      ensures codes == CodeTable(root.value) && bits == Encode(data, codes)
      ensures head == [Truncate(|order|)] + Header(SymbolsOf(order), codes)
    {
      var built := BuildTree(data, map[]);
      MergedFromText(root.value, data);
      codes := FixLoneCode(built.value);
      bits := EncodeData(data, codes);
      head := [Truncate(|pq.data|)];
      ghost var count := |pq.data|;
      var entries;
      entries, order := WriteHeader(codes);
      assert |order| == |multiset(order)| == count;
      head := head + entries;
    }

    /** `compressFileUtil` on the bytes of one file: `[0]` for an empty
        file; otherwise the symbol count, the header, the four-byte count
        `encoded_data.size() + 1` and the payload. */
    method CompressFileUtil(data: seq<byte>) returns (out: seq<byte>, ghost order: seq<Node>)
      requires Idle()
      modifies this, pq
      ensures Idle()
      ensures data == [] ==> out == [0] && root == old(root)
      ensures data != [] ==> root.Some? && Built(root.value, order, data) && WellFormed(root.value) && Ascending(order)
      ensures data != [] ==>
                var w := CodeTable(root.value);
                out == RecordBytes(SymbolsOf(order), w, data, WrittenField(|Encode(data, w)|))
    {
      if data == [] {
        return [0], [];
      }
      var codes, bits, head;
      codes, bits, head, order := Prepare(data);
      var count := WriteCount((|bits| + 1) % 0x1_0000_0000);
      var payload := WritePayload(bits);
      out := head + count + payload;
    }

    /** `compressFile` on the bytes of one file, the content of the
        `.huff` file: `[0, 0]` for an empty file; otherwise the symbol
        count, the header and the payload. */
    method CompressFile(data: seq<byte>) returns (out: seq<byte>, ghost order: seq<Node>)
      requires Idle()
      modifies this, pq
      ensures Idle()
      ensures data == [] ==> out == [0, 0] && root == old(root)
      ensures data != [] ==> root.Some? && Built(root.value, order, data) && WellFormed(root.value) && Ascending(order)
      ensures data != [] ==> out == SingleFileBytes(SymbolsOf(order), CodeTable(root.value), data)
    {
      if data == [] {
        return [0, 0], [];
      }
      var codes, bits, head;
      codes, bits, head, order := Prepare(data);
      var payload := WritePayload(bits);
      out := head + payload;
    }
  }
}
