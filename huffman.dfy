/** The Huffman tree and its code table: `struct Node` and `CompareNode`
    (huffmanCompress.h), `generateCodes`, the lone-symbol fix, the encoding
    loop and the greedy decoding loop (huffmanCompress.cpp). */
module Huffman {
  import opened Bytes
  import opened Bits

  /** `struct Node`. A leaf has both children null; an internal node has
      both set. The `ch` of an internal node is always ' ' and is never
      read, so the model drops it. */
  datatype Node = Leaf(ch: byte, freq: int) | Internal(freq: int, left: Node, right: Node)

  /** The leaf test `!node->left && !node->right`. */
  predicate IsLeaf(n: Node)
  {
    n.Leaf?
  }

  /** `CompareNode`: strict `<` on frequency only, with no tie-break. */
  predicate CompareNode(a: Node, b: Node)
  {
    a.freq < b.freq
  }

  /** `CompareNode` is a strict order that never separates nodes of equal
      frequency. */
  lemma CompareNodeOrder(a: Node, b: Node, c: Node)
    ensures !CompareNode(a, a)
    ensures CompareNode(a, b) ==> !CompareNode(b, a)
    ensures CompareNode(a, b) && CompareNode(b, c) ==> CompareNode(a, c)
    ensures a.freq == b.freq ==> !CompareNode(a, b) && !CompareNode(b, a)
  {
  }

  /** The symbols stored at the leaves. */
  function Symbols(t: Node): set<byte>
  {
    match t
    case Leaf(ch, _) => {ch}
    case Internal(_, l, r) => Symbols(l) + Symbols(r)
  }

  /** The leaves themselves, with multiplicity. */
  function LeafNodes(t: Node): multiset<Node>
  {
    match t
    case Leaf(_, _) => multiset{t}
    case Internal(_, l, r) => LeafNodes(l) + LeafNodes(r)
  }

  /** A tree the builder can produce: every internal node's frequency is
      the sum of its children's, and after the orientation fix no internal
      node has a leaf on the left and an internal node on the right. */
  predicate WellFormed(t: Node)
  {
    match t
    case Leaf(_, _) => true
    case Internal(f, l, r) =>
      && f == l.freq + r.freq
      && !(l.Leaf? && r.Internal?)
      && WellFormed(l) && WellFormed(r)
  }

  /** The symbol of the leaf reached by following `path` from `t` ('0' is
      left, '1' is right), if the path ends exactly at a leaf. */
  function LeafAt(t: Node, path: seq<char>): Option<byte>
  {
    match t
    case Leaf(ch, _) => if path == [] then Some(ch) else None
    case Internal(_, l, r) =>
      if path == [] then None
      else if path[0] == '0' then LeafAt(l, path[1..])
      else if path[0] == '1' then LeafAt(r, path[1..])
      else None
  }

  predicate IsPrefix(p: seq<char>, q: seq<char>)
  {
    |p| <= |q| && q[..|p|] == p
  }

  /** The leaves carry exactly the tree's symbols. */
  lemma {:induction false} LeavesCarrySymbols(t: Node, s: byte)
    ensures s in Symbols(t) <==> exists n :: n in LeafNodes(t) && n.Leaf? && n.ch == s
    ensures forall n :: n in LeafNodes(t) ==> n.Leaf?
  {
    match t
    case Leaf(_, _) =>
      assert t in LeafNodes(t);
    case Internal(_, l, r) =>
      LeavesCarrySymbols(l, s);
      LeavesCarrySymbols(r, s);
  }

  /** A path to a leaf is shorter than the number of leaves. */
  lemma {:induction false} LeafPathBound(t: Node, p: seq<char>)
    requires LeafAt(t, p).Some?
    ensures |p| < |LeafNodes(t)|
  {
    match t
    case Leaf(_, _) =>
    case Internal(_, l, r) =>
      LeafCount(l);
      LeafCount(r);
      if p[0] == '0' {
        LeafPathBound(l, p[1..]);
      } else {
        LeafPathBound(r, p[1..]);
      }
  }

  lemma {:induction false} LeafCount(t: Node)
    ensures |LeafNodes(t)| >= 1
  {
    match t
    case Leaf(_, _) =>
    case Internal(_, l, r) =>
      LeafCount(l);
  }

  /** A leaf path is a bit string, and it is empty only at a leaf root. */
  lemma {:induction false} LeafPathShape(t: Node, p: seq<char>)
    requires LeafAt(t, p).Some?
    ensures IsBits(p)
    ensures p == [] <==> t.Leaf?
    ensures LeafAt(t, p).value in Symbols(t)
  {
    match t
    case Leaf(_, _) =>
    case Internal(_, l, r) =>
      if p[0] == '0' {
        LeafPathShape(l, p[1..]);
      } else {
        LeafPathShape(r, p[1..]);
      }
      assert p == [p[0]] + p[1..];
  }

  /** Paths to leaves are prefix-free: one leaf path extends another only
      when they are the same path. */
  lemma {:induction false} LeafPathsPrefixFree(t: Node, p: seq<char>, q: seq<char>)
    requires LeafAt(t, p).Some? && LeafAt(t, q).Some?
    requires IsPrefix(p, q)
    ensures p == q
  {
    match t
    case Leaf(_, _) =>
    case Internal(_, l, r) =>
      assert p[0] == q[0];
      assert IsPrefix(p[1..], q[1..]);
      if p[0] == '0' {
        LeafPathsPrefixFree(l, p[1..], q[1..]);
      } else {
        LeafPathsPrefixFree(r, p[1..], q[1..]);
      }
      assert p == [p[0]] + p[1..] && q == [q[0]] + q[1..];
  }

  /** `generateCodes`: in-order traversal that records, at each leaf, the
      path taken so far. A later leaf with the same symbol overwrites an
      earlier one, as `charWithCode[node->ch] = code` does. */
  function GenerateCodes(node: Node, code: seq<char>, table: map<byte, seq<char>>): map<byte, seq<char>>
  {
    match node
    case Leaf(ch, _) => table[ch := code]
    case Internal(_, l, r) => GenerateCodes(r, code + ['1'], GenerateCodes(l, code + ['0'], table))
  }

  /** `generateCodes` adds exactly the tree's symbols, leaves the other
      entries alone, and gives each symbol `code` followed by the path to a
      leaf holding that symbol. */
  lemma {:induction false} GenerateCodesSpec(node: Node, code: seq<char>, table: map<byte, seq<char>>)
    ensures GenerateCodes(node, code, table).Keys == table.Keys + Symbols(node)
    ensures forall s :: s in table && s !in Symbols(node) ==> GenerateCodes(node, code, table)[s] == table[s]
    ensures forall s :: s in Symbols(node) ==>
              IsPrefix(code, GenerateCodes(node, code, table)[s])
              && LeafAt(node, GenerateCodes(node, code, table)[s][|code|..]) == Some(s)
  {
    match node
    case Leaf(ch, _) =>
      assert GenerateCodes(node, code, table)[ch][|code|..] == [];
    case Internal(_, l, rt) =>
      var afterLeft := GenerateCodes(l, code + ['0'], table);
      var result := GenerateCodes(rt, code + ['1'], afterLeft);
      GenerateCodesSpec(l, code + ['0'], table);
      GenerateCodesSpec(rt, code + ['1'], afterLeft);
      forall s | s in Symbols(node)
        ensures IsPrefix(code, result[s]) && LeafAt(node, result[s][|code|..]) == Some(s)
      {
        if s in Symbols(rt) {
          ChildPath(node, code, result[s], s);
        } else {
          assert result[s] == afterLeft[s];
          ChildPath(node, code, result[s], s);
        }
      }
  }

  /** A path through the left or right child, after `code` and the child's
      bit, is a path through the node after `code`. */
  lemma {:induction false} ChildPath(node: Node, code: seq<char>, c: seq<char>, s: byte)
    requires node.Internal?
    requires || (IsPrefix(code + ['0'], c) && LeafAt(node.left, c[|code| + 1..]) == Some(s))
             || (IsPrefix(code + ['1'], c) && LeafAt(node.right, c[|code| + 1..]) == Some(s))
    ensures IsPrefix(code, c) && LeafAt(node, c[|code|..]) == Some(s)
  {
    assert c[|code|..][0] == c[|code|];
    assert c[|code|..][1..] == c[|code| + 1..];
  }

  /** The fix applied when the table has one entry: an empty code (a tree
      that is a single leaf) becomes "0". */
  function LoneFix(table: map<byte, seq<char>>): (r: map<byte, seq<char>>)
    ensures r.Keys == table.Keys
    ensures |table| != 1 ==> r == table
  {
    map s | s in table :: if |table| == 1 && table[s] == [] then ['0'] else table[s]
  }

  /** Every code of the table is a bit string. */
  predicate AllBits(table: map<byte, seq<char>>)
  {
    forall s :: s in table ==> IsBits(table[s])
  }

  /** The codes `generateCodes` assigns from the root are leaf paths. */
  lemma RootCodesArePaths(root: Node)
    ensures forall s :: s in GenerateCodes(root, [], map[]) ==>
              LeafAt(root, GenerateCodes(root, [], map[])[s]) == Some(s)
              && IsBits(GenerateCodes(root, [], map[])[s])
  {
    var raw := GenerateCodes(root, [], map[]);
    GenerateCodesSpec(root, [], map[]);
    forall s | s in raw
      ensures LeafAt(root, raw[s]) == Some(s) && IsBits(raw[s])
    {
      assert raw[s][0..] == raw[s];
      LeafPathShape(root, raw[s]);
    }
  }

  /** The table the compressor encodes with. */
  function CodeTable(root: Node): (r: map<byte, seq<char>>)
    ensures AllBits(r)
  {
    RootCodesArePaths(root);
    LoneFix(GenerateCodes(root, [], map[]))
  }

  /** No code of the table is a prefix of another symbol's code. */
  ghost predicate PrefixFree(table: map<byte, seq<char>>)
  {
    forall a, b :: a in table && b in table && a != b ==> !IsPrefix(table[a], table[b])
  }

  /** Every symbol of the tree has a non-empty bit-string code, and the
      table is prefix-free (a single-leaf tree gets "0"). */
  lemma CodeTableProperties(root: Node)
    ensures CodeTable(root).Keys == Symbols(root)
    ensures forall s :: s in CodeTable(root) ==> |CodeTable(root)[s]| >= 1 && IsBits(CodeTable(root)[s])
    ensures PrefixFree(CodeTable(root))
  {
    var raw := GenerateCodes(root, [], map[]);
    var w := CodeTable(root);
    GenerateCodesSpec(root, [], map[]);
    forall s | s in raw
      ensures LeafAt(root, raw[s]) == Some(s) && IsBits(raw[s])
      ensures raw[s] == [] <==> root.Leaf?
    {
      assert raw[s][0..] == raw[s];
      LeafPathShape(root, raw[s]);
    }
    if root.Leaf? {
      assert raw.Keys == {root.ch};
      assert w == map[root.ch := ['0']];
    } else {
      forall a, b | a in w && b in w && a != b
        ensures !IsPrefix(w[a], w[b])
      {
        if IsPrefix(w[a], w[b]) {
          LeafPathsPrefixFree(root, raw[a], raw[b]);
        }
      }
    }
  }

  /** No code is longer than the tree has leaves. */
  lemma CodeLengthBound(root: Node)
    ensures forall s :: s in CodeTable(root) ==> |CodeTable(root)[s]| <= |LeafNodes(root)|
  {
    var raw := GenerateCodes(root, [], map[]);
    GenerateCodesSpec(root, [], map[]);
    LeafCount(root);
    forall s | s in raw
      ensures |raw[s]| < |LeafNodes(root)|
    {
      assert raw[s][0..] == raw[s];
      LeafPathBound(root, raw[s]);
    }
  }

  /** `std::map::operator[]`: a missing symbol reads as the empty code. */
  function CodeOf(table: map<byte, seq<char>>, s: byte): seq<char>
  {
    if s in table then table[s] else []
  }

  /** The bit string `encoded_data`: the codes of `data`, in order. */
  function Encode(data: seq<byte>, table: map<byte, seq<char>>): (r: seq<char>)
    ensures (forall s :: s in table ==> IsBits(table[s])) ==> IsBits(r)
  {
    if data == [] then [] else CodeOf(table, data[0]) + Encode(data[1..], table)
  }

  lemma {:induction false} EncodeAppend(a: seq<byte>, b: seq<byte>, table: map<byte, seq<char>>)
    ensures Encode(a + b, table) == Encode(a, table) + Encode(b, table)
    decreases |a|
  {
    if a == [] {
      assert a + b == b;
    } else {
      assert (a + b)[0] == a[0] && (a + b)[1..] == a[1..] + b;
      EncodeAppend(a[1..], b, table);
    }
  }

  /** The inner decoding loop: the length of the shortest prefix of `bits`,
      at least `k` long, that is a code of `table`. */
  function FirstMatch(bits: seq<char>, table: map<seq<char>, byte>, k: nat): (r: Option<nat>)
    ensures r.Some? ==> k <= r.value <= |bits| && bits[..r.value] in table
    decreases |bits| - k
  {
    if k > |bits| then None
    else if bits[..k] in table then Some(k)
    else FirstMatch(bits, table, k + 1)
  }

  /** The match found is a code, and no shorter candidate from `k` on is. */
  lemma {:induction false} FirstMatchSpec(bits: seq<char>, table: map<seq<char>, byte>, k: nat)
    ensures var r := FirstMatch(bits, table, k);
            && (r.Some? ==> forall j :: k <= j < r.value ==> bits[..j] !in table)
            && (r.None? ==> forall j :: k <= j <= |bits| ==> bits[..j] !in table)
    decreases |bits| - k
  {
    if k <= |bits| && bits[..k] !in table {
      FirstMatchSpec(bits, table, k + 1);
    }
  }

  /** The decoding loops of `decompressFileUtil`: grow a candidate code bit
      by bit; on a match emit its symbol and start over; bits left over
      without a match are dropped. */
  function Decode(bits: seq<char>, table: map<seq<char>, byte>): seq<byte>
    decreases |bits|
  {
    match FirstMatch(bits, table, 1)
    case Some(k) => [table[bits[..k]]] + Decode(bits[k..], table)
    case None => []
  }

  /** What the decoder needs of the writer's table `w` and the reader's
      inverse table `r` for one symbol: a non-empty code that maps back to
      the symbol and that no other code of `r` is a proper prefix of. */
  ghost predicate Decodable(s: byte, w: map<byte, seq<char>>, r: map<seq<char>, byte>)
  {
    && s in w && |w[s]| >= 1
    && w[s] in r && r[w[s]] == s
    && forall c :: c in r && IsPrefix(c, w[s]) ==> c == w[s]
  }

  /** The greedy match of a code followed by anything is that code. */
  lemma {:induction false} FirstMatchOfCode(c: seq<char>, rest: seq<char>, r: map<seq<char>, byte>, k: nat)
    requires 1 <= k <= |c|
    requires c in r && forall d :: d in r && IsPrefix(d, c) ==> d == c
    ensures FirstMatch(c + rest, r, k) == Some(|c|)
    decreases |c| - k
  {
    var bits := c + rest;
    assert bits[..|c|] == c;
    if k < |c| {
      assert bits[..k] == c[..k];
      assert IsPrefix(c[..k], c);
      FirstMatchOfCode(c, rest, r, k + 1);
    }
  }

  lemma ConcatAssoc<T>(a: seq<T>, b: seq<T>, c: seq<T>)
    ensures (a + b) + c == a + (b + c)
  {
  }

  /** Decoding a stream that starts with a code emits that code's symbol
      and continues after it. */
  lemma DecodeStep(c: seq<char>, rest: seq<char>, r: map<seq<char>, byte>)
    requires |c| >= 1 && c in r && forall d :: d in r && IsPrefix(d, c) ==> d == c
    ensures Decode(c + rest, r) == [r[c]] + Decode(rest, r)
  {
    var bits := c + rest;
    FirstMatchOfCode(c, rest, r, 1);
    assert bits[..|c|] == c && bits[|c|..] == rest;
  }

  /** Greedy decoding inverts encoding: decoding the codes of `data`
      followed by any tail yields `data` followed by the decoding of the
      tail. */
  lemma {:induction false} DecodeEncode(data: seq<byte>, w: map<byte, seq<char>>, r: map<seq<char>, byte>, tail: seq<char>)
    requires forall i :: 0 <= i < |data| ==> Decodable(data[i], w, r)
    ensures Decode(Encode(data, w) + tail, r) == data + Decode(tail, r)
    decreases |data|
  {
    if data != [] {
      var c := w[data[0]];
      var rest := Encode(data[1..], w) + tail;
      assert Encode(data, w) == c + Encode(data[1..], w);
      ConcatAssoc(c, Encode(data[1..], w), tail);
      assert Decodable(data[0], w, r);
      DecodeStep(c, rest, r);
      DecodeEncode(data[1..], w, r, tail);
      assert data == [data[0]] + data[1..];
      ConcatAssoc([data[0]], data[1..], Decode(tail, r));
    } else {
      assert Encode(data, w) + tail == tail;
      assert data + Decode(tail, r) == Decode(tail, r);
    }
  }
}
