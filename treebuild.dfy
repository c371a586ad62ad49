/** What `buildTree` (huffmanCompress.cpp:3-44) computes, stated as
    functions: the frequency table, the initial leaves in ascending byte
    order, and two sums over a bag of trees (total frequency and the bag of
    their leaves) that the merge loop keeps constant. */
module TreeBuild {
  import opened Bytes
  import opened Huffman

  /** `freq`: for each byte value, the number of its occurrences in `text`. */
  function Frequencies(text: seq<byte>): (f: seq<int>)
    ensures |f| == 256
  {
    seq(256, s requires 0 <= s < 256 => multiset(text)[s as byte])
  }

  /** The leaves inserted for the first `i` byte values: one leaf per
      value with a non-zero count, in ascending byte order. */
  function InitialLeaves(freq: seq<int>, i: nat): seq<Node>
    requires i <= |freq| <= 256
  {
    if i == 0 then []
    else InitialLeaves(freq, i - 1) + (if freq[i - 1] != 0 then [Leaf((i - 1) as byte, freq[i - 1])] else [])
  }

  /** The leaves inserted for every byte value. */
  function AllLeaves(freq: seq<int>): seq<Node>
    requires |freq| <= 256
  {
    InitialLeaves(freq, |freq|)
  }

  /** A leaf is among the initial leaves exactly when its byte value has a
      non-zero count and its frequency is that count. */
  lemma {:induction false} InitialLeavesMembers(freq: seq<int>, i: nat, t: Node)
    requires i <= |freq| <= 256
    ensures t in InitialLeaves(freq, i) <==>
              t.Leaf? && (t.ch as int) < i && freq[t.ch] != 0 && t.freq == freq[t.ch]
  {
    if i > 0 {
      InitialLeavesMembers(freq, i - 1, t);
    }
  }

  /** Counting one more byte adds one to its count and to no other. */
  lemma {:induction false} FrequenciesAppend(text: seq<byte>, c: byte)
    ensures Frequencies(text + [c]) == Frequencies(text)[c := Frequencies(text)[c] + 1]
  {
    assert multiset(text + [c]) == multiset(text) + multiset{c};
  }

  function Sum(s: seq<int>): int
  {
    if s == [] then 0 else Sum(s[..|s| - 1]) + s[|s| - 1]
  }

  /** A table of zero counts sums to zero. */
  lemma {:induction false} SumZeros(n: nat)
    ensures Sum(seq(n, i => 0)) == 0
  {
    if n > 0 {
      assert seq(n, i => 0)[..n - 1] == seq(n - 1, i => 0);
      SumZeros(n - 1);
    }
  }

  /** `freq[c]++` adds one to the total. */
  lemma {:induction false} SumIncrement(s: seq<int>, x: nat)
    requires x < |s|
    ensures Sum(s[x := s[x] + 1]) == Sum(s) + 1
    decreases |s|
  {
    var t := s[x := s[x] + 1];
    if x < |s| - 1 {
      assert t[..|t| - 1] == s[..|s| - 1][x := s[x] + 1];
      SumIncrement(s[..|s| - 1], x);
    } else {
      assert t[..|t| - 1] == s[..|s| - 1];
    }
  }

  /** The total frequency of a forest of trees. */
  function FreqTotal(f: seq<Node>): int
  {
    if f == [] then 0 else f[0].freq + FreqTotal(f[1..])
  }

  /** The leaves of a forest, with multiplicity. */
  function ForestLeaves(f: seq<Node>): multiset<Node>
  {
    if f == [] then multiset{} else LeafNodes(f[0]) + ForestLeaves(f[1..])
  }

  lemma {:induction false} ForestAppend(x: seq<Node>, y: seq<Node>)
    ensures FreqTotal(x + y) == FreqTotal(x) + FreqTotal(y)
    ensures ForestLeaves(x + y) == ForestLeaves(x) + ForestLeaves(y)
    decreases |x|
  {
    if x == [] {
      assert x + y == y;
    } else {
      assert (x + y)[0] == x[0] && (x + y)[1..] == x[1..] + y;
      ForestAppend(x[1..], y);
    }
  }

  /** The forest without its tree at `j`. */
  function RemoveAt(f: seq<Node>, j: nat): (r: seq<Node>)
    requires j < |f|
    ensures |r| == |f| - 1
  {
    f[..j] + f[j + 1..]
  }

  /** Taking a tree out leaves the others, each once. */
  lemma {:induction false} RemoveAtBag(f: seq<Node>, j: nat)
    requires j < |f|
    ensures multiset(RemoveAt(f, j)) == multiset(f) - multiset{f[j]}
    ensures forall t :: t in RemoveAt(f, j) ==> t in f
  {
    assert f == f[..j] + [f[j]] + f[j + 1..];
  }

  /** Taking a tree out takes its frequency and its leaves out of the
      forest's totals. */
  lemma {:induction false} RemoveAtSums(f: seq<Node>, j: nat)
    requires j < |f|
    ensures FreqTotal(f) == FreqTotal(RemoveAt(f, j)) + f[j].freq
    ensures ForestLeaves(f) == ForestLeaves(RemoveAt(f, j)) + LeafNodes(f[j])
  {
    assert f == f[..j] + [f[j]] + f[j + 1..];
    ForestAppend(f[..j] + [f[j]], f[j + 1..]);
    ForestAppend(f[..j], [f[j]]);
    ForestAppend(f[..j], f[j + 1..]);
    assert [f[j]][1..] == [];
  }

  /** A tree put on a forest adds its frequency and its leaves. */
  lemma {:induction false} ForestPush(f: seq<Node>, t: Node)
    ensures FreqTotal(f + [t]) == FreqTotal(f) + t.freq
    ensures ForestLeaves(f + [t]) == ForestLeaves(f) + LeafNodes(t)
  {
    ForestAppend(f, [t]);
    assert [t][1..] == [];
  }

  lemma SumPrefix(s: seq<int>, i: nat)
    requires 0 < i <= |s|
    ensures Sum(s[..i]) == Sum(s[..i - 1]) + s[i - 1]
  {
    assert s[..i][..i - 1] == s[..i - 1];
  }

  /** A forest of one leaf. */
  lemma LeafForest(t: Node)
    requires t.Leaf?
    ensures FreqTotal([t]) == t.freq
    ensures ForestLeaves([t]) == multiset([t])
  {
    assert [t][1..] == [];
  }

  /** The initial leaves sum to the total count. */
  lemma {:induction false} InitialLeavesTotal(freq: seq<int>, i: nat)
    requires i <= |freq| <= 256
    ensures FreqTotal(InitialLeaves(freq, i)) == Sum(freq[..i])
  {
    if i > 0 {
      InitialLeavesTotal(freq, i - 1);
      SumPrefix(freq, i);
      var prev := InitialLeaves(freq, i - 1);
      if freq[i - 1] != 0 {
        var t := Leaf((i - 1) as byte, freq[i - 1]);
        assert InitialLeaves(freq, i) == prev + [t];
        LeafForest(t);
        ForestAppend(prev, [t]);
      } else {
        assert InitialLeaves(freq, i) == prev + [];
        assert prev + [] == prev;
      }
    }
  }

  /** A forest of leaves is its own bag of leaves. */
  lemma {:induction false} LeavesAreOwnLeaves(f: seq<Node>)
    requires forall i :: 0 <= i < |f| ==> f[i].Leaf?
    ensures ForestLeaves(f) == multiset(f)
  {
    if f != [] {
      LeavesAreOwnLeaves(f[1..]);
      assert f == [f[0]] + f[1..];
      assert multiset(f) == multiset{f[0]} + multiset(f[1..]);
    }
  }

  /** The initial leaves are their own leaves. */
  lemma InitialLeavesLeaves(freq: seq<int>)
    requires |freq| == 256
    ensures ForestLeaves(AllLeaves(freq)) == multiset(AllLeaves(freq))
  {
    var f := AllLeaves(freq);
    forall i | 0 <= i < |f|
      ensures f[i].Leaf?
    {
      InitialLeavesMembers(freq, |freq|, f[i]);
    }
    LeavesAreOwnLeaves(f);
  }

  /** Whether every tree of `forest` is one the builder can produce. */
  ghost predicate AllWellFormed(forest: seq<Node>)
  {
    forall t :: t in forest ==> WellFormed(t)
  }

  /** The merge of `a` and `b`, in either orientation, has their leaves
      and their total frequency. */
  lemma {:induction false} MergedLeaves(a: Node, b: Node, left: Node, right: Node)
    requires (left == a && right == b) || (left == b && right == a)
    ensures LeafNodes(Internal(left.freq + right.freq, left, right)) == LeafNodes(a) + LeafNodes(b)
    ensures left.freq + right.freq == a.freq + b.freq
  {
  }

  lemma UnionSwap<T>(x: multiset<T>, y: multiset<T>, z: multiset<T>)
    ensures x + (y + z) == x + z + y
  {
  }

  /** The two trees a round of the merge loop takes out, the one at `i`
      and then the one at `j` of what is left, and their merge in the
      orientation `left`, `right`. */
  ghost predicate MergeOf(trees: seq<Node>, i: nat, j: nat, left: Node, right: Node)
  {
    && i < |trees| && j < |trees| - 1
    && var a, b := trees[i], RemoveAt(trees, i)[j];
       (left == a && right == b) || (left == b && right == a)
  }

  /** The forest after one round of the merge loop. */
  ghost function Merged(trees: seq<Node>, i: nat, j: nat, left: Node, right: Node): seq<Node>
    requires MergeOf(trees, i, j, left, right)
  {
    RemoveAt(RemoveAt(trees, i), j) + [Internal(left.freq + right.freq, left, right)]
  }

  /** A round of the merge loop takes the two trees out of the bag and puts
      their merge in. */
  lemma {:induction false} MergeBag(trees: seq<Node>, i: nat, j: nat, left: Node, right: Node)
    requires MergeOf(trees, i, j, left, right)
    ensures multiset(Merged(trees, i, j, left, right))
              == multiset(trees) - multiset{trees[i]} - multiset{RemoveAt(trees, i)[j]}
                 + multiset{Internal(left.freq + right.freq, left, right)}
  {
    RemoveAtBag(trees, i);
    RemoveAtBag(RemoveAt(trees, i), j);
  }

  /** A round of the merge loop keeps the total frequency. */
  lemma {:induction false} MergeKeepsTotal(trees: seq<Node>, i: nat, j: nat, left: Node, right: Node)
    requires MergeOf(trees, i, j, left, right)
    ensures FreqTotal(Merged(trees, i, j, left, right)) == FreqTotal(trees)
  {
    var rest := RemoveAt(trees, i);
    RemoveAtSums(trees, i);
    RemoveAtSums(rest, j);
    ForestPush(RemoveAt(rest, j), Internal(left.freq + right.freq, left, right));
  }

  /** A round of the merge loop keeps the bag of leaves. */
  lemma {:induction false} MergeKeepsLeaves(trees: seq<Node>, i: nat, j: nat, left: Node, right: Node)
    requires MergeOf(trees, i, j, left, right)
    ensures ForestLeaves(Merged(trees, i, j, left, right)) == ForestLeaves(trees)
  {
    var rest := RemoveAt(trees, i);
    var a, b := trees[i], rest[j];
    RemoveAtSums(trees, i);
    RemoveAtSums(rest, j);
    ForestPush(RemoveAt(rest, j), Internal(left.freq + right.freq, left, right));
    MergedLeaves(a, b, left, right);
    UnionSwap(ForestLeaves(RemoveAt(rest, j)), LeafNodes(a), LeafNodes(b));
  }

  /** With the orientation fix applied, a round of the merge loop on trees
      the builder can produce gives trees the builder can produce. */
  lemma {:induction false} MergeKeepsWellFormed(trees: seq<Node>, i: nat, j: nat, left: Node, right: Node)
    requires MergeOf(trees, i, j, left, right)
    requires AllWellFormed(trees) && !(left.Leaf? && right.Internal?)
    ensures AllWellFormed(Merged(trees, i, j, left, right))
  {
    RemoveAtBag(trees, i);
    RemoveAtBag(RemoveAt(trees, i), j);
  }

  /** A round of the merge loop seen on the bag of trees: taking `a` and
      then `b` out and putting in their merge (in either orientation)
      leaves a forest with the same leaves and the same total, and keeps
      every tree well formed when the internal node goes on the left. */
  lemma {:induction false} MergeRoundBag(trees: seq<Node>, a: Node, b: Node, left: Node, right: Node)
    returns (next: seq<Node>)
    requires a in multiset(trees) && b in multiset(trees) - multiset{a}
    requires (left == a && right == b) || (left == b && right == a)
    ensures multiset(next) == multiset(trees) - multiset{a} - multiset{b}
                              + multiset{Internal(left.freq + right.freq, left, right)}
    ensures ForestLeaves(next) == ForestLeaves(trees) && FreqTotal(next) == FreqTotal(trees)
    ensures AllWellFormed(trees) && !(left.Leaf? && right.Internal?) ==> AllWellFormed(next)
  {
    var i :| 0 <= i < |trees| && trees[i] == a;
    RemoveAtBag(trees, i);
    var j :| 0 <= j < |trees| - 1 && RemoveAt(trees, i)[j] == b;
    MergeBag(trees, i, j, left, right);
    MergeKeepsTotal(trees, i, j, left, right);
    MergeKeepsLeaves(trees, i, j, left, right);
    if AllWellFormed(trees) && !(left.Leaf? && right.Internal?) {
      MergeKeepsWellFormed(trees, i, j, left, right);
    }
    next := Merged(trees, i, j, left, right);
  }

  /** The counts of a text add up to its length. */
  lemma {:induction false} SumFrequencies(text: seq<byte>)
    ensures Sum(Frequencies(text)) == |text|
    decreases |text|
  {
    if text == [] {
      assert Frequencies(text) == seq(256, i => 0);
      SumZeros(256);
    } else {
      var init, c := text[..|text| - 1], text[|text| - 1];
      assert text == init + [c];
      SumFrequencies(init);
      FrequenciesAppend(init, c);
      SumIncrement(Frequencies(init), c as nat);
    }
  }

  /** The initial leaves of a text: there are none exactly when the text
      is empty, their frequencies add up to its length, each is its own
      leaf and each is a tree the builder can produce. */
  lemma {:induction false} LeavesOfText(text: seq<byte>)
    ensures AllLeaves(Frequencies(text)) == [] <==> text == []
    ensures FreqTotal(AllLeaves(Frequencies(text))) == |text|
    ensures ForestLeaves(AllLeaves(Frequencies(text))) == multiset(AllLeaves(Frequencies(text)))
    ensures AllWellFormed(AllLeaves(Frequencies(text)))
  {
    var freq := Frequencies(text);
    var f := AllLeaves(freq);
    SumFrequencies(text);
    InitialLeavesTotal(freq, 256);
    assert freq[..256] == freq;
    InitialLeavesLeaves(freq);
    forall t | t in f
      ensures WellFormed(t)
    {
      InitialLeavesMembers(freq, 256, t);
    }
    if text != [] {
      var c := text[0];
      assert c in multiset(text);
      InitialLeavesMembers(freq, 256, Leaf(c, freq[c]));
    } else if f != [] {
      InitialLeavesMembers(freq, 256, f[0]);
    }
  }

  /** What merging a bag of trees down to one yields: a tree with the
      bag's leaves and total frequency, well formed when every tree of the
      bag is. */
  ghost predicate MergedFrom(root: Node, forest: seq<Node>)
  {
    && LeafNodes(root) == ForestLeaves(forest)
    && root.freq == FreqTotal(forest)
    && (AllWellFormed(forest) ==> WellFormed(root))
  }

  /** The tree merged from the initial leaves of a text has exactly those
      leaves, its frequency is the length of the text, and it is well
      formed. */
  lemma {:induction false} MergedFromText(root: Node, text: seq<byte>)
    requires MergedFrom(root, [] + AllLeaves(Frequencies(text)))
    ensures LeafNodes(root) == multiset(AllLeaves(Frequencies(text)))
    ensures root.freq == |text| && WellFormed(root)
  {
    LeavesOfText(text);
    assert [] + AllLeaves(Frequencies(text)) == AllLeaves(Frequencies(text));
  }

  /** One more byte value adds its leaf when its count is not zero. */
  lemma {:induction false} InitialLeavesStep(freq: seq<int>, i: nat)
    requires i < |freq| <= 256
    ensures freq[i] != 0 ==> multiset(InitialLeaves(freq, i + 1)) == multiset(InitialLeaves(freq, i)) + multiset{Leaf(i as byte, freq[i])}
    ensures freq[i] == 0 ==> InitialLeaves(freq, i + 1) == InitialLeaves(freq, i)
  {
    if freq[i] == 0 {
      assert InitialLeaves(freq, i) + [] == InitialLeaves(freq, i);
    }
  }
}
