/** The array-backed binary min-heap of minHeap.h / minHeap.cpp.

    The source's template `minHeap<T, Comparator>` compares with a strict
    "less than" functor: `std::less<T>` by default and `CompareNode` (a strict
    `<` on node frequency) in the Huffman builder. Both are strict `<` on an
    integer key, so the model carries a key function and compares keys with
    `<`. Equal keys are never reordered on purpose: the heap gives no
    insertion-order tie-break, and nothing here claims one. */
module Heap {

  /** Index of the parent slot, `(index - 1) / 2`. C++ `int` division
      truncates toward zero, so the root (index 0) is its own parent. */
  function Parent(i: nat): (p: nat)
    ensures i > 0 ==> p < i
    ensures i == 0 ==> p == 0
  {
    if i == 0 then 0 else (i - 1) / 2
  }

  /** Index of the left child slot, `index * 2 + 1`. */
  function Left(i: nat): (l: nat)
    ensures Parent(l) == i && i < l
  {
    2 * i + 1
  }

  /** Index of the right child slot, `index * 2 + 2`. */
  function Right(i: nat): (r: nat)
    ensures Parent(r) == i && r == Left(i) + 1
  {
    2 * i + 2
  }

  /** The only slots whose parent is `i` are its left and right child. */
  lemma ChildrenOf(i: nat, j: nat)
    requires 0 < j && Parent(j) == i
    ensures j == Left(i) || j == Right(i)
  {
  }

  /** The heap property: no element is key-less than its parent. */
  ghost predicate IsHeap<T>(key: T -> int, a: seq<T>)
  {
    forall j :: 0 < j < |a| ==> key(a[Parent(j)]) <= key(a[j])
  }

  /** The heap property for every parent slot at or after `lo`. */
  ghost predicate HeapFrom<T>(key: T -> int, a: seq<T>, lo: nat)
  {
    forall j :: 0 < j < |a| && lo <= Parent(j) ==> key(a[Parent(j)]) <= key(a[j])
  }

  /** What `soak(k)` needs: the heap property for parents at or after `lo`
      except at `k` itself, and `k`'s own parent (when it is in range) is no
      greater than `k`'s children. */
  ghost predicate SoakReady<T>(key: T -> int, a: seq<T>, lo: nat, k: nat)
  {
    && (forall j :: 0 < j < |a| && lo <= Parent(j) && Parent(j) != k ==> key(a[Parent(j)]) <= key(a[j]))
    && (0 < k && lo <= Parent(k) && k < |a| ==>
          forall j :: 0 < j < |a| && Parent(j) == k ==> key(a[Parent(k)]) <= key(a[j]))
  }

  /** What `heapify(k)` needs: the heap property everywhere except between
      `k` and its parent, and `k`'s parent is no greater than `k`'s children. */
  ghost predicate HeapifyReady<T>(key: T -> int, a: seq<T>, k: nat)
    requires k < |a|
  {
    && (forall j :: 0 < j < |a| && j != k ==> key(a[Parent(j)]) <= key(a[j]))
    && (0 < k ==> forall j :: 0 < j < |a| && Parent(j) == k ==> key(a[Parent(k)]) <= key(a[j]))
  }

  /** The root of a heap is no greater than any element. */
  lemma {:induction false} RootIsMin<T>(key: T -> int, a: seq<T>, j: nat)
    requires IsHeap(key, a) && j < |a|
    ensures key(a[0]) <= key(a[j])
    decreases j
  {
    if j > 0 {
      RootIsMin(key, a, Parent(j));
    }
  }

  /** Swapping `k` with its smallest child `s`, when `s` is less than `k`,
      moves the hole of `SoakReady` from `k` down to `s`. */
  lemma SwapDownReady<T>(key: T -> int, a: seq<T>, lo: nat, k: nat, s: nat)
    requires lo <= k < s < |a| && Parent(s) == k
    requires SoakReady(key, a, lo, k)
    requires key(a[s]) < key(a[k])
    requires forall j :: 0 < j < |a| && Parent(j) == k ==> key(a[s]) <= key(a[j])
    ensures SoakReady(key, a[k := a[s]][s := a[k]], lo, s)
  {
    var b := a[k := a[s]][s := a[k]];
    SwapDownOrdered(key, a, lo, k, s);
    forall j | 0 < j < |b| && Parent(j) == s
      ensures key(b[Parent(s)]) <= key(b[j])
    {
      assert b[j] == a[j];
    }
  }

  /** After that swap every parent slot other than `s` is in order. */
  lemma SwapDownOrdered<T>(key: T -> int, a: seq<T>, lo: nat, k: nat, s: nat)
    requires lo <= k < s < |a| && Parent(s) == k
    requires SoakReady(key, a, lo, k)
    requires key(a[s]) < key(a[k])
    requires forall j :: 0 < j < |a| && Parent(j) == k ==> key(a[s]) <= key(a[j])
    ensures forall j :: 0 < j < |a| && lo <= Parent(j) && Parent(j) != s ==>
              key(a[k := a[s]][s := a[k]][Parent(j)]) <= key(a[k := a[s]][s := a[k]][j])
  {
    var b := a[k := a[s]][s := a[k]];
    forall j | 0 < j < |b| && lo <= Parent(j) && Parent(j) != s
      ensures key(b[Parent(j)]) <= key(b[j])
    {
      SwapDownSlot(key, a, lo, k, s, j);
    }
  }

  /** One slot `j` after that swap. */
  lemma SwapDownSlot<T>(key: T -> int, a: seq<T>, lo: nat, k: nat, s: nat, j: nat)
    requires lo <= k < s < |a| && Parent(s) == k
    requires SoakReady(key, a, lo, k)
    requires key(a[s]) < key(a[k])
    requires forall i :: 0 < i < |a| && Parent(i) == k ==> key(a[s]) <= key(a[i])
    requires 0 < j < |a| && lo <= Parent(j) && Parent(j) != s
    ensures key(a[k := a[s]][s := a[k]][Parent(j)]) <= key(a[k := a[s]][s := a[k]][j])
  {
    var b := a[k := a[s]][s := a[k]];
    if Parent(j) == k {
      assert b[Parent(j)] == a[s];
    } else if j == k {
      assert b[Parent(j)] == a[Parent(k)];
    } else {
      assert b[Parent(j)] == a[Parent(j)] && b[j] == a[j];
    }
  }

  /** A slot no greater than both children of `k` is no greater than any
      slot whose parent is `k`. */
  lemma MinChild<T>(key: T -> int, a: seq<T>, k: nat, s: nat)
    requires s < |a|
    requires Left(k) < |a| ==> key(a[s]) <= key(a[Left(k)])
    requires Right(k) < |a| ==> key(a[s]) <= key(a[Right(k)])
    ensures forall j :: 0 < j < |a| && Parent(j) == k ==> key(a[s]) <= key(a[j])
  {
    forall j | 0 < j < |a| && Parent(j) == k
      ensures key(a[s]) <= key(a[j])
    {
      ChildrenOf(k, j);
    }
  }

  /** When no child of `k` is less than `k`, the hole of `SoakReady` is
      closed. */
  lemma SoakStop<T>(key: T -> int, a: seq<T>, lo: nat, k: nat)
    requires SoakReady(key, a, lo, k)
    requires forall j :: 0 < j < |a| && Parent(j) == k ==> key(a[k]) <= key(a[j])
    ensures HeapFrom(key, a, lo)
  {
  }

  /** Swapping two slots only permutes the elements. */
  lemma SwapPermutes<T>(a: seq<T>, i: nat, j: nat)
    requires i < |a| && j < |a|
    ensures multiset(a[i := a[j]][j := a[i]]) == multiset(a)
  {
  }

  /** Moving the last element to the root of a non-empty heap and dropping
      the last slot removes exactly the old root. */
  lemma LastToRoot<T>(a: seq<T>)
    requires |a| > 0
    ensures multiset(a[0 := a[|a| - 1]][..|a| - 1]) == multiset(a) - multiset{a[0]}
  {
    var last := |a| - 1;
    var b := a[0 := a[last]][..last];
    if last > 0 {
      assert a == [a[0]] + a[1..last] + [a[last]];
      assert b == [a[last]] + a[1..last];
    } else {
      assert b == [];
    }
  }

  /** After that move only the root is out of place. */
  lemma LastToRootReady<T>(key: T -> int, a: seq<T>)
    requires IsHeap(key, a) && |a| > 0
    ensures SoakReady(key, a[0 := a[|a| - 1]][..|a| - 1], 0, 0)
  {
    var b := a[0 := a[|a| - 1]][..|a| - 1];
    forall j | 0 < j < |b| && Parent(j) != 0
      ensures key(b[Parent(j)]) <= key(b[j])
    {
      assert b[Parent(j)] == a[Parent(j)] && b[j] == a[j];
    }
  }

  /** Swapping `k` with its parent, when `k` is less than it, moves the hole
      of `HeapifyReady` up to the parent and only permutes the elements. */
  lemma SwapUpReady<T>(key: T -> int, a: seq<T>, k: nat)
    requires 0 < k < |a|
    requires HeapifyReady(key, a, k)
    requires key(a[k]) < key(a[Parent(k)])
    ensures HeapifyReady(key, a[k := a[Parent(k)]][Parent(k) := a[k]], Parent(k))
    ensures multiset(a[k := a[Parent(k)]][Parent(k) := a[k]]) == multiset(a)
  {
    var p := Parent(k);
    var b := a[k := a[p]][p := a[k]];
    forall j | 0 < j < |b| && j != p
      ensures key(b[Parent(j)]) <= key(b[j])
    {
      if j == k {
      } else if Parent(j) == k {
        assert b[Parent(j)] == a[p] && b[j] == a[j];
      } else if Parent(j) == p {
        assert b[Parent(j)] == a[k] && b[j] == a[j];
      } else if j == p {
      } else {
        assert b[Parent(j)] == a[Parent(j)] && b[j] == a[j];
      }
    }
    if 0 < p {
      forall j | 0 < j < |b| && Parent(j) == p
        ensures key(b[Parent(p)]) <= key(b[j])
      {
        assert b[Parent(p)] == a[Parent(p)];
      }
    }
    SwapPermutes(a, k, p);
  }

  /** When `k` is the root or no less than its parent, the heap is whole. */
  lemma HeapifyStop<T>(key: T -> int, a: seq<T>, k: nat)
    requires k < |a| && HeapifyReady(key, a, k)
    requires k == 0 || key(a[Parent(k)]) <= key(a[k])
    ensures IsHeap(key, a)
  {
  }

  /** `extractMin` either returns the minimum or reports `underflow_error`. */
  datatype Extracted<T> = Min(value: T) | Underflow

  class MinHeap<T> {
    /** The `std::vector<T> data` member. */
    var data: seq<T>
    /** The comparator: `comp(a, b)` is `key(a) < key(b)`. */
    const key: T -> int

    ghost predicate Valid()
      reads this
    {
      IsHeap(key, data)
    }

    /** The comparator functor `comp`. */
    predicate Comp(a: T, b: T)
    {
      key(a) < key(b)
    }

    /** `minHeap()`: an empty heap. */
    constructor (key: T -> int)
      ensures Valid() && data == [] && this.key == key
    {
      this.key := key;
      data := [];
    }

    /** `minHeap(size_t size)`: reserves capacity, which the model has no
        notion of; the heap is empty. */
    constructor WithCapacity(key: T -> int, size: nat)
      ensures Valid() && data == [] && this.key == key
    {
      this.key := key;
      data := [];
    }

    /** `minHeap(const std::vector<int>& other)`: builds a heap from `other`. */
    constructor FromSeq(key: T -> int, other: seq<T>)
      ensures Valid() && this.key == key
      ensures multiset(data) == multiset(other)
    {
      this.key := key;
      data := other;
      new;
      BuildHeap(other);
    }

    /** The implicit copy constructor (`minHeap huffmanTree(pq)`). */
    constructor Copy(other: MinHeap<T>)
      ensures data == other.data && key == other.key
    {
      key := other.key;
      data := other.data;
    }

    /** `size()`: the number of stored elements. */
    function Size(): (n: nat)
      reads this
      ensures n == |multiset(data)|
    {
      |data|
    }

    /** `empty()`: whether no element is stored. */
    function Empty(): (b: bool)
      reads this
      ensures b <==> multiset(data) == multiset{}
    {
      |data| == 0
    }

    /** `buildHeap`: copies `other` and soaks every inner slot, last first. */
    method BuildHeap(other: seq<T>)
      modifies this
      ensures Valid()
      ensures multiset(data) == multiset(other)
    {
      data := other;
      // `data.size()/2 - 1` is computed in size_t and converted to int, so
      // fewer than two elements give -1 and the loop does not run.
      var i: int := |data| / 2 - 1;
      while i >= 0
        invariant -1 <= i < |data|
        invariant multiset(data) == multiset(other)
        invariant HeapFrom(key, data, i + 1)
      {
        Soak(i, i);
        i := i - 1;
      }
    }

    /** `insert`: append, then sift the new element up. */
    method Insert(el: T)
      requires Valid()
      modifies this
      ensures Valid()
      ensures |data| == old(|data|) + 1
      ensures multiset(data) == old(multiset(data)) + multiset{el}
    {
      data := data + [el];
      Heapify(|data| - 1);
    }

    /** `extractMin`: on an empty heap, `underflow_error` and no change;
        otherwise the root is returned, the last element moves to the root
        and is soaked down. */
    method ExtractMin() returns (r: Extracted<T>)
      requires Valid()
      modifies this
      ensures Valid()
      ensures r.Underflow? <==> old(data) == []
      ensures r.Underflow? ==> data == old(data)
      ensures r.Min? ==> r.value in old(multiset(data)) && |data| == old(|data|) - 1
      ensures r.Min? ==> multiset(data) == old(multiset(data)) - multiset{r.value}
      ensures r.Min? ==> forall x :: x in old(multiset(data)) ==> !Comp(x, r.value)
    {
      if |data| == 0 {
        return Underflow;
      }
      ghost var before := data;
      var root := data[0];
      var last := |data| - 1;
      LastToRoot(data);
      LastToRootReady(key, data);
      data := data[0 := data[last]][..last];
      Soak(0, 0);
      forall x | x in multiset(before)
        ensures !Comp(x, root)
      {
        var j :| 0 <= j < |before| && before[j] == x;
        RootIsMin(key, before, j);
      }
      r := Min(root);
    }

    /** `heapify`: moves the element at `index` up while it is less than its
        parent; stops at the root. */
    method Heapify(index: nat)
      requires index < |data|
      requires HeapifyReady(key, data, index)
      modifies this
      ensures Valid()
      ensures |data| == old(|data|)
      ensures multiset(data) == old(multiset(data))
    {
      var i: nat := index;
      while i != 0 && Comp(data[i], data[Parent(i)])
        invariant i < |data| && |data| == old(|data|)
        invariant multiset(data) == old(multiset(data))
        invariant HeapifyReady(key, data, i)
        decreases i
      {
        SwapUpReady(key, data, i);
        var p := Parent(i);
        data := data[i := data[p]][p := data[i]];
        i := p;
      }
      HeapifyStop(key, data, i);
    }

    /** `soak`: moves the element at `index` down, swapping with the smaller
        child (the left one unless the right is strictly smaller), until
        neither child is less. `lo` is the first slot whose subtree is being
        restored. */
    method Soak(index: nat, ghost lo: nat)
      requires lo <= index
      requires SoakReady(key, data, lo, index)
      modifies this
      ensures |data| == old(|data|)
      ensures multiset(data) == old(multiset(data))
      ensures HeapFrom(key, data, lo)
      decreases if index < |data| then |data| - index else 0
    {
      var smallest := SmallestOf(index);
      if smallest != index {
        SwapDownReady(key, data, lo, index, smallest);
        SwapPermutes(data, index, smallest);
        data := data[index := data[smallest]][smallest := data[index]];
        Soak(smallest, lo);
      } else {
        SoakStop(key, data, lo, index);
      }
    }

    /** The choice in `soak`: the left child if it is less than `index`,
        then the right child if it is less than that. */
    method SmallestOf(index: nat) returns (smallest: nat)
      ensures smallest == index || (index < smallest < |data| && Parent(smallest) == index)
      ensures smallest != index ==> Comp(data[smallest], data[index])
      ensures smallest < |data| ==> forall j :: 0 < j < |data| && Parent(j) == index ==> key(data[smallest]) <= key(data[j])
    {
      var l, r := Left(index), Right(index);
      smallest := index;
      if l < |data| && Comp(data[l], data[smallest]) {
        smallest := l;
      }
      if r < |data| && Comp(data[r], data[smallest]) {
        smallest := r;
      }
      if smallest < |data| {
        MinChild(key, data, index, smallest);
      }
    }
  }
}
