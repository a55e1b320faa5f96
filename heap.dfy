// A binary max-heap of integers stored in a growable array of references.
// Slots 0 .. lastIndex-1 hold the elements in heap order (the parent of
// slot i is slot (i-1)/2); every slot from lastIndex on is nil.
module MaxHeap {

  /** One array slot: a nil pointer or a pointer to a stored value. */
  datatype Slot = Nil | Ref(value: int)

  /** Every slot of `s` holds a reference. */
  ghost predicate AllRefs(s: seq<Slot>)
  {
    forall i :: 0 <= i < |s| ==> s[i].Ref?
  }

  /** Every slot of `s` is nil. */
  ghost predicate AllNil(s: seq<Slot>)
  {
    forall i :: 0 <= i < |s| ==> s[i] == Nil
  }

  /** Slot c is a child of slot p: c is 2p+1 or 2p+2, that is p == (c-1)/2. */
  predicate IsChild(p: int, c: int)
  {
    c == 2 * p + 1 || c == 2 * p + 2
  }

  /** Every slot is occupied and no child is larger than its parent. */
  ghost predicate HeapOrdered(s: seq<Slot>)
  {
    && AllRefs(s)
    && (forall p, c :: 0 <= p < c < |s| && IsChild(p, c) ==> s[p].value >= s[c].value)
  }

  /** Heap order holds for every parent/child pair except the one whose child is slot k. */
  ghost predicate OrderedExceptChild(s: seq<Slot>, k: int)
  {
    && AllRefs(s)
    && (forall p, c :: 0 <= p < c < |s| && IsChild(p, c) && c != k ==> s[p].value >= s[c].value)
  }

  /** Heap order holds for every parent/child pair except those whose parent is slot k. */
  ghost predicate OrderedExceptParent(s: seq<Slot>, k: int)
  {
    && AllRefs(s)
    && (forall p, c :: 0 <= p < c < |s| && IsChild(p, c) && p != k ==> s[p].value >= s[c].value)
  }

  /** The parent of slot k, if k has one, is at least every child of slot k. */
  ghost predicate AboveGrandchildren(s: seq<Slot>, k: int)
    requires AllRefs(s)
  {
    forall q, c :: 0 <= q < k < c < |s| && IsChild(q, k) && IsChild(k, c) ==> s[q].value >= s[c].value
  }

  /** `s` with slots i and j exchanged. */
  ghost function Swap(s: seq<Slot>, i: int, j: int): (t: seq<Slot>)
    requires 0 <= i < |s| && 0 <= j < |s|
    ensures |t| == |s| && t[i] == s[j] && t[j] == s[i]
    ensures forall k :: 0 <= k < |s| && k != i && k != j ==> t[k] == s[k]
    ensures multiset(t) == multiset(s)
  {
    s[i := s[j]][j := s[i]]
  }

  /** Exchanging two slots below n exchanges them in the prefix and leaves the rest alone. */
  lemma SwapBelow(s: seq<Slot>, n: int, i: int, j: int)
    requires 0 <= i < n && 0 <= j < n && n <= |s|
    ensures Swap(s, i, j)[..n] == Swap(s[..n], i, j)
    ensures Swap(s, i, j)[n..] == s[n..]
  {
  }

  /** In a heap-ordered sequence the root is at least as large as every element. */
  lemma {:induction false} RootIsMax(s: seq<Slot>, i: int)
    requires HeapOrdered(s) && 0 <= i < |s|
    ensures s[0].value >= s[i].value
    decreases i
  {
    if i > 0 {
      var p := (i - 1) / 2;
      assert IsChild(p, i);
      RootIsMax(s, p);
    }
  }

  /** In a heap-ordered sequence the root is at least as large as every stored reference. */
  lemma RootIsMaxOfAll(s: seq<Slot>)
    requires HeapOrdered(s) && |s| > 0
    ensures forall x :: x in multiset(s) ==> x.value <= s[0].value
  {
    forall x | x in multiset(s)
      ensures x.value <= s[0].value
    {
      var i :| 0 <= i < |s| && s[i] == x;
      RootIsMax(s, i);
    }
  }

  /** Storing a value just after the last element leaves heap order broken at most between it and its parent. */
  lemma StoreAfterLast(a: seq<Slot>, n: int, x: Slot)
    requires 0 <= n < |a| && HeapOrdered(a[..n]) && AllNil(a[n..]) && x.Ref?
    ensures OrderedExceptChild(a[n := x][..n + 1], n) && AboveGrandchildren(a[n := x][..n + 1], n)
    ensures multiset(a[n := x][..n + 1]) == multiset(a[..n]) + multiset{x}
    ensures AllNil(a[n := x][n + 1..])
  {
    var t := a[n := x];
    assert t[..n + 1] == a[..n] + [x];
    assert t[n + 1..] == a[n..][1..];
  }

  /**
   * One sift-up step: when slot k is larger than its parent, exchanging the
   * two moves the only possible violation up to the parent.
   */
  lemma SiftUpStep(s: seq<Slot>, k: int)
    requires 0 < k < |s| && OrderedExceptChild(s, k) && AboveGrandchildren(s, k)
    requires s[(k - 1) / 2].value < s[k].value
    ensures OrderedExceptChild(Swap(s, (k - 1) / 2, k), (k - 1) / 2)
    ensures AboveGrandchildren(Swap(s, (k - 1) / 2, k), (k - 1) / 2)
  {
    var q := (k - 1) / 2;
    var t := Swap(s, q, k);
    assert IsChild(q, k);
    forall p, c | 0 <= p < c < |t| && IsChild(p, c) && c != q
      ensures t[p].value >= t[c].value
    {
      // Pairs whose parent is q or k involve a moved value; the rest are unchanged.
      if p != q && p != k {
        assert t[p] == s[p] && t[c] == s[c];
      }
    }
    if q > 0 {
      var g := (q - 1) / 2;
      assert IsChild(g, q);
      forall c | q < c < |t| && IsChild(q, c)
        ensures t[g].value >= t[c].value
      {
      }
    }
  }

  /** Sift-up stops at the root or below a parent that is at least as large: the heap is ordered. */
  lemma SiftUpDone(s: seq<Slot>, k: int)
    requires 0 <= k < |s| && OrderedExceptChild(s, k)
    requires k > 0 ==> s[(k - 1) / 2].value >= s[k].value
    ensures HeapOrdered(s)
  {
  }

  /**
   * Moving the last element onto the root and dropping the last slot removes
   * the root from the multiset and breaks heap order at most below the root.
   */
  lemma MoveLastToRoot(a: seq<Slot>, n: int)
    requires 0 < n <= |a| && HeapOrdered(a[..n]) && AllNil(a[n..])
    ensures OrderedExceptParent(a[0 := a[n - 1]][n - 1 := Nil][..n - 1], 0)
    ensures multiset(a[0 := a[n - 1]][n - 1 := Nil][..n - 1]) == multiset(a[..n]) - multiset{a[0]}
    ensures AllNil(a[0 := a[n - 1]][n - 1 := Nil][n - 1..])
  {
    var b := a[0 := a[n - 1]][n - 1 := Nil];
    var s, t := a[..n], b[..n - 1];
    assert OrderedExceptParent(t, 0) && multiset(t) == multiset(s) - multiset{a[0]} by {
      assert |t| == |s| - 1 && (|t| > 0 ==> t[0] == s[|s| - 1]);
      assert forall i :: 0 < i < |t| ==> t[i] == s[i];
      LastAtRootOrder(s, t);
      LastAtRootElements(s, t);
    }
    assert b[n - 1..] == [Nil] + a[n..];
  }

  /** `t` is `s` with its last element moved over the root: order can only fail below the root. */
  lemma LastAtRootOrder(s: seq<Slot>, t: seq<Slot>)
    requires HeapOrdered(s) && |t| == |s| - 1 && (|t| > 0 ==> t[0] == s[|s| - 1])
    requires forall i :: 0 < i < |t| ==> t[i] == s[i]
    ensures OrderedExceptParent(t, 0)
  {
    forall p, c | 0 <= p < c < |t| && IsChild(p, c) && p != 0
      ensures t[p].value >= t[c].value
    {
      assert t[p] == s[p] && t[c] == s[c];
    }
  }

  /** `t` is `s` with its last element moved over the root: the root is gone from the multiset. */
  lemma LastAtRootElements(s: seq<Slot>, t: seq<Slot>)
    requires |s| > 0 && |t| == |s| - 1 && (|t| > 0 ==> t[0] == s[|s| - 1])
    requires forall i :: 0 < i < |t| ==> t[i] == s[i]
    ensures multiset(t) == multiset(s) - multiset{s[0]}
  {
    if |t| > 0 {
      assert t == [s[|s| - 1]] + s[1..|s| - 1];
      assert s == [s[0]] + s[1..|s| - 1] + [s[|s| - 1]];
    } else {
      assert s == [s[0]];
    }
  }

  /**
   * One sift-down step: when the larger child of slot k exceeds it,
   * exchanging the two moves the only possible violation down to that child.
   */
  lemma SiftDownStep(s: seq<Slot>, k: int, m: int)
    requires 0 <= k < m < |s| && IsChild(k, m)
    requires OrderedExceptParent(s, k) && AboveGrandchildren(s, k)
    requires s[m].value >= s[2 * k + 1].value
    requires 2 * k + 2 < |s| ==> s[m].value >= s[2 * k + 2].value
    requires s[k].value < s[m].value
    ensures OrderedExceptParent(Swap(s, k, m), m)
    ensures AboveGrandchildren(Swap(s, k, m), m)
  {
    var t := Swap(s, k, m);
    forall p, c | 0 <= p < c < |t| && IsChild(p, c) && p != m
      ensures t[p].value >= t[c].value
    {
      if p == k {
      } else if c == k {
        assert IsChild(p, k) && (k - 1) / 2 == p && k > 0;
      } else {
        assert t[p] == s[p] && t[c] == s[c];
      }
    }
  }

  /** Sift-down stops at a leaf or above children no larger than it: the heap is ordered. */
  lemma SiftDownDone(s: seq<Slot>, k: int)
    requires 0 <= k && OrderedExceptParent(s, k) && AboveGrandchildren(s, k)
    requires 2 * k + 1 < |s| ==> s[k].value >= s[2 * k + 1].value
    requires 2 * k + 2 < |s| ==> s[k].value >= s[2 * k + 2].value
    ensures HeapOrdered(s)
  {
  }

  class Heap {
    var arr: array<Slot>
    var arraySize: int
    var lastIndex: int

    ghost predicate Valid()
      reads this, arr
    {
      && 0 <= lastIndex <= arraySize == arr.Length
      && HeapOrdered(arr[..lastIndex])
      && AllNil(arr[lastIndex..])
    }

    /** The stored references, as a multiset. */
    ghost function Elements(): multiset<Slot>
      reads this, arr
      requires Valid()
    {
      multiset(arr[..lastIndex])
    }

    /** `NewHeap(size)`: an empty heap with `size` nil slots. */
    constructor (size: nat)
      ensures Valid() && fresh(arr)
      ensures arraySize == size && lastIndex == 0 && Elements() == multiset{}
    {
      arr := new Slot[size](_ => Nil);
      arraySize := size;
      lastIndex := 0;
    }

    /** The number of stored elements. */
    function Size(): (n: int)
      reads this, arr
      requires Valid()
      ensures n == |Elements()| && 0 <= n <= arraySize
    {
      lastIndex
    }

    /** The maximum element, or the zero value 0 when the heap is empty. */
    function Peek(): (r: int)
      reads this, arr
      requires Valid()
      ensures lastIndex == 0 ==> r == 0
      ensures lastIndex > 0 ==> Ref(r) in Elements()
      ensures forall x :: x in Elements() ==> x.value <= r
    {
      if lastIndex > 0 then
        RootIsMaxOfAll(arr[..lastIndex]);
        arr[0].value
      else
        0
    }

    /** Doubles the capacity; the occupied slots are copied unchanged and the new ones are nil. */
    method Resize()
      requires Valid()
      modifies this
      ensures Valid() && fresh(arr)
      ensures arraySize == 2 * old(arraySize) && lastIndex == old(lastIndex)
      ensures arr[..old(arraySize)] == old(arr[..])
      ensures Elements() == old(Elements())
    {
      var newArr := new Slot[arraySize * 2](_ => Nil);
      forall i | 0 <= i < arr.Length {
        newArr[i] := arr[i];
      }
      assert newArr[..arr.Length] == arr[..];
      assert newArr[..lastIndex] == arr[..lastIndex];
      arr := newArr;
      arraySize := arraySize * 2;
    }

    /**
     * Stores `value` after the last element and sifts it up, first doubling
     * the capacity when the array is full.
     */
    method Insert(value: int)
      requires Valid()
      requires lastIndex == arraySize ==> arraySize > 0
      modifies this, arr
      ensures Valid()
      ensures lastIndex == old(lastIndex) + 1
      ensures Elements() == old(Elements()) + multiset{Ref(value)}
      ensures arraySize == if old(lastIndex) == old(arraySize) then 2 * old(arraySize) else old(arraySize)
      ensures old(lastIndex) < old(arraySize) ==> arr == old(arr)
      ensures old(lastIndex) == old(arraySize) ==> fresh(arr)
    {
      if lastIndex == arraySize {
        Resize();
      }
      Append(value);
    }

    /** The part of `Insert` after the capacity check: store, then sift up. */
    method Append(value: int)
      requires Valid() && lastIndex < arraySize
      modifies this`lastIndex, arr
      ensures Valid() && lastIndex == old(lastIndex) + 1
      ensures Elements() == old(Elements()) + multiset{Ref(value)}
    {
      StoreAfterLast(arr[..], lastIndex, Ref(value));
      arr[lastIndex] := Ref(value);
      var curr := lastIndex;
      lastIndex := lastIndex + 1;
      SiftUp(curr);
    }

    /**
     * Restores heap order after a value has been stored in slot `curr`: the
     * value moves up, each time exchanged with its parent, until it reaches
     * the root or a parent at least as large. The stored references are only
     * permuted.
     */
    method SiftUp(curr: int)
      requires 0 <= curr < lastIndex <= arr.Length
      requires OrderedExceptChild(arr[..lastIndex], curr) && AboveGrandchildren(arr[..lastIndex], curr)
      modifies arr
      ensures HeapOrdered(arr[..lastIndex])
      ensures multiset(arr[..lastIndex]) == old(multiset(arr[..lastIndex]))
      ensures arr[lastIndex..] == old(arr[lastIndex..])
    {
      var curr := curr;
      ghost var a := arr[..];
      ghost var h := a[..lastIndex];
      while curr > 0 && arr[(curr - 1) / 2].value < arr[curr].value
        invariant 0 <= curr < lastIndex
        invariant arr[..] == a && h == a[..lastIndex] && a[lastIndex..] == old(arr[lastIndex..])
        invariant OrderedExceptChild(h, curr) && AboveGrandchildren(h, curr)
        invariant multiset(h) == old(multiset(arr[..lastIndex]))
      {
        var parent := (curr - 1) / 2;
        SiftUpStep(h, curr);
        SwapBelow(a, lastIndex, parent, curr);
        arr[parent], arr[curr] := arr[curr], arr[parent];
        a, h := Swap(a, parent, curr), Swap(h, parent, curr);
        curr := parent;
      }
      SiftUpDone(h, curr);
    }

    /**
     * Restores heap order after the root has been replaced: the root value
     * moves down, each time exchanged with its larger child, until neither
     * child is larger. The stored references are only permuted.
     */
    method SiftDown()
      requires 0 <= lastIndex <= arr.Length
      requires OrderedExceptParent(arr[..lastIndex], 0)
      modifies arr
      ensures HeapOrdered(arr[..lastIndex])
      ensures multiset(arr[..lastIndex]) == old(multiset(arr[..lastIndex]))
      ensures arr[lastIndex..] == old(arr[lastIndex..])
    {
      var curr := 0;
      ghost var a := arr[..];
      ghost var h := a[..lastIndex];
      while true
        invariant 0 <= curr && (curr < lastIndex || curr == 0)
        invariant arr[..] == a && h == a[..lastIndex] && a[lastIndex..] == old(arr[lastIndex..])
        invariant OrderedExceptParent(h, curr) && AboveGrandchildren(h, curr)
        invariant multiset(h) == old(multiset(arr[..lastIndex]))
        decreases lastIndex - curr
      {
        var left := curr * 2 + 1;
        var right := curr * 2 + 2;
        if left >= lastIndex {
          SiftDownDone(h, curr);
          break;
        }
        var larger := left;
        if right < lastIndex && arr[right].value > arr[left].value {
          larger := right;
        }
        if arr[curr].value >= arr[larger].value {
          SiftDownDone(h, curr);
          break;
        }
        SiftDownStep(h, curr, larger);
        SwapBelow(a, lastIndex, curr, larger);
        arr[curr], arr[larger] := arr[larger], arr[curr];
        a, h := Swap(a, curr, larger), Swap(h, curr, larger);
        curr := larger;
      }
    }

    /**
     * Removes and returns the maximum: the last element moves to the root,
     * its old slot is cleared to nil, and the root sifts down. An empty heap
     * yields the zero value 0 and is left as it is.
     */
    method Remove() returns (result: int)
      requires Valid()
      modifies this`lastIndex, arr
      ensures Valid()
      ensures old(lastIndex) == 0 ==> result == 0 && lastIndex == 0 && arr[..] == old(arr[..])
      ensures old(lastIndex) > 0 ==>
                && lastIndex == old(lastIndex) - 1
                && Ref(result) in old(Elements())
                && Elements() == old(Elements()) - multiset{Ref(result)}
                && (forall x :: x in old(Elements()) ==> x.value <= result)
    {
      if lastIndex == 0 {
        return 0;
      }
      result := arr[0].value;
      RootIsMaxOfAll(arr[..lastIndex]);
      MoveLastToRoot(arr[..], lastIndex);
      arr[0] := arr[lastIndex - 1];
      arr[lastIndex - 1] := Nil;
      lastIndex := lastIndex - 1;
      SiftDown();
    }

    /**
     * Removes every element while the size is positive, collecting the
     * results: they come out largest first and are exactly the stored values.
     */
    method Drain() returns (out: seq<int>)
      requires Valid()
      modifies this`lastIndex, arr
      ensures Valid() && lastIndex == 0
      ensures |out| == old(lastIndex)
      ensures NonIncreasing(out)
      ensures RefsOf(out) == old(Elements())
    {
      out := [];
      while Size() > 0
        invariant Valid()
        invariant |out| + lastIndex == old(lastIndex)
        invariant NonIncreasing(out)
        invariant |out| > 0 ==> forall x :: x in Elements() ==> x.value <= out[|out| - 1]
        invariant RefsOf(out) + Elements() == old(Elements())
        decreases lastIndex
      {
        ghost var before, e := out, Elements();
        var r := Remove();
        assert Ref(r) in e && Elements() == e - multiset{Ref(r)};
        out := out + [r];
        AppendBelow(before, r);
        AppendRefs(before, r);
        PutBack(RefsOf(before), e, Ref(r));
      }
    }
  }

  /**
   * Inserts and removals interleaved on a heap of capacity 5: the first
   * removal yields the largest of 10, 20 and 15, and after 25 and 5 are
   * added the maximum is 25.
   */
  method MixedInsertRemove() returns (first: int, top: int)
    ensures first == 20 && top == 25
  {
    var h;
    h, first := FillAndRemove();
    top := RefillAndPeek(h);
  }

  /** The first half of `MixedInsertRemove`: insert 10, 20 and 15, then remove. */
  method FillAndRemove() returns (h: Heap, first: int)
    ensures fresh(h) && fresh(h.arr) && h.Valid() && h.lastIndex == 2 && h.arraySize == 5
    ensures first == 20 && forall x :: x in h.Elements() ==> x.value <= 20
  {
    h := new Heap(5);
    h.Insert(10);
    h.Insert(20);
    h.Insert(15);
    ghost var e := h.Elements();
    first := h.Remove();
    LargestOfThree(e, first);
  }

  /** The second half of `MixedInsertRemove`: insert 25 and 5 into a heap of values up to 20, then peek. */
  method RefillAndPeek(h: Heap) returns (top: int)
    requires h.Valid() && h.lastIndex == 2 && h.arraySize == 5
    requires forall x :: x in h.Elements() ==> x.value <= 20
    modifies h, h.arr
    ensures top == 25
  {
    h.Insert(25);
    h.Insert(5);
    top := h.Peek();
    assert Ref(25) in h.Elements();
  }

  /** A maximum of 10, 20 and 15 is 20, and what is left after taking it is at most 20. */
  lemma LargestOfThree(e: multiset<Slot>, r: int)
    requires e == multiset{Ref(10), Ref(20), Ref(15)}
    requires Ref(r) in e && forall x :: x in e ==> x.value <= r
    ensures r == 20 && forall x :: x in e - multiset{Ref(r)} ==> x.value <= 20
  {
    assert Ref(20) in e;
  }

  /** Every element of `s` is at least every later one. */
  ghost predicate NonIncreasing(s: seq<int>)
  {
    forall i, j :: 0 <= i < j < |s| ==> s[i] >= s[j]
  }

  /** Appending a value no larger than the last keeps `s` non-increasing. */
  lemma AppendBelow(s: seq<int>, r: int)
    requires NonIncreasing(s) && (|s| > 0 ==> s[|s| - 1] >= r)
    ensures NonIncreasing(s + [r])
  {
    var t := s + [r];
    forall i, j | 0 <= i < j < |t|
      ensures t[i] >= t[j]
    {
      if j == |s| {
        assert t[i] >= s[|s| - 1];
      }
    }
  }

  /** Appending a value adds its reference. */
  lemma AppendRefs(s: seq<int>, r: int)
    ensures RefsOf(s + [r]) == RefsOf(s) + multiset{Ref(r)}
  {
    assert (s + [r])[..|s|] == s;
  }

  /** Taking `x` out of `e` and adding it to `a` leaves the sum unchanged. */
  lemma PutBack(a: multiset<Slot>, e: multiset<Slot>, x: Slot)
    requires x in e
    ensures a + multiset{x} + (e - multiset{x}) == a + e
  {
  }

  /** The values of `s` as stored references. */
  ghost function RefsOf(s: seq<int>): multiset<Slot>
  {
    if s == [] then multiset{} else RefsOf(s[..|s| - 1]) + multiset{Ref(s[|s| - 1])}
  }
}
