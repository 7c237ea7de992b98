/** The array sort and search of src/lib/stdlib.c. Indexes are 1-based as in
    the C code, so element `i` is `a[i - 1]`; an element of `size` bytes is one
    value of type `T`. */
module HeapSort {

  type Compare<!T> = (T, T) -> int

  /** What a strcmp()-type comparison must be: a total preorder. */
  ghost predicate TotalPreorder<T(!new)>(cmp: Compare<T>) {
    && (forall x, y :: cmp(x, y) > 0 <==> cmp(y, x) < 0)
    && (forall x, y, z :: cmp(x, y) <= 0 && cmp(y, z) <= 0 ==> cmp(x, z) <= 0)
  }

  ghost predicate Sorted<T>(cmp: Compare<T>, s: seq<T>) {
    forall i, j :: 0 <= i < j < |s| ==> cmp(s[i], s[j]) <= 0
  }

  /** Among the first `cnt` elements, every parent at index `lo` or above is
      at least as large as its children. */
  ghost predicate HeapFrom<T>(cmp: Compare<T>, s: seq<T>, lo: nat, cnt: nat) {
    && cnt <= |s|
    && forall k :: 2 <= k <= cnt && lo <= k / 2 ==> Above(cmp, s, k / 2, k)
  }

  ghost predicate Above<T>(cmp: Compare<T>, s: seq<T>, p: nat, k: nat)
    requires 1 <= p <= |s| && 1 <= k <= |s|
  {
    cmp(s[k - 1], s[p - 1]) <= 0
  }

  /** The same, but for the parent at `j`, whose own parent is nevertheless
      above its children. */
  ghost predicate HeapBut<T>(cmp: Compare<T>, s: seq<T>, lo: nat, cnt: nat, j: nat) {
    && 1 <= lo && cnt <= |s|
    && (forall k :: 2 <= k <= cnt && lo <= k / 2 && k / 2 != j ==> Above(cmp, s, k / 2, k))
    && (lo <= j / 2 ==> forall k :: 2 <= k <= cnt && k / 2 == j ==> Above(cmp, s, j / 2, k))
  }

  /** do_swap */
  method Swap<T>(a: array<T>, i: nat, j: nat)
    requires 1 <= i <= a.Length && 1 <= j <= a.Length
    modifies a
    ensures a[..] == old(a[..])[i - 1 := old(a[j - 1])][j - 1 := old(a[i - 1])]
    ensures multiset(a[..]) == old(multiset(a[..]))
  {
    a[i - 1], a[j - 1] := a[j - 1], a[i - 1];
  }

  /** One round of heapify: exchanging `j` with its largest child moves the
      violation down to that child. */
  lemma SiftDown<T>(cmp: Compare<T>, s: seq<T>, lo: nat, cnt: nat, j: nat, m: nat)
    requires HeapBut(cmp, s, lo, cnt, j)
    requires lo <= j && m / 2 == j && 2 <= m <= cnt
    requires cmp(s[j - 1], s[m - 1]) <= 0
    requires forall k :: 2 <= k <= cnt && k / 2 == j ==> cmp(s[k - 1], s[m - 1]) <= 0
    ensures HeapBut(cmp, s[j - 1 := s[m - 1]][m - 1 := s[j - 1]], lo, cnt, m)
  {
    var t := s[j - 1 := s[m - 1]][m - 1 := s[j - 1]];
    forall k | 2 <= k <= cnt && lo <= k / 2 && k / 2 != m
      ensures Above(cmp, t, k / 2, k)
    {
      if k / 2 != j {
        assert Above(cmp, s, k / 2, k);
        if k == j {
          assert Above(cmp, s, j / 2, m);
        }
      }
    }
    forall k | 2 <= k <= cnt && k / 2 == m
      ensures Above(cmp, t, m / 2, k)
    {
      assert Above(cmp, s, m, k);
    }
  }

  /** heapify: floats element `i` down until the heap property holds from
      `i` on, within the first `cnt` elements. */
  method Heapify<T(!new)>(a: array<T>, i: nat, cnt: nat, cmp: Compare<T>)
    requires TotalPreorder(cmp)
    requires 1 <= i <= cnt <= a.Length
    requires HeapFrom(cmp, a[..], i + 1, cnt)
    modifies a
    ensures HeapFrom(cmp, a[..], i, cnt)
    ensures multiset(a[..]) == old(multiset(a[..]))
    ensures a[cnt..] == old(a[cnt..])
  {
    hide TotalPreorder, HeapBut, HeapFrom;
    var j := i;
    HeapStart(cmp, a[..], i, cnt);
    while true
      invariant i <= j <= cnt
      invariant HeapBut(cmp, a[..], i, cnt, j)
      invariant multiset(a[..]) == old(multiset(a[..]))
      invariant a[cnt..] == old(a[cnt..])
      decreases cnt - j
    {
      var left, right, max := 2 * j, 2 * j + 1, j;
      if left <= cnt && cmp(a[left - 1], a[max - 1]) > 0 {
        max := left;
      }
      if right <= cnt && cmp(a[right - 1], a[max - 1]) > 0 {
        max := right;
      }
      LargestChild(cmp, a[..], cnt, j, max);
      if max == j {
        HeapDone(cmp, a[..], i, cnt, j);
        break;
      }
      SiftDown(cmp, a[..], i, cnt, j, max);
      Swap(a, j, max);
      j := max;
    }
  }

  lemma HeapStart<T>(cmp: Compare<T>, s: seq<T>, i: nat, cnt: nat)
    requires 1 <= i && HeapFrom(cmp, s, i + 1, cnt)
    ensures HeapBut(cmp, s, i, cnt, i)
  {
  }

  /** The two comparisons find the largest of a node and its children. */
  lemma LargestChild<T(!new)>(cmp: Compare<T>, s: seq<T>, cnt: nat, j: nat, max: nat)
    requires TotalPreorder(cmp) && 1 <= j <= cnt <= |s|
    requires var m := if 2 * j <= cnt && cmp(s[2 * j - 1], s[j - 1]) > 0 then 2 * j else j;
             max == if 2 * j + 1 <= cnt && cmp(s[2 * j], s[m - 1]) > 0 then 2 * j + 1 else m
    ensures j <= max <= cnt && (max == j || max / 2 == j)
    ensures cmp(s[j - 1], s[max - 1]) <= 0
    ensures forall k :: 2 <= k <= cnt && k / 2 == j ==> cmp(s[k - 1], s[max - 1]) <= 0
  {
    forall k | 2 <= k <= cnt && k / 2 == j
      ensures cmp(s[k - 1], s[max - 1]) <= 0
    {
      assert k == 2 * j || k == 2 * j + 1;
    }
  }

  lemma HeapDone<T>(cmp: Compare<T>, s: seq<T>, lo: nat, cnt: nat, j: nat)
    requires HeapBut(cmp, s, lo, cnt, j) && 1 <= j <= cnt
    requires forall k :: 2 <= k <= cnt && k / 2 == j ==> cmp(s[k - 1], s[j - 1]) <= 0
    ensures HeapFrom(cmp, s, lo, cnt)
  {
    forall k | 2 <= k <= cnt && lo <= k / 2
      ensures Above(cmp, s, k / 2, k)
    {
    }
  }

  /** The root of a heap is its largest element. */
  lemma {:induction false} RootIsMax<T(!new)>(cmp: Compare<T>, s: seq<T>, cnt: nat, k: nat)
    requires TotalPreorder(cmp) && HeapFrom(cmp, s, 1, cnt) && 1 <= k <= cnt
    ensures cmp(s[k - 1], s[0]) <= 0
  {
    if k > 1 {
      assert Above(cmp, s, k / 2, k);
      RootIsMax(cmp, s, cnt, k / 2);
    } else {
      assert cmp(s[0], s[0]) <= 0;
    }
  }

  /** During the second loop of sort: the first `n` elements form a heap, the
      rest is sorted and dominates the heap. */
  ghost predicate Partial<T>(cmp: Compare<T>, s: seq<T>, n: nat) {
    && HeapFrom(cmp, s, 1, n)
    && Dominated(cmp, s, n)
  }

  ghost predicate Dominated<T>(cmp: Compare<T>, s: seq<T>, n: nat) {
    && n <= |s|
    && forall i, j :: 0 <= i < j < |s| && n <= j ==> cmp(s[i], s[j]) <= 0
  }

  /** Swapping the root behind the heap extends the sorted part. */
  lemma RootGoesLast<T(!new)>(cmp: Compare<T>, s: seq<T>, n: nat)
    requires TotalPreorder(cmp) && Partial(cmp, s, n) && 2 <= n
    ensures var t := s[0 := s[n - 1]][n - 1 := s[0]];
            HeapFrom(cmp, t, 2, n - 1) && Dominated(cmp, t, n - 1)
  {
    var t := s[0 := s[n - 1]][n - 1 := s[0]];
    forall k | 2 <= k <= n - 1 && 2 <= k / 2
      ensures Above(cmp, t, k / 2, k)
    {
      assert Above(cmp, s, k / 2, k);
    }
    forall i, j | 0 <= i < j < |t| && n - 1 <= j
      ensures cmp(t[i], t[j]) <= 0
    {
      if j == n - 1 {
        RootIsMax(cmp, s, n, if i == 0 then n else i + 1);
      } else if i == 0 {
        assert cmp(s[n - 1], s[j]) <= 0;
      } else if i == n - 1 {
        assert cmp(s[0], s[j]) <= 0;
      }
    }
  }

  lemma PrefixPermuted<T>(s: seq<T>, t: seq<T>, n: nat)
    requires n <= |s| == |t| && t[n..] == s[n..] && multiset(t) == multiset(s)
    ensures multiset(t[..n]) == multiset(s[..n])
  {
    assert s == s[..n] + s[n..] && t == t[..n] + t[n..];
    assert multiset(t[..n]) == multiset(t) - multiset(t[n..]);
    assert multiset(s[..n]) == multiset(s) - multiset(s[n..]);
  }

  /** Rearranging the heap part keeps it dominated. */
  lemma DominatedFrame<T>(cmp: Compare<T>, s: seq<T>, t: seq<T>, n: nat)
    requires Dominated(cmp, s, n) && |t| == |s| && t[n..] == s[n..]
    requires multiset(t) == multiset(s)
    ensures Dominated(cmp, t, n)
  {
    PrefixPermuted(s, t, n);
    forall i, j | 0 <= i < j < |t| && n <= j
      ensures cmp(t[i], t[j]) <= 0
    {
      assert t[j] == t[n..][j - n] == s[j];
      if i < n {
        assert t[..n][i] in multiset(t[..n]);
        assert t[i] in s[..n];
      } else {
        assert t[i] == t[n..][i - n] == s[i];
      }
    }
  }

  /** sort: any array becomes a sorted permutation of itself. */
  method Sort<T(!new)>(a: array<T>, cmp: Compare<T>)
    requires TotalPreorder(cmp)
    modifies a
    ensures Sorted(cmp, a[..])
    ensures multiset(a[..]) == old(multiset(a[..]))
  {
    var cnt := a.Length;
    var i := cnt / 2;
    while i > 0
      invariant 0 <= i <= cnt / 2
      invariant HeapFrom(cmp, a[..], i + 1, cnt)
      invariant multiset(a[..]) == old(multiset(a[..]))
    {
      Heapify(a, i, cnt, cmp);
      i := i - 1;
    }
    i := cnt;
    while i > 1
      invariant 0 <= i <= cnt
      invariant Partial(cmp, a[..], i)
      invariant multiset(a[..]) == old(multiset(a[..]))
    {
      RootGoesLast(cmp, a[..], i);
      Swap(a, 1, i);
      ghost var s := a[..];
      Heapify(a, 1, i - 1, cmp);
      assert a[..][i - 1..] == s[i - 1..];
      DominatedFrame(cmp, s, a[..], i - 1);
      i := i - 1;
    }
  }

  /** binary_search: finds a match exactly when there is one. The result is
      the index of the match, or -1 for a null pointer. */
  method BinarySearch<T(!new)>(key: T, s: seq<T>, cmp: Compare<T>) returns (r: int)
    requires TotalPreorder(cmp) && Sorted(cmp, s)
    ensures 0 <= r ==> r < |s| && cmp(key, s[r]) == 0
    ensures r < 0 <==> forall i :: 0 <= i < |s| ==> cmp(key, s[i]) != 0
  {
    var first, last := 0, |s|;
    while first < last
      invariant 0 <= first <= last <= |s|
      invariant forall i :: 0 <= i < first ==> cmp(key, s[i]) > 0
      invariant forall i :: last <= i < |s| ==> cmp(key, s[i]) < 0
    {
      var middle := first + (last - first) / 2;
      var c := cmp(key, s[middle]);
      if c < 0 {
        forall i | middle <= i < |s|
          ensures cmp(key, s[i]) < 0
        {
          SearchStep(cmp, key, s[middle], s[i]);
        }
        last := middle;
      } else if c > 0 {
        forall i | 0 <= i <= middle
          ensures cmp(key, s[i]) > 0
        {
          SearchStep(cmp, s[i], s[middle], key);
        }
        first := middle + 1;
      } else {
        return middle;
      }
    }
    r := -1;
  }

  lemma SearchStep<T(!new)>(cmp: Compare<T>, x: T, y: T, z: T)
    requires TotalPreorder(cmp)
    ensures cmp(x, y) < 0 && (y == z || cmp(y, z) <= 0) ==> cmp(x, z) < 0
    ensures cmp(z, y) > 0 && (x == y || cmp(x, y) <= 0) ==> cmp(z, x) > 0
  {
  }
}
