/** Orders, runs and the stable sort of a sequence of list elements: the
    heap-free half of the list model, used to specify list_insert_ordered and
    list_sort (src/lib/kernel/list.c). */
module StableOrder {

  /** A list element. In the C code it is embedded in the structure it links;
      `data` stands for the fields of that structure that comparators read. */
  class Elem<T> {
    const data: T
    var prev: Elem?<T>
    var next: Elem?<T>

    constructor (data: T)
      ensures this.data == data && prev == null && next == null
    {
      this.data := data;
      prev, next := null, null;
    }
  }

  type Less<!T> = (T, T) -> bool

  /** What list.h asks of a comparison function: a strict weak order. */
  ghost predicate StrictWeak<T(!new)>(less: Less<T>) {
    && (forall x :: !less(x, x))
    && (forall x, y, z :: less(x, y) && less(y, z) ==> less(x, z))
    && (forall x, y, z :: !less(x, y) && !less(y, z) ==> !less(x, z))
  }

  ghost predicate Sorted<T>(less: Less<T>, s: seq<Elem<T>>) {
    forall i, j :: 0 <= i < j < |s| ==> !less(s[j].data, s[i].data)
  }

  /** No element is smaller than its predecessor: a natural run. */
  ghost predicate IsRun<T>(less: Less<T>, s: seq<Elem<T>>) {
    forall i :: 0 < i < |s| ==> !less(s[i].data, s[i - 1].data)
  }

  lemma {:induction false} RunIsSorted<T(!new)>(less: Less<T>, s: seq<Elem<T>>)
    requires StrictWeak(less) && IsRun(less, s)
    ensures Sorted(less, s)
  {
    if |s| >= 2 {
      var n := |s| - 1;
      var t := s[..n];
      RunIsSorted(less, t);
      forall i | 0 <= i < n
        ensures !less(s[n].data, s[i].data)
      {
        assert !less(s[n].data, s[n - 1].data);
        assert i < n - 1 ==> !less(t[n - 1].data, t[i].data);
      }
      assert forall i, j :: 0 <= i < j < n ==> s[i] == t[i] && s[j] == t[j];
    }
  }

  // ---------------------------------------------- equivalence classes

  predicate Equiv<T>(less: Less<T>, a: T, b: T) {
    !less(a, b) && !less(b, a)
  }

  /** The elements of `s` equivalent to `k`, in order. */
  ghost function Class<T>(less: Less<T>, k: T, s: seq<Elem<T>>): seq<Elem<T>> {
    if s == [] then []
    else (if Equiv(less, k, s[0].data) then [s[0]] else []) + Class(less, k, s[1..])
  }

  /** Both sequences list the members of every class in the same order. */
  ghost predicate SameClasses<T(!new)>(less: Less<T>, s: seq<Elem<T>>, t: seq<Elem<T>>) {
    forall k :: Class(less, k, s) == Class(less, k, t)
  }

  lemma {:induction false} ClassConcat<T>(less: Less<T>, k: T, s: seq<Elem<T>>, t: seq<Elem<T>>)
    ensures Class(less, k, s + t) == Class(less, k, s) + Class(less, k, t)
  {
    if s == [] {
      assert s + t == t;
    } else {
      var head := if Equiv(less, k, s[0].data) then [s[0]] else [];
      assert (s + t)[1..] == s[1..] + t;
      ClassConcat(less, k, s[1..], t);
      assert head + (Class(less, k, s[1..]) + Class(less, k, t)) == Class(less, k, s) + Class(less, k, t);
    }
  }

  lemma {:induction false} ClassEmpty<T>(less: Less<T>, k: T, s: seq<Elem<T>>)
    requires forall i :: 0 <= i < |s| ==> !Equiv(less, k, s[i].data)
    ensures Class(less, k, s) == []
  {
    if s != [] {
      ClassEmpty(less, k, s[1..]);
    }
  }

  /** Replacing a part by one with the same classes keeps the classes. */
  lemma SameClassesInContext<T(!new)>(less: Less<T>, a: seq<Elem<T>>, s: seq<Elem<T>>, t: seq<Elem<T>>, b: seq<Elem<T>>)
    requires SameClasses(less, s, t)
    ensures SameClasses(less, a + s + b, a + t + b)
  {
    forall k
      ensures Class(less, k, a + s + b) == Class(less, k, a + t + b)
    {
      ClassConcat(less, k, a + s, b);
      ClassConcat(less, k, a, s);
      ClassConcat(less, k, a + t, b);
      ClassConcat(less, k, a, t);
    }
  }

  /** An element may be moved over elements it is strictly below. */
  lemma MoveOver<T(!new)>(less: Less<T>, s: seq<Elem<T>>, e: Elem<T>)
    requires StrictWeak(less)
    requires forall i :: 0 <= i < |s| ==> less(e.data, s[i].data)
    ensures SameClasses(less, [e] + s, s + [e])
  {
    forall k
      ensures Class(less, k, [e] + s) == Class(less, k, s + [e])
    {
      ClassConcat(less, k, [e], s);
      ClassConcat(less, k, s, [e]);
      if Equiv(less, k, e.data) {
        forall i | 0 <= i < |s|
          ensures !Equiv(less, k, s[i].data)
        {
          assert less(e.data, s[i].data);
        }
        ClassEmpty(less, k, s);
      }
    }
  }

  // ------------------------------------------------------- the sort

  /** The first position whose element is strictly above `e`. */
  ghost function InsertPoint<T>(less: Less<T>, s: seq<Elem<T>>, e: Elem<T>): (p: nat)
    ensures p <= |s|
    ensures forall i :: 0 <= i < p ==> !less(e.data, s[i].data)
    ensures p < |s| ==> less(e.data, s[p].data)
  {
    if s == [] || less(e.data, s[0].data) then 0 else 1 + InsertPoint(less, s[1..], e)
  }

  lemma {:induction false} InsertPointUnique<T>(less: Less<T>, s: seq<Elem<T>>, e: Elem<T>, p: nat)
    requires p <= |s|
    requires forall i :: 0 <= i < p ==> !less(e.data, s[i].data)
    requires p < |s| ==> less(e.data, s[p].data)
    ensures InsertPoint(less, s, e) == p
  {
    if p != 0 {
      InsertPointUnique(less, s[1..], e, p - 1);
    }
  }

  ghost function Insert<T>(less: Less<T>, s: seq<Elem<T>>, e: Elem<T>): seq<Elem<T>> {
    var p := InsertPoint(less, s, e);
    s[..p] + [e] + s[p..]
  }

  /** The reference sort: ordered insertion from front to back. */
  ghost function StableSort<T>(less: Less<T>, s: seq<Elem<T>>): seq<Elem<T>> {
    if s == [] then [] else Insert(less, StableSort(less, s[..|s| - 1]), s[|s| - 1])
  }

  lemma InsertKeepsSorted<T(!new)>(less: Less<T>, s: seq<Elem<T>>, e: Elem<T>)
    requires StrictWeak(less) && Sorted(less, s)
    ensures Sorted(less, Insert(less, s, e))
    ensures SameClasses(less, Insert(less, s, e), s + [e])
  {
    InsertKeepsClasses(less, s, e);
    InsertOrders(less, s, e);
  }

  lemma InsertKeepsClasses<T(!new)>(less: Less<T>, s: seq<Elem<T>>, e: Elem<T>)
    requires StrictWeak(less) && Sorted(less, s)
    ensures SameClasses(less, Insert(less, s, e), s + [e])
  {
    hide SameClasses;
    var p := InsertPoint(less, s, e);
    var a, b := s[..p], s[p..];
    forall i | 0 <= i < |b|
      ensures less(e.data, b[i].data)
    {
      assert b[0] == s[p] && b[i] == s[p + i];
      assert !less(b[i].data, b[0].data);
    }
    MoveOver(less, b, e);
    SameClassesInContext(less, a, [e] + b, b + [e], []);
    assert a + ([e] + b) + [] == Insert(less, s, e);
    assert a + (b + [e]) + [] == s + [e];
  }

  lemma InsertOrders<T(!new)>(less: Less<T>, s: seq<Elem<T>>, e: Elem<T>)
    requires StrictWeak(less) && Sorted(less, s)
    ensures Sorted(less, Insert(less, s, e))
  {
    var p := InsertPoint(less, s, e);
    var r := Insert(less, s, e);
    forall i, j | 0 <= i < j < |r|
      ensures !less(r[j].data, r[i].data)
    {
      assert r[i] == if i < p then s[i] else if i == p then e else s[i - 1];
      assert r[j] == if j < p then s[j] else if j == p then e else s[j - 1];
    }
  }

  /** The reference sort orders its input and keeps equivalent elements in
      their original order. */
  lemma {:induction false} StableSortCorrect<T(!new)>(less: Less<T>, s: seq<Elem<T>>)
    requires StrictWeak(less)
    ensures Sorted(less, StableSort(less, s))
    ensures SameClasses(less, StableSort(less, s), s)
  {
    if s != [] {
      var n := |s| - 1;
      var t := StableSort(less, s[..n]);
      StableSortCorrect(less, s[..n]);
      InsertKeepsSorted(less, t, s[n]);
      SameClassesInContext(less, [], t, s[..n], [s[n]]);
      assert [] + t + [s[n]] == t + [s[n]];
      assert [] + s[..n] + [s[n]] == s;
    }
  }

  lemma {:induction false} ClassMembers<T>(less: Less<T>, k: T, s: seq<Elem<T>>)
    ensures forall e :: e in Class(less, k, s) <==> e in s && Equiv(less, k, e.data)
    ensures forall e: Elem<T> :: Equiv(less, k, e.data) ==> multiset(Class(less, k, s))[e] == multiset(s)[e]
  {
    if s != [] {
      ClassMembers(less, k, s[1..]);
      assert s == [s[0]] + s[1..];
    }
  }

  /** Same classes means same elements, with multiplicity. */
  lemma SameClassesPermute<T(!new)>(less: Less<T>, s: seq<Elem<T>>, t: seq<Elem<T>>)
    requires StrictWeak(less) && SameClasses(less, s, t)
    ensures multiset(s) == multiset(t)
  {
    forall e: Elem<T> | e in s || e in t
      ensures multiset(s)[e] == multiset(t)[e]
    {
      ClassMembers(less, e.data, s);
      ClassMembers(less, e.data, t);
      assert Class(less, e.data, s) == Class(less, e.data, t);
    }
  }

  lemma {:induction false} ClassHead<T>(less: Less<T>, k: T, s: seq<Elem<T>>)
    requires s != [] && Equiv(less, k, s[0].data)
    ensures Class(less, k, s) != [] && Class(less, k, s)[0] == s[0]
  {
  }

  /** A sorted arrangement with given classes is unique. */
  lemma {:induction false} SortedUnique<T(!new)>(less: Less<T>, s: seq<Elem<T>>, t: seq<Elem<T>>)
    requires StrictWeak(less) && Sorted(less, s) && Sorted(less, t)
    requires SameClasses(less, s, t)
    ensures s == t
  {
    SameClassesPermute(less, s, t);
    if s == [] {
      assert |multiset(t)| == |multiset(s)| == 0;
    } else {
      assert |t| == |multiset(t)| == |multiset(s)| == |s|;
      assert s[0] in multiset(t) && t[0] in multiset(s);
      assert Equiv(less, s[0].data, t[0].data);
      ClassHead(less, s[0].data, s);
      ClassHead(less, s[0].data, t);
      assert Class(less, s[0].data, s) == Class(less, s[0].data, t);
      forall k
        ensures Class(less, k, s[1..]) == Class(less, k, t[1..])
      {
        var a, b := Class(less, k, s), Class(less, k, t);
        assert a == b && s[0] == t[0];
        var drop := if Equiv(less, k, s[0].data) then 1 else 0;
        assert Class(less, k, s[1..]) == a[drop..];
        assert Class(less, k, t[1..]) == b[drop..];
      }
      SortedUnique(less, s[1..], t[1..]);
    }
  }

  /** Any sorted sequence with the classes of `s` is the reference sort. */
  lemma IsStableSort<T(!new)>(less: Less<T>, s: seq<Elem<T>>, t: seq<Elem<T>>)
    requires StrictWeak(less) && Sorted(less, t) && SameClasses(less, s, t)
    ensures t == StableSort(less, s)
  {
    StableSortCorrect(less, s);
    SortedUnique(less, t, StableSort(less, s));
  }

  // ------------------------------------------------- merging and runs

  /** The stable merge: on a tie the left element goes first. */
  ghost function Merge<T>(less: Less<T>, x: seq<Elem<T>>, y: seq<Elem<T>>): seq<Elem<T>> {
    if x == [] then y
    else if y == [] then x
    else if !less(y[0].data, x[0].data) then [x[0]] + Merge(less, x[1..], y)
    else [y[0]] + Merge(less, x, y[1..])
  }

  lemma MergeEnd<T>(less: Less<T>, x: seq<Elem<T>>, y: seq<Elem<T>>)
    requires x == [] || y == []
    ensures Merge(less, x, y) == x + y
  {
  }

  lemma {:induction false} MergeKeepsClasses<T(!new)>(less: Less<T>, x: seq<Elem<T>>, y: seq<Elem<T>>)
    requires StrictWeak(less) && Sorted(less, x)
    ensures SameClasses(less, Merge(less, x, y), x + y)
    decreases |x| + |y|
  {
    var m := Merge(less, x, y);
    if x == [] || y == [] {
      assert m == x + y;
    } else if !less(y[0].data, x[0].data) {
      MergeKeepsClasses(less, x[1..], y);
      SameClassesInContext(less, [x[0]], Merge(less, x[1..], y), x[1..] + y, []);
      assert m == [x[0]] + Merge(less, x[1..], y) + [];
      assert x + y == [x[0]] + (x[1..] + y) + [];
    } else {
      MergeKeepsClasses(less, x, y[1..]);
      SameClassesInContext(less, [y[0]], Merge(less, x, y[1..]), x + y[1..], []);
      assert m == [y[0]] + Merge(less, x, y[1..]) + [];
      forall i | 0 <= i < |x|
        ensures less(y[0].data, x[i].data)
      {
        assert i > 0 ==> !less(x[i].data, x[0].data);
      }
      MoveOver(less, x, y[0]);
      SameClassesInContext(less, [], [y[0]] + x, x + [y[0]], y[1..]);
      assert [] + ([y[0]] + x) + y[1..] == [y[0]] + (x + y[1..]) + [];
      assert [] + (x + [y[0]]) + y[1..] == x + y;
    }
  }

  /** Nothing in `s` is strictly below `e`. */
  ghost predicate Above<T>(less: Less<T>, e: Elem<T>, s: seq<Elem<T>>) {
    forall i :: 0 <= i < |s| ==> !less(s[i].data, e.data)
  }

  lemma {:induction false} MergeAbove<T>(less: Less<T>, e: Elem<T>, x: seq<Elem<T>>, y: seq<Elem<T>>)
    requires Above(less, e, x) && Above(less, e, y)
    ensures Above(less, e, Merge(less, x, y))
    decreases |x| + |y|
  {
    if x != [] && y != [] {
      if !less(y[0].data, x[0].data) {
        MergeAbove(less, e, x[1..], y);
      } else {
        MergeAbove(less, e, x, y[1..]);
      }
    }
  }

  lemma SortedCons<T>(less: Less<T>, e: Elem<T>, s: seq<Elem<T>>)
    requires Above(less, e, s) && Sorted(less, s)
    ensures Sorted(less, [e] + s)
  {
    var r := [e] + s;
    assert forall i :: 0 < i < |r| ==> r[i] == s[i - 1];
  }

  lemma HeadBelow<T(!new)>(less: Less<T>, e: Elem<T>, s: seq<Elem<T>>)
    requires StrictWeak(less) && Sorted(less, s)
    requires s != [] ==> !less(s[0].data, e.data)
    ensures Above(less, e, s)
  {
    forall i | 0 <= i < |s|
      ensures !less(s[i].data, e.data)
    {
      assert i > 0 ==> !less(s[i].data, s[0].data);
    }
  }

  lemma {:induction false} MergeKeepsSorted<T(!new)>(less: Less<T>, x: seq<Elem<T>>, y: seq<Elem<T>>)
    requires StrictWeak(less) && Sorted(less, x) && Sorted(less, y)
    ensures Sorted(less, Merge(less, x, y))
    decreases |x| + |y|
  {
    if x != [] && y != [] {
      if !less(y[0].data, x[0].data) {
        MergeKeepsSorted(less, x[1..], y);
        HeadBelow(less, x[0], x);
        HeadBelow(less, x[0], y);
        MergeAbove(less, x[0], x[1..], y);
        SortedCons(less, x[0], Merge(less, x[1..], y));
      } else {
        MergeKeepsSorted(less, x, y[1..]);
        HeadBelow(less, y[0], x);
        HeadBelow(less, y[0], y);
        MergeAbove(less, y[0], x, y[1..]);
        SortedCons(less, y[0], Merge(less, x, y[1..]));
      }
    }
  }

  /** How often an element is smaller than its predecessor: one less than the
      number of natural runs of a nonempty sequence. */
  ghost function Descents<T>(less: Less<T>, s: seq<Elem<T>>): nat {
    if |s| < 2 then 0
    else Descents(less, s[..|s| - 1]) + if less(s[|s| - 1].data, s[|s| - 2].data) then 1 else 0
  }

  lemma {:induction false} DescentsConcat<T>(less: Less<T>, s: seq<Elem<T>>, t: seq<Elem<T>>)
    requires s != [] && t != []
    ensures Descents(less, s + t)
         == Descents(less, s) + Descents(less, t) + if less(t[0].data, s[|s| - 1].data) then 1 else 0
  {
    var n := |t| - 1;
    if n == 0 {
      assert (s + t)[..|s + t| - 1] == s;
    } else {
      DescentsConcat(less, s, t[..n]);
      assert (s + t)[..|s + t| - 1] == s + t[..n];
    }
  }

  lemma {:induction false} NoDescentsIffRun<T>(less: Less<T>, s: seq<Elem<T>>)
    ensures Descents(less, s) == 0 <==> IsRun(less, s)
  {
    if |s| >= 2 {
      var n := |s| - 1;
      NoDescentsIffRun(less, s[..n]);
      if IsRun(less, s[..n]) && !less(s[n].data, s[n - 1].data) {
        forall i | 0 < i < |s|
          ensures !less(s[i].data, s[i - 1].data)
        {
          assert i < n ==> !less(s[..n][i].data, s[..n][i - 1].data);
        }
      }
    }
  }

  // --------------------------------------------- one pass of the merge sort

  /** What a pass of list_sort has achieved after `runs` merges: `done` has
      replaced the prefix `p` of the list and `rest` is still to come. It
      holds at most `runs` natural runs, made out of at least twice as many. */
  ghost predicate PassState<T(!new)>(less: Less<T>, p: seq<Elem<T>>, done: seq<Elem<T>>, rest: seq<Elem<T>>, runs: nat)
  {
    && |done| == |p|
    && SameClasses(less, done, p)
    && (runs == 0 ==> |done| == 0)
    && (runs > 0 ==> |done| > 0 && Descents(less, done) < runs)
    && (if |rest| == 0 then 2 * runs <= Descents(less, p) + 1
        else 2 * runs <= Descents(less, p + [rest[0]]))
  }

  /** A run extends a prefix without adding descents past its first element. */
  lemma DescentsExtend<T>(less: Less<T>, p: seq<Elem<T>>, x: seq<Elem<T>>)
    requires x != [] && IsRun(less, x)
    ensures Descents(less, p + x) == Descents(less, p + [x[0]])
  {
    NoDescentsIffRun(less, x);
    if p == [] {
      assert p + x == x && p + [x[0]] == [x[0]];
    } else {
      DescentsConcat(less, p, x);
      DescentsConcat(less, p, [x[0]]);
    }
  }

  lemma PassStart<T(!new)>(less: Less<T>, rest: seq<Elem<T>>)
    ensures PassState(less, [], [], rest, 0)
    ensures rest == [] ==> PassResult(less, [], [], 0)
  {
  }

  lemma PassStep<T(!new)>(less: Less<T>, p: seq<Elem<T>>, done: seq<Elem<T>>, x: seq<Elem<T>>, y: seq<Elem<T>>,
                          rest: seq<Elem<T>>, runs: nat)
    requires StrictWeak(less) && PassState(less, p, done, x + y + rest, runs)
    requires x != [] && IsRun(less, x) && y != [] && IsRun(less, y)
    requires less(y[0].data, x[|x| - 1].data)
    requires rest != [] ==> less(rest[0].data, y[|y| - 1].data)
    ensures PassState(less, p + x + y, done + Merge(less, x, y), rest, runs + 1)
  {
    hide Merge, Descents, SameClasses, IsRun, StrictWeak;
    var m := Merge(less, x, y);
    MergeOfRuns(less, x, y);
    SameClassesAppend(less, done, p, m, x + y);
    assert p + (x + y) == p + x + y;
    RunsFound(less, p, x, y, rest);
    AppendRun(less, done, m);
  }

  lemma MergeOfRuns<T(!new)>(less: Less<T>, x: seq<Elem<T>>, y: seq<Elem<T>>)
    requires StrictWeak(less) && IsRun(less, x) && IsRun(less, y)
    ensures IsRun(less, Merge(less, x, y))
    ensures |Merge(less, x, y)| == |x| + |y|
    ensures SameClasses(less, Merge(less, x, y), x + y)
  {
    RunIsSorted(less, x);
    RunIsSorted(less, y);
    MergeKeepsSorted(less, x, y);
    MergeKeepsClasses(less, x, y);
    var m, xy := Merge(less, x, y), x + y;
    SameClassesPermute(less, m, xy);
    assert |m| == |multiset(m)| == |multiset(xy)| == |xy|;
  }

  lemma SameClassesAppend<T(!new)>(less: Less<T>, s: seq<Elem<T>>, t: seq<Elem<T>>, x: seq<Elem<T>>, y: seq<Elem<T>>)
    requires SameClasses(less, s, t) && SameClasses(less, x, y)
    ensures SameClasses(less, s + x, t + y)
  {
    forall k
      ensures Class(less, k, s + x) == Class(less, k, t + y)
    {
      ClassConcat(less, k, s, x);
      ClassConcat(less, k, t, y);
    }
  }

  lemma AppendRun<T>(less: Less<T>, done: seq<Elem<T>>, x: seq<Elem<T>>)
    requires x != [] && IsRun(less, x)
    ensures Descents(less, done + x) <= if done == [] then 0 else Descents(less, done) + 1
  {
    NoDescentsIffRun(less, x);
    if done == [] {
      assert done + x == x;
    } else {
      DescentsConcat(less, done, x);
    }
  }

  /** Two more runs were found: two more descents when something follows. */
  lemma RunsFound<T>(less: Less<T>, p: seq<Elem<T>>, x: seq<Elem<T>>, y: seq<Elem<T>>, rest: seq<Elem<T>>)
    requires x != [] && IsRun(less, x) && y != [] && IsRun(less, y)
    requires less(y[0].data, x[|x| - 1].data)
    requires rest != [] ==> less(rest[0].data, y[|y| - 1].data)
    ensures Descents(less, p + x + y) == Descents(less, p + [x[0]]) + 1
    ensures rest != [] ==> Descents(less, p + x + y + [rest[0]]) == Descents(less, p + [x[0]]) + 2
  {
    DescentsExtend(less, p, x);
    DescentsConcat(less, p + x, y);
    NoDescentsIffRun(less, y);
    if rest != [] {
      DescentsConcat(less, p + x + y, [rest[0]]);
    }
  }

  /** What a whole pass over `s` achieves: the result `t` keeps the classes
      and has at most `runs` natural runs, about half as many as `s`. */
  ghost predicate PassResult<T(!new)>(less: Less<T>, s: seq<Elem<T>>, t: seq<Elem<T>>, runs: nat) {
    && SameClasses(less, t, s)
    && 2 * runs <= Descents(less, s) + 2
    && Descents(less, t) <= if runs == 0 then 0 else runs - 1
  }

  /** A pass that runs off the end of the list. */
  lemma PassComplete<T(!new)>(less: Less<T>, p: seq<Elem<T>>, done: seq<Elem<T>>, runs: nat)
    requires PassState(less, p, done, [], runs)
    ensures PassResult(less, p, done, runs)
  {
  }

  /** A pass that ends with an unpaired last run `x`. */
  lemma PassLastRun<T(!new)>(less: Less<T>, p: seq<Elem<T>>, done: seq<Elem<T>>, x: seq<Elem<T>>, runs: nat)
    requires PassState(less, p, done, x, runs)
    requires x != [] && IsRun(less, x)
    ensures PassResult(less, p + x, done + x, runs + 1)
  {
    SameClassesAppend(less, done, p, x, x);
    DescentsExtend(less, p, x);
    AppendRun(less, done, x);
  }
}
