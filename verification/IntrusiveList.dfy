/** The doubly linked list of src/lib/kernel/list.c, on the heap. */
module IntrusiveList {
  import opened StableOrder

  /** The nodes of `s` are pairwise different. */
  ghost predicate Distinct<T>(s: seq<Elem<T>>) {
    forall i, j :: 0 <= i < j < |s| ==> s[i] != s[j]
  }

  /** `a` and `b` point at each other. */
  ghost predicate Link<T>(a: Elem<T>, b: Elem<T>)
    reads a, b
  {
    a.next == b && b.prev == a
  }

  /** Consecutive nodes of `s` point at each other. */
  ghost predicate Linked<T>(s: seq<Elem<T>>)
    reads s
  {
    forall i :: 0 <= i < |s| - 1 ==> Link(s[i], s[i + 1])
  }

  lemma LinkedSplit<T>(s: seq<Elem<T>>, t: seq<Elem<T>>)
    requires s != [] && t != [] && Linked(s + t)
    ensures Linked(s) && Linked(t) && Link(s[|s| - 1], t[0])
  {
    var r := s + t;
    forall i | 0 <= i < |s| - 1
      ensures Link(s[i], s[i + 1])
    {
      assert Link(r[i], r[i + 1]);
    }
    forall i | 0 <= i < |t| - 1
      ensures Link(t[i], t[i + 1])
    {
      assert Link(r[|s| + i], r[|s| + i + 1]);
    }
    assert Link(r[|s| - 1], r[|s|]);
  }

  lemma LinkedJoin<T>(s: seq<Elem<T>>, t: seq<Elem<T>>)
    requires s != [] && t != []
    requires Linked(s) && Linked(t) && Link(s[|s| - 1], t[0])
    ensures Linked(s + t)
  {
    var r := s + t;
    forall i | 0 <= i < |r| - 1
      ensures Link(r[i], r[i + 1])
    {
      if i < |s| - 1 {
        assert Link(s[i], s[i + 1]);
      } else if i >= |s| {
        assert Link(t[i - |s|], t[i - |s| + 1]);
      }
    }
  }

  ghost predicate Disjoint<T>(s: seq<Elem<T>>, t: seq<Elem<T>>) {
    forall i, j :: 0 <= i < |s| && 0 <= j < |t| ==> s[i] != t[j]
  }

  lemma DistinctConcat<T>(s: seq<Elem<T>>, t: seq<Elem<T>>)
    ensures Distinct(s + t) <==> Distinct(s) && Distinct(t) && Disjoint(s, t)
  {
    var r := s + t;
    if Distinct(r) {
      assert forall i :: 0 <= i < |s| ==> s[i] == r[i];
      assert forall i :: 0 <= i < |t| ==> t[i] == r[|s| + i];
    }
  }

  ghost predicate Inside<T>(s: seq<Elem<T>>, r: set<Elem<T>>) {
    forall i :: 0 <= i < |s| ==> s[i] in r
  }

  lemma InsideSwap<T>(l: seq<Elem<T>>, x: seq<Elem<T>>, y: seq<Elem<T>>, r: seq<Elem<T>>, all: set<Elem<T>>)
    requires Inside(l + x + y + r, all)
    ensures Inside(l + y + x + r, all)
  {
    var s, t := l + x + y + r, l + y + x + r;
    forall i | 0 <= i < |t|
      ensures t[i] in all
    {
      var k := if i < |l| || |l + x + y| <= i then i else if i < |l + y| then i + |x| else i - |y|;
      assert t[i] == s[k];
    }
  }

  lemma DistinctInsert<T>(l: seq<Elem<T>>, r: seq<Elem<T>>, e: Elem<T>, all: set<Elem<T>>)
    requires Distinct(l + r) && Inside(l + r, all) && e !in all
    ensures Distinct(l) && Distinct(r) && Disjoint(l, r) && Disjoint(l, [e]) && Disjoint([e], r)
    ensures Distinct(l + [e] + r) && Inside(l + [e] + r, all + {e})
  {
    var s := l + r;
    assert forall i :: 0 <= i < |l| ==> l[i] == s[i];
    assert forall i :: 0 <= i < |r| ==> r[i] == s[|l| + i];
    DistinctConcat(l, [e]);
    DisjointConcat(l, [e], r);
    DistinctConcat(l + [e], r);
  }

  /** `struct list`: two header elements around the interior ones. The `data`
      of a header element is never read. */
  class List<T(!new)> {
    const head: Elem<T>
    const tail: Elem<T>
    /** Head, interior elements, tail. */
    ghost var nodes: seq<Elem<T>>
    ghost var repr: set<Elem<T>>

    ghost predicate Valid()
      reads this, repr
    {
      && Inside(nodes, repr)
      && 2 <= |nodes|
      && nodes[0] == head && nodes[|nodes| - 1] == tail
      && Distinct(nodes) && Linked(nodes)
      && head.prev == null && tail.next == null
    }

    ghost function Contents(): seq<Elem<T>>
      reads this, repr
      requires Valid()
    {
      nodes[1..|nodes| - 1]
    }

    /** list_init; `unused` fills the headers' data. */
    constructor (unused: T)
      ensures Valid() && Contents() == []
      ensures fresh(repr)
    {
      var h := new Elem(unused);
      var t := new Elem(unused);
      h.next, t.prev := t, h;
      head, tail := h, t;
      nodes, repr := [h, t], {h, t};
    }

    /** list_splice within one list, moving a block toward the front: the
        block `y` that starts at `first` and ends just before `last` goes to
        just before `before`. */
    method Splice(before: Elem<T>, first: Elem<T>, last: Elem<T>,
                  ghost l: seq<Elem<T>>, ghost x: seq<Elem<T>>, ghost y: seq<Elem<T>>, ghost r: seq<Elem<T>>)
      requires Valid()
      requires nodes == l + x + y + r && l != [] && x != [] && r != []
      requires before == x[0] && first == (y + r)[0] && last == r[0]
      modifies this`nodes, repr
      ensures Valid()
      ensures nodes == l + y + x + r
    {
      BlocksApart(l, x, y, r);
      if first != last {
        assert l[0] == nodes[0] && r[|r| - 1] == nodes[|nodes| - 1];
        LinkedSplit(l + x + y, r);
        var end := last.prev;
        MoveBlock(before, first, end, last, l, x, y, r);
        nodes := l + y + x + r;
        InsideSwap(l, x, y, r, repr);
      }
    }

    /** list_splice within one list, toward the back or to where the block
        already is: the block `y` goes past `x`, to just before `before`. */
    method SpliceBack(before: Elem<T>, first: Elem<T>, last: Elem<T>,
                      ghost l: seq<Elem<T>>, ghost y: seq<Elem<T>>, ghost x: seq<Elem<T>>, ghost r: seq<Elem<T>>)
      requires Valid()
      requires nodes == l + y + x + r && l != [] && r != []
      requires before == r[0] && first == (y + x + r)[0] && last == (x + r)[0]
      modifies this`nodes, repr
      ensures Valid()
      ensures nodes == l + x + y + r
    {
      BlocksApart(l, y, x, r);
      assert first == last <==> y == [] by { BlockAtFront(l, y, x + r); }
      if first != last {
        assert l[0] == nodes[0] && r[|r| - 1] == nodes[|nodes| - 1];
        assert nodes == l + y + (x + r);
        LinkedSplit(l + y, x + r);
        var end := last.prev;
        MoveBlockBack(before, first, end, last, l, y, x, r);
        nodes := l + x + y + r;
        InsideSwap(l, y, x, r, repr);
      }
    }

    /** list_splice from another list: the block `y` leaves `other` and goes to
        just before `before`. */
    method SpliceFrom(other: List<T>, before: Elem<T>, first: Elem<T>, last: Elem<T>,
                      ghost l: seq<Elem<T>>, ghost r: seq<Elem<T>>,
                      ghost a: seq<Elem<T>>, ghost y: seq<Elem<T>>, ghost b: seq<Elem<T>>)
      requires Valid() && other.Valid() && other != this && repr !! other.repr
      requires nodes == l + r && l != [] && r != [] && before == r[0]
      requires other.nodes == a + y + b && a != [] && b != []
      requires first == (y + b)[0] && last == b[0]
      modifies this`nodes, this`repr, other`nodes, other`repr, repr, other.repr
      ensures Valid() && other.Valid() && repr !! other.repr
      ensures nodes == l + y + r && other.nodes == a + b
      ensures repr + other.repr == old(repr + other.repr)
    {
      hide Distinct, Disjoint, Linked;
      assert first == last <==> y == [] by { BlockAtFront(a, y, b); }
      if first != last {
        LinkedSplit(a + y, b);
        var end := last.prev;
        ghost var moved := set e | e in y;
        CrossInside(l, r, a, y, b, repr, other.repr, moved);
        CrossDistinct(l, r, a, y, b);
        assert l[0] == nodes[0] && r[|r| - 1] == nodes[|nodes| - 1];
        assert a[0] == other.nodes[0] && b[|b| - 1] == other.nodes[|other.nodes| - 1];
        CrossLink(before, first, end, last, l, r, a, y, b);
        nodes, other.nodes := l + y + r, a + b;
        repr, other.repr := repr + moved, other.repr - moved;
      }
    }

    /** list_insert: `elem` goes just before `before`, the node at index `k`. */
    method Insert(before: Elem<T>, elem: Elem<T>, ghost k: nat)
      requires Valid()
      requires 0 < k < |nodes| && nodes[k] == before && elem !in repr
      modifies this`nodes, this`repr, repr, elem
      ensures Valid() && repr == old(repr) + {elem}
      ensures nodes == old(nodes[..k] + [elem] + nodes[k..])
    {
      assert nodes == nodes[..k] + nodes[k..];
      InsertBetween(before, elem, nodes[..k], nodes[k..]);
    }

    method InsertBetween(before: Elem<T>, elem: Elem<T>, ghost l: seq<Elem<T>>, ghost r: seq<Elem<T>>)
      requires Valid()
      requires nodes == l + r && l != [] && r != [] && before == r[0] && elem !in repr
      modifies this`nodes, this`repr, repr, elem
      ensures Valid() && repr == old(repr) + {elem}
      ensures nodes == l + [elem] + r
    {
      assert l[0] == nodes[0] && l[|l| - 1] == nodes[|l| - 1];
      assert r[0] == nodes[|l|] && r[|r| - 1] == nodes[|nodes| - 1];
      DistinctInsert(l, r, elem, repr);
      Relink(l[|l| - 1], before, elem, elem, l, [elem], r);
      nodes, repr := l + [elem] + r, repr + {elem};
    }

    /** list_insert_ordered: after every element that is not strictly above
        `elem`, up to the first one that is. */
    method InsertOrdered(elem: Elem<T>, less: Less<T>)
      requires Valid() && elem !in repr
      modifies this`nodes, this`repr, repr, elem
      ensures Valid() && repr == old(repr) + {elem}
      ensures Contents() == StableOrder.Insert(less, old(Contents()), elem)
    {
      ghost var s := Contents();
      var e, k := FindAbove(elem, less);
      InsertPointUnique(less, s, elem, k - 1);
      assert nodes[..k] == [head] + s[..k - 1] && nodes[k..] == s[k - 1..] + [tail];
      Insert(e, elem, k);
    }

    /** The search loop of list_insert_ordered. */
    method FindAbove(elem: Elem<T>, less: Less<T>) returns (e: Elem<T>, ghost k: nat)
      requires Valid()
      ensures 0 < k < |nodes| && nodes[k] == e
      ensures forall i :: 0 < i < k ==> !less(elem.data, nodes[i].data)
      ensures k == |nodes| - 1 || less(elem.data, e.data)
    {
      assert Link(nodes[0], nodes[1]);
      e, k := head.next, 1;
      while e != tail && !less(elem.data, e.data)
        invariant 0 < k < |nodes| && nodes[k] == e
        invariant forall i :: 0 < i < k ==> !less(elem.data, nodes[i].data)
        decreases |nodes| - k
      {
        assert Link(nodes[k], nodes[k + 1]);
        e, k := e.next, k + 1;
      }
    }

    /** find_end_of_run from the node at `i` to the node at `j`, exclusive. */
    method FindEndOfRun(a: Elem<T>, b: Elem<T>, less: Less<T>, ghost i: nat, ghost j: nat)
      returns (e: Elem<T>, ghost k: nat)
      requires Valid()
      requires 0 < i < j < |nodes| && nodes[i] == a && nodes[j] == b
      ensures i < k <= j && nodes[k] == e
      ensures IsRun(less, nodes[i..k])
      ensures k < j ==> less(nodes[k].data, nodes[k - 1].data)
    {
      assert Link(nodes[i], nodes[i + 1]);
      e, k := a.next, i + 1;
      while e != b && !less(e.data, e.prev.data)
        invariant i < k <= j && nodes[k] == e
        invariant e.prev == nodes[k - 1]
        invariant forall m :: i < m < k ==> !less(nodes[m].data, nodes[m - 1].data)
        decreases j - k
      {
        assert Link(nodes[k], nodes[k + 1]);
        e, k := e.next, k + 1;
      }
    }

    /** One iteration of the merge: the front of the merge of `x` and `y`
        joins `front`. */
    method MergeStep(a0: Elem<T>, a1b0: Elem<T>, less: Less<T>,
                     ghost front: seq<Elem<T>>, ghost x: seq<Elem<T>>, ghost y: seq<Elem<T>>, ghost r: seq<Elem<T>>)
      returns (a: Elem<T>, b: Elem<T>, ghost t: Elem<T>, ghost x': seq<Elem<T>>, ghost y': seq<Elem<T>>)
      requires Valid()
      requires nodes == front + x + y + r && front != [] && x != [] && y != [] && r != []
      requires a0 == x[0] && a1b0 == y[0]
      modifies this`nodes, repr
      ensures Valid()
      ensures nodes == front + [t] + x' + y' + r
      ensures a == nodes[|front| + 1] && b == nodes[|front| + 1 + |x'|]
      ensures Merge(less, x, y) == [t] + Merge(less, x', y')
      ensures |x'| + |y'| < |x| + |y|
    {
      a, b := a0, a1b0;
      if !less(b.data, a.data) {
        t, x', y' := x[0], x[1..], y;
        ghost var i := |front|;
        assert Link(nodes[i], nodes[i + 1]);
        a := a.next;
        assert nodes == front + [t] + x' + y' + r;
      } else {
        t, x', y' := y[0], x, y[1..];
        ghost var i := |front| + |x|;
        assert Link(nodes[i], nodes[i + 1]);
        b := b.next;
        assert nodes == front + x + [t] + (y' + r);
        Splice(a, b.prev, b, front, x, [t], y' + r);
        assert nodes == front + [t] + x' + y' + r;
      }
    }

    /** inplace_merge of the adjacent runs `x` (starting at `a0`) and `y`
        (starting at `a1b0`, ending just before `b1`): the stable merge. */
    method InplaceMerge(a0: Elem<T>, a1b0: Elem<T>, b1: Elem<T>, less: Less<T>,
                        ghost l: seq<Elem<T>>, ghost x: seq<Elem<T>>, ghost y: seq<Elem<T>>, ghost r: seq<Elem<T>>)
      requires Valid()
      requires nodes == l + x + y + r && l != [] && x != [] && y != [] && r != []
      requires a0 == x[0] && a1b0 == y[0] && b1 == r[0]
      modifies this`nodes, repr
      ensures Valid()
      ensures nodes == l + Merge(less, x, y) + r
    {
      hide Distinct, Linked, Inside, Merge;
      var a, b := a0, a1b0;
      ghost var front, x', y' := l, x, y;
      while a != b && b != b1
        invariant Valid()
        invariant front != [] && nodes == front + x' + y' + r
        invariant a == nodes[|front|] && b == nodes[|front| + |x'|] && b1 == nodes[|front| + |x'| + |y'|]
        invariant front + Merge(less, x', y') == l + Merge(less, x, y)
        decreases |x'| + |y'|
      {
        assert x' != [] && y' != [];
        ghost var t, x'', y'';
        a, b, t, x'', y'' := MergeStep(a, b, less, front, x', y', r);
        assert front + ([t] + Merge(less, x'', y'')) == front + [t] + Merge(less, x'', y'');
        front, x', y' := front + [t], x'', y'';
      }
      assert x' == [] || y' == [] by { assert Distinct(nodes); OneSideEmpty(nodes, |front|, |x'|, |y'|); }
      MergeEnd(less, x', y');
    }

    /** find_end_of_run up to the end of the list, on the block `rest` of the
        nodes that starts at `a`: it cuts off the natural run `x`. */
    method NextRun(a: Elem<T>, less: Less<T>, ghost front: seq<Elem<T>>, ghost rest: seq<Elem<T>>)
      returns (e: Elem<T>, ghost x: seq<Elem<T>>, ghost rest': seq<Elem<T>>)
      requires Valid()
      requires nodes == front + rest + [tail] && front != [] && rest != [] && a == rest[0]
      ensures rest == x + rest' && x != [] && IsRun(less, x)
      ensures rest' != [] ==> less(rest'[0].data, x[|x| - 1].data)
      ensures e == (rest' + [tail])[0] && (e == tail <==> rest' == [])
    {
      ghost var i, n := |front|, |nodes| - 1;
      ghost var k;
      e, k := FindEndOfRun(a, tail, less, i, n);
      x, rest' := nodes[i..k], nodes[k..n];
      assert rest == nodes[i..n];
    }

    /** The body of list_sort's inner loop: finds the run `x` at `a0` and, if
        the list goes on after it, the run `y` that follows, and merges them. */
    method MergeNextPair(a0: Elem<T>, less: Less<T>, ghost front: seq<Elem<T>>, ghost rest: seq<Elem<T>>)
      returns (b1: Elem<T>, ghost x: seq<Elem<T>>, ghost y: seq<Elem<T>>, ghost rest': seq<Elem<T>>)
      requires Valid()
      requires nodes == front + rest + [tail] && front != [] && rest != [] && a0 == rest[0]
      modifies this`nodes, repr
      ensures Valid()
      ensures rest == x + y + rest' && x != [] && IsRun(less, x) && IsRun(less, y)
      ensures y == [] ==> rest' == [] && nodes == old(nodes)
      ensures y != [] ==> nodes == front + Merge(less, x, y) + rest' + [tail]
      ensures y != [] ==> less(y[0].data, x[|x| - 1].data)
      ensures y != [] && rest' != [] ==> less(rest'[0].data, y[|y| - 1].data)
      ensures b1 == (rest' + [tail])[0] && (b1 == tail <==> rest' == [])
    {
      hide Merge, Linked, Distinct, Inside;
      var a1b0;
      a1b0, x, rest' := NextRun(a0, less, front, rest);
      b1, y := a1b0, [];
      if a1b0 != tail {
        ghost var after := rest';
        assert nodes == (front + x) + after + [tail];
        b1, y, rest' := NextRun(a1b0, less, front + x, after);
        assert nodes == front + x + y + (rest' + [tail]);
        assert rest == x + y + rest';
        InplaceMerge(a0, a1b0, b1, less, front, x, y, rest' + [tail]);
        Regroup(front, Merge(less, x, y), rest', [tail], []);
      }
    }

    /** One pass of list_sort; `runs` is its output_run_cnt. */
    method MergePass(less: Less<T>) returns (runs: nat)
      requires Valid() && StrictWeak(less)
      modifies this`nodes, repr
      ensures Valid()
      ensures PassResult(less, old(Contents()), Contents(), runs)
    {
      hide Merge, PassState, PassResult, StrictWeak, IsRun, Link, Linked, Distinct, Inside;
      FrontNode();
      var a0 := head.next;
      ghost var p, done, rest := [], [], Contents();
      assert nodes == [head] + done + rest + [tail] && p + rest == rest;
      runs := 0;
      PassStart(less, rest);
      while a0 != tail
        invariant Valid()
        invariant nodes == [head] + done + rest + [tail]
        invariant old(Contents()) == p + rest
        invariant a0 == (rest + [tail])[0] && (a0 == tail <==> rest == [])
        invariant if rest == [] then PassResult(less, p, done, runs) else PassState(less, p, done, rest, runs)
        decreases |rest|
      {
        a0, p, done, rest := PassIteration(a0, less, old(Contents()), p, done, rest, runs);
        runs := runs + 1;
      }
      Interior(head, done, rest, tail);
      assert done + rest == done && p + rest == p;
    }

    lemma FrontNode()
      requires Valid()
      ensures nodes == [head] + Contents() + [tail]
      ensures head.next == (Contents() + [tail])[0] && (head.next == tail <==> Contents() == [])
    {
      assert Link(nodes[0], nodes[1]);
      assert nodes == [head] + Contents() + [tail];
    }

    /** One iteration of the pass, on its bookkeeping. */
    method PassIteration(a0: Elem<T>, less: Less<T>, ghost orig: seq<Elem<T>>, ghost p: seq<Elem<T>>,
                         ghost done: seq<Elem<T>>, ghost rest: seq<Elem<T>>, ghost runs: nat)
      returns (b1: Elem<T>, ghost p': seq<Elem<T>>, ghost done': seq<Elem<T>>, ghost rest': seq<Elem<T>>)
      requires Valid() && StrictWeak(less)
      requires nodes == [head] + done + rest + [tail] && orig == p + rest
      requires rest != [] && a0 == rest[0]
      requires PassState(less, p, done, rest, runs)
      modifies this`nodes, repr
      ensures Valid()
      ensures nodes == [head] + done' + rest' + [tail] && orig == p' + rest'
      ensures b1 == (rest' + [tail])[0] && (b1 == tail <==> rest' == [])
      ensures if rest' == [] then PassResult(less, p', done', runs + 1) else PassState(less, p', done', rest', runs + 1)
      ensures |rest'| < |rest|
    {
      hide Merge, PassState, PassResult, StrictWeak, IsRun, Linked, Distinct, Inside;
      ghost var x, y;
      b1, x, y, rest' := MergeNextPair(a0, less, [head] + done, rest);
      Regroup(p, x, y, rest', []);
      p' := p + x + y;
      if y == [] {
        done' := done + x;
        assert rest == x && p' == p + x;
        PassLastRun(less, p, done, x, runs);
        Regroup([head], done, x, [], [tail]);
      } else {
        done' := done + Merge(less, x, y);
        PassStep(less, p, done, x, y, rest', runs);
        Regroup([head], done, Merge(less, x, y), rest', [tail]);
        if rest' == [] {
          PassComplete(less, p', done', runs + 1);
        }
      }
    }

    /** list_sort: the stable sort of the list, for every strict weak order.
        Each pass at least halves the run count, so the loop ends. */
    method Sort(less: Less<T>)
      requires Valid() && StrictWeak(less)
      modifies this`nodes, repr
      ensures Valid()
      ensures Contents() == StableSort(less, old(Contents()))
    {
      var runs := MergePass(less);
      while runs > 1
        invariant Valid()
        invariant SameClasses(less, Contents(), old(Contents()))
        invariant Descents(less, Contents()) <= if runs == 0 then 0 else runs - 1
        decreases runs
      {
        runs := MergePass(less);
      }
      NoDescentsIffRun(less, Contents());
      RunIsSorted(less, Contents());
      IsStableSort(less, old(Contents()), Contents());
    }
  }

  lemma Interior<E>(h: E, a: seq<E>, b: seq<E>, t: E)
    ensures ([h] + a + b + [t])[1..|a| + |b| + 1] == a + b
  {
  }

  lemma Regroup<E>(a: seq<E>, b: seq<E>, c: seq<E>, d: seq<E>, e: seq<E>)
    ensures a + b + c + d + e == a + (b + c) + d + e
    ensures a + (b + c + d) == a + b + c + d
    ensures a + b + (c + d) == a + b + c + d
  {
  }

  /** The merge loop stops only when one side is used up. */
  lemma OneSideEmpty<T>(s: seq<Elem<T>>, i: nat, m: nat, n: nat)
    requires Distinct(s) && i + m + n < |s|
    requires s[i] == s[i + m] || s[i + m] == s[i + m + n]
    ensures m == 0 || n == 0
  {
  }

  /** Swaps the adjacent blocks `x` and `y` of the chain `l + x + y + r`. */
  method MoveBlock<T>(before: Elem<T>, first: Elem<T>, end: Elem<T>, ghost last: Elem<T>,
                      ghost l: seq<Elem<T>>, ghost x: seq<Elem<T>>, ghost y: seq<Elem<T>>, ghost r: seq<Elem<T>>)
    requires l != [] && x != [] && y != [] && r != []
    requires Distinct(l + x + y + r) && Linked(l + x + y + r)
    requires before == x[0] && first == y[0] && end == y[|y| - 1] && last == r[0]
    modifies l + x + y + r
    ensures Distinct(l + y + x + r) && Linked(l + y + x + r)
    ensures l[0].prev == old(l[0].prev) && r[|r| - 1].next == old(r[|r| - 1].next)
  {
    BlocksApart(l, x, y, r);
    ghost var s := l + x + y + r;
    assert l[|l| - 1] == s[|l| - 1] && before == s[|l|] && x[|x| - 1] == s[|l + x| - 1];
    assert first == s[|l + x|] && end == s[|l + x + y| - 1] && last == s[|l + x + y|];
    assert l[0] != y[0] && l[0] != (x + r)[0] && l[0] != (x + r)[|x|];
    assert r[|r| - 1] != (l + x)[|l| - 1] && r[|r| - 1] != (l + x)[|l + x| - 1] && y[|y| - 1] != r[|r| - 1];
    Unlink(x[|x| - 1], first, end, last, l + x, y, r);
    assert l + x + r == l + (x + r);
    Relink(l[|l| - 1], before, first, end, l, y, x + r);
    assert l + y + (x + r) == l + y + x + r;
  }

  /** Moves the block `y` of the chain `l + y + x + r` behind `x`. */
  method MoveBlockBack<T>(before: Elem<T>, first: Elem<T>, end: Elem<T>, ghost last: Elem<T>,
                          ghost l: seq<Elem<T>>, ghost y: seq<Elem<T>>, ghost x: seq<Elem<T>>, ghost r: seq<Elem<T>>)
    requires l != [] && y != [] && r != []
    requires Distinct(l + y + x + r) && Linked(l + y + x + r)
    requires before == r[0] && first == y[0] && end == y[|y| - 1] && last == (x + r)[0]
    modifies l + y + x + r
    ensures Distinct(l + x + y + r) && Linked(l + x + y + r)
    ensures l[0].prev == old(l[0].prev) && r[|r| - 1].next == old(r[|r| - 1].next)
  {
    BlocksApart(l, y, x, r);
    BackApart(l, y, x, r);
    ghost var s := l + y + x + r;
    assert l[|l| - 1] == s[|l| - 1] && first == s[|l|] && end == s[|l + y| - 1] && last == s[|l + y|];
    assert before == s[|l + y + x|] && (l + x)[|l + x| - 1] == if x == [] then s[|l| - 1] else s[|l + y + x| - 1];
    assert l + y + x + r == l + y + (x + r);
    assert l[0] != (x + r)[0] && l[0] != y[0] && l[0] != r[0];
    assert r[|r| - 1] != l[|l| - 1] && r[|r| - 1] != (l + x)[|l + x| - 1] && r[|r| - 1] != y[|y| - 1];
    Unlink(l[|l| - 1], first, end, last, l, y, x + r);
    assert l + (x + r) == l + x + r;
    Relink((l + x)[|l + x| - 1], before, first, end, l + x, y, r);
  }

  lemma BackApart<T>(l: seq<Elem<T>>, y: seq<Elem<T>>, x: seq<Elem<T>>, r: seq<Elem<T>>)
    requires Distinct(l + y + x + r)
    ensures Distinct(l + x) && Distinct(x + r) && Distinct(y)
    ensures Disjoint(l, y) && Disjoint(l, x + r) && Disjoint(y, x + r)
    ensures Disjoint(l + x, y) && Disjoint(l + x, r) && Disjoint(y, r) && Disjoint(l, r)
  {
    assert l + y + x + r == l + (y + x + r) && y + x + r == y + (x + r);
    DistinctConcat(l, y + x + r);
    DistinctConcat(y, x + r);
    DistinctConcat(x, r);
    DisjointConcat(y, x + r, l);
    DisjointConcat(x, r, l);
    DisjointConcat(x, r, y);
    DistinctConcat(l, x);
    DisjointConcat(l, x, y);
    DisjointConcat(l, x, r);
  }

  /** A block that starts where it ends is empty. */
  lemma BlockAtFront<T>(a: seq<Elem<T>>, y: seq<Elem<T>>, b: seq<Elem<T>>)
    requires Distinct(a + y + b) && b != []
    ensures (y + b)[0] == b[0] <==> y == []
  {
    if y != [] {
      var s := a + y + b;
      assert s[|a|] == y[0] && s[|a| + |y|] == b[0];
    }
  }

  /** Moves the block `y` from the chain `a + y + b` into the chain `l + r`. */
  method CrossLink<T>(before: Elem<T>, first: Elem<T>, end: Elem<T>, ghost last: Elem<T>,
                      ghost l: seq<Elem<T>>, ghost r: seq<Elem<T>>,
                      ghost a: seq<Elem<T>>, ghost y: seq<Elem<T>>, ghost b: seq<Elem<T>>)
    requires l != [] && r != [] && a != [] && y != [] && b != []
    requires Distinct(l + r) && Distinct(a + y + b) && Disjoint(l + r, a + y + b)
    requires Linked(l + r) && Linked(a + y + b)
    requires before == r[0] && first == y[0] && end == y[|y| - 1] && last == b[0]
    modifies l + r, a + y + b
    ensures Linked(l + y + r) && Linked(a + b)
    ensures l[0].prev == old(l[0].prev) && r[|r| - 1].next == old(r[|r| - 1].next)
    ensures a[0].prev == old(a[0].prev) && b[|b| - 1].next == old(b[|b| - 1].next)
  {
    CrossApart(l, r, a, y, b);
    ghost var s, t := l + r, a + y + b;
    assert l[|l| - 1] == s[|l| - 1] && before == s[|l|];
    assert a[|a| - 1] == t[|a| - 1] && first == t[|a|] && end == t[|a + y| - 1] && last == t[|a + y|];
    assert a[0] != b[0] && b[|b| - 1] != a[|a| - 1];
    assert a[|a| - 1] !in l + r && b[0] !in l + r && a[0] !in l + r && b[|b| - 1] !in l + r;
    assert l[0] != r[0] && l[|l| - 1] != r[|r| - 1];
    Unlink(a[|a| - 1], first, end, last, a, y, b);
    assert s[|l| - 1] !in a + b && s[|l|] !in a + b && y[0] !in a + b && y[|y| - 1] !in a + b;
    assert y[0] != a[0] && y[|y| - 1] != b[|b| - 1];
    Relink(l[|l| - 1], before, first, end, l, y, r);
  }

  lemma CrossApart<T>(l: seq<Elem<T>>, r: seq<Elem<T>>, a: seq<Elem<T>>, y: seq<Elem<T>>, b: seq<Elem<T>>)
    requires Distinct(l + r) && Distinct(a + y + b) && Disjoint(l + r, a + y + b)
    ensures Distinct(l) && Distinct(r) && Distinct(a) && Distinct(y) && Distinct(b)
    ensures Disjoint(l, r) && Disjoint(a, y) && Disjoint(a, b) && Disjoint(y, b)
    ensures Disjoint(l, y) && Disjoint(y, r) && Disjoint(l + r, a) && Disjoint(l + r, b) && Disjoint(l + r, y)
    ensures Disjoint(a + b, l + r) && Disjoint(a + b, y)
    ensures Distinct(l + y + r) && Distinct(a + b)
  {
    DistinctConcat(l, r);
    DistinctConcat(a + y, b);
    DistinctConcat(a, y);
    DisjointConcat(a, y, b);
    DisjointConcat(a + y, b, l + r);
    DisjointConcat(a, y, l + r);
    DisjointConcat(l, r, y);
    DisjointConcat(a, b, l + r);
    DisjointConcat(a, b, y);
    DistinctConcat(l, y);
    DisjointConcat(l, y, r);
    DistinctConcat(l + y, r);
    DistinctConcat(a, b);
  }

  lemma CrossDistinct<T>(l: seq<Elem<T>>, r: seq<Elem<T>>, a: seq<Elem<T>>, y: seq<Elem<T>>, b: seq<Elem<T>>)
    requires Distinct(l + r) && Distinct(a + y + b) && Disjoint(l + r, a + y + b)
    ensures Distinct(l + y + r) && Distinct(a + b)
  {
    hide Distinct, Disjoint;
    CrossApart(l, r, a, y, b);
  }

  /** What leaves one list's nodes and joins the other's. */
  lemma CrossInside<T>(l: seq<Elem<T>>, r: seq<Elem<T>>, a: seq<Elem<T>>, y: seq<Elem<T>>, b: seq<Elem<T>>,
                       here: set<Elem<T>>, there: set<Elem<T>>, moved: set<Elem<T>>)
    requires Inside(l + r, here) && Inside(a + y + b, there) && here !! there && Distinct(a + y + b)
    requires forall e :: e in moved <==> e in y
    ensures Disjoint(l + r, a + y + b)
    ensures Inside(l + y + r, here + moved) && Inside(a + b, there - moved)
    ensures here + moved !! there - moved && moved <= there
  {
    var s, t := l + r, a + y + b;
    assert forall i :: 0 <= i < |l| ==> l[i] == s[i];
    assert forall i :: 0 <= i < |r| ==> r[i] == s[|l| + i];
    assert forall i :: 0 <= i < |a| ==> a[i] == t[i];
    assert forall i :: 0 <= i < |y| ==> y[i] == t[|a| + i];
    assert forall i :: 0 <= i < |b| ==> b[i] == t[|a + y| + i];
  }

  lemma BlocksApart<T>(l: seq<Elem<T>>, x: seq<Elem<T>>, y: seq<Elem<T>>, r: seq<Elem<T>>)
    requires Distinct(l + x + y + r)
    ensures Distinct(l + x) && Distinct(l) && Distinct(y) && Distinct(r) && Distinct(x + r)
    ensures Disjoint(l + x, y) && Disjoint(l + x, r) && Disjoint(y, r)
    ensures Disjoint(l, y) && Disjoint(l, x + r) && Disjoint(y, x + r)
    ensures Distinct(l + y + x + r)
  {
    DistinctConcat(l + x + y, r);
    DistinctConcat(l + x, y);
    DistinctConcat(l, x);
    DisjointConcat(l + x, y, r);
    DisjointConcat(l, x, y);
    DisjointConcat(l, x, r);
    DistinctConcat(x, r);
    DisjointConcat(x, r, l);
    DisjointConcat(x, r, y);
    DistinctConcat(l, y);
    DisjointConcat(l, y, x + r);
    DistinctConcat(l + y, x + r);
    assert l + y + (x + r) == l + y + x + r;
  }

  lemma DisjointConcat<T>(s: seq<Elem<T>>, t: seq<Elem<T>>, u: seq<Elem<T>>)
    ensures Disjoint(s + t, u) <==> Disjoint(s, u) && Disjoint(t, u)
    ensures Disjoint(u, s + t) <==> Disjoint(u, s) && Disjoint(u, t)
    ensures Disjoint(s, u) <==> Disjoint(u, s)
    ensures Disjoint(t, u) <==> Disjoint(u, t)
  {
    var r := s + t;
    assert forall i :: 0 <= i < |s| ==> s[i] == r[i];
    assert forall i :: 0 <= i < |t| ==> t[i] == r[|s| + i];
  }

  /** Takes the block `first..end` out of its list. */
  method Unlink<T>(ghost left: Elem<T>, first: Elem<T>, end: Elem<T>, ghost right: Elem<T>,
                   ghost l: seq<Elem<T>>, ghost y: seq<Elem<T>>, ghost r: seq<Elem<T>>)
    requires l != [] && y != [] && r != []
    requires Distinct(l) && Distinct(y) && Distinct(r)
    requires Disjoint(l, y) && Disjoint(l, r) && Disjoint(y, r)
    requires Linked(l + y + r)
    requires left == l[|l| - 1] && first == y[0] && end == y[|y| - 1] && right == r[0]
    modifies left`next, right`prev
    ensures Linked(l + r) && Linked(y)
  {
    LinkedSplit(l + y, r);
    LinkedSplit(l, y);
    first.prev.next := end.next;
    end.next.prev := first.prev;
    LinkedJoin(l, r);
  }

  /** Puts the block `first..end` just before `before`. */
  method Relink<T>(ghost left: Elem<T>, before: Elem<T>, first: Elem<T>, end: Elem<T>,
                   ghost l: seq<Elem<T>>, ghost y: seq<Elem<T>>, ghost r: seq<Elem<T>>)
    requires l != [] && y != [] && r != []
    requires Distinct(l) && Distinct(y) && Distinct(r)
    requires Disjoint(l, y) && Disjoint(l, r) && Disjoint(y, r)
    requires Linked(l + r) && Linked(y)
    requires left == l[|l| - 1] && first == y[0] && end == y[|y| - 1] && before == r[0]
    modifies left`next, first`prev, end`next, before`prev
    ensures Linked(l + y + r)
  {
    LinkedSplit(l, r);
    first.prev := before.prev;
    end.next := before;
    before.prev.next := first;
    before.prev := end;
    LinkedJoin(l, y);
    LinkedJoin(l + y, r);
  }
}
