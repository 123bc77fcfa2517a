/** The in-place bottom-up mergesort of the order list (HASH_SRT in include/uthash.h). */
module ListSorts {
  import opened HashNodes
  import opened MergeSorts

  /**
   In the middle of a merge: `done` is linked in its new order, except for the link out of its last node; `ps` is what
   is left of the first run; `qs` is the second run and everything behind it, still linked in the old order.
   */
  ghost predicate Merging<V>(done: seq<Node<V>>, ps: seq<Node<V>>, qs: seq<Node<V>>)
    reads done`next, done`prev, ps`next, qs`next
  {
    && Separate(done, ps, qs)
    && (forall i {:trigger done[i].next} :: 0 <= i < |done| - 1 ==> done[i].next == done[i + 1])
    && (forall i {:trigger done[i].prev} :: 0 <= i < |done| ==> done[i].prev == At(done, i - 1))
    && (forall i {:trigger ps[i].next} :: 0 <= i < |ps| - 1 ==> ps[i].next == ps[i + 1])
    && (forall i {:trigger qs[i].next} :: 0 <= i < |qs| ==> qs[i].next == At(qs, i + 1))
  }

  /** The head and the last node of the list built so far. */
  ghost predicate Ends<V>(list: Node?<V>, tail: Node?<V>, done: seq<Node<V>>) {
    list == At(done, 0) && tail == At(done, |done| - 1)
  }

  /** No node occurs twice in the three lists together. */
  ghost predicate Separate<V>(a: seq<Node<V>>, b: seq<Node<V>>, c: seq<Node<V>>) {
    && Distinct(a) && Distinct(b) && Distinct(c)
    && (forall n :: n in a ==> n !in b && n !in c)
    && (forall n :: n in b ==> n !in c)
  }

  lemma SeparateTake<V>(a: seq<Node<V>>, b: seq<Node<V>>, c: seq<Node<V>>)
    requires Separate(a, b, c)
    ensures b != [] ==> Separate(a + [b[0]], b[1..], c)
    ensures c != [] ==> Separate(a + [c[0]], b, c[1..])
  {
    if b != [] {
      assert b[0] in b;
      DistinctAppend(a, b[0]);
    }
    if c != [] {
      assert c[0] in c;
      DistinctAppend(a, c[0]);
    }
  }

  lemma DistinctAppend<V>(a: seq<Node<V>>, x: Node<V>)
    requires Distinct(a) && x !in a
    ensures Distinct(a + [x])
  {
    forall i, j | 0 <= i < j < |a + [x]|
      ensures (a + [x])[i] != (a + [x])[j]
    {
      assert (a + [x])[i] == a[i] && a[i] in a;
    }
  }

  /** Puts a node behind the list built so far. */
  method Append<V>(list: Node?<V>, tail: Node?<V>, e: Node<V>, ghost done: seq<Node<V>>)
    returns (list': Node?<V>, tail': Node?<V>)
    requires Ends(list, tail, done) && e !in done
    modifies done`next, e`prev
    ensures Ends(list', tail', done + [e]) && e.prev == tail
    ensures tail != null ==> tail.next == e
    ensures forall n :: n in done && n != tail ==> n.next == old(n.next)
  {
    list' := list;
    if tail != null {
      tail.next := e;
    } else {
      list' := e;
    }
    e.prev := tail;
    tail' := e;
  }

  /** The next node of the first run goes to the list. */
  method TakeFirst<V>(list: Node?<V>, tail: Node?<V>, p: Node<V>, ghost done: seq<Node<V>>,
                      ghost ps: seq<Node<V>>, ghost qs: seq<Node<V>>)
    returns (list': Node?<V>, tail': Node?<V>, p': Node?<V>)
    requires Merging(done, ps, qs) && Ends(list, tail, done) && ps != [] && p == ps[0]
    modifies done`next, ps`prev
    ensures Merging(done + [ps[0]], ps[1..], qs) && Ends(list', tail', done + [ps[0]])
    ensures |ps| > 1 ==> p' == ps[1]
  {
    SeparateTake(done, ps, qs);
    p' := p.next;
    assert tail != null ==> tail in done;
    list', tail' := Append(list, tail, p, done);
  }

  /** The next node of the second run goes to the list. */
  method TakeSecond<V>(list: Node?<V>, tail: Node?<V>, q: Node<V>, ghost done: seq<Node<V>>,
                       ghost ps: seq<Node<V>>, ghost qs: seq<Node<V>>)
    returns (list': Node?<V>, tail': Node?<V>, q': Node?<V>)
    requires Merging(done, ps, qs) && Ends(list, tail, done) && qs != [] && q == qs[0]
    modifies done`next, qs`prev
    ensures Merging(done + [qs[0]], ps, qs[1..]) && Ends(list', tail', done + [qs[0]])
    ensures q' == At(qs, 1)
  {
    SeparateTake(done, ps, qs);
    q' := q.next;
    assert tail != null ==> tail in done;
    list', tail' := Append(list, tail, q, done);
  }

  // ----- what is still to come -----

  /** What the rest of a pass adds to the list, from the middle of a merge on. */
  function Todo<T>(ps: seq<T>, qs: seq<T>, qsize: nat, n: nat, cmp: (T, T) -> int): seq<T>
    requires n > 0
  {
    Merge(ps, First(qs, qsize), cmp) + Pass(Rest(qs, qsize), n, cmp)
  }

  lemma TodoTakesSecond<T>(ps: seq<T>, qs: seq<T>, qsize: nat, n: nat, cmp: (T, T) -> int)
    requires n > 0 && qs != [] && qsize > 0 && (ps == [] || cmp(ps[0], qs[0]) > 0)
    ensures Todo(ps, qs, qsize, n, cmp) == [qs[0]] + Todo(ps, qs[1..], qsize - 1, n, cmp)
    ensures |Rest(qs, qsize)| == |Rest(qs[1..], qsize - 1)|
  {
    hide Pass;
    assert First(qs, qsize) == [qs[0]] + First(qs[1..], qsize - 1);
    assert First(qs, qsize)[1..] == First(qs[1..], qsize - 1);
    assert Rest(qs, qsize) == Rest(qs[1..], qsize - 1);
    var m := Merge(ps, First(qs[1..], qsize - 1), cmp);
    assert Merge(ps, First(qs, qsize), cmp) == [qs[0]] + m;
  }

  lemma TodoTakesFirst<T>(ps: seq<T>, qs: seq<T>, qsize: nat, n: nat, cmp: (T, T) -> int)
    requires n > 0 && ps != [] && (qs == [] || qsize == 0 || cmp(ps[0], qs[0]) <= 0)
    ensures Todo(ps, qs, qsize, n, cmp) == [ps[0]] + Todo(ps[1..], qs, qsize, n, cmp)
  {
    hide Pass;
    var ys := First(qs, qsize);
    assert Merge(ps, ys, cmp) == [ps[0]] + Merge(ps[1..], ys, cmp);
  }

  lemma TodoDone<T>(qs: seq<T>, qsize: nat, n: nat, cmp: (T, T) -> int)
    requires n > 0 && (qs == [] || qsize == 0)
    ensures Todo([], qs, qsize, n, cmp) == Pass(qs, n, cmp) && Rest(qs, qsize) == qs
  {
    assert Rest(qs, qsize) == qs;
    assert Merge([], First(qs, qsize), cmp) == [];
    assert [] + Pass(qs, n, cmp) == Pass(qs, n, cmp);
  }

  // ----- the loops -----

  /** The loop that finds where the second run starts. */
  method SplitRun<V>(p: Node<V>, insize: nat, ghost rest: seq<Node<V>>) returns (q: Node?<V>, psize: nat)
    requires insize > 0 && rest != [] && p == rest[0]
    requires forall i {:trigger rest[i].next} :: 0 <= i < |rest| ==> rest[i].next == At(rest, i + 1)
    ensures psize == Upto(insize, |rest|) && q == At(rest, psize)
  {
    q, psize := p, 0;
    var i := 0;
    while i < insize
      invariant i <= insize && psize == i < |rest| && q == rest[i]
    {
      psize := psize + 1;
      q := q.next;
      if q == null {
        break;
      }
      i := i + 1;
    }
  }

  ghost predicate Inside<V>(s: seq<Node<V>>, all: set<Node<V>>) {
    forall n :: n in s ==> n in all
  }

  /** The merge loop. */
  method MergeRuns<V>(list: Node?<V>, tail: Node?<V>, p: Node<V>, q: Node?<V>, psize: nat, qsize: nat,
                      cmp: (Node<V>, Node<V>) -> int, n: nat, ghost all: set<Node<V>>,
                      ghost done: seq<Node<V>>, ghost ps: seq<Node<V>>, ghost qs: seq<Node<V>>)
    returns (list': Node?<V>, tail': Node?<V>, q': Node?<V>, ghost done': seq<Node<V>>, ghost qs': seq<Node<V>>)
    requires n > 0 && Merging(done, ps, qs) && Ends(list, tail, done)
    requires Inside(done, all) && Inside(ps, all) && Inside(qs, all)
    requires ps != [] && p == ps[0] && psize == |ps| && q == At(qs, 0)
    modifies all`next, all`prev
    ensures Merging(done', [], qs') && Ends(list', tail', done') && q' == At(qs', 0)
    ensures Inside(done', all) && Inside(qs', all)
    ensures done' + Pass(qs', n, cmp) == done + Todo(ps, qs, qsize, n, cmp)
    ensures |done'| + |qs'| == |done| + |ps| + |qs| && |qs'| == |Rest(qs, qsize)|
  {
    hide Todo, Pass, Merge, Merging, Rest, First, Upto;
    list', tail', q', done', qs' := list, tail, q, done, qs;
    var p': Node?<V>, psize', qsize' := p, psize, qsize;
    ghost var ps' := ps;
    while psize' != 0 || (qsize' != 0 && q' != null)
      invariant Merging(done', ps', qs') && Ends(list', tail', done')
      invariant Inside(done', all) && Inside(ps', all) && Inside(qs', all)
      invariant psize' == |ps'| && (ps' != [] ==> p' == ps'[0]) && q' == At(qs', 0)
      invariant done' + Todo(ps', qs', qsize', n, cmp) == done + Todo(ps, qs, qsize, n, cmp)
      invariant |done'| + |ps'| + |qs'| == |done| + |ps| + |qs| && |Rest(qs', qsize')| == |Rest(qs, qsize)|
      decreases psize' + qsize'
    {
      var takeSecond := if psize' == 0 then true
                        else if qsize' == 0 || q' == null then false
                        else cmp(p', q') > 0;
      if takeSecond {
        TodoTakesSecond(ps', qs', qsize', n, cmp);
        list', tail', q' := TakeSecond(list', tail', q', done', ps', qs');
        Regroup(done', qs'[0], Todo(ps', qs'[1..], qsize' - 1, n, cmp));
        done', qs', qsize' := done' + [qs'[0]], qs'[1..], qsize' - 1;
      } else {
        TodoTakesFirst(ps', qs', qsize', n, cmp);
        list', tail', p' := TakeFirst(list', tail', p', done', ps', qs');
        Regroup(done', ps'[0], Todo(ps'[1..], qs', qsize', n, cmp));
        done', ps', psize' := done' + [ps'[0]], ps'[1..], psize' - 1;
      }
    }
    TodoDone(qs', qsize', n, cmp);
  }

  lemma Regroup<T>(a: seq<T>, x: T, b: seq<T>)
    ensures a + ([x] + b) == (a + [x]) + b
  {
  }

  /** The second half of a pass's turn: the runs are split off and merged. */
  method MergePair<V>(list: Node?<V>, tail: Node?<V>, p: Node<V>, insize: nat, cmp: (Node<V>, Node<V>) -> int,
                      ghost all: set<Node<V>>, ghost done: seq<Node<V>>, ghost rest: seq<Node<V>>)
    returns (list': Node?<V>, tail': Node?<V>, p': Node?<V>, ghost done': seq<Node<V>>, ghost rest': seq<Node<V>>)
    requires insize > 0 && Merging(done, [], rest) && Ends(list, tail, done) && rest != [] && p == rest[0]
    requires Inside(done, all) && Inside(rest, all)
    modifies all`next, all`prev
    ensures Merging(done', [], rest') && Ends(list', tail', done') && p' == At(rest', 0)
    ensures Inside(done', all) && Inside(rest', all)
    ensures done' + Pass(rest', insize, cmp) == done + Pass(rest, insize, cmp)
    ensures |done'| + |rest'| == |done| + |rest| && |rest'| == |Rest(rest, 2 * insize)|
  {
    hide Pass, Merge;
    var q, psize := SplitRun(p, insize, rest);
    ghost var ps, qs := First(rest, insize), Rest(rest, insize);
    MergingSplit(done, rest, psize);
    list', tail', p', done', rest' := MergeRuns(list, tail, p, q, psize, insize, cmp, insize, all, done, ps, qs);
    TodoIsPass(rest, insize, cmp);
  }

  lemma MergingSplit<V>(done: seq<Node<V>>, rest: seq<Node<V>>, k: nat)
    requires Merging(done, [], rest) && k <= |rest|
    ensures Merging(done, rest[..k], rest[k..])
  {
    var ps, qs := rest[..k], rest[k..];
    assert forall i, j :: 0 <= i < |ps| && 0 <= j < |qs| ==> ps[i] != qs[j];
    forall i | 0 <= i < |qs|
      ensures qs[i].next == At(qs, i + 1)
    {
      assert qs[i] == rest[k + i];
    }
  }

  lemma TodoIsPass<T>(s: seq<T>, n: nat, cmp: (T, T) -> int)
    requires n > 0 && s != []
    ensures Todo(First(s, n), Rest(s, n), n, n, cmp) == Pass(s, n, cmp)
  {
  }

  /** One pass over the list. It had at most one merge to do exactly if two runs are all there is. */
  method SortPass<V>(first: Node<V>, insize: nat, cmp: (Node<V>, Node<V>) -> int, ghost all: set<Node<V>>,
                      ghost order: seq<Node<V>>)
    returns (list: Node<V>, tail: Node<V>, nmerges: nat, ghost order': seq<Node<V>>)
    requires insize > 0 && Linked(order) && order != [] && first == order[0] && Inside(order, all)
    modifies all`next, all`prev
    ensures order' == Pass(order, insize, cmp) && Linked(order') && order' != []
    ensures list == order'[0] && tail == order'[|order'| - 1]
    ensures nmerges <= 1 <==> |order| <= 2 * insize
    ensures Inside(order', all)
  {
    hide Pass, Merge, Merging, Linked;
    var list': Node?<V>, tail': Node?<V>, p: Node?<V> := null, null, first;
    ghost var rest := order;
    order', nmerges := [], 0;
    StartMerging(order);
    while p != null
      invariant Merging(order', [], rest) && Ends(list', tail', order') && p == At(rest, 0)
      invariant Inside(order', all) && Inside(rest, all)
      invariant order' + Pass(rest, insize, cmp) == Pass(order, insize, cmp)
      invariant |order'| + |rest| == |order|
      invariant nmerges == 0 ==> rest == order
      invariant nmerges == 1 ==> |rest| == |Rest(order, 2 * insize)|
      invariant nmerges > 1 ==> |order| > 2 * insize
      decreases |rest|
    {
      nmerges := nmerges + 1;
      list', tail', p, order', rest := MergePair(list', tail', p, insize, cmp, all, order', rest);
    }
    EmptyPass(insize, cmp);
    list, tail := list', tail';
    EndList(tail, all, order');
  }

  lemma StartMerging<V>(order: seq<Node<V>>)
    requires Linked(order)
    ensures Merging([], [], order) && Distinct(order)
  {
  }

  /** The last node of a pass gets no successor. */
  method EndList<V>(tail: Node<V>, ghost all: set<Node<V>>, ghost order: seq<Node<V>>)
    requires Merging(order, [], []) && order != [] && tail == order[|order| - 1] && Inside(order, all)
    modifies all`next
    ensures Linked(order)
  {
    assert tail in order;
    tail.next := null;
  }

  lemma EmptyPass<T>(n: nat, cmp: (T, T) -> int)
    requires n > 0
    ensures Pass([], n, cmp) == []
  {
  }

  /**
   HASH_SRT on the order list: relinks it into the order that the merge sort gives, with its previous links, its first
   and its last node. Nothing but those links is touched.
   */
  method SortList<V>(first: Node<V>, cmp: (Node<V>, Node<V>) -> int, ghost order: seq<Node<V>>)
    returns (list: Node<V>, tail: Node<V>, ghost sorted: seq<Node<V>>)
    requires Linked(order) && order != [] && first == order[0]
    modifies order`next, order`prev
    ensures sorted == SortFrom(order, 1, cmp) && Linked(sorted) && sorted != []
    ensures list == sorted[0] && tail == sorted[|sorted| - 1]
  {
    hide Pass, Merge;
    var insize, looping := 1, true;
    sorted, list, tail := order, first, first;
    while looping
      invariant insize > 0 && Linked(sorted) && sorted != [] && list == sorted[0] && Inside(sorted, NodeSet(order))
      invariant |sorted| == |order|
      invariant if looping then SortFrom(sorted, insize, cmp) == SortFrom(order, 1, cmp)
                else sorted == SortFrom(order, 1, cmp) && tail == sorted[|sorted| - 1]
      decreases looping, |order| - insize
    {
      var nmerges;
      list, tail, nmerges, sorted := SortPass(list, insize, cmp, NodeSet(order), sorted);
      if nmerges <= 1 {
        looping := false;
      }
      insize := insize * 2;
    }
  }
}
