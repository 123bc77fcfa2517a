/** The hash table itself: adding, finding, deleting (include/uthash.h). */
module HashTables {
  import opened Bits
  import opened HashNodes
  import opened Buckets
  import opened MergeSorts
  import opened ListSorts

  const INITIAL_NUM_BUCKETS: nat := 32
  const INITIAL_LOG2: nat := 5
  const CAPACITY_THRESHOLD: nat := 10

  class HashTable<V> {
    const hash: string -> nat
    var head: Node?<V>
    var tail: Node?<V>
    var buckets: array<Bucket<V>>
    var numBuckets: nat
    var log2NumBuckets: nat
    var numItems: nat
    var idealChainMaxlen: nat
    var nonidealItems: nat
    var ineffExpands: nat
    var noexpand: bool

    /** The elements in insertion order. */
    ghost var order: seq<Node<V>>
    /** The elements of each bucket, in the order in which its chain is walked. */
    ghost var chains: seq<seq<Node<V>>>

    /** The order list and its two ends. */
    ghost predicate ListValid()
      reads `head, `tail, `order, order`next, order`prev
    {
      && Linked(order)
      && head == At(order, 0)
      && (order != [] ==> tail == order[|order| - 1])
    }

    /** The buckets, and that exactly the given elements are in them. */
    ghost predicate BucketsValid(items: set<Node<V>>)
      reads `numBuckets, `log2NumBuckets, `chains, `buckets, buckets, items`hashv, items`hhNext, items`hhPrev
    {
      && numBuckets == Pow2(log2NumBuckets) == |chains|
      && Headed(buckets[..], chains)
      && Placed(chains, items)
    }

    ghost function Items(): set<Node<V>>
      reads `order
    {
      NodeSet(order)
    }

    /** What the table's own consistency check demands, with the placement of elements in buckets. */
    ghost predicate Valid()
      reads this, buckets, order
    {
      && ListValid()
      && (order != [] ==> BucketsValid(Items()) && numItems == |order|)
      && (forall n :: n in order ==> n.hashv == hash(n.key))
    }

    constructor (hash: string -> nat)
      ensures Valid() && order == [] && this.hash == hash && fresh(buckets)
    {
      this.hash := hash;
      head, tail := null, null;
      buckets := new Bucket<V>[0];
      numBuckets, log2NumBuckets, numItems := 0, 0, 0;
      idealChainMaxlen, nonidealItems, ineffExpands, noexpand := 0, 0, 0, false;
      order, chains := [], [];
    }

    /** HASH_MAKE_TABLE: empty buckets for a first element. */
    method MakeTable(el: Node<V>)
      modifies this
      ensures BucketsValid({}) && numItems == 0 && ineffExpands == 0 && !noexpand && fresh(buckets)
      ensures numBuckets == 32 && buckets.Length == 32 && buckets[..] == NoBuckets(numBuckets)
      ensures idealChainMaxlen == 0 && nonidealItems == 0
      ensures tail == el && head == old(head) && order == old(order)
    {
      tail := el;
      numBuckets, log2NumBuckets, numItems := INITIAL_NUM_BUCKETS, INITIAL_LOG2, 0;
      idealChainMaxlen, nonidealItems, ineffExpands, noexpand := 0, 0, 0, false;
      buckets := NewBuckets(INITIAL_NUM_BUCKETS);
      chains := NoChains(INITIAL_NUM_BUCKETS);
      hide Placed, Headed, Pow2;
      InitialPow2();
      NonePlaced<V>(INITIAL_NUM_BUCKETS);
    }

    /** HASH_APPEND_LIST. */
    method AppendList(el: Node<V>)
      requires ListValid() && order != [] && el !in order
      modifies this`tail, this`order, el`prev, el`next, tail`next
      ensures ListValid() && order == old(order) + [el]
    {
      el.next := null;
      el.prev := tail;
      tail.next := el;
      tail := el;
      order := order + [el];
    }

    /** The application-order part of HASH_DELETE_HH. */
    method DeleteFromList(el: Node<V>) returns (ghost k: nat)
      requires ListValid() && el in order && |order| > 1
      modifies `head, `tail, `order, order`prev, order`next
      ensures k < |old(order)| && old(order)[k] == el && order == Without(old(order), k)
      ensures ListValid()
    {
      k :| 0 <= k < |order| && order[k] == el;
      if el == tail {
        tail := el.prev;
      }
      if el.prev != null {
        el.prev.next := el.next;
      } else {
        head := el.next;
      }
      if el.next != null {
        el.next.prev := el.prev;
      }
      ListClosed(order, k);
      order := Without(order, k);
    }

    /** HASH_FIND: walks the chain of the key's bucket. */
    method Find(key: string) returns (out: Node?<V>)
      requires Valid()
      ensures out != null ==> out in order && out.key == key
      ensures out == null ==> forall n :: n in order ==> n.key != key
    {
      if head == null {
        return null;
      }
      var hashv := hash(key);
      var b := ToBucket(hashv, numBuckets);
      ghost var chain, p := chains[b], 0;
      assert InBucket(chain, b, |chains|, Items());
      out := buckets[b].head;
      while out != null
        invariant p <= |chain| && out == At(chain, p)
        invariant forall i :: 0 <= i < p ==> chain[i].key != key
        decreases |chain| - p
      {
        if out.hashv == hashv && |out.key| == |key| {
          if out.key == key {
            assert chain[p] in chain;
            return;
          }
        }
        out := out.hhNext;
        p := p + 1;
      }
      forall n | n in order
        ensures n.key != key
      {
        assert n in Items() && (n.key == key ==> n in chain);
      }
    }

    /** HASH_ADD_TO_BKT. The buckets are doubled exactly if the element's bucket gets too long. */
    method AddToBucket(el: Node<V>)
      requires el in order && BucketsValid(Items() - {el}) && numItems == |order|
      modifies buckets, `buckets, `chains, `numBuckets, `log2NumBuckets, `idealChainMaxlen, `nonidealItems
      modifies `ineffExpands, `noexpand, order`hhNext, order`hhPrev
      ensures BucketsValid(Items()) && (buckets == old(buckets) || fresh(buckets))
      ensures var bucket := old(buckets[ToBucket(el.hashv, numBuckets)]);
        numBuckets == if bucket.count + 1 >= (bucket.expandMult + 1) * 10 && !old(noexpand) then 2 * old(numBuckets)
                      else old(numBuckets)
    {
      assert buckets.Length == |chains| == numBuckets;
      hide Placed, Headed;
      var b := ToBucket(el.hashv, numBuckets);
      assert Items() == Items() - {el} + {el};
      chains := PushFront(buckets, chains, Items() - {el}, el);
      if buckets[b].count >= (buckets[b].expandMult + 1) * CAPACITY_THRESHOLD && !noexpand {
        ExpandBuckets();
      }
    }

    /** The application-order part of HASH_ADD_KEYPTR: the first element makes the table, others go to its tail. */
    method LinkIn(el: Node<V>)
      requires ListValid() && (order != [] ==> BucketsValid(Items()) && numItems == |order|) && el !in order
      modifies this, el`prev, el`next, order`next
      ensures ListValid() && order == old(order) + [el]
      ensures BucketsValid(Items() - {el}) && numItems == |order| - 1
      ensures old(order) == [] ==> fresh(buckets)
      ensures old(order) != [] ==> buckets == old(buckets)
    {
      hide Placed, Headed;
      if head == null {
        el.next := null;
        el.prev := null;
        MakeTable(el);
        head := el;
        order := [el];
        assert Items() - {el} == {};
      } else {
        ghost var before := Items();
        AppendList(el);
        assert Items() - {el} == before;
      }
    }

    /** HASH_ADD_KEYPTR: a new element at the end of the order. */
    method Add(el: Node<V>, key: string)
      requires Valid() && el !in order
      modifies this, buckets, el`key, el`hashv, el`prev, el`next, el`hhPrev, el`hhNext
      modifies order`next, order`hhPrev, order`hhNext
      ensures Valid() && order == old(order) + [el] && el.key == key
      ensures buckets == old(buckets) || fresh(buckets)
    {
      hide Placed, Headed, ListValid, BucketsValid;
      el.hashv := hash(key);
      el.key := key;
      LinkIn(el);
      numItems := numItems + 1;
      AddToBucket(el);
    }

    /** The bucket part of HASH_DELETE_HH. */
    method DeleteFromBucket(el: Node<V>, ghost items: set<Node<V>>)
      requires BucketsValid(items) && el in items && numItems > 0
      modifies buckets, `chains, `numItems, items`hhPrev, items`hhNext
      ensures BucketsValid(items - {el}) && numItems == old(numItems) - 1
    {
      hide Placed, Headed;
      chains := RemoveFromBucket(buckets, chains, items, el);
      numItems := numItems - 1;
    }

    /** HASH_DELETE_HH. With its last element the table itself goes. */
    method Delete(el: Node<V>) returns (ghost k: nat)
      requires Valid() && el in order
      modifies this, buckets, order`prev, order`next, order`hhPrev, order`hhNext
      ensures k < |old(order)| && old(order)[k] == el && order == Without(old(order), k)
      ensures Valid() && buckets == old(buckets)
    {
      hide Placed, Headed, ToBucket, BucketsValid;
      if el.prev == null && el.next == null {
        k :| 0 <= k < |order| && order[k] == el;
        head := null;
        order := [];
      } else {
        ghost var before := Items();
        k := DeleteFromList(el);
        NodesWithout(old(order), k);
        DeleteFromBucket(el, before);
      }
    }

    /** The user's head pointer is set to NULL: the elements stay linked among themselves, but are no longer reached. */
    method Abandon()
      requires Valid()
      modifies `head, `order
      ensures Valid() && order == []
    {
      head := null;
      order := [];
    }

    /** HASH_SRT on a table that has elements. */
    method SortOrder(cmp: (Node<V>, Node<V>) -> int)
      requires ListValid() && order != []
      modifies `head, `tail, `order, order`next, order`prev
      ensures ListValid() && order == SortFrom(old(order), 1, cmp)
      ensures multiset(order) == multiset(old(order)) && Items() == old(Items()) && |order| == |old(order)|
    {
      hide SortFrom;
      ghost var before := order;
      SortPermutes(order, 1, cmp);
      head, tail, order := SortList(head, cmp, order);
      SameElements(before, order);
    }

    /** HASH_SRT: the order list is sorted in place; the buckets are not touched. */
    method Sort(cmp: (Node<V>, Node<V>) -> int)
      requires Valid()
      modifies `head, `tail, `order, order`next, order`prev
      ensures Valid() && order == SortFrom(old(order), 1, cmp)
      ensures multiset(order) == multiset(old(order)) && Items() == old(Items())
    {
      hide SortFrom, BucketsValid;
      if head != null {
        SortOrder(cmp);
        assert forall n :: n in order ==> n in Items();
      } else {
        EmptySort<Node<V>>(cmp);
      }
    }

    /** The walk of an in-order add: to the first element that is larger, or past the end. */
    method FindPlace(el: Node<V>, cmp: (Node<V>, Node<V>) -> int) returns (iter: Node?<V>, ghost k: nat)
      requires ListValid() && order != []
      ensures k <= |order| && iter == At(order, k)
      ensures forall i :: 0 <= i < k ==> cmp(order[i], el) <= 0
      ensures k < |order| ==> cmp(order[k], el) > 0
    {
      iter, k := head, 0;
      while iter != null
        invariant k <= |order| && iter == At(order, k)
        invariant forall i :: 0 <= i < k ==> cmp(order[i], el) <= 0
        decreases |order| - k
      {
        if cmp(iter, el) > 0 {
          break;
        }
        iter := iter.next;
        k := k + 1;
      }
    }

    /** Links an element in before another one. */
    method InsertBefore(el: Node<V>, iter: Node<V>, ghost k: nat)
      requires ListValid() && el !in order && k < |order| && iter == order[k]
      modifies `head, `order, el`prev, el`next, order`prev, order`next
      ensures ListValid() && order == old(order)[..k] + [el] + old(order)[k..]
    {
      el.next := iter;
      el.prev := iter.prev;
      if el.prev != null {
        el.prev.next := el;
      } else {
        head := el;
      }
      iter.prev := el;
      ListOpened(order, k, el);
      order := order[..k] + [el] + order[k..];
    }

    /** The list part of an in-order add to a table that has elements. */
    method PlaceInOrder(el: Node<V>, cmp: (Node<V>, Node<V>) -> int) returns (ghost k: nat)
      requires ListValid() && order != [] && BucketsValid(Items()) && el !in order
      modifies `head, `tail, `order, el`prev, el`next, order`prev, order`next
      ensures ListValid() && BucketsValid(Items() - {el}) && el in order && |order| == |old(order)| + 1
      ensures k <= |old(order)| && order == old(order)[..k] + [el] + old(order)[k..]
      ensures forall i :: 0 <= i < k ==> cmp(old(order)[i], el) <= 0
      ensures k < |old(order)| ==> cmp(old(order)[k], el) > 0
    {
      hide Placed, Headed;
      ghost var before := order;
      var iter;
      iter, k := FindPlace(el, cmp);
      InsertedNodes(before, k, el);
      if iter != null {
        InsertBefore(el, iter, k);
      } else {
        AppendList(el);
        assert before[..k] + [el] + before[k..] == before + [el];
      }
      assert order[k] == el;
      assert Items() - {el} == NodeSet(before);
    }

    /** The list part of an in-order add. */
    method LinkInOrder(el: Node<V>, cmp: (Node<V>, Node<V>) -> int) returns (ghost k: nat)
      requires ListValid() && (order != [] ==> BucketsValid(Items()) && numItems == |order|) && el !in order
      modifies this, el`prev, el`next, order`prev, order`next
      ensures ListValid() && el in order && BucketsValid(Items() - {el}) && numItems == |order| - 1
      ensures old(order) == [] ==> fresh(buckets)
      ensures old(order) != [] ==> buckets == old(buckets)
      ensures k <= |old(order)| && order == old(order)[..k] + [el] + old(order)[k..]
      ensures forall i :: 0 <= i < k ==> cmp(old(order)[i], el) <= 0
      ensures k < |old(order)| ==> cmp(old(order)[k], el) > 0
    {
      hide Placed, Headed;
      k := 0;
      if head == null {
        LinkIn(el);
      } else {
        k := PlaceInOrder(el, cmp);
      }
    }

    /** HASH_ADD_KEYPTR_INORDER: before the first element that is larger. */
    method AddInOrder(el: Node<V>, key: string, cmp: (Node<V>, Node<V>) -> int) returns (ghost k: nat)
      requires Valid() && el !in order
      modifies this, buckets, el`key, el`hashv, el`prev, el`next, el`hhPrev, el`hhNext
      modifies order`prev, order`next, order`hhPrev, order`hhNext
      ensures Valid() && el.key == key
      ensures k <= |old(order)| && order == old(order)[..k] + [el] + old(order)[k..]
      ensures forall i :: 0 <= i < k ==> cmp(old(order)[i], el) <= 0
      ensures k < |old(order)| ==> cmp(old(order)[k], el) > 0
    {
      hide Placed, Headed, ListValid, BucketsValid;
      el.hashv := hash(key);
      el.key := key;
      k := LinkInOrder(el, cmp);
      InsertedMembers(old(order), k, el);
      numItems := numItems + 1;
      AddToBucket(el);
    }

    /** HASH_EXPAND_BUCKETS: twice as many buckets, and every element in the one its hash value has now. */
    method ExpandBuckets()
      requires order != [] && BucketsValid(Items()) && numItems == |order|
      modifies `buckets, `chains, `numBuckets, `log2NumBuckets, `idealChainMaxlen, `nonidealItems
      modifies `ineffExpands, `noexpand, order`hhNext, order`hhPrev
      ensures numBuckets == 2 * old(numBuckets) && log2NumBuckets == old(log2NumBuckets) + 1
      ensures BucketsValid(Items()) && fresh(buckets)
      ensures idealChainMaxlen == IdealChainLength(numItems, old(numBuckets), old(log2NumBuckets))
      ensures Rebuilt(buckets[..], chains, Items(), idealChainMaxlen, nonidealItems)
      ensures ineffExpands == if nonidealItems > ShiftRight(numItems, 1) then old(ineffExpands) + 1 else 0
      ensures noexpand == (old(noexpand) || ineffExpands > 1)
    {
      hide ToBucket, IdealChainLength, Placed, Headed, Rebuilt, Counted, ExcessSum;
      var newBuckets := NewBuckets<V>(numBuckets * 2);
      idealChainMaxlen := IdealChainLength(numItems, numBuckets, log2NumBuckets);
      ghost var newChains;
      newChains, nonidealItems := Redistribute(buckets, chains, Items(), newBuckets, idealChainMaxlen);
      AdoptBuckets(newBuckets, newChains);
    }

    /** The end of the expansion: the new buckets replace the old, and it is judged whether that was worth it. */
    method AdoptBuckets(newBuckets: array<Bucket<V>>, ghost newChains: seq<seq<Node<V>>>)
      requires numBuckets == Pow2(log2NumBuckets) && |newChains| == numBuckets * 2
      requires Rebuilt(newBuckets[..], newChains, Items(), idealChainMaxlen, nonidealItems)
      modifies `buckets, `chains, `numBuckets, `log2NumBuckets, `ineffExpands, `noexpand
      ensures numBuckets == 2 * old(numBuckets) && log2NumBuckets == old(log2NumBuckets) + 1
      ensures BucketsValid(Items()) && buckets == newBuckets && chains == newChains
      ensures Rebuilt(buckets[..], chains, Items(), idealChainMaxlen, nonidealItems)
      ensures ineffExpands == if nonidealItems > ShiftRight(numItems, 1) then old(ineffExpands) + 1 else 0
      ensures noexpand == (old(noexpand) || ineffExpands > 1)
    {
      numBuckets := numBuckets * 2;
      log2NumBuckets := log2NumBuckets + 1;
      buckets, chains := newBuckets, newChains;
      ineffExpands := if nonidealItems > ShiftRight(numItems, 1) then ineffExpands + 1 else 0;
      if ineffExpands > 1 {
        noexpand := true;
      }
    }
  }

  /** What the table's own check (HASH_FSCK) counts: the buckets and the order list hold num_items elements each. */
  lemma PassesOwnCheck<V>(t: HashTable<V>)
    requires t.Valid() && t.order != []
    ensures CountSum(t.buckets[..], t.buckets.Length) == t.numItems == |t.order|
    ensures forall b :: 0 <= b < t.buckets.Length ==>
      Chained(t.chains[b]) && t.buckets[b].head == At(t.chains[b], 0) && t.buckets[b].count == |t.chains[b]|
    ensures forall n :: n in t.order ==> n in t.chains[n.hashv % t.numBuckets]
  {
    CountsAddUp(t.buckets[..], t.chains, t.Items());
    DistinctSize(t.order);
    forall b | 0 <= b < t.buckets.Length
      ensures Chained(t.chains[b]) && t.buckets[b].head == At(t.chains[b], 0) && t.buckets[b].count == |t.chains[b]|
    {
      assert InBucket(t.chains[b], b, |t.chains|, t.Items());
      assert t.buckets[..][b] == t.buckets[b];
    }
    forall n | n in t.order
      ensures n in t.chains[n.hashv % t.numBuckets]
    {
      BucketIsMod(n.hashv, t.log2NumBuckets);
      assert n in t.Items();
    }
  }

  lemma InitialPow2()
    ensures Pow2(INITIAL_LOG2) == INITIAL_NUM_BUCKETS
  {
    assert Pow2(1) == 2 && Pow2(2) == 4 && Pow2(3) == 8 && Pow2(4) == 16;
  }

  lemma EmptySort<T>(cmp: (T, T) -> int)
    ensures SortFrom([], 1, cmp) == []
  {
  }

  lemma SameElements<V>(s: seq<Node<V>>, t: seq<Node<V>>)
    requires multiset(s) == multiset(t)
    ensures NodeSet(s) == NodeSet(t)
  {
    forall n | n in s || n in t
      ensures n in s && n in t
    {
      assert n in multiset(s) && n in multiset(t);
    }
  }

  lemma InsertedNodes<V>(s: seq<Node<V>>, k: nat, el: Node<V>)
    requires k <= |s| && el !in s
    ensures NodeSet(s[..k] + [el] + s[k..]) == NodeSet(s) + {el}
  {
    var t := s[..k] + [el] + s[k..];
    forall n | n in s
      ensures n in t
    {
      var i :| 0 <= i < |s| && s[i] == n;
      assert t[if i < k then i else i + 1] == n;
    }
    assert t[k] == el;
  }

  lemma InsertedMembers<V>(s: seq<Node<V>>, k: nat, el: Node<V>)
    requires k <= |s|
    ensures forall n :: n in s[..k] + [el] + s[k..] ==> n == el || n in s
  {
  }

  /** The order list with one more node, once the links around it are open. */
  lemma ListOpened<V>(s: seq<Node<V>>, k: nat, el: Node<V>)
    requires k < |s| && Distinct(s) && el !in s
    requires el.next == s[k] && el.prev == At(s, k - 1) && s[k].prev == el && (k > 0 ==> s[k - 1].next == el)
    requires forall i {:trigger s[i].next} :: 0 <= i < |s| && i != k - 1 ==> s[i].next == At(s, i + 1)
    requires forall i {:trigger s[i].prev} :: 0 <= i < |s| && i != k ==> s[i].prev == At(s, i - 1)
    ensures Linked(s[..k] + [el] + s[k..])
  {
    var t := s[..k] + [el] + s[k..];
    InsertedDistinct(s, k, el);
    forall i | 0 <= i < |t|
      ensures t[i].next == At(t, i + 1) && t[i].prev == At(t, i - 1)
    {
      if i < k {
        assert t[i] == s[i];
      } else if i > k {
        assert t[i] == s[i - 1];
      }
    }
  }

  lemma InsertedDistinct<V>(s: seq<Node<V>>, k: nat, el: Node<V>)
    requires k <= |s| && Distinct(s) && el !in s
    ensures Distinct(s[..k] + [el] + s[k..])
  {
    var t := s[..k] + [el] + s[k..];
    forall i, j | 0 <= i < j < |t|
      ensures t[i] != t[j]
    {
      var x, y := if i < k then i else i - 1, if j < k then j else j - 1;
      assert i != k ==> t[i] == s[x] && s[x] in s;
      assert j != k ==> t[j] == s[y] && s[y] in s;
    }
  }

  /** An in-order add keeps a sorted list sorted. */
  lemma InsertKeepsSorted<T>(s: seq<T>, k: nat, x: T, cmp: (T, T) -> int, u: set<T>)
    requires Orders(cmp, u) && Within(s, u) && x in u && Sorted(s, cmp) && k <= |s|
    requires forall i :: 0 <= i < k ==> cmp(s[i], x) <= 0
    requires k < |s| ==> cmp(s[k], x) > 0
    ensures Sorted(s[..k] + [x] + s[k..], cmp)
  {
    var t := s[..k] + [x] + s[k..];
    forall i, j | 0 <= i < j < |t|
      ensures cmp(t[i], t[j]) <= 0
    {
      if i == k {
        assert t[j] == s[j - 1] && s[k] in u && s[j - 1] in u;
        assert j - 1 > k ==> cmp(s[k], s[j - 1]) <= 0;
      } else if j == k {
        assert t[i] == s[i];
      } else {
        assert t[i] == s[if i < k then i else i - 1] && t[j] == s[if j < k then j else j - 1];
      }
    }
  }
}
