/**
 Elements of the hash table (include/uthash.h). Every element is in two doubly linked lists at once: the list of all
 elements in insertion order and the chain of its bucket.
 */
module HashNodes {
  class Node<V> {
    var key: string
    var hashv: nat
    const value: V
    var prev: Node?<V>
    var next: Node?<V>
    var hhPrev: Node?<V>
    var hhNext: Node?<V>
    /** The element's memory has not been freed. */
    ghost var live: bool

    constructor (value: V)
      ensures this.value == value && live
    {
      this.value := value;
      key, hashv, live := "", 0, true;
      prev, next, hhPrev, hhNext := null, null, null, null;
    }

    /** What comes after this element in the order list; a freed element cannot be asked. */
    function Successor(): Node?<V>
      requires live
      reads this
    {
      next
    }

    /** The owner's structure around the element; a freed element cannot be asked. */
    function Contents(): V
      requires live
      reads this
    {
      value
    }

    /** free: from here on the element must not be read. */
    method Free()
      requires live
      modifies `live
      ensures !live
    {
      live := false;
    }
  }

  datatype Bucket<V> = Bucket(head: Node?<V>, count: nat, expandMult: nat)

  // ----- lists of nodes -----

  ghost predicate Distinct<V>(s: seq<Node<V>>) {
    forall i, j :: 0 <= i < j < |s| ==> s[i] != s[j]
  }

  ghost function At<V>(s: seq<Node<V>>, i: int): Node?<V> {
    if 0 <= i < |s| then s[i] else null
  }

  /** The order list: both links of every node agree with the sequence. */
  ghost predicate Linked<V>(s: seq<Node<V>>)
    reads s`next, s`prev
  {
    && Distinct(s)
    && (forall i {:trigger s[i].next} :: 0 <= i < |s| ==> s[i].next == At(s, i + 1))
    && (forall i {:trigger s[i].prev} :: 0 <= i < |s| ==> s[i].prev == At(s, i - 1))
  }

  /** A bucket's chain: both chain links of every node agree with the sequence. */
  ghost predicate Chained<V>(s: seq<Node<V>>)
    reads s`hhNext, s`hhPrev
  {
    && Distinct(s)
    && (forall i {:trigger s[i].hhNext} :: 0 <= i < |s| ==> s[i].hhNext == At(s, i + 1))
    && (forall i {:trigger s[i].hhPrev} :: 0 <= i < |s| ==> s[i].hhPrev == At(s, i - 1))
  }

  /** A node put in front of a chain, once the links of both are as they should be. */
  lemma ChainPushed<V>(el: Node<V>, s: seq<Node<V>>)
    requires Distinct(s) && el !in s
    requires el.hhPrev == null && el.hhNext == At(s, 0) && (s != [] ==> s[0].hhPrev == el)
    requires forall i {:trigger s[i].hhNext} :: 0 <= i < |s| ==> s[i].hhNext == At(s, i + 1)
    requires forall i {:trigger s[i].hhPrev} :: 0 < i < |s| ==> s[i].hhPrev == At(s, i - 1)
    ensures Chained([el] + s)
  {
    var t := [el] + s;
    forall i | 0 <= i < |t|
      ensures t[i].hhNext == At(t, i + 1) && t[i].hhPrev == At(t, i - 1)
    {
      if i > 0 {
        assert t[i] == s[i - 1];
      }
    }
  }

  ghost function Without<V>(s: seq<Node<V>>, k: nat): seq<Node<V>>
    requires k < |s|
  {
    s[..k] + s[k + 1..]
  }

  /** A chain without one node, once the links around that node are closed. */
  lemma ChainClosed<V>(s: seq<Node<V>>, k: nat)
    requires k < |s| && Distinct(s)
    requires forall i {:trigger s[i].hhNext} :: 0 <= i < |s| && i != k - 1 && i != k ==> s[i].hhNext == At(s, i + 1)
    requires forall i {:trigger s[i].hhPrev} :: 0 <= i < |s| && i != k && i != k + 1 ==> s[i].hhPrev == At(s, i - 1)
    requires k > 0 ==> s[k - 1].hhNext == At(s, k + 1)
    requires k + 1 < |s| ==> s[k + 1].hhPrev == At(s, k - 1)
    ensures Chained(Without(s, k))
  {
    var t := Without(s, k);
    forall i | 0 <= i < |t|
      ensures t[i].hhNext == At(t, i + 1) && t[i].hhPrev == At(t, i - 1)
    {
      if i < k {
        assert t[i] == s[i];
      } else {
        assert t[i] == s[i + 1];
      }
    }
  }

  /** The order list without one node, once the links around that node are closed. */
  lemma ListClosed<V>(s: seq<Node<V>>, k: nat)
    requires k < |s| && Distinct(s)
    requires forall i {:trigger s[i].next} :: 0 <= i < |s| && i != k - 1 && i != k ==> s[i].next == At(s, i + 1)
    requires forall i {:trigger s[i].prev} :: 0 <= i < |s| && i != k && i != k + 1 ==> s[i].prev == At(s, i - 1)
    requires k > 0 ==> s[k - 1].next == At(s, k + 1)
    requires k + 1 < |s| ==> s[k + 1].prev == At(s, k - 1)
    ensures Linked(Without(s, k))
  {
    var t := Without(s, k);
    forall i | 0 <= i < |t|
      ensures t[i].next == At(t, i + 1) && t[i].prev == At(t, i - 1)
    {
      if i < k {
        assert t[i] == s[i];
      } else {
        assert t[i] == s[i + 1];
      }
    }
  }

  lemma WithoutMembers<V>(s: seq<Node<V>>, k: nat)
    requires k < |s| && Distinct(s)
    ensures forall n :: n in Without(s, k) <==> n in s && n != s[k]
    ensures |Without(s, k)| == |s| - 1 && Distinct(Without(s, k))
  {
    forall n | n in s && n != s[k]
      ensures n in Without(s, k)
    {
      var i :| 0 <= i < |s| && s[i] == n;
      assert Without(s, k)[if i < k then i else i - 1] == n;
    }
  }

  ghost function NodeSet<V>(s: seq<Node<V>>): set<Node<V>> {
    set n | n in s
  }

  lemma NodesWithout<V>(s: seq<Node<V>>, k: nat)
    requires k < |s| && Distinct(s)
    ensures NodeSet(Without(s, k)) == NodeSet(s) - {s[k]} && Distinct(Without(s, k))
  {
    WithoutMembers(s, k);
  }
}
