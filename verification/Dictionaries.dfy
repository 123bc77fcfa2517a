/** The hash table, used as its clients do, is a dictionary that remembers the order of insertion. */
module Dictionaries {
  import opened HashNodes
  import opened HashTables
  import opened Registry

  datatype Entry<V> = Entry(key: string, value: V)

  datatype Answer<V> = Nothing | Something(value: V)

  datatype Operation<V> = Put(key: string, value: V) | Remove(key: string) | Get(key: string)

  // ----- the dictionary -----

  function Index<V>(d: seq<Entry<V>>, key: string): (i: nat)
    ensures i <= |d| && (i < |d| ==> d[i].key == key)
    ensures forall j :: 0 <= j < i ==> d[j].key != key
  {
    if d == [] || d[0].key == key then 0 else Index(d[1..], key) + 1
  }

  /** A new key goes to the end; an old key stays as it is. */
  function Apply<V>(d: seq<Entry<V>>, op: Operation<V>): seq<Entry<V>> {
    var i := Index(d, op.key);
    match op
    case Put(key, value) => if i < |d| then d else d + [Entry(key, value)]
    case Remove(key) => if i < |d| then d[..i] + d[i + 1..] else d
    case Get(key) => d
  }

  /** What is there for the key before the operation. */
  function Answered<V>(d: seq<Entry<V>>, op: Operation<V>): Answer<V> {
    var i := Index(d, op.key);
    if i < |d| then Something(d[i].value) else Nothing
  }

  function ApplyAll<V>(d: seq<Entry<V>>, ops: seq<Operation<V>>): seq<Entry<V>> {
    if ops == [] then d else Apply(ApplyAll(d, ops[..|ops| - 1]), ops[|ops| - 1])
  }

  /** What a key is mapped to. */
  function At<V>(d: seq<Entry<V>>, key: string): Answer<V> {
    Answered(d, Get(key))
  }

  predicate OneEach<V>(d: seq<Entry<V>>) {
    forall i, j :: 0 <= i < j < |d| ==> d[i].key != d[j].key
  }

  /** A key is mapped to the value of the entry that has it, and to nothing if none has. */
  lemma AtIs<V>(d: seq<Entry<V>>, key: string)
    requires OneEach(d)
    ensures forall i :: 0 <= i < |d| && d[i].key == key ==> At(d, key) == Something(d[i].value)
    ensures (forall i :: 0 <= i < |d| ==> d[i].key != key) ==> At(d, key) == Nothing
  {
  }

  /**
   The dictionary's laws. Putting maps a new key, and leaves an old one alone; removing unmaps a key; getting changes
   nothing; no operation touches another key, or the order of the others.
   */
  lemma DictionaryLaws<V>(d: seq<Entry<V>>, op: Operation<V>)
    requires OneEach(d)
    ensures var d' := Apply(d, op);
      && OneEach(d')
      && (forall k: string :: k != op.key ==> At(d', k) == At(d, k))
      && (op.Put? ==> At(d', op.key) == if At(d, op.key).Nothing? then Something(op.value) else At(d, op.key))
      && (op.Put? ==> |d'| == |d| + (if At(d, op.key).Nothing? then 1 else 0) && d <= d')
      && (op.Remove? ==> At(d', op.key) == Nothing && |d'| == |d| - if At(d, op.key).Nothing? then 0 else 1)
      && (op.Get? ==> d' == d)
    ensures Answered(d, op) == At(d, op.key)
  {
    var d', i := Apply(d, op), Index(d, op.key);
    if op.Put? && i == |d| {
      PutLaw(d, Entry(op.key, op.value));
    } else if op.Remove? && i < |d| {
      RemoveLaw(d, i);
    }
  }

  lemma PutLaw<V>(d: seq<Entry<V>>, e: Entry<V>)
    requires OneEach(d) && At(d, e.key) == Nothing
    ensures OneEach(d + [e]) && At(d + [e], e.key) == Something(e.value)
    ensures forall k: string :: k != e.key ==> At(d + [e], k) == At(d, k)
  {
    var d' := d + [e];
    assert forall i :: 0 <= i < |d| ==> d[i].key != e.key;
    forall k: string | k != e.key
      ensures At(d', k) == At(d, k)
    {
      SameAt(d, d', k);
    }
    assert d'[|d|].key == e.key;
    AtIs(d', e.key);
  }

  lemma SameAt<V>(d: seq<Entry<V>>, d': seq<Entry<V>>, k: string)
    requires OneEach(d) && OneEach(d')
    requires forall i :: 0 <= i < |d| && d[i].key == k ==> d[i] in d'
    requires forall i :: 0 <= i < |d'| && d'[i].key == k ==> d'[i] in d
    ensures At(d', k) == At(d, k)
  {
    AtIs(d, k);
    AtIs(d', k);
    if i :| 0 <= i < |d| && d[i].key == k {
      var j :| 0 <= j < |d'| && d'[j] == d[i];
    }
  }

  lemma RemoveLaw<V>(d: seq<Entry<V>>, i: nat)
    requires OneEach(d) && i < |d|
    ensures var d' := d[..i] + d[i + 1..];
      OneEach(d') && At(d', d[i].key) == Nothing && forall k: string :: k != d[i].key ==> At(d', k) == At(d, k)
  {
    var d' := d[..i] + d[i + 1..];
    assert forall j :: 0 <= j < |d'| ==> d'[j] == if j < i then d[j] else d[j + 1];
    assert OneEach(d');
    AtIs(d', d[i].key);
    forall k: string | k != d[i].key
      ensures At(d', k) == At(d, k)
    {
      forall j | 0 <= j < |d| && d[j].key == k
        ensures d[j] in d'
      {
        assert d'[if j < i then j else j - 1] == d[j];
      }
      SameAt(d, d', k);
    }
  }

  /** What was put first under a key is still there after any run that does not remove it. */
  lemma {:induction false} StaysThere<V>(d: seq<Entry<V>>, ops: seq<Operation<V>>, key: string)
    requires OneEach(d) && forall i :: 0 <= i < |ops| ==> !(ops[i].Remove? && ops[i].key == key)
    requires At(d, key) != Nothing
    ensures OneEach(ApplyAll(d, ops)) && At(ApplyAll(d, ops), key) == At(d, key)
  {
    if ops != [] {
      StaysThere(d, ops[..|ops| - 1], key);
      DictionaryLaws(ApplyAll(d, ops[..|ops| - 1]), ops[|ops| - 1]);
    }
  }

  // ----- the table -----

  ghost function Entries<V>(s: seq<Node<V>>): (d: seq<Entry<V>>)
    reads s`key
    ensures |d| == |s| && forall i :: 0 <= i < |s| ==> d[i] == Entry(s[i].key, s[i].value)
  {
    if s == [] then [] else Entries(s[..|s| - 1]) + [Entry(s[|s| - 1].key, s[|s| - 1].value)]
  }

  lemma FoundAtIndex<V>(s: seq<Node<V>>, key: string, found: Node?<V>)
    requires found != null ==> found in s && found.key == key
    requires found == null ==> forall n :: n in s ==> n.key != key
    requires UniqueKeys(s)
    ensures var i := Index(Entries(s), key); if i < |s| then found == s[i] else found == null
  {
    var i := Index(Entries(s), key);
    if found != null {
      var j :| 0 <= j < |s| && s[j] == found;
      assert Entries(s)[j].key == key;
    }
  }

  /** Adding an element whose key is new. */
  method PutNew<V>(t: HashTable<V>, key: string, value: V)
    requires t.Valid() && UniqueKeys(t.order) && forall n :: n in t.order ==> n.key != key
    modifies t, t.buckets, t.order`prev, t.order`next, t.order`hhPrev, t.order`hhNext
    ensures t.Valid() && UniqueKeys(t.order)
    ensures t.buckets == old(t.buckets) || fresh(t.buckets)
    ensures forall i :: 0 <= i < |t.order| ==> t.order[i] in old(t.order) || fresh(t.order[i])
    ensures Entries(t.order) == old(Entries(t.order)) + [Entry(key, value)]
  {
    hide HashTable.Valid, UniqueKeys, Entries;
    var el := new Node(value);
    ghost var before := t.order;
    t.Add(el, key);
    KeyAppended(before, el);
  }

  lemma KeyAppended<V>(s: seq<Node<V>>, el: Node<V>)
    requires UniqueKeys(s) && forall n :: n in s ==> n.key != el.key
    ensures UniqueKeys(s + [el]) && Entries(s + [el]) == Entries(s) + [Entry(el.key, el.value)]
  {
  }

  /** Deleting the element at a position. */
  method RemoveAt<V>(t: HashTable<V>, n: Node<V>, ghost i: nat)
    requires t.Valid() && UniqueKeys(t.order) && i < |t.order| && n == t.order[i]
    modifies t, t.buckets, t.order`prev, t.order`next, t.order`hhPrev, t.order`hhNext
    ensures t.Valid() && UniqueKeys(t.order) && t.buckets == old(t.buckets)
    ensures forall j :: 0 <= j < |t.order| ==> t.order[j] in old(t.order)
    ensures Entries(t.order) == old(Entries(t.order))[..i] + old(Entries(t.order))[i + 1..]
  {
    hide HashTable.Valid, UniqueKeys, Entries;
    ghost var before := t.order;
    ghost var k := t.Delete(n);
    OneOfItsKey(before, k, i);
    KeyRemoved(before, i);
  }

  lemma OneOfItsKey<V>(s: seq<Node<V>>, k: nat, i: nat)
    requires UniqueKeys(s) && k < |s| && i < |s| && s[k] == s[i]
    ensures k == i
  {
    assert s[k].key == s[i].key;
  }

  lemma KeyRemoved<V>(s: seq<Node<V>>, i: nat)
    requires UniqueKeys(s) && i < |s|
    ensures UniqueKeys(Without(s, i)) && Entries(Without(s, i)) == Entries(s)[..i] + Entries(s)[i + 1..]
    ensures forall j :: 0 <= j < |Without(s, i)| ==> Without(s, i)[j] in s
  {
  }

  /** One operation as the clients do it: look first, then add or delete. */
  method Execute<V>(t: HashTable<V>, op: Operation<V>) returns (answer: Answer<V>)
    requires t.Valid() && UniqueKeys(t.order)
    modifies t, t.buckets, t.order`prev, t.order`next, t.order`hhPrev, t.order`hhNext
    ensures t.Valid() && UniqueKeys(t.order)
    ensures t.buckets == old(t.buckets) || fresh(t.buckets)
    ensures forall i :: 0 <= i < |t.order| ==> t.order[i] in old(t.order) || fresh(t.order[i])
    ensures Entries(t.order) == Apply(old(Entries(t.order)), op)
    ensures answer == Answered(old(Entries(t.order)), op)
  {
    hide HashTable.Valid, UniqueKeys, Entries, Index;
    var found := t.Find(op.key);
    FoundAtIndex(t.order, op.key, found);
    ghost var at := Index(Entries(t.order), op.key);
    answer := if found == null then Nothing else Something(found.value);
    match op {
      case Put(key, value) =>
        if found == null {
          PutNew(t, key, value);
        }
      case Remove(key) =>
        if found != null {
          RemoveAt(t, found, at);
        }
      case Get(key) =>
    }
  }

  lemma NoKeys<V>()
    ensures UniqueKeys<V>([])
  {
  }

  /**
   Any run of operations on a new table: each answer is the dictionary's, and at the end walking the order list gives
   the dictionary's entries, the surviving ones in the order in which they were inserted.
   */
  method Run<V>(hash: string -> nat, ops: seq<Operation<V>>) returns (t: HashTable<V>, answers: seq<Answer<V>>)
    ensures t.Valid() && UniqueKeys(t.order)
    ensures Entries(t.order) == ApplyAll([], ops)
    ensures |answers| == |ops|
    ensures forall i :: 0 <= i < |ops| ==> answers[i] == Answered(ApplyAll([], ops[..i]), ops[i])
  {
    hide HashTable.Valid, UniqueKeys, Entries, Apply, Answered;
    t := new HashTable<V>(hash);
    NoKeys<V>();
    answers := [];
    for i := 0 to |ops|
      invariant t.Valid() && UniqueKeys(t.order) && fresh(t) && fresh(t.buckets)
      invariant forall k :: 0 <= k < |t.order| ==> fresh(t.order[k])
      invariant Entries(t.order) == ApplyAll([], ops[..i])
      invariant |answers| == i
      invariant forall k :: 0 <= k < i ==> answers[k] == Answered(ApplyAll([], ops[..k]), ops[k])
    {
      var answer := Execute(t, ops[i]);
      assert ops[..i + 1][..i] == ops[..i];
      answers := answers + [answer];
    }
    assert ops[..|ops|] == ops;
  }
}
