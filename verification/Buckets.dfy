/** The bucket chains of the hash table, and their expansion to twice as many buckets. */
module Buckets {
  import opened Bits
  import opened HashNodes

  /** Bucket chains that hold exactly the given nodes, each in the chain of its hash value. */
  ghost predicate Placed<V>(chains: seq<seq<Node<V>>>, nodes: set<Node<V>>)
    reads nodes`hashv, nodes`hhNext, nodes`hhPrev
  {
    && |chains| > 0
    && (forall b :: 0 <= b < |chains| ==> InBucket(chains[b], b, |chains|, nodes))
    && (forall n :: n in nodes ==> n in chains[ToBucket(n.hashv, |chains|)])
  }

  ghost predicate InBucket<V>(chain: seq<Node<V>>, b: int, numBuckets: nat, nodes: set<Node<V>>)
    requires numBuckets > 0
    reads nodes`hashv, nodes`hhNext, nodes`hhPrev
  {
    && (forall n :: n in chain ==> n in nodes && ToBucket(n.hashv, numBuckets) == b)
    && Chained(chain)
  }

  /** The heads and counts of the buckets are those of the chains. */
  ghost predicate Headed<V>(buckets: seq<Bucket<V>>, chains: seq<seq<Node<V>>>) {
    && |buckets| == |chains|
    && forall b :: 0 <= b < |chains| ==> buckets[b].head == At(chains[b], 0) && buckets[b].count == |chains[b]|
  }

  /** Puts a node in front of the chain of its bucket. */
  method PushFront<V>(buckets: array<Bucket<V>>, ghost chains: seq<seq<Node<V>>>, ghost nodes: set<Node<V>>, el: Node<V>)
    returns (ghost chains': seq<seq<Node<V>>>)
    requires Placed(chains, nodes) && Headed(buckets[..], chains) && el !in nodes
    modifies buckets, el`hhNext, el`hhPrev, nodes`hhPrev
    ensures Placed(chains', nodes + {el}) && Headed(buckets[..], chains')
    ensures var b := ToBucket(el.hashv, |chains|);
            chains' == chains[b := [el] + chains[b]] &&
            buckets[..] == old(buckets[..])[b := Bucket(el, old(buckets[b].count) + 1, old(buckets[b].expandMult))]
  {
    hide BitAnd;
    var b := ToBucket(el.hashv, buckets.Length);
    var bucket := buckets[b];
    ghost var chain := chains[b];
    assert InBucket(chain, b, |chains|, nodes);
    assert bucket.head != null ==> chain[0] in chain;
    el.hhNext := bucket.head;
    el.hhPrev := null;
    if bucket.head != null {
      bucket.head.hhPrev := el;
    }
    buckets[b] := bucket.(head := el, count := bucket.count + 1);
    chains' := chains[b := [el] + chain];
    ChainPushed(el, chain);
    forall c | 0 <= c < |chains| && c != b
      ensures InBucket(chains[c], c, |chains|, nodes + {el})
    {
      assert old(InBucket(chains[c], c, |chains|, nodes));
    }
  }

  /** HASH_DEL_IN_BKT: takes a node out of a chain. */
  method UnlinkFromChain<V>(buckets: array<Bucket<V>>, b: nat, ghost chain: seq<Node<V>>, ghost k: nat, el: Node<V>)
    requires b < buckets.Length && Chained(chain) && k < |chain| && chain[k] == el
    requires buckets[b].head == chain[0] && buckets[b].count == |chain|
    modifies buckets, chain`hhNext, chain`hhPrev
    ensures Chained(Without(chain, k))
    ensures buckets[..] == old(buckets[..])[b := Bucket(At(Without(chain, k), 0), |chain| - 1, old(buckets[b].expandMult))]
  {
    buckets[b] := buckets[b].(count := buckets[b].count - 1);
    if buckets[b].head == el {
      buckets[b] := buckets[b].(head := el.hhNext);
    }
    if el.hhPrev != null {
      el.hhPrev.hhNext := el.hhNext;
    }
    if el.hhNext != null {
      el.hhNext.hhPrev := el.hhPrev;
    }
    ChainClosed(chain, k);
  }

  /** Takes a node out of the chain of its bucket. */
  method RemoveFromBucket<V>(buckets: array<Bucket<V>>, ghost chains: seq<seq<Node<V>>>, ghost nodes: set<Node<V>>, el: Node<V>)
    returns (ghost chains': seq<seq<Node<V>>>)
    requires Placed(chains, nodes) && Headed(buckets[..], chains) && el in nodes
    modifies buckets, nodes`hhNext, nodes`hhPrev
    ensures Placed(chains', nodes - {el}) && Headed(buckets[..], chains') && |chains'| == |chains|
  {
    hide BitAnd;
    var b := ToBucket(el.hashv, buckets.Length);
    ghost var chain := chains[b];
    assert InBucket(chain, b, |chains|, nodes);
    ghost var k :| 0 <= k < |chain| && chain[k] == el;
    UnlinkFromChain(buckets, b, chain, k, el);
    chains' := chains[b := Without(chain, k)];
    forall c | 0 <= c < |chains| && c != b
      ensures InBucket(chains[c], c, |chains|, nodes - {el})
    {
      assert old(InBucket(chains[c], c, |chains|, nodes)) && old(InBucket(chain, b, |chains|, nodes));
      assert forall n :: n in chains[c] ==> n !in chain && n.hhNext == old(n.hhNext) && n.hhPrev == old(n.hhPrev);
    }
    WithoutMembers(chain, k);
  }

  // ----- expansion -----

  /** The expand_mult of a bucket that got its elements one by one. */
  function MultAfter(count: nat, ideal: nat): nat {
    if count == 0 then 0
    else var m := MultAfter(count - 1, ideal); if count > ideal && count > m * ideal then m + 1 else m
  }

  function Excess(count: nat, ideal: nat): nat {
    if count > ideal then count - ideal else 0
  }

  /** How many elements are beyond the ideal length of their chain. */
  ghost function ExcessSum<V>(chains: seq<seq<Node<V>>>, ideal: nat): nat {
    if chains == [] then 0 else ExcessSum(chains[..|chains| - 1], ideal) + Excess(|chains[|chains| - 1]|, ideal)
  }

  lemma {:induction false} ExcessSumUpdate<V>(chains: seq<seq<Node<V>>>, ideal: nat, b: nat, c: seq<Node<V>>)
    requires b < |chains|
    ensures ExcessSum(chains[b := c], ideal) + Excess(|chains[b]|, ideal) == ExcessSum(chains, ideal) + Excess(|c|, ideal)
  {
    var last := |chains| - 1;
    if b < last {
      ExcessSumUpdate(chains[..last], ideal, b, c);
      assert chains[b := c][..last] == chains[..last][b := c];
    } else {
      assert chains[b := c][..last] == chains[..last];
    }
  }

  lemma {:induction false} NoExcess<V>(n: nat, ideal: nat)
    ensures ExcessSum(NoChains<V>(n), ideal) == 0
  {
    if n > 0 {
      NoExcess<V>(n - 1, ideal);
      assert NoChains<V>(n)[..n - 1] == NoChains<V>(n - 1);
    }
  }

  /** No bucket ends up longer than its expand_mult allows for, and expand_mult is not larger than it has to be. */
  lemma {:induction false} MultBounds(count: nat, ideal: nat)
    requires ideal > 0
    ensures var m := MultAfter(count, ideal);
            count <= (m + 1) * ideal && (m > 0 ==> (m - 1) * ideal < count) && (count <= ideal <==> m == 0)
  {
    if count > 0 {
      MultBounds(count - 1, ideal);
      var m := MultAfter(count - 1, ideal);
      assert (m + 1) * ideal == m * ideal + ideal && (m + 2) * ideal == m * ideal + 2 * ideal;
      assert m > 0 ==> (m - 1) * ideal == m * ideal - ideal;
      assert m >= 1 ==> m * ideal >= ideal by { if m >= 1 { MultipleAtLeast(m, ideal); } }
    }
  }

  /**
   expand_mult exactly: the length over the ideal, rounded up, except that the first element beyond the ideal makes it
   1 and not 2, and that for an ideal of 1 it stays one behind.
   */
  lemma {:induction false} MultExactly(count: nat, ideal: nat)
    requires ideal > 0
    ensures var m := MultAfter(count, ideal);
      if count <= ideal then m == 0
      else if ideal == 1 || count == ideal + 1 then m == count - ideal
      else (m - 1) * ideal < count <= m * ideal
  {
    if count > 0 {
      MultExactly(count - 1, ideal);
      var m := MultAfter(count - 1, ideal);
      assert (m + 1) * ideal == m * ideal + ideal && (m - 1) * ideal == m * ideal - ideal;
    }
  }

  /** The counters for one more element in a bucket. */
  ghost predicate Counted<V>(buckets: seq<Bucket<V>>, ideal: nat) {
    forall b :: 0 <= b < |buckets| ==> buckets[b].expandMult == MultAfter(buckets[b].count, ideal)
  }

  /** New buckets under construction: the given nodes are in them and both counters are right. */
  ghost predicate Rebuilt<V>(buckets: seq<Bucket<V>>, chains: seq<seq<Node<V>>>, nodes: set<Node<V>>, ideal: nat, nonideal: nat)
    reads nodes`hashv, nodes`hhNext, nodes`hhPrev
  {
    Placed(chains, nodes) && Headed(buckets, chains) && Counted(buckets, ideal) && nonideal == ExcessSum(chains, ideal)
  }

  /** What one more element does to the two counters of the expansion. */
  method CountOne(count: nat, mult: nat, ideal: nat, nonideal: nat) returns (mult': nat, nonideal': nat)
    requires mult == MultAfter(count, ideal)
    ensures mult' == MultAfter(count + 1, ideal)
    ensures nonideal' + Excess(count, ideal) == nonideal + Excess(count + 1, ideal)
    ensures nonideal' == nonideal + if count + 1 > ideal then 1 else 0
    ensures mult' == mult + if count + 1 > ideal && count + 1 > mult * ideal then 1 else 0
  {
    mult', nonideal' := mult, nonideal;
    if count + 1 > ideal {
      nonideal' := nonideal' + 1;
      if count + 1 > mult * ideal {
        mult' := mult + 1;
      }
    }
  }

  /** Moves one element to its new bucket, counting it. */
  method MoveToBucket<V>(buckets: array<Bucket<V>>, ghost chains: seq<seq<Node<V>>>, ghost nodes: set<Node<V>>,
                         el: Node<V>, ideal: nat, nonideal: nat)
    returns (ghost chains': seq<seq<Node<V>>>, nonideal': nat)
    requires Rebuilt(buckets[..], chains, nodes, ideal, nonideal) && el !in nodes
    modifies buckets, el`hhNext, el`hhPrev, nodes`hhPrev
    ensures Rebuilt(buckets[..], chains', nodes + {el}, ideal, nonideal') && |chains'| == |chains|
  {
    hide ToBucket, InBucket;
    var b := ToBucket(el.hashv, buckets.Length);
    var mult;
    mult, nonideal' := CountOne(buckets[b].count, buckets[b].expandMult, ideal, nonideal);
    buckets[b] := buckets[b].(expandMult := mult);
    chains' := PushFront(buckets, chains, nodes, el);
    ExcessSumUpdate(chains, ideal, b, [el] + chains[b]);
  }

  /** What is left of a chain from position p on is still linked forwards. */
  ghost predicate Onwards<V>(chain: seq<Node<V>>, p: nat)
    reads chain`hhNext
  {
    forall k {:trigger chain[k].hhNext} :: p <= k < |chain| ==> chain[k].hhNext == At(chain, k + 1)
  }

  /** The nodes of the first i chains. */
  ghost function FirstChains<V>(chains: seq<seq<Node<V>>>, i: nat): set<Node<V>>
    requires i <= |chains|
  {
    if i == 0 then {} else FirstChains(chains, i - 1) + NodeSet(chains[i - 1])
  }

  lemma {:induction false} InFirstChains<V>(chains: seq<seq<Node<V>>>, i: nat, n: Node<V>)
    requires i <= |chains|
    ensures n in FirstChains(chains, i) <==> exists j :: 0 <= j < i && n in chains[j]
  {
    if i > 0 {
      InFirstChains(chains, i - 1, n);
    }
  }

  lemma NodesStep<V>(chain: seq<Node<V>>, p: nat)
    requires p < |chain| && Distinct(chain)
    ensures NodeSet(chain[..p + 1]) == NodeSet(chain[..p]) + {chain[p]}
    ensures chain[p] !in NodeSet(chain[..p]) && chain[p] in NodeSet(chain)
    ensures NodeSet(chain[..p]) <= NodeSet(chain)
  {
    assert chain[..p + 1] == chain[..p] + [chain[p]];
  }

  /** The inner loop of the expansion: one old chain is taken apart from its front. */
  method MoveChain<V>(buckets: array<Bucket<V>>, ghost chains: seq<seq<Node<V>>>, ghost moved: set<Node<V>>,
                      ghost chain: seq<Node<V>>, first: Node?<V>, ideal: nat, nonideal: nat)
    returns (ghost chains': seq<seq<Node<V>>>, nonideal': nat)
    requires Rebuilt(buckets[..], chains, moved, ideal, nonideal)
    requires first == At(chain, 0) && Distinct(chain) && Onwards(chain, 0) && NodeSet(chain) !! moved
    modifies buckets, chain`hhNext, chain`hhPrev, moved`hhPrev
    ensures Rebuilt(buckets[..], chains', moved + NodeSet(chain), ideal, nonideal') && |chains'| == |chains|
  {
    hide Rebuilt, ToBucket;
    chains', nonideal' := chains, nonideal;
    var thh := first;
    ghost var p, done := 0, moved;
    while thh != null
      invariant p <= |chain| && thh == At(chain, p) && Onwards(chain, p)
      invariant done == moved + NodeSet(chain[..p])
      invariant Rebuilt(buckets[..], chains', done, ideal, nonideal') && |chains'| == |chains|
      decreases |chain| - p
    {
      var nxt := thh.hhNext;
      NodesStep(chain, p);
      chains', nonideal' := MoveToBucket(buckets, chains', done, thh, ideal, nonideal');
      done := done + {thh};
      p := p + 1;
      thh := nxt;
    }
    assert chain[..p] == chain;
  }

  /** No node is in two chains. */
  ghost predicate Apart<V>(chains: seq<seq<Node<V>>>) {
    forall i, j, n :: 0 <= i < j < |chains| && n in chains[i] ==> n !in chains[j]
  }

  lemma PlacedApart<V>(chains: seq<seq<Node<V>>>, nodes: set<Node<V>>)
    requires Placed(chains, nodes)
    ensures Apart(chains) && FirstChains(chains, |chains|) == nodes
    ensures forall i :: 0 <= i < |chains| ==> Distinct(chains[i]) && Onwards(chains[i], 0)
  {
    forall i | 0 <= i < |chains|
      ensures Distinct(chains[i]) && Onwards(chains[i], 0)
      ensures forall n :: n in chains[i] ==> n in nodes && ToBucket(n.hashv, |chains|) == i
    {
      assert InBucket(chains[i], i, |chains|, nodes);
    }
    forall n | n in FirstChains(chains, |chains|)
      ensures n in nodes
    {
      InFirstChains(chains, |chains|, n);
    }
    forall n | n in nodes
      ensures n in FirstChains(chains, |chains|)
    {
      InFirstChains(chains, |chains|, n);
    }
  }

  lemma ApartFromFirst<V>(chains: seq<seq<Node<V>>>, i: nat)
    requires Apart(chains) && i <= |chains|
    ensures forall j, n :: i <= j < |chains| && n in chains[j] ==> n !in FirstChains(chains, i)
  {
    forall j, n | i <= j < |chains| && n in chains[j]
      ensures n !in FirstChains(chains, i)
    {
      InFirstChains(chains, i, n);
    }
  }

  lemma FirstChainsWithin<V>(chains: seq<seq<Node<V>>>, i: nat)
    requires i <= |chains|
    ensures FirstChains(chains, i) <= FirstChains(chains, |chains|)
    ensures forall j :: 0 <= j < |chains| ==> NodeSet(chains[j]) <= FirstChains(chains, |chains|)
  {
    forall n | n in FirstChains(chains, i)
      ensures n in FirstChains(chains, |chains|)
    {
      InFirstChains(chains, i, n);
      InFirstChains(chains, |chains|, n);
    }
    forall j, n | 0 <= j < |chains| && n in chains[j]
      ensures n in FirstChains(chains, |chains|)
    {
      InFirstChains(chains, |chains|, n);
    }
  }

  /** The old chains from the i-th on are still to be taken apart. */
  ghost predicate Waiting<V>(chains: seq<seq<Node<V>>>, i: nat, nodes: set<Node<V>>)
    reads nodes`hashv, nodes`hhNext, nodes`hhPrev
  {
    && Apart(chains) && i <= |chains| && FirstChains(chains, |chains|) == nodes
    && forall j :: i <= j < |chains| ==> NodeSet(chains[j]) <= nodes && Distinct(chains[j]) && Onwards(chains[j], 0)
  }

  lemma AllWaiting<V>(chains: seq<seq<Node<V>>>, nodes: set<Node<V>>)
    requires Placed(chains, nodes)
    ensures Waiting(chains, 0, nodes) && FirstChains(chains, |chains|) == nodes
  {
    PlacedApart(chains, nodes);
    FirstChainsWithin(chains, 0);
  }

  /** One turn of the outer loop of the expansion. */
  method MoveNextChain<V>(head: Node?<V>, ghost chains: seq<seq<Node<V>>>, i: nat, ghost nodes: set<Node<V>>,
                          newBuckets: array<Bucket<V>>, ghost newChains: seq<seq<Node<V>>>, ideal: nat, nonideal: nat)
    returns (ghost newChains': seq<seq<Node<V>>>, nonideal': nat)
    requires i < |chains| && Waiting(chains, i, nodes) && head == At(chains[i], 0)
    requires Rebuilt(newBuckets[..], newChains, FirstChains(chains, i), ideal, nonideal)
    modifies newBuckets, nodes`hhNext, nodes`hhPrev
    ensures Waiting(chains, i + 1, nodes)
    ensures Rebuilt(newBuckets[..], newChains', FirstChains(chains, i + 1), ideal, nonideal')
    ensures |newChains'| == |newChains|
  {
    hide ToBucket, Rebuilt;
    FirstChainsWithin(chains, i);
    ApartFromFirst(chains, i);
    ApartFromFirst(chains, i + 1);
    newChains', nonideal' := MoveChain(newBuckets, newChains, FirstChains(chains, i), chains[i], head, ideal, nonideal);
    forall j | i + 1 <= j < |chains|
      ensures Onwards(chains[j], 0)
    {
      assert old(Onwards(chains[j], 0));
      assert forall n :: n in chains[j] ==> n !in FirstChains(chains, i) && n !in chains[i] && n.hhNext == old(n.hhNext);
    }
  }

  /** The outer loop of the expansion: every old chain in turn. */
  method Redistribute<V>(buckets: array<Bucket<V>>, ghost chains: seq<seq<Node<V>>>, ghost nodes: set<Node<V>>,
                         newBuckets: array<Bucket<V>>, ideal: nat)
    returns (ghost newChains: seq<seq<Node<V>>>, nonideal: nat)
    requires Placed(chains, nodes) && Headed(buckets[..], chains) && newBuckets != buckets
    requires newBuckets.Length > 0 && newBuckets[..] == NoBuckets<V>(newBuckets.Length)
    modifies newBuckets, nodes`hhNext, nodes`hhPrev
    ensures Rebuilt(newBuckets[..], newChains, nodes, ideal, nonideal) && |newChains| == newBuckets.Length
  {
    hide Rebuilt, Waiting, Placed;
    newChains, nonideal := NoChains<V>(newBuckets.Length), 0;
    NoneRebuilt<V>(newBuckets.Length, ideal);
    AllWaiting(chains, nodes);
    for i := 0 to buckets.Length
      invariant Waiting(chains, i, nodes) && |newChains| == newBuckets.Length
      invariant Rebuilt(newBuckets[..], newChains, FirstChains(chains, i), ideal, nonideal)
    {
      newChains, nonideal := MoveNextChain(buckets[i].head, chains, i, nodes, newBuckets, newChains, ideal, nonideal);
    }
  }

  function NoBuckets<V>(n: nat): (bs: seq<Bucket<V>>)
    ensures |bs| == n
  {
    seq(n, _ => Bucket(null, 0, 0))
  }

  ghost function NoChains<V>(n: nat): seq<seq<Node<V>>> {
    seq(n, _ => [])
  }

  lemma NonePlaced<V>(n: nat)
    requires n > 0
    ensures Placed(NoChains<V>(n), {}) && Headed(NoBuckets<V>(n), NoChains<V>(n))
  {
  }

  lemma NoneRebuilt<V>(n: nat, ideal: nat)
    requires n > 0
    ensures Rebuilt(NoBuckets<V>(n), NoChains<V>(n), {}, ideal, 0)
  {
    NonePlaced<V>(n);
    NoExcess<V>(n, ideal);
  }

  method NewBuckets<V>(n: nat) returns (buckets: array<Bucket<V>>)
    ensures fresh(buckets) && buckets[..] == NoBuckets<V>(n)
  {
    buckets := new Bucket<V>[n](_ => Bucket(null, 0, 0));
  }

  // ----- what the counters mean -----

  /** The sum of the counts of the first i buckets. */
  ghost function CountSum<V>(buckets: seq<Bucket<V>>, i: nat): nat
    requires i <= |buckets|
  {
    if i == 0 then 0 else CountSum(buckets, i - 1) + buckets[i - 1].count
  }

  lemma {:induction false} DistinctSize<V>(s: seq<Node<V>>)
    requires Distinct(s)
    ensures |NodeSet(s)| == |s|
  {
    if s != [] {
      var init, last := s[..|s| - 1], s[|s| - 1];
      DistinctSize(init);
      assert s == init + [last];
      assert NodeSet(s) == NodeSet(init) + {last};
    }
  }

  lemma {:induction false} FirstChainsSize<V>(buckets: seq<Bucket<V>>, chains: seq<seq<Node<V>>>, i: nat)
    requires i <= |chains| && Apart(chains) && Headed(buckets, chains)
    requires forall j :: 0 <= j < |chains| ==> Distinct(chains[j])
    ensures |FirstChains(chains, i)| == CountSum(buckets, i)
  {
    hide At;
    if i > 0 {
      FirstChainsSize(buckets, chains, i - 1);
      ApartFromFirst(chains, i - 1);
      DistinctSize(chains[i - 1]);
      assert FirstChains(chains, i - 1) !! NodeSet(chains[i - 1]);
    }
  }

  /** The counts of the buckets add up to the number of elements: no element is lost or in two buckets. */
  lemma CountsAddUp<V>(buckets: seq<Bucket<V>>, chains: seq<seq<Node<V>>>, nodes: set<Node<V>>)
    requires Placed(chains, nodes) && Headed(buckets, chains)
    ensures CountSum(buckets, |buckets|) == |nodes|
  {
    PlacedApart(chains, nodes);
    FirstChainsSize(buckets, chains, |chains|);
  }

  /**
   After an expansion no bucket is longer than its expand_mult allows for: at most expand_mult + 1 times the ideal
   length, which is the number of elements over the number of buckets, rounded up. The recorded number of elements
   beyond the ideal is their true number.
   */
  lemma ExpansionBounds<V>(buckets: seq<Bucket<V>>, chains: seq<seq<Node<V>>>, nodes: set<Node<V>>,
                           ideal: nat, nonideal: nat, k: nat)
    requires Rebuilt(buckets, chains, nodes, ideal, nonideal)
    requires |nodes| > 0 && ideal == IdealChainLength(|nodes|, Pow2(k), k)
    ensures (ideal - 1) * Pow2(k + 1) < |nodes| <= ideal * Pow2(k + 1)
    ensures forall b :: 0 <= b < |buckets| ==>
      && buckets[b].count <= (buckets[b].expandMult + 1) * ideal
      && (buckets[b].expandMult == 0 <==> buckets[b].count <= ideal)
    ensures nonideal == ExcessSum(chains, ideal)
  {
    IdealIsCeiling(|nodes|, k);
    assert ideal > 0;
    forall b | 0 <= b < |buckets|
      ensures buckets[b].count <= (buckets[b].expandMult + 1) * ideal
      ensures buckets[b].expandMult == 0 <==> buckets[b].count <= ideal
    {
      MultBounds(buckets[b].count, ideal);
    }
  }

  /** An element of old bucket b is in b or in b plus the old number of buckets after the expansion, and nowhere else. */
  lemma ExpansionSplits<V>(old': seq<seq<Node<V>>>, new': seq<seq<Node<V>>>, nodes: set<Node<V>>, n: Node<V>, k: nat)
    requires Placed(new', nodes) && |old'| == Pow2(k) && |new'| == Pow2(k + 1) && n in nodes
    ensures var b := ToBucket(n.hashv, |old'|);
      && (n in new'[b] || n in new'[b + Pow2(k)])
      && forall c :: 0 <= c < |new'| && n in new'[c] ==> c == b || c == b + Pow2(k)
  {
    BucketSplits(n.hashv, k);
    forall c | 0 <= c < |new'| && n in new'[c]
      ensures c == ToBucket(n.hashv, |new'|)
    {
      assert InBucket(new'[c], c, |new'|, nodes);
    }
  }
}
