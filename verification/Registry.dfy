/** The command table and the alias table, which are the hash table's clients (src/command_registry.c). */
module Registry {
  import opened HashNodes
  import opened HashTables

  datatype Command = Command(name: string)

  datatype Alias = Alias(name: string, orgCmd: string, id: int, kind: char)

  /** A string argument that may be missing. */
  datatype Text = Missing | Given(text: string)

  // ----- what a table means -----

  /** The element with a key. */
  ghost function ByKey<V>(s: seq<Node<V>>, key: string): Node?<V>
    reads s`key
  {
    if s == [] then null else if s[0].key == key then s[0] else ByKey(s[1..], key)
  }

  ghost predicate UniqueKeys<V>(s: seq<Node<V>>)
    reads s`key
  {
    forall i, j :: 0 <= i < j < |s| ==> s[i].key != s[j].key
  }

  lemma {:induction false} ByKeyIs<V>(s: seq<Node<V>>, key: string)
    ensures ByKey(s, key) == null <==> forall n :: n in s ==> n.key != key
    ensures ByKey(s, key) != null ==> ByKey(s, key) in s && ByKey(s, key).key == key
  {
    if s != [] {
      assert s == [s[0]] + s[1..];
      ByKeyIs(s[1..], key);
    }
  }

  /** With unique keys there is just one element to be found. */
  lemma ByKeyUnique<V>(s: seq<Node<V>>, n: Node<V>)
    requires UniqueKeys(s) && n in s
    ensures ByKey(s, n.key) == n
  {
    ByKeyIs(s, n.key);
  }

  lemma {:induction false} ByKeyAppend<V>(s: seq<Node<V>>, el: Node<V>, key: string)
    ensures ByKey(s + [el], key) == if ByKey(s, key) != null then ByKey(s, key)
                                    else if el.key == key then el else null
  {
    if s != [] {
      ByKeyAppend(s[1..], el, key);
      assert (s + [el])[1..] == s[1..] + [el];
    } else {
      assert (s + [el])[1..] == [];
    }
  }

  /** Adds new elements with the given values and names to an empty table. */
  method AddAll<V>(t: HashTable<V>, values: seq<V>, names: seq<string>)
    requires t.Valid() && t.order == [] && |names| == |values|
    modifies t, t.buckets
    ensures t.Valid() && |t.order| == |values| && (t.buckets == old(t.buckets) || fresh(t.buckets))
    ensures forall i :: 0 <= i < |values| ==>
      fresh(t.order[i]) && t.order[i].live && t.order[i].key == names[i] && t.order[i].value == values[i]
  {
    hide HashTable.Valid;
    for i := 0 to |values|
      invariant t.Valid() && |t.order| == i && (t.buckets == old(t.buckets) || fresh(t.buckets))
      invariant forall j :: 0 <= j < i ==>
        fresh(t.order[j]) && t.order[j].live && t.order[j].key == names[j] && t.order[j].value == values[j]
    {
      var el := new Node(values[i]);
      t.Add(el, names[i]);
    }
  }

  class CommandRegistry {
    const commands: HashTable<Command>
    const aliases: HashTable<Alias>

    ghost predicate Valid()
      reads this, commands, aliases, commands.buckets, aliases.buckets, commands.order, aliases.order
    {
      && commands.Valid() && UniqueKeys(commands.order)
      && aliases.Valid() && UniqueKeys(aliases.order)
      && forall n :: n in aliases.order ==> n.key == n.value.name && n.live
    }

    /** The command that a name stands for: an alias is replaced once, by what it was made for. */
    ghost function Lookup(name: string): Node?<Command>
      reads this, commands, aliases, commands.order`key, aliases.order`key
    {
      var alias := ByKey(aliases.order, name);
      ByKey(commands.order, if alias != null then alias.value.orgCmd else name)
    }

    constructor (hash: string -> nat)
      ensures Valid() && commands.order == [] && aliases.order == []
      ensures fresh(commands) && fresh(aliases) && fresh(commands.buckets) && fresh(aliases.buckets)
    {
      hide HashTable.BucketsValid, HashTable.ListValid;
      commands := new HashTable<Command>(hash);
      aliases := new HashTable<Alias>(hash);
    }

    method LookupCommand(name: Text) returns (cmd: Node?<Command>)
      requires Valid()
      ensures cmd == if name.Missing? then null else Lookup(name.text)
    {
      hide HashTable.Valid, UniqueKeys, ByKey;
      if name.Missing? {
        return null;
      }
      var commandName := name.text;
      var alias := aliases.Find(commandName);
      FoundByKey(aliases.order, commandName, alias);
      if alias != null {
        commandName := alias.value.orgCmd;
      }
      cmd := commands.Find(commandName);
      FoundByKey(commands.order, commandName, cmd);
    }

    /**
     Makes an alias for anything that currently stands for a command, an alias included. `memory` says whether the
     allocations succeed.
     */
    method InsertAlias(name: Text, orgCmd: Text, id: int, kind: char, memory: bool) returns (code: int, ghost added: Node?<Alias>)
      requires Valid()
      modifies aliases, aliases.buckets, aliases.order`prev, aliases.order`next, aliases.order`hhPrev, aliases.order`hhNext
      ensures Valid() && (code == 0 || code == 1)
      ensures code == 0 <==>
        && memory && name.Given? && orgCmd.Given?
        && old(ByKey(aliases.order, name.text)) == null && old(Lookup(orgCmd.text)) != null
      ensures code == 1 ==> aliases.order == old(aliases.order)
      ensures code == 0 ==>
        && added != null && fresh(added) && aliases.order == old(aliases.order) + [added]
        && added.key == name.text && added.value == Alias(name.text, orgCmd.text, id, kind)
        && Lookup(name.text) == ByKey(commands.order, orgCmd.text)
      ensures forall k :: code == 1 || k != name.text ==> Lookup(k) == old(Lookup(k))
    {
      hide HashTable.Valid, UniqueKeys, ByKey;
      added := null;
      if name.Missing? || orgCmd.Missing? {
        return 1, added;
      }
      var existing := aliases.Find(name.text);
      FoundByKey(aliases.order, name.text, existing);
      if existing != null {
        return 1, added;
      }
      var original := LookupCommand(orgCmd);
      if original == null {
        return 1, added;
      }
      if !memory {
        return 1, added;
      }
      added := PutAlias(Alias(name.text, orgCmd.text, id, kind));
      return 0, added;
    }

    /** A new alias changes what its own name stands for, and no other. */
    method PutAlias(alias: Alias) returns (node: Node<Alias>)
      requires Valid() && ByKey(aliases.order, alias.name) == null
      modifies aliases, aliases.buckets, aliases.order`prev, aliases.order`next, aliases.order`hhPrev, aliases.order`hhNext
      ensures Valid() && fresh(node) && aliases.order == old(aliases.order) + [node]
      ensures node.key == alias.name && node.value == alias
      ensures Lookup(alias.name) == ByKey(commands.order, alias.orgCmd)
      ensures forall k :: k != alias.name ==> Lookup(k) == old(Lookup(k))
    {
      hide HashTable.Valid, UniqueKeys, ByKey;
      node := AddAlias(alias);
      ByKeyAppended(old(aliases.order), node);
    }

    /** HASH_DEL and free. */
    method DeleteAlias(el: Node<Alias>)
      requires Valid() && el in aliases.order
      modifies aliases, aliases.buckets, aliases.order`prev, aliases.order`next, aliases.order`hhPrev, aliases.order`hhNext
      modifies aliases.order`live
      ensures Valid() && aliases.buckets == old(aliases.buckets) && !el.live
      ensures forall n :: n in old(aliases.order) && n != el ==> n.live == old(n.live)
      ensures forall k :: 0 <= k < |old(aliases.order)| && old(aliases.order)[k] == el ==>
        aliases.order == Without(old(aliases.order), k)
    {
      hide HashTable.Valid;
      DistinctWhenValid(aliases);
      ghost var k := aliases.Delete(el);
      WithoutMembers(old(aliases.order), k);
      el.Free();
    }

    /** What has been freed when the first v aliases have been visited. */
    ghost predicate FreedUpTo(all: seq<Node<Alias>>, v: nat)
      requires v <= |all|
      reads all`live
    {
      && (forall i :: 0 <= i < v ==> all[i].live == (all[i].value.kind != 'u'))
      && (forall i :: v <= i < |all| ==> all[i].live)
    }

    /** The body of the loop: a user's alias is deleted and freed. */
    method VisitAlias(current: Node<Alias>, ghost all: seq<Node<Alias>>, ghost v: nat)
      requires Valid() && v < |all| && Distinct(all) && current == all[v]
      requires aliases.order == Kept(all[..v]) + all[v..] && FreedUpTo(all, v)
      modifies aliases, aliases.buckets, aliases.order`prev, aliases.order`next, aliases.order`hhPrev, aliases.order`hhNext
      modifies aliases.order`live
      ensures Valid() && aliases.buckets == old(aliases.buckets)
      ensures aliases.order == Kept(all[..v + 1]) + all[v + 1..] && FreedUpTo(all, v + 1)
    {
      hide HashTable.Valid, Kept, UniqueKeys;
      KeptStep(all, v);
      if current.Contents().kind == 'u' {
        StillKept(all, v);
        DeleteAlias(current);
      }
    }

    /** The first v aliases have been visited: of these the kept ones are left, and all that follow. */
    ghost predicate Visited(all: seq<Node<Alias>>, v: nat)
      reads this, commands, aliases, commands.buckets, aliases.buckets, commands.order, aliases.order, all`live
    {
      && Valid() && v <= |all| && Distinct(all)
      && aliases.order == Kept(all[..v]) + all[v..] && FreedUpTo(all, v)
    }

    /** One turn of the loop. The successor is asked of an element that has not been freed. */
    method NextAlias(current: Node<Alias>, tmp: Node?<Alias>, ghost all: seq<Node<Alias>>, ghost v: nat)
      returns (tmp': Node?<Alias>)
      requires v < |all| && current == all[v] && tmp == At(all, v + 1) && Visited(all, v)
      modifies aliases, aliases.buckets, aliases.order`prev, aliases.order`next, aliases.order`hhPrev, aliases.order`hhNext
      modifies aliases.order`live
      ensures Visited(all, v + 1) && tmp' == At(all, v + 2) && aliases.buckets == old(aliases.buckets)
    {
      hide HashTable.Valid, Kept, UniqueKeys;
      VisitAlias(current, all, v);
      SuccessorOf(aliases, Kept(all[..v + 1]), all, v + 1);
      tmp' := if tmp != null then tmp.Successor() else null;
    }

    /**
     The loop of free_alias_table: it frees exactly the user's aliases, and leaves the table in order with the others as
     they were.
     */
    method DeleteUserAliases()
      requires Valid()
      modifies aliases, aliases.buckets, aliases.order`prev, aliases.order`next, aliases.order`hhPrev, aliases.order`hhNext
      modifies aliases.order`live
      ensures Valid() && aliases.order == Kept(old(aliases.order)) && aliases.buckets == old(aliases.buckets)
      ensures forall n :: n in old(aliases.order) ==> n.live == (n.value.kind != 'u')
    {
      hide HashTable.Valid, Visited, Kept, Valid, FreedUpTo;
      ghost var all, v := aliases.order, 0;
      StartVisiting(this);
      var current := aliases.head;
      var tmp := if aliases.head != null then aliases.head.Successor() else null;
      while current != null
        invariant v <= |all| && current == At(all, v) && tmp == At(all, v + 1)
        invariant Visited(all, v) && aliases.buckets == old(aliases.buckets)
        decreases |all| - v
      {
        VisitedInside(this, all, v);
        var next := NextAlias(current, tmp, all, v);
        current := tmp;
        tmp := next;
        v := v + 1;
      }
      AllVisited(this, all);
    }

    /** free_alias_table: the user's aliases are freed, and then the table is let go as a whole. */
    method FreeAliasTable()
      requires Valid()
      modifies aliases, aliases.buckets, aliases.order`prev, aliases.order`next, aliases.order`hhPrev, aliases.order`hhNext
      modifies aliases.order`live
      ensures Valid() && aliases.order == []
      ensures forall n :: n in old(aliases.order) ==> n.live == (n.value.kind != 'u')
      ensures forall name :: Lookup(name) == ByKey(commands.order, name)
    {
      hide HashTable.Valid, Kept;
      DeleteUserAliases();
      aliases.Abandon();
    }

    /** init_commands: both tables are filled from the built-in lists, which name everything once. */
    method InitCommands(staticCommands: seq<Command>, staticAliases: seq<Alias>)
      requires Valid()
      requires forall i, j :: 0 <= i < j < |staticCommands| ==> staticCommands[i].name != staticCommands[j].name
      requires forall i, j :: 0 <= i < j < |staticAliases| ==> staticAliases[i].name != staticAliases[j].name
      modifies commands, commands.buckets, aliases, aliases.buckets
      ensures Valid()
      ensures |commands.order| == |staticCommands| && |aliases.order| == |staticAliases|
      ensures forall i :: 0 <= i < |staticCommands| ==>
        commands.order[i].key == staticCommands[i].name && commands.order[i].value == staticCommands[i]
      ensures forall i :: 0 <= i < |staticAliases| ==>
        aliases.order[i].key == staticAliases[i].name && aliases.order[i].value == staticAliases[i]
    {
      hide HashTable.Valid;
      commands.Abandon();
      aliases.Abandon();
      AddAll(commands, staticCommands, seq(|staticCommands|, i requires 0 <= i < |staticCommands| => staticCommands[i].name));
      AddAll(aliases, staticAliases, seq(|staticAliases|, i requires 0 <= i < |staticAliases| => staticAliases[i].name));
    }

    /** The end of an insertion: the new alias goes into the table. */
    method AddAlias(alias: Alias) returns (node: Node<Alias>)
      requires Valid() && ByKey(aliases.order, alias.name) == null
      modifies aliases, aliases.buckets, aliases.order`prev, aliases.order`next, aliases.order`hhPrev, aliases.order`hhNext
      ensures Valid() && fresh(node) && aliases.order == old(aliases.order) + [node]
      ensures node.key == alias.name && node.value == alias
    {
      hide HashTable.BucketsValid, HashTable.ListValid;
      node := new Node(alias);
      ByKeyIs(aliases.order, alias.name);
      aliases.Add(node, alias.name);
    }
  }

  lemma ByKeyAppended<V>(s: seq<Node<V>>, el: Node<V>)
    ensures forall k :: ByKey(s + [el], k) == if ByKey(s, k) != null then ByKey(s, k) else if el.key == k then el else null
  {
    forall k
      ensures ByKey(s + [el], k) == if ByKey(s, k) != null then ByKey(s, k) else if el.key == k then el else null
    {
      ByKeyAppend(s, el, k);
    }
  }

  /** The aliases that are not the user's, in their order. */
  ghost function Kept(s: seq<Node<Alias>>): seq<Node<Alias>> {
    if s == [] then [] else Kept(s[..|s| - 1]) + if s[|s| - 1].value.kind == 'u' then [] else [s[|s| - 1]]
  }

  lemma {:induction false} KeptWithin(s: seq<Node<Alias>>)
    ensures forall k :: 0 <= k < |Kept(s)| ==> Kept(s)[k] in s && Kept(s)[k].value.kind != 'u'
    ensures forall i :: 0 <= i < |s| && s[i].value.kind != 'u' ==> s[i] in Kept(s)
  {
    if s != [] {
      KeptWithin(s[..|s| - 1]);
      assert s == s[..|s| - 1] + [s[|s| - 1]];
    }
  }

  lemma StartVisiting(r: CommandRegistry)
    requires r.Valid()
    ensures r.Visited(r.aliases.order, 0) && r.aliases.head == At(r.aliases.order, 0)
    ensures r.aliases.order != [] ==> r.aliases.order[0].next == At(r.aliases.order, 1) && r.aliases.order[0].live
  {
    FirstOf(r.aliases);
    var all := r.aliases.order;
    assert Kept(all[..0]) + all[0..] == all;
  }

  lemma VisitedInside(r: CommandRegistry, all: seq<Node<Alias>>, v: nat)
    requires r.Visited(all, v)
    ensures forall k :: 0 <= k < |r.aliases.order| ==> r.aliases.order[k] in all
  {
    KeptInside(all, v);
  }

  lemma AllVisited(r: CommandRegistry, all: seq<Node<Alias>>)
    requires r.Visited(all, |all|)
    ensures r.Valid() && r.aliases.order == Kept(all)
    ensures forall n :: n in all ==> n.live == (n.value.kind != 'u')
  {
    assert all[..|all|] == all && all[|all|..] == [];
  }

  /** An element that is visited and all that follow are not among those kept before. */
  lemma StillKept(all: seq<Node<Alias>>, v: nat)
    requires v < |all| && Distinct(all)
    ensures forall i :: v <= i < |all| ==> all[i] in Kept(all[..v]) + all[v..]
    ensures forall i :: 0 <= i < v && all[i].value.kind != 'u' ==> all[i] in Kept(all[..v]) + all[v..]
    ensures all[v] in Kept(all[..v]) + all[v..]
  {
    KeptWithin(all[..v]);
    forall i | v <= i < |all|
      ensures all[i] in Kept(all[..v]) + all[v..]
    {
      assert all[i] == all[v..][i - v];
    }
    assert forall i :: 0 <= i < v ==> all[i] == all[..v][i];
  }

  lemma KeptInside(all: seq<Node<Alias>>, v: nat)
    requires v <= |all|
    ensures forall k :: 0 <= k < |Kept(all[..v]) + all[v..]| ==> (Kept(all[..v]) + all[v..])[k] in all
  {
    KeptWithin(all[..v]);
  }

  lemma Unvisited<V>(all: seq<Node<V>>, v: nat)
    requires v < |all| && Distinct(all)
    ensures all[v] !in all[..v] && (v + 1 < |all| ==> all[v + 1] !in all[..v + 1])
    ensures all[..v + 1] == all[..v] + [all[v]]
  {
  }

  lemma DistinctWhenValid<V>(t: HashTable<V>)
    requires t.Valid()
    ensures Distinct(t.order)
  {
  }

  lemma FirstOf<V>(t: HashTable<V>)
    requires t.Valid()
    ensures t.head == At(t.order, 0) && (t.order != [] ==> t.order[0].next == At(t.order, 1)) && Distinct(t.order)
  {
  }

  lemma SuccessorOf<V>(t: HashTable<V>, kept: seq<Node<V>>, all: seq<Node<V>>, v: nat)
    requires t.Valid() && v <= |all| && t.order == kept + all[v..]
    ensures v < |all| ==> all[v].next == At(all, v + 1)
  {
    if v < |all| {
      assert t.order[|kept|] == all[v];
      assert v + 1 < |all| ==> t.order[|kept| + 1] == all[v + 1];
    }
  }

  /** The turn for element v: if it is the user's, taking it out of the list leaves the kept ones and what follows. */
  lemma KeptStep(all: seq<Node<Alias>>, v: nat)
    requires v < |all| && Distinct(all)
    ensures var order, next := Kept(all[..v]) + all[v..], Kept(all[..v + 1]) + all[v + 1..];
      && all[v] in order
      && (all[v].value.kind != 'u' ==> next == order)
      && (all[v].value.kind == 'u' ==> forall k :: 0 <= k < |order| && order[k] == all[v] ==> Without(order, k) == next)
  {
    NotKeptYet(all, v);
    KeptNext(all, v);
    hide Kept, Distinct;
    AtTheSeam(Kept(all[..v]), all, v);
  }

  /** What taking the first element of the second part out of two parts leaves. */
  lemma AtTheSeam<V>(a: seq<Node<V>>, s: seq<Node<V>>, v: nat)
    requires v < |s| && s[v] !in a && s[v] !in s[v + 1..]
    ensures s[v] in a + s[v..] && a + [s[v]] + s[v + 1..] == a + s[v..] && a + [] == a
    ensures forall k :: 0 <= k < |a + s[v..]| && (a + s[v..])[k] == s[v] ==> Without(a + s[v..], k) == a + s[v + 1..]
  {
    var t := a + s[v..];
    SeamOnce(a, s, v);
    SeamRemoved(a, s, v);
    SeamJoined(a, s, v);
    hide Without;
    forall k | 0 <= k < |t| && t[k] == s[v]
      ensures Without(t, k) == a + s[v + 1..]
    {
      assert k == |a|;
    }
  }

  lemma SeamOnce<V>(a: seq<Node<V>>, s: seq<Node<V>>, v: nat)
    requires v < |s| && s[v] !in a && s[v] !in s[v + 1..]
    ensures (a + s[v..])[|a|] == s[v]
    ensures forall k :: 0 <= k < |a + s[v..]| && (a + s[v..])[k] == s[v] ==> k == |a|
  {
    assert forall j :: |a| < j < |a + s[v..]| ==> (a + s[v..])[j] == s[v + 1..][j - |a| - 1];
  }

  lemma SeamRemoved<V>(a: seq<Node<V>>, s: seq<Node<V>>, v: nat)
    requires v < |s|
    ensures Without(a + s[v..], |a|) == a + s[v + 1..]
  {
    var t := a + s[v..];
    assert t[..|a|] == a;
    assert t[|a| + 1..] == s[v + 1..];
  }

  lemma SeamJoined<V>(a: seq<Node<V>>, s: seq<Node<V>>, v: nat)
    requires v < |s|
    ensures a + [s[v]] + s[v + 1..] == a + s[v..] && a + [] == a
  {
  }

  lemma NotKeptYet(all: seq<Node<Alias>>, v: nat)
    requires v < |all| && Distinct(all)
    ensures all[v] !in Kept(all[..v]) && all[v] !in all[v + 1..]
  {
    KeptWithin(all[..v]);
    hide Kept;
    assert all[v] !in all[..v];
  }

  lemma KeptNext(all: seq<Node<Alias>>, v: nat)
    requires v < |all|
    ensures Kept(all[..v + 1]) == Kept(all[..v]) + if all[v].value.kind == 'u' then [] else [all[v]]
  {
    assert all[..v + 1][..v] == all[..v];
  }

  /**
   An alias works exactly if what it was made for is the name of a command. One made for another alias is accepted,
   but stands for nothing: only one replacement is made.
   */
  lemma AliasWorksExactly(r: CommandRegistry, alias: Node<Alias>)
    requires r.Valid() && alias in r.aliases.order
    ensures r.Lookup(alias.key) != null <==> exists c :: c in r.commands.order && c.key == alias.value.orgCmd
    ensures r.Lookup(alias.key) != null ==> r.Lookup(alias.key).key == alias.value.orgCmd
  {
    ByKeyUnique(r.aliases.order, alias);
    ByKeyIs(r.commands.order, alias.value.orgCmd);
  }

  lemma FoundByKey<V>(s: seq<Node<V>>, key: string, out: Node?<V>)
    requires UniqueKeys(s)
    requires out != null ==> out in s && out.key == key
    requires out == null ==> forall n :: n in s ==> n.key != key
    ensures out == ByKey(s, key)
  {
    if out == null {
      ByKeyIs(s, key);
    } else {
      ByKeyUnique(s, out);
    }
  }
}
