/** The symbol tables: growing, sorting, binary search (lib/sylvan/symbol.c). */
module Symbols {
  import opened Codes

  datatype Symbol = Symbol(name: string, addr: nat)

  // ----- comparing names -----

  /** strcmp: the end of a string is smaller than any character. */
  function StrCmp(l: string, r: string): (c: int)
    ensures c == 0 <==> l == r
  {
    if l == [] then (if r == [] then 0 else -1)
    else if r == [] then 1
    else if l[0] != r[0] then (if l[0] < r[0] then -1 else 1)
    else
      assert l[1..] == r[1..] ==> l == [l[0]] + l[1..] == r;
      StrCmp(l[1..], r[1..])
  }

  /** The first character in which two strings differ decides; a string is smaller than any longer one it starts. */
  lemma {:induction false} StrCmpIsLexicographic(l: string, r: string, k: nat)
    requires k <= |l| && k <= |r| && l[..k] == r[..k]
    ensures k < |l| && k < |r| && l[k] < r[k] ==> StrCmp(l, r) < 0
    ensures k < |l| && k < |r| && l[k] > r[k] ==> StrCmp(l, r) > 0
    ensures k == |l| < |r| ==> StrCmp(l, r) < 0
    ensures k == |r| < |l| ==> StrCmp(l, r) > 0
  {
    if k > 0 {
      assert l[0] == l[..k][0] && r[0] == r[..k][0];
      assert l[1..][..k - 1] == l[..k][1..] && r[1..][..k - 1] == r[..k][1..];
      StrCmpIsLexicographic(l[1..], r[1..], k - 1);
    }
  }

  lemma {:induction false} StrCmpSwaps(l: string, r: string)
    ensures StrCmp(l, r) < 0 <==> StrCmp(r, l) > 0
  {
    if l != [] && r != [] && l[0] == r[0] {
      StrCmpSwaps(l[1..], r[1..]);
    }
  }

  lemma {:induction false} StrCmpTransitive(a: string, b: string, c: string)
    requires StrCmp(a, b) <= 0 && StrCmp(b, c) <= 0
    ensures StrCmp(a, c) <= 0
  {
    if a != [] && b != [] && c != [] && a[0] == b[0] == c[0] {
      StrCmpTransitive(a[1..], b[1..], c[1..]);
    }
  }

  ghost predicate Sorted(s: seq<Symbol>) {
    forall i, j :: 0 <= i < j < |s| ==> StrCmp(s[i].name, s[j].name) <= 0
  }

  ghost predicate Named(s: seq<Symbol>, name: string) {
    exists i :: 0 <= i < |s| && s[i].name == name
  }

  // ----- binary search -----

  datatype Found = NotThere | There(index: nat)

  /** Where a binary search of s[lo..hi] ends. */
  function Search(s: seq<Symbol>, name: string, lo: nat, hi: nat): (f: Found)
    requires lo <= hi <= |s|
    ensures f.There? ==> lo <= f.index < hi && s[f.index].name == name
    decreases hi - lo
  {
    if lo == hi then NotThere
    else
      var mid := (lo + hi) / 2;
      var c := StrCmp(name, s[mid].name);
      if c < 0 then Search(s, name, lo, mid)
      else if c > 0 then Search(s, name, mid + 1, hi)
      else There(mid)
  }

  /** In a sorted table a binary search finds every name that is there. */
  lemma {:induction false} SearchIsExact(s: seq<Symbol>, name: string, lo: nat, hi: nat)
    requires lo <= hi <= |s| && Sorted(s)
    ensures Search(s, name, lo, hi).There? <==> exists i :: lo <= i < hi && s[i].name == name
    decreases hi - lo
  {
    hide StrCmp, Sorted;
    if lo < hi {
      var mid := (lo + hi) / 2;
      var c := StrCmp(name, s[mid].name);
      SideOf(s, name, mid);
      if c < 0 {
        SearchIsExact(s, name, lo, mid);
      } else if c > 0 {
        SearchIsExact(s, name, mid + 1, hi);
      }
    }
  }

  /** The comparison in the middle tells on which side a name can only be. */
  lemma SideOf(s: seq<Symbol>, name: string, mid: nat)
    requires mid < |s| && Sorted(s)
    ensures forall i :: 0 <= i < |s| && s[i].name == name ==>
      (StrCmp(name, s[mid].name) < 0 ==> i < mid) && (StrCmp(name, s[mid].name) > 0 ==> mid < i)
  {
    hide StrCmp;
    StrCmpSwaps(name, s[mid].name);
    assert forall i :: mid < i < |s| ==> StrCmp(s[mid].name, s[i].name) <= 0;
  }

  ghost predicate DistinctNames(s: seq<Symbol>) {
    forall i, j :: 0 <= i < j < |s| ==> s[i].name != s[j].name
  }

  /** Every name of the table is found. */
  ghost predicate AllFound(s: seq<Symbol>) {
    forall i :: 0 <= i < |s| ==> Search(s, s[i].name, 0, |s|).There?
  }

  /** If the search of a part finds every name in it, each of its halves does. */
  lemma FoundInHalf(s: seq<Symbol>, lo: nat, hi: nat, i: nat)
    requires lo <= i < hi <= |s| && DistinctNames(s) && Search(s, s[i].name, lo, hi).There?
    ensures var mid := (lo + hi) / 2;
      && (i < mid ==> StrCmp(s[i].name, s[mid].name) < 0 && Search(s, s[i].name, lo, mid).There?)
      && (i > mid ==> StrCmp(s[i].name, s[mid].name) > 0 && Search(s, s[i].name, mid + 1, hi).There?)
  {
    hide StrCmp;
    var f := Search(s, s[i].name, lo, hi);
    assert f.index == i;
  }

  lemma {:induction false} FoundMeansSorted(s: seq<Symbol>, lo: nat, hi: nat)
    requires lo <= hi <= |s| && DistinctNames(s)
    requires forall i :: lo <= i < hi ==> Search(s, s[i].name, lo, hi).There?
    ensures forall i, j :: lo <= i < j < hi ==> StrCmp(s[i].name, s[j].name) <= 0
    decreases hi - lo
  {
    hide StrCmp, Search, DistinctNames;
    if lo < hi {
      var mid := (lo + hi) / 2;
      forall i | lo <= i < hi
        ensures i < mid ==> StrCmp(s[i].name, s[mid].name) <= 0 && Search(s, s[i].name, lo, mid).There?
        ensures i > mid ==> StrCmp(s[mid].name, s[i].name) <= 0 && Search(s, s[i].name, mid + 1, hi).There?
      {
        FoundInHalf(s, lo, hi, i);
        StrCmpSwaps(s[mid].name, s[i].name);
      }
      FoundMeansSorted(s, lo, mid);
      FoundMeansSorted(s, mid + 1, hi);
      forall i, j | lo <= i < j < hi
        ensures StrCmp(s[i].name, s[j].name) <= 0
      {
        if i < mid < j {
          StrCmpTransitive(s[i].name, s[mid].name, s[j].name);
        }
      }
    }
  }

  /** Among distinct names a binary search finds every one exactly when the table is sorted. */
  lemma AllFoundExactlyWhenSorted(s: seq<Symbol>)
    requires DistinctNames(s)
    ensures AllFound(s) <==> Sorted(s)
  {
    if Sorted(s) {
      forall i | 0 <= i < |s|
        ensures Search(s, s[i].name, 0, |s|).There?
      {
        SearchIsExact(s, s[i].name, 0, |s|);
      }
    }
    if AllFound(s) {
      FoundMeansSorted(s, 0, |s|);
    }
  }

  const UNSORTED: seq<Symbol> := [Symbol("b", 1), Symbol("c", 2), Symbol("a", 3)]

  /** In a table that is not sorted it can miss a name: here it looks at c and then at b, and gives up. */
  lemma UnsortedSearchMisses()
    ensures Named(UNSORTED, "a") && DistinctNames(UNSORTED) && Search(UNSORTED, "a", 0, |UNSORTED|) == NotThere
  {
    assert UNSORTED[2].name == "a";
    assert StrCmp("a", "c") < 0 && StrCmp("a", "b") < 0;
    assert Search(UNSORTED, "a", 0, 1) == NotThere;
  }

  class SymbolTable {
    var symbols: array<Symbol>
    var count: nat

    ghost predicate Valid()
      reads this
    {
      count <= symbols.Length && symbols.Length > 0
    }

    ghost function Contents(): seq<Symbol>
      requires Valid()
      reads this, symbols
    {
      symbols[..count]
    }

    /** sylvan_sym_table_init. */
    constructor ()
      ensures Valid() && Contents() == [] && fresh(symbols) && symbols.Length == 256
    {
      count := 0;
      symbols := new Symbol[256](_ => Symbol("", 0));
    }

    /** sylvan_sym_add: a full table doubles its capacity first. */
    method Add(name: string, addr: nat)
      requires Valid()
      modifies this, symbols
      ensures Valid() && Contents() == old(Contents()) + [Symbol(name, addr)]
      ensures symbols == old(symbols) || fresh(symbols)
      ensures symbols.Length == if old(count) == old(symbols.Length) then 2 * old(symbols.Length) else old(symbols.Length)
    {
      if count == symbols.Length {
        var larger := new Symbol[symbols.Length * 2](_ => Symbol("", 0));
        forall i | 0 <= i < count {
          larger[i] := symbols[i];
        }
        assert larger[..count] == symbols[..count];
        symbols := larger;
      }
      symbols[count] := Symbol(name, addr);
      count := count + 1;
    }

    method AddAll(entries: seq<Symbol>)
      requires Valid()
      modifies this, symbols
      ensures Valid() && Contents() == old(Contents()) + entries
      ensures symbols == old(symbols) || fresh(symbols)
    {
      for i := 0 to |entries|
        invariant Valid() && Contents() == old(Contents()) + entries[..i]
        invariant symbols == old(symbols) || fresh(symbols)
      {
        Add(entries[i].name, entries[i].addr);
      }
      assert entries[..|entries|] == entries;
    }

    /** sym_lookup, the binary search. */
    method Lookup(name: string) returns (f: Found)
      requires Valid()
      ensures f == Search(Contents(), name, 0, count)
    {
      var lo, hi := 0, count;
      while lo < hi
        invariant lo <= hi <= count
        invariant Search(Contents(), name, lo, hi) == Search(Contents(), name, 0, count)
      {
        var mid := (lo + hi) / 2;
        var c := StrCmp(name, symbols[mid].name);
        if c < 0 {
          hi := mid;
        } else if c > 0 {
          lo := mid + 1;
        } else {
          return There(mid);
        }
      }
      return NotThere;
    }

    /** The sort step: the entries in use end up sorted by name. */
    method Sort()
      requires Valid()
      modifies symbols
      ensures Valid() && Sorted(Contents()) && multiset(Contents()) == multiset(old(Contents()))
    {
      hide StrCmp;
      for i := 0 to count
        invariant SortedTo(symbols[..count], i)
        invariant multiset(symbols[..count]) == multiset(old(symbols[..count]))
      {
        Insert(i);
      }
    }

    /** The entry after a sorted part moves down to its place in it. */
    method Insert(i: nat)
      requires Valid() && i < count && SortedTo(symbols[..count], i)
      modifies symbols
      ensures SortedTo(symbols[..count], i + 1) && multiset(symbols[..count]) == multiset(old(symbols[..count]))
    {
      hide StrCmp;
      var j: nat := i;
      while j > 0 && StrCmp(symbols[j - 1].name, symbols[j].name) > 0
        invariant j <= i && SortedBut(symbols[..count], i + 1, j)
        invariant multiset(symbols[..count]) == multiset(old(symbols[..count]))
      {
        ghost var s := symbols[..count];
        SwapDown(s, i + 1, j);
        symbols[j - 1], symbols[j] := symbols[j], symbols[j - 1];
        assert symbols[..count] == Swapped(s, j);
        j := j - 1;
      }
      SortedAt(symbols[..count], i + 1, j);
    }
  }

  ghost predicate SortedTo(s: seq<Symbol>, n: nat) {
    n <= |s| && forall a, b :: 0 <= a < b < n ==> StrCmp(s[a].name, s[b].name) <= 0
  }

  /** Sorted up to n, except that the entry at j may belong further down. */
  ghost predicate SortedBut(s: seq<Symbol>, n: nat, j: nat) {
    j < n <= |s| && forall a, b :: 0 <= a < b < n && b != j ==> StrCmp(s[a].name, s[b].name) <= 0
  }

  ghost function Swapped(s: seq<Symbol>, j: nat): seq<Symbol>
    requires 0 < j < |s|
  {
    s[j - 1 := s[j]][j := s[j - 1]]
  }

  lemma SwapDown(s: seq<Symbol>, n: nat, j: nat)
    requires 0 < j < n && SortedBut(s, n, j) && StrCmp(s[j - 1].name, s[j].name) > 0
    ensures SortedBut(Swapped(s, j), n, j - 1) && multiset(Swapped(s, j)) == multiset(s)
  {
    hide StrCmp;
    StrCmpSwaps(s[j].name, s[j - 1].name);
    StrCmpSwaps(s[j - 1].name, s[j].name);
    var t := Swapped(s, j);
    forall a, b | 0 <= a < b < n && b != j - 1
      ensures StrCmp(t[a].name, t[b].name) <= 0
    {
      if b == j && a < j - 1 {
        assert StrCmp(s[a].name, s[j - 1].name) <= 0;
      } else if b > j {
        assert StrCmp(s[if a == j then j - 1 else if a == j - 1 then j else a].name, s[b].name) <= 0;
      }
    }
  }

  lemma SortedAt(s: seq<Symbol>, n: nat, j: nat)
    requires SortedBut(s, n, j) && (j > 0 ==> StrCmp(s[j - 1].name, s[j].name) <= 0)
    ensures SortedTo(s, n)
  {
    hide StrCmp;
    forall a | 0 <= a < j
      ensures StrCmp(s[a].name, s[j].name) <= 0
    {
      if a < j - 1 {
        StrCmpTransitive(s[a].name, s[j - 1].name, s[j].name);
      }
    }
  }

  // ----- the two tables of an inferior -----

  /** What the DWARF and ELF readers deliver: nothing usable, or the entries in the order in which they are met. */
  datatype Reading = Unreadable | Entries(symbols: seq<Symbol>)

  ghost function Given(r: Reading): seq<Symbol> {
    if r.Entries? then r.symbols else []
  }

  /** A fresh table with what one reader delivers. */
  method ReadTable(r: Reading) returns (t: SymbolTable)
    ensures t.Valid() && t.Contents() == Given(r) && fresh(t) && fresh(t.symbols)
  {
    t := new SymbolTable();
    if r.Entries? {
      t.AddAll(r.symbols);
    }
  }

  class SymbolTables {
    var dwarfTable: SymbolTable
    var elfTable: SymbolTable

    ghost predicate Valid()
      reads this, dwarfTable, elfTable
    {
      && dwarfTable.Valid() && elfTable.Valid()
      && dwarfTable != elfTable && dwarfTable.symbols != elfTable.symbols
    }

    constructor ()
      ensures Valid() && dwarfTable.Contents() == [] && elfTable.Contents() == []
      ensures fresh(dwarfTable) && fresh(elfTable) && fresh(dwarfTable.symbols) && fresh(elfTable.symbols)
    {
      dwarfTable := new SymbolTable();
      elfTable := new SymbolTable();
    }

    /**
     sylvan_sym_load_tables: both tables start afresh. Missing DWARF data is no error; an unreadable ELF file is one,
     and then the DWARF entries stay in the order in which they were read.
     */
    method LoadTables(dwarf: Reading, elf: Reading) returns (code: Code)
      requires Valid()
      modifies this
      ensures Valid() && fresh(dwarfTable) && fresh(elfTable)
      ensures code == if elf.Unreadable? then ElfFailed else Ok
      ensures code == Ok ==>
        && Sorted(dwarfTable.Contents()) && multiset(dwarfTable.Contents()) == multiset(Given(dwarf))
        && Sorted(elfTable.Contents()) && multiset(elfTable.Contents()) == multiset(Given(elf))
      ensures code != Ok ==> dwarfTable.Contents() == Given(dwarf) && elfTable.Contents() == []
      ensures DistinctNames(Given(dwarf)) && code != Ok ==>
        (AllFound(dwarfTable.Contents()) <==> Sorted(Given(dwarf)))
    {
      hide Sorted;
      dwarfTable := ReadTable(dwarf);
      elfTable := ReadTable(elf);
      if elf.Unreadable? {
        if DistinctNames(Given(dwarf)) {
          AllFoundExactlyWhenSorted(Given(dwarf));
        }
        return ElfFailed;
      }
      dwarfTable.Sort();
      elfTable.Sort();
      return Ok;
    }

    /** sylvan_get_label_addr: the DWARF table is asked first. */
    method GetLabelAddr(name: string) returns (code: Code, addr: nat)
      requires Valid()
      ensures var d, e := Search(dwarfTable.Contents(), name, 0, dwarfTable.count),
                          Search(elfTable.Contents(), name, 0, elfTable.count);
        && code == (if d.There? || e.There? then Ok else SymbolNotFound)
        && (d.There? ==> addr == dwarfTable.Contents()[d.index].addr)
        && (d.NotThere? && e.There? ==> addr == elfTable.Contents()[e.index].addr)
    {
      addr := 0;
      var found := dwarfTable.Lookup(name);
      if found.There? {
        addr := dwarfTable.symbols[found.index].addr;
      } else {
        found := elfTable.Lookup(name);
        if found.NotThere? {
          return SymbolNotFound, addr;
        }
        addr := elfTable.symbols[found.index].addr;
      }
      return Ok, addr;
    }

    /**
     After a successful load the lookup is exact: it succeeds just for the names that were read, gives the address of
     an entry with that name, and one from the DWARF data if there is any. After a failed load the search goes through
     the DWARF entries as they were read: an address that is found belongs to the name, and which names are found is
     what AllFoundExactlyWhenSorted says.
     */
    method LoadAndGet(dwarf: Reading, elf: Reading, name: string) returns (loaded: Code, code: Code, addr: nat)
      requires Valid()
      modifies this
      ensures loaded == (if elf.Unreadable? then ElfFailed else Ok) && code in {Ok, SymbolNotFound}
      ensures loaded == Ok ==>
        && (code == Ok <==> Named(Given(dwarf), name) || Named(Given(elf), name))
        && (code == Ok ==> Symbol(name, addr) in Given(dwarf) + Given(elf))
        && (Named(Given(dwarf), name) ==> Symbol(name, addr) in Given(dwarf))
      ensures loaded != Ok ==>
        && (code == Ok <==> Search(Given(dwarf), name, 0, |Given(dwarf)|).There?)
        && (code == Ok ==> Symbol(name, addr) in Given(dwarf))
        && (Sorted(Given(dwarf)) ==> (code == Ok <==> Named(Given(dwarf), name)))
    {
      loaded := LoadTables(dwarf, elf);
      code, addr := GetLabelAddr(name);
      if loaded == Ok {
        LookupIsExact(dwarfTable.Contents(), Given(dwarf), name);
        LookupIsExact(elfTable.Contents(), Given(elf), name);
      } else {
        UnsortedLookup(Given(dwarf), name);
      }
    }

    /** A load that fails on the ELF file, and a lookup that then misses a name that was read. */
    method FailedLoadMisses() returns (dwarf: Reading, loaded: Code, code: Code)
      requires Valid()
      modifies this
      ensures Named(Given(dwarf), "a") && DistinctNames(Given(dwarf)) && loaded == ElfFailed && code == SymbolNotFound
    {
      hide Search, StrCmp, Named, Sorted, DistinctNames;
      dwarf := Entries(UNSORTED);
      UnsortedSearchMisses();
      var addr;
      loaded, code, addr := LoadAndGet(dwarf, Unreadable, "a");
    }
  }

  /** A sorted arrangement of some entries finds just their names, each with one of their addresses. */
  lemma LookupIsExact(s: seq<Symbol>, given: seq<Symbol>, name: string)
    requires Sorted(s) && multiset(s) == multiset(given)
    ensures var f := Search(s, name, 0, |s|);
            (f.There? <==> Named(given, name)) && (f.There? ==> Symbol(name, s[f.index].addr) in given)
  {
    SearchIsExact(s, name, 0, |s|);
    var f := Search(s, name, 0, |s|);
    if f.There? {
      assert s[f.index] in multiset(s);
      assert s[f.index] in given && s[f.index] == Symbol(name, s[f.index].addr);
    }
    if i :| 0 <= i < |given| && given[i].name == name {
      assert given[i] in multiset(given);
      assert given[i] in s;
    }
  }

  /** Even when the table was left unsorted, what is found belongs to the name. */
  lemma UnsortedLookup(s: seq<Symbol>, name: string)
    ensures var f := Search(s, name, 0, |s|);
      && (f.There? ==> Symbol(name, s[f.index].addr) in s)
      && (Sorted(s) ==> (f.There? <==> Named(s, name)))
  {
    var f := Search(s, name, 0, |s|);
    if f.There? {
      assert s[f.index] == Symbol(name, s[f.index].addr);
    }
    if Sorted(s) {
      SearchIsExact(s, name, 0, |s|);
    }
  }
}
