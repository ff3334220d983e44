/** The data-check string: the entries sorted by name (stably, as
    `Array.prototype.sort` does), each written `name=value`, joined by `\n`. */
module Canonical {
  import opened Base
  import opened FormUrlEncoded
  import TextOrder

  const Newline: byte := 0x0A

  ghost predicate SortedByName(s: seq<Entry>) {
    forall i, j :: 0 <= i < j < |s| ==> TextOrder.Le(s[i].name, s[j].name)
  }

  lemma LowerBoundKept(lo: Text, x: Entry, s: seq<Entry>, r: seq<Entry>)
    requires multiset(r) == multiset{x} + multiset(s)
    requires TextOrder.Le(lo, x.name)
    requires forall j :: 0 <= j < |s| ==> TextOrder.Le(lo, s[j].name)
    ensures forall k :: 0 <= k < |r| ==> TextOrder.Le(lo, r[k].name)
  {
    forall k | 0 <= k < |r|
      ensures TextOrder.Le(lo, r[k].name)
    {
      assert r[k] in multiset(r);
      if r[k] != x {
        assert r[k] in multiset(s);
        assert r[k] in s;
      }
    }
  }

  lemma FrontSorted(x: Entry, sorted: seq<Entry>)
    requires SortedByName(sorted)
    requires sorted == [] || TextOrder.Le(x.name, sorted[0].name)
    ensures SortedByName([x] + sorted)
  {
    forall j | 0 <= j < |sorted|
      ensures TextOrder.Le(x.name, sorted[j].name)
    {
      if j > 0 {
        TextOrder.LeTransitive(x.name, sorted[0].name, sorted[j].name);
      }
    }
  }

  lemma ConsSorted(head: Entry, rest: seq<Entry>)
    requires SortedByName(rest)
    requires forall k :: 0 <= k < |rest| ==> TextOrder.Le(head.name, rest[k].name)
    ensures SortedByName([head] + rest)
  {
  }

  /** Places `x` in front of the first entry whose name is not smaller, so
      that it precedes the entries that share its name. */
  function Insert(x: Entry, sorted: seq<Entry>): (r: seq<Entry>)
    requires SortedByName(sorted)
    ensures SortedByName(r)
    ensures multiset(r) == multiset{x} + multiset(sorted)
  {
    if sorted == [] || TextOrder.Le(x.name, sorted[0].name) then
      FrontSorted(x, sorted);
      [x] + sorted
    else
      var rest := Insert(x, sorted[1..]);
      TextOrder.LeTotal(x.name, sorted[0].name);
      LowerBoundKept(sorted[0].name, x, sorted[1..], rest);
      ConsSorted(sorted[0], rest);
      assert sorted == [sorted[0]] + sorted[1..];
      [sorted[0]] + rest
  }

  /** Insertion sort by name: a sorted permutation of its input. */
  function SortByName(entries: seq<Entry>): (r: seq<Entry>)
    ensures SortedByName(r)
    ensures multiset(r) == multiset(entries)
  {
    if entries == [] then []
    else
      assert entries == [entries[0]] + entries[1..];
      Insert(entries[0], SortByName(entries[1..]))
  }

  // ---------------------------------------------------------------------
  // Stability

  lemma InsertStep(x: Entry, sorted: seq<Entry>)
    requires SortedByName(sorted)
    requires sorted != [] && !TextOrder.Le(x.name, sorted[0].name)
    ensures Insert(x, sorted) == [sorted[0]] + Insert(x, sorted[1..])
    ensures sorted[0].name != x.name
  {
    TextOrder.LeReflexive(x.name);
  }

  lemma OnlyNameSwap(a: Entry, b: Entry, c: seq<Entry>, name: Text)
    requires a.name != b.name
    ensures OnlyName([a], name) + (OnlyName([b], name) + c) == OnlyName([b], name) + (OnlyName([a], name) + c)
  {
    OnlyNameSingle(a, name);
    OnlyNameSingle(b, name);
  }

  lemma {:induction false} InsertOnlyName(x: Entry, sorted: seq<Entry>, name: Text)
    requires SortedByName(sorted)
    ensures OnlyName(Insert(x, sorted), name) == OnlyName([x] + sorted, name)
  {
    if sorted != [] && !TextOrder.Le(x.name, sorted[0].name) {
      var s0, tail := sorted[0], sorted[1..];
      var rest := Insert(x, tail);
      InsertStep(x, sorted);
      InsertOnlyName(x, tail, name);
      OnlyNameAppend([s0], rest, name);
      OnlyNameAppend([x], tail, name);
      OnlyNameAppend([x], sorted, name);
      OnlyNameAppend([s0], tail, name);
      assert sorted == [s0] + tail;
      OnlyNameSwap(s0, x, OnlyName(tail, name), name);
    }
  }

  lemma SortStep(entries: seq<Entry>)
    requires entries != []
    ensures SortByName(entries) == Insert(entries[0], SortByName(entries[1..]))
  {
  }

  lemma StableStep(e0: Entry, tail: seq<Entry>, sortedTail: seq<Entry>, inserted: seq<Entry>, name: Text)
    requires OnlyName(sortedTail, name) == OnlyName(tail, name)
    requires OnlyName(inserted, name) == OnlyName([e0] + sortedTail, name)
    ensures OnlyName(inserted, name) == OnlyName([e0] + tail, name)
  {
    OnlyNameAppend([e0], sortedTail, name);
    OnlyNameAppend([e0], tail, name);
  }

  /** The sort is stable: entries that share a name keep their input order. */
  lemma {:induction false} SortStable(entries: seq<Entry>, name: Text)
    ensures OnlyName(SortByName(entries), name) == OnlyName(entries, name)
  {
    if entries != [] {
      var e0, tail := entries[0], entries[1..];
      var sorted := SortByName(tail);
      SortStep(entries);
      SortStable(tail, name);
      InsertOnlyName(e0, sorted, name);
      StableStep(e0, tail, sorted, Insert(e0, sorted), name);
      assert entries == [e0] + tail;
    }
  }

  // ---------------------------------------------------------------------
  // Independence of the input order

  lemma NamesDetermineSub(m: multiset<Entry>, sub: multiset<Entry>)
    requires sub <= m
    requires NamesDetermine(m)
    ensures NamesDetermine(sub)
  {
  }

  /** The first entries of two sorted arrangements of the same entries agree. */
  lemma SortedHeads(s: seq<Entry>, t: seq<Entry>)
    requires SortedByName(s) && SortedByName(t)
    requires multiset(s) == multiset(t)
    requires NamesDetermine(multiset(s))
    requires s != [] && t != []
    ensures s[0] == t[0]
  {
    assert s[0] in multiset(t);
    assert t[0] in multiset(s);
    var i :| 0 <= i < |s| && s[i] == t[0];
    var j :| 0 <= j < |t| && t[j] == s[0];
    TextOrder.LeReflexive(s[0].name);
    TextOrder.LeReflexive(t[0].name);
    assert TextOrder.Le(s[0].name, s[i].name);
    assert TextOrder.Le(t[0].name, t[j].name);
    TextOrder.LeAntisymmetric(s[0].name, t[0].name);
  }

  lemma SortedTail(s: seq<Entry>)
    requires SortedByName(s) && s != []
    ensures SortedByName(s[1..])
  {
    forall i, j | 0 <= i < j < |s| - 1
      ensures TextOrder.Le(s[1..][i].name, s[1..][j].name)
    {
      assert s[1..][i] == s[i + 1] && s[1..][j] == s[j + 1];
    }
  }

  lemma TailMultiset(s: seq<Entry>, t: seq<Entry>)
    requires s != [] && t != [] && s[0] == t[0]
    requires multiset(s) == multiset(t)
    ensures multiset(s[1..]) == multiset(t[1..])
  {
    assert s == [s[0]] + s[1..];
    assert t == [t[0]] + t[1..];
    assert multiset(s[1..]) == multiset(s) - multiset{s[0]};
    assert multiset(t[1..]) == multiset(t) - multiset{t[0]};
  }

  /** Two sorted arrangements of the same entries coincide when no name
      carries two different values. */
  lemma {:induction false} SortedUnique(s: seq<Entry>, t: seq<Entry>)
    requires SortedByName(s) && SortedByName(t)
    requires multiset(s) == multiset(t)
    requires NamesDetermine(multiset(s))
    ensures s == t
  {
    if s == [] {
      assert |multiset(t)| == 0;
    } else {
      assert |t| == |multiset(t)| == |multiset(s)| == |s|;
      SortedHeads(s, t);
      TailMultiset(s, t);
      SortedTail(s);
      SortedTail(t);
      assert s == [s[0]] + s[1..];
      NamesDetermineSub(multiset(s), multiset(s[1..]));
      SortedUnique(s[1..], t[1..]);
      assert t == [t[0]] + t[1..];
    }
  }

  /** Sorting forgets the input order whenever no name carries two values. */
  lemma SortOrderIndependent(a: seq<Entry>, b: seq<Entry>)
    requires multiset(a) == multiset(b)
    requires NamesDetermine(multiset(a))
    ensures SortByName(a) == SortByName(b)
  {
    SortedUnique(SortByName(a), SortByName(b));
  }

  ghost predicate DistinctNames(s: seq<Entry>) {
    forall i, j :: 0 <= i < j < |s| ==> s[i].name != s[j].name
  }

  lemma DistinctNamesDetermine(s: seq<Entry>)
    requires DistinctNames(s)
    ensures NamesDetermine(multiset(s))
  {
    forall x, y | x in multiset(s) && y in multiset(s) && x.name == y.name
      ensures x == y
    {
      var i :| 0 <= i < |s| && s[i] == x;
      var j :| 0 <= j < |s| && s[j] == y;
      assert i == j;
    }
  }

  /** For entries with distinct names, any reordering sorts to the same list. */
  lemma DistinctSortOrderIndependent(a: seq<Entry>, b: seq<Entry>)
    requires DistinctNames(a)
    requires multiset(a) == multiset(b)
    ensures SortByName(a) == SortByName(b)
  {
    DistinctNamesDetermine(a);
    SortOrderIndependent(a, b);
  }

  // ---------------------------------------------------------------------
  // The data-check string

  function Line(e: Entry): Text {
    e.name + [Eq] + e.value
  }

  function Lines(entries: seq<Entry>): (r: seq<Text>)
    ensures |r| == |entries|
    ensures forall i :: 0 <= i < |r| ==> r[i] == Line(entries[i])
  {
    if entries == [] then [] else [Line(entries[0])] + Lines(entries[1..])
  }

  /** `entries.map(([k, v]) => `${k}=${v}`).join('\n')`. */
  function DataString(entries: seq<Entry>): Text {
    if entries == [] then [] else Join(Lines(entries), Newline)
  }

  /** When no name or value holds a newline, the data string splits back into
      exactly one `name=value` line per entry: no empty line, no trailing `\n`. */
  lemma DataStringLines(entries: seq<Entry>)
    requires forall i :: 0 <= i < |entries| ==>
               Newline !in entries[i].name && Newline !in entries[i].value
    ensures entries != [] ==> Split(DataString(entries), Newline) == Lines(entries)
    ensures entries == [] ==> DataString(entries) == []
  {
    if entries != [] {
      var ls := Lines(entries);
      forall i | 0 <= i < |ls|
        ensures Newline !in ls[i]
      {
        assert ls[i] == entries[i].name + [Eq] + entries[i].value;
      }
      SplitJoin(ls, Newline);
    }
  }

  /** Without that condition the string no longer determines the entries: a
      value holding `\n` followed by a `name=value` line imitates a second entry. */
  lemma DataStringAmbiguous(a: Text, v: Text, b: Text, w: Text)
    ensures DataString([Entry(a, v + [Newline] + Line(Entry(b, w)))])
         == DataString([Entry(a, v), Entry(b, w)])
  {
    var one := [Entry(a, v + [Newline] + Line(Entry(b, w)))];
    var two := [Entry(a, v), Entry(b, w)];
    var l1, l2 := Line(Entry(a, v)), Line(Entry(b, w));
    assert Lines(one) == [Line(one[0])];
    assert Lines(two) == [l1, l2];
    assert [l1, l2][1..] == [l2];
    assert Join([l1, l2], Newline) == l1 + [Newline] + l2;
    assert Line(one[0]) == l1 + [Newline] + l2;
  }

  /** An example: `{b=2, a=1}` gives `a=1\nb=2` (0x61 is `a`,
      0x62 is `b`, 0x31 is `1`, 0x32 is `2`). */
  lemma SortedExample()
    ensures DataString(SortByName([Entry([0x62], [0x32]), Entry([0x61], [0x31])]))
         == [0x61, Eq, 0x31, Newline, 0x62, Eq, 0x32]
  {
    var a, b := Entry([0x61], [0x31]), Entry([0x62], [0x32]);
    ExampleSort(a, b);
    ExampleDataString(a, b);
  }

  lemma ExampleSort(a: Entry, b: Entry)
    requires a.name == [0x61] && b.name == [0x62]
    ensures SortByName([b, a]) == [a, b]
  {
    assert [b, a][1..] == [a];
    assert SortByName([a]) == [a] by {
      assert [a][1..] == [];
    }
    assert !TextOrder.Le(b.name, a.name);
    assert Insert(b, [a]) == [a, b] by {
      assert [a][1..] == [];
    }
  }

  lemma ExampleDataString(a: Entry, b: Entry)
    ensures DataString([a, b]) == Line(a) + [Newline] + Line(b)
  {
    var ls := Lines([a, b]);
    assert ls == [Line(a), Line(b)];
    assert ls[1..] == [Line(b)];
    assert Join(ls[1..], Newline) == Line(b);
  }
}
