/** The character creator's name list (apps/character_creator/src/gui.rs):
    `EntitiesSortedByName`, a list of (entity, display name) pairs with a
    flag recording that it is sorted, `display_name_entities_added`, which
    adds new names and re-sorts, and the combo box's selected text. */
module SortedNames {
  import opened Common

  type Named = (Entity, string)

  // ---------------------------------------------------------------------
  // String order

  /** `String::cmp`: lexicographic by character, a proper prefix first. */
  predicate LessEq(a: string, b: string)
    decreases |a|
  {
    |a| == 0 || (|b| > 0 && (a[0] < b[0] || (a[0] == b[0] && LessEq(a[1..], b[1..]))))
  }

  lemma {:induction false} LessEqRefl(a: string)
    ensures LessEq(a, a)
    decreases |a|
  {
    if |a| > 0 {
      LessEqRefl(a[1..]);
    }
  }

  lemma {:induction false} LessEqTotal(a: string, b: string)
    ensures LessEq(a, b) || LessEq(b, a)
    decreases |a|
  {
    if |a| > 0 && |b| > 0 && a[0] == b[0] {
      LessEqTotal(a[1..], b[1..]);
    }
  }

  lemma {:induction false} LessEqTrans(a: string, b: string, c: string)
    requires LessEq(a, b) && LessEq(b, c)
    ensures LessEq(a, c)
    decreases |a|
  {
    if |a| > 0 && a[0] == b[0] && b[0] == c[0] {
      LessEqTrans(a[1..], b[1..], c[1..]);
    }
  }

  // ---------------------------------------------------------------------
  // The stable sort by name

  /** Non-decreasing by name. */
  predicate Sorted(s: seq<Named>) {
    forall i, j :: 0 <= i < j < |s| ==> LessEq(s[i].1, s[j].1)
  }

  /** `x` placed after every leading entry whose name is not greater, so
      an entry never overtakes an earlier one with the same name. */
  function Insert(s: seq<Named>, x: Named): (r: seq<Named>)
    ensures multiset(r) == multiset(s) + multiset{x}
  {
    if s == [] then [x]
    else if LessEq(s[0].1, x.1) then
      assert s == [s[0]] + s[1..];
      [s[0]] + Insert(s[1..], x)
    else [x] + s
  }

  /** `sort_by(|(_, a), (_, b)| a.cmp(b))`, a stable sort by name,
      specified as insertion of each entry in turn. */
  function SortByName(s: seq<Named>): (r: seq<Named>)
    ensures multiset(r) == multiset(s)
  {
    if s == [] then []
    else
      assert s == Init(s) + [Last(s)];
      Insert(SortByName(Init(s)), Last(s))
  }

  lemma {:induction false} InsertSorted(s: seq<Named>, x: Named)
    requires Sorted(s)
    ensures Sorted(Insert(s, x))
  {
    var r := Insert(s, x);
    if s == [] {
    } else if LessEq(s[0].1, x.1) {
      InsertSorted(s[1..], x);
      var t := Insert(s[1..], x);
      assert r == [s[0]] + t;
      forall j | 0 < j < |r|
        ensures LessEq(r[0].1, r[j].1)
      {
        assert r[j] in multiset(t);
        assert r[j] in multiset(s[1..]) + multiset{x};
        if r[j] != x {
          assert r[j] in s[1..];
          var k :| 0 <= k < |s[1..]| && s[1..][k] == r[j];
          assert s[k + 1] == r[j];
        }
      }
    } else {
      LessEqTotal(s[0].1, x.1);
      forall j | 0 <= j < |s|
        ensures LessEq(x.1, s[j].1)
      {
        if j > 0 {
          LessEqTrans(x.1, s[0].1, s[j].1);
        }
      }
    }
  }

  /** The result is sorted by name. */
  lemma {:induction false} SortByNameSorted(s: seq<Named>)
    ensures Sorted(SortByName(s))
  {
    if s != [] {
      SortByNameSorted(Init(s));
      InsertSorted(SortByName(Init(s)), Last(s));
    }
  }

  /** The entries named `n`, in order. */
  function WithName(s: seq<Named>, n: string): seq<Named> {
    if s == [] then []
    else WithName(Init(s), n) + (if Last(s).1 == n then [Last(s)] else [])
  }

  lemma {:induction false} WithNameAppend(a: seq<Named>, b: seq<Named>, n: string)
    ensures WithName(a + b, n) == WithName(a, n) + WithName(b, n)
    decreases |b|
  {
    if b == [] {
      assert a + b == a;
    } else {
      assert Init(a + b) == a + Init(b);
      WithNameAppend(a, Init(b), n);
    }
  }

  /** Inserting into a sorted list adds `x` after every entry of its name. */
  lemma {:induction false} InsertWithName(s: seq<Named>, x: Named, n: string)
    requires Sorted(s)
    ensures WithName(Insert(s, x), n) == WithName(s, n) + (if x.1 == n then [x] else [])
  {
    if s == [] {
      assert WithName([x], n) == WithName([], n) + (if x.1 == n then [x] else []);
    } else if LessEq(s[0].1, x.1) {
      InsertWithName(s[1..], x, n);
      WithNameAppend([s[0]], Insert(s[1..], x), n);
      WithNameAppend([s[0]], s[1..], n);
      assert [s[0]] + s[1..] == s;
    } else {
      WithNameAppend([x], s, n);
      if x.1 == n {
        NoneNamedAfter(s, x.1);
      }
      WithNameAppend(s, [x], n);
      assert WithName([x], n) == WithName([], n) + (if x.1 == n then [x] else []);
    }
  }

  /** In a sorted list whose first name is greater than `n`, nothing is
      named `n`. */
  lemma {:induction false} NoneNamedAfter(s: seq<Named>, n: string)
    requires Sorted(s) && |s| > 0 && !LessEq(s[0].1, n)
    ensures WithName(s, n) == []
    decreases |s|
  {
    if |s| > 1 {
      assert Sorted(Init(s));
      NoneNamedAfter(Init(s), n);
    }
    if |s| > 1 {
      assert LessEq(s[0].1, s[|s| - 1].1);
    }
    LessEqRefl(n);
  }

  /** Stability: the entries of each name keep their relative order. */
  lemma {:induction false} SortByNameStable(s: seq<Named>, n: string)
    ensures WithName(SortByName(s), n) == WithName(s, n)
  {
    if s != [] {
      SortByNameStable(Init(s), n);
      SortByNameSorted(Init(s));
      InsertWithName(SortByName(Init(s)), Last(s), n);
    }
  }

  /** An entry not smaller than anything in the list goes at the end. */
  lemma {:induction false} InsertAtEnd(s: seq<Named>, x: Named)
    requires forall i :: 0 <= i < |s| ==> LessEq(s[i].1, x.1)
    ensures Insert(s, x) == s + [x]
  {
    if s != [] {
      InsertAtEnd(s[1..], x);
      assert [s[0]] + (s[1..] + [x]) == s + [x];
    }
  }

  /** Sorting a sorted list changes nothing. */
  lemma {:induction false} SortedFixed(s: seq<Named>)
    requires Sorted(s)
    ensures SortByName(s) == s
  {
    if s != [] {
      assert Sorted(Init(s));
      SortedFixed(Init(s));
      InsertAtEnd(Init(s), Last(s));
    }
  }

  // ---------------------------------------------------------------------
  // The container

  /** `EntitiesSortedByName(Vec<(Entity, String)>, bool)`. */
  class EntitiesSortedByName {
    var entries: seq<Named>
    var sorted: bool

    /** The flag is only set while the list really is sorted. */
    ghost predicate Valid()
      reads this
    {
      sorted ==> Sorted(entries)
    }

    /** `Default`: empty and not flagged. */
    constructor()
      ensures Valid() && entries == [] && !sorted
    {
      entries := [];
      sorted := false;
    }

    /** `add`: append and clear the flag. */
    method Add(value: Named)
      modifies this
      requires Valid()
      ensures Valid()
      ensures entries == old(entries) + [value] && !sorted
    {
      entries := entries + [value];
      sorted := false;
    }

    /** `sort`: a flagged list is left alone; otherwise it is sorted
        stably by name and flagged. */
    method Sort()
      modifies this
      requires Valid()
      ensures Valid() && sorted
      ensures old(sorted) ==> entries == old(entries)
      ensures !old(sorted) ==> entries == SortByName(old(entries))
    {
      if !sorted {
        var r: seq<Named> := [];
        var i := 0;
        while i < |entries|
          invariant 0 <= i <= |entries|
          invariant r == SortByName(entries[..i])
        {
          assert Init(entries[..i + 1]) == entries[..i] && Last(entries[..i + 1]) == entries[i];
          r := Insert(r, entries[i]);
          i := i + 1;
        }
        assert entries[..i] == entries;
        SortByNameSorted(entries);
        entries := r;
        sorted := true;
      }
    }

    /** `entries`. */
    function Entries(): (r: seq<Named>)
      reads this
      requires Valid()
      ensures sorted ==> Sorted(r)
    {
      entries
    }
  }

  /** After a flagged list is sorted again, the list equals the sort of
      its own contents: `sort` always leaves `SortByName` of what it was
      given, whether or not it did any work. */
  lemma SortResultIsSortByName(before: seq<Named>, flagged: bool)
    requires flagged ==> Sorted(before)
    ensures (if flagged then before else SortByName(before)) == SortByName(before)
  {
    if flagged {
      SortedFixed(before);
    }
  }

  /** `display_name_entities_added`: every newly added pair is appended,
      then the list is sorted. */
  method DisplayNameEntitiesAdded(names: EntitiesSortedByName, added: seq<Named>)
    modifies names
    requires names.Valid()
    ensures names.Valid() && names.sorted
    ensures names.entries == SortByName(old(names.entries) + added)
  {
    var i := 0;
    while i < |added|
      invariant 0 <= i <= |added|
      invariant names.Valid()
      invariant names.entries == old(names.entries) + added[..i]
      invariant i > 0 ==> !names.sorted
      invariant i == 0 ==> names.sorted == old(names.sorted)
    {
      names.Add(added[i]);
      assert added[..i + 1] == added[..i] + [added[i]];
      i := i + 1;
    }
    assert added[..i] == added;
    ghost var before := names.entries;
    ghost var flagged := names.sorted;
    names.Sort();
    SortResultIsSortByName(before, flagged);
  }

  // ---------------------------------------------------------------------
  // Combo box

  /** The combo box caption: the selected option's display name when the
      selection is an index into the options, "(None)" otherwise. */
  function SelectedText(selection: Option<nat>, displayNames: seq<string>): (r: string)
    ensures selection.Some? && selection.value < |displayNames| ==> r == displayNames[selection.value]
    ensures !(selection.Some? && selection.value < |displayNames|) ==> r == "(None)"
  {
    if selection.Some? && selection.value < |displayNames| then displayNames[selection.value] else "(None)"
  }
}
