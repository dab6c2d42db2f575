/** The note picker of the note menu: every note with its display path, and the search filter over them. */
module NotePicker {
  import opened Wrappers
  import opened Text
  import opened Corpus

  /** One entry of the picker list. */
  datatype PickerEntry = PickerEntry(oberkategorie: string, unterkategorie: string, thema: string, fullPath: string)

  /** The path shown for a note: the three names joined by ` / `. */
  function FullPath(c: string, s: string, th: string): string
  {
    c + " / " + s + " / " + th
  }

  function EntryOf(r: NoteRef): PickerEntry
  {
    PickerEntry(r.ober, r.unter, r.thema, FullPath(r.ober, r.unter, r.thema))
  }

  /** The picker entries of the notes `refs`, in their order. */
  function Entries(refs: seq<NoteRef>): seq<PickerEntry>
  {
    if refs == [] then [] else Entries(refs[..|refs| - 1]) + [EntryOf(refs[|refs| - 1])]
  }

  lemma {:induction false} EntriesConcat(a: seq<NoteRef>, b: seq<NoteRef>)
    ensures Entries(a + b) == Entries(a) + Entries(b)
    decreases |b|
  {
    if b == [] {
      assert a + b == a;
    } else {
      EntriesConcat(a, b[..|b| - 1]);
      assert (a + b)[..|a + b| - 1] == a + b[..|b| - 1];
    }
  }

  lemma CatEntriesStep(t: Tree, cs: seq<string>, i: nat)
    requires i < |cs|
    ensures Entries(CatRefs(t, cs[..i + 1])) == Entries(CatRefs(t, cs[..i])) + Entries(SubRefs(t, cs[i], Unterkategorien(t, cs[i])))
  {
    CatRefsStep(t, cs, i);
    EntriesConcat(CatRefs(t, cs[..i]), SubRefs(t, cs[i], Unterkategorien(t, cs[i])));
  }

  lemma SubEntriesStep(t: Tree, c: string, ss: seq<string>, j: nat)
    requires j < |ss|
    ensures Entries(SubRefs(t, c, ss[..j + 1])) == Entries(SubRefs(t, c, ss[..j])) + Entries(NoteRefs(c, ss[j], Notes(t, c, ss[j])))
  {
    SubRefsStep(t, c, ss, j);
    EntriesConcat(SubRefs(t, c, ss[..j]), NoteRefs(c, ss[j], Notes(t, c, ss[j])));
  }

  lemma NoteEntriesStep(c: string, s: string, ns: seq<string>, k: nat)
    requires k < |ns|
    ensures Entries(NoteRefs(c, s, ns[..k + 1])) == Entries(NoteRefs(c, s, ns[..k])) + [PickerEntry(c, s, ns[k], c + " / " + s + " / " + ns[k])]
  {
    NoteRefsStep(c, s, ns, k);
    EntriesConcat(NoteRefs(c, s, ns[..k]), [NoteRef(c, s, ns[k])]);
  }

  // ---------------------------------------------------------------------------
  // getAllNotes of the note menu
  // ---------------------------------------------------------------------------

  /** getAllNotes: the outer loop, over the categories. */
  method GetAllNotes(t: Tree) returns (allNotes: seq<PickerEntry>)
    requires WellFormed(t)
    ensures allNotes == Entries(AllNotes(t))
  {
    allNotes := [];
    var oberkategorien := Oberkategorien(t);
    var i := 0;
    while i < |oberkategorien|
      invariant 0 <= i <= |oberkategorien|
      invariant allNotes == Entries(CatRefs(t, oberkategorien[..i]))
    {
      var ober := oberkategorien[i];
      var entries := CategoryEntries(t, ober);
      CatEntriesStep(t, oberkategorien, i);
      allNotes := allNotes + entries;
      i := i + 1;
    }
    assert oberkategorien[..i] == oberkategorien;
  }

  /** The middle loop: the entries of one category, subcategory by subcategory. */
  method CategoryEntries(t: Tree, ober: string) returns (entries: seq<PickerEntry>)
    requires WellFormed(t) && ober in t.cats
    ensures entries == Entries(SubRefs(t, ober, Unterkategorien(t, ober)))
  {
    entries := [];
    var unterkategorien := GetUnterkategorien(t, ober).value;
    var j := 0;
    while j < |unterkategorien|
      invariant 0 <= j <= |unterkategorien|
      invariant entries == Entries(SubRefs(t, ober, unterkategorien[..j]))
    {
      var unter := unterkategorien[j];
      ListedSubcategoryIsDirectory(t, ober, unter);
      var found := SubcategoryEntries(t, ober, unter);
      SubEntriesStep(t, ober, unterkategorien, j);
      entries := entries + found;
      j := j + 1;
    }
    assert unterkategorien[..j] == unterkategorien;
  }

  /** The inner loop: one entry per note of `ober/unter`. */
  method SubcategoryEntries(t: Tree, ober: string, unter: string) returns (found: seq<PickerEntry>)
    requires GetNotes(t, ober, unter).Success?
    ensures found == Entries(NoteRefs(ober, unter, Notes(t, ober, unter)))
  {
    var notes := GetNotes(t, ober, unter).value;
    found := [];
    var k := 0;
    while k < |notes|
      invariant 0 <= k <= |notes|
      invariant found == Entries(NoteRefs(ober, unter, notes[..k]))
    {
      var note := notes[k];
      NoteEntriesStep(ober, unter, notes, k);
      found := found + [PickerEntry(ober, unter, note, ober + " / " + unter + " / " + note)];
      k := k + 1;
    }
    assert notes[..k] == notes;
  }

  /**
   * The picker lists one entry per note of the storage traversal, in its order,
   * each with its three names and the path joining them.
   */
  lemma PickerFollowsTraversal(t: Tree)
    ensures |Entries(AllNotes(t))| == |AllNotes(t)|
    ensures forall i :: 0 <= i < |AllNotes(t)| ==>
      var e := Entries(AllNotes(t))[i];
      NoteRef(e.oberkategorie, e.unterkategorie, e.thema) == AllNotes(t)[i] &&
      e.fullPath == e.oberkategorie + " / " + e.unterkategorie + " / " + e.thema
  {
    EntriesShape(AllNotes(t));
  }

  lemma {:induction false} EntriesShape(refs: seq<NoteRef>)
    ensures |Entries(refs)| == |refs|
    ensures forall i :: 0 <= i < |refs| ==> Entries(refs)[i] == EntryOf(refs[i])
  {
    if refs != [] {
      EntriesShape(refs[..|refs| - 1]);
    }
  }

  // ---------------------------------------------------------------------------
  // The filter of editNoteMenu
  // ---------------------------------------------------------------------------

  /** The lower-cased query occurs in the entry's lower-cased title, category or subcategory. */
  predicate EntryMatches(e: PickerEntry, query: string)
  {
    Contains(Lower(e.thema), query) || Contains(Lower(e.oberkategorie), query) || Contains(Lower(e.unterkategorie), query)
  }

  /** `allNotes.filter(...)`: the matching entries, in order. */
  function FilterEntries(entries: seq<PickerEntry>, query: string): seq<PickerEntry>
  {
    if entries == [] then []
    else
      var e := entries[|entries| - 1];
      FilterEntries(entries[..|entries| - 1], query) + if EntryMatches(e, query) then [e] else []
  }

  /** The list the menu shows for a search text: all notes for a blank one, else the matches of the lower-cased (untrimmed) text. */
  function FilterNotes(allNotes: seq<PickerEntry>, searchQuery: string): seq<PickerEntry>
  {
    if Trim(searchQuery) == "" then allNotes else FilterEntries(allNotes, Lower(searchQuery))
  }

  lemma {:induction false} FilterEntriesMembers(entries: seq<PickerEntry>, query: string, e: PickerEntry)
    ensures e in FilterEntries(entries, query) <==> e in entries && EntryMatches(e, query)
  {
    if entries != [] {
      FilterEntriesMembers(entries[..|entries| - 1], query, e);
      assert entries == entries[..|entries| - 1] + [entries[|entries| - 1]];
    }
  }

  lemma {:induction false} FilterEntriesOrder(entries: seq<PickerEntry>, query: string)
    ensures IsSubsequence(FilterEntries(entries, query), entries)
  {
    if entries != [] {
      var init := entries[..|entries| - 1];
      var e := entries[|entries| - 1];
      FilterEntriesOrder(init, query);
      SubsequenceExtend(FilterEntries(init, query), init, e);
      assert init + [e] == entries;
      if EntryMatches(e, query) {
        assert FilterEntries(entries, query) == FilterEntries(init, query) + [e];
      } else {
        assert FilterEntries(entries, query) == FilterEntries(init, query);
        assert IsSubsequence(FilterEntries(init, query), init + [e]);
      }
    }
  }

  /**
   * A blank search text keeps the list; any other keeps, in order, exactly
   * the entries whose names contain the lower-cased text.
   */
  lemma FilterMeaning(allNotes: seq<PickerEntry>, searchQuery: string, e: PickerEntry)
    ensures IsBlank(searchQuery) ==> FilterNotes(allNotes, searchQuery) == allNotes
    ensures !IsBlank(searchQuery) ==>
      (e in FilterNotes(allNotes, searchQuery) <==> e in allNotes && EntryMatches(e, Lower(searchQuery)))
    ensures IsSubsequence(FilterNotes(allNotes, searchQuery), allNotes)
  {
    TrimEmptyIffBlank(searchQuery);
    FilterEntriesMembers(allNotes, Lower(searchQuery), e);
    FilterEntriesOrder(allNotes, Lower(searchQuery));
    SubsequenceReflexive(allNotes);
  }

  lemma {:induction false} SubsequenceReflexive(a: seq<PickerEntry>)
    ensures IsSubsequence(a, a)
  {
    if a != [] {
      SubsequenceReflexive(a[1..]);
    }
  }

  /** The search text is not trimmed: a trailing space makes `ab ` miss the note titled `ab` that `ab` finds. */
  lemma QueryNotTrimmed()
    ensures var e := PickerEntry("x", "y", "ab", "x / y / ab");
      FilterNotes([e], "ab") == [e] && FilterNotes([e], "ab ") == []
  {
    var e := PickerEntry("x", "y", "ab", "x / y / ab");
    assert Lower("ab") == "ab";
    assert Lower("ab ") == "ab ";
    assert Lower("x") == "x" && Lower("y") == "y";
    assert OccursAt("ab", "ab", 0);
    assert Trim("ab") != "" by {
      TrimUnchanged("ab");
    }
    assert Trim("ab ") != "" by {
      TrimEmptyIffBlank("ab ");
      assert !IsSpace("ab "[0]);
    }
    assert [e][..0] == [];
    assert !EntryMatches(e, "ab ");
    assert EntryMatches(e, "ab");
  }
}
