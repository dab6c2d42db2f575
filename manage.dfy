/** The management menu's own preview and its per-category note count. */
module Manage {
  import opened Wrappers
  import opened Text
  import opened Order
  import opened Corpus
  import opened Utils

  /**
   * The menu's getPreview: the frontmatter regex and the trim written inline,
   * then the same cleaning chain and cut as the shared utility.
   */
  function ManagePreview(content: Option<string>, maxLength: int): string
  {
    if content.None? || content.value == "" then ""
    else
      var withoutFrontmatter := Trim(RemoveFrontmatter(content.value));
      var cleaned := Trim(ReplaceChar(RemoveAll(RemoveAll(StripHeadings(withoutFrontmatter), "**"), "*"), '\n', " "));
      if |cleaned| > maxLength then cleaned[..if maxLength < 0 then 0 else maxLength] + "..." else cleaned
  }

  /** The menu's copy and the shared getPreview agree on every content and length. */
  lemma ManagePreviewAgrees(content: Option<string>, maxLength: int)
    ensures ManagePreview(content, maxLength) == GetPreview(content, maxLength)
  {
  }

  /** The menu's preview: nothing for no content, no `*` or newline, and at most `maxLength + 3` long. */
  lemma ManagePreviewIsPlain(content: Option<string>, maxLength: int)
    ensures content.None? || content.value == "" ==> ManagePreview(content, maxLength) == ""
    ensures '*' !in ManagePreview(content, maxLength) && '\n' !in ManagePreview(content, maxLength)
    ensures maxLength >= 0 ==> |ManagePreview(content, maxLength)| <= maxLength + 3
  {
    ManagePreviewAgrees(content, maxLength);
    PreviewIsPlain(content, maxLength);
  }

  /** `unters.reduce((sum, u) => sum + getNotes(ober, u).length, 0)`. */
  function SumNoteCounts(t: Tree, ober: string, unters: seq<string>): nat
    requires forall u :: u in unters ==> GetNotes(t, ober, u).Success?
  {
    if unters == [] then 0
    else
      var u := unters[|unters| - 1];
      SumNoteCounts(t, ober, unters[..|unters| - 1]) + |GetNotes(t, ober, u).value|
  }

  /** countNotesInOberkategorie: fails (throws) when the category is a plain file. */
  function CountNotesInOberkategorie(t: Tree, ober: string): (r: Result<nat, FsError>)
    requires WellFormed(t)
    ensures r.Failure? <==> ober in t.files
  {
    match GetUnterkategorien(t, ober)
    case Failure(e) => Failure(e)
    case Success(unters) =>
      assert forall u :: u in unters ==> GetNotes(t, ober, u).Success? by {
        forall u | u in unters
          ensures GetNotes(t, ober, u).Success?
        {
          ListedSubcategoryIsDirectory(t, ober, u);
        }
      }
      Success(SumNoteCounts(t, ober, unters))
  }

  lemma {:induction false} SumIsNoteCount(t: Tree, ober: string, unters: seq<string>)
    requires forall u :: u in unters ==> GetNotes(t, ober, u).Success?
    ensures SumNoteCounts(t, ober, unters) == NoteCount(t, ober, unters)
  {
    if unters != [] {
      SumIsNoteCount(t, ober, unters[..|unters| - 1]);
    }
  }

  /** How many of `refs` lie in category `c`. */
  function CountIn(refs: seq<NoteRef>, c: string): nat
  {
    if refs == [] then 0 else CountIn(refs[..|refs| - 1], c) + if refs[|refs| - 1].ober == c then 1 else 0
  }

  lemma {:induction false} CountInConcat(a: seq<NoteRef>, b: seq<NoteRef>, c: string)
    ensures CountIn(a + b, c) == CountIn(a, c) + CountIn(b, c)
    decreases |b|
  {
    if b == [] {
      assert a + b == a;
    } else {
      CountInConcat(a, b[..|b| - 1], c);
      assert (a + b)[..|a + b| - 1] == a + b[..|b| - 1];
    }
  }

  lemma {:induction false} CountInUniform(refs: seq<NoteRef>, c: string, d: string)
    requires forall r :: r in refs ==> r.ober == d
    ensures CountIn(refs, c) == if c == d then |refs| else 0
  {
    if refs != [] {
      CountInUniform(refs[..|refs| - 1], c, d);
    }
  }

  lemma SubRefsInCategory(t: Tree, d: string, ss: seq<string>)
    ensures forall r :: r in SubRefs(t, d, ss) ==> r.ober == d
  {
    forall r | r in SubRefs(t, d, ss)
      ensures r.ober == d
    {
      SubRefsMembers(t, d, ss, r);
    }
  }

  /** The number of notes getAllNotes lists below category `c`. */
  function CategorySize(t: Tree, c: string): nat
  {
    |SubRefs(t, c, Unterkategorien(t, c))|
  }

  lemma CountInCategory(t: Tree, d: string, c: string)
    ensures CountIn(SubRefs(t, d, Unterkategorien(t, d)), c) == if c == d then CategorySize(t, d) else 0
  {
    SubRefsInCategory(t, d, Unterkategorien(t, d));
    CountInUniform(SubRefs(t, d, Unterkategorien(t, d)), c, d);
  }

  /** Over sorted, distinct categories `cs`, the notes of category `c` are those below `c` if it is listed, else none. */
  lemma {:induction false} CountInCatRefs(t: Tree, cs: seq<string>, c: string)
    requires StrictlySorted(cs)
    ensures CountIn(CatRefs(t, cs), c) == if c in cs then CategorySize(t, c) else 0
  {
    if cs != [] {
      var init := cs[..|cs| - 1];
      var d := cs[|cs| - 1];
      assert cs == init + [d];
      SortedLastNew(init, d);
      CountInCatRefs(t, init, c);
      CountInCatRefsStep(t, init, d, c);
      assert c in cs <==> c in init || c == d;
    }
  }

  lemma SortedLastNew(init: seq<string>, last: string)
    requires StrictlySorted(init + [last])
    ensures StrictlySorted(init) && last !in init
  {
    SortedSplit(init, last);
    BelowIrreflexive(last);
  }

  lemma CountInCatRefsStep(t: Tree, init: seq<string>, d: string, c: string)
    ensures CountIn(CatRefs(t, init + [d]), c) == CountIn(CatRefs(t, init), c) + if c == d then CategorySize(t, d) else 0
  {
    var a := CatRefs(t, init);
    var b := SubRefs(t, d, Unterkategorien(t, d));
    assert (init + [d])[..|init|] == init;
    assert CatRefs(t, init + [d]) == a + b;
    CountInConcat(a, b, c);
    CountInCategory(t, d, c);
  }

  /**
   * The count shown for a category is the sum of its subcategories' note
   * counts, and equals the number of notes getAllNotes lists under it.
   */
  lemma CountNotesMeaning(t: Tree, ober: string)
    requires WellFormed(t) && ober !in t.files
    ensures CountNotesInOberkategorie(t, ober) == Success(NoteCount(t, ober, Unterkategorien(t, ober)))
    ensures CountNotesInOberkategorie(t, ober) == Success(CountIn(AllNotes(t), ober))
  {
    var unters := Unterkategorien(t, ober);
    forall u | u in unters
      ensures GetNotes(t, ober, u).Success?
    {
      ListedSubcategoryIsDirectory(t, ober, u);
    }
    SumIsNoteCount(t, ober, unters);
    NoteCountIsLength(t, ober, unters);
    var cs := Oberkategorien(t);
    CountInCatRefs(t, cs, ober);
    assert CategorySize(t, ober) == |SubRefs(t, ober, unters)|;
    if ober !in cs {
      assert unters == [];
    }
  }
}
