/**
 * The notes directory as a value: category directories, each holding
 * subcategory directories, each holding note files `<thema>.md`. The
 * listing, reading and updating functions here are what the storage
 * module's file-system calls amount to on this tree.
 */
module Corpus {
  import opened Wrappers
  import opened Text
  import opened Order

  /** The files of a subcategory directory: file name to content. */
  type Folder = map<string, string>

  /** A category directory: its subcategory directories and the plain files beside them. */
  datatype Category = Category(subs: map<string, Folder>, files: set<string>)

  /** The notes root: its category directories and the plain files beside them. */
  datatype Tree = Tree(cats: map<string, Category>, files: set<string>)

  const EmptyTree := Tree(map[], {})

  /** A name in a directory is a directory or a file, never both. */
  predicate WellFormed(t: Tree)
  {
    t.cats.Keys !! t.files &&
    forall c :: c in t.cats ==> t.cats[c].subs.Keys !! t.cats[c].files
  }

  /** What the file system throws when a path runs through a plain file (ENOTDIR). */
  datatype FsError = NotADirectory

  // ---------------------------------------------------------------------------
  // Listing
  // ---------------------------------------------------------------------------

  /** getOberkategorien: the sorted names of the directories at the root; plain files are not listed. */
  function Oberkategorien(t: Tree): (r: seq<string>)
    ensures StrictlySorted(r)
    ensures forall c :: c in r <==> c in t.cats
  {
    SortedNames(t.cats.Keys)
  }

  /** The listing of getUnterkategorien for a category that is not a plain file. */
  function Unterkategorien(t: Tree, c: string): (r: seq<string>)
    ensures StrictlySorted(r)
    ensures forall s :: s in r <==> c in t.cats && s in t.cats[c].subs
  {
    if c in t.cats then SortedNames(t.cats[c].subs.Keys) else []
  }

  /** getUnterkategorien: a missing category lists as empty; a plain file of that name makes `readdirSync` throw. */
  function GetUnterkategorien(t: Tree, c: string): (r: Result<seq<string>, FsError>)
    ensures r.Failure? <==> c in t.files
    ensures r.Success? ==> r.value == Unterkategorien(t, c)
  {
    if c in t.files then Failure(NotADirectory) else Success(Unterkategorien(t, c))
  }

  /** `f.endsWith('.md')`. */
  predicate IsNoteFile(f: string)
  {
    |f| >= 3 && f[|f| - 3..] == ".md"
  }

  /** The file a note is stored in: `${thema}.md`. */
  function NoteFile(thema: string): string
  {
    thema + ".md"
  }

  /** The title of a note file: the name without its trailing `.md`. */
  function TitleOf(f: string): string
    requires IsNoteFile(f)
  {
    f[..|f| - 3]
  }

  lemma NoteFileInjective(a: string, b: string)
    requires NoteFile(a) == NoteFile(b)
    ensures a == b
  {
    assert a == NoteFile(a)[..|a|] && b == NoteFile(b)[..|b|];
  }

  /** The titles of the note files of a folder. */
  function Titles(folder: Folder): (ts: set<string>)
    ensures forall th :: th in ts <==> NoteFile(th) in folder
  {
    var ts := set f | f in folder && IsNoteFile(f) :: TitleOf(f);
    assert forall th :: NoteFile(th) in folder ==> TitleOf(NoteFile(th)) in ts;
    assert forall f :: IsNoteFile(f) ==> NoteFile(TitleOf(f)) == f;
    ts
  }

  /** readNote: the content of `c/s/th.md`, or absent (null). */
  function ReadNote(t: Tree, c: string, s: string, th: string): Option<string>
  {
    if c in t.cats && s in t.cats[c].subs && NoteFile(th) in t.cats[c].subs[s]
    then Some(t.cats[c].subs[s][NoteFile(th)])
    else None
  }

  /**
   * The listing of getNotes for a subcategory that is not a plain file: sorted,
   * and a title is listed exactly when reading it finds a note.
   */
  function Notes(t: Tree, c: string, s: string): (r: seq<string>)
    ensures StrictlySorted(r)
    ensures forall th :: th in r <==> ReadNote(t, c, s, th).Some?
  {
    if c in t.cats && s in t.cats[c].subs then SortedNames(Titles(t.cats[c].subs[s])) else []
  }

  /** getNotes: a missing directory lists as empty; a plain file at `c/s` makes `readdirSync` throw. */
  function GetNotes(t: Tree, c: string, s: string): (r: Result<seq<string>, FsError>)
    ensures r.Failure? <==> c in t.cats && s in t.cats[c].files
    ensures r.Success? ==> r.value == Notes(t, c, s)
  {
    if c in t.cats && s in t.cats[c].files then Failure(NotADirectory) else Success(Notes(t, c, s))
  }

  /** A listed subcategory is a directory, so listing its notes does not fail. */
  lemma ListedSubcategoryIsDirectory(t: Tree, c: string, s: string)
    requires WellFormed(t) && s in Unterkategorien(t, c)
    ensures GetNotes(t, c, s).Success?
  {
    assert s in t.cats[c].subs.Keys;
  }

  /** The title getNotes derives from a file name as written: `f.replace('.md', '')` drops the FIRST `.md`. */
  function ListedTitleAsWritten(f: string): string
  {
    match IndexOf(f, ".md")
    case None => f
    case Some(i) => f[..i] + f[i + 3..]
  }

  /** A title with `.md` inside is listed under another name, and that name reads no note. */
  lemma AsWrittenTitleMismatch()
    ensures ListedTitleAsWritten(NoteFile("x.mdy")) == "xy.md"
    ensures NoteFile("xy.md") != NoteFile("x.mdy")
  {
    var f := NoteFile("x.mdy");
    assert f == "x.mdy.md";
    assert !OccursAt(f, ".md", 0) by { assert f[0..3] == "x.m"; }
    assert OccursAt(f, ".md", 1) by { assert f[1..4] == ".md"; }
    assert IndexOf(f, ".md") == Some(1);
    assert f[..1] + f[4..] == "xy.md";
  }

  /** Without `.md` inside the title, the as-written listing agrees with the trailing-extension title. */
  lemma AsWrittenAgreesWithoutMd(th: string)
    requires !Contains(th, ".md")
    ensures ListedTitleAsWritten(NoteFile(th)) == th
  {
    var f := NoteFile(th);
    forall k | 0 <= k < |th|
      ensures !OccursAt(f, ".md", k)
    {
      if k + 3 <= |th| {
        assert f[k..k + 3] == th[k..k + 3];
        assert !OccursAt(th, ".md", k);
      } else if k == |th| - 1 {
        assert f[k..k + 3][1] == f[k + 1] == '.';
      } else {
        assert k == |th| - 2;
        assert f[k..k + 3][2] == f[k + 2] == '.';
      }
    }
    assert OccursAt(f, ".md", |th|);
    assert IndexOf(f, ".md") == Some(|th|);
  }

  /** As written, two different note files can list under one title: `x.mdy.md` and `xy.md.md` both give `xy.md`. */
  lemma AsWrittenTitlesCollide()
    ensures ListedTitleAsWritten(NoteFile("x.mdy")) == ListedTitleAsWritten(NoteFile("xy.md")) == "xy.md"
    ensures NoteFile("x.mdy") != NoteFile("xy.md")
  {
    AsWrittenTitleMismatch();
    ListedStemWithMd();
  }

  lemma ListedStemWithMd()
    ensures ListedTitleAsWritten(NoteFile("xy.md")) == "xy.md"
  {
    var g := NoteFile("xy.md");
    assert g == "xy.md.md";
    assert !OccursAt(g, ".md", 0) by { assert g[0..3] == "xy."; }
    assert !OccursAt(g, ".md", 1) by { assert g[1..4] == "y.m"; }
    assert OccursAt(g, ".md", 2) by { assert g[2..5] == ".md"; }
    assert IndexOf(g, ".md") == Some(2);
    assert g[..2] + g[5..] == "xy.md";
  }

  /**
   * When no note file of a folder has `.md` inside its stem, the as-written
   * listing gives every file its trailing-extension title, so it lists
   * exactly the titles of the model.
   */
  lemma AsWrittenListingAgrees(folder: Folder)
    requires forall f :: f in folder && IsNoteFile(f) ==> !Contains(TitleOf(f), ".md")
    ensures forall f :: f in folder && IsNoteFile(f) ==> ListedTitleAsWritten(f) == TitleOf(f)
    ensures (set f | f in folder && IsNoteFile(f) :: ListedTitleAsWritten(f)) == Titles(folder)
  {
    forall f | f in folder && IsNoteFile(f)
      ensures ListedTitleAsWritten(f) == TitleOf(f)
    {
      assert NoteFile(TitleOf(f)) == f;
      AsWrittenAgreesWithoutMd(TitleOf(f));
    }
    var listed := set f | f in folder && IsNoteFile(f) :: ListedTitleAsWritten(f);
    forall th | th in Titles(folder)
      ensures th in listed
    {
      assert NoteFile(th) in folder;
      TitleRoundTrip(th);
    }
  }

  /** The trailing-extension title reads back as the title it was saved under. */
  lemma TitleRoundTrip(th: string)
    ensures IsNoteFile(NoteFile(th)) && TitleOf(NoteFile(th)) == th
  {
  }

  // ---------------------------------------------------------------------------
  // Updates
  // ---------------------------------------------------------------------------

  /** ensureDir(notesDir/c): creates the category directory unless something of that name exists. */
  function MakeCategory(t: Tree, c: string): (r: Tree)
    ensures WellFormed(t) ==> WellFormed(r)
    ensures c !in t.files ==> c in r.cats
    ensures c in t.cats ==> r == t
  {
    if c in t.cats || c in t.files then t else t.(cats := t.cats[c := Category(map[], {})])
  }

  /** ensureDir(notesDir/c/s): `mkdir -p` unless the path exists; it throws when `c` is a plain file. */
  function MakeSubcategory(t: Tree, c: string, s: string): (r: Result<Tree, FsError>)
    ensures r.Failure? <==> c in t.files
    ensures r.Success? && WellFormed(t) ==> WellFormed(r.value)
    ensures r.Success? && !(c in t.cats && s in t.cats[c].files) ==> c in r.value.cats && s in r.value.cats[c].subs
  {
    if c in t.files then Failure(NotADirectory)
    else if c in t.cats && (s in t.cats[c].subs || s in t.cats[c].files) then Success(t)
    else
      var cat := if c in t.cats then t.cats[c] else Category(map[], {});
      Success(t.(cats := t.cats[c := cat.(subs := cat.subs[s := map[]])]))
  }

  /**
   * saveNote: creates the missing directories and writes `c/s/th.md`; the write
   * throws when `c` or `c/s` is a plain file.
   */
  function PutNote(t: Tree, c: string, s: string, th: string, x: string): (r: Result<Tree, FsError>)
    ensures r.Failure? <==> c in t.files || (c in t.cats && s in t.cats[c].files)
    ensures r.Success? && WellFormed(t) ==> WellFormed(r.value)
  {
    if c in t.files || (c in t.cats && s in t.cats[c].files) then Failure(NotADirectory)
    else
      var cat := if c in t.cats then t.cats[c] else Category(map[], {});
      var folder := if s in cat.subs then cat.subs[s] else map[];
      Success(t.(cats := t.cats[c := cat.(subs := cat.subs[s := folder[NoteFile(th) := x]])]))
  }

  /** deleteNote: unlinks `c/s/th.md` if it exists. */
  function RemoveNote(t: Tree, c: string, s: string, th: string): (r: Tree)
    ensures WellFormed(t) ==> WellFormed(r)
  {
    if ReadNote(t, c, s, th).Some? then
      var cat := t.cats[c];
      t.(cats := t.cats[c := cat.(subs := cat.subs[s := cat.subs[s] - {NoteFile(th)}])])
    else t
  }

  /** deleteOberkategorie: `rm -r notesDir/c` if the path exists. */
  function RemoveCategory(t: Tree, c: string): (r: Tree)
    ensures WellFormed(t) ==> WellFormed(r)
    ensures c !in r.cats && c !in r.files
  {
    if c in t.cats || c in t.files then Tree(t.cats - {c}, t.files - {c}) else t
  }

  /** deleteUnterkategorie: `rm -r notesDir/c/s` if the path exists. */
  function RemoveSubcategory(t: Tree, c: string, s: string): (r: Tree)
    ensures WellFormed(t) ==> WellFormed(r)
    ensures c in r.cats ==> s !in r.cats[c].subs && s !in r.cats[c].files
  {
    if c in t.cats && (s in t.cats[c].subs || s in t.cats[c].files) then
      var cat := t.cats[c];
      t.(cats := t.cats[c := Category(cat.subs - {s}, cat.files - {s})])
    else t
  }

  /** After saveNote, the note reads back as written and every other note reads as before. */
  lemma ReadAfterPut(t: Tree, c: string, s: string, th: string, x: string, c': string, s': string, th': string)
    requires PutNote(t, c, s, th, x).Success?
    ensures ReadNote(PutNote(t, c, s, th, x).value, c', s', th') ==
            if c' == c && s' == s && th' == th then Some(x) else ReadNote(t, c', s', th')
  {
    if c' == c && s' == s && NoteFile(th') == NoteFile(th) {
      NoteFileInjective(th', th);
    }
  }

  /** After saveNote, the category, the subcategory and the title are listed. */
  lemma PutNoteListed(t: Tree, c: string, s: string, th: string, x: string)
    requires PutNote(t, c, s, th, x).Success?
    ensures var t' := PutNote(t, c, s, th, x).value;
      c in Oberkategorien(t') && s in Unterkategorien(t', c) && th in Notes(t', c, s)
  {
    ReadAfterPut(t, c, s, th, x, c, s, th);
  }

  /** After deleteNote, that note is absent and every other note reads as before. */
  lemma ReadAfterRemoveNote(t: Tree, c: string, s: string, th: string, c': string, s': string, th': string)
    ensures ReadNote(RemoveNote(t, c, s, th), c', s', th') ==
            if c' == c && s' == s && th' == th then None else ReadNote(t, c', s', th')
  {
    if c' == c && s' == s && NoteFile(th') == NoteFile(th) {
      NoteFileInjective(th', th);
    }
  }

  /** After deleteOberkategorie, every note below it is absent and every other note reads as before. */
  lemma ReadAfterRemoveCategory(t: Tree, c: string, c': string, s': string, th': string)
    ensures ReadNote(RemoveCategory(t, c), c', s', th') == if c' == c then None else ReadNote(t, c', s', th')
  {
  }

  /** After deleteUnterkategorie, every note below it is absent and every other note reads as before. */
  lemma ReadAfterRemoveSubcategory(t: Tree, c: string, s: string, c': string, s': string, th': string)
    ensures ReadNote(RemoveSubcategory(t, c, s), c', s', th') ==
            if c' == c && s' == s then None else ReadNote(t, c', s', th')
  {
  }

  /** Deleting what does not exist leaves the tree as it is. */
  lemma RemoveAbsentUnchanged(t: Tree, c: string, s: string, th: string)
    ensures ReadNote(t, c, s, th).None? ==> RemoveNote(t, c, s, th) == t
    ensures c !in t.cats && c !in t.files ==> RemoveCategory(t, c) == t
    ensures !(c in t.cats && (s in t.cats[c].subs || s in t.cats[c].files)) ==> RemoveSubcategory(t, c, s) == t
  {
  }

  /** Creating directories changes no note. */
  lemma ReadAfterMakeSubcategory(t: Tree, c: string, s: string, c': string, s': string, th': string)
    requires MakeSubcategory(t, c, s).Success?
    ensures ReadNote(MakeSubcategory(t, c, s).value, c', s', th') == ReadNote(t, c', s', th')
    ensures ReadNote(MakeCategory(t, c), c', s', th') == ReadNote(t, c', s', th')
  {
  }

  /** Saving after creating the directories is the same as saving: saveNote creates them itself. */
  lemma PutNoteAfterMakeSubcategory(t: Tree, c: string, s: string, th: string, x: string)
    requires MakeSubcategory(MakeCategory(t, c), c, s).Success?
    ensures PutNote(MakeSubcategory(MakeCategory(t, c), c, s).value, c, s, th, x) == PutNote(t, c, s, th, x)
  {
    if c !in t.cats {
      PutNoteIntoNewCategory(t, c, s, th, x);
    } else if s !in t.cats[c].subs && s !in t.cats[c].files {
      PutNoteIntoNewSubcategory(t, c, s, th, x);
    }
  }

  lemma PutNoteIntoNewCategory(t: Tree, c: string, s: string, th: string, x: string)
    requires c !in t.cats && c !in t.files
    ensures PutNote(MakeSubcategory(MakeCategory(t, c), c, s).value, c, s, th, x) == PutNote(t, c, s, th, x)
  {
    var cat := Category(map[], {});
    var t1 := t.(cats := t.cats[c := cat]);
    assert MakeCategory(t, c) == t1;
    var t2 := t1.(cats := t1.cats[c := cat.(subs := map[s := map[]])]);
    assert MakeSubcategory(t1, c, s) == Success(t2);
    var full := Category(map[s := map[NoteFile(th) := x]], {});
    var m: map<string, Folder> := map[s := map[]];
    assert m[s := map[NoteFile(th) := x]] == full.subs;
    assert PutNote(t2, c, s, th, x) == Success(t2.(cats := t2.cats[c := full]));
    assert PutNote(t, c, s, th, x) == Success(t.(cats := t.cats[c := full]));
    assert t2.cats[c := full] == t.cats[c := full];
  }

  lemma PutNoteIntoNewSubcategory(t: Tree, c: string, s: string, th: string, x: string)
    requires c in t.cats && c !in t.files && s !in t.cats[c].subs && s !in t.cats[c].files
    ensures PutNote(MakeSubcategory(MakeCategory(t, c), c, s).value, c, s, th, x) == PutNote(t, c, s, th, x)
  {
    var cat := t.cats[c];
    var t2 := t.(cats := t.cats[c := cat.(subs := cat.subs[s := map[]])]);
    assert MakeCategory(t, c) == t && MakeSubcategory(t, c, s) == Success(t2);
    var full := cat.(subs := cat.subs[s := map[NoteFile(th) := x]]);
    assert cat.subs[s := map[]][s := map[NoteFile(th) := x]] == full.subs;
    assert PutNote(t2, c, s, th, x) == Success(t2.(cats := t2.cats[c := full]));
    assert t2.cats[c := full] == t.cats[c := full];
  }

  // ---------------------------------------------------------------------------
  // Traversal: every note, category by category, subcategory by subcategory
  // ---------------------------------------------------------------------------

  datatype NoteRef = NoteRef(ober: string, unter: string, thema: string)

  /** The notes `ns` of subcategory `c/s`, in order. */
  function NoteRefs(c: string, s: string, ns: seq<string>): seq<NoteRef>
  {
    if ns == [] then [] else NoteRefs(c, s, ns[..|ns| - 1]) + [NoteRef(c, s, ns[|ns| - 1])]
  }

  /** The notes of the subcategories `ss` of category `c`, in order. */
  function SubRefs(t: Tree, c: string, ss: seq<string>): seq<NoteRef>
  {
    if ss == [] then [] else SubRefs(t, c, ss[..|ss| - 1]) + NoteRefs(c, ss[|ss| - 1], Notes(t, c, ss[|ss| - 1]))
  }

  /** The notes of the categories `cs`, in order. */
  function CatRefs(t: Tree, cs: seq<string>): seq<NoteRef>
  {
    if cs == [] then [] else CatRefs(t, cs[..|cs| - 1]) + SubRefs(t, cs[|cs| - 1], Unterkategorien(t, cs[|cs| - 1]))
  }

  /** The traversal getAllNotes performs. */
  function AllNotes(t: Tree): seq<NoteRef>
  {
    CatRefs(t, Oberkategorien(t))
  }

  /** One more title extends the traversal of a subcategory by that note. */
  lemma NoteRefsStep(c: string, s: string, ns: seq<string>, k: nat)
    requires k < |ns|
    ensures NoteRefs(c, s, ns[..k + 1]) == NoteRefs(c, s, ns[..k]) + [NoteRef(c, s, ns[k])]
  {
    assert ns[..k + 1][..k] == ns[..k];
  }

  /** One more subcategory extends the traversal of a category by that subcategory's notes. */
  lemma SubRefsStep(t: Tree, c: string, ss: seq<string>, j: nat)
    requires j < |ss|
    ensures SubRefs(t, c, ss[..j + 1]) == SubRefs(t, c, ss[..j]) + NoteRefs(c, ss[j], Notes(t, c, ss[j]))
  {
    assert ss[..j + 1][..j] == ss[..j];
  }

  /** One more category extends the traversal by that category's notes. */
  lemma CatRefsStep(t: Tree, cs: seq<string>, i: nat)
    requires i < |cs|
    ensures CatRefs(t, cs[..i + 1]) == CatRefs(t, cs[..i]) + SubRefs(t, cs[i], Unterkategorien(t, cs[i]))
  {
    assert cs[..i + 1][..i] == cs[..i];
  }

  lemma {:induction false} NoteRefsMembers(c: string, s: string, ns: seq<string>, r: NoteRef)
    ensures r in NoteRefs(c, s, ns) <==> r.ober == c && r.unter == s && r.thema in ns
  {
    if ns != [] {
      NoteRefsMembers(c, s, ns[..|ns| - 1], r);
      assert ns == ns[..|ns| - 1] + [ns[|ns| - 1]];
    }
  }

  lemma {:induction false} SubRefsMembers(t: Tree, c: string, ss: seq<string>, r: NoteRef)
    ensures r in SubRefs(t, c, ss) <==> r.ober == c && r.unter in ss && r.thema in Notes(t, c, r.unter)
  {
    if ss != [] {
      var last := ss[|ss| - 1];
      SubRefsMembers(t, c, ss[..|ss| - 1], r);
      NoteRefsMembers(c, last, Notes(t, c, last), r);
      assert ss == ss[..|ss| - 1] + [last];
    }
  }

  lemma {:induction false} CatRefsMembers(t: Tree, cs: seq<string>, r: NoteRef)
    ensures r in CatRefs(t, cs) <==>
      r.ober in cs && r.unter in Unterkategorien(t, r.ober) && r.thema in Notes(t, r.ober, r.unter)
  {
    if cs != [] {
      var init := cs[..|cs| - 1];
      var last := cs[|cs| - 1];
      CatRefsMembers(t, init, r);
      SubRefsMembers(t, last, Unterkategorien(t, last), r);
      assert CatRefs(t, cs) == CatRefs(t, init) + SubRefs(t, last, Unterkategorien(t, last));
      assert cs == init + [last];
      assert r.ober in cs <==> r.ober in init || r.ober == last;
    }
  }

  /** getAllNotes lists a triple exactly when that note exists. */
  lemma AllNotesMembers(t: Tree, r: NoteRef)
    ensures r in AllNotes(t) <==> ReadNote(t, r.ober, r.unter, r.thema).Some?
  {
    CatRefsMembers(t, Oberkategorien(t), r);
  }

  /** The order of the traversal: by category, then subcategory, then title. */
  predicate RefBelow(a: NoteRef, b: NoteRef)
  {
    Below(a.ober, b.ober) ||
    (a.ober == b.ober && (Below(a.unter, b.unter) || (a.unter == b.unter && Below(a.thema, b.thema))))
  }

  predicate RefsOrdered(rs: seq<NoteRef>)
  {
    forall i, j :: 0 <= i < j < |rs| ==> RefBelow(rs[i], rs[j])
  }

  /** Two ordered runs, every element of the first before every element of the second, make an ordered run. */
  lemma ConcatOrdered(a: seq<NoteRef>, b: seq<NoteRef>)
    requires RefsOrdered(a) && RefsOrdered(b)
    requires forall x, y :: x in a && y in b ==> RefBelow(x, y)
    ensures RefsOrdered(a + b)
  {
    var rs := a + b;
    forall i, j | 0 <= i < j < |rs|
      ensures RefBelow(rs[i], rs[j])
    {
      if i < |a| && j >= |a| {
        assert rs[i] in a && rs[j] in b;
      } else if i >= |a| {
        assert rs[i] == b[i - |a|] && rs[j] == b[j - |a|];
      } else {
        assert rs[i] == a[i] && rs[j] == a[j];
      }
    }
  }

  lemma {:induction false} NoteRefsOrdered(c: string, s: string, ns: seq<string>)
    requires StrictlySorted(ns)
    ensures RefsOrdered(NoteRefs(c, s, ns))
  {
    if ns != [] {
      var init := ns[..|ns| - 1];
      var last := ns[|ns| - 1];
      assert ns == init + [last];
      SortedSplit(init, last);
      NoteRefsOrdered(c, s, init);
      forall x | x in NoteRefs(c, s, init)
        ensures RefBelow(x, NoteRef(c, s, last))
      {
        NoteRefsMembers(c, s, init, x);
      }
      ConcatOrdered(NoteRefs(c, s, init), [NoteRef(c, s, last)]);
    }
  }

  /** The notes of subcategories listed before `d` come before those of `d`. */
  lemma SubRefsBefore(t: Tree, c: string, ss: seq<string>, d: string)
    requires forall x :: x in ss ==> Below(x, d)
    ensures forall x, y :: x in SubRefs(t, c, ss) && y in NoteRefs(c, d, Notes(t, c, d)) ==> RefBelow(x, y)
  {
    forall x, y | x in SubRefs(t, c, ss) && y in NoteRefs(c, d, Notes(t, c, d))
      ensures RefBelow(x, y)
    {
      SubRefsMembers(t, c, ss, x);
      NoteRefsMembers(c, d, Notes(t, c, d), y);
    }
  }

  lemma {:induction false} SubRefsOrdered(t: Tree, c: string, ss: seq<string>)
    requires StrictlySorted(ss)
    ensures RefsOrdered(SubRefs(t, c, ss))
  {
    if ss != [] {
      var init := ss[..|ss| - 1];
      var last := ss[|ss| - 1];
      assert ss == init + [last];
      SortedSplit(init, last);
      SubRefsOrdered(t, c, init);
      NoteRefsOrdered(c, last, Notes(t, c, last));
      SubRefsBefore(t, c, init, last);
      ConcatOrdered(SubRefs(t, c, init), NoteRefs(c, last, Notes(t, c, last)));
    }
  }

  /** The notes of categories listed before `d` come before those of `d`. */
  lemma CatRefsBefore(t: Tree, cs: seq<string>, d: string)
    requires forall x :: x in cs ==> Below(x, d)
    ensures forall x, y :: x in CatRefs(t, cs) && y in SubRefs(t, d, Unterkategorien(t, d)) ==> RefBelow(x, y)
  {
    forall x, y | x in CatRefs(t, cs) && y in SubRefs(t, d, Unterkategorien(t, d))
      ensures RefBelow(x, y)
    {
      CatRefsMembers(t, cs, x);
      SubRefsMembers(t, d, Unterkategorien(t, d), y);
    }
  }

  lemma {:induction false} CatRefsOrdered(t: Tree, cs: seq<string>)
    requires StrictlySorted(cs)
    ensures RefsOrdered(CatRefs(t, cs))
  {
    if cs != [] {
      var init := cs[..|cs| - 1];
      var last := cs[|cs| - 1];
      assert cs == init + [last];
      SortedSplit(init, last);
      CatRefsOrdered(t, init);
      SubRefsOrdered(t, last, Unterkategorien(t, last));
      CatRefsBefore(t, init, last);
      ConcatOrdered(CatRefs(t, init), SubRefs(t, last, Unterkategorien(t, last)));
    }
  }

  /** getAllNotes lists the notes sorted by category, subcategory and title, each once. */
  lemma AllNotesOrdered(t: Tree)
    ensures RefsOrdered(AllNotes(t))
    ensures forall i, j :: 0 <= i < j < |AllNotes(t)| ==> AllNotes(t)[i] != AllNotes(t)[j]
  {
    CatRefsOrdered(t, Oberkategorien(t));
    var rs := AllNotes(t);
    forall i, j | 0 <= i < j < |rs|
      ensures rs[i] != rs[j]
    {
      BelowIrreflexive(rs[i].ober);
      BelowIrreflexive(rs[i].unter);
      BelowIrreflexive(rs[i].thema);
    }
  }

  // ---------------------------------------------------------------------------
  // Counting
  // ---------------------------------------------------------------------------

  /** The number of subcategories of the categories `cs`. */
  function SubCount(t: Tree, cs: seq<string>): nat
  {
    if cs == [] then 0 else SubCount(t, cs[..|cs| - 1]) + |Unterkategorien(t, cs[|cs| - 1])|
  }

  /** The number of notes in the subcategories `ss` of category `c`, summed left to right. */
  function NoteCount(t: Tree, c: string, ss: seq<string>): nat
  {
    if ss == [] then 0 else NoteCount(t, c, ss[..|ss| - 1]) + |Notes(t, c, ss[|ss| - 1])|
  }

  lemma {:induction false} NoteRefsLength(c: string, s: string, ns: seq<string>)
    ensures |NoteRefs(c, s, ns)| == |ns|
  {
    if ns != [] {
      NoteRefsLength(c, s, ns[..|ns| - 1]);
    }
  }

  lemma SubCountStep(t: Tree, cs: seq<string>, i: nat)
    requires i < |cs|
    ensures SubCount(t, cs[..i + 1]) == SubCount(t, cs[..i]) + |Unterkategorien(t, cs[i])|
  {
    assert cs[..i + 1][..i] == cs[..i];
  }

  lemma NoteCountStep(t: Tree, c: string, ss: seq<string>, j: nat)
    requires j < |ss|
    ensures NoteCount(t, c, ss[..j + 1]) == NoteCount(t, c, ss[..j]) + |Notes(t, c, ss[j])|
  {
    assert ss[..j + 1][..j] == ss[..j];
  }

  /** The note count of a category is the length of its part of the traversal. */
  lemma {:induction false} NoteCountIsLength(t: Tree, c: string, ss: seq<string>)
    ensures NoteCount(t, c, ss) == |SubRefs(t, c, ss)|
  {
    if ss != [] {
      NoteCountIsLength(t, c, ss[..|ss| - 1]);
      NoteRefsLength(c, ss[|ss| - 1], Notes(t, c, ss[|ss| - 1]));
    }
  }
}
