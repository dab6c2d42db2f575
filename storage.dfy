/**
 * The storage layer over the notes tree: the state-changing operations of
 * the store (create, delete, save, restore, the sync-path setting) and the
 * corpus-wide read operations (traversal, statistics, search, backup).
 */
module Storage {
  import opened Wrappers
  import opened Text
  import opened Order
  import opened Corpus

  // ---------------------------------------------------------------------------
  // Backups
  // ---------------------------------------------------------------------------

  datatype BackupEntry = BackupEntry(oberkategorie: string, unterkategorie: string, thema: string, content: string)

  datatype Backup = Backup(version: nat, created: string, notes: seq<BackupEntry>)

  function EntryRef(e: BackupEntry): NoteRef
  {
    NoteRef(e.oberkategorie, e.unterkategorie, e.thema)
  }

  /** createBackup: version 1, one entry per note in traversal order, each with the note's content. */
  function CreateBackup(t: Tree, created: string): (b: Backup)
    ensures b.version == 1 && b.created == created
    ensures |b.notes| == |AllNotes(t)|
    ensures forall i :: 0 <= i < |b.notes| ==>
      EntryRef(b.notes[i]) == AllNotes(t)[i] &&
      ReadNote(t, b.notes[i].oberkategorie, b.notes[i].unterkategorie, b.notes[i].thema) == Some(b.notes[i].content)
  {
    var all := AllNotes(t);
    var notes := seq(|all|, i requires 0 <= i < |all| =>
      BackupEntry(all[i].ober, all[i].unter, all[i].thema, ReadNote(t, all[i].ober, all[i].unter, all[i].thema).GetOr("")));
    assert forall i :: 0 <= i < |all| ==> ReadNote(t, all[i].ober, all[i].unter, all[i].thema).Some? by {
      forall i | 0 <= i < |all|
        ensures ReadNote(t, all[i].ober, all[i].unter, all[i].thema).Some?
      {
        AllNotesMembers(t, all[i]);
      }
    }
    Backup(1, created, notes)
  }

  /** restoreFromBackup as a fold: each entry saved in array order; the first failing save ends the restore. */
  function Restore(t: Tree, notes: seq<BackupEntry>): (r: Result<Tree, FsError>)
    ensures r.Success? && WellFormed(t) ==> WellFormed(r.value)
  {
    if notes == [] then Success(t)
    else
      var e := notes[|notes| - 1];
      match Restore(t, notes[..|notes| - 1])
      case Failure(err) => Failure(err)
      case Success(t') => PutNote(t', e.oberkategorie, e.unterkategorie, e.thema, e.content)
  }

  /** The content of the last entry for note `c/s/th`. */
  function LastContent(notes: seq<BackupEntry>, c: string, s: string, th: string): Option<string>
  {
    if notes == [] then None
    else
      var e := notes[|notes| - 1];
      if EntryRef(e) == NoteRef(c, s, th) then Some(e.content) else LastContent(notes[..|notes| - 1], c, s, th)
  }

  /** After a restore, a note in the backup holds its LAST entry's content; every other note is unchanged. */
  lemma {:induction false} RestoreLaterWins(t: Tree, notes: seq<BackupEntry>, c: string, s: string, th: string)
    requires Restore(t, notes).Success?
    ensures ReadNote(Restore(t, notes).value, c, s, th) ==
            if LastContent(notes, c, s, th).Some? then LastContent(notes, c, s, th) else ReadNote(t, c, s, th)
  {
    if notes != [] {
      var e := notes[|notes| - 1];
      var init := notes[..|notes| - 1];
      RestoreLaterWins(t, init, c, s, th);
      ReadAfterPut(Restore(t, init).value, e.oberkategorie, e.unterkategorie, e.thema, e.content, c, s, th);
    }
  }

  /** Saving a note with the content it already has leaves the tree as it is. */
  lemma PutNoteExisting(t: Tree, c: string, s: string, th: string, x: string)
    requires WellFormed(t) && ReadNote(t, c, s, th) == Some(x)
    ensures PutNote(t, c, s, th, x) == Success(t)
  {
    var cat := t.cats[c];
    var folder := cat.subs[s];
    assert folder[NoteFile(th) := x] == folder;
    assert cat.subs[s := folder] == cat.subs;
    assert cat.(subs := cat.subs) == cat;
    assert t.cats[c := cat] == t.cats;
  }

  lemma {:induction false} RestoreExisting(t: Tree, notes: seq<BackupEntry>)
    requires WellFormed(t)
    requires forall i :: 0 <= i < |notes| ==>
      ReadNote(t, notes[i].oberkategorie, notes[i].unterkategorie, notes[i].thema) == Some(notes[i].content)
    ensures Restore(t, notes) == Success(t)
  {
    if notes != [] {
      var e := notes[|notes| - 1];
      RestoreExisting(t, notes[..|notes| - 1]);
      PutNoteExisting(t, e.oberkategorie, e.unterkategorie, e.thema, e.content);
    }
  }

  /** Restoring a store's own backup into it changes nothing. */
  lemma RestoreOwnBackup(t: Tree, created: string)
    requires WellFormed(t)
    ensures Restore(t, CreateBackup(t, created).notes) == Success(t)
  {
    RestoreExisting(t, CreateBackup(t, created).notes);
  }

  /** A tree with no plain files beside the category and subcategory directories. */
  predicate NoPlainFiles(t: Tree)
  {
    t.files == {} && forall c :: c in t.cats ==> t.cats[c].files == {}
  }

  /** Restoring into a store without stray plain files never fails, and creates none. */
  lemma {:induction false} RestoreNeverFails(t: Tree, notes: seq<BackupEntry>)
    requires NoPlainFiles(t)
    ensures Restore(t, notes).Success? && NoPlainFiles(Restore(t, notes).value)
  {
    if notes != [] {
      RestoreNeverFails(t, notes[..|notes| - 1]);
    }
  }

  /** Restoring a backup into an empty store makes every entry readable, holding its last entry's content. */
  lemma RestoreIntoEmpty(notes: seq<BackupEntry>, i: nat)
    requires i < |notes|
    ensures Restore(EmptyTree, notes).Success?
    ensures var e := notes[i];
      ReadNote(Restore(EmptyTree, notes).value, e.oberkategorie, e.unterkategorie, e.thema) ==
      LastContent(notes, e.oberkategorie, e.unterkategorie, e.thema)
  {
    RestoreNeverFails(EmptyTree, notes);
    var e := notes[i];
    LastContentFound(notes, i);
    RestoreLaterWins(EmptyTree, notes, e.oberkategorie, e.unterkategorie, e.thema);
  }

  lemma {:induction false} LastContentFound(notes: seq<BackupEntry>, i: nat)
    requires i < |notes|
    ensures LastContent(notes, notes[i].oberkategorie, notes[i].unterkategorie, notes[i].thema).Some?
  {
    if i < |notes| - 1 {
      var e := notes[i];
      if EntryRef(notes[|notes| - 1]) != EntryRef(e) {
        LastContentFound(notes[..|notes| - 1], i);
      }
    }
  }

  // ---------------------------------------------------------------------------
  // Configuration
  // ---------------------------------------------------------------------------

  /** The configuration object: a key that is absent is `undefined`, `None` is `null`. */
  type Config = map<string, Option<string>>

  const SyncPathKey := "syncPath"

  /** getSyncPath: `config.syncPath || null`, so an absent, null or empty path reads as null. */
  function SyncPath(config: Config): (r: Option<string>)
    ensures r.Some? <==> SyncPathKey in config && config[SyncPathKey].Some? && config[SyncPathKey].value != ""
    ensures r.Some? ==> Some(r.value) == config[SyncPathKey]
  {
    if SyncPathKey in config && config[SyncPathKey].Some? && config[SyncPathKey].value != "" then config[SyncPathKey] else None
  }

  // ---------------------------------------------------------------------------
  // The store
  // ---------------------------------------------------------------------------

  /** The notes directory and the configuration file, changed in place by the storage operations. */
  class Store {
    var tree: Tree
    var config: Config

    ghost predicate Valid()
      reads this
    {
      WellFormed(tree)
    }

    constructor (t: Tree, cfg: Config)
      requires WellFormed(t)
      ensures Valid() && tree == t && config == cfg
    {
      tree := t;
      config := cfg;
    }

    /** createOberkategorie. */
    method CreateOberkategorie(name: string)
      requires Valid()
      modifies this
      ensures Valid() && config == old(config)
      ensures tree == MakeCategory(old(tree), name)
    {
      tree := MakeCategory(tree, name);
    }

    /** createUnterkategorie: fails (throws) when the category is a plain file. */
    method CreateUnterkategorie(oberkategorie: string, name: string) returns (r: Result<(), FsError>)
      requires Valid()
      modifies this
      ensures Valid() && config == old(config)
      ensures r.Failure? <==> MakeSubcategory(old(tree), oberkategorie, name).Failure?
      ensures r.Success? ==> tree == MakeSubcategory(old(tree), oberkategorie, name).value
      ensures r.Failure? ==> tree == old(tree)
    {
      var res := MakeSubcategory(tree, oberkategorie, name);
      if res.Failure? {
        return Failure(res.error);
      }
      tree := res.value;
      return Success(());
    }

    /** deleteOberkategorie. */
    method DeleteOberkategorie(name: string)
      requires Valid()
      modifies this
      ensures Valid() && config == old(config)
      ensures tree == RemoveCategory(old(tree), name)
    {
      tree := RemoveCategory(tree, name);
    }

    /** deleteUnterkategorie. */
    method DeleteUnterkategorie(oberkategorie: string, name: string)
      requires Valid()
      modifies this
      ensures Valid() && config == old(config)
      ensures tree == RemoveSubcategory(old(tree), oberkategorie, name)
    {
      tree := RemoveSubcategory(tree, oberkategorie, name);
    }

    /** saveNote: fails (throws) when the category or the subcategory is a plain file. */
    method SaveNote(oberkategorie: string, unterkategorie: string, thema: string, content: string)
      returns (r: Result<(), FsError>)
      requires Valid()
      modifies this
      ensures Valid() && config == old(config)
      ensures r.Failure? <==> PutNote(old(tree), oberkategorie, unterkategorie, thema, content).Failure?
      ensures r.Success? ==> tree == PutNote(old(tree), oberkategorie, unterkategorie, thema, content).value
      ensures r.Failure? ==> tree == old(tree)
    {
      var res := PutNote(tree, oberkategorie, unterkategorie, thema, content);
      if res.Failure? {
        return Failure(res.error);
      }
      tree := res.value;
      return Success(());
    }

    /** deleteNote. */
    method DeleteNote(oberkategorie: string, unterkategorie: string, thema: string)
      requires Valid()
      modifies this
      ensures Valid() && config == old(config)
      ensures tree == RemoveNote(old(tree), oberkategorie, unterkategorie, thema)
    {
      tree := RemoveNote(tree, oberkategorie, unterkategorie, thema);
    }

    /**
     * restoreFromBackup: saves the entries in order and answers how many it saved.
     * A failing save ends it, with the entries before it saved.
     */
    method RestoreFromBackup(backup: Backup) returns (r: Result<nat, FsError>)
      requires Valid()
      modifies this
      ensures Valid() && config == old(config)
      ensures r.Success? <==> Restore(old(tree), backup.notes).Success?
      ensures r.Success? ==> r.value == |backup.notes| && tree == Restore(old(tree), backup.notes).value
      ensures r.Failure? ==> exists k :: StoppedAt(old(tree), backup.notes, k, tree)
    {
      var notes := backup.notes;
      var restored := 0;
      while restored < |notes|
        invariant 0 <= restored <= |notes|
        invariant Valid() && config == old(config)
        invariant Restore(old(tree), notes[..restored]) == Success(tree)
      {
        var e := notes[restored];
        RestoreStep(old(tree), notes, restored);
        var res := SaveNote(e.oberkategorie, e.unterkategorie, e.thema, e.content);
        if res.Failure? {
          FailureStops(old(tree), notes, restored);
          assert StoppedAt(old(tree), notes, restored, tree);
          return Failure(res.error);
        }
        restored := restored + 1;
      }
      assert notes[..restored] == notes;
      return Success(restored);
    }

    /** setSyncPath: sets the `syncPath` key and keeps every other key. */
    method SetSyncPath(syncPath: Option<string>)
      requires Valid()
      modifies this
      ensures Valid() && tree == old(tree)
      ensures config == old(config)[SyncPathKey := syncPath]
      ensures SyncPath(config) == if syncPath.Some? && syncPath.value != "" then syncPath else None
    {
      config := config[SyncPathKey := syncPath];
    }
  }

  /** The restore saved the entries before `k` into `t'` and then failed to save entry `k`. */
  predicate StoppedAt(t: Tree, notes: seq<BackupEntry>, k: int, t': Tree)
  {
    0 <= k < |notes| && Restore(t, notes[..k]) == Success(t') &&
    PutNote(t', notes[k].oberkategorie, notes[k].unterkategorie, notes[k].thema, notes[k].content).Failure?
  }

  lemma RestoreStep(t: Tree, notes: seq<BackupEntry>, k: nat)
    requires k < |notes| && Restore(t, notes[..k]).Success?
    ensures Restore(t, notes[..k + 1]) ==
      PutNote(Restore(t, notes[..k]).value, notes[k].oberkategorie, notes[k].unterkategorie, notes[k].thema, notes[k].content)
  {
    assert notes[..k + 1][..k] == notes[..k];
  }

  /** A save that fails ends the restore with that failure. */
  lemma {:induction false} FailureStops(t: Tree, notes: seq<BackupEntry>, k: nat)
    requires k < |notes| && Restore(t, notes[..k]).Success?
    requires PutNote(Restore(t, notes[..k]).value, notes[k].oberkategorie, notes[k].unterkategorie, notes[k].thema, notes[k].content).Failure?
    ensures Restore(t, notes).Failure?
    decreases |notes|
  {
    if k < |notes| - 1 {
      assert notes[..|notes| - 1][..k] == notes[..k];
      FailureStops(t, notes[..|notes| - 1], k);
    } else {
      assert notes[..|notes| - 1] == notes[..k];
    }
  }

  // ---------------------------------------------------------------------------
  // Traversal and statistics
  // ---------------------------------------------------------------------------

  /** getAllNotes: the outer loop, over the categories. */
  method GetAllNotes(t: Tree) returns (all: seq<NoteRef>)
    requires WellFormed(t)
    ensures all == AllNotes(t)
  {
    all := [];
    var obers := Oberkategorien(t);
    var i := 0;
    while i < |obers|
      invariant 0 <= i <= |obers|
      invariant all == CatRefs(t, obers[..i])
    {
      var notes := CategoryNotes(t, obers[i]);
      CatRefsStep(t, obers, i);
      all := all + notes;
      i := i + 1;
    }
    assert obers[..i] == obers;
  }

  /** The middle loop of getAllNotes: the notes of one category, subcategory by subcategory. */
  method CategoryNotes(t: Tree, ober: string) returns (refs: seq<NoteRef>)
    requires WellFormed(t) && ober in t.cats
    ensures refs == SubRefs(t, ober, Unterkategorien(t, ober))
  {
    refs := [];
    var unters := GetUnterkategorien(t, ober).value;
    var j := 0;
    while j < |unters|
      invariant 0 <= j <= |unters|
      invariant refs == SubRefs(t, ober, unters[..j])
    {
      ListedSubcategoryIsDirectory(t, ober, unters[j]);
      var found := SubcategoryNotes(t, ober, unters[j]);
      SubRefsStep(t, ober, unters, j);
      refs := refs + found;
      j := j + 1;
    }
    assert unters[..j] == unters;
  }

  /** The inner loop of getAllNotes: one entry per note of subcategory `ober/unter`. */
  method SubcategoryNotes(t: Tree, ober: string, unter: string) returns (found: seq<NoteRef>)
    requires GetNotes(t, ober, unter).Success?
    ensures found == NoteRefs(ober, unter, Notes(t, ober, unter))
  {
    var notes := GetNotes(t, ober, unter).value;
    found := [];
    var k := 0;
    while k < |notes|
      invariant 0 <= k <= |notes|
      invariant found == NoteRefs(ober, unter, notes[..k])
    {
      NoteRefsStep(ober, unter, notes, k);
      found := found + [NoteRef(ober, unter, notes[k])];
      k := k + 1;
    }
    assert notes[..k] == notes;
  }

  datatype Stats = Stats(oberkategorien: nat, unterkategorien: nat, notes: nat)

  /** getStats: the number of categories, of subcategories and of notes. */
  method GetStats(t: Tree) returns (st: Stats)
    requires WellFormed(t)
    ensures st.oberkategorien == |Oberkategorien(t)|
    ensures st.unterkategorien == SubCount(t, Oberkategorien(t))
    ensures st.notes == |AllNotes(t)|
  {
    var obers := Oberkategorien(t);
    var unterCount, noteCount := CountCategories(t, obers);
    return Stats(|obers|, unterCount, noteCount);
  }

  /** getStats' outer loop over the categories `obers`. */
  method CountCategories(t: Tree, obers: seq<string>) returns (unterCount: nat, noteCount: nat)
    requires WellFormed(t) && forall c :: c in obers ==> c in t.cats
    ensures unterCount == SubCount(t, obers)
    ensures noteCount == |CatRefs(t, obers)|
  {
    unterCount := 0;
    noteCount := 0;
    var i := 0;
    while i < |obers|
      invariant 0 <= i <= |obers|
      invariant unterCount == SubCount(t, obers[..i])
      invariant noteCount == |CatRefs(t, obers[..i])|
    {
      var subs, notes := CategoryStats(t, obers[i]);
      SubCountStep(t, obers, i);
      CatRefsLengthStep(t, obers, i);
      unterCount := unterCount + subs;
      noteCount := noteCount + notes;
      i := i + 1;
    }
    assert obers[..i] == obers;
  }

  lemma CatRefsLengthStep(t: Tree, cs: seq<string>, i: nat)
    requires i < |cs|
    ensures |CatRefs(t, cs[..i + 1])| == |CatRefs(t, cs[..i])| + |SubRefs(t, cs[i], Unterkategorien(t, cs[i]))|
  {
    CatRefsStep(t, cs, i);
  }

  /** One round of getStats' outer loop: the subcategories of `ober` and the notes below it. */
  method CategoryStats(t: Tree, ober: string) returns (subs: nat, notes: nat)
    requires WellFormed(t) && ober in t.cats
    ensures subs == |Unterkategorien(t, ober)|
    ensures notes == |SubRefs(t, ober, Unterkategorien(t, ober))|
  {
    var unters := GetUnterkategorien(t, ober).value;
    subs := |unters|;
    forall u | u in unters
      ensures GetNotes(t, ober, u).Success?
    {
      ListedSubcategoryIsDirectory(t, ober, u);
    }
    notes := CountSubcategoryNotes(t, ober, unters);
    NoteCountIsLength(t, ober, unters);
  }

  /** The inner loop of getStats: the notes of the subcategories `unters` of `ober`. */
  method CountSubcategoryNotes(t: Tree, ober: string, unters: seq<string>) returns (n: nat)
    requires forall u :: u in unters ==> GetNotes(t, ober, u).Success?
    ensures n == NoteCount(t, ober, unters)
  {
    n := 0;
    var j := 0;
    while j < |unters|
      invariant 0 <= j <= |unters|
      invariant n == NoteCount(t, ober, unters[..j])
    {
      NoteCountStep(t, ober, unters, j);
      n := n + |GetNotes(t, ober, unters[j]).value|;
      j := j + 1;
    }
    assert unters[..j] == unters;
  }

  // ---------------------------------------------------------------------------
  // Search
  // ---------------------------------------------------------------------------

  datatype SearchHit = SearchHit(oberkategorie: string, unterkategorie: string, thema: string, preview: string)

  function HitRef(h: SearchHit): NoteRef
  {
    NoteRef(h.oberkategorie, h.unterkategorie, h.thema)
  }

  /** The notes the hits are about, in order. */
  function HitRefs(hs: seq<SearchHit>): seq<NoteRef>
  {
    if hs == [] then [] else HitRefs(hs[..|hs| - 1]) + [HitRef(hs[|hs| - 1])]
  }

  /** `"..."` when `b`, else nothing. */
  function Ellipsis(b: bool): string
  {
    if b then "..." else ""
  }

  /**
   * The preview before newlines are replaced: around the first case-insensitive
   * match, or the start of the content when only the title matched.
   */
  function MarkPreview(x: string, q: string): string
  {
    match IndexOf(Lower(x), Lower(q))
    case Some(idx) => MarkAt(x, idx, |q|)
    case None =>
      x[..if |x| <= 100 then |x| else 100] + Ellipsis(|x| > 100)
  }

  /** The excerpt around the match `x[idx..idx + n]`: up to 50 characters either side. */
  function MarkAt(x: string, idx: nat, n: nat): string
    requires idx + n <= |x|
  {
    Excerpt(x, ContextStart(idx), idx, idx + n, ContextEnd(|x|, idx + n))
  }

  /** Where the excerpt starts: 50 characters before the match, or the start of the content. */
  function ContextStart(idx: nat): (start: nat)
    ensures start <= idx && idx - start <= 50 && (start == 0 || idx - start == 50)
  {
    if idx >= 50 then idx - 50 else 0
  }

  /** Where the excerpt ends: 50 characters after the match, or the end of the content. */
  function ContextEnd(len: nat, idx2: nat): (end: nat)
    requires idx2 <= len
    ensures idx2 <= end <= len && end - idx2 <= 50 && (end == len || end - idx2 == 50)
  {
    if len <= idx2 + 50 then len else idx2 + 50
  }

  /** `x[start..end]` with the match `x[idx..idx2]` wrapped in `<mark>`, and `...` on each side that was cut. */
  function Excerpt(x: string, start: nat, idx: nat, idx2: nat, end: nat): string
    requires start <= idx <= idx2 <= end <= |x|
  {
    Ellipsis(start > 0) + x[start..idx] + "<mark>" + x[idx..idx2] + "</mark>" + x[idx2..end] + Ellipsis(end < |x|)
  }

  /** The preview a search hit carries: every newline becomes a space. */
  function Preview(x: string, q: string): string
  {
    ReplaceChar(MarkPreview(x, q), '\n', " ")
  }

  /**
   * The preview around a match: at most 50 characters of context on either side
   * of the FIRST case-insensitive match, cut short only by the ends of the content,
   * with `...` exactly where the content was cut.
   */
  lemma PreviewAroundMatch(x: string, q: string) returns (start: nat, idx: nat, end: nat)
    requires Contains(Lower(x), Lower(q))
    ensures start <= idx && idx + |q| <= end <= |x|
    ensures Lower(x[idx..idx + |q|]) == Lower(q)
    ensures forall k :: 0 <= k < idx ==> !OccursAt(Lower(x), Lower(q), k)
    ensures idx - start <= 50 && (start == 0 || idx - start == 50) &&
      end - (idx + |q|) <= 50 && (end == |x| || end - (idx + |q|) == 50) &&
      MarkPreview(x, q) == Excerpt(x, start, idx, idx + |q|, end)
  {
    var found := IndexOf(Lower(x), Lower(q));
    idx := found.value;
    assert MarkPreview(x, q) == MarkAt(x, idx, |q|);
    LowerSlice(x, idx, idx + |q|);
    start := ContextStart(idx);
    end := ContextEnd(|x|, idx + |q|);
  }

  /** Without a match in the content, the preview is the first 100 characters, with `...` when there are more. */
  lemma PreviewWithoutMatch(x: string, q: string)
    requires !Contains(Lower(x), Lower(q))
    ensures |x| <= 100 ==> MarkPreview(x, q) == x
    ensures |x| > 100 ==> MarkPreview(x, q) == x[..100] + "..."
  {
  }

  /** The preview holds no newline. */
  lemma PreviewNoNewline(x: string, q: string)
    ensures '\n' !in Preview(x, q)
  {
    ReplaceCharRemoves(MarkPreview(x, q), '\n', " ");
  }

  /** The preview is never longer than the query plus 100 characters of context and 19 of markup. */
  lemma PreviewLength(x: string, q: string)
    ensures |Preview(x, q)| <= |q| + 119
  {
    ReplaceCharByOneLength(MarkPreview(x, q), '\n', ' ');
  }

  /** A note is a hit: it has non-empty content, and its title or content contains the query, ignoring case. */
  predicate Matches(t: Tree, r: NoteRef, q: string)
  {
    var content := ReadNote(t, r.ober, r.unter, r.thema);
    content.Some? && content.value != "" &&
    (Contains(Lower(r.thema), Lower(q)) || Contains(Lower(content.value), Lower(q)))
  }

  /** The hits among `refs`, in their order. */
  function SearchOver(t: Tree, refs: seq<NoteRef>, q: string): seq<SearchHit>
  {
    if refs == [] then []
    else
      SearchOver(t, refs[..|refs| - 1], q) + HitOf(t, refs[|refs| - 1], q)
  }

  /** The hit note `r` gives, if it matches. */
  function HitOf(t: Tree, r: NoteRef, q: string): seq<SearchHit>
  {
    if Matches(t, r, q)
    then [SearchHit(r.ober, r.unter, r.thema, Preview(ReadNote(t, r.ober, r.unter, r.thema).value, q))]
    else []
  }

  lemma SearchOverStep(t: Tree, refs: seq<NoteRef>, i: nat, q: string)
    requires i < |refs|
    ensures SearchOver(t, refs[..i + 1], q) == SearchOver(t, refs[..i], q) + HitOf(t, refs[i], q)
  {
    assert refs[..i + 1][..i] == refs[..i];
  }

  /** The result searchNotes computes. */
  function Search(t: Tree, q: string): seq<SearchHit>
  {
    SearchOver(t, AllNotes(t), q)
  }

  lemma {:induction false} SearchOverMembers(t: Tree, refs: seq<NoteRef>, q: string, h: SearchHit)
    ensures h in SearchOver(t, refs, q) <==>
      HitRef(h) in refs && Matches(t, HitRef(h), q) &&
      h.preview == Preview(ReadNote(t, h.oberkategorie, h.unterkategorie, h.thema).value, q)
  {
    if refs != [] {
      SearchOverMembers(t, refs[..|refs| - 1], q, h);
      assert refs == refs[..|refs| - 1] + [refs[|refs| - 1]];
    }
  }

  lemma {:induction false} SearchOverOrder(t: Tree, refs: seq<NoteRef>, q: string)
    ensures IsSubsequence(HitRefs(SearchOver(t, refs, q)), refs)
  {
    if refs != [] {
      var init := refs[..|refs| - 1];
      var r := refs[|refs| - 1];
      var before := HitRefs(SearchOver(t, init, q));
      SearchOverOrder(t, init, q);
      SubsequenceExtend(before, init, r);
      assert init + [r] == refs;
      HitRefsStep(t, init, r, q);
    }
  }

  lemma HitRefsStep(t: Tree, init: seq<NoteRef>, r: NoteRef, q: string)
    ensures Matches(t, r, q) ==> HitRefs(SearchOver(t, init + [r], q)) == HitRefs(SearchOver(t, init, q)) + [r]
    ensures !Matches(t, r, q) ==> HitRefs(SearchOver(t, init + [r], q)) == HitRefs(SearchOver(t, init, q))
  {
    var a := SearchOver(t, init, q);
    var hs := HitOf(t, r, q);
    assert (init + [r])[..|init|] == init;
    assert SearchOver(t, init + [r], q) == a + hs;
    if Matches(t, r, q) {
      assert (a + hs)[..|a|] == a;
    } else {
      assert a + hs == a;
    }
  }

  /**
   * searchNotes finds exactly the notes with non-empty content whose title or
   * content contains the query ignoring case, each once with its preview, in
   * traversal order.
   */
  lemma SearchMeaning(t: Tree, q: string, h: SearchHit)
    ensures h in Search(t, q) <==>
      Matches(t, HitRef(h), q) &&
      h.preview == Preview(ReadNote(t, h.oberkategorie, h.unterkategorie, h.thema).value, q)
    ensures IsSubsequence(HitRefs(Search(t, q)), AllNotes(t))
  {
    SearchOverMembers(t, AllNotes(t), q, h);
    AllNotesMembers(t, HitRef(h));
    SearchOverOrder(t, AllNotes(t), q);
  }

  /** searchNotes: a loop over the traversal, skipping notes that are empty or do not match. */
  method SearchNotes(t: Tree, query: string) returns (results: seq<SearchHit>)
    requires WellFormed(t)
    ensures results == Search(t, query)
  {
    results := [];
    var queryLower := Lower(query);
    var all := GetAllNotes(t);
    var i := 0;
    while i < |all|
      invariant 0 <= i <= |all|
      invariant results == SearchOver(t, all[..i], query)
    {
      var r := all[i];
      SearchOverStep(t, all, i, query);
      var content := ReadNote(t, r.ober, r.unter, r.thema);
      if content.Some? && content.value != "" {
        var contentLower := Lower(content.value);
        var themaLower := Lower(r.thema);
        if Contains(themaLower, queryLower) || Contains(contentLower, queryLower) {
          results := results + [SearchHit(r.ober, r.unter, r.thema, Preview(content.value, query))];
        }
      }
      i := i + 1;
    }
    assert all[..i] == all;
  }
}
