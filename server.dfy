/**
 * The editor servers' request handling: the title check, the frontmatter
 * written on save and autosave, the search guard, the text the edit page
 * starts from, and the escaping applied before the edit page embeds the
 * note.
 */
module Server {
  import opened Wrappers
  import opened Text
  import opened Corpus
  import opened Storage
  import opened Utils

  // ---------------------------------------------------------------------------
  // Requests and responses
  // ---------------------------------------------------------------------------

  /** The body of a `/save` or `/autosave` request; `thema` may be missing. */
  datatype SaveRequest = SaveRequest(oberkategorie: string, unterkategorie: string, thema: Option<string>, content: string)

  /** The answer to `/save`. */
  datatype SaveResponse =
    | Saved(path: string)
    | BadRequest(error: string)
    | SaveFailed(fault: FsError)

  /** The answer to `/autosave`. */
  datatype AutosaveResponse =
    | AutoSaved(savedAt: string)
    | NotSaved(reason: string)
    | AutosaveFailed(fault: FsError)

  /** `!thema || !thema.trim()`: the title is missing, empty or whitespace only. */
  predicate ThemaMissing(thema: Option<string>)
  {
    thema.None? || Trim(thema.value) == ""
  }

  // ---------------------------------------------------------------------------
  // The saved text
  // ---------------------------------------------------------------------------

  /** The frontmatter lines after the opening `---`, each with the newline before it, and the newline before the closing `---`. */
  function FrontmatterLines(c: string, s: string, thema: string, datum: string): string
  {
    "\nOberkategorie: " + c + "\nUnterkategorie: " + s + "\nThema: " + thema + "\nErstellt: " + datum + "\n"
  }

  /** The text written to the note file: the frontmatter block (with the trimmed title), an empty line, then the body. */
  function ComposeNote(c: string, s: string, thema: string, datum: string, body: string): string
  {
    "---" + FrontmatterLines(c, s, Trim(thema), datum) + "---\n\n" + body
  }

  /** No run of three dashes occurs in `s`. */
  predicate NoDashRun(s: string)
  {
    !Contains(s, "---")
  }

  lemma NoDashNoRun(s: string)
    requires '-' !in s
    ensures NoDashRun(s)
  {
    forall i | 0 <= i <= |s|
      ensures !OccursAt(s, "---", i)
    {
      if i + 3 <= |s| {
        assert s[i..i + 3][0] == s[i];
      }
    }
  }

  /** Joining two dash-run-free texts makes no run unless a dash meets a dash at the seam. */
  lemma NoDashRunConcat(a: string, b: string)
    requires NoDashRun(a) && NoDashRun(b)
    requires a == [] || b == [] || a[|a| - 1] != '-' || b[0] != '-'
    ensures NoDashRun(a + b)
  {
    forall i | 0 <= i <= |a + b|
      ensures !OccursAt(a + b, "---", i)
    {
      if i + 3 <= |a + b| {
        if i + 3 <= |a| {
          assert (a + b)[i..i + 3] == a[i..i + 3];
          assert !OccursAt(a, "---", i);
        } else if i >= |a| {
          assert (a + b)[i..i + 3] == b[i - |a|..i - |a| + 3];
          assert !OccursAt(b, "---", i - |a|);
        } else {
          assert (a + b)[i..i + 3][|a| - 1 - i] == a[|a| - 1];
          assert (a + b)[i..i + 3][|a| - i] == b[0];
        }
      }
    }
  }

  /** With no field holding `---`, the frontmatter lines (and two more dashes) hold no `---`. */
  lemma FrontmatterLinesNoRun(c: string, s: string, thema: string, datum: string)
    requires NoDashRun(c) && NoDashRun(s) && NoDashRun(thema) && NoDashRun(datum)
    ensures NoDashRun(FrontmatterLines(c, s, thema, datum) + "--")
  {
    var p1, p2, p3, p4, p5 := "\nOberkategorie: ", "\nUnterkategorie: ", "\nThema: ", "\nErstellt: ", "\n";
    NoDashNoRun(p1);
    NoDashNoRun(p2);
    NoDashNoRun(p3);
    NoDashNoRun(p4);
    NoDashNoRun(p5);
    NoDashRunConcat(p1, c);
    NoDashRunConcat(p1 + c, p2);
    NoDashRunConcat(p1 + c + p2, s);
    NoDashRunConcat(p1 + c + p2 + s, p3);
    NoDashRunConcat(p1 + c + p2 + s + p3, thema);
    NoDashRunConcat(p1 + c + p2 + s + p3 + thema, p4);
    NoDashRunConcat(p1 + c + p2 + s + p3 + thema + p4, datum);
    NoDashRunConcat(p1 + c + p2 + s + p3 + thema + p4 + datum, p5);
    var lines := FrontmatterLines(c, s, thema, datum);
    assert lines == p1 + c + p2 + s + p3 + thema + p4 + datum + p5;
    assert forall i :: 0 <= i <= 2 ==> !OccursAt("--", "---", i);
    NoDashRunConcat(lines, "--");
  }

  /**
   * Stripping the frontmatter of a composed note gives back the trimmed body,
   * provided no field holds `---`.
   */
  lemma ComposeStripRoundTrip(c: string, s: string, thema: string, datum: string, body: string)
    requires NoDashRun(c) && NoDashRun(s) && NoDashRun(Trim(thema)) && NoDashRun(datum)
    ensures StripFrontmatter(ComposeNote(c, s, thema, datum, body)) == Trim(body)
  {
    var lines := FrontmatterLines(c, s, Trim(thema), datum);
    FrontmatterLinesNoRun(c, s, Trim(thema), datum);
    DelimitedStrip(lines, body);
  }

  /** A block between `---` lines whose text, with the closing dashes, holds no earlier `---` is cut off. */
  lemma DelimitedStrip(lines: string, body: string)
    requires NoDashRun(lines + "--")
    ensures StripFrontmatter("---" + lines + "---\n\n" + body) == Trim(body)
  {
    var doc := "---" + lines + "---\n\n" + body;
    var k := 3 + |lines|;
    NoEarlierDelimiter(lines, doc);
    assert doc[k..k + 3] == "---";
    assert doc[..3] == "---";
    StripWithFrontmatter(doc, k);
    assert doc[k + 3] == '\n';
    assert doc[k + 4..] == "\n" + body;
    TrimSkipsBlankPrefix("\n", body);
  }

  lemma NoEarlierDelimiter(lines: string, doc: string)
    requires NoDashRun(lines + "--")
    requires |doc| >= 3 + |lines| + 2 && doc[3..3 + |lines| + 2] == lines + "--"
    ensures forall j :: 3 <= j < 3 + |lines| ==> !OccursAt(doc, "---", j)
  {
    var w := lines + "--";
    forall j | 3 <= j < 3 + |lines|
      ensures !OccursAt(doc, "---", j)
    {
      var m := j - 3;
      assert !OccursAt(w, "---", m);
      assert doc[j..j + 3] == w[m..m + 3] by {
        var v := doc[3..3 + |w|];
        assert v[m] == doc[j] && v[m + 1] == doc[j + 1] && v[m + 2] == doc[j + 2];
      }
    }
  }

  // ---------------------------------------------------------------------------
  // Save and autosave
  // ---------------------------------------------------------------------------

  /** The file text a save request writes. */
  function RequestNote(req: SaveRequest, datum: string): string
    requires !ThemaMissing(req.thema)
  {
    ComposeNote(req.oberkategorie, req.unterkategorie, req.thema.value, datum, req.content)
  }

  /** What a save request does to the notes: `saveNote` under the trimmed title. */
  function SaveEffect(t: Tree, req: SaveRequest, datum: string): Result<Tree, FsError>
    requires !ThemaMissing(req.thema)
  {
    PutNote(t, req.oberkategorie, req.unterkategorie, Trim(req.thema.value), RequestNote(req, datum))
  }

  /**
   * The directory creation (when `createFirst`, as the new-note server does)
   * followed by `saveNote`; saving creates missing directories itself, so both
   * variants end in the same state.
   */
  method StoreNote(store: Store, c: string, s: string, thema: string, fullContent: string, createFirst: bool)
    returns (r: Result<(), FsError>)
    requires store.Valid()
    modifies store
    ensures store.Valid() && store.config == old(store.config)
    ensures r.Success? <==> PutNote(old(store.tree), c, s, thema, fullContent).Success?
    ensures r.Success? ==> store.tree == PutNote(old(store.tree), c, s, thema, fullContent).value
    ensures r.Failure? ==> store.tree == old(store.tree) && r.error == NotADirectory
  {
    if createFirst {
      store.CreateOberkategorie(c);
      var made := store.CreateUnterkategorie(c, s);
      if made.Failure? {
        return Failure(made.error);
      }
      PutNoteAfterMakeSubcategory(old(store.tree), c, s, thema, fullContent);
    }
    r := store.SaveNote(c, s, thema, fullContent);
  }

  /** `/save`: a missing title is refused with 400, otherwise the note is written under its trimmed title. */
  method Save(store: Store, req: SaveRequest, datum: string, createFirst: bool) returns (res: SaveResponse)
    requires store.Valid()
    modifies store
    ensures store.Valid() && store.config == old(store.config)
    ensures ThemaMissing(req.thema) ==> res == BadRequest("Thema fehlt") && store.tree == old(store.tree)
    ensures !ThemaMissing(req.thema) && SaveEffect(old(store.tree), req, datum).Success? ==>
      res == Saved(req.oberkategorie + "/" + req.unterkategorie + "/" + req.thema.value) &&
      store.tree == SaveEffect(old(store.tree), req, datum).value
    ensures !ThemaMissing(req.thema) && SaveEffect(old(store.tree), req, datum).Failure? ==>
      res == SaveFailed(NotADirectory) && store.tree == old(store.tree)
  {
    if ThemaMissing(req.thema) {
      return BadRequest("Thema fehlt");
    }
    var thema := req.thema.value;
    var fullContent := ComposeNote(req.oberkategorie, req.unterkategorie, thema, datum, req.content);
    var r := StoreNote(store, req.oberkategorie, req.unterkategorie, Trim(thema), fullContent, createFirst);
    if r.Failure? {
      return SaveFailed(r.error);
    }
    res := Saved(req.oberkategorie + "/" + req.unterkategorie + "/" + thema);
  }

  /** `/autosave`: like `/save`, but a missing title answers `no_thema` and success answers the time. */
  method Autosave(store: Store, req: SaveRequest, datum: string, savedAt: string, createFirst: bool)
    returns (res: AutosaveResponse)
    requires store.Valid()
    modifies store
    ensures store.Valid() && store.config == old(store.config)
    ensures ThemaMissing(req.thema) ==> res == NotSaved("no_thema") && store.tree == old(store.tree)
    ensures !ThemaMissing(req.thema) && SaveEffect(old(store.tree), req, datum).Success? ==>
      res == AutoSaved(savedAt) && store.tree == SaveEffect(old(store.tree), req, datum).value
    ensures !ThemaMissing(req.thema) && SaveEffect(old(store.tree), req, datum).Failure? ==>
      res == AutosaveFailed(NotADirectory) && store.tree == old(store.tree)
  {
    if ThemaMissing(req.thema) {
      return NotSaved("no_thema");
    }
    var thema := req.thema.value;
    var fullContent := ComposeNote(req.oberkategorie, req.unterkategorie, thema, datum, req.content);
    var r := StoreNote(store, req.oberkategorie, req.unterkategorie, Trim(thema), fullContent, createFirst);
    if r.Failure? {
      return AutosaveFailed(r.error);
    }
    res := AutoSaved(savedAt);
  }

  /**
   * A save stores the composed text under the trimmed title and changes no
   * other note; it fails exactly when the category or the subcategory is a
   * plain file.
   */
  lemma SaveStoresComposedNote(t: Tree, req: SaveRequest, datum: string, c: string, s: string, th: string)
    requires !ThemaMissing(req.thema)
    ensures SaveEffect(t, req, datum).Failure? <==>
      req.oberkategorie in t.files || (req.oberkategorie in t.cats && req.unterkategorie in t.cats[req.oberkategorie].files)
    ensures SaveEffect(t, req, datum).Success? ==>
      ReadNote(SaveEffect(t, req, datum).value, c, s, th) ==
        if c == req.oberkategorie && s == req.unterkategorie && th == Trim(req.thema.value)
        then Some(RequestNote(req, datum)) else ReadNote(t, c, s, th)
  {
    if SaveEffect(t, req, datum).Success? {
      ReadAfterPut(t, req.oberkategorie, req.unterkategorie, Trim(req.thema.value), RequestNote(req, datum), c, s, th);
    }
  }

  // ---------------------------------------------------------------------------
  // The edit page
  // ---------------------------------------------------------------------------

  /** The text the edit server starts from: the note without its frontmatter, or empty for no note. */
  function EditorContent(content: Option<string>): (r: string)
    ensures content.None? ==> r == ""
    ensures content.Some? ==> r == StripFrontmatter(content.value)
  {
    if content.None? || content.value == "" then "" else StripFrontmatter(content.value)
  }

  /**
   * Saving a note and opening it in the edit server gives back the typed body,
   * trimmed, provided no field holds `---`.
   */
  lemma EditAfterSave(t: Tree, req: SaveRequest, datum: string)
    requires !ThemaMissing(req.thema) && SaveEffect(t, req, datum).Success?
    requires NoDashRun(req.oberkategorie) && NoDashRun(req.unterkategorie)
    requires NoDashRun(Trim(req.thema.value)) && NoDashRun(datum)
    ensures EditorContent(ReadNote(SaveEffect(t, req, datum).value, req.oberkategorie, req.unterkategorie, Trim(req.thema.value)))
      == Trim(req.content)
  {
    SaveStoresComposedNote(t, req, datum, req.oberkategorie, req.unterkategorie, Trim(req.thema.value));
    ComposeStripRoundTrip(req.oberkategorie, req.unterkategorie, req.thema.value, datum, req.content);
  }

  /** The content escape of getEditHTML for one character: a backslash before each backtick and `$`. */
  function ContentEscapeChar(x: char): string
  {
    if x == '`' then "\\`" else if x == '$' then "\\$" else [x]
  }

  /** The content escape as written: every backtick, then every `$`, gets a backslash in front. */
  function EscapeContent(s: string): string
  {
    ReplaceChar(ReplaceChar(s, '`', "\\`"), '$', "\\$")
  }

  lemma ReplaceCharCons(x: char, rest: string, c: char, r: string)
    ensures ReplaceChar([x] + rest, c, r) == (if x == c then r else [x]) + ReplaceChar(rest, c, r)
  {
    assert ([x] + rest)[1..] == rest;
  }

  /** The two global replacements act character by character. */
  lemma EscapeContentCons(x: char, rest: string)
    ensures EscapeContent([x] + rest) == ContentEscapeChar(x) + EscapeContent(rest)
  {
    var head := if x == '`' then "\\`" else [x];
    ReplaceCharCons(x, rest, '`', "\\`");
    ReplaceCharConcat(head, ReplaceChar(rest, '`', "\\`"), '$', "\\$");
    if x == '$' {
      assert ReplaceChar(head, '$', "\\$") == "\\$" + ReplaceChar([], '$', "\\$");
    } else {
      assert '$' !in head;
      ReplaceCharAbsent(head, '$', "\\$");
    }
  }

  /** The content grows by one character per backtick and per `$`. */
  lemma {:induction false} EscapeContentLength(s: string)
    ensures |EscapeContent(s)| == |s| + Count(s, '`') + Count(s, '$')
  {
    if s != [] {
      EscapeContentCons(s[0], s[1..]);
      assert [s[0]] + s[1..] == s;
      EscapeContentLength(s[1..]);
    }
  }

  /** Every backtick and `$` of the escaped content comes right after a backslash. */
  lemma {:induction false} EscapeContentGuarded(s: string)
    ensures var r := EscapeContent(s);
      forall i :: 0 <= i < |r| && (r[i] == '`' || r[i] == '$') ==> 0 < i && r[i - 1] == '\\'
  {
    if s != [] {
      var e := ContentEscapeChar(s[0]);
      var rest := EscapeContent(s[1..]);
      EscapeContentCons(s[0], s[1..]);
      assert [s[0]] + s[1..] == s;
      EscapeContentGuarded(s[1..]);
      var r := e + rest;
      forall i | 0 <= i < |r| && (r[i] == '`' || r[i] == '$')
        ensures 0 < i && r[i - 1] == '\\'
      {
        if i >= |e| {
          assert r[i] == rest[i - |e|];
          if i - |e| > 0 {
            assert r[i - 1] == rest[i - |e| - 1];
          }
        }
      }
    }
  }

  /** The title escape of getEditHTML for one character: `'` gets a backslash, `"` becomes `&quot;`. */
  function TitleEscapeChar(x: char): string
  {
    if x == '\'' then "\\'" else if x == '"' then "&quot;" else [x]
  }

  /** The title escape as written: every `'`, then every `"`, replaced. */
  function EscapeTitle(s: string): string
  {
    ReplaceChar(ReplaceChar(s, '\'', "\\'"), '"', "&quot;")
  }

  lemma EscapeTitleCons(x: char, rest: string)
    ensures EscapeTitle([x] + rest) == TitleEscapeChar(x) + EscapeTitle(rest)
  {
    var head := if x == '\'' then "\\'" else [x];
    ReplaceCharCons(x, rest, '\'', "\\'");
    ReplaceCharConcat(head, ReplaceChar(rest, '\'', "\\'"), '"', "&quot;");
    if x == '"' {
      assert ReplaceChar(head, '"', "&quot;") == "&quot;" + ReplaceChar([], '"', "&quot;");
    } else {
      assert '"' !in head;
      ReplaceCharAbsent(head, '"', "&quot;");
    }
  }

  /**
   * The escaped title holds no `"`, each `'` comes right after a backslash, and
   * the length grows by one per `'` and by five per `"`.
   */
  lemma EscapeTitleShape(s: string)
    ensures var r := EscapeTitle(s);
      '"' !in r && |r| == |s| + Count(s, '\'') + 5 * Count(s, '"') &&
      forall i :: 0 <= i < |r| && r[i] == '\'' ==> 0 < i && r[i - 1] == '\\'
  {
    EscapeTitleNoQuote(s);
    EscapeTitleLength(s);
    EscapeTitleApostrophes(s);
  }

  lemma {:induction false} EscapeTitleNoQuote(s: string)
    ensures '"' !in EscapeTitle(s)
  {
    if s != [] {
      EscapeTitleCons(s[0], s[1..]);
      assert [s[0]] + s[1..] == s;
      EscapeTitleNoQuote(s[1..]);
    }
  }

  lemma {:induction false} EscapeTitleLength(s: string)
    ensures |EscapeTitle(s)| == |s| + Count(s, '\'') + 5 * Count(s, '"')
  {
    if s != [] {
      EscapeTitleCons(s[0], s[1..]);
      assert [s[0]] + s[1..] == s;
      EscapeTitleLength(s[1..]);
    }
  }

  lemma {:induction false} EscapeTitleApostrophes(s: string)
    ensures var r := EscapeTitle(s);
      forall i :: 0 <= i < |r| && r[i] == '\'' ==> 0 < i && r[i - 1] == '\\'
  {
    if s != [] {
      var e := TitleEscapeChar(s[0]);
      var rest := EscapeTitle(s[1..]);
      EscapeTitleCons(s[0], s[1..]);
      assert [s[0]] + s[1..] == s;
      EscapeTitleApostrophes(s[1..]);
      var r := e + rest;
      forall i | 0 <= i < |r| && r[i] == '\''
        ensures 0 < i && r[i - 1] == '\\'
      {
        if i >= |e| {
          assert r[i] == rest[i - |e|];
          if i - |e| > 0 {
            assert r[i - 1] == rest[i - |e| - 1];
          }
        }
      }
    }
  }

  /**
   * The edit page shows the escaped content inside a `textarea` and the escaped
   * title inside a `value="..."` attribute, where the browser decodes
   * character references and nothing else; `UnescapeHtml` decodes the five
   * references `EscapeHtml` writes. As written, a backtick in the body and an
   * apostrophe in the title come back with a backslash in front.
   */
  lemma EditPageShowsBackslashes()
    ensures UnescapeHtml(EscapeContent("`")) == "\\`"
    ensures UnescapeHtml(EscapeTitle("'")) == "\\'"
  {
    EscapeContentCons('`', []);
    EscapeTitleCons('\'', []);
    assert "`" == ['`'] + [];
    assert "'" == ['\''] + [];
    assert UnescapeHtml("`") == "`";
    assert UnescapeHtml("'") == "'";
  }

  /** The fields of the edit page: the value of the title input and the text of the editor. */
  datatype EditFields = EditFields(themaValue: string, editorText: string)

  /** The edit page's fields, HTML-escaped for the contexts they are written into. */
  function EditPageFields(thema: string, content: Option<string>): (r: EditFields)
  {
    EditFields(EscapeHtml(thema), EscapeHtml(EditorContent(content)))
  }

  /**
   * With HTML escaping the page shows exactly the title and the editor text,
   * and neither field can end its element or attribute early.
   */
  lemma EditPageShowsText(thema: string, content: Option<string>)
    ensures var f := EditPageFields(thema, content);
      UnescapeHtml(f.themaValue) == thema && UnescapeHtml(f.editorText) == EditorContent(content) &&
      '"' !in f.themaValue && '<' !in f.editorText
  {
    EscapeHtmlRoundTrip(thema);
    EscapeHtmlRoundTrip(EditorContent(content));
    EscapeHtmlSafe(thema);
    EscapeHtmlSafe(EditorContent(content));
  }

  // ---------------------------------------------------------------------------
  // Search
  // ---------------------------------------------------------------------------

  /** `/search`: no query or a blank one answers no results without searching; otherwise the trimmed query is searched. */
  function SearchResponse(t: Tree, query: Option<string>): seq<SearchHit>
  {
    if query.None? || Trim(query.value) == "" then [] else Search(t, Trim(query.value))
  }

  /** The `/search` handler. */
  method HandleSearch(t: Tree, query: Option<string>) returns (results: seq<SearchHit>)
    requires WellFormed(t)
    ensures results == SearchResponse(t, query)
  {
    if query.None? || Trim(query.value) == "" {
      return [];
    }
    results := SearchNotes(t, Trim(query.value));
  }

  /**
   * A blank query finds nothing; any other query finds exactly the notes its
   * trimmed form matches, and surrounding whitespace does not change the answer.
   */
  lemma SearchResponseMeaning(t: Tree, q: string, h: SearchHit)
    ensures IsBlank(q) ==> SearchResponse(t, Some(q)) == []
    ensures h in SearchResponse(t, Some(q)) <==>
      !IsBlank(q) && Matches(t, HitRef(h), Trim(q)) &&
      h.preview == Preview(ReadNote(t, h.oberkategorie, h.unterkategorie, h.thema).value, Trim(q))
    ensures SearchResponse(t, Some(Trim(q))) == SearchResponse(t, Some(q))
  {
    TrimEmptyIffBlank(q);
    TrimIdempotent(q);
    SearchMeaning(t, Trim(q), h);
  }
}
