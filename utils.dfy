/**
 * The shared string utilities: HTML escaping, wiki-link extraction,
 * frontmatter stripping and the plain-text preview of a note.
 */
module Utils {
  import opened Wrappers
  import opened Text
  import opened Links

  // ---------------------------------------------------------------------------
  // escapeHtml
  // ---------------------------------------------------------------------------

  predicate IsHtmlSpecial(c: char)
  {
    c == '&' || c == '<' || c == '>' || c == '"' || c == '\''
  }

  /** The replacement of one character. */
  function EscapeChar(c: char): string
  {
    if c == '&' then "&amp;"
    else if c == '<' then "&lt;"
    else if c == '>' then "&gt;"
    else if c == '"' then "&quot;"
    else if c == '\'' then "&#039;"
    else [c]
  }

  /** escapeHtml: each of `& < > " '` replaced by its entity. */
  function EscapeHtml(s: string): string
  {
    if s == [] then [] else EscapeChar(s[0]) + EscapeHtml(s[1..])
  }

  lemma {:induction false} EscapeHtmlConcat(a: string, b: string)
    ensures EscapeHtml(a + b) == EscapeHtml(a) + EscapeHtml(b)
  {
    if a == [] {
      assert a + b == b;
    } else {
      assert (a + b)[1..] == a[1..] + b;
      EscapeHtmlConcat(a[1..], b);
    }
  }

  /** The escaped text holds no `<`, `>`, `"` or `'`. */
  lemma {:induction false} EscapeHtmlSafe(s: string)
    ensures '<' !in EscapeHtml(s) && '>' !in EscapeHtml(s) && '"' !in EscapeHtml(s) && '\'' !in EscapeHtml(s)
  {
    if s != [] {
      EscapeHtmlSafe(s[1..]);
      EscapeCharSafe(s[0]);
      assert EscapeHtml(s) == EscapeChar(s[0]) + EscapeHtml(s[1..]);
    }
  }

  lemma EscapeCharSafe(c: char)
    ensures '<' !in EscapeChar(c) && '>' !in EscapeChar(c) && '"' !in EscapeChar(c) && '\'' !in EscapeChar(c)
  {
  }

  /** A text without special characters is left as it is. */
  lemma {:induction false} EscapeHtmlIdentity(s: string)
    requires forall i :: 0 <= i < |s| ==> !IsHtmlSpecial(s[i])
    ensures EscapeHtml(s) == s
  {
    if s != [] {
      EscapeHtmlIdentity(s[1..]);
      assert s == [s[0]] + s[1..];
    }
  }

  /** Each `&` adds 4 characters, each `<` and `>` 3, each `"` and `'` 5. */
  lemma {:induction false} EscapeHtmlLength(s: string)
    ensures |EscapeHtml(s)| ==
      |s| + 4 * Count(s, '&') + 3 * Count(s, '<') + 3 * Count(s, '>') + 5 * Count(s, '"') + 5 * Count(s, '\'')
  {
    if s != [] {
      EscapeHtmlLength(s[1..]);
    }
  }

  /** Decoding of the five entities: the inverse of escapeHtml. */
  function UnescapeHtml(s: string): string
    decreases |s|
  {
    if s == [] then []
    else if |s| >= 5 && s[..5] == "&amp;" then "&" + UnescapeHtml(s[5..])
    else if |s| >= 4 && s[..4] == "&lt;" then "<" + UnescapeHtml(s[4..])
    else if |s| >= 4 && s[..4] == "&gt;" then ">" + UnescapeHtml(s[4..])
    else if |s| >= 6 && s[..6] == "&quot;" then "\"" + UnescapeHtml(s[6..])
    else if |s| >= 6 && s[..6] == "&#039;" then "'" + UnescapeHtml(s[6..])
    else [s[0]] + UnescapeHtml(s[1..])
  }

  lemma UnescapeEscapeChar(c: char, rest: string)
    ensures UnescapeHtml(EscapeChar(c) + rest) == [c] + UnescapeHtml(rest)
  {
    var e := EscapeChar(c) + rest;
    var n := |EscapeChar(c)|;
    assert e[..n] == EscapeChar(c) && e[n..] == rest;
    assert e[0] == EscapeChar(c)[0];
    if c == '&' {
      assert e[..5] == "&amp;";
    } else if c == '<' {
      assert e[1] == 'l' && e[..4] == "&lt;";
      assert !(|e| >= 5 && e[..5] == "&amp;") by { assert |e| >= 5 ==> e[..5][1] == 'l'; }
    } else if c == '>' {
      assert e[1] == 'g' && e[..4] == "&gt;";
      assert !(|e| >= 5 && e[..5] == "&amp;") by { assert |e| >= 5 ==> e[..5][1] == 'g'; }
      assert !(e[..4] == "&lt;") by { assert e[..4][1] == 'g'; }
    } else if c == '"' {
      assert e[1] == 'q' && e[..6] == "&quot;";
      assert !(e[..5] == "&amp;") by { assert e[..5][1] == 'q'; }
      assert !(e[..4] == "&lt;") && !(e[..4] == "&gt;") by { assert e[..4][1] == 'q'; }
    } else if c == '\'' {
      assert e[1] == '#' && e[..6] == "&#039;";
      assert !(e[..5] == "&amp;") by { assert e[..5][1] == '#'; }
      assert !(e[..4] == "&lt;") && !(e[..4] == "&gt;") by { assert e[..4][1] == '#'; }
      assert !(e[..6] == "&quot;") by { assert e[..6][1] == '#'; }
    } else {
      assert e[0] == c && c != '&';
      assert !(|e| >= 5 && e[..5] == "&amp;") by { assert |e| >= 5 ==> e[..5][0] == c; }
      assert !(|e| >= 4 && (e[..4] == "&lt;" || e[..4] == "&gt;")) by { assert |e| >= 4 ==> e[..4][0] == c; }
      assert !(|e| >= 6 && (e[..6] == "&quot;" || e[..6] == "&#039;")) by { assert |e| >= 6 ==> e[..6][0] == c; }
    }
  }

  /** Escaping loses nothing: decoding the escaped text gives the original back. */
  lemma {:induction false} EscapeHtmlRoundTrip(s: string)
    ensures UnescapeHtml(EscapeHtml(s)) == s
  {
    if s != [] {
      EscapeHtmlRoundTrip(s[1..]);
      UnescapeEscapeChar(s[0], EscapeHtml(s[1..]));
      assert s == [s[0]] + s[1..];
    }
  }

  // ---------------------------------------------------------------------------
  // extractBacklinks (this copy has no guard for absent content)
  // ---------------------------------------------------------------------------

  /** extractBacklinks: calls `regex.exec` until it finds nothing, then drops duplicates. */
  method ExtractBacklinks(content: string) returns (links: seq<string>)
    ensures links == Backlinks(content)
  {
    var found := [];
    var lastIndex := 0;
    var m := NextMatch(content, lastIndex);
    while m.Some?
      invariant m == NextMatch(content, lastIndex)
      invariant found + Trims(RawLinks(content, lastIndex)) == Trims(RawLinks(content, 0))
      decreases |content| - lastIndex
    {
      var i := m.value;
      var link := Trim(Capture(content, i));
      ghost var rest := Trims(RawLinks(content, MatchEnd(content, i)));
      TrimsStep(content, lastIndex);
      NamesRegroup(found, [link], rest);
      found := found + [link];
      lastIndex := MatchEnd(content, i);
      m := NextMatch(content, lastIndex);
    }
    assert RawLinks(content, lastIndex) == [];
    assert found + Trims([]) == found;
    links := Dedup(found);
  }

  lemma NamesRegroup(a: seq<string>, b: seq<string>, c: seq<string>)
    ensures a + (b + c) == a + b + c
  {
  }

  // ---------------------------------------------------------------------------
  // stripFrontmatter
  // ---------------------------------------------------------------------------

  /**
   * `content.replace(/^---[\s\S]*?---\n?/, '')`: when the text starts with `---`,
   * everything up to the first later `---`, and one newline after it, is removed.
   */
  function RemoveFrontmatter(s: string): (r: string)
    ensures |r| <= |s| && r == s[|s| - |r|..]
  {
    if |s| >= 3 && s[..3] == "---" then
      match IndexOfFrom(s, "---", 3)
      case None => s
      case Some(k) =>
        if k + 3 < |s| && s[k + 3] == '\n' then s[k + 4..] else s[k + 3..]
    else s
  }

  /** stripFrontmatter. */
  function StripFrontmatter(s: string): string
  {
    Trim(RemoveFrontmatter(s))
  }

  /** Without an opening `---`, or without a closing one, only the trim applies. */
  lemma StripWithoutFrontmatter(s: string)
    requires !(|s| >= 3 && s[..3] == "---") || forall k :: 3 <= k ==> !OccursAt(s, "---", k)
    ensures StripFrontmatter(s) == Trim(s)
  {
  }

  /** With a frontmatter block, the text after its first closing `---` (and one newline) is kept, trimmed. */
  lemma StripWithFrontmatter(s: string, k: nat)
    requires |s| >= 3 && s[..3] == "---"
    requires 3 <= k && OccursAt(s, "---", k) && forall j :: 3 <= j < k ==> !OccursAt(s, "---", j)
    ensures StripFrontmatter(s) == Trim(if k + 3 < |s| && s[k + 3] == '\n' then s[k + 4..] else s[k + 3..])
  {
    assert IndexOfFrom(s, "---", 3) == Some(k);
  }

  // ---------------------------------------------------------------------------
  // getPreview
  // ---------------------------------------------------------------------------

  /** `^` in a multiline regex: the start of the text or just after a line terminator. */
  predicate LineStart(s: string, i: nat)
    requires i <= |s|
  {
    i == 0 || IsLineTerminator(s[i - 1])
  }

  /** The end of the run of `#` starting at `i`. */
  function HashRunEnd(s: string, i: nat): (e: nat)
    requires i <= |s|
    ensures i <= e <= |s| && (e < |s| ==> s[e] != '#')
    ensures forall k :: i <= k < e ==> s[k] == '#'
    decreases |s| - i
  {
    if i < |s| && s[i] == '#' then HashRunEnd(s, i + 1) else i
  }

  /** The end of the run of whitespace (newlines included) starting at `i`. */
  function SpaceRunEnd(s: string, i: nat): (e: nat)
    requires i <= |s|
    ensures i <= e <= |s| && (e < |s| ==> !IsSpace(s[e]))
    ensures forall k :: i <= k < e ==> IsSpace(s[k])
    decreases |s| - i
  {
    if i < |s| && IsSpace(s[i]) then SpaceRunEnd(s, i + 1) else i
  }

  /** The scan of the global multiline replace of `^#+\s*` by nothing, from position `i`: every heading marker at a line start dropped. */
  function StripHeadingsFrom(s: string, i: nat): string
    requires i <= |s|
    decreases |s| - i
  {
    if i == |s| then []
    else if LineStart(s, i) && s[i] == '#' then StripHeadingsFrom(s, SpaceRunEnd(s, HashRunEnd(s, i)))
    else [s[i]] + StripHeadingsFrom(s, i + 1)
  }

  function StripHeadings(s: string): string
  {
    StripHeadingsFrom(s, 0)
  }

  /** A text where no line starts with `#` has no heading marker to drop. */
  lemma {:induction false} StripHeadingsIdentity(s: string, i: nat)
    requires i <= |s|
    requires forall k :: i <= k < |s| && LineStart(s, k) ==> s[k] != '#'
    ensures StripHeadingsFrom(s, i) == s[i..]
    decreases |s| - i
  {
    if i < |s| {
      StripHeadingsIdentity(s, i + 1);
      assert s[i..] == [s[i]] + s[i + 1..];
    }
  }

  /** A heading marker and the whitespace after it are dropped: `## Title` becomes `Title`. */
  lemma StripHeadingsExample()
    ensures StripHeadings("## Title") == "Title"
  {
    var s := "## Title";
    assert HashRunEnd(s, 2) == 2 && HashRunEnd(s, 0) == 2;
    assert SpaceRunEnd(s, 3) == 3 && SpaceRunEnd(s, 2) == 3;
    StripHeadingsIdentity(s, 3);
    assert s[3..] == "Title";
  }

  /** The cleaned text of a note: frontmatter, heading markers and emphasis removed, lines joined, trimmed. */
  function Cleaned(x: string): string
  {
    Trim(ReplaceChar(RemoveAll(RemoveAll(StripHeadings(StripFrontmatter(x)), "**"), "*"), '\n', " "))
  }

  /** `substring(0, n)` of a text longer than `n`: a negative `n` counts as 0. */
  function Truncate(s: string, n: int): (r: string)
    requires n < |s|
    ensures |r| == if n < 0 then 0 else n
    ensures r == s[..|r|]
  {
    s[..if n < 0 then 0 else n]
  }

  /**
   * getPreview: nothing for absent or empty content; otherwise the cleaned text,
   * cut to `maxLength` characters followed by `...` when it is longer.
   */
  function GetPreview(content: Option<string>, maxLength: int): (r: string)
    ensures content.None? || content.value == "" ==> r == ""
    ensures content.Some? && content.value != "" && |Cleaned(content.value)| > maxLength ==>
      r == Truncate(Cleaned(content.value), maxLength) + "..."
    ensures content.Some? && content.value != "" && |Cleaned(content.value)| <= maxLength ==>
      r == Cleaned(content.value)
  {
    if content.None? || content.value == "" then ""
    else
      var cleaned := Cleaned(content.value);
      if |cleaned| > maxLength then Truncate(cleaned, maxLength) + "..." else cleaned
  }

  /** getPreview with its default length. */
  function GetPreviewDefault(content: Option<string>): string
  {
    GetPreview(content, 80)
  }

  lemma {:induction false} RemoveAllRemovesChar(s: string, c: char)
    ensures c !in RemoveAll(s, [c])
    decreases |s|
  {
    if s != [] {
      if OccursAt(s, [c], 0) {
        RemoveAllRemovesChar(s[1..], c);
      } else {
        assert s[0..1] == [s[0]];
        RemoveAllRemovesChar(s[1..], c);
      }
    }
  }

  lemma {:induction false} RemoveAllKeepsAbsent(s: string, p: string, c: char)
    requires |p| > 0 && c !in s
    ensures c !in RemoveAll(s, p)
    decreases |s|
  {
    if s != [] {
      if OccursAt(s, p, 0) {
        RemoveAllKeepsAbsent(s[|p|..], p, c);
      } else {
        RemoveAllKeepsAbsent(s[1..], p, c);
      }
    }
  }

  lemma TrimKeepsAbsent(s: string, c: char)
    requires c !in s
    ensures c !in Trim(s)
  {
    TrimIsSlice(s);
    var i, j :| 0 <= i <= j <= |s| && Trim(s) == s[i..j];
  }

  /** The cleaned text holds no `*` and no newline. */
  lemma CleanedIsPlain(x: string)
    ensures '*' !in Cleaned(x) && '\n' !in Cleaned(x)
  {
    var a := RemoveAll(RemoveAll(StripHeadings(StripFrontmatter(x)), "**"), "*");
    RemoveAllRemovesChar(RemoveAll(StripHeadings(StripFrontmatter(x)), "**"), '*');
    var b := ReplaceChar(a, '\n', " ");
    ReplaceCharKeepsAbsent(a, '\n', " ", '*');
    ReplaceCharRemoves(a, '\n', " ");
    TrimKeepsAbsent(b, '*');
    TrimKeepsAbsent(b, '\n');
  }

  /** A preview holds no `*` and no newline, and is at most three characters longer than asked for. */
  lemma PreviewIsPlain(content: Option<string>, maxLength: int)
    ensures '*' !in GetPreview(content, maxLength) && '\n' !in GetPreview(content, maxLength)
    ensures maxLength >= 0 ==> |GetPreview(content, maxLength)| <= maxLength + 3
  {
    if content.Some? && content.value != "" {
      var c := Cleaned(content.value);
      CleanedIsPlain(content.value);
      if |c| > maxLength {
        var t := Truncate(c, maxLength);
        assert forall k :: 0 <= k < |t| ==> t[k] == c[k];
        assert '*' !in t && '\n' !in t;
        assert GetPreview(content, maxLength) == t + "...";
      }
    }
  }

  /** `...` ends the preview exactly when the cleaned text is longer than `maxLength`, given a cleaned text that does not end in `...` itself. */
  lemma PreviewEllipsisIff(x: string, maxLength: int)
    requires x != "" && maxLength >= 0
    requires !(|Cleaned(x)| >= 3 && Cleaned(x)[|Cleaned(x)| - 3..] == "...")
    ensures (|GetPreview(Some(x), maxLength)| >= 3 &&
             GetPreview(Some(x), maxLength)[|GetPreview(Some(x), maxLength)| - 3..] == "...")
            <==> |Cleaned(x)| > maxLength
  {
    var p := GetPreview(Some(x), maxLength);
    if |Cleaned(x)| > maxLength {
      assert p[|p| - 3..] == "...";
    }
  }
}
