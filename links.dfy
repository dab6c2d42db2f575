/**
 * Wiki links `[[title]]` in note text: the global regex `\[\[([^\]]+)\]\]`
 * scanned left to right, each capture trimmed, and the duplicates dropped
 * by a `Set` that keeps first occurrences in order.
 */
module Links {
  import opened Wrappers
  import opened Text

  /** The first `]` at or after `from`, or the end of `s`. */
  function CloseFrom(s: string, from: nat): (j: nat)
    requires from <= |s|
    ensures from <= j <= |s|
    ensures forall k :: from <= k < j ==> s[k] != ']'
    ensures j < |s| ==> s[j] == ']'
    decreases |s| - from
  {
    if from == |s| || s[from] == ']' then from else CloseFrom(s, from + 1)
  }

  /**
   * The regex matches at `i`: `[[`, then a non-empty run without `]` (taken
   * greedily up to the first `]`; a shorter run would leave a non-`]` next), then `]]`.
   */
  predicate MatchAt(s: string, i: nat)
  {
    i + 2 <= |s| && s[i] == '[' && s[i + 1] == '[' &&
    var j := CloseFrom(s, i + 2);
    j > i + 2 && j + 1 < |s| && s[j + 1] == ']'
  }

  /** Where the scan resumes after a match at `i` (the regex's `lastIndex`). */
  function MatchEnd(s: string, i: nat): (e: nat)
    requires MatchAt(s, i)
    ensures i + 4 < e <= |s|
  {
    CloseFrom(s, i + 2) + 2
  }

  /** The captured group of the match at `i`. */
  function Capture(s: string, i: nat): (r: string)
    requires MatchAt(s, i)
  {
    s[i + 2..CloseFrom(s, i + 2)]
  }

  /** `regex.exec` from `lastIndex == from`: the first position at or after `from` where the regex matches. */
  function NextMatch(s: string, from: nat): (r: Option<nat>)
    ensures r.Some? ==> from <= r.value && MatchAt(s, r.value)
    ensures r.Some? ==> forall k :: from <= k < r.value ==> !MatchAt(s, k)
    ensures r.None? ==> forall k :: from <= k ==> !MatchAt(s, k)
    decreases |s| - from
  {
    if from >= |s| then None
    else if MatchAt(s, from) then Some(from)
    else NextMatch(s, from + 1)
  }

  /** The captures of the successive `exec` calls starting at `from`. */
  function RawLinks(s: string, from: nat): seq<string>
    decreases |s| - from
  {
    match NextMatch(s, from)
    case None => []
    case Some(i) => [Capture(s, i)] + RawLinks(s, MatchEnd(s, i))
  }

  /** `matches.map(m => m.trim())`. */
  function Trims(xs: seq<string>): (r: seq<string>)
    ensures |r| == |xs|
    ensures forall k :: 0 <= k < |xs| ==> r[k] == Trim(xs[k])
  {
    if xs == [] then [] else [Trim(xs[0])] + Trims(xs[1..])
  }

  /** One `exec` step of the scan, after trimming: the capture at the next match, then the rest. */
  lemma TrimsStep(s: string, from: nat)
    requires NextMatch(s, from).Some?
    ensures var i := NextMatch(s, from).value;
      Trims(RawLinks(s, from)) == [Trim(Capture(s, i))] + Trims(RawLinks(s, MatchEnd(s, i)))
  {
    var i := NextMatch(s, from).value;
    var rest := RawLinks(s, MatchEnd(s, i));
    assert RawLinks(s, from) == [Capture(s, i)] + rest;
    assert ([Capture(s, i)] + rest)[1..] == rest;
  }

  /** `[...new Set(xs)]`: each distinct element once, at its first occurrence. */
  function Dedup(xs: seq<string>): (r: seq<string>)
    ensures forall x :: x in r <==> x in xs
    ensures forall i, j :: 0 <= i < j < |r| ==> r[i] != r[j]
  {
    if xs == [] then []
    else
      var d := Dedup(xs[..|xs| - 1]);
      assert xs == xs[..|xs| - 1] + [xs[|xs| - 1]];
      if xs[|xs| - 1] in d then d else d + [xs[|xs| - 1]]
  }

  /** The position of the first occurrence of `x` in `xs`. */
  function FirstIndex(xs: seq<string>, x: string): (k: nat)
    requires x in xs
    ensures k < |xs| && xs[k] == x && x !in xs[..k]
  {
    if xs[0] == x then 0 else 1 + FirstIndex(xs[1..], x)
  }

  lemma FirstIndexPrefix(xs: seq<string>, n: nat, x: string)
    requires n <= |xs| && x in xs[..n]
    ensures FirstIndex(xs[..n], x) == FirstIndex(xs, x)
  {
    var k := FirstIndex(xs[..n], x);
    var k' := FirstIndex(xs, x);
    assert xs[..n][..k] == xs[..k];
    assert forall p :: 0 <= p < k ==> xs[..k][p] == xs[p];
    assert forall p :: 0 <= p < k' ==> xs[..k'][p] == xs[p];
  }

  /** The de-duplicated list keeps the elements in the order of their first occurrences. */
  lemma {:induction false} DedupFirstOccurrenceOrder(xs: seq<string>)
    ensures forall i, j :: 0 <= i < j < |Dedup(xs)| ==> FirstIndex(xs, Dedup(xs)[i]) < FirstIndex(xs, Dedup(xs)[j])
  {
    if xs != [] {
      var init := xs[..|xs| - 1];
      var x := xs[|xs| - 1];
      var d := Dedup(init);
      DedupFirstOccurrenceOrder(init);
      forall y | y in d
        ensures FirstIndex(xs, y) == FirstIndex(init, y)
      {
        FirstIndexPrefix(xs, |xs| - 1, y);
      }
      if x !in d {
        var r := d + [x];
        forall i, j | 0 <= i < j < |r|
          ensures r[i] in xs && r[j] in xs && FirstIndex(xs, r[i]) < FirstIndex(xs, r[j])
        {
          if j == |d| {
            assert r[i] in d;
            assert x !in init;
            assert FirstIndex(xs, x) == |xs| - 1;
          } else {
            assert r[i] == d[i] && r[j] == d[j];
          }
        }
      }
    }
  }

  /** extractBacklinks on a string: the trimmed captures, duplicates dropped. */
  function Backlinks(s: string): seq<string>
  {
    Dedup(Trims(RawLinks(s, 0)))
  }

  /** The result holds exactly the trimmed captures, each once, in the order of first occurrence. */
  lemma BacklinksMeaning(s: string)
    ensures forall x :: x in Backlinks(s) <==> x in Trims(RawLinks(s, 0))
    ensures forall i, j :: 0 <= i < j < |Backlinks(s)| ==> Backlinks(s)[i] != Backlinks(s)[j]
    ensures forall i, j :: 0 <= i < j < |Backlinks(s)| ==>
      FirstIndex(Trims(RawLinks(s, 0)), Backlinks(s)[i]) < FirstIndex(Trims(RawLinks(s, 0)), Backlinks(s)[j])
  {
    DedupFirstOccurrenceOrder(Trims(RawLinks(s, 0)));
  }

  /** Each capture is non-empty, holds no `]`, and occurs in the text as `[[capture]]`. */
  lemma {:induction false} CaptureShape(s: string, from: nat, k: nat)
    requires k < |RawLinks(s, from)|
    ensures var c := RawLinks(s, from)[k];
      |c| > 0 && ']' !in c && exists i :: from <= i && OccursAt(s, "[[" + c + "]]", i)
    decreases |s| - from
  {
    var i := NextMatch(s, from).value;
    var rest := RawLinks(s, MatchEnd(s, i));
    assert RawLinks(s, from) == [Capture(s, i)] + rest;
    if k == 0 {
      var j := CloseFrom(s, i + 2);
      Bracketed(s, i, j);
      assert RawLinks(s, from)[k] == s[i + 2..j];
    } else {
      CaptureShape(s, MatchEnd(s, i), k - 1);
      assert RawLinks(s, from)[k] == rest[k - 1];
    }
  }

  /** Text `[[`, then `s[i + 2..j]`, then `]]` occurs at `i`. */
  lemma Bracketed(s: string, i: nat, j: nat)
    requires i + 2 <= j && j + 2 <= |s|
    requires s[i] == '[' && s[i + 1] == '[' && s[j] == ']' && s[j + 1] == ']'
    ensures OccursAt(s, "[[" + s[i + 2..j] + "]]", i)
  {
    var c := s[i + 2..j];
    var w := "[[" + c + "]]";
    assert |w| == j + 2 - i;
    forall p | 0 <= p < |w|
      ensures s[i..j + 2][p] == w[p]
    {
      if 2 <= p < 2 + |c| {
        assert w[p] == c[p - 2];
      }
    }
    assert s[i..j + 2] == w;
  }

  /** An empty link `[[ ]]` yields the empty title. */
  lemma BlankLink()
    ensures Backlinks("[[ ]]") == [""]
  {
    var s := "[[ ]]";
    assert CloseFrom(s, 3) == 3;
    assert CloseFrom(s, 2) == 3;
    assert MatchAt(s, 0);
    assert Capture(s, 0) == " ";
    assert NextMatch(s, 5) == None;
    assert RawLinks(s, 5) == [];
    assert RawLinks(s, 0) == [" "];
    assert Trim(" ") == "";
    assert Trims([" "]) == [""];
  }

  lemma DedupPair(x: string, y: string)
    requires x != y
    ensures Dedup([x, y]) == [x, y]
  {
    assert [x][..0] == [];
    assert Dedup([x]) == [] + [x];
    assert [x, y][..1] == [x];
    assert y !in [x];
    assert Dedup([x, y]) == [x] + [y];
  }

  lemma CaseVariantsRaw()
    ensures RawLinks("[[A]][[a]]", 0) == ["A", "a"]
  {
    var s := "[[A]][[a]]";
    assert CloseFrom(s, 3) == 3 && CloseFrom(s, 2) == 3;
    assert MatchAt(s, 0) && Capture(s, 0) == "A" && MatchEnd(s, 0) == 5;
    assert CloseFrom(s, 8) == 8 && CloseFrom(s, 7) == 8;
    assert MatchAt(s, 5) && Capture(s, 5) == "a" && MatchEnd(s, 5) == 10;
    assert RawLinks(s, 10) == [];
    assert RawLinks(s, 5) == ["a"];
  }

  /** Links differing only in case are distinct: `[[A]][[a]]` yields both `A` and `a`. */
  lemma CaseVariantsKept()
    ensures Backlinks("[[A]][[a]]") == ["A", "a"]
  {
    CaseVariantsRaw();
    TrimsLetters();
    assert "a" != "A" by { assert "a"[0] != "A"[0]; }
    DedupPair("A", "a");
  }

  lemma TrimsLetters()
    ensures Trims(["A", "a"]) == ["A", "a"]
  {
    TrimLetter('A');
    TrimLetter('a');
    var r := Trims(["A", "a"]);
    assert |r| == 2 && r[0] == ['A'] && r[1] == ['a'];
  }
}
