/**
 * `parseInstructions` of the favourites page: raw instruction text becomes a
 * list of steps by an ordered cascade of four layouts — markup list items,
 * digit-dot numbered lines, plain lines, and prose split into sentences.
 */
module Instructions {
  import opened Wrappers
  import opened JsText
  import opened Markup

  // Sentences: the matches of /[^.!?]+[.!?]+/g.

  predicate IsTerminator(c: char) {
    c == '.' || c == '!' || c == '?'
  }

  /** No terminator in `t[a..b]`. */
  predicate NoTerminatorIn(t: string, a: nat, b: nat) {
    forall k :: a <= k < b && k < |t| ==> !IsTerminator(t[k])
  }

  /** End of the run of non-terminators that starts at `i`. */
  function NonTermEnd(t: string, i: nat): (j: nat)
    requires i <= |t|
    ensures i <= j <= |t| && NoTerminatorIn(t, i, j)
    ensures j < |t| ==> IsTerminator(t[j])
    decreases |t| - i
  {
    if i == |t| || IsTerminator(t[i]) then i else NonTermEnd(t, i + 1)
  }

  /** End of the run of terminators that starts at `i`. */
  function TermEnd(t: string, i: nat): (j: nat)
    requires i <= |t|
    ensures i <= j <= |t|
    ensures forall k :: i <= k < j ==> IsTerminator(t[k])
    ensures j < |t| ==> !IsTerminator(t[j])
    decreases |t| - i
  {
    if i == |t| || !IsTerminator(t[i]) then i else TermEnd(t, i + 1)
  }

  /**
   * The shape `[^.!?]+[.!?]+`: it starts with a non-terminator, ends with a
   * terminator, and once a terminator appears every later character is one.
   */
  predicate IsSentence(x: string) {
    |x| >= 2 && !IsTerminator(x[0]) && IsTerminator(x[|x| - 1])
    && forall k :: 0 < k < |x| && IsTerminator(x[k - 1]) ==> IsTerminator(x[k])
  }

  /**
   * The successive leftmost-longest matches of `[^.!?]+[.!?]+` in `t[i..]`: a
   * match needs a non-terminator run followed by at least one terminator, and
   * takes every terminator that follows.
   */
  function SentencesFrom(t: string, i: nat): seq<string>
    requires i <= |t|
    decreases |t| - i
  {
    if i == |t| then []
    else if IsTerminator(t[i]) then SentencesFrom(t, i + 1)
    else
      var j := NonTermEnd(t, i);
      if j == |t| then [] else [t[i..TermEnd(t, j)]] + SentencesFrom(t, TermEnd(t, j))
  }

  function Sentences(t: string): seq<string> {
    SentencesFrom(t, 0)
  }

  /** Every match has the sentence shape. */
  lemma {:induction false} SentencesAreSentences(t: string, i: nat)
    requires i <= |t|
    ensures forall k :: 0 <= k < |SentencesFrom(t, i)| ==> IsSentence(SentencesFrom(t, i)[k])
    decreases |t| - i
  {
    if i < |t| {
      if IsTerminator(t[i]) {
        SentencesAreSentences(t, i + 1);
      } else if NonTermEnd(t, i) < |t| {
        var e := TermEnd(t, NonTermEnd(t, i));
        SentencesAreSentences(t, e);
        MatchIsSentence(t, i);
      }
    }
  }

  /** The match that starts at a non-terminator has the sentence shape. */
  lemma MatchIsSentence(t: string, i: nat)
    requires i < |t| && !IsTerminator(t[i]) && NonTermEnd(t, i) < |t|
    ensures IsSentence(t[i..TermEnd(t, NonTermEnd(t, i))])
  {
    var j := NonTermEnd(t, i);
    var e := TermEnd(t, j);
    var x := t[i..e];
    forall k | 0 < k < |x| && IsTerminator(x[k - 1]) ensures IsTerminator(x[k]) {
      assert x[k - 1] == t[i + k - 1] && x[k] == t[i + k];
    }
  }

  /**
   * The sentence matches account for all of the text except stray leading
   * terminators and a terminator-free tail: after the leading terminators
   * the matches follow back to back, and no terminator comes after them.
   */
  lemma SentencesCover(t: string)
    ensures var lead := TermEnd(t, 0); var c := Concat(Sentences(t));
      lead + |c| <= |t| && t[lead..lead + |c|] == c && NoTerminatorIn(t, lead + |c|, |t|)
  {
    SkipLeadingTerminators(t, 0);
    SentencesCoverFrom(t, TermEnd(t, 0));
  }

  lemma {:induction false} SkipLeadingTerminators(t: string, i: nat)
    requires i <= |t|
    ensures SentencesFrom(t, i) == SentencesFrom(t, TermEnd(t, i))
    decreases |t| - i
  {
    if i < |t| && IsTerminator(t[i]) {
      SkipLeadingTerminators(t, i + 1);
    }
  }

  lemma {:induction false} SentencesCoverFrom(t: string, i: nat)
    requires i <= |t| && (i == |t| || !IsTerminator(t[i]))
    ensures i + |Concat(SentencesFrom(t, i))| <= |t|
    ensures t[i..i + |Concat(SentencesFrom(t, i))|] == Concat(SentencesFrom(t, i))
    ensures NoTerminatorIn(t, i + |Concat(SentencesFrom(t, i))|, |t|)
    decreases |t| - i
  {
    if i < |t| {
      var j := NonTermEnd(t, i);
      if j < |t| {
        var e := TermEnd(t, j);
        SentencesCoverFrom(t, e);
        var c := Concat(SentencesFrom(t, e));
        MatchStep(t, i);
        ConcatCons(t[i..e], SentencesFrom(t, e));
        SliceJoin(t, i, e, c);
      } else {
        NoMatchAt(t, i);
      }
    }
  }

  /** The match at a non-terminator, followed by the matches after it. */
  lemma MatchStep(t: string, i: nat)
    requires i < |t| && !IsTerminator(t[i]) && NonTermEnd(t, i) < |t|
    ensures var e := TermEnd(t, NonTermEnd(t, i));
      i < e && SentencesFrom(t, i) == [t[i..e]] + SentencesFrom(t, e)
  {
  }

  /** No terminator ahead: no further match. */
  lemma NoMatchAt(t: string, i: nat)
    requires i < |t| && !IsTerminator(t[i]) && NonTermEnd(t, i) == |t|
    ensures SentencesFrom(t, i) == [] && Concat(SentencesFrom(t, i)) == "" && t[i..i] == ""
  {
  }

  lemma SliceJoin(t: string, i: nat, e: nat, c: string)
    requires i <= e && e + |c| <= |t| && t[e..e + |c|] == c
    ensures t[i..e + |c|] == t[i..e] + c
  {
    assert t[i..e + |c|] == t[i..e] + t[e..e + |c|];
  }

  lemma ConcatCons(x: string, xs: seq<string>)
    ensures Concat([x] + xs) == x + Concat(xs)
  {
    assert ([x] + xs)[1..] == xs;
  }

  // Numbered lines: the pattern /^\d+\.\s*/.

  /** Length of the run of ASCII digits at the front of `s`. */
  function DigitRun(s: string): (n: nat)
    ensures n <= |s|
    ensures forall k :: 0 <= k < n ==> IsDigit(s[k])
    ensures n < |s| ==> !IsDigit(s[n])
    decreases |s|
  {
    if |s| == 0 || !IsDigit(s[0]) then 0
    else
      var n := 1 + DigitRun(s[1..]);
      assert forall k :: 1 <= k < n ==> s[k] == s[1..][k - 1];
      n
  }

  /** `s` begins with one or more digits and a full stop: `/^\d+\./.test(s)`. */
  predicate HasNumberMarker(s: string) {
    var d := DigitRun(s);
    0 < d < |s| && s[d] == '.'
  }

  /** Length of the run of whitespace at the front of `s`. */
  function SpaceRun(s: string): (n: nat)
    ensures n <= |s| && AllSpace(s[..n])
    ensures n < |s| ==> !IsSpace(s[n])
    decreases |s|
  {
    if |s| == 0 || !IsSpace(s[0]) then 0
    else
      var n := 1 + SpaceRun(s[1..]);
      assert forall k :: 1 <= k < n ==> s[..n][k] == s[1..][..n - 1][k - 1];
      n
  }

  /** Length of the match of `^\d+\.\s*` at the front of `s`, or 0 when there is none. */
  function MarkerLength(s: string): (n: nat)
    ensures n <= |s|
    ensures n > 0 <==> HasNumberMarker(s)
    ensures n > 0 ==> var d := DigitRun(s);
      d + 1 <= n && AllSpace(s[d + 1..n]) && (n < |s| ==> !IsSpace(s[n]))
  {
    if HasNumberMarker(s) then
      var d := DigitRun(s);
      var w := SpaceRun(s[d + 1..]);
      assert s[d + 1..][..w] == s[d + 1..d + 1 + w];
      assert d + 1 + w < |s| ==> s[d + 1 + w] == s[d + 1..][w];
      d + 1 + w
    else 0
  }

  /** `line.replace(/^\d+\.\s*\/, '')`: the line with its number marker removed, if it has one. */
  function StripNumber(s: string): (r: string)
    ensures HasNumberMarker(s) ==> |r| < |s| && r == s[MarkerLength(s)..]
    ensures !HasNumberMarker(s) ==> r == s
  {
    s[MarkerLength(s)..]
  }

  /** A marker of digits, a full stop and whitespace is removed up to the first other character. */
  lemma StripNumberRemovesMarker(digits: string, spaces: string, rest: string)
    requires |digits| > 0 && forall k :: 0 <= k < |digits| ==> IsDigit(digits[k])
    requires AllSpace(spaces)
    requires |rest| == 0 || !IsSpace(rest[0])
    ensures StripNumber(digits + "." + spaces + rest) == rest
  {
    var s := digits + "." + spaces + rest;
    var d := |digits|;
    assert s[d] == '.';
    assert forall k :: 0 <= k < d ==> s[k] == digits[k];
    assert DigitRun(s) == d;
    var n := MarkerLength(s);
    var e := d + 1 + |spaces|;
    assert forall k :: d + 1 <= k < e ==> s[k] == spaces[k - d - 1];
    assert e < |s| ==> s[e] == rest[0];
    SpaceRunEnd(s, d + 1, n, e);
    assert s[e..] == rest;
  }

  /** Two ends of the whitespace run that starts at `a` are the same position. */
  lemma SpaceRunEnd(s: string, a: nat, n: nat, e: nat)
    requires a <= n <= |s| && a <= e <= |s|
    requires AllSpace(s[a..n]) && (n < |s| ==> !IsSpace(s[n]))
    requires (forall k :: a <= k < e ==> IsSpace(s[k])) && (e < |s| ==> !IsSpace(s[e]))
    ensures n == e
  {
  }

  /** `text.split(/\r?\n/).filter(line => line.trim().length > 0)`. */
  function NonBlankLines(t: string): (r: seq<string>)
    ensures |r| <= |SplitLines(t)|
    ensures forall x :: x in r <==> x in SplitLines(t) && NotBlank(x)
  {
    Filter(SplitLines(t), NotBlank)
  }

  /** The kept lines are non-blank and hold no line feed. */
  lemma NonBlankLinesShape(t: string)
    ensures var r := NonBlankLines(t);
      forall k :: 0 <= k < |r| ==> NotBlank(r[k]) && '\n' !in r[k]
  {
    var pieces := SplitLines(t);
    var r := NonBlankLines(t);
    SplitPiecesLackNewline(t);
    forall k | 0 <= k < |r| ensures NotBlank(r[k]) && '\n' !in r[k] {
      assert r[k] in r;
      var j :| 0 <= j < |pieces| && pieces[j] == r[k];
    }
  }

  predicate NotEmpty(s: string) {
    |s| > 0
  }

  /** Numbered layout: each line loses its number marker and is trimmed. */
  function NumberedSteps(lines: seq<string>): seq<string> {
    seq(|lines|, k requires 0 <= k < |lines| => Trim(StripNumber(lines[k])))
  }

  /** Prose layout: the trimmed sentence matches, or the whole text trimmed when none matches. */
  function ProseSteps(t: string): seq<string> {
    var sentences := Sentences(t);
    if |sentences| > 0 then TrimAll(sentences) else [Trim(t)]
  }

  /**
   * The cascade, given the text, the texts of its list items and its
   * non-blank lines: list items win, then numbered lines, then plain lines
   * (more than one), then prose.
   */
  function Steps(t: string, items: seq<string>, lines: seq<string>): seq<string> {
    if |items| > 0 then Filter(TrimAll(items), NotEmpty)
    else if |lines| > 1 && HasNumberMarker(lines[0]) then NumberedSteps(lines)
    else if |lines| > 1 then lines
    else ProseSteps(t)
  }

  /** The steps of raw instruction text; absent, null and empty text has none. */
  function ParseInstructions(text: JsStr): (r: seq<string>)
    ensures !Truthy(text) ==> r == []
    ensures Truthy(text) && |ListItems(text.s)| > 0 ==> |r| <= |ListItems(text.s)|
  {
    if !Truthy(text) then [] else Steps(text.s, ListItems(text.s), NonBlankLines(text.s))
  }

  /** Absent, null or empty text has no steps. */
  lemma ParseNoText(text: JsStr)
    requires !Truthy(text)
    ensures ParseInstructions(text) == []
  {
  }

  /**
   * Markup list: the steps are the trimmed item texts with the empty ones
   * removed, and nothing else; the result may be empty. Step `k` is the
   * trimmed text of item `idx[k]`, where `idx` lists, in document order,
   * exactly the items whose trimmed text is not empty.
   */
  lemma ParseMarkupList(text: JsStr)
    requires Truthy(text) && |ListItems(text.s)| > 0
    ensures var items := ListItems(text.s); var r := ParseInstructions(text);
      |r| <= |items|
      && (forall k :: 0 <= k < |r| ==> r[k] != "" && IsTrimmed(r[k]))
      && (forall x :: x in r <==> x != "" && exists k :: 0 <= k < |items| && Trim(items[k]) == x)
    ensures var items := ListItems(text.s); var r := ParseInstructions(text);
      var idx := KeptFrom(TrimAll(items), NotEmpty, 0);
      |r| == |idx|
      && (forall k :: 0 <= k < |r| ==> r[k] == Trim(items[idx[k]]))
      && (forall k, l :: 0 <= k < l < |idx| ==> idx[k] < idx[l])
      && (forall j :: 0 <= j < |items| ==> (j in idx <==> Trim(items[j]) != ""))
  {
    ListSteps(ListItems(text.s));
    ListStepsInOrder(ListItems(text.s));
  }

  /** The kept item texts appear in document order, each once per item that keeps it. */
  lemma ListStepsInOrder(items: seq<string>)
    ensures var r := Filter(TrimAll(items), NotEmpty); var idx := KeptFrom(TrimAll(items), NotEmpty, 0);
      |r| == |idx|
      && (forall k :: 0 <= k < |r| ==> r[k] == Trim(items[idx[k]]))
      && (forall k, l :: 0 <= k < l < |idx| ==> idx[k] < idx[l])
      && (forall j :: 0 <= j < |items| ==> (j in idx <==> Trim(items[j]) != ""))
  {
    var trimmed := TrimAll(items);
    assert trimmed[0..] == trimmed;
    FilterPicksKept(trimmed, NotEmpty, 0);
    KeptAscending(trimmed, NotEmpty, 0);
    forall j | 0 <= j < |items| ensures j in KeptFrom(trimmed, NotEmpty, 0) <==> Trim(items[j]) != "" {
      KeptComplete(trimmed, NotEmpty, 0, j);
    }
  }

  lemma ListSteps(items: seq<string>)
    ensures var r := Filter(TrimAll(items), NotEmpty);
      |r| <= |items|
      && (forall k :: 0 <= k < |r| ==> r[k] != "" && IsTrimmed(r[k]))
      && (forall x :: x in r <==> x != "" && exists k :: 0 <= k < |items| && Trim(items[k]) == x)
  {
    var trimmed := TrimAll(items);
    var r := Filter(trimmed, NotEmpty);
    forall x ensures x in r <==> x != "" && exists k :: 0 <= k < |items| && Trim(items[k]) == x {
      if x in trimmed {
        var k :| 0 <= k < |trimmed| && trimmed[k] == x;
        assert Trim(items[k]) == x;
      }
    }
    forall k | 0 <= k < |r| ensures r[k] != "" && IsTrimmed(r[k]) {
      assert r[k] in trimmed;
    }
  }

  /**
   * Numbered lines: one step per non-blank line, in order, each with its
   * number marker removed and then trimmed.
   */
  lemma ParseNumberedLines(text: JsStr)
    requires Truthy(text) && |ListItems(text.s)| == 0
    requires var lines := NonBlankLines(text.s); |lines| > 1 && HasNumberMarker(lines[0])
    ensures var lines := NonBlankLines(text.s); var r := ParseInstructions(text);
      |r| == |lines|
      && forall k :: 0 <= k < |r| ==>
           r[k] == Trim(StripNumber(lines[k])) && IsTrimmed(r[k]) && '\n' !in r[k]
  {
    NonBlankLinesShape(text.s);
    NumberedStepsShape(NonBlankLines(text.s));
  }

  lemma NumberedStepsShape(lines: seq<string>)
    requires forall k :: 0 <= k < |lines| ==> '\n' !in lines[k]
    ensures var r := NumberedSteps(lines);
      |r| == |lines|
      && forall k :: 0 <= k < |r| ==>
           r[k] == Trim(StripNumber(lines[k])) && IsTrimmed(r[k]) && '\n' !in r[k]
  {
    var r := NumberedSteps(lines);
    forall k | 0 <= k < |r| ensures '\n' !in r[k] {
      var line := lines[k];
      var st := StripNumber(line);
      assert '\n' !in st by {
        forall j | 0 <= j < |st| ensures st[j] != '\n' {
          assert st[j] == line[MarkerLength(line) + j];
        }
      }
      TrimKeepsAbsent(st, '\n');
    }
  }

  /**
   * Unnumbered lines: the steps are the non-blank lines themselves, untrimmed,
   * in their original order.
   */
  lemma ParsePlainLines(text: JsStr)
    requires Truthy(text) && |ListItems(text.s)| == 0
    requires var lines := NonBlankLines(text.s); |lines| > 1 && !HasNumberMarker(lines[0])
    ensures var r := ParseInstructions(text);
      r == Filter(SplitLines(text.s), NotBlank)
      && |r| > 1 && forall k :: 0 <= k < |r| ==> NotBlank(r[k]) && '\n' !in r[k]
  {
    NonBlankLinesShape(text.s);
  }

  /** Without list items and with at most one non-blank line, the text is read as prose. */
  lemma ParseProse(text: JsStr)
    requires Truthy(text) && |ListItems(text.s)| == 0 && |NonBlankLines(text.s)| <= 1
    ensures ParseInstructions(text) == ProseSteps(text.s)
  {
  }

  /** A trimmed sentence match is non-empty and still ends in a terminator. */
  lemma TrimmedSentence(x: string)
    requires IsSentence(x)
    ensures |Trim(x)| > 0 && IsTerminator(Trim(x)[|Trim(x)| - 1])
  {
    TrimKeepsLast(x);
  }

  /**
   * Prose: each step is a trimmed sentence match and ends in `.`, `!` or `?`;
   * with no match the single step is the whole text trimmed.
   */
  lemma ProseStepsShape(t: string)
    ensures var sentences := Sentences(t); var r := ProseSteps(t);
      (|sentences| > 0 ==>
         |r| == |sentences|
         && forall k :: 0 <= k < |r| ==>
              r[k] == Trim(sentences[k]) && |r[k]| > 0 && IsTerminator(r[k][|r[k]| - 1]))
      && (|sentences| == 0 ==> r == [Trim(t)])
  {
    var sentences := Sentences(t);
    var r := ProseSteps(t);
    if |sentences| > 0 {
      SentencesAreSentences(t, 0);
      forall k | 0 <= k < |r| ensures |r[k]| > 0 && IsTerminator(r[k][|r[k]| - 1]) {
        TrimmedSentence(sentences[k]);
      }
    }
  }

  /** Without list items, non-empty text never yields an empty step list. */
  lemma ParseAtLeastOneStep(text: JsStr)
    requires Truthy(text) && |ListItems(text.s)| == 0
    ensures |ParseInstructions(text)| >= 1
  {
    if |NonBlankLines(text.s)| <= 1 {
      ParseProse(text);
    }
  }

  /** Text with no line feed (a lone carriage return does not count) is parsed as prose. */
  lemma SingleLineIsProse(text: JsStr)
    requires Truthy(text) && |ListItems(text.s)| == 0 && '\n' !in text.s
    ensures ParseInstructions(text) == ProseSteps(text.s)
  {
    SplitSingle(text.s);
    ParseProse(text);
  }

  /** Non-empty whitespace-only text yields one empty step. */
  lemma ParseWhitespaceOnly(s: string)
    requires s != "" && AllSpace(s)
    ensures ParseInstructions(Str(s)) == [""]
  {
    assert '<' !in s by {
      forall k | 0 <= k < |s| ensures s[k] != '<' { assert IsSpace(s[k]); }
    }
    ItemsSkipPlain(s, "");
    assert s + "" == s;
    NoBlankLinesInSpace(s);
    NoSentencesInSpace(s);
    TrimEmptyIff(s);
  }

  lemma NoBlankLinesInSpace(s: string)
    requires AllSpace(s)
    ensures NonBlankLines(s) == []
  {
    var pieces := SplitLines(s);
    forall i | 0 <= i < |pieces| ensures !NotBlank(pieces[i]) {
      var x := pieces[i];
      SplitPiecesAreSlices(s, x);
      assert AllSpace(x) by {
        forall k | 0 <= k < |x| ensures IsSpace(x[k]) {
          var j :| 0 <= j < |s| && s[j] == x[k];
        }
      }
      TrimEmptyIff(x);
    }
    FilterNoneKept(pieces, NotBlank);
  }

  /** Every piece of a split is made of characters of the text. */
  lemma {:induction false} SplitPiecesAreSlices(s: string, x: string)
    requires x in SplitLines(s)
    ensures forall k :: 0 <= k < |x| ==> x[k] in s
    decreases |s|
  {
    match IndexOf(s, '\n')
    case None =>
    case Some(i) =>
      if x == DropCR(s[..i]) {
        forall k | 0 <= k < |x| ensures x[k] in s { assert x[k] == s[k]; }
      } else {
        SplitPiecesAreSlices(s[i + 1..], x);
        forall k | 0 <= k < |x| ensures x[k] in s {
          var j :| 0 <= j < |s[i + 1..]| && s[i + 1..][j] == x[k];
          assert s[i + 1 + j] == x[k];
        }
      }
  }

  lemma NoSentencesInSpace(s: string)
    requires AllSpace(s)
    ensures Sentences(s) == []
  {
    if |s| > 0 {
      assert !IsTerminator(s[0]) by { assert IsSpace(s[0]); }
    }
  }
}
