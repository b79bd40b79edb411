/**
 * The pieces of JavaScript string semantics the recipe pages rely on:
 * truthiness of a decoded JSON field, template-literal interpolation, the
 * whitespace class shared by `\s` and `String.prototype.trim`, splitting on
 * `/\r?\n/`, `Array.prototype.join` and `Array.prototype.filter`.
 */
module JsText {
  import opened Wrappers

  /** A JSON field where a string is expected: absent, `null`, or a string. */
  datatype JsStr = Undefined | Null | Str(s: string)

  /** JavaScript truthiness of such a field: only a non-empty string is truthy. */
  predicate Truthy(v: JsStr) {
    v.Str? && v.s != ""
  }

  /** Template-literal interpolation `${v}`. */
  function Interp(v: JsStr): string {
    match v
    case Undefined => "undefined"
    case Null => "null"
    case Str(s) => s
  }

  /** ECMAScript WhiteSpace and LineTerminator code points (the `\s` class and what `trim` removes). */
  predicate IsSpace(c: char) {
    c == '\t' || c == '\n' || c == '\U{000B}' || c == '\U{000C}' || c == '\r' || c == ' '
    || c == '\U{00A0}' || c == '\U{1680}' || ('\U{2000}' <= c <= '\U{200A}')
    || c == '\U{2028}' || c == '\U{2029}' || c == '\U{202F}' || c == '\U{205F}'
    || c == '\U{3000}' || c == '\U{FEFF}'
  }

  /** The regular-expression class `\d`: ASCII digits only. */
  predicate IsDigit(c: char) {
    '0' <= c <= '9'
  }

  predicate AllSpace(s: string) {
    forall k :: 0 <= k < |s| ==> IsSpace(s[k])
  }

  /** Neither end of `s` is whitespace. */
  predicate IsTrimmed(s: string) {
    s == [] || (!IsSpace(s[0]) && !IsSpace(s[|s| - 1]))
  }

  /** Index of the first occurrence of `c` in `s`. */
  function IndexOf(s: string, c: char): (r: Option<nat>)
    ensures r.None? ==> forall j :: 0 <= j < |s| ==> s[j] != c
    ensures r.Some? ==> r.value < |s| && s[r.value] == c && forall j :: 0 <= j < r.value ==> s[j] != c
  {
    IndexFrom(s, c, 0)
  }

  /** Index of the first occurrence of `c` in `s` at or after `i`. */
  function IndexFrom(s: string, c: char, i: nat): (r: Option<nat>)
    requires i <= |s|
    ensures r.None? ==> forall j :: i <= j < |s| ==> s[j] != c
    ensures r.Some? ==> i <= r.value < |s| && s[r.value] == c && forall j :: i <= j < r.value ==> s[j] != c
    decreases |s| - i
  {
    if i == |s| then None
    else if s[i] == c then Some(i)
    else IndexFrom(s, c, i + 1)
  }

  /** The first occurrence is determined by its position. */
  lemma IndexOfIs(s: string, c: char, i: nat)
    requires i < |s| && s[i] == c && forall j :: 0 <= j < i ==> s[j] != c
    ensures IndexOf(s, c) == Some(i)
  {
  }

  /** End of the whitespace run that starts at `i`. */
  function SpaceEnd(s: string, i: nat): (j: nat)
    requires i <= |s|
    ensures i <= j <= |s| && forall k :: i <= k < j ==> IsSpace(s[k])
    ensures j < |s| ==> !IsSpace(s[j])
    decreases |s| - i
  {
    if i < |s| && IsSpace(s[i]) then SpaceEnd(s, i + 1) else i
  }

  /** Start of the whitespace run that ends at `i`. */
  function SpaceStart(s: string, i: nat): (j: nat)
    requires i <= |s|
    ensures j <= i && forall k :: j <= k < i ==> IsSpace(s[k])
    ensures j > 0 ==> !IsSpace(s[j - 1])
    decreases i
  {
    if i > 0 && IsSpace(s[i - 1]) then SpaceStart(s, i - 1) else i
  }

  /** `String.prototype.trimStart`. */
  function TrimStart(s: string): (r: string)
    ensures |r| <= |s| && r == s[|s| - |r|..]
    ensures AllSpace(s[..|s| - |r|])
    ensures r == [] || !IsSpace(r[0])
  {
    s[SpaceEnd(s, 0)..]
  }

  /** `String.prototype.trimEnd`. */
  function TrimEnd(s: string): (r: string)
    ensures |r| <= |s| && r == s[..|r|]
    ensures AllSpace(s[|r|..])
    ensures r == [] || !IsSpace(r[|r| - 1])
  {
    s[..SpaceStart(s, |s|)]
  }

  /**
   * `String.prototype.trim`: the leading whitespace run is cut off (as by
   * `TrimStart`), then the trailing one; only whitespace is cut and neither
   * end of the result is whitespace.
   */
  function Trim(s: string): (r: string)
    ensures IsTrimmed(r)
    ensures var t := TrimStart(s); |r| <= |t| && r == t[..|r|] && AllSpace(t[|r|..])
  {
    TrimEnd(TrimStart(s))
  }

  /** Trimming leaves nothing exactly when the text is all whitespace. */
  lemma TrimEmptyIff(s: string)
    ensures Trim(s) == [] <==> AllSpace(s)
  {
    var t := TrimStart(s);
    var r := TrimEnd(t);
    var i := |s| - |t|;
    assert t == s[i..];
    if r != [] {
      assert r[0] == t[0] == s[i];
      assert !IsSpace(s[i]);
    } else {
      assert t[|r|..] == t;
      AllSpaceJoin(s, i);
    }
  }

  lemma AllSpaceJoin(s: string, i: nat)
    requires i <= |s| && AllSpace(s[..i]) && AllSpace(s[i..])
    ensures AllSpace(s)
  {
    forall k | 0 <= k < |s| ensures IsSpace(s[k]) {
      if k >= i { assert s[k] == s[i..][k - i]; }
      else { assert s[k] == s[..i][k]; }
    }
  }

  /** The test `line.trim().length > 0`. */
  predicate NotBlank(s: string) {
    Trim(s) != ""
  }

  /** Trimming a string whose ends are not whitespace returns it unchanged. */
  lemma TrimmedIsFixed(s: string)
    requires IsTrimmed(s)
    ensures Trim(s) == s
  {
  }

  /** `Trim` is idempotent. */
  lemma TrimIdempotent(s: string)
    ensures Trim(Trim(s)) == Trim(s)
  {
    TrimmedIsFixed(Trim(s));
  }

  /** Trimming keeps a non-whitespace last character in place. */
  lemma TrimKeepsLast(s: string)
    requires |s| > 0 && !IsSpace(s[|s| - 1])
    ensures |Trim(s)| > 0 && Trim(s)[|Trim(s)| - 1] == s[|s| - 1]
  {
    var t := TrimStart(s);
    assert t[|t| - 1] == s[|s| - 1];
  }

  /** Trimming only removes characters: one absent from `s` is absent from `Trim(s)`. */
  lemma TrimKeepsAbsent(s: string, c: char)
    requires c !in s
    ensures c !in Trim(s)
  {
    var t := TrimStart(s);
    var r := Trim(s);
    forall j | 0 <= j < |r| ensures r[j] != c {
      assert r[j] == t[j] == s[|s| - |t| + j];
    }
  }

  /** Drops one carriage return at the end of a line. */
  function DropCR(p: string): string {
    if |p| > 0 && p[|p| - 1] == '\r' then p[..|p| - 1] else p
  }

  /**
   * `s.split(/\r?\n/)`: cut at every line feed, dropping a carriage return
   * directly before it. A carriage return elsewhere stays in its piece.
   */
  function SplitLines(s: string): (r: seq<string>)
    ensures |r| >= 1
    decreases |s|
  {
    match IndexOf(s, '\n')
    case None => [s]
    case Some(i) => [DropCR(s[..i])] + SplitLines(s[i + 1..])
  }

  /** Text without a line feed is a single piece. */
  lemma SplitSingle(s: string)
    requires '\n' !in s
    ensures SplitLines(s) == [s]
  {
  }

  /** No piece of a split contains a line feed. */
  lemma {:induction false} SplitPiecesLackNewline(s: string)
    ensures forall k :: 0 <= k < |SplitLines(s)| ==> '\n' !in SplitLines(s)[k]
    decreases |s|
  {
    match IndexOf(s, '\n')
    case None =>
    case Some(i) =>
      SplitStep(s, i);
      SplitPiecesLackNewline(s[i + 1..]);
  }

  /** `pieces.join(sep)`. */
  function Join(pieces: seq<string>, sep: string): string
    decreases |pieces|
  {
    if |pieces| == 0 then ""
    else if |pieces| == 1 then pieces[0]
    else pieces[0] + sep + Join(pieces[1..], sep)
  }

  /** `pieces.join('')`. */
  function Concat(pieces: seq<string>): (r: string)
    ensures |pieces| == 0 ==> r == ""
    decreases |pieces|
  {
    if |pieces| == 0 then "" else pieces[0] + Concat(pieces[1..])
  }

  lemma ConcatAppend(a: seq<string>, b: seq<string>)
    ensures Concat(a + b) == Concat(a) + Concat(b)
  {
    if |a| > 0 {
      assert (a + b)[1..] == a[1..] + b;
      ConcatAppend(a[1..], b);
    } else {
      assert a + b == b;
    }
  }

  /** With no carriage returns, joining the pieces of a split with `\n` gives the text back. */
  lemma {:induction false} SplitJoinRoundTrip(s: string)
    requires '\r' !in s
    ensures Join(SplitLines(s), "\n") == s
    decreases |s|
  {
    match IndexOf(s, '\n')
    case None =>
    case Some(i) =>
      var rest := s[i + 1..];
      var line := s[..i];
      AbsentFromSlice(s, '\r', i + 1, |s|);
      assert rest == s[i + 1..|s|];
      AbsentFromSlice(s, '\r', 0, i);
      assert line == s[0..i];
      assert DropCR(line) == line;
      SplitJoinRoundTrip(rest);
      SplitStep(s, i);
      JoinCons(line, SplitLines(rest), "\n");
      assert s == line + "\n" + rest;
  }

  lemma SplitStep(s: string, i: nat)
    requires IndexOf(s, '\n') == Some(i)
    ensures SplitLines(s) == [DropCR(s[..i])] + SplitLines(s[i + 1..])
  {
  }

  /** A character absent from `s` is absent from every slice of it. */
  lemma AbsentFromSlice(s: string, c: char, a: nat, b: nat)
    requires a <= b <= |s| && c !in s
    ensures c !in s[a..b]
  {
  }

  lemma JoinCons(x: string, xs: seq<string>, sep: string)
    requires |xs| >= 1
    ensures Join([x] + xs, sep) == x + sep + Join(xs, sep)
  {
    assert ([x] + xs)[1..] == xs;
  }

  /** `Array.prototype.filter`: keeps exactly the elements satisfying `keep`, in order. */
  function Filter(s: seq<string>, keep: string -> bool): (r: seq<string>)
    ensures |r| <= |s|
    ensures forall x :: x in r <==> x in s && keep(x)
    decreases |s|
  {
    if |s| == 0 then []
    else if keep(s[0]) then [s[0]] + Filter(s[1..], keep)
    else Filter(s[1..], keep)
  }

  /** Nothing survives a filter that rejects every element. */
  lemma {:induction false} FilterNoneKept(s: seq<string>, keep: string -> bool)
    requires forall k :: 0 <= k < |s| ==> !keep(s[k])
    ensures Filter(s, keep) == []
    decreases |s|
  {
    if |s| > 0 {
      FilterNoneKept(s[1..], keep);
    }
  }

  /** A filter that accepts every element returns the list unchanged. */
  lemma {:induction false} FilterKeepsAll(s: seq<string>, keep: string -> bool)
    requires forall k :: 0 <= k < |s| ==> keep(s[k])
    ensures Filter(s, keep) == s
    decreases |s|
  {
    if |s| > 0 {
      FilterKeepsAll(s[1..], keep);
      assert s == [s[0]] + s[1..];
    }
  }

  /** Filtering distributes over concatenation, so relative order is kept. */
  lemma {:induction false} FilterAppend(a: seq<string>, b: seq<string>, keep: string -> bool)
    ensures Filter(a + b, keep) == Filter(a, keep) + Filter(b, keep)
    decreases |a|
  {
    if |a| == 0 {
      assert a + b == b;
    } else {
      var ab := a + b;
      assert ab[0] == a[0];
      assert ab[1..] == a[1..] + b;
      FilterAppend(a[1..], b, keep);
      if keep(a[0]) {
        calc {
          Filter(ab, keep);
          [a[0]] + Filter(ab[1..], keep);
          [a[0]] + (Filter(a[1..], keep) + Filter(b, keep));
          ([a[0]] + Filter(a[1..], keep)) + Filter(b, keep);
        }
      } else {
        calc {
          Filter(ab, keep);
          Filter(ab[1..], keep);
          Filter(a[1..], keep) + Filter(b, keep);
        }
      }
    }
  }

  /** The positions from `i` on whose elements pass `keep`, in ascending order. */
  function KeptFrom(s: seq<string>, keep: string -> bool, i: nat): (r: seq<nat>)
    requires i <= |s|
    ensures forall k :: 0 <= k < |r| ==> i <= r[k] < |s|
    decreases |s| - i
  {
    if i == |s| then []
    else if keep(s[i]) then [i] + KeptFrom(s, keep, i + 1)
    else KeptFrom(s, keep, i + 1)
  }

  /** The filter of `s[i..]` picks out the elements at the kept positions, one by one. */
  lemma {:induction false} FilterPicksKept(s: seq<string>, keep: string -> bool, i: nat)
    requires i <= |s|
    ensures |Filter(s[i..], keep)| == |KeptFrom(s, keep, i)|
    ensures forall k :: 0 <= k < |KeptFrom(s, keep, i)| ==> Filter(s[i..], keep)[k] == s[KeptFrom(s, keep, i)[k]]
    decreases |s| - i
  {
    if i < |s| {
      FilterPicksKept(s, keep, i + 1);
      assert s[i..][0] == s[i] && s[i..][1..] == s[i + 1..];
      var rest := Filter(s[i + 1..], keep);
      var kept := KeptFrom(s, keep, i + 1);
      if keep(s[i]) {
        forall k | 0 <= k < |KeptFrom(s, keep, i)| ensures Filter(s[i..], keep)[k] == s[KeptFrom(s, keep, i)[k]] {
          if k > 0 {
            assert Filter(s[i..], keep)[k] == rest[k - 1];
            assert KeptFrom(s, keep, i)[k] == kept[k - 1];
          }
        }
      }
    }
  }

  /** The kept positions are strictly ascending. */
  lemma {:induction false} KeptAscending(s: seq<string>, keep: string -> bool, i: nat)
    requires i <= |s|
    ensures forall k, l :: 0 <= k < l < |KeptFrom(s, keep, i)| ==> KeptFrom(s, keep, i)[k] < KeptFrom(s, keep, i)[l]
    decreases |s| - i
  {
    if i < |s| {
      KeptAscending(s, keep, i + 1);
      var rest := KeptFrom(s, keep, i + 1);
      if keep(s[i]) {
        var r := [i] + rest;
        forall k, l | 0 <= k < l < |r| ensures r[k] < r[l] {
          assert r[l] == rest[l - 1];
          if k > 0 { assert r[k] == rest[k - 1]; }
        }
      }
    }
  }

  /** A position from `i` on is kept exactly when its element passes. */
  lemma {:induction false} KeptComplete(s: seq<string>, keep: string -> bool, i: nat, j: int)
    requires i <= |s|
    ensures j in KeptFrom(s, keep, i) <==> i <= j < |s| && keep(s[j])
    decreases |s| - i
  {
    if i < |s| {
      KeptComplete(s, keep, i + 1, j);
      if keep(s[i]) {
        assert KeptFrom(s, keep, i) == [i] + KeptFrom(s, keep, i + 1);
        if j == i { assert ([i] + KeptFrom(s, keep, i + 1))[0] == j; }
      }
    }
  }

  /** `xs.map(x => x.trim())`. */
  function TrimAll(xs: seq<string>): (r: seq<string>)
    ensures |r| == |xs|
    ensures forall k :: 0 <= k < |r| ==> r[k] == Trim(xs[k])
  {
    seq(|xs|, k requires 0 <= k < |xs| => Trim(xs[k]))
  }
}
