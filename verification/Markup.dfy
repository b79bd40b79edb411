/**
 * A simplified stand-in for what the browser does when instruction text is
 * assigned to `innerHTML` and its `li` elements are read back with
 * `querySelectorAll('li')` and `textContent`.
 *
 * An item starts at an `<li` start tag (any letter case, closed by `>`), runs
 * to the next `<li` start, `</li`, `</ul` or `</ol`, and its text is the item's
 * markup with tags removed. Nested lists, character references and quoted `>`
 * inside attributes are not modelled.
 */
module Markup {
  import opened Wrappers
  import opened JsText

  function Lower(c: char): char {
    if 'A' <= c <= 'Z' then (c as int + 32) as char else c
  }

  predicate IsAsciiAlpha(c: char) {
    'a' <= Lower(c) <= 'z'
  }

  /** Characters that may end a tag name. */
  predicate EndsTagName(c: char) {
    c == '>' || c == '/' || c == ' ' || c == '\t' || c == '\n' || c == '\r' || c == '\U{000C}'
  }

  /** `t` begins with the name part of an `li` start tag. */
  predicate LiOpenStart(t: string) {
    |t| >= 4 && t[0] == '<' && Lower(t[1]) == 'l' && Lower(t[2]) == 'i' && EndsTagName(t[3])
  }

  /** `t` begins with an end tag that closes an open item: `</li`, `</ul` or `</ol`. */
  predicate ClosesItem(t: string) {
    |t| >= 4 && t[0] == '<' && t[1] == '/'
    && ((Lower(t[2]) == 'l' && Lower(t[3]) == 'i') || ((Lower(t[2]) == 'u' || Lower(t[2]) == 'o') && Lower(t[3]) == 'l'))
  }

  predicate ItemBoundary(t: string) {
    LiOpenStart(t) || ClosesItem(t)
  }

  /** Length of the complete `li` start tag at the front of `t`, if there is one. */
  function LiOpenEnd(t: string): (r: Option<nat>)
    ensures r.Some? ==> 4 <= r.value <= |t| && t[0] == '<' && t[r.value - 1] == '>'
    ensures r.Some? <==> LiOpenStart(t) && '>' in t[3..]
    ensures r.Some? ==> '>' !in t[3..r.value - 1]
  {
    if !LiOpenStart(t) then None
    else
      match IndexOf(t[3..], '>')
      case None => None
      case Some(j) => Some(3 + j + 1)
  }

  /** Where the item body at the front of `s` ends: the first boundary, or the end of `s`. */
  function ItemEnd(s: string): (n: nat)
    ensures n <= |s|
    decreases |s|
  {
    if |s| == 0 || ItemBoundary(s) then 0 else 1 + ItemEnd(s[1..])
  }

  /** The item body holds no boundary, and stops at one unless the text runs out. */
  lemma {:induction false} ItemEndIsFirstBoundary(s: string)
    ensures ItemEnd(s) < |s| ==> ItemBoundary(s[ItemEnd(s)..])
    ensures forall k :: 0 <= k < ItemEnd(s) ==> !ItemBoundary(s[k..])
    decreases |s|
  {
    if |s| > 0 && !ItemBoundary(s) {
      ItemEndIsFirstBoundary(s[1..]);
      assert forall k :: 1 <= k <= |s| ==> s[k..] == s[1..][k - 1..];
    }
  }

  /** A `<` that opens a tag in the tokenizer: followed by a letter, `/` or `!`. */
  predicate TagOpen(s: string) {
    |s| >= 2 && s[0] == '<' && (IsAsciiAlpha(s[1]) || s[1] == '/' || s[1] == '!')
  }

  /** `textContent` of a fragment: the fragment with its tags removed. */
  function TextContent(s: string): string
    decreases |s|
  {
    if |s| == 0 then ""
    else if TagOpen(s) then
      match IndexOf(s, '>')
      case Some(j) => TextContent(s[j + 1..])
      case None => ""
    else [s[0]] + TextContent(s[1..])
  }

  /** The text of every `li` element of `t`, in document order. */
  function ListItems(t: string): seq<string>
    decreases |t|
  {
    if |t| == 0 then []
    else
      match LiOpenEnd(t)
      case None => ListItems(t[1..])
      case Some(k) =>
        var body := t[k..];
        var n := ItemEnd(body);
        [TextContent(body[..n])] + ListItems(body[n..])
  }

  /** There is at least one item exactly when some position starts a complete `li` start tag. */
  lemma {:induction false} ListItemsNonEmptyIff(t: string)
    ensures |ListItems(t)| > 0 <==> exists i :: 0 <= i < |t| && LiOpenEnd(t[i..]).Some?
    decreases |t|
  {
    if |t| > 0 {
      assert t[0..] == t;
      if LiOpenEnd(t).None? {
        ListItemsNonEmptyIff(t[1..]);
        if |ListItems(t)| > 0 {
          var i :| 0 <= i < |t[1..]| && LiOpenEnd(t[1..][i..]).Some?;
          assert t[1..][i..] == t[i + 1..];
        }
        if exists i :: 0 <= i < |t| && LiOpenEnd(t[i..]).Some? {
          var i :| 0 <= i < |t| && LiOpenEnd(t[i..]).Some?;
          assert i > 0;
          assert t[1..][i - 1..] == t[i..];
        }
      }
    }
  }

  /** Skipping text that holds no `<` leaves the items unchanged. */
  lemma {:induction false} ItemsSkipPlain(p: string, rest: string)
    requires '<' !in p
    ensures ListItems(p + rest) == ListItems(rest)
    decreases |p|
  {
    if |p| > 0 {
      assert (p + rest)[1..] == p[1..] + rest;
      ItemsSkipPlain(p[1..], rest);
    } else {
      assert p + rest == rest;
    }
  }

  /** A `<` that does not start `<li` is skipped over like text. */
  lemma ItemsSkipLt(p: string, rest: string)
    requires |p| >= 2 && p[0] == '<' && Lower(p[1]) != 'l' && '<' !in p[1..]
    ensures ListItems(p + rest) == ListItems(rest)
  {
    var t := p + rest;
    assert LiOpenEnd(t).None?;
    assert t[1..] == p[1..] + rest;
    ItemsSkipPlain(p[1..], rest);
  }

  /** Text without `<` holds no boundary, so an item body runs across it. */
  lemma {:induction false} ItemEndPlain(p: string, rest: string)
    requires '<' !in p
    ensures ItemEnd(p + rest) == |p| + ItemEnd(rest)
    decreases |p|
  {
    if |p| > 0 {
      assert (p + rest)[1..] == p[1..] + rest;
      ItemEndPlain(p[1..], rest);
    } else {
      assert p + rest == rest;
    }
  }

  /** Text without `<` is its own text content, and stays so in front of more markup. */
  lemma {:induction false} TextContentPlain(p: string, rest: string)
    requires '<' !in p
    ensures TextContent(p + rest) == p + TextContent(rest)
    decreases |p|
  {
    if |p| > 0 {
      assert (p + rest)[1..] == p[1..] + rest;
      TextContentPlain(p[1..], rest);
    } else {
      assert p + rest == rest;
    }
  }
}
