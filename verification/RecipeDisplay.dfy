/**
 * `displayRecipe` of the recipes page: the ingredient scan, the instruction
 * rewriting and the data the recipe card is rendered from.
 */
module RecipeDisplay {
  import opened Wrappers
  import opened JsText
  import opened Payloads
  import Adapters

  /** The test `ingredient && ingredient.trim() !== ''`. */
  predicate Shown(ingredient: JsStr) {
    Truthy(ingredient) && NotBlank(ingredient.s)
  }

  /** A slot passes the loop's test: it holds a string that `show` accepts. */
  predicate Passes(ingredient: JsStr, show: string -> bool) {
    ingredient.Str? && show(ingredient.s)
  }

  /** Accepting the non-blank strings is the source's test. */
  lemma PassesNotBlankIsShown(ingredient: JsStr)
    ensures Passes(ingredient, NotBlank) <==> Shown(ingredient)
  {
    if ingredient.Str? && ingredient.s == "" {
      assert Trim(ingredient.s) == "";
    }
  }

  /**
   * The slots a loop over `i..20` reaches when it `break`s at the first slot
   * that fails the test: `i, i+1, ...` for as long as they pass.
   */
  function SlotsWhile(meal: Meal, i: nat, show: string -> bool): (r: seq<nat>)
    requires 1 <= i <= SlotCount + 1
    ensures |r| <= SlotCount + 1 - i
    decreases SlotCount + 1 - i
  {
    if i > SlotCount || !Passes(Slot(meal.ingredients, i), show) then []
    else [i] + SlotsWhile(meal, i + 1, show)
  }

  /** The slots the card's ingredient loop reaches. */
  function ShownSlots(meal: Meal): seq<nat> {
    SlotsWhile(meal, 1, NotBlank)
  }

  /** One `<li>` per slot, in order, each interpolating the slot's measure and ingredient. */
  function LinesOf(meal: Meal, slots: seq<nat>): (r: seq<string>)
    ensures |r| == |slots|
    ensures forall k :: 0 <= k < |r| ==>
      r[k] == IngredientLine(Slot(meal.measures, slots[k]), Interp(Slot(meal.ingredients, slots[k])))
  {
    if |slots| == 0 then [] else
      [IngredientLine(Slot(meal.measures, slots[0]), Interp(Slot(meal.ingredients, slots[0])))]
      + LinesOf(meal, slots[1..])
  }

  /** The ingredient lines of the recipe card. */
  function DisplayLines(meal: Meal): seq<string> {
    LinesOf(meal, ShownSlots(meal))
  }

  /** The loop from slot `i` reaches slots `i, i+1, ...` in a row, each passing the test. */
  lemma {:induction false} SlotsWhileAreLeading(meal: Meal, i: nat, show: string -> bool)
    requires 1 <= i <= SlotCount + 1
    ensures forall k :: 0 <= k < |SlotsWhile(meal, i, show)| ==>
      SlotsWhile(meal, i, show)[k] == i + k && Passes(Slot(meal.ingredients, i + k), show)
    decreases SlotCount + 1 - i
  {
    if i <= SlotCount && Passes(Slot(meal.ingredients, i), show) {
      SlotsWhileAreLeading(meal, i + 1, show);
      var r := SlotsWhile(meal, i, show);
      var rest := SlotsWhile(meal, i + 1, show);
      assert r == [i] + rest;
      forall k | 0 <= k < |r| ensures r[k] == i + k && Passes(Slot(meal.ingredients, i + k), show) {
        if k > 0 {
          assert r[k] == rest[k - 1];
        }
      }
    }
  }

  /** The loop from slot `i` stops at the first slot that fails the test. */
  lemma {:induction false} SlotsWhileStop(meal: Meal, i: nat, show: string -> bool)
    requires 1 <= i <= SlotCount + 1
    ensures i + |SlotsWhile(meal, i, show)| <= SlotCount ==>
      !Passes(Slot(meal.ingredients, i + |SlotsWhile(meal, i, show)|), show)
    decreases SlotCount + 1 - i
  {
    if i <= SlotCount && Passes(Slot(meal.ingredients, i), show) {
      SlotsWhileStop(meal, i + 1, show);
    }
  }

  /** The card's loop reaches slots in the order 1, 2, 3, ... without skipping any. */
  lemma ShownSlotsNumbered(meal: Meal)
    ensures |ShownSlots(meal)| <= SlotCount
    ensures forall k :: 0 <= k < |ShownSlots(meal)| ==> ShownSlots(meal)[k] == k + 1
  {
    SlotsWhileAreLeading(meal, 1, NotBlank);
  }

  /** Every slot the card's loop reaches holds a non-blank ingredient. */
  lemma ShownSlotsAreShown(meal: Meal)
    ensures forall j :: 1 <= j <= |ShownSlots(meal)| ==> Shown(Slot(meal.ingredients, j))
  {
    SlotsWhileAreLeading(meal, 1, NotBlank);
    var d := ShownSlots(meal);
    forall j | 1 <= j <= |d| ensures Shown(Slot(meal.ingredients, j)) {
      assert d[j - 1] == j;
      PassesNotBlankIsShown(Slot(meal.ingredients, j));
    }
  }

  /**
   * The slot after the last one reached is not shown: the loop stops at the
   * first gap, so a filled slot after a gap is never reached.
   */
  lemma ShownSlotsStopAtGap(meal: Meal)
    ensures |ShownSlots(meal)| < SlotCount ==> !Shown(Slot(meal.ingredients, |ShownSlots(meal)| + 1))
  {
    SlotsWhileStop(meal, 1, NotBlank);
    var d := ShownSlots(meal);
    if |d| < SlotCount {
      PassesNotBlankIsShown(Slot(meal.ingredients, |d| + 1));
    }
  }

  /**
   * The card has one line per slot its loop reaches, line `k` built from the
   * measure and ingredient of slot `k + 1`.
   */
  lemma DisplayLinesAreSlotLines(meal: Meal)
    ensures |DisplayLines(meal)| == |ShownSlots(meal)|
    ensures forall k :: 0 <= k < |DisplayLines(meal)| ==>
      DisplayLines(meal)[k] == IngredientLine(Slot(meal.measures, k + 1), Interp(Slot(meal.ingredients, k + 1)))
  {
    ShownSlotsNumbered(meal);
    LinesOfNumbered(meal, ShownSlots(meal));
  }

  lemma LinesOfNumbered(meal: Meal, slots: seq<nat>)
    requires forall k :: 0 <= k < |slots| ==> slots[k] == k + 1
    ensures forall k :: 0 <= k < |slots| ==>
      LinesOf(meal, slots)[k] == IngredientLine(Slot(meal.measures, k + 1), Interp(Slot(meal.ingredients, k + 1)))
  {
    var r := LinesOf(meal, slots);
    forall k | 0 <= k < |r|
      ensures r[k] == IngredientLine(Slot(meal.measures, k + 1), Interp(Slot(meal.ingredients, k + 1)))
    {
      assert slots[k] == k + 1;
    }
  }

  /**
   * Where the two pages disagree: a slot holding only whitespace is kept by
   * the favourites adapter, which tests truthiness alone, but ends the card's
   * loop, so neither it nor any later slot reaches the card.
   */
  lemma BlankSlotEndsCard(meal: Meal, j: nat)
    requires 1 <= j <= SlotCount
    requires Truthy(Slot(meal.ingredients, j)) && !NotBlank(Slot(meal.ingredients, j).s)
    ensures j in Adapters.FilledSlots(meal)
    ensures forall k :: k in ShownSlots(meal) ==> k < j
  {
    Adapters.FilledSlotsComplete(meal, 1, j);
    ShownSlotsNumbered(meal);
    ShownSlotsAreShown(meal);
    var d := ShownSlots(meal);
    assert |d| < j;
    forall k | k in d ensures k < j {
      var i :| 0 <= i < |d| && d[i] == k;
    }
  }

  /** Under a test that rejects the empty string, the slots reached are the leading slots the adapter keeps. */
  lemma {:induction false} SlotsWhilePrefixOfFilled(meal: Meal, i: nat, show: string -> bool)
    requires 1 <= i <= SlotCount + 1
    requires forall v :: show(v) ==> v != ""
    ensures var d := SlotsWhile(meal, i, show); var f := Adapters.FilledSlotsFrom(meal, i);
      |d| <= |f| && f[..|d|] == d
    decreases SlotCount + 1 - i
  {
    if i <= SlotCount && Passes(Slot(meal.ingredients, i), show) {
      SlotsWhilePrefixOfFilled(meal, i + 1, show);
      var d := SlotsWhile(meal, i + 1, show);
      var f := Adapters.FilledSlotsFrom(meal, i + 1);
      assert Adapters.FilledSlotsFrom(meal, i) == [i] + f;
      assert ([i] + f)[..|d| + 1] == [i] + f[..|d|];
    }
  }

  /**
   * The card's lines are always a leading part of the favourites page's
   * ingredient list for the same meal: the two agree until the card stops.
   */
  lemma DisplayLinesPrefix(meal: Meal)
    ensures var d := DisplayLines(meal); var a := Adapters.MealDbIngredientLines(meal);
      |d| <= |a| && a[..|d|] == d
  {
    forall v | NotBlank(v) ensures v != "" {
      PassesNotBlankIsShown(Str(v));
    }
    SlotsWhilePrefixOfFilled(meal, 1, NotBlank);
    var d := DisplayLines(meal);
    var a := Adapters.MealDbIngredientLines(meal);
    var ds := ShownSlots(meal);
    var fs := Adapters.FilledSlots(meal);
    forall k | 0 <= k < |d| ensures a[k] == d[k] {
      assert fs[k] == ds[k];
    }
  }

  // Instructions: `strInstructions.replace(/\r?\n/g, '<br><br>')`.

  const LineBreak := "<br><br>"

  /** Every `\r\n` or lone `\n`, scanned left to right, becomes `<br><br>`. */
  function ReplaceNewlines(s: string): string
    decreases |s|
  {
    if |s| == 0 then ""
    else if s[0] == '\n' then LineBreak + ReplaceNewlines(s[1..])
    else if s[0] == '\r' && |s| > 1 && s[1] == '\n' then LineBreak + ReplaceNewlines(s[2..])
    else [s[0]] + ReplaceNewlines(s[1..])
  }

  /** No line feed survives the rewriting. */
  lemma {:induction false} ReplaceLeavesNoNewline(s: string)
    ensures '\n' !in ReplaceNewlines(s)
    decreases |s|
  {
    if |s| > 0 {
      if s[0] == '\n' {
        ReplaceLeavesNoNewline(s[1..]);
      } else if s[0] == '\r' && |s| > 1 && s[1] == '\n' {
        ReplaceLeavesNoNewline(s[2..]);
      } else {
        ReplaceLeavesNoNewline(s[1..]);
      }
    }
  }

  /** A first character that starts no line break is copied. */
  lemma ReplaceStepPlain(s: string)
    requires |s| > 0 && s[0] != '\n' && !(s[0] == '\r' && |s| > 1 && s[1] == '\n')
    ensures ReplaceNewlines(s) == [s[0]] + ReplaceNewlines(s[1..])
  {
  }

  /**
   * A stretch without line feeds is copied as it is, provided it does not end
   * in a carriage return that the following text completes to `\r\n`.
   */
  lemma {:induction false} ReplaceSkipsPlain(s: string, j: nat)
    requires j <= |s|
    requires forall k :: 0 <= k < j ==> s[k] != '\n'
    requires j == 0 || j == |s| || s[j - 1] != '\r' || s[j] != '\n'
    ensures ReplaceNewlines(s) == s[..j] + ReplaceNewlines(s[j..])
    decreases j
  {
    if j == 0 {
      assert s[j..] == s;
    } else {
      var u := s[1..];
      assert s[0] != '\n';
      assert |s| > 1 && s[0] == '\r' ==> s[1] != '\n' by {
        if j >= 2 { assert s[1] != '\n'; }
      }
      ReplaceStepPlain(s);
      assert forall k :: 0 <= k < j - 1 ==> u[k] == s[k + 1];
      assert j - 1 == 0 || j - 1 == |u| || (u[j - 2] == s[j - 1] && u[j - 1] == s[j]);
      ReplaceSkipsPlain(u, j - 1);
      SliceAfterFirst(s, j);
    }
  }

  lemma SliceAfterFirst(s: string, j: nat)
    requires 1 <= j <= |s|
    ensures s[1..][j - 1..] == s[j..]
    ensures s[..j] == [s[0]] + s[1..][..j - 1]
  {
  }

  /** Text without line feeds is left unchanged. */
  lemma ReplaceWithoutNewline(s: string)
    requires '\n' !in s
    ensures ReplaceNewlines(s) == s
  {
    ReplaceSkipsPlain(s, |s|);
  }

  /** A lone line feed after plain text becomes a break. */
  lemma ReplaceBeforeLF(q: string, rest: string)
    requires '\n' !in q && (|q| == 0 || q[|q| - 1] != '\r')
    ensures ReplaceNewlines(q + "\n" + rest) == q + LineBreak + ReplaceNewlines(rest)
  {
    var s := q + "\n" + rest;
    var u := s[|q|..];
    assert s[..|q|] == q;
    assert u == "\n" + rest && u[1..] == rest;
    assert forall k :: 0 <= k < |q| ==> s[k] == q[k];
    ReplaceSkipsPlain(s, |q|);
    ReplaceAtLF(u);
  }

  lemma ReplaceAtLF(u: string)
    requires |u| > 0 && u[0] == '\n'
    ensures ReplaceNewlines(u) == LineBreak + ReplaceNewlines(u[1..])
  {
  }

  /** A `\r\n` after plain text becomes a break. */
  lemma ReplaceBeforeCRLF(q: string, rest: string)
    requires '\n' !in q
    ensures ReplaceNewlines(q + "\r\n" + rest) == q + LineBreak + ReplaceNewlines(rest)
  {
    var s := q + "\r\n" + rest;
    ReplaceSkipsPlain(s, |q|);
    assert s[..|q|] == q;
    assert s[|q|..][2..] == rest;
  }

  /** Up to the first line feed: the line (less a closing `\r`), a break, then the rest rewritten. */
  lemma ReplaceAtFirstNewline(s: string, i: nat)
    requires IndexOf(s, '\n') == Some(i)
    ensures ReplaceNewlines(s) == DropCR(s[..i]) + LineBreak + ReplaceNewlines(s[i + 1..])
  {
    var line := s[..i];
    var rest := s[i + 1..];
    assert '\n' !in line;
    if i > 0 && s[i - 1] == '\r' {
      var q := s[..i - 1];
      assert s == q + "\r\n" + rest;
      ReplaceBeforeCRLF(q, rest);
    } else {
      assert s == line + "\n" + rest;
      ReplaceBeforeLF(line, rest);
    }
  }

  /** The global replacement is the same as splitting on `/\r?\n/` and joining with `<br><br>`. */
  lemma {:induction false} ReplaceIsSplitJoin(s: string)
    ensures ReplaceNewlines(s) == Join(SplitLines(s), LineBreak)
    decreases |s|
  {
    match IndexOf(s, '\n')
    case None =>
      ReplaceWithoutNewline(s);
      SplitSingle(s);
    case Some(i) =>
      var rest := s[i + 1..];
      ReplaceIsSplitJoin(rest);
      ReplaceAtFirstNewline(s, i);
      SplitStep(s, i);
      JoinCons(DropCR(s[..i]), SplitLines(rest), LineBreak);
  }

  /** What the recipe card is rendered from. */
  datatype RecipeCard = RecipeCard(
    meal: Meal,
    ingredientLines: seq<string>,
    instructions: string,
    youtubeButton: bool,
    backButton: bool)

  /**
   * `displayRecipe(meal)` with `lastResults` as it stands. `None` when
   * `strInstructions` is not a string: calling `replace` on it throws before
   * the card is written.
   */
  function RenderRecipe(meal: Meal, lastResults: seq<Meal>): (r: Option<RecipeCard>)
    ensures r.None? <==> !meal.strInstructions.Str?
    ensures r.Some? ==>
      r.value.meal == meal
      && r.value.ingredientLines == DisplayLines(meal)
      && r.value.instructions == ReplaceNewlines(meal.strInstructions.s)
      && (r.value.youtubeButton <==> Truthy(meal.strYoutube))
      && (r.value.backButton <==> |lastResults| > 1)
  {
    match meal.strInstructions
    case Str(text) =>
      Some(RecipeCard(meal, DisplayLines(meal), ReplaceNewlines(text), Truthy(meal.strYoutube), |lastResults| > 1))
    case _ => None
  }
}
