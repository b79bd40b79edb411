/**
 * The two adapters of the favourites page that turn a TheMealDB meal or a
 * Spoonacular recipe into the one record shape the page renders.
 */
module Adapters {
  import opened Wrappers
  import opened JsText
  import opened Markup
  import opened Payloads

  datatype Source = TheMealDB | Spoonacular

  /** The provenance tag string stored in the record's `source` field. */
  function SourceTag(s: Source): string {
    match s
    case TheMealDB => "TheMealDB"
    case Spoonacular => "Spoonacular"
  }

  /** Ids are copied as the payload holds them: TheMealDB's as text, Spoonacular's as a number. */
  datatype RecipeId = TextId(v: JsStr) | NumericId(n: int)

  datatype NormalizedRecipe = NormalizedRecipe(
    id: RecipeId,
    title: JsStr,
    image: JsStr,
    area: string,
    category: JsStr,
    instructions: JsStr,
    youtubeUrl: JsStr,
    ingredientsList: string,
    source: Source)

  const MealDbAreaFallback := "International"
  const SpoonacularAreaFallback := "Various"
  const SpoonacularCategoryFallback := "General"

  /** `<ul>${lines.join('')}</ul>`. */
  function HtmlList(lines: seq<string>): string {
    "<ul>" + Concat(lines) + "</ul>"
  }

  /** The slots from `i` to 20 whose ingredient field is truthy, in ascending order. */
  function FilledSlotsFrom(meal: Meal, i: nat): (r: seq<nat>)
    requires 1 <= i <= SlotCount + 1
    ensures forall k :: 0 <= k < |r| ==> i <= r[k] <= SlotCount && Truthy(Slot(meal.ingredients, r[k]))
    ensures |r| <= SlotCount + 1 - i
    decreases SlotCount + 1 - i
  {
    if i > SlotCount then []
    else if Truthy(Slot(meal.ingredients, i)) then [i] + FilledSlotsFrom(meal, i + 1)
    else FilledSlotsFrom(meal, i + 1)
  }

  /** The filled slots are strictly ascending. */
  lemma {:induction false} FilledSlotsAscending(meal: Meal, i: nat)
    requires 1 <= i <= SlotCount + 1
    ensures forall k, l :: 0 <= k < l < |FilledSlotsFrom(meal, i)| ==>
      FilledSlotsFrom(meal, i)[k] < FilledSlotsFrom(meal, i)[l]
    decreases SlotCount + 1 - i
  {
    if i <= SlotCount {
      FilledSlotsAscending(meal, i + 1);
      var rest := FilledSlotsFrom(meal, i + 1);
      if Truthy(Slot(meal.ingredients, i)) {
        var r := [i] + rest;
        assert FilledSlotsFrom(meal, i) == r;
        forall k, l | 0 <= k < l < |r| ensures r[k] < r[l] {
          assert r[l] == rest[l - 1] && i + 1 <= rest[l - 1];
          if k > 0 {
            assert r[k] == rest[k - 1];
            assert rest[k - 1] < rest[l - 1];
          } else {
            assert r[k] == i;
          }
        }
      }
    }
  }

  /** Every truthy slot from `i` on is among the filled slots, and nothing else is. */
  lemma {:induction false} FilledSlotsComplete(meal: Meal, i: nat, j: int)
    requires 1 <= i <= SlotCount + 1
    ensures j in FilledSlotsFrom(meal, i) <==> i <= j <= SlotCount && Truthy(Slot(meal.ingredients, j))
    decreases SlotCount + 1 - i
  {
    if i <= SlotCount {
      FilledSlotsComplete(meal, i + 1, j);
      var rest := FilledSlotsFrom(meal, i + 1);
      if Truthy(Slot(meal.ingredients, i)) {
        assert FilledSlotsFrom(meal, i) == [i] + rest;
        if j == i { assert ([i] + rest)[0] == j; }
      }
    }
  }

  /** The slots 1..20 that hold a truthy ingredient. */
  function FilledSlots(meal: Meal): seq<nat> {
    FilledSlotsFrom(meal, 1)
  }

  /** Probes slots `i..20` in order, emitting a line for each truthy ingredient and skipping the rest. */
  function MealDbLinesFrom(meal: Meal, i: nat): (r: seq<string>)
    requires 1 <= i <= SlotCount + 1
    ensures var slots := FilledSlotsFrom(meal, i);
      |r| == |slots|
      && forall k :: 0 <= k < |r| ==>
           r[k] == IngredientLine(Slot(meal.measures, slots[k]), Slot(meal.ingredients, slots[k]).s)
    decreases SlotCount + 1 - i
  {
    if i > SlotCount then []
    else
      var ing := Slot(meal.ingredients, i);
      if Truthy(ing) then [IngredientLine(Slot(meal.measures, i), ing.s)] + MealDbLinesFrom(meal, i + 1)
      else MealDbLinesFrom(meal, i + 1)
  }

  /**
   * The ingredient lines of a TheMealDB meal: one per filled slot, in slot
   * order, at most twenty.
   */
  function MealDbIngredientLines(meal: Meal): (r: seq<string>)
    ensures |r| == |FilledSlots(meal)| <= SlotCount
    ensures forall k :: 0 <= k < |r| ==>
      r[k] == IngredientLine(Slot(meal.measures, FilledSlots(meal)[k]), Slot(meal.ingredients, FilledSlots(meal)[k]).s)
  {
    MealDbLinesFrom(meal, 1)
  }

  function AdaptTheMealDB(meal: Meal): (r: NormalizedRecipe)
    ensures r.source == TheMealDB && SourceTag(r.source) == "TheMealDB"
    ensures r.id == TextId(meal.idMeal) && r.title == meal.strMeal && r.image == meal.strMealThumb
    ensures r.category == meal.strCategory && r.instructions == meal.strInstructions
    ensures r.youtubeUrl == meal.strYoutube
    ensures Truthy(meal.strArea) ==> r.area == meal.strArea.s
    ensures !Truthy(meal.strArea) ==> r.area == MealDbAreaFallback
    ensures r.area != ""
    ensures r.ingredientsList == HtmlList(MealDbIngredientLines(meal))
  {
    NormalizedRecipe(
      id := TextId(meal.idMeal),
      title := meal.strMeal,
      image := meal.strMealThumb,
      area := if Truthy(meal.strArea) then meal.strArea.s else MealDbAreaFallback,
      category := meal.strCategory,
      instructions := meal.strInstructions,
      youtubeUrl := meal.strYoutube,
      ingredientsList := HtmlList(MealDbIngredientLines(meal)),
      source := TheMealDB)
  }

  /** `tags?.join(', ') || fallback`. */
  function TagsOr(tags: Option<seq<string>>, fallback: string): (r: string)
    requires fallback != ""
    ensures r != ""
    ensures tags.None? ==> r == fallback
    ensures tags.Some? && Join(tags.value, ", ") != "" ==> r == Join(tags.value, ", ")
    ensures tags.Some? && Join(tags.value, ", ") == "" ==> r == fallback
  {
    match tags
    case None => fallback
    case Some(ts) =>
      var joined := Join(ts, ", ");
      if joined != "" then joined else fallback
  }

  /** `<li>${ing.original}</li>` for every entry, or nothing when the list is absent. */
  function SpoonacularLines(recipe: SpoonacularRecipe): (r: seq<string>)
    ensures recipe.extendedIngredients.None? ==> r == []
    ensures recipe.extendedIngredients.Some? ==>
      var xs := recipe.extendedIngredients.value;
      |r| == |xs| && forall k :: 0 <= k < |xs| ==> r[k] == "<li>" + Interp(xs[k].original) + "</li>"
  {
    match recipe.extendedIngredients
    case None => []
    case Some(xs) => seq(|xs|, k requires 0 <= k < |xs| => "<li>" + Interp(xs[k].original) + "</li>")
  }

  function AdaptSpoonacular(recipe: SpoonacularRecipe): (r: NormalizedRecipe)
    ensures r.source == Spoonacular && SourceTag(r.source) == "Spoonacular"
    ensures r.id == NumericId(recipe.id) && r.title == recipe.title && r.image == recipe.image
    ensures r.instructions == recipe.instructions
    ensures r.youtubeUrl == Null
    ensures r.area == TagsOr(recipe.cuisines, SpoonacularAreaFallback) && r.area != ""
    ensures r.category == Str(TagsOr(recipe.dishTypes, SpoonacularCategoryFallback)) && Truthy(r.category)
    ensures r.ingredientsList == HtmlList(SpoonacularLines(recipe))
    ensures recipe.extendedIngredients.None? ==> r.ingredientsList == "<ul></ul>"
  {
    NormalizedRecipe(
      id := NumericId(recipe.id),
      title := recipe.title,
      image := recipe.image,
      area := TagsOr(recipe.cuisines, SpoonacularAreaFallback),
      category := Str(TagsOr(recipe.dishTypes, SpoonacularCategoryFallback)),
      instructions := recipe.instructions,
      youtubeUrl := Null,
      ingredientsList := HtmlList(SpoonacularLines(recipe)),
      source := Spoonacular)
  }

  // Reading the rendered ingredient lists back as list items.

  lemma IndexOfPrefix(p: string, rest: string, c: char)
    requires c in p
    ensures IndexOf(p + rest, c) == IndexOf(p, c)
  {
    var i := IndexOf(p, c).value;
    assert (p + rest)[i] == c;
    assert (p + rest)[..i] == p[..i];
  }

  /** A tag closed by its only `>` contributes no text. */
  lemma TextContentSkipsTag(tag: string, rest: string)
    requires TagOpen(tag) && tag[|tag| - 1] == '>' && '>' !in tag[..|tag| - 1]
    ensures TextContent(tag + rest) == TextContent(rest)
  {
    var s := tag + rest;
    assert s[0] == tag[0] && s[1] == tag[1];
    assert IndexOf(tag, '>') == Some(|tag| - 1);
    IndexOfPrefix(tag, rest, '>');
    assert s[|tag|..] == rest;
  }

  /** An item opened by a bare `<li>` holds the text up to the next boundary. */
  lemma ItemsAtLi(u: string)
    ensures var n := ItemEnd(u);
      ListItems("<li>" + u) == [TextContent(u[..n])] + ListItems(u[n..])
  {
    var t := "<li>" + u;
    assert t[3..] == ">" + u;
    assert IndexOf(t[3..], '>') == Some(0);
    assert LiOpenEnd(t) == Some(4);
    assert t[4..] == u;
  }

  /** `<li>inner</li>` reads back as the text of `inner` when the item body ends where `inner` does. */
  lemma ItemOfInner(inner: string, rest: string)
    requires ItemEnd(inner + ("</li>" + rest)) == |inner|
    ensures ListItems("<li>" + inner + "</li>" + rest) == [TextContent(inner)] + ListItems(rest)
  {
    var body := inner + ("</li>" + rest);
    Associate("<li>", inner, "</li>", rest);
    ItemsAtLi(body);
    SplitAtLength(inner, "</li>" + rest);
    ItemsSkipLt("</li>", rest);
  }

  lemma Associate(a: string, b: string, c: string, d: string)
    ensures a + b + c + d == a + (b + (c + d))
  {
  }

  lemma SplitAtLength(a: string, b: string)
    ensures (a + b)[..|a|] == a && (a + b)[|a|..] == b
  {
  }

  /** `<li>x</li>` reads back as the item `x` when `x` holds no markup. */
  lemma SpoonacularItem(x: string, rest: string)
    requires '<' !in x
    ensures ListItems("<li>" + x + "</li>" + rest) == [x] + ListItems(rest)
  {
    ItemEndPlain(x, "</li>" + rest);
    assert ItemBoundary("</li>" + rest);
    ItemOfInner(x, rest);
    TextContentPlain(x, "");
    assert x + "" == x;
  }

  lemma StrongShape(m: string, g: string, rest: string)
    ensures "<strong>" + m + "</strong> " + g == "<strong>" + (m + ("</strong>" + (" " + g)))
    ensures " " + g + "" == " " + g
    ensures "<strong>" + m + "</strong> " + g + "</li>" + rest
         == "<" + ("strong>" + m + ("</strong> " + g + "</li>" + rest))
    ensures "</strong> " + g + "</li>" + rest == "<" + ("/strong> " + g + ("</li>" + rest))
    ensures |"<strong>" + m + "</strong> " + g| == 1 + |"strong>" + m| + 1 + |"/strong> " + g|
  {
  }

  lemma StrongTags()
    ensures TagOpen("<strong>") && "<strong>"[7] == '>' && '>' !in "<strong>"[..7]
    ensures TagOpen("</strong>") && "</strong>"[8] == '>' && '>' !in "</strong>"[..8]
    ensures '<' !in "strong>" && '<' !in "/strong> "
  {
  }

  /** `<strong>m</strong> g` has text `m g` when neither part holds markup. */
  lemma MealDbItemText(m: string, g: string)
    requires '<' !in m && '<' !in g
    ensures TextContent("<strong>" + m + "</strong> " + g) == m + " " + g
  {
    StrongShape(m, g, "");
    StrongTags();
    TextContentSkipsTag("<strong>", m + ("</strong>" + (" " + g)));
    TextContentPlain(m, "</strong>" + (" " + g));
    TextContentSkipsTag("</strong>", " " + g);
    TextContentPlain(" " + g, "");
  }

  lemma ItemEndStep(s: string)
    requires |s| > 0 && !ItemBoundary(s)
    ensures ItemEnd(s) == 1 + ItemEnd(s[1..])
  {
  }

  /** `<strong>m</strong> g</li>…`: the item body ends at the `</li>`. */
  lemma MealDbItemEnd(m: string, g: string, rest: string)
    requires '<' !in m && '<' !in g
    ensures ItemEnd("<strong>" + m + "</strong> " + g + "</li>" + rest) == |"<strong>" + m + "</strong> " + g|
  {
    StrongShape(m, g, rest);
    StrongTags();
    var b1 := "<" + ("strong>" + m + ("</strong> " + g + "</li>" + rest));
    var b2 := "<" + ("/strong> " + g + ("</li>" + rest));
    assert !ItemBoundary(b1) && b1[1..] == "strong>" + m + ("</strong> " + g + "</li>" + rest);
    ItemEndStep(b1);
    ItemEndPlain("strong>" + m, "</strong> " + g + "</li>" + rest);
    assert !ItemBoundary(b2) && b2[1..] == "/strong> " + g + ("</li>" + rest);
    ItemEndStep(b2);
    ItemEndPlain("/strong> " + g, "</li>" + rest);
    assert ItemBoundary("</li>" + rest);
  }

  lemma MealDbLineShape(m: string, g: string, rest: string)
    ensures "<li><strong>" + m + "</strong> " + g + "</li>" + rest
         == "<li>" + ("<strong>" + m + "</strong> " + g) + "</li>" + rest
    ensures "<strong>" + m + "</strong> " + g + "</li>" + rest
         == ("<strong>" + m + "</strong> " + g) + ("</li>" + rest)
  {
  }

  /** A TheMealDB ingredient line reads back as the item `measure ingredient`. */
  lemma MealDbItem(m: string, g: string, rest: string)
    requires '<' !in m && '<' !in g
    ensures ListItems("<li><strong>" + m + "</strong> " + g + "</li>" + rest) == [m + " " + g] + ListItems(rest)
  {
    MealDbLineShape(m, g, rest);
    MealDbItemEnd(m, g, rest);
    MealDbItemText(m, g);
    ItemOfInner("<strong>" + m + "</strong> " + g, rest);
  }

  /** `line` reads back under `read` as the single item `text`, whatever follows it. */
  ghost predicate ReadsBackAs(read: string -> seq<string>, line: string, text: string) {
    forall tail :: read(line + tail) == [text] + read(tail)
  }

  lemma ReadBack(read: string -> seq<string>, line: string, text: string, tail: string)
    requires ReadsBackAs(read, line, text)
    ensures read(line + tail) == [text] + read(tail)
  {
  }

  /**
   * Concatenated lines each reading back as one item read back as the
   * sequence of items. `read` is left abstract so that the proof does not
   * unfold the scanner.
   */
  lemma {:induction false} ItemsOfLines(read: string -> seq<string>, lines: seq<string>, texts: seq<string>, i: nat, rest: string)
    requires |lines| == |texts| && i <= |lines|
    requires forall k :: 0 <= k < |lines| ==> ReadsBackAs(read, lines[k], texts[k])
    ensures read(Concat(lines[i..]) + rest) == texts[i..] + read(rest)
    decreases |lines| - i
  {
    if i == |lines| {
      assert Concat(lines[i..]) + rest == rest;
    } else {
      var tail := Concat(lines[i + 1..]) + rest;
      assert lines[i..][1..] == lines[i + 1..];
      assert Concat(lines[i..]) + rest == lines[i] + tail;
      ReadBack(read, lines[i], texts[i], tail);
      ItemsOfLines(read, lines, texts, i + 1, rest);
      assert texts[i..] == [texts[i]] + texts[i + 1..];
    }
  }

  /** Reading a `<ul>` of such lines back gives exactly the item texts. */
  lemma ItemsOfHtmlList(lines: seq<string>, texts: seq<string>)
    requires |lines| == |texts|
    requires forall k :: 0 <= k < |lines| ==> ReadsBackAs(ListItems, lines[k], texts[k])
    ensures ListItems(HtmlList(lines)) == texts
  {
    assert HtmlList(lines) == "<ul>" + (Concat(lines) + "</ul>");
    ItemsSkipLt("<ul>", Concat(lines) + "</ul>");
    ItemsOfLines(ListItems, lines, texts, 0, "</ul>");
    assert lines[0..] == lines && texts[0..] == texts;
    ItemsSkipLt("</ul>", "");
    assert "</ul>" + "" == "</ul>";
  }

  /**
   * Round trip: the `li` items of a TheMealDB record's ingredient list are
   * `measure ingredient` for exactly the filled slots, so their number is the
   * number of truthy ingredient fields. Holds when the fields hold no markup.
   */
  lemma MealDbIngredientsRoundTrip(meal: Meal)
    requires forall i :: 1 <= i <= SlotCount ==> '<' !in Interp(Slot(meal.measures, i)) && '<' !in Interp(Slot(meal.ingredients, i))
    ensures var slots := FilledSlots(meal);
      var items := ListItems(AdaptTheMealDB(meal).ingredientsList);
      |items| == |slots|
      && forall k :: 0 <= k < |slots| ==>
           items[k] == Interp(Slot(meal.measures, slots[k])) + " " + Slot(meal.ingredients, slots[k]).s
  {
    var slots := FilledSlots(meal);
    var lines := MealDbIngredientLines(meal);
    var texts := seq(|slots|, k requires 0 <= k < |slots| =>
      Interp(Slot(meal.measures, slots[k])) + " " + Slot(meal.ingredients, slots[k]).s);
    forall k | 0 <= k < |lines| ensures ReadsBackAs(ListItems, lines[k], texts[k]) {
      var m := Interp(Slot(meal.measures, slots[k]));
      var g := Slot(meal.ingredients, slots[k]).s;
      assert '<' !in m && '<' !in Interp(Slot(meal.ingredients, slots[k]));
      forall tail ensures ListItems(lines[k] + tail) == [texts[k]] + ListItems(tail) {
        assert lines[k] + tail == "<li><strong>" + m + "</strong> " + g + "</li>" + tail;
        MealDbItem(m, g, tail);
      }
    }
    ItemsOfHtmlList(lines, texts);
  }

  /**
   * Round trip: the `li` items of a Spoonacular record's ingredient list are
   * the entries' `original` texts, one per entry and in order; an absent list
   * has none. Holds when the texts hold no markup.
   */
  lemma SpoonacularIngredientsRoundTrip(recipe: SpoonacularRecipe)
    requires recipe.extendedIngredients.Some? ==>
      forall k :: 0 <= k < |recipe.extendedIngredients.value| ==> '<' !in Interp(recipe.extendedIngredients.value[k].original)
    ensures var items := ListItems(AdaptSpoonacular(recipe).ingredientsList);
      match recipe.extendedIngredients
      case None => items == []
      case Some(xs) => |items| == |xs| && forall k :: 0 <= k < |xs| ==> items[k] == Interp(xs[k].original)
  {
    var lines := SpoonacularLines(recipe);
    var xs := recipe.extendedIngredients.GetOr([]);
    var texts := seq(|lines|, k requires 0 <= k < |lines| => Interp(xs[k].original));
    forall k | 0 <= k < |lines| ensures ReadsBackAs(ListItems, lines[k], texts[k]) {
      forall tail ensures ListItems(lines[k] + tail) == [texts[k]] + ListItems(tail) {
        SpoonacularItem(Interp(xs[k].original), tail);
      }
    }
    ItemsOfHtmlList(lines, texts);
  }
}
