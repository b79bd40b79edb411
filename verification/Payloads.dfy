/**
 * The decoded JSON records the pages receive from TheMealDB and Spoonacular,
 * reduced to the fields the pages read.
 */
module Payloads {
  import opened Wrappers
  import opened JsText

  /** TheMealDB numbers its ingredient and measure fields 1 to 20. */
  const SlotCount: nat := 20

  /**
   * A TheMealDB meal. The numbered fields `strIngredient1..` and
   * `strMeasure1..` are kept as sequences: field `i` is element `i - 1`.
   */
  datatype Meal = Meal(
    idMeal: JsStr,
    strMeal: JsStr,
    strMealThumb: JsStr,
    strArea: JsStr,
    strCategory: JsStr,
    strInstructions: JsStr,
    strYoutube: JsStr,
    ingredients: seq<JsStr>,
    measures: seq<JsStr>)

  /** Numbered field `i` (from 1); a field the payload lacks reads as `undefined`. */
  function Slot(fields: seq<JsStr>, i: nat): JsStr {
    if 1 <= i <= |fields| then fields[i - 1] else Undefined
  }

  /** The ingredient line both pages build: `<li><strong>${measure}</strong> ${ingredient}</li>`. */
  function IngredientLine(measure: JsStr, ingredient: string): string {
    "<li><strong>" + Interp(measure) + "</strong> " + ingredient + "</li>"
  }

  /** One entry of Spoonacular's `extendedIngredients`. */
  datatype ExtIngredient = ExtIngredient(original: JsStr)

  /** A Spoonacular recipe-information payload. */
  datatype SpoonacularRecipe = SpoonacularRecipe(
    id: int,
    title: JsStr,
    image: JsStr,
    cuisines: Option<seq<string>>,
    dishTypes: Option<seq<string>>,
    instructions: JsStr,
    extendedIngredients: Option<seq<ExtIngredient>>)
}
