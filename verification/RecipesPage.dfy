/**
 * The recipes page as a state machine. The page keeps one piece of state,
 * `lastResults` (the meals of the latest search or browse), and one visible
 * view in `recipeOutput`. Every user action, together with the responses
 * of the requests it makes, moves the page from one state to the next.
 */
module RecipesPage {
  import opened Wrappers
  import opened JsText
  import opened Payloads
  import opened RecipeDisplay

  /** What awaiting `fetch(...)` and `response.json()` produced: a rejection, or the decoded value. */
  datatype Fetch<T> = Failed | Fetched(value: T)

  /** The `meals` member of a TheMealDB search response; `None` when it is `null` or missing. */
  type MealsReply = Fetch<Option<seq<Meal>>>

  /** What `recipeOutput` currently shows. */
  datatype View =
    | Blank
    | Notice(text: string)
    | Failure(text: string)
    | ResultsList(meals: seq<Meal>)
    | Detail(card: RecipeCard)

  datatype Page = Page(lastResults: seq<Meal>, view: View)

  const Initial := Page([], Blank)

  /**
   * One user action with the responses its requests receive. A category
   * click first lists the category (`summaries`: the `idMeal` of each entry
   * of `meals`, or `None` when `meals` is `null`), then looks up each id with
   * `lookup`. `Select(k)` clicks entry `k` of the list on screen; `Back`
   * clicks the card's back button.
   */
  datatype Event =
    | Search(query: string, enterNameText: JsStr, reply: MealsReply)
    | Random(reply: MealsReply)
    | Letter(letter: string, reply: MealsReply)
    | Category(summaries: Fetch<Option<seq<JsStr>>>, lookup: JsStr -> MealsReply)
    | Select(index: nat)
    | Back

  const EnterNameDefault := "Please enter a recipe name or ingredient to search."
  const SearchError := "An error occurred while searching for recipes."
  const RandomError := "Could not fetch a random recipe."
  const LetterError := "Could not load recipes."
  const CategoryError := "Could not load recipes for this category."

  function NoSearchResults(query: string): string {
    "Sorry, no recipes found for \"" + query + "\". Please try another search."
  }

  function NoLetterResults(letter: string): string {
    "Sorry, no recipes found starting with the letter \"" + letter + "\"."
  }

  /**
   * `displayRecipe(meal)` inside a `try` whose `catch` shows `err`: the card
   * when it renders, the error when rendering throws.
   */
  function ShowRecipe(lastResults: seq<Meal>, meal: Meal, err: string): (r: Page)
    ensures r.lastResults == lastResults
    ensures r.view.Detail? || r.view == Failure(err)
    ensures r.view.Detail? <==> meal.strInstructions.Str?
  {
    match RenderRecipe(meal, lastResults)
    case Some(card) => Page(lastResults, Detail(card))
    case None => Page(lastResults, Failure(err))
  }

  /**
   * `Promise.all` over the detail lookups: the first meal of each lookup, in
   * the order of the ids, or `None` as soon as one lookup is rejected or has
   * no meal.
   */
  function FetchDetails(ids: seq<JsStr>, lookup: JsStr -> MealsReply): (r: Option<seq<Meal>>)
    ensures r.Some? ==> |r.value| == |ids|
  {
    if |ids| == 0 then Some([])
    else
      match lookup(ids[0])
      case Fetched(Some(meals)) =>
        (if |meals| == 0 then None
         else
           match FetchDetails(ids[1..], lookup)
           case Some(rest) => Some([meals[0]] + rest)
           case None => None)
      case Fetched(None) => None
      case Failed => None
  }

  /** The search button's handler once the query is not blank. */
  function SearchReply(p: Page, query: string, reply: MealsReply): (r: Page)
    ensures reply.Failed? ==> r == Page(p.lastResults, Failure(SearchError))
    ensures reply.Fetched? ==> r.lastResults == reply.value.GetOr([])
  {
    match reply
    case Failed => Page(p.lastResults, Failure(SearchError))
    case Fetched(Some(meals)) =>
      if |meals| == 0 then Page([], Notice(NoSearchResults(query)))
      else if |meals| == 1 then ShowRecipe(meals, meals[0], SearchError)
      else Page(meals, ResultsList(meals))
    case Fetched(None) => Page([], Notice(NoSearchResults(query)))
  }

  /** The click handlers of the page. */
  function Step(p: Page, e: Event): (r: Page)
    ensures e.Select? || e.Back? ==> r.lastResults == p.lastResults
  {
    match e
    case Search(query, enterNameText, reply) =>
      if Trim(query) == "" then
        Page(p.lastResults, Notice(if Truthy(enterNameText) then enterNameText.s else EnterNameDefault))
      else
        SearchReply(p, query, reply)
    case Random(reply) =>
      (match reply
       case Failed => Page(p.lastResults, Failure(RandomError))
       case Fetched(Some(meals)) =>
         if |meals| == 0 then Page([], Failure(RandomError))
         else ShowRecipe([], meals[0], RandomError)
       case Fetched(None) => Page([], Failure(RandomError)))
    case Letter(letter, reply) =>
      (match reply
       case Failed => Page(p.lastResults, Failure(LetterError))
       case Fetched(Some(meals)) => Page(meals, ResultsList(meals))
       case Fetched(None) => Page([], Notice(NoLetterResults(letter))))
    case Category(summaries, lookup) =>
      (match summaries
       case Fetched(Some(ids)) =>
         (match FetchDetails(ids, lookup)
          case Some(meals) => Page(meals, ResultsList(meals))
          case None => Page(p.lastResults, Failure(CategoryError)))
       case _ => Page(p.lastResults, Failure(CategoryError)))
    case Select(k) =>
      if p.view.ResultsList? && k < |p.view.meals| then
        (match RenderRecipe(p.view.meals[k], p.lastResults)
         case Some(card) => Page(p.lastResults, Detail(card))
         case None => p)
      else p
    case Back =>
      if p.view.Detail? && p.view.card.backButton then Page(p.lastResults, ResultsList(p.lastResults))
      else p
  }

  /** The page after a sequence of actions. */
  function Run(p: Page, events: seq<Event>): Page
    decreases |events|
  {
    if |events| == 0 then p else Run(Step(p, events[0]), events[1..])
  }

  // Properties of single actions.

  /** Looking up a category succeeds exactly when every lookup yields a meal, and keeps the list's order. */
  lemma {:induction false} CategoryKeepsOrder(ids: seq<JsStr>, lookup: JsStr -> MealsReply)
    ensures FetchDetails(ids, lookup).Some? <==>
      forall k :: 0 <= k < |ids| ==> lookup(ids[k]).Fetched? && lookup(ids[k]).value.Some? && |lookup(ids[k]).value.value| > 0
    ensures FetchDetails(ids, lookup).Some? ==>
      forall k :: 0 <= k < |ids| ==> FetchDetails(ids, lookup).value[k] == lookup(ids[k]).value.value[0]
    decreases |ids|
  {
    if |ids| > 0 {
      var tail := ids[1..];
      CategoryKeepsOrder(tail, lookup);
      assert forall k :: 1 <= k < |ids| ==> ids[k] == tail[k - 1];
      var r := FetchDetails(ids, lookup);
      var first := lookup(ids[0]);
      if first.Fetched? && first.value.Some? && |first.value.value| > 0 {
        if FetchDetails(tail, lookup).Some? {
          var rest := FetchDetails(tail, lookup).value;
          assert r == Some([first.value.value[0]] + rest);
          forall k | 0 <= k < |ids| ensures r.value[k] == lookup(ids[k]).value.value[0] {
            if k > 0 { assert r.value[k] == rest[k - 1]; }
          }
        } else {
          var j :| 0 <= j < |tail| && !(lookup(tail[j]).Fetched? && lookup(tail[j]).value.Some? && |lookup(tail[j]).value.value| > 0);
          assert tail[j] == ids[j + 1];
        }
      }
    }
  }

  /** A blank search query leaves the results alone and asks for a name. */
  lemma BlankSearchKeepsResults(p: Page, query: string, enterNameText: JsStr, reply: MealsReply)
    requires AllSpace(query)
    ensures Step(p, Search(query, enterNameText, reply)).lastResults == p.lastResults
    ensures Step(p, Search(query, enterNameText, reply)).view.Notice?
    ensures !Truthy(enterNameText) ==> Step(p, Search(query, enterNameText, reply)).view == Notice(EnterNameDefault)
  {
    TrimEmptyIff(query);
  }

  /**
   * A search that reaches the server replaces the results with what it found;
   * one that fails leaves them as they were. A single meal goes straight to
   * its card, several to the list, none to a notice quoting the query.
   */
  lemma SearchOutcome(p: Page, query: string, enterNameText: JsStr, reply: MealsReply)
    requires !AllSpace(query)
    ensures var r := Step(p, Search(query, enterNameText, reply));
      (reply.Failed? ==> r == Page(p.lastResults, Failure(SearchError)))
      && (reply.Fetched? ==>
            r.lastResults == (if reply.value.Some? then reply.value.value else [])
            && (r.lastResults == [] <==> r.view == Notice(NoSearchResults(query)))
            && (|r.lastResults| == 1 ==> r.view.Detail? || r.view == Failure(SearchError))
            && (|r.lastResults| > 1 ==> r.view == ResultsList(r.lastResults)))
  {
    TrimEmptyIff(query);
    var r := Step(p, Search(query, enterNameText, reply));
    if reply.Fetched? && reply.value.Some? && |reply.value.value| == 1 {
      assert r.view.Detail? || r.view.Failure?;
    }
  }

  /** A search with exactly one match shows its card with no back button. */
  lemma SingleMatchHasNoBack(p: Page, query: string, enterNameText: JsStr, meal: Meal)
    requires !AllSpace(query) && meal.strInstructions.Str?
    ensures var r := Step(p, Search(query, enterNameText, Fetched(Some([meal]))));
      r.lastResults == [meal] && r.view.Detail? && r.view.card.meal == meal && !r.view.card.backButton
  {
    TrimEmptyIff(query);
  }

  /** A random recipe clears the results when the request succeeds, so its card never has a back button. */
  lemma RandomClearsResults(p: Page, reply: MealsReply)
    ensures var r := Step(p, Random(reply));
      (reply.Fetched? ==> r.lastResults == [])
      && (reply.Failed? ==> r.lastResults == p.lastResults)
      && (r.view.Detail? ==> !r.view.card.backButton && r.view.card.meal == reply.value.value[0])
      && (!r.view.Detail? ==> r.view == Failure(RandomError))
  {
  }

  /**
   * Browsing by letter lists whatever `meals` array comes back, even an
   * empty one (an empty array is truthy); only a missing `meals` gives the
   * notice.
   */
  lemma LetterListsEveryReply(p: Page, letter: string, meals: seq<Meal>)
    ensures Step(p, Letter(letter, Fetched(Some(meals)))) == Page(meals, ResultsList(meals))
    ensures Step(p, Letter(letter, Fetched(None))) == Page([], Notice(NoLetterResults(letter)))
    ensures Step(p, Letter(letter, Failed)) == Page(p.lastResults, Failure(LetterError))
  {
  }

  /** A category browse that succeeds lists one meal per summary, in the summaries' order. */
  lemma CategoryListsInOrder(p: Page, ids: seq<JsStr>, lookup: JsStr -> MealsReply)
    requires forall k :: 0 <= k < |ids| ==>
      lookup(ids[k]).Fetched? && lookup(ids[k]).value.Some? && |lookup(ids[k]).value.value| > 0
    ensures var r := Step(p, Category(Fetched(Some(ids)), lookup));
      r.view == ResultsList(r.lastResults)
      && |r.lastResults| == |ids|
      && forall k :: 0 <= k < |ids| ==> r.lastResults[k] == lookup(ids[k]).value.value[0]
  {
    CategoryKeepsOrder(ids, lookup);
  }

  /** One failed lookup fails the whole category browse and keeps the earlier results. */
  lemma CategoryFailsOnAnyLookup(p: Page, ids: seq<JsStr>, lookup: JsStr -> MealsReply, k: nat)
    requires k < |ids| && !(lookup(ids[k]).Fetched? && lookup(ids[k]).value.Some? && |lookup(ids[k]).value.value| > 0)
    ensures Step(p, Category(Fetched(Some(ids)), lookup)) == Page(p.lastResults, Failure(CategoryError))
  {
    CategoryKeepsOrder(ids, lookup);
  }

  /** The back button shows the last results again. */
  lemma BackShowsLastResults(p: Page)
    requires p.view.Detail? && p.view.card.backButton
    ensures Step(p, Back) == Page(p.lastResults, ResultsList(p.lastResults))
  {
  }

  /**
   * Opening entry `k` of a list of several meals and pressing back returns
   * to the same list.
   */
  lemma SelectThenBack(meals: seq<Meal>, k: nat)
    requires k < |meals| && |meals| > 1 && meals[k].strInstructions.Str?
    ensures var p := Page(meals, ResultsList(meals));
      Step(p, Select(k)).view.Detail?
      && Step(p, Select(k)).view.card.meal == meals[k]
      && Step(Step(p, Select(k)), Back) == p
  {
    var p := Page(meals, ResultsList(meals));
    var card := RenderRecipe(meals[k], meals);
    assert card.Some? && card.value.backButton;
    assert Step(p, Select(k)) == Page(meals, Detail(card.value));
  }

  // The page invariant.

  /**
   * The list on screen is always `lastResults`, and a card's back button is
   * there exactly when `lastResults` holds more than one meal; a card shows
   * one of the last results, or a random recipe when there are none.
   */
  predicate Consistent(p: Page) {
    (p.view.ResultsList? ==> p.view.meals == p.lastResults)
    && (p.view.Detail? ==>
          (p.view.card.backButton <==> |p.lastResults| > 1)
          && (p.view.card.meal in p.lastResults || p.lastResults == []))
  }

  lemma StepKeepsConsistent(p: Page, e: Event)
    requires Consistent(p)
    ensures Consistent(Step(p, e))
  {
    match e
    case Search(query, enterNameText, reply) =>
      if Trim(query) != "" && reply.Fetched? && reply.value.Some? && |reply.value.value| == 1 {
        assert reply.value.value[0] in reply.value.value;
      }
    case Select(k) =>
      if p.view.ResultsList? && k < |p.view.meals| {
        assert p.view.meals[k] in p.lastResults;
      }
    case _ =>
  }

  lemma {:induction false} RunKeepsConsistent(p: Page, events: seq<Event>)
    requires Consistent(p)
    ensures Consistent(Run(p, events))
    decreases |events|
  {
    if |events| > 0 {
      StepKeepsConsistent(p, events[0]);
      RunKeepsConsistent(Step(p, events[0]), events[1..]);
    }
  }

  /** From the page as loaded, whatever the user does, the back button returns to the list last shown. */
  lemma ReachableIsConsistent(events: seq<Event>)
    ensures Consistent(Run(Initial, events))
    ensures var p := Run(Initial, events);
      p.view.Detail? && p.view.card.backButton ==>
        Step(p, Back).view == ResultsList(p.lastResults) && |p.lastResults| > 1
  {
    RunKeepsConsistent(Initial, events);
    var p := Run(Initial, events);
    if p.view.Detail? && p.view.card.backButton {
      BackShowsLastResults(p);
    }
  }
}
