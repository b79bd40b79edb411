# Recipe pages: a Dafny model

This project models the data handling behind the recipe finder's two script pages.

- **Favourites page** (`JS/favourites.js`):
  - the two adapters that turn a TheMealDB meal or a Spoonacular recipe into one normalized record;
  - `parseInstructions`, which splits raw instruction text into steps. It tries four layouts in order: markup list items, digit-dot numbered lines, plain lines, and prose sentences;
  - loading the stored favourite ids;
  - the favourite button of the recipe modal.
- **Recipes page** (`JS/recipes.js`):
  - `displayRecipe`: its ingredient loop, its line-break rewriting of the instructions, and its YouTube and back buttons;
  - the page state machine. It keeps `lastResults` and the current view, and changes them on a name search, a random recipe, a browse by letter, a browse by category, a click on a list entry, and a click on the back button.

The modules:

| module | contents |
|---|---|
| `Wrappers` | `Option` |
| `JsText` | JavaScript string behaviour: truthiness, template interpolation (`undefined`/`null` become text), the `trim` whitespace set, `split(/\r?\n/)`, `join`, `filter` |
| `Markup` | a scanner for the text of `li` elements; it stands in for the browser's `innerHTML` plus `querySelectorAll('li')` |
| `Payloads` | the raw TheMealDB and Spoonacular records, and the shared ingredient line `<li><strong>${measure}</strong> ${ingredient}</li>` |
| `Adapters` | the two adapters and their round trips through the `li` scanner |
| `Instructions` | the `parseInstructions` cascade |
| `Favourites` | loading the stored ids; the favourite button as written and as intended |
| `RecipeDisplay` | what `displayRecipe` renders |
| `RecipesPage` | the recipes page as a state machine over user events |

How the JavaScript values are represented:

- A payload field is a `JsStr`: `Undefined`, `Null` or `Str(s)`. Interpolating `undefined` prints a different text from interpolating `null`, so the two are kept apart.
- TheMealDB's numbered fields `strIngredient1..20` and `strMeasure1..20` are two sequences. Slot `i` is element `i-1`; a slot past the end is `undefined`.
- Network replies are event parameters, not requests. The `Fetch` type is a rejected request or the decoded JSON.

## Model

| member | source | states |
|---|---|---|
| Favourites.Load | JS/favourites.js:6 | The starting favourites are the stored list when there is one and the empty list otherwise. |
| Favourites.ClickAsWritten | JS/favourites.js:139-150 | Every click flips the button. Clicking a recipe that is already a favourite throws: the list is unchanged and nothing is saved. Clicking a recipe that is not a favourite appends its id and saves the new list. |
| Favourites.ClickTwiceKeepsFavourite | JS/favourites.js:143-150 | Take a recipe that is not a favourite and click its button twice. It stays a favourite, in memory and in storage, while the button shows it as not favourited. |
| Favourites.Without | JS/favourites.js:146 | Filtering out an id removes every copy of it, keeps every other id, and never makes the list longer. |
| Favourites.Toggle | JS/favourites.js:143-149 | The intended toggle: afterwards the id is a favourite exactly when it was not one before. No other id changes membership. |
| Favourites.ClickIntended | JS/favourites.js:139-150 | The corrected handler never throws, flips the button, and saves the toggled list in both branches. |
| Favourites.ToggleAdds | JS/favourites.js:148 | Adding a new id appends it at the end and leaves the earlier ids as they were. |
| Favourites.ToggleTwiceRestores | JS/favourites.js:143-149 | Add a new id and then toggle it again: the list is exactly the original. |
| Favourites.ToggleTwiceSameMembers | JS/favourites.js:143-149 | Two toggles of the same id keep the same favourites, whatever the starting state. |
| Favourites.ClickKeepsButtonInSync | JS/favourites.js:101-105 | With the corrected handler, a button that matched the stored list before a click still matches after it. |
| Favourites.ToggleKeepsDistinct | JS/favourites.js:143-149 | A list with no repeated ids still has none after a toggle. |
| Favourites.FilterKeepsDistinct | JS/favourites.js:146 | Filtering a list with no repeated ids gives a list with no repeated ids. |
| Adapters.FilledSlotsFrom | JS/favourites.js:13-14 | The probed slots lie in `i..20` and hold a truthy ingredient. |
| Adapters.FilledSlotsAscending | JS/favourites.js:13 | The slots are taken in strictly ascending order. |
| Adapters.FilledSlotsComplete | JS/favourites.js:13-14 | A slot is taken exactly when it is in range and its ingredient is truthy. Blank slots are skipped, and the loop does not stop at the first one. |
| Adapters.MealDbLinesFrom | JS/favourites.js:13-17 | One line per filled slot from `i` on, in slot order. Each line pairs that slot's measure with its ingredient. |
| Adapters.MealDbIngredientLines | JS/favourites.js:12-17 | There are at most twenty ingredient lines, one for each filled slot, in slot order. |
| Adapters.AdaptTheMealDB | JS/favourites.js:11-29 | Id, title, image, category, instructions and video link are copied. The area falls back to `International` when it is falsy, so it is never empty. The ingredient list is the lines inside `<ul>`. The record is tagged `TheMealDB`. |
| Adapters.TagsOr | JS/favourites.js:37-38 | The result is the joined tags. It is the fallback when the tags are absent or join to the empty string, so it is never empty. |
| Adapters.SpoonacularLines | JS/favourites.js:32 | One `li` per extended ingredient, in order, holding its `original` text. An absent list gives none. |
| Adapters.AdaptSpoonacular | JS/favourites.js:31-44 | Id, title, image and instructions are copied. The area falls back to `Various` and the category to `General`. The video link is `null`. An absent ingredient list renders as an empty `<ul>`. The record is tagged `Spoonacular`. |
| Adapters.ItemsOfHtmlList | JS/favourites.js:26 | Read back as `li` items, a `<ul>` of lines gives exactly the lines' own item texts, in order. |
| Adapters.MealDbIngredientsRoundTrip | JS/favourites.js:13-17 | The `li` items of a TheMealDB record's list are `measure ingredient`, one per filled slot, in slot order. This assumes the fields hold no `<`. |
| Adapters.SpoonacularIngredientsRoundTrip | JS/favourites.js:32 | The `li` items of a Spoonacular record's list are the `original` texts, one per entry, in order. An absent list gives no items. This assumes the texts hold no `<`. |
| Markup.LiOpenEnd | JS/favourites.js:50 | An `li` start tag is recognised exactly when the text opens with `<li`, the tag name ends there, and a `>` closes the tag later. The tag then runs from `<` to the first such `>`. |
| Markup.TextContent | JS/favourites.js:51 | The `textContent` of a fragment: the fragment with its tags removed. `Markup.TextContentPlain` shows that text without `<` is kept as it is. |
| Markup.ListItems | JS/favourites.js:48-51 | The text of every `li` element, in document order. `Markup.ListItemsNonEmptyIff` says when there is one. `Adapters.ItemsOfHtmlList` and the two ingredient round trips read the adapters' lists back through it. |
| Markup.ItemEndIsFirstBoundary | JS/favourites.js:50-51 | An item's text ends at the first point where it closes or a new item opens. |
| Markup.ListItemsNonEmptyIff | JS/favourites.js:50 | The text has some `li` item exactly when some position starts a complete `li` start tag. |
| Markup.ItemsSkipPlain | JS/favourites.js:50-51 | Text without `<` holds no item and does not change the items that follow it. |
| Markup.TextContentPlain | JS/favourites.js:51 | The text content of a stretch without `<` is that stretch itself. |
| JsText.IndexOf | JS/favourites.js:53 | The result is the first position that holds the character, or none when the character is absent. |
| JsText.TrimStart | JS/favourites.js:51 | The result is a suffix of the input. Only whitespace was removed, and the result does not start with whitespace. |
| JsText.TrimEnd | JS/favourites.js:51 | The result is a prefix of the input. Only whitespace was removed, and the result does not end with whitespace. |
| JsText.Trim | JS/favourites.js:51 | The result has no whitespace at either end. It is what remains after whitespace is removed from both ends. |
| JsText.TrimEmptyIff | JS/recipes.js:296 | A string trims to empty exactly when every character is whitespace. |
| JsText.TrimIdempotent | JS/favourites.js:55 | Trimming twice gives the same as trimming once. |
| JsText.TrimKeepsLast | JS/favourites.js:61 | If the last character is not whitespace, the trimmed string ends with that same character. |
| JsText.TrimKeepsAbsent | JS/favourites.js:55 | Trimming never introduces a character. |
| JsText.SplitLines | JS/favourites.js:53 | Splitting always gives at least one piece. |
| JsText.SplitSingle | JS/favourites.js:53 | Text with no line feed splits into itself alone. |
| JsText.SplitPiecesLackNewline | JS/favourites.js:53 | No piece of the split holds a line feed. |
| JsText.SplitJoinRoundTrip | JS/favourites.js:53 | For text without carriage returns, joining the pieces with line feeds gives the text back. |
| JsText.Filter | JS/favourites.js:53 | The kept elements are exactly the elements that pass the test, and there are no more of them than before. |
| JsText.FilterNoneKept | JS/favourites.js:53 | When nothing passes, the filter gives the empty list. |
| JsText.FilterKeepsAll | JS/favourites.js:146 | When everything passes, the filter gives the list unchanged. |
| JsText.FilterAppend | JS/favourites.js:146 | Filtering a concatenation is the concatenation of the two filtered parts. |
| JsText.KeptFrom | JS/favourites.js:51 | The positions a filter keeps lie in range. |
| JsText.FilterPicksKept | JS/favourites.js:51 | Element `k` of a filter's result is the element at the `k`-th kept position, so the filter keeps order and multiplicity. |
| JsText.KeptAscending | JS/favourites.js:51 | The kept positions are strictly ascending. |
| JsText.KeptComplete | JS/favourites.js:51 | A position is kept exactly when its element passes the test. |
| JsText.TrimAll | JS/favourites.js:51 | Each element is mapped to its trimmed self, and the length is kept. |
| Instructions.NonTermEnd | JS/favourites.js:60 | The non-terminator run starting here ends at the first `.`, `!` or `?`, or at the end of the text. |
| Instructions.TermEnd | JS/favourites.js:60 | The terminator run starting here ends at the first character that is not a terminator. |
| Instructions.SentencesFrom | JS/favourites.js:60 | The successive matches of `[^.!?]+[.!?]+` from a position on. `Instructions.SentencesAreSentences` gives their shape and `Instructions.SentencesCover` shows they account for the text. |
| Instructions.Sentences | JS/favourites.js:60 | `text.match(/[^.!?]+[.!?]+/g)`: the matches from the start of the text, with the same two partner lemmas. |
| Instructions.SentencesAreSentences | JS/favourites.js:60 | Each match of `[^.!?]+[.!?]+` starts with a non-terminator and ends with a terminator. Once a terminator appears, every later character is one. |
| Instructions.SentencesCover | JS/favourites.js:60 | After the leading terminators, the matches follow one another with no gap. What is left after them has no terminator. |
| Instructions.DigitRun | JS/favourites.js:54 | The leading run of digits is maximal. |
| Instructions.SpaceRun | JS/favourites.js:55 | The leading run of whitespace is maximal. |
| Instructions.MarkerLength | JS/favourites.js:54-55 | There is a match of `^\d+\.\s*` exactly when the line starts with digits and a full stop. The match covers the digits, the stop and all whitespace that follows. |
| Instructions.StripNumber | JS/favourites.js:55 | A line with a marker loses exactly the marker, so it gets shorter. A line without one is unchanged. |
| Instructions.StripNumberRemovesMarker | JS/favourites.js:55 | Take digits, a full stop, whitespace, then a rest that does not start with whitespace. Stripping gives exactly that rest. |
| Instructions.NonBlankLines | JS/favourites.js:53 | The kept lines are exactly the split pieces that are not blank, and there are no more of them than pieces. |
| Instructions.NonBlankLinesShape | JS/favourites.js:53 | Every line kept is non-blank and holds no line feed. |
| Instructions.Steps | JS/favourites.js:50-61 | The cascade given the item texts and the non-blank lines: list items, then numbered lines, then more than one plain line, then prose. What each branch yields is stated by `Instructions.ParseMarkupList`, `Instructions.ParseNumberedLines`, `Instructions.ParsePlainLines` and `Instructions.ParseProse`. |
| Instructions.ParseInstructions | JS/favourites.js:46-62 | Falsy text has no steps. With list items there are at most as many steps as items. The per-branch lemmas below state each layout's steps. |
| Instructions.ParseNoText | JS/favourites.js:47 | Absent, null or empty text has no steps. |
| Instructions.ParseMarkupList | JS/favourites.js:50-52 | With list items present, the steps are the items' trimmed texts with empty ones dropped, in document order. Step `k` is the trimmed text of item `idx[k]`, where `idx` is strictly ascending and holds exactly the items whose trimmed text is not empty. No step is empty or untrimmed. |
| Instructions.ListStepsInOrder | JS/favourites.js:51 | `map(trim).filter(...)` keeps the non-empty trimmed items once each and in their order. |
| Instructions.ParseNumberedLines | JS/favourites.js:53-56 | With more than one non-blank line and a numbered first line, there is one step per line, in order. Each step has its marker removed and is trimmed. |
| Instructions.ParsePlainLines | JS/favourites.js:53-59 | With more than one non-blank line and an unnumbered first line, the steps are the non-blank lines themselves, untrimmed and in order. |
| Instructions.ParseProse | JS/favourites.js:53-61 | With no items and at most one non-blank line, the text is read as prose. |
| Instructions.TrimmedSentence | JS/favourites.js:61 | A trimmed match is still non-empty and still ends in a terminator. |
| Instructions.ProseStepsShape | JS/favourites.js:60-61 | Each prose step is a trimmed match ending in `.`, `!` or `?`, one per match. With no match, the single step is the whole text trimmed. |
| Instructions.ParseAtLeastOneStep | JS/favourites.js:53-61 | Non-empty text without list items never gives an empty step list. |
| Instructions.SingleLineIsProse | JS/favourites.js:53-61 | Text with no line feed is read as prose. |
| Instructions.ParseWhitespaceOnly | JS/favourites.js:47-61 | Non-empty text made only of whitespace gives one empty step. |
| Instructions.NoBlankLinesInSpace | JS/favourites.js:53 | Whitespace-only text has no non-blank line. |
| Instructions.SplitPiecesAreSlices | JS/favourites.js:53 | Every character of a split piece occurs in the text. |
| Instructions.NoSentencesInSpace | JS/favourites.js:60 | Whitespace-only text has no sentence match. |
| RecipeDisplay.PassesNotBlankIsShown | JS/recipes.js:116 | The abstract non-blank test is exactly the loop's condition: truthy, and not blank after trimming. |
| RecipeDisplay.SlotsWhile | JS/recipes.js:113-121 | The loop reads at most the slots from `i` to 20. |
| RecipeDisplay.ShownSlots | JS/recipes.js:113-121 | The slots the card's loop reads before its `break`. `RecipeDisplay.ShownSlotsNumbered`, `RecipeDisplay.ShownSlotsAreShown` and `RecipeDisplay.ShownSlotsStopAtGap` pin them down. |
| RecipeDisplay.DisplayLines | JS/recipes.js:113-121 | The card's ingredient lines. `RecipeDisplay.DisplayLinesAreSlotLines` gives each line and `RecipeDisplay.DisplayLinesPrefix` compares them with the adapter's lines. |
| RecipeDisplay.SlotsWhileAreLeading | JS/recipes.js:113-121 | The slots taken are consecutive from `i`, and each one passes the test. |
| RecipeDisplay.SlotsWhileStop | JS/recipes.js:118-119 | Before slot 20, the loop stops only at a slot that fails the test. |
| RecipeDisplay.ShownSlotsNumbered | JS/recipes.js:113 | The card's slots are `1, 2, …, n` with `n` at most 20. |
| RecipeDisplay.ShownSlotsAreShown | JS/recipes.js:116 | Every slot on the card holds a truthy, non-blank ingredient. |
| RecipeDisplay.ShownSlotsStopAtGap | JS/recipes.js:116-119 | Unless all twenty slots are used, the slot after the last one shown is empty or blank. |
| RecipeDisplay.LinesOf | JS/recipes.js:117 | One line per slot, built from that slot's measure and ingredient. |
| RecipeDisplay.DisplayLinesAreSlotLines | JS/recipes.js:113-121 | Line `k` of the card is the line for slot `k+1`, and there is one line per shown slot. |
| RecipeDisplay.BlankSlotEndsCard | JS/recipes.js:116-119 | An ingredient that is truthy but whitespace-only is listed by the favourites adapter. The card stops before it. |
| RecipeDisplay.SlotsWhilePrefixOfFilled | JS/recipes.js:113-121 | The slots the card reads form a leading part of the slots the adapter reads. |
| RecipeDisplay.DisplayLinesPrefix | JS/recipes.js:113-121 | The card's lines are a leading part of the favourites adapter's lines for the same meal. |
| RecipeDisplay.ReplaceNewlines | JS/recipes.js:123 | `replace(/\r?\n/g, '<br><br>')` scanned left to right. `RecipeDisplay.ReplaceIsSplitJoin` shows it equals splitting on `\r?\n` and joining with `<br><br>`. |
| RecipeDisplay.ReplaceLeavesNoNewline | JS/recipes.js:123 | No line feed survives the rewriting. |
| RecipeDisplay.ReplaceWithoutNewline | JS/recipes.js:123 | Text without line feeds is unchanged. This includes text with lone carriage returns. |
| RecipeDisplay.ReplaceBeforeLF | JS/recipes.js:123 | A lone line feed becomes one `<br><br>`. |
| RecipeDisplay.ReplaceBeforeCRLF | JS/recipes.js:123 | A carriage return followed by a line feed becomes one `<br><br>`, not two. |
| RecipeDisplay.ReplaceAtFirstNewline | JS/recipes.js:123 | Up to the first line feed, the result is that line without a closing carriage return, then a break, then the rest rewritten. |
| RecipeDisplay.ReplaceIsSplitJoin | JS/recipes.js:123 | Rewriting line breaks is the same as splitting on `\r?\n` and joining with `<br><br>`. |
| RecipeDisplay.RenderRecipe | JS/recipes.js:109-145 | The card is rendered exactly when the instructions are a string, since `replace` throws otherwise. It shows the loop's ingredient lines and the rewritten instructions. It has a video button exactly when the link is truthy, and a back button exactly when there is more than one last result. |
| RecipesPage.ShowRecipe | JS/recipes.js:311 | Showing a recipe inside a `try` keeps the results. It gives the card exactly when the instructions are a string, and the handler's error message otherwise. |
| RecipesPage.FetchDetails | JS/recipes.js:256-262 | A successful `Promise.all` gives one meal per id. |
| RecipesPage.CategoryKeepsOrder | JS/recipes.js:256-262 | The lookups succeed exactly when every id yields at least one meal. Meal `k` is then the first meal of lookup `k`. |
| RecipesPage.SearchReply | JS/recipes.js:304-321 | A failed request keeps the results and shows the search error. A reply makes its meals the results, or clears them when `meals` is missing. `RecipesPage.SearchOutcome` states the view. |
| RecipesPage.Step | JS/recipes.js:284-287 | A list click or a back click never changes the last results. |
| RecipesPage.BlankSearchKeepsResults | JS/recipes.js:296-298 | A whitespace-only query keeps the results and shows a notice. With no truthy translation, the notice is the default prompt. |
| RecipesPage.SearchOutcome | JS/recipes.js:304-321 | A failed request keeps the results and shows the search error. A reply replaces the results with its meals, or with none. None found gives the notice quoting the query. One gives its card or the error. Several give the list. |
| RecipesPage.SingleMatchHasNoBack | JS/recipes.js:309-311 | A search with exactly one match shows that meal's card without a back button. |
| RecipesPage.RandomClearsResults | JS/recipes.js:333-341 | A random recipe that reaches the server clears the results, so its card has no back button and shows the first meal of the reply. Anything else shows the random-recipe error. |
| RecipesPage.LetterListsEveryReply | JS/recipes.js:202-215 | A letter browse lists any `meals` array as the new results, even an empty one. A missing array clears the results and gives the notice. A failed request keeps the results and gives the error. |
| RecipesPage.CategoryListsInOrder | JS/recipes.js:252-265 | A successful category browse lists one meal per summary, in the summaries' order, and makes them the results. |
| RecipesPage.CategoryFailsOnAnyLookup | JS/recipes.js:256-269 | One failed lookup fails the whole browse. The results are kept and the category error is shown. |
| RecipesPage.BackShowsLastResults | JS/recipes.js:284-287 | The back button lists the last results again. |
| RecipesPage.SelectThenBack | JS/recipes.js:158-161 | Opening an entry of a list of several meals shows its card. Going back returns to exactly the same page. |
| RecipesPage.Consistent | JS/recipes.js:127 | The page invariant: a list on screen is the last results, and a card's back button is there exactly when there is more than one last result. `RecipesPage.StepKeepsConsistent` keeps it. |
| RecipesPage.Run | JS/recipes.js:279-345 | The page after a sequence of actions. `RecipesPage.RunKeepsConsistent` keeps the invariant over it. |
| RecipesPage.StepKeepsConsistent | JS/recipes.js:127 | Every action keeps two things true. The list on screen is the last results. A card's back button is there exactly when there is more than one last result, and the card shows one of them or there are none. |
| RecipesPage.RunKeepsConsistent | JS/recipes.js:127 | Any sequence of actions keeps the page consistent. |
| RecipesPage.ReachableIsConsistent | JS/recipes.js:284-287 | From the page as loaded, whatever the user does, a back button leads to a list of more than one meal, namely the last results. |

## Left out

- Network requests, `response.json()`, the loading indicator and `console.error` are left out. Each request's outcome is an event parameter instead: a rejection, or the decoded `meals` member.
- The page markup is left out: the modal, the card's HTML, images, the alphabet and category buttons, and the stylesheet. A card is the record of what it is rendered from.
- `Markup.ListItems` is a simplified `li` scanner and does not model the browser's HTML parser. It reads an item's text up to the next `</li`, `</ul`, `</ol` or `<li`, and drops tags in between. Malformed markup, entities and nested lists are not modelled.
- `Adapters.MealDbIngredientsRoundTrip` and `Adapters.SpoonacularIngredientsRoundTrip` only hold for fields without `<`. A field with markup would be parsed as markup.
- The favourites page's `fetchRecipeDetails` and `displayFavourites` are left out: they are network and DOM code. The adapters and the favourite toggle they feed into are modelled.
- `setTimeout(displayFavourites, 300)` is left out. `localStorage` is a value: what is read on load, and what a click writes (`Click.persisted`).
- `recipe.id.toString()` and `data-recipe-id` are left out. Favourite ids are strings, and `Adapters.RecipeId` keeps the type of the payload's id.
- RecipesPage.FetchDetails, RecipesPage.CategoryKeepsOrder, RecipesPage.CategoryFailsOnAnyLookup: a category lookup whose `meals` is an empty array is treated as a failed browse that keeps the old results. On the page, `detail.meals[0]` is then `undefined`, and `lastResults` is set to a list holding `undefined`. `displayResultsList` then throws reading `strMealThumb` of it, and the `catch` shows the category error. The screen is the same as in the model. Only `lastResults` differs, and it cannot be seen: no list or card is shown before the next search or browse overwrites it.
- Translations are an event parameter (`enterNameText`) and are not loaded from anywhere.
- Instructions.ParseInstructions recognises only `1.`-style numbering, not `1)`. It returns plain lines untrimmed, and its markup branch can return no steps at all.
- RecipesPage.Step: a `Select` only considers a click on a list that is on screen. `displayRecipe` is called with no `catch` there, so when rendering throws the page is left as it was.

## Findings

| source | as written | input that shows it | evidently intended | confidence | as-written member | corrected member |
|---|---|---|---|---|---|---|
| JS/favourites.js:146 | `favouriteRecipes` is declared `const` (line 6), so assigning the filtered list to it throws a TypeError. Nothing is removed or saved, while the button has already been flipped. | Open any card's modal on the favourites page and click the heart once. Every card there is a favourite, so the click takes the removal branch and throws at once. A recipe that is not yet a favourite, clicked twice, shows the same. | The second click removes the id and saves the list, so two clicks restore the original favourites. | not executed | Favourites.ClickTwiceKeepsFavourite | Favourites.ToggleTwiceRestores |
