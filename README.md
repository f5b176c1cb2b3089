# Smart Grocery List, modelled in Dafny

The Smart Grocery List is a small multi-page browser application. All of its logic lives
in one script, `script.js`. The script keeps two lists in module scope:

- `groceries`: items `{ name, expiry }`;
- `customRecipes`: recipes `{ name, items }`.

The pages act on these lists:

- the add-item form appends an item with a trimmed name;
- the "your items" page shows a case-insensitive, substring-filtered view of the list. It
  colours each row by how many days are left before expiry. Its delete buttons remove the
  row's item by its index in the full list. Its "clear expired" button drops every item
  whose expiry date has passed;
- the recipe page suggests the first recipe, built-in recipes before custom ones, whose
  every ingredient token occurs inside some owned item's lower-cased name;
- the custom-recipes page parses a comma-separated ingredient text into lower-case,
  trimmed, non-empty tokens. It lists the stored recipes, each with a delete button.

The project has six modules:

- `Text`: the JavaScript string primitives the script relies on. These are `trim` with the
  full ECMAScript white-space set, `toLowerCase` on ASCII letters, `includes`, one-character
  `split` and `join`. Each is characterised by lemmas: trim strips exactly the edge
  white space, and split inverts join.
- `Seqs`: `Array.prototype.filter` and `splice(start, 1)`, with JavaScript's normalisation
  of the start index.
- `Html`: `escapeHtml` and its inverse.
- `Groceries`: items, search with true indices, the three expiry bands and the
  clear-expired filter.
- `Recipes`: recipe matching, the suggestion markup, and ingredient parsing. The main
  parsing property is that parsing reads back what a recipe displays.
- `App`: the class `GroceryApp`. It holds the two lists as fields, and each page handler is
  a method that updates them in place. Every handler keeps the invariant that what is
  stored is something the forms could have produced.

The number of days left before an expiry date depends on the clock. It is a parameter
`daysLeft: string -> DayCount` throughout. A `DayCount` is either a whole number of days or
NaN. JavaScript produces NaN when `new Date` cannot read the expiry text. Every comparison
with NaN is false, so such an item is shown in the normal band, yet "clear expired" removes it.

## Model

| member | source | states |
|---|---|---|
| Text.Trim | script.js:66 | `trim`; Text.TrimStrips and Text.TrimCharacterized state that it removes exactly the white space at both ends, and nothing else |
| Text.TrimStartSpec | script.js:66 | the leading white space that trim drops is a run of white-space characters, it is all of that run, and what remains is a suffix of the input |
| Text.TrimEndSpec | script.js:66 | the trailing white space that trim drops is a run of white-space characters, it is all of that run, and what remains is a prefix of the input |
| Text.TrimStrips | script.js:66 | the result of trim is a contiguous slice of the input with only white space before and after it and no white space at either of its ends |
| Text.StripsUnique | script.js:66 | only one string can be cut from a given input in that way, so the stripping property defines trim completely |
| Text.TrimCharacterized | script.js:66 | any slice bordered by white space only, with no white space at its own ends, is the result of trim |
| Text.TrimIdempotent | script.js:160-161 | trimming an already trimmed value changes nothing |
| Text.TrimPadded | script.js:163 | white space added around a string that has no edge white space is exactly what trim removes |
| Text.TrimEmptyIff | script.js:68 | trim yields the empty string if and only if the input is all white space, so such a name is rejected |
| Text.ToLower | script.js:81 | lower-casing keeps the length, leaves no upper-case ASCII letter, and keeps white space and commas where they were |
| Text.ToLowerOfLower | script.js:163 | lower-casing text that has no upper-case letter changes nothing |
| Text.Contains | script.js:84 | `includes`: the term occurs at some position of the string. Text.ContainsEmpty, Text.ContainsSelf and Groceries.SearchMembers state what it decides |
| Text.ContainsEmpty | script.js:84 | every name includes the empty term |
| Text.ContainsSelf | script.js:130 | every string includes itself |
| Text.Join | script.js:131 | `join` starts with the first part, and its length is the parts' total length plus one separator between each pair of neighbours. Text.SplitJoin shows that splitting recovers the parts |
| Text.JoinAllChars | script.js:131 | joining introduces no character that is in neither the parts nor the separator |
| Text.Split | script.js:163 | splitting on a character yields at least one piece, no piece contains the separator, and joining the pieces with the separator rebuilds the input |
| Text.SplitNoSep | script.js:163 | text without the separator splits into itself alone |
| Text.SplitAfterPiece | script.js:163 | a separator-free piece followed by the separator splits off as the first piece |
| Text.SplitJoin | script.js:163 | split inverts join for pieces that do not contain the separator |
| Seqs.Filter | script.js:84 | filtering never lengthens a list and keeps only elements that pass the test |
| Seqs.FilterMember | script.js:109 | an element is in the filtered list if and only if it was in the list and passes the test |
| Seqs.FilterConcat | script.js:109 | filtering works piecewise over concatenation, so relative order is kept |
| Seqs.FilterAll | script.js:84 | nothing is dropped when every element passes |
| Seqs.FilterIdempotent | script.js:109 | filtering twice by the same test is filtering once |
| Seqs.FilterPartition | script.js:108-110 | what a filter keeps and what its complement keeps add up to the input, as multisets and in length |
| Seqs.FilterIncreasing | script.js:83-84 | a filter keeps elements in their original order |
| Seqs.RemoveAt | script.js:95 | `splice(idx, 1)` removes one element exactly when the list is not empty and the index is before its end, leaves the list unchanged otherwise, and never adds an element |
| Seqs.RemoveAtFromEnd | script.js:151 | a negative index counts back from the end, and one before the start of the list removes the first element |
| Seqs.RemoveAtInRange | script.js:95 | splicing one element at an in-range index removes exactly that element: the list shrinks by one, both sides keep their order, and reinserting the element restores the list |
| Html.EscapeChar | script.js:59 | the five special characters become references starting with `&`, and every other character is kept as it is |
| Html.Escape | script.js:59 | escaping never shortens its input, the output contains none of `< > " '`, and text without special characters is unchanged |
| Html.UnescapeChar | script.js:59 | decoding an escaped character followed by any text gives the character back, followed by the decoding of that text |
| Html.EscapeRoundTrip | script.js:59 | escaping loses nothing: decoding the output gives back the input |
| Groceries.Tag | script.js:83 | each item is paired with its index in the full list; Groceries.SearchMembers and Groceries.DeleteSearchHit use these indices |
| Groceries.SearchTerm | script.js:81 | the search box text, trimmed and lower-cased; Groceries.SearchBlank covers white-space-only text |
| Groceries.Search | script.js:81-84 | the rows the list page shows; Groceries.SearchMembers, Groceries.SearchOrdered and Groceries.SearchBlank state which rows appear and in what order |
| Groceries.SearchMembers | script.js:81-84 | a row is shown if and only if it carries a true index into the list and the item at that index, and that item's lower-cased name includes the trimmed, lower-cased term |
| Groceries.SearchOrdered | script.js:83-84 | the rows appear in list order: their indices strictly increase |
| Groceries.SearchBlank | script.js:81-84 | an empty or all-white-space search shows every item, each at its own index |
| Groceries.SearchAfterAppend | script.js:69 | after an item is added, the unfiltered view shows one more row, at the end, with the new item's index |
| Groceries.DeleteSearchHit | script.js:83-95 | the delete button of a row in a filtered view removes exactly the item that row shows from the full list |
| Groceries.Classify | script.js:86-88 | a day count is in the expired band if and only if it is a negative number, in the soon band if and only if it is a number from 0 to 3, and in the normal band if and only if it is over 3 or NaN |
| Groceries.ClassifyMonotone | script.js:88 | more days left never gives a more urgent band, and different bands have different class names |
| Groceries.Unexpired | script.js:109 | the items clear-expired keeps; Groceries.UnexpiredMembers, Groceries.RemovedCount and Groceries.UnexpiredIdempotent state what it keeps and what it counts |
| Groceries.UnexpiredMembers | script.js:109 | an item is kept by clear-expired if and only if it was in the list and its day count is a number that is not negative |
| Groceries.UnexpiredConcat | script.js:109 | clear-expired works piecewise over the list, so the kept items keep their order |
| Groceries.RemovedCount | script.js:108-110 | the reported count, the old length minus the new length, is the number of expired items, and the kept and removed items together are the old list |
| Groceries.UnexpiredIdempotent | script.js:109 | clearing twice with the same day counts removes nothing more |
| Groceries.UnexpiredNoneExpired | script.js:88-109 | after clearing, no remaining item falls in the expired band, and none has a NaN day count |
| Groceries.ClearScenario | script.js:107-110 | an item due tomorrow is kept and one two days past is removed, and one removal is reported |
| Groceries.UnreadableDateCleared | script.js:86-110 | an item whose expiry is not a readable date is shown in the normal band, yet clear-expired removes it and counts it as expired |
| Recipes.BuiltIns | script.js:119-126 | the six built-in recipes with their ingredient tokens, in priority order; Recipes.FrenchToastScenario uses the first |
| Recipes.AllRecipes | script.js:127 | built-in recipes first, then the custom ones; Recipes.AppendKeepsSuggestion shows a built-in match is never displaced |
| Recipes.OwnedNames | script.js:118 | the lower-cased names of the owned items, in list order |
| Recipes.Satisfied | script.js:130 | an ingredient is satisfied when some owned name includes it |
| Recipes.Matches | script.js:130 | a recipe matches when every one of its ingredients is satisfied; Recipes.MatchesMonotone and Recipes.EmptyRecipeSuggested state its behaviour |
| Recipes.IngredientsMarkup | script.js:131 | each ingredient escaped and the results joined by `", "`; Recipes.CustomIngredientsEscaped shows it holds none of `< > " '` |
| Recipes.Render | script.js:131 | the suggestion markup: the escaped name in `strong`, then the escaped ingredient line |
| Recipes.Suggestion | script.js:127-135 | what the suggestion box shows; Recipes.SuggestionIsFirstMatch and Recipes.NoMatchIff state when it is a recipe and when the fixed message |
| Recipes.FirstMatch | script.js:127-134 | the chosen recipe matches, every recipe before it fails, and there is no choice if and only if no recipe matches |
| Recipes.SuggestionIsFirstMatch | script.js:129-133 | the first matching recipe is the one rendered |
| Recipes.NoMatchIff | script.js:128 | the fixed message is shown if and only if no recipe matches |
| Recipes.MatchesMonotone | script.js:130 | owning more items never makes a matching recipe stop matching |
| Recipes.AppendKeepsSuggestion | script.js:127-134 | appending recipes never changes a suggestion that is already found, so built-in recipes take precedence over custom ones |
| Recipes.EmptyRecipeSuggested | script.js:130 | a recipe without ingredients matches any list, so it is shown unless an earlier recipe matches |
| Recipes.FrenchToastScenario | script.js:118-134 | owning egg and bread suggests French Toast, whatever the custom recipes are |
| Recipes.ParseIngredients | script.js:163 | every ingredient parsed from the text is non-empty, trimmed, lower-case and free of commas; Recipes.ParseJoin shows parsing reads back a displayed ingredient line |
| Recipes.TrimmedPiece | script.js:163 | a trimmed, lower-case, comma-free piece that is not empty is a valid token |
| Recipes.LowerPieces | script.js:163 | the pieces of lower-case text are lower-case |
| Recipes.PiecesKeepChars | script.js:163 | every character of a split piece comes from the split text |
| Recipes.JoinCommaSpace | script.js:131 | tokens joined by `", "` are the same text as the space-padded tokens joined by `","` |
| Recipes.TrimAllPadded | script.js:163 | trimming each space-padded token gives the tokens back |
| Recipes.ParseEmpty | script.js:163 | empty text has no ingredients |
| Recipes.ParseJoin | script.js:163 | parsing reads back the ingredient line a recipe displays: valid tokens joined by `", "` parse to the same tokens, in the same order |
| Recipes.ParseVia | script.js:163 | when the lower-cased text is a comma join of comma-free pieces, the ingredients are those pieces trimmed, with the empty ones dropped |
| Recipes.ParseRicePeas | script.js:160-163 | the ingredient text ` Rice , Peas ,` gives the ingredients `rice` and `peas` |
| Recipes.ParseLoneComma | script.js:161-163 | the text `,` passes the emptiness check but yields no ingredient, so a recipe with no ingredients is stored |
| Recipes.CustomIngredientsAsWritten | script.js:148 | the custom-recipe ingredient line as written: the tokens joined by `", "` without escaping |
| Recipes.IngredientMarkupInjected | script.js:148 | as written, a markup tag typed as an ingredient is accepted by the form and reaches the custom-recipe list unescaped |
| Recipes.CustomIngredientsEscaped | script.js:148 | with each token escaped, the custom-recipe ingredient line contains none of `< > " '` |
| App.GroceryApp.constructor | script.js:7-8 | the state starts with the two lists as loaded, and it is well formed when every loaded item and recipe is one the forms could have produced |
| App.GroceryApp.AddItem | script.js:66-69 | an item is added if and only if the trimmed name and the expiry are both non-empty. It is appended with the trimmed name, nothing else changes, and the stored data stays well formed |
| App.GroceryApp.DeleteItem | script.js:95 | the grocery list becomes the list with `splice(idx, 1)` applied, the recipes are unchanged, and the stored data stays well formed |
| App.GroceryApp.RemoveExpired | script.js:107-110 | the list keeps exactly the items whose day count is a non-negative number, in order. The returned count is the number of removed items, NaN ones included, and the stored data stays well formed |
| App.GroceryApp.AddRecipe | script.js:160-164 | a recipe is added if and only if the trimmed name and the trimmed ingredient text are both non-empty. It is appended with the trimmed name and the parsed tokens, and the stored data stays well formed |
| App.GroceryApp.DeleteRecipe | script.js:151 | the recipe list becomes the list with `splice(idx, 1)` applied, the groceries are unchanged, and the stored data stays well formed |
| App.GroceryApp.StoredItemFound | script.js:66-84 | in well-formed state, searching for a stored item's own name shows that item's row with its index |
| App.GroceryApp.StoredRecipeReparses | script.js:148-163 | in well-formed state, a stored custom recipe's ingredient line, as listed, parses back to its ingredients |
| App.GroceryApp.SuggestRecipe | script.js:115-135 | the loop over built-in then custom recipes returns the markup of the first recipe whose every ingredient some owned name includes, or the fixed message when none does |

## Left out

- Page rendering is not modelled: the DOM, `innerHTML` assignment, alerts, `form.reset`, re-rendering after each change, and the page-name dispatch. The markup strings of the suggestion box and of the custom-recipe ingredient line are modelled. The grocery rows are represented by their band and their search membership.
- Dark mode, the hamburger menu and the active-link highlighting are presentation only and are not modelled.
- Storage is not modelled: loading from `localStorage`, `save()`, and the `storage` event that reloads the lists. The constructor takes the loaded lists as parameters. The code calls `JSON.parse` with no `try`/`catch`, so malformed stored data would stop the script; the model does not represent that failure.
- The `daysLeft` computation (script.js:54-58) reads the clock and parses dates. It is the parameter `daysLeft: string -> DayCount`, whose values are whole numbers or NaN.
- Text.ToLower: maps ASCII letters only. `toLowerCase` also maps the other Unicode letters, and the model leaves that out.
- Strings are sequences of Unicode scalar values rather than UTF-16 code units.
- A missing search box gives the empty term (script.js:81). The model covers that case through Groceries.SearchBlank with empty input.
- Groceries.Search: the term is recomputed on every input event, and the model shows a single evaluation.

## Findings

| source | as written | input that shows it | evidently intended | confidence | as-written member | corrected member |
|---|---|---|---|---|---|---|
| script.js:148 | the custom-recipe list inserts `r.items.join(', ')` into `innerHTML` without escaping, although the name on the same line and the ingredients in the suggestion box (script.js:131) are escaped | ingredient text `<img src=x onerror=alert(1)>` is stored as one token and reaches the page as a live tag | escape each token, as script.js:131 does | high, not executed | Recipes.IngredientMarkupInjected | Recipes.CustomIngredientsEscaped |
