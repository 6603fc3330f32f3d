# Recipe store

A model of the state logic of the Recipe Finder browser script (`script.js`).
The script keeps a list of recipes (id, name, ingredients, calories, favourite
flag) in a global array. It prepends new recipes, updates a recipe in place
when the form is in edit mode, toggles favourites, deletes by id, filters the
list by a search term and shows the calorie total of the favourites. Every
change is written to local storage. On start-up, if the stored list is missing
or empty, five sample recipes are loaded.

The model has five modules:

- `Wrappers` (`wrappers.dfy`) holds `Option`, which stands for `null` and for a `findIndex` of `-1`.
- `Text` (`text.dfy`) covers the string built-ins the script calls: `trim`, `toLowerCase`, `includes`, `split(',')` and `join(', ')`. Whitespace and case are ASCII only.
- `Seqs` (`seqs.dfy`) holds `Array.prototype.filter` and what it keeps: an order-preserving subsequence with exact multiplicities.
- `Recipes` (`recipes.dfy`) treats the collection as a value. It has the `Recipe` record and the ingredient parser. It also has one pure function per store operation (`UpdateById`, `ToggleById`, `Remove`, `Search`, `TotalFavoriteCalories`, `SeedDefaults`), with the lemmas about them.
- `Store` (`store.dfy`) holds the class `RecipeStore`. Its fields are the script's globals `recipes`, `isEditing` and `currentRecipeId`, plus `storage`, the local-storage slot. One method stands for each handler that changes state. Each method's `ensures` ties the new state to the functions in `Recipes`.

The model follows `script.js` in these details:

- An update for a missing id returns nothing. It is a silent no-op, but the collection is still saved and the form is still closed.
- `toggleFavorite` saves only when the id is present.
- Deleting returns nothing, and every record with that id is removed.
- The update branch runs on `isEditing && currentRecipeId`. In JavaScript an empty-string id is falsy, so with `currentRecipeId == ""` a submit adds a new record instead of updating. `SubmitUpdates` models exactly that. Generated ids are never empty, so this only matters for stored data.
- Calories are not checked to be non-negative.
- Start-up seeds the samples whenever the loaded list is empty. This includes a list that was saved empty after the user deleted every recipe.

## Model

| member | source | states |
|---|---|---|
| Text.Trim | script.js:165 | the result has no whitespace at either end; it is empty exactly when the input is all whitespace; an already trimmed string is returned unchanged |
| Text.TrimAfterLead | script.js:165 | trimming whitespace put in front of a trimmed, non-empty entry gives back the entry |
| Text.TrimIsMiddle | script.js:162-165 | the trimmed text is a contiguous middle slice of the input, and what is dropped before and after it is whitespace only |
| Text.ToLower | script.js:237 | same length; each character is lowered (ASCII letters only) |
| Text.Contains | script.js:245-247 | `includes` holds exactly when the needle occurs at some offset of the haystack |
| Text.Split | script.js:164 | `split` yields at least one piece, and no piece contains the separator |
| Text.Join | script.js:218 | `join` of the pieces with the separator; `JoinSplit` and `SplitJoin` make it the inverse of `split` |
| Text.JoinSplit | script.js:164 | joining the pieces of a split with the separator gives back the text |
| Text.SplitJoin | script.js:164 | splitting joined separator-free pieces gives back the pieces |
| Seqs.Filter | script.js:228 | `filter` keeps only elements satisfying the predicate and keeps every element of the input that satisfies it |
| Seqs.FilterExact | script.js:228 | the result of `filter` is an order-preserving subsequence holding each satisfying element exactly as often as the input does, and nothing else |
| Recipes.TrimAndDropBlanks | script.js:165-166 | after `map(trim)` and `filter(ing !== '')` every entry is non-empty, trimmed and (given comma-free pieces) comma-free |
| Recipes.Trims | script.js:165 | `map(trim)`: same length, each piece trimmed in place |
| Recipes.TrimAndDropBlanksIsFilter | script.js:165-166 | the parser stage equals `filter(ing !== '')` applied to `map(trim)` of the pieces |
| Recipes.ParseIngredients | script.js:163-166 | every parsed ingredient is non-empty, trimmed and comma-free |
| Recipes.ParseIngredientsExact | script.js:163-166 | the parsed list is the order-preserving subsequence of the trimmed comma-separated pieces holding every non-blank one as often as it occurs, and nothing else |
| Recipes.ParseSkipsEmptyPiece | script.js:163-166 | an empty piece between two commas is dropped and the pieces behind it are still parsed (`"a,,b"` gives `a`, `b`) |
| Recipes.IngredientsText | script.js:218 | the `', '`-joined text the edit form shows; `ParseRoundTrip` makes the parser its inverse |
| Recipes.ParseRoundTrip | script.js:163-166 | parsing the `', '`-joined text that `editRecipe` puts in the form (line 218) gives back the original list when its entries are trimmed, non-empty and comma-free |
| Recipes.ParseIdempotent | script.js:163-166 | re-parsing the edit-form text of a parsed list gives the same list |
| Recipes.FindIndex | script.js:171 | `findIndex` returns the first index holding the id, and returns none exactly when no record has it |
| Recipes.NewRecipe | script.js:182-188 | a record created by a submit in add mode is not a favourite |
| Recipes.AddKeepsUniqueIds | script.js:189 | prepending a record whose id is fresh keeps ids unique |
| Recipes.AddKeepsTotal | script.js:182-189 | adding a record leaves the favourite-calorie total unchanged |
| Recipes.UpdateById | script.js:171-179 | only the first record with the id changes: it keeps its id and favourite flag and gets the new name, ingredients and calories; the length and all other records are unchanged; a missing id changes nothing |
| Recipes.UpdateKeepsUniqueIds | script.js:173-178 | an update keeps ids unique |
| Recipes.ToggleById | script.js:199-206 | only the favourite flag of the first record with the id flips; everything else is unchanged; an absent id changes nothing |
| Recipes.ToggleTwice | script.js:199-206 | toggling the same id twice is the identity |
| Recipes.ToggleKeepsUniqueIds | script.js:202 | a toggle keeps ids unique |
| Recipes.ToggleMovesTotal | script.js:202 | toggling a present record changes the favourite total by plus or minus its calories; toggling an absent id leaves the total unchanged |
| Recipes.Remove | script.js:228 | no record with the id remains; every record with another id is kept; nothing new appears |
| Recipes.RemoveExact | script.js:228 | the result is the order-preserving subsequence of exactly the records whose id differs, with their multiplicities |
| Recipes.RemoveLength | script.js:228 | with unique ids the length drops by exactly 1 when the id was present and by 0 otherwise |
| Recipes.RemoveKeepsUniqueIds | script.js:228 | a delete keeps ids unique |
| Recipes.Matches | script.js:245-249 | a record matches when its lowered name, or some lowered ingredient, contains the term |
| Recipes.SearchKey | script.js:237 | the lowered, trimmed term has no whitespace at either end, and it is empty exactly when the raw term is all whitespace |
| Recipes.Search | script.js:237-250 | a blank lowered-and-trimmed term returns the whole collection; otherwise the result holds only records whose lowered name or some lowered ingredient contains the term, and every such record of the collection |
| Recipes.SearchBlank | script.js:237-242 | a whitespace-only term returns the collection unchanged |
| Recipes.SearchExact | script.js:244-250 | for a non-blank term the result is the order-preserving subsequence of exactly the matching records |
| Recipes.SearchIgnoresCase | script.js:237 | lowering the term first does not change the result |
| Recipes.SumCalories | script.js:259 | the `reduce` sum of calories; non-negative when every record's calories are |
| Recipes.TotalFavoriteCalories | script.js:257-259 | the total is 0 when there is no favourite |
| Recipes.TotalIsFavoriteSum | script.js:257-259 | the filter-then-reduce total equals the sum of calories over the favourite records |
| Recipes.FavoriteSumReplace | script.js:202 | replacing one record changes the favourite sum by the difference of the two records' contributions |
| Recipes.SeedDefaults | script.js:37-76 | five records carrying the five generated ids, all with positive calories; exactly the second and fourth (Greek Salad and Avocado Toast) are favourites; their ids are unique when the generated ids are |
| Recipes.SeedWellFormed | script.js:37-76 | every sample has a trimmed non-empty name and non-empty, trimmed, comma-free ingredients, so `ResubmitUnchanged` applies to it |
| Recipes.SeededTotal | script.js:37-76 | the seeded favourites (320 and 280 calories) total 600 |
| Recipes.ResubmitUnchanged | script.js:210-223 | opening a well-formed record in the edit form and submitting it untouched leaves the collection unchanged |
| Recipes.AddedTeaIsFound | script.js:244-250 | after adding "Tea", a search for "tea" returns it first, matched by name |
| Store.RecipeStore.constructor | script.js:12-21 | a stored non-empty collection is loaded as is; a missing or empty one is replaced by the samples, which are saved; the form starts in add mode |
| Store.RecipeStore.OpenAddRecipeForm | script.js:141-147 | leaves edit mode, so the next submit adds |
| Store.RecipeStore.CloseRecipeForm | script.js:150-156 | leaves edit mode |
| Store.RecipeStore.SubmitUpdates | script.js:169 | the update branch runs exactly in edit mode with a non-empty current id, as JavaScript truthiness of `isEditing && currentRecipeId` decides |
| Store.RecipeStore.EditRecipe | script.js:210-223 | for a present id, enters edit mode on that id and fills the form with its name, its `', '`-joined ingredients and its calories; an absent id changes nothing |
| Store.RecipeStore.HandleSubmit | script.js:159-196 | the name is trimmed and the ingredients are parsed; then an update or an add happens as `Submit` states; the collection is saved and the form is closed |
| Store.RecipeStore.Submit | script.js:169-195 | in edit mode with a non-empty id the collection becomes its update by that id, with no add when the id is gone; otherwise the new record is prepended; the collection is saved; the form leaves edit mode; unique ids stay unique given a fresh new id |
| Store.RecipeStore.ToggleFavorite | script.js:199-207 | the collection becomes its toggle by id; it is saved only when the id is present; unique ids stay unique |
| Store.RecipeStore.DeleteRecipe | script.js:226-233 | when confirmed, the collection becomes its removal by id and is saved; with unique ids its length drops by 1 exactly when the id was present; unconfirmed, nothing changes |
| Store.RecipeStore.FilterRecipes | script.js:236-253 | the shown list is the search result over the collection, the whole collection for a blank term |
| Store.RecipeStore.UpdateTotalCalories | script.js:256-262 | the shown total is the sum of calories over favourite records |
| Store.StartOnEmptyStorage | script.js:17-24 | starting on empty storage gives five records whose favourite total is 600 |

## Left out

- DOM rendering and event wiring are not modelled. This covers `renderRecipes`, `createRecipeCard`, the listeners in `init`, the form's visibility and title, and `reset()`. It is presentation only.
- JSON serialisation of local storage is not modelled. The slot is the field `storage`, which holds the collection itself. Saving assigns the current collection to it, and loading reads it back.
- `generateId` is not modelled, because it depends on the clock and a random number. The new id is a parameter: `newId` for a submit, and `seedIds` (five ids) for seeding. Id uniqueness is stated on the condition that the new id is fresh.
- The `confirm()` dialog is the `confirmed` parameter of `DeleteRecipe`.
- `parseInt` is not modelled: calories reach the model as an integer, so a `NaN` from bad input is not represented.
- `trim` and `toLowerCase` are modelled for ASCII whitespace and ASCII letters only. JavaScript's Unicode whitespace and case mapping are not represented.
