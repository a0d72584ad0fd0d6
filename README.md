# Recipe favourites and contact search, modelled in Dafny

This project models the two pieces of logic in two small React Native exercise apps.

- **The recipe app's state container** (`Assignment4.js`). `recipeReducer` computes a new state from the current state and a dispatched action. The state holds the search results, the favourites (each a recipe plus a note), a loading flag and an optional error message. `RecipeProvider` holds that state behind `useReducer`. Its `searchByIngredient` drives a search through a fixed sequence of dispatches, and it has three favourites wrappers.
- **The contacts screen** (`assignments/App.js`). A search filter keeps a contact when its lower-cased name contains the lower-cased query, or when its number contains the query. `groupContacts` splits the contacts into the fixed sections Family, Friends and Office, in that order, and drops the empty ones.

The project has three modules:

- `JsBuiltins` (`jsbuiltins.dfy`) models the JavaScript built-ins the apps use: `filter`, `map`, `find`, `includes` and `toLowerCase`, each with lemmas stating what it promises.
- `Recipes` (`recipes.dfy`) holds the reducer as the pure function `Reduce`. It also holds the class `RecipeProvider`, whose `state` field is replaced by each `Dispatch`. `SearchByIngredient` is a method that performs the source's dispatches in order, and it is proved against `SearchDispatches`, the function listing those dispatches.
- `Contacts` (`contacts.dfy`) holds the filter and the grouping as functions.

The remote recipe lookup is replaced by a `Lookup` parameter. It is either `Failure` or `Success(meals)`. `Failure` stands for anything that lands in the `catch`: the request throws, the body does not parse, or the body parses to `null` so that reading `data.meals` throws. In `Success(meals)`, `meals` is `None` when the body's `meals` field is `null` or missing. The "Duplicate" alert that the reducer shows becomes the `duplicate` flag in the result.

The model follows the code in three places where a plain reading of the app's intent might differ:

- The empty-ingredient guard is `!ingredient`. Only the empty string takes it. A blank string such as `"  "` still goes to the lookup.
- When the lookup returns no meals (`meals` is `null`), the code dispatches the "No recipes found for this ingredient." error and then empty results. Setting results clears the error, so the search ends with no error message. `SearchOutcome` proves this final state.
- An empty `meals` array is truthy in JavaScript, so it is dispatched as the (empty) results and never reaches the error branch.

## Model

| member | source | states |
|---|---|---|
| `JsBuiltins.Map` | Assignment4.js:52-54 | `map` keeps the length, and element `i` of the result is the function applied to input element `i` |
| `JsBuiltins.Filter` | Assignment4.js:48 | `filter` is never longer than its input, and everything it returns is in the input and satisfies the predicate |
| `JsBuiltins.FilterIsSubseq` | Assignment4.js:48 | `filter` returns an order-preserving subsequence of its input |
| `JsBuiltins.FilterMultiplicity` | Assignment4.js:48 | `filter` keeps every occurrence of an element that satisfies the predicate and drops every occurrence of one that does not |
| `JsBuiltins.FilterKeepsAll` | Assignment4.js:48 | when every element satisfies the predicate, `filter` returns its input |
| `JsBuiltins.Find` | Assignment4.js:42 | `find` is undefined exactly when no element satisfies the predicate; otherwise it returns the first element that does |
| `JsBuiltins.IncludesAt` | assignments/App.js:30-31 | `includes` holds exactly when the substring occurs at some position of the string |
| `JsBuiltins.ToLowerCase` | assignments/App.js:30 | `toLowerCase` keeps the length, leaves no ASCII capital, and changes a character only by turning a capital into its small letter |
| `JsBuiltins.ToLowerCaseIdempotent` | assignments/App.js:30 | lower-casing twice is the same as lower-casing once |
| `Recipes.Reduce` | Assignment4.js:33-59 | the duplicate alert is raised exactly for `ADD_FAVORITE` of an identifier already among the favourites, and then the state is returned unchanged |
| `Recipes.AddFavoriteDuplicate` | Assignment4.js:41-45 | adding a recipe whose identifier is already a favourite leaves the state unchanged and raises the alert |
| `Recipes.AddFavoriteNew` | Assignment4.js:46 | adding a new recipe puts it first with an empty note and shifts the old favourites by one, unchanged; results, loading and error stay the same |
| `Recipes.RemoveFavoriteKeepsOthers` | Assignment4.js:47-48 | removing keeps, in original order and with their multiplicity, exactly the favourites whose identifier differs; nothing else in the state changes |
| `Recipes.RemoveFavoriteAbsent` | Assignment4.js:47-48 | removing an identifier that is not a favourite is a no-op |
| `Recipes.RemoveFavoriteIdempotent` | Assignment4.js:47-48 | removing twice equals removing once |
| `Recipes.RemoveFavoriteLength` | Assignment4.js:47-48 | when identifiers are distinct, removing takes away exactly one favourite if the identifier is present and none otherwise |
| `Recipes.UpdateNoteChangesOnlyNote` | Assignment4.js:49-55 | updating a note keeps the length, the order and each recipe; only entries with the given identifier get the new note; nothing else in the state changes |
| `Recipes.UpdateNoteAbsent` | Assignment4.js:49-55 | updating the note of an identifier that is not a favourite is a no-op |
| `Recipes.UpdateNoteLastWins` | Assignment4.js:49-55 | of two successive updates on one identifier the second note remains |
| `Recipes.StatusActions` | Assignment4.js:35-40 | `SET_LOADING` sets loading and clears the error; `SET_SEARCH_RESULTS` replaces the results, ends loading and clears the error; `SET_ERROR` sets the message and ends loading; all keep the favourites, and loading and error keep the results |
| `Recipes.UnrecognisedIsNoOp` | Assignment4.js:56-57 | an action whose type is none of the six handled strings returns the state unchanged |
| `Recipes.ReducePreservesDistinctIds` | Assignment4.js:41-55 | if the favourites have pairwise distinct identifiers before an action, they still do after it |
| `Recipes.ApplyAllPreservesDistinctIds` | Assignment4.js:69 | any sequence of dispatches keeps the favourites' identifiers pairwise distinct |
| `Recipes.SearchDispatches` | Assignment4.js:71-89 | a search dispatches one to three actions, starting with empty results for the empty ingredient and with `SET_LOADING` otherwise |
| `Recipes.SearchOutcome` | Assignment4.js:71-89 | after a search the favourites are unchanged and loading is over. Empty ingredient: no results, no error. No meals: the "No recipes found" error is dispatched, but the search ends with no results and no error. Meals found: those results, no error. Failure: the old results and "Could not fetch recipes." |
| `Recipes.RecipeProvider.constructor` | Assignment4.js:62-69 | the initial state has no results, no favourites, is not loading and has no error |
| `Recipes.RecipeProvider.Dispatch` | Assignment4.js:69 | the new state and the alert flag are the reducer's result on the old state; distinct identifiers are kept |
| `Recipes.RecipeProvider.SearchByIngredient` | Assignment4.js:71-89 | the new state is the old state after the search's dispatches, with the three outcomes stated outright and the favourites unchanged |
| `Recipes.RecipeProvider.AddFavorite` | Assignment4.js:91 | the alert is raised exactly for an identifier already present, with the state unchanged; otherwise the meal is prepended with an empty note |
| `Recipes.RecipeProvider.RemoveFavorite` | Assignment4.js:92 | the favourites become the order-preserving subsequence of those with a different identifier, one shorter exactly when the identifier was present; the rest of the state is unchanged |
| `Recipes.RecipeProvider.UpdateNote` | Assignment4.js:93 | the same favourites in the same order, with the note replaced exactly on entries with the given identifier; the rest of the state is unchanged |
| `Contacts.FilterContacts` | assignments/App.js:29-32 | the filtered contacts are an order-preserving subsequence of the input |
| `Contacts.FilterContactsExact` | assignments/App.js:29-32 | a contact is kept, as often as it occurs, exactly when the lower-cased query occurs in its lower-cased name or the query occurs in its number |
| `Contacts.FilterContactsEmptySearch` | assignments/App.js:29-32 | the empty query keeps every contact |
| `Contacts.GroupContacts` | assignments/App.js:17-23 | at most three sections; each is non-empty, titled by a fixed group, and holds exactly that group's contacts in input order |
| `Contacts.GroupTitlesOrdered` | assignments/App.js:18-20 | the section titles are an order-preserving subsequence of Family, Friends, Office, so none repeats |
| `Contacts.GroupSectionsExact` | assignments/App.js:21 | each section holds, in input order and with multiplicity, exactly the contacts whose group is its title |
| `Contacts.GroupSectionPresent` | assignments/App.js:19-22 | a fixed group gets a section exactly when some contact belongs to it |
| `Contacts.GroupTotal` | assignments/App.js:18-22 | the sections together hold as many contacts as there are input contacts in one of the three groups; the others are dropped |
| `Contacts.VisibleSections` | assignments/App.js:29-34 | every contact shown in a section is an input contact of that section's group that matches the query; each section's data is, in input order, exactly the filtered contacts of its group |
| `Contacts.VisibleSectionsComplete` | assignments/App.js:29-34 | every input contact of a fixed group that matches the query is shown in the section titled by its group |

## Left out

- Rendering, layout, navigation between screens, the note-editing UI state, the contact modal and the style sheets: these are presentation only.
- The simulated gyroscope (a timer that emits random floating-point readings) and the spirit-level animation: these are timers, randomness and floating point.
- The `fetch` request, its URL and the `response.json()` parsing: these are foreign I/O. Their result is the `Lookup` parameter, and a failure in either step is `Failure`.
- Interleaving during the lookup: `searchByIngredient` awaits the request and the body, and the provider stays mounted meanwhile. So any other dispatch can land between `SET_LOADING` and the final dispatches: a second search, or `UPDATE_NOTE` and `REMOVE_FAVORITE` from the favourites screen. The model treats each search as atomic. The "favourites unchanged" clauses of `SearchOutcome` and `RecipeProvider.SearchByIngredient` are about the search's own dispatches, not about what other screens dispatch while the search waits.
- `Alert.alert`: this is a UI side effect, modelled only as the returned `duplicate` flag.
- `JsBuiltins.ToLowerCase`: lower-cases only the ASCII letters A-Z. JavaScript's `toLowerCase` applies the full Unicode case mapping, which can change other characters and even the string's length.
- JavaScript's loose payload shapes are not modelled. For example, `SET_ERROR` with a `null` payload or a `meals` field that is not an array cannot occur in the model, because the model's payloads are typed.
- The `searchTerm.trim() || "Chicken"` fallback in the search screen and the initial search for "Chicken" belong to the UI. The model's `SearchByIngredient` takes whatever string the screen passes.
- `assignments/assign-array.js` and `assignments/assign-string.js` only print the results of built-in array and string methods on constants, so they have no logic to model.
