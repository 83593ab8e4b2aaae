# Recipes: the subscription merge

The `Recipes` React component (src/Recipes.js) renders the recipes returned by
the `ListRecipes` GraphQL query and subscribes to a "recipe created" event
stream. Its only logic is in the props mapping passed to `graphql(...)`:

- the list it renders is `listRecipes.items` when the query result has a
  `listRecipes` connection, and the empty list otherwise;
- the subscription's `updateQuery` callback turns the cached query result and
  one `onCreateRecipe` event into a new result: every field of the previous
  result is kept, and `listRecipes` becomes a fresh `RecipeConnection` whose
  items are the new recipe followed by the previous items minus any recipe with
  the same `id` (newest first, last write wins).

This project models that logic in Dafny and proves what it guarantees.

- `Wrappers.dfy` — `Option`, for fields that may be `null`.
- `RecipeList.dfy` — `Recipe`, the id filter `Without` (the JavaScript
  `filter(recipe => recipe.id !== id)`), the merge `Merge`, and their
  properties: the new recipe heads the list, its id occurs once, the survivors
  keep their order and multiplicity, distinct ids stay distinct, and a repeated
  event changes nothing. `Without` is also characterised independently of its
  definition, as the one order-preserving selection that keeps exactly the
  entries with another id.
- `Recipes.dfy` — the query result, `VisibleRecipes` (line 76), `UpdateQuery`
  (lines 80-88), a fold `ApplyEvents` of events in receipt order, and the
  worked examples of the merge.

Recipe ids are GraphQL `ID` values, modelled as strings; `!==` between two
strings is value inequality, which is what `Without` compares. The other
fields of the query result are a type parameter `O`, carried unchanged.

## Model

| member | source | states |
|---|---|---|
| RecipeList.CountId | src/Recipes.js:85 | the number of entries with a given id is at most the length, and is zero exactly when no entry carries the id |
| RecipeList.Without | src/Recipes.js:85 | the filter's result has the input's length minus the count of the id, no entry with the id, and an entry exactly when the input has it with another id |
| RecipeList.WithoutKeepsOthers | src/Recipes.js:85 | filtering keeps each entry with another id exactly as often as the input has it, and no entry with the id |
| RecipeList.Merge | src/Recipes.js:85 | the merged list starts with the created recipe, no later entry has its id, its length is the previous length plus one minus the entries sharing the id (so at most one more), and it holds exactly the created recipe and the previous entries with another id |
| RecipeList.WithoutIsSubsequence | src/Recipes.js:85 | filtering keeps the remaining entries in their original relative order |
| RecipeList.WithoutUnique | src/Recipes.js:85 | any order-preserving selection that keeps exactly the entries with another id equals the filter's result |
| RecipeList.WithoutCharacterization | src/Recipes.js:85 | a list is the filter's result if and only if it is an order-preserving selection keeping exactly the entries with another id, each as often as before |
| RecipeList.WithoutAbsent | src/Recipes.js:85 | filtering out an id no entry carries returns the list unchanged |
| RecipeList.WithoutIds | src/Recipes.js:85 | the ids left after filtering are the previous ids minus the filtered one |
| RecipeList.WithoutPreservesUniqueIds | src/Recipes.js:85 | filtering a list with distinct ids gives a list with distinct ids |
| RecipeList.MergeTail | src/Recipes.js:85 | after the head, the merged list is an order-preserving selection of the previous list keeping exactly its entries with another id |
| RecipeList.CountIdWithout | src/Recipes.js:85 | filtering out one id leaves the number of entries with every other id unchanged |
| RecipeList.MergeCountOther | src/Recipes.js:85 | the merge leaves the number of entries with every id other than the created one unchanged |
| RecipeList.MergeHasIdOnce | src/Recipes.js:85 | the created id occurs exactly once in the merged list, so an earlier entry with it is replaced, not duplicated |
| RecipeList.MergeAbsent | src/Recipes.js:85 | a recipe with an id not yet listed is simply prepended to the unchanged list |
| RecipeList.MergePreservesUniqueIds | src/Recipes.js:85 | if the previous ids are pairwise distinct, so are the merged ids |
| RecipeList.MergeIds | src/Recipes.js:85 | the merged ids are the previous ids plus the created id |
| RecipeList.MergeIdempotent | src/Recipes.js:85 | merging the same created recipe twice gives the list merging it once gives |
| Recipes.VisibleRecipes | src/Recipes.js:76 | the rendered list is the connection's items when `listRecipes` is present and empty when it is null |
| Recipes.UpdateQuery | src/Recipes.js:80-88 | the new result keeps every other field of the previous one, has a connection typed `RecipeConnection`, and its items start with the created recipe, have no later entry with its id, and hold exactly the created recipe and the previous items with another id |
| Recipes.ApplyEvents | src/Recipes.js:77-90 | applying a stream of events in receipt order keeps a connection present, keeps the other fields, and puts the last event's recipe first |
| Recipes.VisibleAfterUpdate | src/Recipes.js:76-88 | what is rendered after an event is the merge of what was rendered before |
| Recipes.UpdatePreservesUniqueIds | src/Recipes.js:80-88 | an event keeps the rendered ids pairwise distinct |
| Recipes.UpdateIdempotent | src/Recipes.js:80-88 | delivering the same event twice leaves the same query result as delivering it once |
| Recipes.ApplyEventsPreservesUniqueIds | src/Recipes.js:77-90 | any stream of events keeps the rendered ids pairwise distinct |
| Recipes.ApplyEventsIds | src/Recipes.js:77-90 | after a stream the rendered ids are the earlier ones plus those of the events |
| Recipes.ApplyEventsKeeps | src/Recipes.js:77-90 | a rendered recipe survives every stream in which no event carries its id, and, if it was the only entry with its id, stays the only one and is still rendered exactly once |
| Recipes.ApplyEventsLastWins | src/Recipes.js:77-90 | once the stream has been applied, the last event carrying an id is rendered exactly once, and no other entry with that id is rendered |
| Recipes.ReplacesExistingEntry | src/Recipes.js:85 | from `[A, B]`, a created recipe with B's id gives `[B', A]` |
| Recipes.PrependsNewEntry | src/Recipes.js:85 | from `[A, B]`, a created recipe with a new id C gives `[C, A, B]` |
| Recipes.NothingRenderedWithoutData | src/Recipes.js:76 | a result without `listRecipes` renders no recipe |

## Left out

- Rendering (`componentWillMount`, `renderRecipe`, `render`, src/Recipes.js:8-45): UI output; it maps over the rendered list in order, which is the list `VisibleRecipes` yields.
- The glamor style table (src/Recipes.js:48-69): presentation data only.
- Apollo wiring (`graphql(...)`, `fetchPolicy: 'cache-and-network'`, `subscribeToMore`, the query and subscription documents): network and cache behaviour of a library that is not part of this model; the query and subscription documents under src/queries and src/subscriptions are not part of this model either.
- Asynchronous delivery of events: `ApplyEvents` takes them in the order received, one `updateQuery` call each.
- UpdateQuery: requires `prev.listRecipes` to be present. The subscription starts on mount (src/Recipes.js:8-10), before the first `ListRecipes` result arrives; an event handled before the query has data, or after a failed query, makes the callback throw at line 85 when it reads `prev.listRecipes.items`, so that event is not merged. Line 76 guards this state but the callback does not; the model excludes it by this precondition rather than modelling the exception.
- ApplyEvents: requires `listRecipes` to be present for the same reason: a stream delivered before the query has data makes the first callback throw at line 85.
- Malformed payloads: the types rule out a missing `onCreateRecipe`; a connection whose `items` is null (line 76 would then yield null rather than an empty list, so `render` and the filter at line 85 would throw); null entries in `items` (reading `recipe.id` at line 85 throws); and a recipe without an `id` (`undefined !== id` would keep such an entry). Each of these is a failure of the server's schema, not logic of the component.
- Fields of the previous connection other than `items`: the callback builds a new connection with only `__typename` and `items`, so any other connection field is dropped; the model's connection has just those two fields.
