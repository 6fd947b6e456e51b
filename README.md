# RecipeVault recipe store, modelled in Dafny

This project models the recipe core of the RecipeVault backend:

- the `Recipe` entity, with its initial values;
- the recipe repository, as an in-memory table of recipe rows;
- the recipe service's two behaviour rules: logging a cook, and updating a recipe. The other service operations pass through to the repository.

Files:

- `entities.dfy`: the `Recipe` entity. `RecipeRow` is the value a recipe is saved as, with its ingredients and tag links nested inside it. `Recipe` is the mutable entity object whose properties the service sets.
- `table.dfy`: the table as a sequence of rows in insertion order. It holds the filter (`Where`), lookup by key (`Find`), overwrite by key (`ReplaceById`) and removal by key (`RemoveId`), with lemmas on what a lookup finds after each write.
- `ordering.dfy`: the two sort orders the queries use, and a sort with its sortedness and permutation lemmas. One order is newest `CreatedAt` first. The other is never-cooked first, then `LastCookedDate` ascending.
- `repository.dfy`: the queries as functions over the table, with their lemmas. The class `RecipeRepository` holds the table and a key counter. Its methods `Add`, `Update` and `Delete` change the table.
- `dtos.dfy`: the create and update payloads, the returned representation, and explicit field copies in place of the object mapper.
- `service.dfy`: the service rules `Created`, `Cooked` and `Updated` as functions, with their lemmas. The class `RecipeService` runs each operation against a repository.

Conventions:

- Instants are integer ticks. The clock is the parameter `now`.
- Keys are unique and positive (`RecipeRepository.Valid`). The store never reuses a key: `Add` hands out `nextId` and raises it by one, and `Update` and `Delete` leave it unchanged (their `nextId` ensures clauses).
- A lookup hands out a fresh entity object, as each request's own context would. The service changes that object, then `Update` writes its snapshot over the row with the same key.
- The ghost counter `saves` counts the store writes that took effect. The service tests check that `UpdateAsync` is called exactly once. "No write" on a missing key comes from the code: `UpdateRecipeAsync` and `LogCookAsync` return before `UpdateAsync` (RecipeService.cs:43 and :65).
- Update: `UpdateRecipeDto` has no ingredient field, so the model only clears the ingredients.

## Model

| member | source | states |
|---|---|---|
| Entities.Recipe.constructor | backend/RecipeVault.Core/Entities/Recipe.cs:5-19 | A new recipe has count 0, no last-cooked date, empty name, no description or image, creation time `now`, and empty ingredient and tag lists |
| Entities.Recipe.Load | backend/RecipeVault.Infrastructure/Repositories/RecipeRepository.cs:17-22 | An entity loaded from a stored row carries exactly that row's values, ingredients included |
| Table.Where | backend/RecipeVault.Infrastructure/Repositories/RecipeRepository.cs:28 | A filter keeps each matching row as often as it is stored, drops every other row, and returns only matching rows |
| Table.Find | backend/RecipeVault.Infrastructure/Repositories/RecipeRepository.cs:17-22 | A lookup returns a stored row with the requested key, or nothing exactly when no row has that key |
| Table.FindStored | backend/RecipeVault.Infrastructure/Repositories/RecipeRepository.cs:17-22 | With unique keys, looking up a stored row's key returns that row |
| Table.FindAppended | backend/RecipeVault.Infrastructure/Repositories/RecipeRepository.cs:33-38 | After an append, existing keys find their old rows, the new key finds the new row, and other keys find nothing |
| Table.FindReplaced | backend/RecipeVault.Infrastructure/Repositories/RecipeRepository.cs:40-44 | After an overwrite, the overwritten key finds the new row and every other key finds what it found before |
| Table.FindRemoved | backend/RecipeVault.Infrastructure/Repositories/RecipeRepository.cs:46-54 | After a removal, the removed key finds nothing and every other key finds what it found before, so a second delete finds nothing |
| Table.ReplaceById | backend/RecipeVault.Infrastructure/Repositories/RecipeRepository.cs:40-44 | The overwrite `UpdateAsync` performs: the table keeps its length, each row with the written key becomes the written row, and every other row stays in place (frames in `Table.FindReplaced`) |
| Table.RemoveId | backend/RecipeVault.Infrastructure/Repositories/RecipeRepository.cs:51 | The removal `DeleteAsync` performs: every row with the key is gone and every other row stays, as often as it was stored (frames in `Table.FindRemoved`) |
| Table.WhereKeepsUnique | backend/RecipeVault.Infrastructure/Repositories/RecipeRepository.cs:51 | Removing rows keeps the table's keys unique |
| Ordering.BeforeTotal | backend/RecipeVault.Infrastructure/Repositories/RecipeRepository.cs:61 | Any two recipes can be compared in either sort order |
| Ordering.BeforeTransitive | backend/RecipeVault.Infrastructure/Repositories/RecipeRepository.cs:61 | Both sort orders are transitive |
| Ordering.InsertSorted | backend/RecipeVault.Infrastructure/Repositories/RecipeRepository.cs:61 | Inserting into a sorted list keeps it sorted and adds exactly the inserted row |
| Ordering.SortBySorted | backend/RecipeVault.Infrastructure/Repositories/RecipeRepository.cs:61 | The sort used for `OrderBy` and `OrderByDescending` (lines 29 and 61) returns a sorted permutation of its input |
| Repository.OwnedByMembers | backend/RecipeVault.Infrastructure/Repositories/RecipeRepository.cs:60 | A row is among the user's rows exactly when it is stored and carries the user's id |
| Repository.AllByUser | backend/RecipeVault.Infrastructure/Repositories/RecipeRepository.cs:24-31 | The all-for-user query: a permutation of the user's rows, sorted newest `CreatedAt` first (membership and order spelled out in `Repository.AllByUserSpec`) |
| Repository.Take | backend/RecipeVault.Infrastructure/Repositories/RecipeRepository.cs:62 | Computes LINQ `Take(count)`: no entries for a non-positive count, the first `count` entries otherwise, all of them when there are fewer; it has no contract of its own, and `Repository.RotationLength` and `Repository.RotationIsPrefix` state its effect |
| Repository.LeastRecentlyCooked | backend/RecipeVault.Infrastructure/Repositories/RecipeRepository.cs:56-64 | The rotation query: empty for a non-positive count, and sorted never-cooked first, then by last-cooked date ascending (length, ownership and prefix in the `Repository.Rotation*` lemmas) |
| Repository.AllByUserSpec | backend/RecipeVault.Infrastructure/Repositories/RecipeRepository.cs:24-31 | All-for-user returns exactly the user's recipes, each as often as stored, with `CreatedAt` non-increasing |
| Repository.RotationIsPrefix | backend/RecipeVault.Infrastructure/Repositories/RecipeRepository.cs:61-62 | The rotation result is the first entries of the user's recipes in rotation order |
| Repository.RotationLength | backend/RecipeVault.Infrastructure/Repositories/RecipeRepository.cs:56-64 | The rotation result is empty for a non-positive count. Otherwise its length is the smaller of the count and the user's recipe count |
| Repository.RotationOwnedByUser | backend/RecipeVault.Infrastructure/Repositories/RecipeRepository.cs:60 | Every suggestion is a stored recipe of the user, and none appears more often than it is stored |
| Repository.RotationOrder | backend/RecipeVault.Infrastructure/Repositories/RecipeRepository.cs:61 | Never-cooked suggestions come before cooked ones, and cooked dates are non-decreasing |
| Repository.RotationTakesTheStalest | backend/RecipeVault.Infrastructure/Repositories/RecipeRepository.cs:61-62 | No omitted recipe of the user sorts strictly ahead of any suggestion |
| Repository.NeverCookedSuggestedFirst | backend/RecipeVault.Infrastructure/Repositories/RecipeRepository.cs:56-64 | For a positive count, when the user has a never-cooked recipe, the first suggestion is a never-cooked recipe |
| Repository.RecipeRepository.constructor | backend/RecipeVault.Infrastructure/Repositories/RecipeRepository.cs:12-15 | A new repository starts with an empty table that satisfies the key invariant |
| Repository.RecipeRepository.GetById | backend/RecipeVault.Infrastructure/Repositories/RecipeRepository.cs:17-22 | Returns null exactly when no row has the key. Otherwise it returns a fresh entity holding that row |
| Repository.RecipeRepository.GetAllByUserId | backend/RecipeVault.Infrastructure/Repositories/RecipeRepository.cs:24-31 | Returns the all-for-user query over the current table |
| Repository.RecipeRepository.GetLeastRecentlyCooked | backend/RecipeVault.Infrastructure/Repositories/RecipeRepository.cs:56-64 | Returns the rotation query over the current table |
| Repository.RecipeRepository.Add | backend/RecipeVault.Infrastructure/Repositories/RecipeRepository.cs:33-38 | Assigns a key no row has, appends the entity's row, and leaves the other rows and the entity's other fields unchanged. Returns the same object and writes once |
| Repository.RecipeRepository.Update | backend/RecipeVault.Infrastructure/Repositories/RecipeRepository.cs:40-44 | Overwrites the row with the entity's key and no other row, writing once. With no such row it writes nothing and reports `found` false |
| Repository.RecipeRepository.Delete | backend/RecipeVault.Infrastructure/Repositories/RecipeRepository.cs:46-54 | Returns whether a row had the key. If so it removes exactly the rows with that key and writes once. Otherwise the table is unchanged. The key finds nothing afterwards |
| Service.CreatedDefaults | backend/RecipeVault.Application/Services/RecipeService.cs:20-25 | A created recipe copies the payload's fields, starts with count 0, no last-cooked date, `CreatedAt = now` and no ingredients or tags, and has a consistent cook history |
| Service.Created | backend/RecipeVault.Application/Services/RecipeService.cs:20-25 | Computes the recipe the create mapping yields: a new entity's initial values with the payload's fields copied in; it has no contract of its own, and `Service.CreatedDefaults` states its properties |
| Service.Cooked | backend/RecipeVault.Application/Services/RecipeService.cs:67-68 | Computes the recipe after a logged cook: count plus one, last-cooked date `now`; it has no contract of its own, and `Service.LogCookTransition`, `Service.LogCookTwice` and `Service.LogCookKeepsHistory` state its properties |
| Service.Updated | backend/RecipeVault.Application/Services/RecipeService.cs:45-46 | Computes the recipe after an update: ingredients cleared, then the six payload fields copied; it has no contract of its own, and `Service.UpdateRule`, `Service.UpdateIdempotent` and `Service.UpdateKeepsHistory` state its properties |
| Service.LogCookTransition | backend/RecipeVault.Application/Services/RecipeService.cs:67-68 | Logging a cook sets the count to old + 1 and the last-cooked date to `now`, and changes no other field |
| Service.LogCookTwice | backend/RecipeVault.Application/Services/RecipeService.cs:67-68 | Two logged cooks raise the count by 2, so logging is not idempotent |
| Service.LogCookKeepsHistory | backend/RecipeVault.Application/Services/RecipeService.cs:67-68 | Logging a cook keeps the count non-negative, with the count zero exactly when there is no last-cooked date |
| Service.UpdateRule | backend/RecipeVault.Application/Services/RecipeService.cs:45-46 | An update empties the ingredients and copies the six payload fields. It keeps the id, owner, cook count, last-cooked date, creation time and tags |
| Service.UpdateIdempotent | backend/RecipeVault.Application/Services/RecipeService.cs:45-46 | Applying the same update payload twice gives the same recipe as applying it once |
| Service.UpdateKeepsHistory | backend/RecipeVault.Application/Services/RecipeService.cs:45-46 | An update keeps the cook history consistent |
| Service.ReplaceKeepsHistories | backend/RecipeVault.Application/Services/RecipeService.cs:47 | Writing back a consistent row keeps every row's cook history consistent |
| Service.UpdateFailsUnderRegisteredMaps | backend/RecipeVault.Application/Mappings/AutoMapperProfile.cs:11-12 | With only the two registered maps, updating any existing recipe fails in the mapping step |
| Service.UpdateSucceedsWithUpdateMap | backend/RecipeVault.Application/Services/RecipeService.cs:46 | With the update map registered, the mapping step yields the update rule's recipe |
| Dtos.ToDto | backend/RecipeVault.Application/Services/RecipeService.cs:24 | Computes `Map<RecipeDto>(recipe)` as a member-wise copy of the eleven scalar fields (also used at lines 31, 48 and 70); it has no contract of its own, and the service methods' ensures clauses state what they return through it |
| Dtos.ToDtos | backend/RecipeVault.Application/Services/RecipeService.cs:37 | Computes `Map<IEnumerable<RecipeDto>>(recipes)`: one representation per row, in order (also used at line 59); it has no contract of its own, and the service query methods' ensures clauses state what they return through it |
| Service.RecipeService.constructor | backend/RecipeVault.Application/Services/RecipeService.cs:14-18 | The service works on the repository it is given |
| Service.RecipeService.CreateRecipe | backend/RecipeVault.Application/Services/RecipeService.cs:20-25 | Appends exactly one row under a fresh key and writes once. The row holds the payload with the entity's initial values, and the result is its representation |
| Service.RecipeService.GetById | backend/RecipeVault.Application/Services/RecipeService.cs:27-32 | Returns nothing exactly when the repository finds nothing. Otherwise it returns the found recipe's representation |
| Service.RecipeService.GetAllByUserId | backend/RecipeVault.Application/Services/RecipeService.cs:34-38 | Returns the representations of the repository's all-for-user result, in order |
| Service.RecipeService.UpdateRecipe | backend/RecipeVault.Application/Services/RecipeService.cs:40-49 | A missing key returns nothing with no write. Otherwise the row becomes the updated recipe with one write and no other row changes |
| Service.RecipeService.DeleteRecipe | backend/RecipeVault.Application/Services/RecipeService.cs:51-54 | Returns the repository's answer and removes only that key, writing once only when a row existed. Every other lookup is unchanged |
| Service.RecipeService.GetRotationSuggestions | backend/RecipeVault.Application/Services/RecipeService.cs:56-60 | Returns the representations of the rotation query, with `userId` and `count` passed through unchanged |
| Service.RecipeService.LogCook | backend/RecipeVault.Application/Services/RecipeService.cs:62-71 | A missing key returns nothing with no write. Otherwise the row becomes the cooked recipe with one write and no other row changes, and a result is returned |

## Findings

| source | as written | input that shows it | evidently intended | confidence | as-written member | corrected member |
|---|---|---|---|---|---|---|
| backend/RecipeVault.Application/Services/RecipeService.cs:46 | The mapper profile registers only the create and representation maps, not the update map. So `_mapper.Map(dto, recipe)` has no map to apply | Any update of an existing recipe, with any payload | The payload's six scalar fields are copied onto the loaded recipe. The mapping test at backend/RecipeVault.Tests/AutoMapperProfileTests.cs:27 expects that mapping to succeed | medium: AutoMapper 9 and later have no implicit maps, and the package version is not part of this model; not executed | Service.UpdateFailsUnderRegisteredMaps | Service.UpdateSucceedsWithUpdateMap |

The rest of the model (`Service.Updated`, `Service.RecipeService.UpdateRecipe`) uses the intended member-wise copy.

## Left out

- The HTTP controller and startup (`RecipesController.cs`, `Program.cs`): routing, status codes, the default count of 5, and dependency injection.
- The EF Core context and schema configuration: maximum lengths, the tag-name uniqueness index, and foreign keys. Cascade deletes follow from nesting ingredients and tag links inside the recipe row.
- The `User` navigation property and the entities with no behaviour: `MealPlan`, `MealPlanItem`, `Tag` and `PantryStaple`.
- `async`/`Task`, `SaveChangesAsync` durability, store failures and exceptions in general.
- Repository.RecipeRepository.Update: EF Core throws a concurrency exception when no row has the key. The model reports `found` false and writes nothing. An entity whose key is still 0 would be inserted by EF Core; that case is not modelled.
- Repository.RecipeRepository.Add: the model always assigns the next generated key. A key the caller set in advance is not honoured. Nested ingredients do not get keys or a `RecipeId` assigned.
- Repository.RecipeRepository.GetById: the model hands out a fresh object for each lookup. EF Core's one tracked instance per context, and the aliasing it allows, is not modelled.
- Repository.LeastRecentlyCooked: PostgreSQL's default ascending order puts nulls last, while the in-memory provider puts them first. The model follows the in-memory provider. A negative `count` gives an empty result there, as in the model; PostgreSQL rejects a negative `LIMIT`, so that call fails under the deployed provider. No order among equal dates is promised. The model's sort happens to be stable.
- Entities.Recipe.Load: the source's lookup loads only `Ingredients`, so its entity has an empty `RecipeTags` list, while `Load` copies the stored tag links. Nothing observes the difference: the representation has no tags, and the stored links survive the write-back in both.
- Repository.AllByUser: no order among equal creation times is promised.
- Service.RecipeService.LogCook and Service.RecipeService.UpdateRecipe: each call is modelled as one atomic read-modify-write. In the source both load the row, change it, and write every column back (RecipeRepository.cs:42), with no concurrency token, so the last writer wins. Two overlapping log-cook requests can both write c + 1 and lose a cook, and an update that loaded before a cook committed writes back the old count and date. That lost update is not modelled; `Service.LogCookTwice` holds for calls that do not overlap.
- Service.LogCookTransition: the count is an unbounded integer. The source's 32-bit `int` would wrap after 2^31 - 1 cooks. Keys are unbounded integers too.
- Service.CreatedDefaults: `CreateRecipeDto.cs` is not part of this model. The create payload has the scalar fields the mapping test uses. Nested ingredient payloads at creation are not modelled.
- Service.UpdateRule: ingredients are only cleared. The payload has no ingredient list to put back.
- Dtos.RecipeDto: `RecipeDto.cs` is not part of this model. The representation holds the scalar fields listed for it. Ingredient representations are not included.
- Ingredient quantities are `decimal` in the source and `real` here. They are only carried, never computed on.
