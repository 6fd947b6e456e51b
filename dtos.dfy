/** The payloads the service accepts and the representation it returns
    (backend/RecipeVault.Application/DTOs), with the explicit field copies
    that stand for the object mapper. */
module Dtos {
  import opened Optional
  import opened Entities

  /** Create payload: the client-supplied scalar fields of a recipe. */
  datatype CreateRecipeDto = CreateRecipeDto(
    userId: int,
    name: string,
    description: Option<string>,
    servingSize: int,
    prepTimeMinutes: int,
    cookTimeMinutes: int,
    imageUrl: Option<string>)

  /** Update payload (UpdateRecipeDto.cs): no id, owner, counters or dates. */
  datatype UpdateRecipeDto = UpdateRecipeDto(
    name: string,
    description: Option<string>,
    servingSize: int,
    prepTimeMinutes: int,
    cookTimeMinutes: int,
    imageUrl: Option<string>)

  /** The representation handed back to callers. */
  datatype RecipeDto = RecipeDto(
    id: int,
    userId: int,
    name: string,
    description: Option<string>,
    servingSize: int,
    prepTimeMinutes: int,
    cookTimeMinutes: int,
    lastCookedDate: Option<int>,
    cookCount: int,
    imageUrl: Option<string>,
    createdAt: int)

  /** `Map<RecipeDto>(recipe)`: member-wise copy of the scalar fields. */
  function ToDto(r: RecipeRow): RecipeDto
  {
    RecipeDto(r.id, r.userId, r.name, r.description, r.servingSize,
              r.prepTimeMinutes, r.cookTimeMinutes, r.lastCookedDate,
              r.cookCount, r.imageUrl, r.createdAt)
  }

  /** `Map<IEnumerable<RecipeDto>>(recipes)`: one representation per row, in order. */
  function ToDtos(rows: seq<RecipeRow>): seq<RecipeDto>
  {
    seq(|rows|, i requires 0 <= i < |rows| => ToDto(rows[i]))
  }
}
