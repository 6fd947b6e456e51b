/** Model of the Recipe entity (backend/RecipeVault.Core/Entities/Recipe.cs) and
    the child rows it owns. Instants are integer ticks. */
module Entities {
  import opened Optional

  /** One ingredient row. The source's decimal `Quantity` is only carried,
      never computed on, so it is a `real` here. */
  datatype Ingredient = Ingredient(
    id: int,
    recipeId: int,
    name: string,
    quantity: real,
    unit: Option<string>,
    isStaple: bool)

  /** One link between a recipe and a tag. */
  datatype RecipeTag = RecipeTag(recipeId: int, tagId: int)

  /** What the Recipes table holds for one recipe, together with its owned
      ingredients and tag links: the value a Recipe object is saved as. */
  datatype RecipeRow = RecipeRow(
    id: int,
    userId: int,
    name: string,
    description: Option<string>,
    servingSize: int,
    prepTimeMinutes: int,
    cookTimeMinutes: int,
    lastCookedDate: Option<int>,
    cookCount: int,
    imageUrl: Option<string>,
    createdAt: int,
    ingredients: seq<Ingredient>,
    recipeTags: seq<RecipeTag>)

  /** The mutable entity object: settable properties and in-place lists. */
  class Recipe {
    var id: int
    var userId: int
    var name: string
    var description: Option<string>
    var servingSize: int
    var prepTimeMinutes: int
    var cookTimeMinutes: int
    var lastCookedDate: Option<int>
    var cookCount: int
    var imageUrl: Option<string>
    var createdAt: int
    var ingredients: seq<Ingredient>
    var recipeTags: seq<RecipeTag>

    /** `new Recipe()` at instant `now`: every property at its initial value. */
    constructor (now: int)
      ensures id == 0 && userId == 0
      ensures name == "" && description == None && imageUrl == None
      ensures servingSize == 0 && prepTimeMinutes == 0 && cookTimeMinutes == 0
      ensures cookCount == 0 && lastCookedDate == None
      ensures createdAt == now
      ensures ingredients == [] && recipeTags == []
    {
      id, userId := 0, 0;
      name, description, imageUrl := "", None, None;
      servingSize, prepTimeMinutes, cookTimeMinutes := 0, 0, 0;
      cookCount, lastCookedDate := 0, None;
      createdAt := now;
      ingredients, recipeTags := [], [];
    }

    /** An entity materialised from a stored row, as a query hands it out. */
    constructor Load(row: RecipeRow)
      ensures Row() == row
    {
      id, userId := row.id, row.userId;
      name, description, imageUrl := row.name, row.description, row.imageUrl;
      servingSize, prepTimeMinutes, cookTimeMinutes := row.servingSize, row.prepTimeMinutes, row.cookTimeMinutes;
      cookCount, lastCookedDate := row.cookCount, row.lastCookedDate;
      createdAt := row.createdAt;
      ingredients, recipeTags := row.ingredients, row.recipeTags;
    }

    /** The row this object is saved as. */
    function Row(): RecipeRow
      reads this
    {
      RecipeRow(id, userId, name, description, servingSize, prepTimeMinutes,
                cookTimeMinutes, lastCookedDate, cookCount, imageUrl, createdAt,
                ingredients, recipeTags)
    }
  }
}
