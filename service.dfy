/** Model of backend/RecipeVault.Application/Services/RecipeService.cs: the
    cook-logging transition, the update rule, and the pass-throughs to the
    repository. The clock is the parameter `now`. */
module Service {
  import opened Optional
  import opened Entities
  import opened Table
  import opened Repository
  import opened Dtos

  /** A new recipe with the create payload's fields copied in. */
  function Created(dto: CreateRecipeDto, now: int): RecipeRow
  {
    RecipeRow(0, dto.userId, dto.name, dto.description, dto.servingSize,
              dto.prepTimeMinutes, dto.cookTimeMinutes, None, 0, dto.imageUrl,
              now, [], [])
  }

  /** The stored recipe after a cook is logged at `now`. */
  function Cooked(row: RecipeRow, now: int): RecipeRow
  {
    row.(cookCount := row.cookCount + 1, lastCookedDate := Some(now))
  }

  /** The stored recipe after an update: ingredients cleared, then the
      payload's scalar fields copied in. */
  function Updated(row: RecipeRow, dto: UpdateRecipeDto): RecipeRow
  {
    row.(ingredients := [])
       .(name := dto.name, description := dto.description,
         servingSize := dto.servingSize, prepTimeMinutes := dto.prepTimeMinutes,
         cookTimeMinutes := dto.cookTimeMinutes, imageUrl := dto.imageUrl)
  }

  /** A recipe has never been cooked exactly when its count is zero and it
      has no last-cooked date; the count is never negative. */
  predicate CookHistoryConsistent(row: RecipeRow)
  {
    row.cookCount >= 0 && (row.cookCount == 0 <==> row.lastCookedDate.None?)
  }

  ghost predicate AllCookHistoriesConsistent(rows: seq<RecipeRow>)
  {
    forall i | 0 <= i < |rows| :: CookHistoryConsistent(rows[i])
  }

  /** A created recipe starts uncooked, dated `now`, with no ingredients or
      tags, and carries the payload's fields. */
  lemma CreatedDefaults(dto: CreateRecipeDto, now: int)
    ensures var r := Created(dto, now);
      && r.cookCount == 0 && r.lastCookedDate == None
      && r.createdAt == now
      && r.ingredients == [] && r.recipeTags == []
      && r.userId == dto.userId && r.name == dto.name && r.description == dto.description
      && r.servingSize == dto.servingSize && r.prepTimeMinutes == dto.prepTimeMinutes
      && r.cookTimeMinutes == dto.cookTimeMinutes && r.imageUrl == dto.imageUrl
      && CookHistoryConsistent(r)
  {
  }

  /** Logging a cook raises the count by exactly one, sets the date to `now`,
      and changes nothing else. */
  lemma LogCookTransition(row: RecipeRow, now: int)
    ensures var r := Cooked(row, now);
      && r.cookCount == row.cookCount + 1
      && r.lastCookedDate == Some(now)
      && r.(cookCount := row.cookCount, lastCookedDate := row.lastCookedDate) == row
  {
  }

  /** Two logged cooks raise the count by two: logging is not idempotent. */
  lemma LogCookTwice(row: RecipeRow, first: int, second: int)
    ensures Cooked(Cooked(row, first), second).cookCount == row.cookCount + 2
    ensures Cooked(Cooked(row, first), second).lastCookedDate == Some(second)
    ensures Cooked(Cooked(row, first), second) != Cooked(row, second)
  {
    assert Cooked(Cooked(row, first), second).cookCount != Cooked(row, second).cookCount;
  }

  /** Logging a cook keeps the cook history consistent. */
  lemma LogCookKeepsHistory(row: RecipeRow, now: int)
    requires CookHistoryConsistent(row)
    ensures CookHistoryConsistent(Cooked(row, now))
  {
  }

  /** An update empties the ingredients, copies the six payload fields, and
      keeps the key, owner, cook count, last-cooked date, creation time and tags. */
  lemma UpdateRule(row: RecipeRow, dto: UpdateRecipeDto)
    ensures var r := Updated(row, dto);
      && r.ingredients == []
      && r.name == dto.name && r.description == dto.description
      && r.servingSize == dto.servingSize && r.prepTimeMinutes == dto.prepTimeMinutes
      && r.cookTimeMinutes == dto.cookTimeMinutes && r.imageUrl == dto.imageUrl
      && r.id == row.id && r.userId == row.userId
      && r.cookCount == row.cookCount && r.lastCookedDate == row.lastCookedDate
      && r.createdAt == row.createdAt && r.recipeTags == row.recipeTags
  {
  }

  /** Applying the same update twice is the same as applying it once. */
  lemma UpdateIdempotent(row: RecipeRow, dto: UpdateRecipeDto)
    ensures Updated(Updated(row, dto), dto) == Updated(row, dto)
  {
  }

  /** An update keeps the cook history consistent. */
  lemma UpdateKeepsHistory(row: RecipeRow, dto: UpdateRecipeDto)
    requires CookHistoryConsistent(row)
    ensures CookHistoryConsistent(Updated(row, dto))
  {
  }

  /** The object-to-object maps a mapper profile can register. */
  datatype TypeMap = CreateDtoToRecipe | RecipeToDto | UpdateDtoToRecipe

  /** The maps registered by backend/RecipeVault.Application/Mappings/AutoMapperProfile.cs. */
  const RegisteredMaps: set<TypeMap> := {CreateDtoToRecipe, RecipeToDto}

  /** What the update step `_mapper.Map(dto, recipe)` yields under a profile:
      the updated row when the update map is registered, a missing-map
      failure otherwise. */
  datatype UpdateOutcome = NotFound | Mapped(row: RecipeRow) | MissingTypeMap

  function UpdateUnderProfile(profile: set<TypeMap>, rows: seq<RecipeRow>, id: int, dto: UpdateRecipeDto): UpdateOutcome
  {
    match Find(rows, id)
    case None => NotFound
    case Some(row) => if UpdateDtoToRecipe in profile then Mapped(Updated(row, dto)) else MissingTypeMap
  }

  /** As written, the registered profile has no update map, so updating any
      existing recipe fails in the mapping step instead of copying the payload. */
  lemma UpdateFailsUnderRegisteredMaps(rows: seq<RecipeRow>, id: int, dto: UpdateRecipeDto)
    requires Find(rows, id).Some?
    ensures UpdateUnderProfile(RegisteredMaps, rows, id, dto) == MissingTypeMap
  {
  }

  /** With the update map registered, the mapping step yields `Updated`, the
      rule the service model uses. */
  lemma UpdateSucceedsWithUpdateMap(rows: seq<RecipeRow>, id: int, dto: UpdateRecipeDto)
    requires Find(rows, id).Some?
    ensures UpdateUnderProfile(RegisteredMaps + {UpdateDtoToRecipe}, rows, id, dto)
            == Mapped(Updated(Find(rows, id).value, dto))
  {
  }

  /** Overwriting one row with a consistent row keeps every row consistent. */
  lemma ReplaceKeepsHistories(rows: seq<RecipeRow>, row: RecipeRow)
    requires AllCookHistoriesConsistent(rows) && CookHistoryConsistent(row)
    ensures AllCookHistoriesConsistent(ReplaceById(rows, row))
  {
  }

  class RecipeService {
    const repo: RecipeRepository

    constructor (repo: RecipeRepository)
      ensures this.repo == repo
    {
      this.repo := repo;
    }

    /** CreateRecipeAsync: one new row, under a fresh key, holding the payload
        with the entity's initial values; its representation is returned. */
    method CreateRecipe(dto: CreateRecipeDto, now: int) returns (result: RecipeDto)
      requires repo.Valid()
      modifies repo
      ensures repo.Valid()
      ensures Find(old(repo.rows), result.id).None?
      ensures var row := Created(dto, now).(id := result.id);
        && repo.rows == old(repo.rows) + [row]
        && result == ToDto(row)
        && Find(repo.rows, result.id) == Some(row)
      ensures repo.saves == old(repo.saves) + 1
      ensures repo.nextId == old(repo.nextId) + 1
      ensures old(AllCookHistoriesConsistent(repo.rows)) ==> AllCookHistoriesConsistent(repo.rows)
    {
      var recipe := new Recipe(now);
      recipe.userId, recipe.name, recipe.description := dto.userId, dto.name, dto.description;
      recipe.servingSize, recipe.prepTimeMinutes, recipe.cookTimeMinutes := dto.servingSize, dto.prepTimeMinutes, dto.cookTimeMinutes;
      recipe.imageUrl := dto.imageUrl;
      assert recipe.Row() == Created(dto, now);
      var created := repo.Add(recipe);
      ghost var row := created.Row();
      assert row == Created(dto, now).(id := created.id);
      FindAppended(old(repo.rows), row, row.id);
      if old(AllCookHistoriesConsistent(repo.rows)) {
        CreatedDefaults(dto, now);
        assert CookHistoryConsistent(row);
        assert repo.rows == old(repo.rows) + [row];
      }
      result := ToDto(created.Row());
    }

    /** GetByIdAsync: absent exactly when the repository finds nothing. */
    method GetById(id: int) returns (result: Option<RecipeDto>)
      ensures result.None? <==> Find(repo.rows, id).None?
      ensures result.Some? ==> result.value == ToDto(Find(repo.rows, id).value)
    {
      var recipe := repo.GetById(id);
      if recipe == null {
        return None;
      }
      result := Some(ToDto(recipe.Row()));
    }

    /** GetAllByUserIdAsync. */
    method GetAllByUserId(userId: int) returns (result: seq<RecipeDto>)
      ensures result == ToDtos(AllByUser(repo.rows, userId))
    {
      var recipes := repo.GetAllByUserId(userId);
      result := ToDtos(recipes);
    }

    /** UpdateRecipeAsync: absent and no write for a missing key; otherwise
        the row becomes `Updated(row, dto)`, written once. */
    method UpdateRecipe(id: int, dto: UpdateRecipeDto) returns (result: Option<RecipeDto>)
      requires repo.Valid()
      modifies repo
      ensures repo.Valid()
      ensures match old(Find(repo.rows, id))
        case None =>
          result == None && repo.rows == old(repo.rows) && repo.saves == old(repo.saves)
        case Some(row) =>
          && result == Some(ToDto(Updated(row, dto)))
          && repo.rows == ReplaceById(old(repo.rows), Updated(row, dto))
          && Find(repo.rows, id) == Some(Updated(row, dto))
          && repo.saves == old(repo.saves) + 1
      ensures forall other | other != id :: Find(repo.rows, other) == old(Find(repo.rows, other))
      ensures repo.nextId == old(repo.nextId)
      ensures old(AllCookHistoriesConsistent(repo.rows)) ==> AllCookHistoriesConsistent(repo.rows)
    {
      var recipe := repo.GetById(id);
      if recipe == null {
        return None;
      }
      ghost var row := recipe.Row();
      recipe.ingredients := [];
      recipe.name, recipe.description, recipe.imageUrl := dto.name, dto.description, dto.imageUrl;
      recipe.servingSize, recipe.prepTimeMinutes, recipe.cookTimeMinutes := dto.servingSize, dto.prepTimeMinutes, dto.cookTimeMinutes;
      assert recipe.Row() == Updated(row, dto);
      var found := repo.Update(recipe);
      FindReplaced(old(repo.rows), recipe.Row(), id);
      forall other | other != id ensures Find(repo.rows, other) == old(Find(repo.rows, other)) {
        FindReplaced(old(repo.rows), recipe.Row(), other);
      }
      if old(AllCookHistoriesConsistent(repo.rows)) {
        UpdateKeepsHistory(row, dto);
        ReplaceKeepsHistories(old(repo.rows), recipe.Row());
      }
      result := Some(ToDto(recipe.Row()));
    }

    /** DeleteRecipeAsync: the repository's answer, unchanged. */
    method DeleteRecipe(id: int) returns (deleted: bool)
      requires repo.Valid()
      modifies repo
      ensures repo.Valid()
      ensures deleted == old(Find(repo.rows, id)).Some?
      ensures repo.rows == if deleted then RemoveId(old(repo.rows), id) else old(repo.rows)
      ensures Find(repo.rows, id).None?
      ensures forall other | other != id :: Find(repo.rows, other) == old(Find(repo.rows, other))
      ensures repo.nextId == old(repo.nextId)
      ensures repo.saves == old(repo.saves) + if deleted then 1 else 0
      ensures old(AllCookHistoriesConsistent(repo.rows)) ==> AllCookHistoriesConsistent(repo.rows)
    {
      deleted := repo.Delete(id);
      forall other | other != id ensures Find(repo.rows, other) == old(Find(repo.rows, other)) {
        FindRemoved(old(repo.rows), id, other);
      }
      if deleted && old(AllCookHistoriesConsistent(repo.rows)) {
        forall i | 0 <= i < |repo.rows| ensures CookHistoryConsistent(repo.rows[i]) {
          assert repo.rows[i] in multiset(repo.rows);
          assert repo.rows[i] in multiset(old(repo.rows));
          var k :| 0 <= k < |old(repo.rows)| && old(repo.rows)[k] == repo.rows[i];
        }
      }
    }

    /** GetRotationSuggestionsAsync: the repository query with `userId` and
        `count` passed through unchanged. */
    method GetRotationSuggestions(userId: int, count: int) returns (result: seq<RecipeDto>)
      ensures result == ToDtos(LeastRecentlyCooked(repo.rows, userId, count))
    {
      var recipes := repo.GetLeastRecentlyCooked(userId, count);
      result := ToDtos(recipes);
    }

    /** LogCookAsync: absent and no write for a missing key; otherwise the row
        becomes `Cooked(row, now)`, written once. */
    method LogCook(id: int, now: int) returns (result: Option<RecipeDto>)
      requires repo.Valid()
      modifies repo
      ensures repo.Valid()
      ensures match old(Find(repo.rows, id))
        case None =>
          result == None && repo.rows == old(repo.rows) && repo.saves == old(repo.saves)
        case Some(row) =>
          && result == Some(ToDto(Cooked(row, now)))
          && repo.rows == ReplaceById(old(repo.rows), Cooked(row, now))
          && Find(repo.rows, id) == Some(Cooked(row, now))
          && repo.saves == old(repo.saves) + 1
      ensures forall other | other != id :: Find(repo.rows, other) == old(Find(repo.rows, other))
      ensures repo.nextId == old(repo.nextId)
      ensures old(AllCookHistoriesConsistent(repo.rows)) ==> AllCookHistoriesConsistent(repo.rows)
    {
      var recipe := repo.GetById(id);
      if recipe == null {
        return None;
      }
      ghost var row := recipe.Row();
      recipe.cookCount := recipe.cookCount + 1;
      recipe.lastCookedDate := Some(now);
      assert recipe.Row() == Cooked(row, now);
      var found := repo.Update(recipe);
      FindReplaced(old(repo.rows), recipe.Row(), id);
      forall other | other != id ensures Find(repo.rows, other) == old(Find(repo.rows, other)) {
        FindReplaced(old(repo.rows), recipe.Row(), other);
      }
      if old(AllCookHistoriesConsistent(repo.rows)) {
        LogCookKeepsHistory(row, now);
        ReplaceKeepsHistories(old(repo.rows), recipe.Row());
      }
      result := Some(ToDto(recipe.Row()));
    }
  }
}
