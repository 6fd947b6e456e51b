/** Model of backend/RecipeVault.Infrastructure/Repositories/RecipeRepository.cs:
    the three queries as functions over the table, the three writes as methods
    of a class that holds it. */
module Repository {
  import opened Optional
  import opened Entities
  import opened Table
  import opened Ordering

  /** The user's rows, in table order (`Where(r => r.UserId == userId)`). */
  function OwnedBy(rows: seq<RecipeRow>, userId: int): seq<RecipeRow>
  {
    Where(rows, (r: RecipeRow) => r.userId == userId)
  }

  /** `Take(count)`: the first `count` entries, none when `count` is not positive. */
  function Take(s: seq<RecipeRow>, count: int): seq<RecipeRow>
  {
    if count <= 0 then [] else if count < |s| then s[..count] else s
  }

  /** GetAllByUserIdAsync: the user's recipes, newest `CreatedAt` first. */
  function AllByUser(rows: seq<RecipeRow>, userId: int): (r: seq<RecipeRow>)
    ensures Sorted(NewestCreatedFirst, r)
    ensures multiset(r) == multiset(OwnedBy(rows, userId))
  {
    SortBySorted(NewestCreatedFirst, OwnedBy(rows, userId));
    SortBy(NewestCreatedFirst, OwnedBy(rows, userId))
  }

  /** GetLeastRecentlyCookedAsync: the user's recipes by `LastCookedDate`
      ascending, never-cooked first, cut to `count`. */
  function LeastRecentlyCooked(rows: seq<RecipeRow>, userId: int, count: int): (r: seq<RecipeRow>)
    ensures count <= 0 ==> r == []
    ensures Sorted(NeverCookedThenOldestCooked, r)
  {
    SortBySorted(NeverCookedThenOldestCooked, OwnedBy(rows, userId));
    Take(SortBy(NeverCookedThenOldestCooked, OwnedBy(rows, userId)), count)
  }

  /** A row is the user's exactly when it is stored and carries the user's id. */
  lemma OwnedByMembers(rows: seq<RecipeRow>, userId: int)
    ensures forall x :: x in OwnedBy(rows, userId) <==> x in rows && x.userId == userId
  {
    forall x ensures x in OwnedBy(rows, userId) <==> x in rows && x.userId == userId {
      assert x in OwnedBy(rows, userId) <==> x in multiset(OwnedBy(rows, userId));
      assert x in rows <==> x in multiset(rows);
    }
  }

  /** GetAllByUser returns exactly the user's recipes (each as often as it is
      stored), ordered by creation time, newest first. */
  lemma {:induction false} AllByUserSpec(rows: seq<RecipeRow>, userId: int)
    ensures var r := AllByUser(rows, userId);
      && multiset(r) == multiset(OwnedBy(rows, userId))
      && (forall x :: x in r <==> x in rows && x.userId == userId)
      && (forall i, j | 0 <= i < j < |r| :: r[i].createdAt >= r[j].createdAt)
  {
    var r := AllByUser(rows, userId);
    SortBySorted(NewestCreatedFirst, OwnedBy(rows, userId));
    OwnedByMembers(rows, userId);
    forall x ensures x in r <==> x in rows && x.userId == userId {
      assert x in r <==> x in multiset(r);
      assert x in OwnedBy(rows, userId) <==> x in multiset(OwnedBy(rows, userId));
    }
    forall i, j | 0 <= i < j < |r| ensures r[i].createdAt >= r[j].createdAt {
      assert Before(NewestCreatedFirst, r[i], r[j]);
    }
  }

  /** The rotation result is the first entries of the user's sorted recipes. */
  lemma RotationIsPrefix(rows: seq<RecipeRow>, userId: int, count: int)
    ensures var s := SortBy(NeverCookedThenOldestCooked, OwnedBy(rows, userId));
      var r := LeastRecentlyCooked(rows, userId, count);
      |r| <= |s| && r == s[..|r|]
  {
  }

  /** The rotation result has at most `count` entries and at most as many as
      the user has recipes; exactly the smaller of the two when `count` is
      positive, none otherwise. */
  lemma {:induction false} RotationLength(rows: seq<RecipeRow>, userId: int, count: int)
    ensures var r := LeastRecentlyCooked(rows, userId, count);
      var n := |OwnedBy(rows, userId)|;
      && (count <= 0 ==> r == [])
      && (count > 0 ==> |r| == if count < n then count else n)
      && |r| <= n
  {
    SortBySorted(NeverCookedThenOldestCooked, OwnedBy(rows, userId));
    var s := SortBy(NeverCookedThenOldestCooked, OwnedBy(rows, userId));
    assert |s| == |multiset(s)| == |OwnedBy(rows, userId)|;
  }

  /** Every suggestion is a stored recipe of the user, and no recipe is
      suggested more often than it is stored. */
  lemma {:induction false} RotationOwnedByUser(rows: seq<RecipeRow>, userId: int, count: int)
    ensures var r := LeastRecentlyCooked(rows, userId, count);
      && multiset(r) <= multiset(OwnedBy(rows, userId))
      && forall i | 0 <= i < |r| :: r[i].userId == userId && r[i] in rows
  {
    var s := SortBy(NeverCookedThenOldestCooked, OwnedBy(rows, userId));
    var r := LeastRecentlyCooked(rows, userId, count);
    SortBySorted(NeverCookedThenOldestCooked, OwnedBy(rows, userId));
    RotationIsPrefix(rows, userId, count);
    assert s == r + s[|r|..];
    assert multiset(s) == multiset(r) + multiset(s[|r|..]);
    OwnedByMembers(rows, userId);
    forall i | 0 <= i < |r| ensures r[i].userId == userId && r[i] in rows {
      assert r[i] in multiset(OwnedBy(rows, userId));
    }
  }

  /** Suggestions come never-cooked first, then by last-cooked date ascending. */
  lemma {:induction false} RotationOrder(rows: seq<RecipeRow>, userId: int, count: int)
    ensures var r := LeastRecentlyCooked(rows, userId, count);
      && (forall i, j | 0 <= i < j < |r| && r[j].lastCookedDate == None :: r[i].lastCookedDate == None)
      && (forall i, j | 0 <= i < j < |r| && r[i].lastCookedDate.Some? && r[j].lastCookedDate.Some? ::
            r[i].lastCookedDate.value <= r[j].lastCookedDate.value)
  {
    var s := SortBy(NeverCookedThenOldestCooked, OwnedBy(rows, userId));
    var r := LeastRecentlyCooked(rows, userId, count);
    SortBySorted(NeverCookedThenOldestCooked, OwnedBy(rows, userId));
    RotationIsPrefix(rows, userId, count);
    forall i, j | 0 <= i < j < |r| ensures Before(NeverCookedThenOldestCooked, r[i], r[j]) {
      assert r[i] == s[i] && r[j] == s[j];
    }
  }

  /** Nothing the user owns but was left out of the suggestions would have
      sorted strictly ahead of a suggestion: every suggested recipe may come
      before every omitted one. */
  lemma {:induction false} RotationTakesTheStalest(rows: seq<RecipeRow>, userId: int, count: int)
    ensures var r := LeastRecentlyCooked(rows, userId, count);
      forall e, o | e in r && o in multiset(OwnedBy(rows, userId)) - multiset(r) ::
        Before(NeverCookedThenOldestCooked, e, o)
  {
    var s := SortBy(NeverCookedThenOldestCooked, OwnedBy(rows, userId));
    var r := LeastRecentlyCooked(rows, userId, count);
    SortBySorted(NeverCookedThenOldestCooked, OwnedBy(rows, userId));
    RotationIsPrefix(rows, userId, count);
    var k := |r|;
    assert s == r + s[k..];
    assert multiset(s) == multiset(r) + multiset(s[k..]);
    forall e, o | e in r && o in multiset(OwnedBy(rows, userId)) - multiset(r)
      ensures Before(NeverCookedThenOldestCooked, e, o)
    {
      assert o in multiset(s[k..]);
      var j :| 0 <= j < |s[k..]| && s[k..][j] == o;
      var i :| 0 <= i < k && r[i] == e;
      assert s[i] == e && s[k + j] == o;
    }
  }

  /** When the user owns a never-cooked recipe and `count` is positive, the
      first suggestion is a never-cooked recipe. */
  lemma {:induction false} NeverCookedSuggestedFirst(rows: seq<RecipeRow>, userId: int, count: int, x: RecipeRow)
    requires count > 0
    requires x in rows && x.userId == userId && x.lastCookedDate == None
    ensures var r := LeastRecentlyCooked(rows, userId, count);
      |r| > 0 && r[0].lastCookedDate == None
  {
    var owned := OwnedBy(rows, userId);
    var s := SortBy(NeverCookedThenOldestCooked, owned);
    SortBySorted(NeverCookedThenOldestCooked, owned);
    OwnedByMembers(rows, userId);
    assert x in multiset(s) by { assert x in owned; }
    var j :| 0 <= j < |s| && s[j] == x;
    if j > 0 {
      assert Before(NeverCookedThenOldestCooked, s[0], s[j]);
    }
    RotationIsPrefix(rows, userId, count);
  }

  /** The repository over its table. `saves` counts the SaveChanges calls
      that wrote something. */
  class RecipeRepository {
    var rows: seq<RecipeRow>
    var nextId: int
    ghost var saves: nat

    /** Keys are unique and positive, and `nextId` is above every key ever handed out. */
    ghost predicate Valid()
      reads this
    {
      && UniqueIds(rows)
      && 0 < nextId
      && forall i | 0 <= i < |rows| :: 0 < rows[i].id < nextId
    }

    constructor ()
      ensures Valid() && rows == [] && saves == 0
    {
      rows, nextId, saves := [], 1, 0;
    }

    /** GetByIdAsync: a fresh entity for the row keyed `id`, or null. */
    method GetById(id: int) returns (recipe: Recipe?)
      ensures recipe == null <==> Find(rows, id).None?
      ensures recipe != null ==> fresh(recipe) && recipe.Row() == Find(rows, id).value
    {
      var found := Find(rows, id);
      if found.None? {
        return null;
      }
      recipe := new Recipe.Load(found.value);
    }

    /** GetAllByUserIdAsync. */
    method GetAllByUserId(userId: int) returns (recipes: seq<RecipeRow>)
      ensures recipes == AllByUser(rows, userId)
    {
      recipes := AllByUser(rows, userId);
    }

    /** GetLeastRecentlyCookedAsync. */
    method GetLeastRecentlyCooked(userId: int, count: int) returns (recipes: seq<RecipeRow>)
      ensures recipes == LeastRecentlyCooked(rows, userId, count)
    {
      recipes := LeastRecentlyCooked(rows, userId, count);
    }

    /** AddAsync: the store generates a key no row has had (keys come from
        `nextId`, which only grows, so a deleted key is never handed out
        again), the entity gets
        it, and its row is appended; the same object is returned. */
    method Add(recipe: Recipe) returns (added: Recipe)
      requires Valid()
      modifies this, recipe
      ensures Valid()
      ensures added == recipe
      ensures recipe.id == old(nextId) && Find(old(rows), recipe.id).None?
      ensures recipe.Row() == old(recipe.Row()).(id := recipe.id)
      ensures rows == old(rows) + [recipe.Row()]
      ensures nextId == old(nextId) + 1
      ensures saves == old(saves) + 1
    {
      recipe.id := nextId;
      rows := rows + [recipe.Row()];
      nextId := nextId + 1;
      saves := saves + 1;
      added := recipe;
    }

    /** UpdateAsync: the row keyed `recipe.Id` is overwritten with the entity.
        When no such row exists the store writes nothing and reports it
        (`found` is false where EF Core throws a concurrency exception). */
    method Update(recipe: Recipe) returns (found: bool)
      requires Valid()
      modifies this
      ensures Valid()
      ensures found == old(Find(rows, recipe.id)).Some?
      ensures rows == if found then ReplaceById(old(rows), recipe.Row()) else old(rows)
      ensures nextId == old(nextId)
      ensures saves == old(saves) + if found then 1 else 0
    {
      found := Find(rows, recipe.id).Some?;
      if found {
        rows := ReplaceById(rows, recipe.Row());
        saves := saves + 1;
      }
    }

    /** DeleteAsync: removes the row keyed `id` and reports whether there was one. */
    method Delete(id: int) returns (deleted: bool)
      requires Valid()
      modifies this
      ensures Valid()
      ensures deleted == old(Find(rows, id)).Some?
      ensures rows == if deleted then RemoveId(old(rows), id) else old(rows)
      ensures nextId == old(nextId)
      ensures saves == old(saves) + if deleted then 1 else 0
      ensures Find(rows, id).None?
    {
      deleted := Find(rows, id).Some?;
      if deleted {
        WhereKeepsUnique(rows, (r: RecipeRow) => r.id != id);
        rows := RemoveId(rows, id);
        saves := saves + 1;
      }
      FindRemoved(old(rows), id, id);
    }
  }
}
