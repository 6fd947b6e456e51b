/** The two orders the repository's queries sort by, and the stable sort that
    stands for LINQ's `OrderBy` / `OrderByDescending`. */
module Ordering {
  import opened Optional
  import opened Entities

  datatype Order =
    | NewestCreatedFirst           // OrderByDescending(r => r.CreatedAt)
    | NeverCookedThenOldestCooked  // OrderBy(r => r.LastCookedDate), null first

  /** `a` may come before `b` in `order`. Rows with equal keys may come either way. */
  predicate Before(order: Order, a: RecipeRow, b: RecipeRow)
  {
    match order
    case NewestCreatedFirst => a.createdAt >= b.createdAt
    case NeverCookedThenOldestCooked =>
      match (a.lastCookedDate, b.lastCookedDate)
      case (None, _) => true
      case (Some(_), None) => false
      case (Some(x), Some(y)) => x <= y
  }

  predicate Sorted(order: Order, s: seq<RecipeRow>)
  {
    forall i, j | 0 <= i < j < |s| :: Before(order, s[i], s[j])
  }

  /** Any two rows are comparable. */
  lemma BeforeTotal(order: Order, a: RecipeRow, b: RecipeRow)
    ensures Before(order, a, b) || Before(order, b, a)
  {
  }

  /** The order is transitive. */
  lemma BeforeTransitive(order: Order, a: RecipeRow, b: RecipeRow, c: RecipeRow)
    requires Before(order, a, b) && Before(order, b, c)
    ensures Before(order, a, c)
  {
  }

  /** `x` placed ahead of the first row it may precede. */
  function Insert(order: Order, x: RecipeRow, s: seq<RecipeRow>): seq<RecipeRow>
  {
    if s == [] then [x]
    else if Before(order, x, s[0]) then [x] + s
    else [s[0]] + Insert(order, x, s[1..])
  }

  /** Insertion sort; earlier rows stay ahead of later rows with equal keys. */
  function SortBy(order: Order, s: seq<RecipeRow>): seq<RecipeRow>
  {
    if s == [] then [] else Insert(order, s[0], SortBy(order, s[1..]))
  }

  lemma {:induction false} InsertSorted(order: Order, x: RecipeRow, s: seq<RecipeRow>)
    requires Sorted(order, s)
    ensures Sorted(order, Insert(order, x, s))
    ensures multiset(Insert(order, x, s)) == multiset(s) + multiset{x}
  {
    if s == [] {
    } else if Before(order, x, s[0]) {
      forall j | 0 <= j < |s| ensures Before(order, x, s[j]) {
        if j > 0 { BeforeTransitive(order, x, s[0], s[j]); }
      }
    } else {
      var t := Insert(order, x, s[1..]);
      InsertSorted(order, x, s[1..]);
      BeforeTotal(order, x, s[0]);
      forall j | 0 <= j < |t| ensures Before(order, s[0], t[j]) {
        assert t[j] in multiset(t);
        if t[j] != x {
          assert t[j] in multiset(s[1..]);
          var k :| 0 <= k < |s[1..]| && s[1..][k] == t[j];
          assert s[k + 1] == t[j];
        }
      }
      assert s == [s[0]] + s[1..];
    }
  }

  /** The sort's result is ordered and is a permutation of its input. */
  lemma {:induction false} SortBySorted(order: Order, s: seq<RecipeRow>)
    ensures Sorted(order, SortBy(order, s))
    ensures multiset(SortBy(order, s)) == multiset(s)
  {
    if s != [] {
      SortBySorted(order, s[1..]);
      InsertSorted(order, s[0], SortBy(order, s[1..]));
      assert s == [s[0]] + s[1..];
    }
  }
}
