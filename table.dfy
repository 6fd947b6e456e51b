/** The in-memory stand-in for the Recipes table: a sequence of rows in
    insertion order, and the filter, lookup, overwrite and removal that the
    repository runs against it. */
module Table {
  import opened Optional
  import opened Entities

  /** No two rows share a primary key. */
  ghost predicate UniqueIds(rows: seq<RecipeRow>)
  {
    forall i, j | 0 <= i < |rows| && 0 <= j < |rows| && rows[i].id == rows[j].id :: i == j
  }

  /** The rows that satisfy `keep`, in table order (LINQ `Where`). */
  function Where(rows: seq<RecipeRow>, keep: RecipeRow -> bool): (r: seq<RecipeRow>)
    ensures forall x :: multiset(r)[x] == if keep(x) then multiset(rows)[x] else 0
    ensures forall i | 0 <= i < |r| :: keep(r[i])
  {
    if rows == [] then []
    else
      assert rows == [rows[0]] + rows[1..];
      if keep(rows[0]) then [rows[0]] + Where(rows[1..], keep) else Where(rows[1..], keep)
  }

  /** The first row whose key is `id` (`FirstOrDefault(r => r.Id == id)`). */
  function Find(rows: seq<RecipeRow>, id: int): (r: Option<RecipeRow>)
    ensures r.Some? ==> r.value in rows && r.value.id == id
    ensures r.None? <==> forall i | 0 <= i < |rows| :: rows[i].id != id
  {
    if rows == [] then None
    else if rows[0].id == id then Some(rows[0])
    else Find(rows[1..], id)
  }

  /** Every row keyed `row.id` overwritten by `row`, every other row kept in place. */
  function ReplaceById(rows: seq<RecipeRow>, row: RecipeRow): (r: seq<RecipeRow>)
    ensures |r| == |rows|
    ensures forall i | 0 <= i < |rows| :: r[i] == if rows[i].id == row.id then row else rows[i]
  {
    if rows == [] then []
    else [if rows[0].id == row.id then row else rows[0]] + ReplaceById(rows[1..], row)
  }

  /** The table without the rows keyed `id`; their ingredients and tag links
      go with them, as the cascade delete does. */
  function RemoveId(rows: seq<RecipeRow>, id: int): (r: seq<RecipeRow>)
    ensures forall x :: multiset(r)[x] == if x.id == id then 0 else multiset(rows)[x]
  {
    Where(rows, (r: RecipeRow) => r.id != id)
  }

  /** With unique keys, a stored row is what a lookup by its key finds. */
  lemma FindStored(rows: seq<RecipeRow>, row: RecipeRow)
    requires UniqueIds(rows) && row in rows
    ensures Find(rows, row.id) == Some(row)
  {
  }

  /** Lookups after an append: old keys still find their old row, and the
      new key finds the appended row. */
  lemma {:induction false} FindAppended(rows: seq<RecipeRow>, row: RecipeRow, id: int)
    ensures Find(rows + [row], id) ==
            if Find(rows, id).Some? then Find(rows, id)
            else if row.id == id then Some(row) else None
  {
    if rows != [] {
      assert (rows + [row])[1..] == rows[1..] + [row];
      FindAppended(rows[1..], row, id);
    }
  }

  /** Lookups after an overwrite: the overwritten key finds the new row,
      every other key finds what it found before. */
  lemma {:induction false} FindReplaced(rows: seq<RecipeRow>, row: RecipeRow, id: int)
    ensures Find(ReplaceById(rows, row), id) ==
            if id == row.id && Find(rows, id).Some? then Some(row) else Find(rows, id)
  {
    if rows != [] {
      assert ReplaceById(rows, row)[1..] == ReplaceById(rows[1..], row);
      FindReplaced(rows[1..], row, id);
    }
  }

  /** Lookups after a removal: the removed key finds nothing, every other key
      finds what it found before. */
  lemma {:induction false} FindRemoved(rows: seq<RecipeRow>, removed: int, id: int)
    ensures Find(RemoveId(rows, removed), id) == if id == removed then None else Find(rows, id)
  {
    if rows != [] {
      FindRemoved(rows[1..], removed, id);
    }
  }

  /** Filtering keeps keys unique. */
  lemma {:induction false} WhereKeepsUnique(rows: seq<RecipeRow>, keep: RecipeRow -> bool)
    requires UniqueIds(rows)
    ensures UniqueIds(Where(rows, keep))
  {
    if rows != [] {
      var t := rows[1..];
      assert UniqueIds(t) by {
        forall i, j | 0 <= i < |t| && 0 <= j < |t| && t[i].id == t[j].id ensures i == j {
          assert rows[i + 1].id == rows[j + 1].id;
        }
      }
      WhereKeepsUnique(t, keep);
      if keep(rows[0]) {
        var w := Where(t, keep);
        forall k | 0 <= k < |w| ensures w[k].id != rows[0].id {
          assert w[k] in multiset(w);
          assert w[k] in multiset(t);
          var m :| 0 <= m < |t| && t[m] == w[k];
          assert rows[m + 1] == w[k];
        }
      }
    }
  }
}
