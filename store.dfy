/** The durable product table (`AppDbContext.Products`, a PostgreSQL table
    reached through EF Core): rows in insertion order and an identity counter
    that hands out ids. Only the three calls the repository makes are modelled. */
module Store {
  import opened Domain

  /** Every row has a positive id below the next one to be handed out, and no
      two rows share an id. */
  ghost predicate WellFormed(rows: seq<Product>, nextId: int)
  {
    && 1 <= nextId
    && (forall i :: 0 <= i < |rows| ==> 1 <= rows[i].id < nextId)
    && (forall i, j :: 0 <= i < j < |rows| ==> rows[i].id != rows[j].id)
  }

  /** The row whose key is `id`, if any (`FindAsync`). */
  function FindIn(rows: seq<Product>, id: int): (r: Option<Product>)
    ensures r.Some? ==> r.value in rows && r.value.id == id
    ensures r.None? ==> forall i :: 0 <= i < |rows| ==> rows[i].id != id
    decreases |rows|
  {
    if rows == [] then None
    else if rows[0].id == id then Some(rows[0])
    else FindIn(rows[1..], id)
  }

  /** With unique ids, the row found is the one row that carries the id. */
  lemma {:induction false} FindInUnique(rows: seq<Product>, nextId: int, k: nat)
    requires WellFormed(rows, nextId)
    requires k < |rows|
    ensures FindIn(rows, rows[k].id) == Some(rows[k])
    decreases |rows|
  {
    if k > 0 && rows[0].id != rows[k].id {
      assert WellFormed(rows[1..], nextId) by {
        forall i, j | 0 <= i < j < |rows[1..]|
          ensures rows[1..][i].id != rows[1..][j].id
        {
          assert rows[1..][i] == rows[i + 1] && rows[1..][j] == rows[j + 1];
        }
      }
      FindInUnique(rows[1..], nextId, k - 1);
    }
  }

  /** Appending a row with a new id leaves every other lookup as it was and
      makes the new row findable. */
  lemma {:induction false} FindInAppend(rows: seq<Product>, p: Product, id: int)
    ensures FindIn(rows + [p], id) == if FindIn(rows, id).Some? then FindIn(rows, id)
                                      else if p.id == id then Some(p) else None
    decreases |rows|
  {
    if rows == [] {
      assert rows + [p] == [p];
    } else {
      assert (rows + [p])[1..] == rows[1..] + [p];
      FindInAppend(rows[1..], p, id);
    }
  }

  /** Storing a row under the next identity value keeps ids unique and below
      the advanced counter, and the id was free before. */
  lemma InsertKeepsWellFormed(rows: seq<Product>, nextId: int, p: Product)
    requires WellFormed(rows, nextId)
    ensures FindIn(rows, nextId).None?
    ensures WellFormed(rows + [p.(id := nextId)], nextId + 1)
  {
  }

  class ProductStore {
    var rows: seq<Product>
    var nextId: int
    /** Round trips to the database, for telling store reads apart from cache hits. */
    ghost var queries: nat

    ghost predicate Valid()
      reads this
    {
      WellFormed(rows, nextId)
    }

    constructor ()
      ensures Valid() && rows == [] && nextId == 1 && queries == 0
    {
      rows := [];
      nextId := 1;
      queries := 0;
    }

    /** `Products.FindAsync(id)`. */
    method FindAsync(id: int) returns (r: Option<Product>)
      modifies this`queries
      ensures r == FindIn(rows, id)
      ensures queries == old(queries) + 1
    {
      r := FindIn(rows, id);
      queries := queries + 1;
    }

    /** `Products.ToListAsync()`: every row, in the order the table yields them. */
    method ToListAsync() returns (r: seq<Product>)
      modifies this`queries
      ensures r == rows
      ensures queries == old(queries) + 1
    {
      r := rows;
      queries := queries + 1;
    }

    /** `Products.Add(product)` followed by `SaveChangesAsync()`: the row is
        stored with the next identity value, which is written back into the
        product the caller holds. */
    method AddAndSave(product: Product) returns (saved: Product)
      requires Valid()
      modifies this
      ensures Valid()
      ensures saved == product.(id := old(nextId))
      ensures FindIn(old(rows), saved.id).None?
      ensures rows == old(rows) + [saved]
      ensures nextId == old(nextId) + 1
      ensures queries == old(queries) + 1
    {
      InsertKeepsWellFormed(rows, nextId, product);
      saved := product.(id := nextId);
      rows := rows + [saved];
      nextId := nextId + 1;
      queries := queries + 1;
    }
  }
}
