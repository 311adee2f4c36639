/**
 * The products table and the pure queries and transformations over it:
 * the batch lookup by id, the lookup by name, the `find`/`findIndex` calls the
 * services make on lists of rows and requests, and the specifications of what
 * the stock update and the ORM's `save` do to the table.
 */
module Catalog {
  import opened Wrappers

  /** Product ids are generated uuids; the model uses naturals handed out by a counter. */
  type ProductId = nat

  /** A row of the products table. Prices are whole cents; nothing keeps `quantity` non-negative. */
  datatype Product = Product(id: ProductId, name: string, price: int, quantity: int)

  /** One entry of a request: a product id and a quantity (ordered, or to subtract from stock). */
  datatype ProductRequest = ProductRequest(id: ProductId, quantity: int)

  /*
   * The ids of a list, position by position: `Ids` of table rows, `RequestedIds`
   * of request entries (the `products.map(product => product.id)` the services
   * pass to the lookups), and `Orders.ItemIds` of line items.
   */

  function Ids(rows: seq<Product>): seq<ProductId> {
    seq(|rows|, i requires 0 <= i < |rows| => rows[i].id)
  }

  function RequestedIds(requests: seq<ProductRequest>): seq<ProductId> {
    seq(|requests|, i requires 0 <= i < |requests| => requests[i].id)
  }

  function Elements<T>(s: seq<T>): set<T> {
    set x | x in s
  }

  predicate Distinct<T(==)>(s: seq<T>) {
    forall i, j :: 0 <= i < j < |s| ==> s[i] != s[j]
  }

  /** The primary-key invariant of the products table. */
  predicate UniqueIds(rows: seq<Product>) {
    Distinct(Ids(rows))
  }

  lemma IdsCons(rows: seq<Product>)
    requires rows != []
    ensures Ids(rows) == [rows[0].id] + Ids(rows[1..])
  {
  }

  /** Dropping the first row keeps ids unique. */
  lemma UniqueIdsTail(rows: seq<Product>)
    requires rows != [] && UniqueIds(rows)
    ensures UniqueIds(rows[1..])
  {
    var t := rows[1..];
    forall a, b | 0 <= a < b < |t| ensures Ids(t)[a] != Ids(t)[b] {
      assert Ids(t)[a] == Ids(rows)[a + 1] && Ids(t)[b] == Ids(rows)[b + 1];
    }
  }

  /** Putting a row whose id is new in front of unique-id rows keeps ids unique. */
  lemma UniqueIdsCons(p: Product, rows: seq<Product>)
    requires UniqueIds(rows)
    requires forall q :: q in rows ==> q.id != p.id
    ensures UniqueIds([p] + rows)
  {
    var r := [p] + rows;
    forall i, j | 0 <= i < j < |r| ensures Ids(r)[i] != Ids(r)[j] {
      assert r[j] == rows[j - 1];
      if i > 0 {
        assert r[i] == rows[i - 1];
        assert Ids(rows)[i - 1] != Ids(rows)[j - 1];
      }
    }
  }

  /** A sequence has as many distinct elements as entries exactly when no entry repeats. */
  lemma {:induction false} ElementsCard<T>(s: seq<T>)
    ensures |Elements(s)| <= |s|
    ensures |Elements(s)| == |s| <==> Distinct(s)
  {
    if s != [] {
      var t := s[1..];
      ElementsCard(t);
      assert Elements(s) == {s[0]} + Elements(t);
      if s[0] in t {
        assert Elements(s) == Elements(t);
        var j :| 0 <= j < |t| && t[j] == s[0];
        assert s[0] == s[j + 1];
      } else {
        if Distinct(t) {
          forall i, j | 0 <= i < j < |s| ensures s[i] != s[j] {
            assert s[j] == t[j - 1];
            if i > 0 { assert s[i] == t[i - 1]; }
          }
        }
        if Distinct(s) {
          forall i, j | 0 <= i < j < |t| ensures t[i] != t[j] {
            assert t[i] == s[i + 1] && t[j] == s[j + 1];
          }
        }
      }
    }
  }

  /** `findIndex` on a list of ids: the first position holding `id`, or -1. */
  function IndexOf(ids: seq<ProductId>, id: ProductId): (k: int)
    ensures -1 <= k < |ids|
    ensures k >= 0 ==> ids[k] == id && forall j :: 0 <= j < k ==> ids[j] != id
    ensures k == -1 <==> id !in ids
  {
    if ids == [] then -1
    else if ids[0] == id then 0
    else
      var k := IndexOf(ids[1..], id);
      if k == -1 then -1 else k + 1
  }

  /** `find` on a list of rows: the first row with the given id, if any. */
  function Find(rows: seq<Product>, id: ProductId): (r: Option<Product>)
    ensures r.Some? <==> id in Ids(rows)
    ensures r.Some? ==> r.value in rows && r.value.id == id
    ensures r.Some? ==> r.value == rows[IndexOf(Ids(rows), id)]
  {
    if rows == [] then None
    else
      IdsCons(rows);
      if rows[0].id == id then Some(rows[0]) else Find(rows[1..], id)
  }

  /** `findByName`: a row with the given name, or none when no row has it. */
  function FindByName(table: seq<Product>, name: string): (r: Option<Product>)
    ensures r.Some? ==> r.value in table && r.value.name == name
    ensures r.None? <==> forall p :: p in table ==> p.name != name
  {
    if table == [] then None
    else if table[0].name == name then Some(table[0])
    else FindByName(table[1..], name)
  }

  /**
   * `findAllById`: the rows whose id is among the requested ids (an SQL `IN`
   * filter), in table order. Each row is returned once however often its id is
   * requested; unknown ids are skipped.
   */
  function FindAllById(table: seq<Product>, ids: seq<ProductId>): (r: seq<Product>)
    ensures forall p :: p in r <==> p in table && p.id in ids
    ensures |r| <= |table|
  {
    if table == [] then []
    else if table[0].id in ids then [table[0]] + FindAllById(table[1..], ids)
    else FindAllById(table[1..], ids)
  }

  /** On a table with unique ids, the found rows have unique ids too. */
  lemma {:induction false} FindAllByIdUnique(table: seq<Product>, ids: seq<ProductId>)
    requires UniqueIds(table)
    ensures UniqueIds(FindAllById(table, ids))
  {
    if table != [] {
      var t := table[1..];
      IdsCons(table);
      UniqueIdsTail(table);
      FindAllByIdUnique(t, ids);
      var rest := FindAllById(t, ids);
      if table[0].id in ids {
        forall p | p in rest ensures p.id != table[0].id {
          var m :| 0 <= m < |t| && t[m] == p;
          assert Ids(table)[m + 1] == p.id && Ids(table)[0] == table[0].id;
          assert Ids(table)[0] != Ids(table)[m + 1];
        }
        UniqueIdsCons(table[0], rest);
      }
    }
  }

  /** The ids of the rows found are the requested ids that the table holds. */
  lemma FoundIds(table: seq<Product>, ids: seq<ProductId>)
    ensures Elements(Ids(FindAllById(table, ids))) == Elements(ids) * Elements(Ids(table))
  {
    var r := FindAllById(table, ids);
    forall x | x in Elements(Ids(r)) ensures x in Elements(ids) * Elements(Ids(table)) {
      var i :| 0 <= i < |r| && Ids(r)[i] == x;
      assert r[i] in r;
      var m :| 0 <= m < |table| && table[m] == r[i];
      assert Ids(table)[m] == x;
    }
    forall x | x in Elements(ids) * Elements(Ids(table)) ensures x in Elements(Ids(r)) {
      var m :| 0 <= m < |table| && Ids(table)[m] == x;
      assert table[m] in r;
      var i :| 0 <= i < |r| && r[i] == table[m];
      assert Ids(r)[i] == x;
    }
  }

  /**
   * The number of rows found is the number of distinct requested ids that the
   * table holds, so it never exceeds the number of distinct requested ids.
   */
  lemma FindAllByIdSize(table: seq<Product>, ids: seq<ProductId>)
    requires UniqueIds(table)
    ensures |FindAllById(table, ids)| == |Elements(ids) * Elements(Ids(table))|
    ensures |FindAllById(table, ids)| <= |Elements(ids)|
  {
    var r := FindAllById(table, ids);
    FindAllByIdUnique(table, ids);
    ElementsCard(Ids(r));
    FoundIds(table, ids);
    var a, b := Elements(ids), Elements(Ids(table));
    assert a == (a * b) + (a - b) && (a * b) !! (a - b);
  }

  /** Looking a requested id up among the found rows is looking it up in the table. */
  lemma {:induction false} FindInFound(table: seq<Product>, ids: seq<ProductId>, id: ProductId)
    requires id in ids
    ensures Find(FindAllById(table, ids), id) == Find(table, id)
  {
    if table != [] {
      FindInFound(table[1..], ids, id);
    }
  }

  /** In a table with unique ids, looking up a row's id finds that row. */
  lemma {:induction false} FindUnique(table: seq<Product>, j: int)
    requires UniqueIds(table)
    requires 0 <= j < |table|
    ensures Find(table, table[j].id) == Some(table[j])
  {
    if j > 0 {
      var t := table[1..];
      IdsCons(table);
      assert Ids(table)[0] != Ids(table)[j];
      UniqueIdsTail(table);
      FindUnique(t, j - 1);
    }
  }

  /** Entry `i` is the first request entry naming `id`, the one `findIndex` picks. */
  predicate FirstEntry(requests: seq<ProductRequest>, i: int, id: ProductId) {
    0 <= i < |requests| && requests[i].id == id &&
    forall m :: 0 <= m < i ==> requests[m].id != id
  }

  /** The entry `findIndex` picks for an id is the first entry naming it. */
  lemma FirstEntryIsIndexOf(requests: seq<ProductRequest>)
    ensures forall i, id :: FirstEntry(requests, i, id) <==> i >= 0 && IndexOf(RequestedIds(requests), id) == i
  {
    forall i, id | FirstEntry(requests, i, id)
      ensures IndexOf(RequestedIds(requests), id) == i
    {
      var k := IndexOf(RequestedIds(requests), id);
      assert RequestedIds(requests)[i] == id;
      assert requests[k].id == RequestedIds(requests)[k];
    }
    forall i, id | i >= 0 && IndexOf(RequestedIds(requests), id) == i
      ensures FirstEntry(requests, i, id)
    {
      forall m | 0 <= m < i ensures requests[m].id != id {
        assert requests[m].id == RequestedIds(requests)[m];
      }
      assert requests[i].id == RequestedIds(requests)[i];
    }
  }

  /** One row after `updateQuantity`: less the quantity of the first request entry with its id. */
  function Decrement(p: Product, requests: seq<ProductRequest>): (r: Product)
    ensures r.id == p.id && r.name == p.name && r.price == p.price
    ensures p.id !in RequestedIds(requests) ==> r == p
  {
    var k := IndexOf(RequestedIds(requests), p.id);
    if k >= 0 then p.(quantity := p.quantity - requests[k].quantity) else p
  }

  /** A requested row loses the quantity of the first entry naming it. */
  lemma DecrementFirstEntry(p: Product, requests: seq<ProductRequest>, i: int)
    requires FirstEntry(requests, i, p.id)
    ensures Decrement(p, requests).quantity == p.quantity - requests[i].quantity
  {
    FirstEntryIsIndexOf(requests);
  }

  /**
   * Every row decremented by the quantity of the first request entry naming it;
   * rows that no entry names, and every id, name and price, stay as they were.
   * Nothing stops a quantity from going below zero.
   */
  function DecrementAll(rows: seq<Product>, requests: seq<ProductRequest>): (r: seq<Product>)
    ensures |r| == |rows| && Ids(r) == Ids(rows)
    ensures forall j :: 0 <= j < |rows| ==>
      r[j].id == rows[j].id && r[j].name == rows[j].name && r[j].price == rows[j].price
    ensures forall j :: 0 <= j < |rows| && rows[j].id !in RequestedIds(requests) ==> r[j] == rows[j]
    ensures forall j, i :: 0 <= j < |rows| && FirstEntry(requests, i, rows[j].id) ==>
      r[j].quantity == rows[j].quantity - requests[i].quantity
  {
    FirstEntryIsIndexOf(requests);
    seq(|rows|, j requires 0 <= j < |rows| => Decrement(rows[j], requests))
  }

  /** What the ORM's `save` does with one row: overwrite the row with the same id, or append it. */
  function Upsert(table: seq<Product>, row: Product): (r: seq<Product>)
    ensures row.id in Ids(table) ==> |r| == |table| && Ids(r) == Ids(table)
    ensures row.id !in Ids(table) ==> r == table + [row]
    ensures row.id in Ids(table) ==> r[IndexOf(Ids(table), row.id)] == row
    ensures forall j :: 0 <= j < |table| && table[j].id != row.id ==> r[j] == table[j]
    ensures row in r
  {
    var k := IndexOf(Ids(table), row.id);
    if k >= 0 then table[k := row] else table + [row]
  }

  /** Upserting keeps a table's ids unique, and adds no row but the saved one. */
  lemma UpsertKeepsKeys(table: seq<Product>, row: Product)
    requires UniqueIds(table)
    ensures UniqueIds(Upsert(table, row))
    ensures forall p :: p in Upsert(table, row) ==> p == row || p in table
  {
    var r := Upsert(table, row);
    if row.id !in Ids(table) {
      forall a, b | 0 <= a < b < |r| ensures Ids(r)[a] != Ids(r)[b] {
        if b == |table| {
          assert Ids(table)[a] == Ids(r)[a];
        } else {
          assert Ids(table)[a] == Ids(r)[a] && Ids(table)[b] == Ids(r)[b];
        }
      }
    }
  }

  /**
   * `save` on a list of rows: each row upserted in turn. The rows already in
   * the table keep their places and ids; new ids are appended after them.
   */
  function UpsertAll(table: seq<Product>, rows: seq<Product>): (r: seq<Product>)
    ensures |table| <= |r| && Ids(r)[..|table|] == Ids(table)
    decreases |rows|
  {
    if rows == [] then table
    else
      var t := Upsert(table, rows[0]);
      assert Ids(t)[..|table|] == Ids(table);
      UpsertAll(t, rows[1..])
  }

  /**
   * Saving rows with unique, already present ids overwrites exactly the table
   * rows that share an id with a saved row, keeping the table's order and size.
   */
  lemma {:induction false} UpsertAllOverwrites(table: seq<Product>, rows: seq<Product>)
    requires UniqueIds(table) && UniqueIds(rows)
    requires forall p :: p in rows ==> p.id in Ids(table)
    ensures |UpsertAll(table, rows)| == |table|
    ensures forall j :: 0 <= j < |table| ==>
      UpsertAll(table, rows)[j] == if Find(rows, table[j].id).Some? then Find(rows, table[j].id).value else table[j]
    decreases |rows|
  {
    if rows != [] {
      var r0, rest := rows[0], rows[1..];
      var k := IndexOf(Ids(table), r0.id);
      var t := table[k := r0];
      assert Upsert(table, r0) == t;
      assert Ids(t) == Ids(table);
      IdsCons(rows);
      assert UniqueIds(rest) by {
        forall a, b | 0 <= a < b < |rest| ensures Ids(rest)[a] != Ids(rest)[b] {
          assert Ids(rest)[a] == Ids(rows)[a + 1] && Ids(rest)[b] == Ids(rows)[b + 1];
        }
      }
      forall b | 0 <= b < |rest| ensures Ids(rest)[b] != r0.id {
        assert Ids(rest)[b] == Ids(rows)[b + 1] && Ids(rows)[0] == r0.id;
        assert Ids(rows)[0] != Ids(rows)[b + 1];
      }
      UpsertAllOverwrites(t, rest);
      forall j | 0 <= j < |table|
        ensures UpsertAll(table, rows)[j] == if Find(rows, table[j].id).Some? then Find(rows, table[j].id).value else table[j]
      {
        if table[j].id == r0.id {
          assert Ids(table)[j] == Ids(table)[k];
          assert j == k;
        } else {
          assert t[j] == table[j];
        }
      }
    }
  }

  lemma {:induction false} FindDecrementAll(rows: seq<Product>, requests: seq<ProductRequest>, id: ProductId)
    ensures Find(DecrementAll(rows, requests), id) ==
      if Find(rows, id).Some? then Some(Decrement(Find(rows, id).value, requests)) else None
  {
    if rows != [] {
      var d := DecrementAll(rows, requests);
      assert d[1..] == DecrementAll(rows[1..], requests);
      FindDecrementAll(rows[1..], requests, id);
    }
  }

  /**
   * `updateQuantity`'s two passes, decrementing the rows `findAllById` returns
   * and then saving them, decrement the table in place: every row named by some
   * request entry loses the quantity of the first such entry, the others are kept.
   */
  lemma UpdateQuantityEffect(table: seq<Product>, requests: seq<ProductRequest>)
    requires UniqueIds(table)
    ensures UpsertAll(table, DecrementAll(FindAllById(table, RequestedIds(requests)), requests))
         == DecrementAll(table, requests)
  {
    var ids := RequestedIds(requests);
    var found := FindAllById(table, ids);
    var rows := DecrementAll(found, requests);
    FindAllByIdUnique(table, ids);
    forall p | p in rows ensures p.id in Ids(table) {
      var i :| 0 <= i < |rows| && rows[i] == p;
      assert found[i] in found;
      var m :| 0 <= m < |table| && table[m] == found[i];
      assert Ids(table)[m] == p.id;
    }
    UpsertAllOverwrites(table, rows);
    forall j | 0 <= j < |table|
      ensures UpsertAll(table, rows)[j] == DecrementAll(table, requests)[j]
    {
      var id := table[j].id;
      FindDecrementAll(found, requests, id);
      FindUnique(table, j);
      if id in ids {
        FindInFound(table, ids, id);
      } else {
        if Find(found, id).Some? {
          assert Find(found, id).value in found;
        }
      }
    }
  }

  lemma {:induction false} IndexOfAppend(ids: seq<ProductId>, x: ProductId, y: ProductId)
    requires x != y
    ensures IndexOf(ids + [x], y) == IndexOf(ids, y)
  {
    if ids != [] {
      assert (ids + [x])[1..] == ids[1..] + [x];
      IndexOfAppend(ids[1..], x, y);
    }
  }

  /** `updateQuantity` skips a request entry whose id the table does not hold. */
  lemma UnknownRequestIgnored(table: seq<Product>, requests: seq<ProductRequest>, extra: ProductRequest)
    requires extra.id !in Ids(table)
    ensures DecrementAll(table, requests + [extra]) == DecrementAll(table, requests)
  {
    var all := requests + [extra];
    assert RequestedIds(all) == RequestedIds(requests) + [extra.id];
    forall j | 0 <= j < |table|
      ensures DecrementAll(table, all)[j] == DecrementAll(table, requests)[j]
    {
      assert Ids(table)[j] == table[j].id;
      IndexOfAppend(RequestedIds(requests), extra.id, table[j].id);
      var k := IndexOf(RequestedIds(requests), table[j].id);
      if k >= 0 {
        assert all[k] == requests[k];
      }
    }
  }

  /** `updateQuantity` does not guard against negative stock: a caller that skips the check gets it. */
  lemma DecrementCanGoNegative()
    ensures DecrementAll([Product(1, "pen", 150, 1)], [ProductRequest(1, 2)])[0].quantity == -1
  {
  }
}
