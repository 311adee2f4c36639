/**
 * The products repository: an in-memory products table that the repository
 * mutates, standing in for the ORM-backed one. `findAllById` and `findByName`
 * are the pure functions `Catalog.FindAllById` and `Catalog.FindByName` of the
 * table; this class holds the operations that change it.
 */
module Repositories {
  import opened Catalog

  class ProductsRepository {
    /** The rows of the products table, in storage order. */
    var products: seq<Product>
    /** The next id the table hands out (the uuid generator). */
    var nextId: ProductId

    /** Ids are unique (the primary key) and every id handed out is below the counter. */
    ghost predicate Valid()
      reads this
    {
      UniqueIds(products) && forall p :: p in products ==> p.id < nextId
    }

    constructor ()
      ensures Valid()
      ensures products == []
    {
      products := [];
      nextId := 0;
    }

    /** A repository over an existing table, whose ids the primary key keeps unique. */
    constructor FromTable(table: seq<Product>)
      requires UniqueIds(table)
      ensures Valid()
      ensures products == table
    {
      var next: ProductId := 0;
      var i := 0;
      while i < |table|
        invariant 0 <= i <= |table|
        invariant forall j :: 0 <= j < i ==> table[j].id < next
      {
        if table[i].id >= next {
          next := table[i].id + 1;
        }
        i := i + 1;
      }
      products := table;
      nextId := next;
    }

    /** The ORM's `save`: each row overwrites the row with its id, or is appended. */
    method Save(rows: seq<Product>)
      requires Valid()
      requires forall p :: p in rows ==> p.id < nextId
      modifies this
      ensures Valid() && nextId == old(nextId)
      ensures products == UpsertAll(old(products), rows)
    {
      var i := 0;
      while i < |rows|
        invariant 0 <= i <= |rows|
        invariant Valid() && nextId == old(nextId)
        invariant UpsertAll(products, rows[i..]) == UpsertAll(old(products), rows)
      {
        assert rows[i..][1..] == rows[i + 1..];
        UpsertKeepsKeys(products, rows[i]);
        products := Upsert(products, rows[i]);
        i := i + 1;
      }
    }

    /** `create`: a new row with a fresh id and exactly the given name, price and quantity. */
    method Create(name: string, price: int, quantity: int) returns (product: Product)
      requires Valid()
      modifies this
      ensures Valid()
      ensures product.name == name && product.price == price && product.quantity == quantity
      ensures product.id !in Ids(old(products))
      ensures products == old(products) + [product]
    {
      product := Product(nextId, name, price, quantity);
      assert product.id !in Ids(products) by {
        forall j | 0 <= j < |products| ensures Ids(products)[j] != product.id {
          assert products[j] in products;
        }
      }
      nextId := nextId + 1;
      Save([product]);
      assert [product][1..] == [];
    }

    /**
     * `updateQuantity`: look up the rows the requests name, decrement each by the
     * quantity of the first request entry with its id, one row after the other,
     * then save them all. Unknown ids are skipped and nothing stops a quantity
     * from going negative. Returns the saved rows.
     */
    method UpdateQuantity(requests: seq<ProductRequest>) returns (updated: seq<Product>)
      requires Valid()
      modifies this
      ensures Valid() && nextId == old(nextId)
      ensures products == DecrementAll(old(products), requests)
      ensures updated == DecrementAll(FindAllById(old(products), RequestedIds(requests)), requests)
    {
      var found := FindAllById(products, RequestedIds(requests));
      var forUpdate: seq<Product> := [];
      var i := 0;
      while i < |found|
        invariant 0 <= i <= |found|
        invariant |forUpdate| == i
        invariant forall j :: 0 <= j < i ==> forUpdate[j] == Decrement(found[j], requests)
      {
        assert found[i] in found;
        var k := IndexOf(RequestedIds(requests), found[i].id);
        var product := found[i].(quantity := found[i].quantity - requests[k].quantity);
        assert product == Decrement(found[i], requests);
        forUpdate := forUpdate + [product];
        i := i + 1;
      }
      assert forUpdate == DecrementAll(found, requests);
      assert forall p :: p in forUpdate ==> p.id < nextId by {
        DecrementedFoundBelow(products, requests, nextId);
      }
      UpdateQuantityEffect(products, requests);
      Save(forUpdate);
      updated := forUpdate;
    }
  }

  /** The rows `updateQuantity` saves carry ids of the table, so ids below any bound on the table's. */
  lemma DecrementedFoundBelow(table: seq<Product>, requests: seq<ProductRequest>, bound: int)
    requires forall p :: p in table ==> p.id < bound
    ensures forall p :: p in DecrementAll(FindAllById(table, RequestedIds(requests)), requests) ==> p.id < bound
  {
    var found := FindAllById(table, RequestedIds(requests));
    var rows := DecrementAll(found, requests);
    forall p | p in rows ensures p.id < bound {
      var j :| 0 <= j < |rows| && rows[j] == p;
      assert found[j] in found;
    }
  }
}
