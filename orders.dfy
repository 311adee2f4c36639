/**
 * The pure part of placing an order: the out-of-stock filter, the line items,
 * and the outcome the order service reaches on a given state, together with
 * what that outcome means for the request.
 */
module Orders {
  import opened Wrappers
  import opened Catalog

  type CustomerId = string

  /** A row of `orders_products`: the product, its price when ordered, and the quantity ordered. */
  datatype LineItem = LineItem(product_id: ProductId, price: int, quantity: int)

  /** An order as the orders repository records it: the customer and the line items. */
  datatype Order = Order(customer: CustomerId, products: seq<LineItem>)

  /** The business-rule failures of order placement. */
  datatype OrderError = CustomerNotFound | ProductNotFound | InsufficientStock

  function ItemIds(items: seq<LineItem>): seq<ProductId> {
    seq(|items|, j requires 0 <= j < |items| => items[j].product_id)
  }

  /** The stock test on one request entry: its product is among `stored` and has fewer units than requested. */
  predicate Short(stored: seq<Product>, request: ProductRequest) {
    var p := Find(stored, request.id);
    p.Some? && p.value.quantity - request.quantity < 0
  }

  /** The out-of-stock filter: the request entries whose product lacks stock, in request order. */
  function OutOfStock(requests: seq<ProductRequest>, stored: seq<Product>): (r: seq<ProductRequest>)
    ensures forall q :: q in r <==> q in requests && Short(stored, q)
    ensures r == [] <==> forall i :: 0 <= i < |requests| ==> !Short(stored, requests[i])
  {
    if requests == [] then []
    else if Short(stored, requests[0]) then [requests[0]] + OutOfStock(requests[1..], stored)
    else OutOfStock(requests[1..], stored)
  }

  /**
   * The line items: one per found row, in the order the rows were found, with
   * the row's id and catalog price and the quantity of the first request entry
   * naming it.
   */
  function OrderedProducts(stored: seq<Product>, requests: seq<ProductRequest>): (items: seq<LineItem>)
    requires forall p :: p in stored ==> p.id in RequestedIds(requests)
    ensures |items| == |stored|
    ensures forall j :: 0 <= j < |stored| ==>
      items[j].product_id == stored[j].id && items[j].price == stored[j].price
    ensures forall j, i :: 0 <= j < |stored| && FirstEntry(requests, i, stored[j].id) ==>
      items[j].quantity == requests[i].quantity
  {
    FirstEntryIsIndexOf(requests);
    seq(|stored|, j requires 0 <= j < |stored| =>
      assert stored[j] in stored;
      var k := IndexOf(RequestedIds(requests), stored[j].id);
      LineItem(stored[j].id, stored[j].price, requests[k].quantity))
  }

  /**
   * The outcome of placing an order on the given state: the customer must be
   * known, every request entry must have its own catalog row, and no entry may
   * ask for more than its row holds; then the order carries the line items.
   */
  function OrderOutcome(customers: set<CustomerId>, table: seq<Product>, customerId: CustomerId,
                        requests: seq<ProductRequest>): (r: Result<Order, OrderError>)
    ensures customerId !in customers ==> r == Failure(CustomerNotFound)
    ensures r.Success? ==> r.value.customer == customerId && |r.value.products| == |requests|
  {
    if customerId !in customers then Failure(CustomerNotFound)
    else
      var stored := FindAllById(table, RequestedIds(requests));
      if |stored| != |requests| then Failure(ProductNotFound)
      else if |OutOfStock(requests, stored)| > 0 then Failure(InsufficientStock)
      else Success(Order(customerId, OrderedProducts(stored, requests)))
  }

  /** The catalog row for the entry's product exists and holds at least the requested quantity. */
  predicate InStock(table: seq<Product>, request: ProductRequest) {
    var p := Find(table, request.id);
    p.Some? && request.quantity <= p.value.quantity
  }

  /** Each request entry names a different product, and every one is in the catalog. */
  predicate AllFoundOnce(table: seq<Product>, requests: seq<ProductRequest>) {
    Distinct(RequestedIds(requests)) && forall i :: 0 <= i < |requests| ==> requests[i].id in Ids(table)
  }

  /** The line item records the entry's product and quantity and the product's catalog price. */
  predicate Matches(table: seq<Product>, request: ProductRequest, item: LineItem) {
    item.product_id == request.id && item.quantity == request.quantity &&
    Find(table, request.id).Some? && item.price == Find(table, request.id).value.price
  }

  /**
   * The count check: as many rows are found as there are request entries exactly
   * when no product id repeats in the request and every one is in the catalog.
   */
  lemma CountCheck(table: seq<Product>, requests: seq<ProductRequest>)
    requires UniqueIds(table)
    ensures |FindAllById(table, RequestedIds(requests))| == |requests| <==> AllFoundOnce(table, requests)
  {
    var ids := RequestedIds(requests);
    var a, b := Elements(ids), Elements(Ids(table));
    FindAllByIdSize(table, ids);
    ElementsCard(ids);
    assert a == (a * b) + (a - b) && (a * b) !! (a - b);
    if forall i :: 0 <= i < |requests| ==> requests[i].id in Ids(table) {
      assert a * b == a by {
        forall x | x in a ensures x in b {
          var i :| 0 <= i < |ids| && ids[i] == x;
        }
      }
    } else {
      var i :| 0 <= i < |requests| && requests[i].id !in Ids(table);
      assert ids[i] in a - b;
    }
  }

  /** Every way `OrderOutcome` can end, and the condition that leads to each. */
  lemma OrderOutcomeCases(customers: set<CustomerId>, table: seq<Product>, customerId: CustomerId,
                          requests: seq<ProductRequest>)
    requires UniqueIds(table)
    ensures customerId !in customers ==>
      OrderOutcome(customers, table, customerId, requests) == Failure(CustomerNotFound)
    ensures customerId in customers && !AllFoundOnce(table, requests) ==>
      OrderOutcome(customers, table, customerId, requests) == Failure(ProductNotFound)
    ensures customerId in customers && AllFoundOnce(table, requests) &&
            (exists i :: 0 <= i < |requests| && !InStock(table, requests[i])) ==>
      OrderOutcome(customers, table, customerId, requests) == Failure(InsufficientStock)
    ensures OrderOutcome(customers, table, customerId, requests).Success? <==>
      customerId in customers && AllFoundOnce(table, requests) &&
      forall i :: 0 <= i < |requests| ==> InStock(table, requests[i])
  {
    var ids := RequestedIds(requests);
    var stored := FindAllById(table, ids);
    CountCheck(table, requests);
    if customerId in customers && AllFoundOnce(table, requests) {
      forall i | 0 <= i < |requests| ensures Short(stored, requests[i]) <==> !InStock(table, requests[i]) {
        assert ids[i] == requests[i].id;
        FindInFound(table, ids, requests[i].id);
      }
    }
  }

  /** A request for a product id the catalog does not hold fails as "not found". */
  lemma UnknownProductRejected(customers: set<CustomerId>, table: seq<Product>, customerId: CustomerId,
                               requests: seq<ProductRequest>, i: int)
    requires UniqueIds(table) && customerId in customers
    requires 0 <= i < |requests| && requests[i].id !in Ids(table)
    ensures OrderOutcome(customers, table, customerId, requests) == Failure(ProductNotFound)
  {
    OrderOutcomeCases(customers, table, customerId, requests);
  }

  /**
   * A request naming one product twice fails as "not found": the `IN` lookup
   * returns that row once, so fewer rows come back than entries were sent.
   */
  lemma DuplicateRejected(customers: set<CustomerId>, table: seq<Product>, customerId: CustomerId,
                          requests: seq<ProductRequest>, i: int, j: int)
    requires UniqueIds(table) && customerId in customers
    requires 0 <= i < j < |requests| && requests[i].id == requests[j].id
    ensures |FindAllById(table, RequestedIds(requests))| < |requests|
    ensures OrderOutcome(customers, table, customerId, requests) == Failure(ProductNotFound)
  {
    var ids := RequestedIds(requests);
    assert ids[i] == ids[j];
    FindAllByIdSize(table, ids);
    ElementsCard(ids);
  }

  /** The request entry that the line item built from found row `j` comes from. */
  lemma EntryOfItem(table: seq<Product>, requests: seq<ProductRequest>, stored: seq<Product>, j: int)
    returns (i: int)
    requires UniqueIds(table)
    requires stored == FindAllById(table, RequestedIds(requests))
    requires 0 <= j < |stored|
    ensures 0 <= i < |requests| && Matches(table, requests[i], OrderedProducts(stored, requests)[j])
  {
    var ids := RequestedIds(requests);
    assert stored[j] in stored;
    var m :| 0 <= m < |table| && table[m] == stored[j];
    FindUnique(table, m);
    i := IndexOf(ids, stored[j].id);
    FirstEntryIsIndexOf(requests);
    assert FirstEntry(requests, i, stored[j].id);
    assert requests[i].id == ids[i];
  }

  /** The line item, among those built from the found rows, that comes from entry `i`. */
  lemma ItemOfEntry(table: seq<Product>, requests: seq<ProductRequest>, stored: seq<Product>, i: int)
    returns (j: int)
    requires UniqueIds(table) && AllFoundOnce(table, requests)
    requires stored == FindAllById(table, RequestedIds(requests))
    requires 0 <= i < |requests|
    ensures 0 <= j < |stored| && Matches(table, requests[i], OrderedProducts(stored, requests)[j])
  {
    var ids := RequestedIds(requests);
    var m :| 0 <= m < |table| && Ids(table)[m] == requests[i].id;
    assert ids[i] == requests[i].id;
    assert table[m] in stored;
    j :| 0 <= j < |stored| && stored[j] == table[m];
    FindUnique(table, m);
    assert FirstEntry(requests, i, stored[j].id) by {
      forall n | 0 <= n < i ensures requests[n].id != requests[i].id {
        assert ids[n] != ids[i];
      }
    }
  }

  /**
   * When the entries name distinct catalog products, the line items built from
   * the found rows match the entries one to one.
   */
  lemma ItemsMatchEntries(table: seq<Product>, requests: seq<ProductRequest>, stored: seq<Product>,
                          items: seq<LineItem>)
    requires UniqueIds(table) && AllFoundOnce(table, requests)
    requires stored == FindAllById(table, RequestedIds(requests))
    requires items == OrderedProducts(stored, requests)
    ensures |items| == |requests| && Distinct(ItemIds(items))
    ensures forall i :: 0 <= i < |requests| ==>
      exists j :: 0 <= j < |items| && Matches(table, requests[i], items[j])
    ensures forall j :: 0 <= j < |items| ==>
      exists i :: 0 <= i < |requests| && Matches(table, requests[i], items[j])
  {
    CountCheck(table, requests);
    assert |items| == |stored| == |requests|;
    forall j | 0 <= j < |items|
      ensures exists i :: 0 <= i < |requests| && Matches(table, requests[i], items[j])
    {
      var i := EntryOfItem(table, requests, stored, j);
      assert Matches(table, requests[i], items[j]);
    }
    forall i | 0 <= i < |requests|
      ensures exists j :: 0 <= j < |items| && Matches(table, requests[i], items[j])
    {
      var j := ItemOfEntry(table, requests, stored, i);
      assert Matches(table, requests[i], items[j]);
    }
    FindAllByIdUnique(table, RequestedIds(requests));
    forall a, b | 0 <= a < b < |items| ensures ItemIds(items)[a] != ItemIds(items)[b] {
      assert Ids(stored)[a] != Ids(stored)[b];
    }
  }

  /**
   * An accepted order belongs to the customer and has exactly one line item per
   * request entry: the entry's product and quantity at the catalog price.
   */
  lemma LineItemsMatchRequest(customers: set<CustomerId>, table: seq<Product>, customerId: CustomerId,
                              requests: seq<ProductRequest>, order: Order)
    requires UniqueIds(table)
    requires OrderOutcome(customers, table, customerId, requests) == Success(order)
    ensures order.customer == customerId
    ensures |order.products| == |requests| && Distinct(ItemIds(order.products))
    ensures forall i :: 0 <= i < |requests| ==>
      exists j :: 0 <= j < |order.products| && Matches(table, requests[i], order.products[j])
    ensures forall j :: 0 <= j < |order.products| ==>
      exists i :: 0 <= i < |requests| && Matches(table, requests[i], order.products[j])
  {
    var ids := RequestedIds(requests);
    var stored := FindAllById(table, ids);
    assert customerId in customers;
    assert |stored| == |requests|;
    assert |OutOfStock(requests, stored)| == 0;
    assert order == Order(customerId, OrderedProducts(stored, requests));
    assert AllFoundOnce(table, requests) by {
      CountCheck(table, requests);
    }
    ItemsMatchEntries(table, requests, stored, order.products);
  }

  /**
   * After an accepted order, each requested product's stock is its old stock
   * less the requested quantity, and is not negative; the other rows keep theirs.
   */
  lemma StockAfterOrder(customers: set<CustomerId>, table: seq<Product>, customerId: CustomerId,
                        requests: seq<ProductRequest>)
    requires UniqueIds(table)
    requires OrderOutcome(customers, table, customerId, requests).Success?
    ensures forall j, i :: 0 <= j < |table| && 0 <= i < |requests| && requests[i].id == table[j].id ==>
      DecrementAll(table, requests)[j].quantity == table[j].quantity - requests[i].quantity >= 0
    ensures forall j :: 0 <= j < |table| && table[j].id !in RequestedIds(requests) ==>
      DecrementAll(table, requests)[j] == table[j]
  {
    var ids := RequestedIds(requests);
    OrderOutcomeCases(customers, table, customerId, requests);
    forall j, i | 0 <= j < |table| && 0 <= i < |requests| && requests[i].id == table[j].id
      ensures DecrementAll(table, requests)[j].quantity == table[j].quantity - requests[i].quantity >= 0
    {
      assert FirstEntry(requests, i, table[j].id) by {
        forall n | 0 <= n < i ensures requests[n].id != table[j].id {
          assert ids[n] != ids[i];
        }
      }
      FindUnique(table, j);
      assert InStock(table, requests[i]);
    }
  }

  /** One pen in stock at 10.00 with five units: ordering three succeeds and leaves two. */
  lemma OrderWithinStock()
    ensures OrderOutcome({"c1"}, [Product(7, "pen", 1000, 5)], "c1", [ProductRequest(7, 3)])
         == Success(Order("c1", [LineItem(7, 1000, 3)]))
    ensures DecrementAll([Product(7, "pen", 1000, 5)], [ProductRequest(7, 3)]) == [Product(7, "pen", 1000, 2)]
  {
    var table, requests := [Product(7, "pen", 1000, 5)], [ProductRequest(7, 3)];
    assert RequestedIds(requests) == [7];
    assert FindAllById(table, [7]) == table;
    assert Find(table, 7) == Some(table[0]);
    assert OutOfStock(requests, table) == [];
    assert IndexOf([7], 7) == 0;
    assert OrderedProducts(table, requests) == [LineItem(7, 1000, 3)];
    assert OrderOutcome({"c1"}, table, "c1", requests) == Success(Order("c1", OrderedProducts(table, requests)));
  }

  /** The same state: ordering six fails as out of stock. */
  lemma OrderBeyondStock()
    ensures OrderOutcome({"c1"}, [Product(7, "pen", 1000, 5)], "c1", [ProductRequest(7, 6)])
         == Failure(InsufficientStock)
  {
    var table, requests := [Product(7, "pen", 1000, 5)], [ProductRequest(7, 6)];
    assert RequestedIds(requests) == [7];
    assert FindAllById(table, [7]) == table;
    assert requests[0] in OutOfStock(requests, table);
  }
}
