/**
 * The order-placement service. The customers repository is the set of known
 * customer ids and the orders repository the sequence of recorded orders; the
 * products repository is the stateful table of module Repositories.
 */
module OrderService {
  import opened Wrappers
  import opened Catalog
  import opened Orders
  import opened Repositories

  class CreateOrderService {
    /** The ids the customers repository finds. */
    var customers: set<CustomerId>
    /** The orders the orders repository has recorded, oldest first. */
    var orders: seq<Order>
    const productsRepository: ProductsRepository

    ghost predicate Valid()
      reads this, productsRepository
    {
      productsRepository.Valid()
    }

    constructor (customers: set<CustomerId>, orders: seq<Order>, productsRepository: ProductsRepository)
      requires productsRepository.Valid()
      ensures Valid()
      ensures this.customers == customers && this.orders == orders
      ensures this.productsRepository == productsRepository
    {
      this.customers := customers;
      this.orders := orders;
      this.productsRepository := productsRepository;
    }

    /**
     * `execute`: check the customer, look the requested products up in one batch,
     * check that each entry found its own row and that none asks for more than
     * the row holds, record the order with the catalog prices, then decrement
     * the stock by the request. Any failure leaves every repository unchanged;
     * on success exactly one order is appended and returned.
     */
    method Execute(customerId: CustomerId, requests: seq<ProductRequest>) returns (r: Result<Order, OrderError>)
      requires Valid()
      modifies this, productsRepository
      ensures Valid()
      ensures customers == old(customers) && productsRepository.nextId == old(productsRepository.nextId)
      ensures r == OrderOutcome(old(customers), old(productsRepository.products), customerId, requests)
      ensures r.Failure? ==>
        orders == old(orders) && productsRepository.products == old(productsRepository.products)
      ensures r.Success? ==>
        orders == old(orders) + [r.value] &&
        productsRepository.products == DecrementAll(old(productsRepository.products), requests)
    {
      if customerId !in customers {
        return Failure(CustomerNotFound);
      }
      var storedProducts := FindAllById(productsRepository.products, RequestedIds(requests));
      if |storedProducts| != |requests| {
        return Failure(ProductNotFound);
      }
      var outOfStock := OutOfStock(requests, storedProducts);
      if |outOfStock| > 0 {
        return Failure(InsufficientStock);
      }
      var order := Order(customerId, OrderedProducts(storedProducts, requests));
      orders := orders + [order];
      var _ := productsRepository.UpdateQuantity(requests);
      return Success(order);
    }
  }
}
