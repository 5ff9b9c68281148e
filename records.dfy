/** The records the store's code reads and writes. Prices are integer cents
    (the source keeps them in a `double`). */
module Records {
  import opened JavaLang

  /** A row of the MySQL `products` table, as `findProductById` reads it. */
  datatype Product = Product(name: string, description: string, price: int, stock: int32)

  /** A document of the MongoDB `orders` collection: the fields `createOrder`
      writes, and the `_id` the driver assigns on insert. Dates are millisecond
      timestamps. */
  datatype OrderDoc = OrderDoc(
    objectId: string,
    orderId: string,
    userId: int32,
    productId: int32,
    quantity: int32,
    orderDate: int,
    status: string,
    productPrice: int)

  /** Order.java: an order as the lookups hand it back (without the price). */
  datatype Order = Order(
    orderId: string,
    userId: int32,
    productId: int32,
    quantity: int32,
    orderDate: int,
    status: string)

  /** SalesData.java: one line of the sales report. */
  datatype SalesData = SalesData(
    productId: int32,
    productName: string,
    totalQuantitySold: int,
    totalSalesAmount: int)

  /** PaymentMethod.java; either field may be `null`. */
  datatype PaymentMethod = PaymentMethod(paymentType: Option<string>, details: Option<string>)
}
