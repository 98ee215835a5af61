/**
 * The seckill_product row (model/SeckillProduct.java) and the table that holds such rows.
 * Every column except the key is nullable in Java, so each is an Option.
 * LocalDateTime values are instants on an integer clock; BigDecimal is kept as
 * unscaled value and scale and never computed with.
 */
module Products {
  import opened Nullable

  datatype Decimal = Decimal(unscaled: int, scale: int)

  datatype SeckillProduct = SeckillProduct(
    id: int,
    name: Option<string>,
    description: Option<string>,
    price: Option<Decimal>,
    stock: Option<int>,
    startTime: Option<int>,
    endTime: Option<int>,
    createdAt: Option<int>,
    version: Option<int>
  )

  /** The seckill_product table, keyed by the primary-key column id. */
  type ProductTable = map<int, SeckillProduct>

  /** Each row is stored under its own id (the primary key). */
  ghost predicate WellKeyed(table: ProductTable)
  {
    forall id :: id in table ==> table[id].id == id
  }
}
