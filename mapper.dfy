/**
 * The queries of mapper/SeckillProductMapper.java and the two BaseMapper operations the
 * service uses (selectById and a conditional update), as functions over the table.
 * SQL compares NULL with anything as not true, so a row whose compared column is null
 * never satisfies a WHERE condition on that column.
 */
module Mapper {
  import opened Nullable
  import opened Products

  /** WHERE start_time <= now AND end_time >= now AND stock > 0 */
  predicate IsActive(p: SeckillProduct, now: int)
  {
    && p.startTime.Some? && p.startTime.value <= now
    && p.endTime.Some? && p.endTime.value >= now
    && p.stock.Some? && p.stock.value > 0
  }

  /** selectActiveSeckillProducts(now). SQL gives no row order, so the rows are a set. */
  function SelectActiveSeckillProducts(table: ProductTable, now: int): (rows: set<SeckillProduct>)
    ensures rows <= table.Values
    ensures forall p :: p in rows ==> IsActive(p, now)
    ensures forall id :: id in table && IsActive(table[id], now) ==> table[id] in rows
  {
    set id | id in table && IsActive(table[id], now) :: table[id]
  }

  /** selectActiveSeckillProductById(id, now): the row with that id when it is active, else null. */
  function SelectActiveSeckillProductById(table: ProductTable, id: int, now: int): (r: Option<SeckillProduct>)
    ensures r.Some? <==> id in table && IsActive(table[id], now)
    ensures r.Some? ==> r.value == table[id]
  {
    if id in table && IsActive(table[id], now) then Some(table[id]) else None
  }

  /** selectStockById(id): the stock column of the row with that id; null when there is no row or the column is null. */
  function SelectStockById(table: ProductTable, id: int): (r: Option<int>)
    ensures r.Some? <==> id in table && table[id].stock.Some?
    ensures r.Some? ==> r.value == table[id].stock.value
  {
    if id in table then table[id].stock else None
  }

  /** BaseMapper.selectById(id). */
  function SelectById(table: ProductTable, id: int): (r: Option<SeckillProduct>)
    ensures r.Some? <==> id in table
    ensures r.Some? ==> r.value == table[id]
  {
    if id in table then Some(table[id]) else None
  }

  datatype UpdateResult = UpdateResult(table: ProductTable, rows: int)

  /**
   * BaseMapper.update(null, wrapper) with wrapper
   *   eq("id", id).eq("stock", expected).set("stock", newStock):
   * UPDATE seckill_product SET stock = newStock WHERE id = id AND stock = expected.
   * With a null entity no version column is written.
   */
  function UpdateStockWhere(table: ProductTable, id: int, expected: int, newStock: int): (u: UpdateResult)
    ensures u.rows == 0 || u.rows == 1
    ensures u.rows == 1 <==> SelectStockById(table, id) == Some(expected)
    ensures u.table.Keys == table.Keys
    ensures u.rows == 0 ==> u.table == table
    ensures u.rows == 1 ==> u.table[id] == table[id].(stock := Some(newStock))
    ensures forall k :: k in table && k != id ==> u.table[k] == table[k]
  {
    if id in table && table[id].stock == Some(expected) then
      UpdateResult(table[id := table[id].(stock := Some(newStock))], 1)
    else
      UpdateResult(table, 0)
  }

  /** Both ends of the sale window are inclusive: a product with stock whose window starts or ends exactly at now is listed. */
  lemma WindowBoundsInclusive(table: ProductTable, id: int, now: int)
    requires id in table
    requires table[id].startTime.Some? && table[id].endTime.Some? && table[id].stock.Some?
    requires table[id].startTime.value <= now <= table[id].endTime.value
    requires table[id].startTime.value == now || table[id].endTime.value == now
    requires table[id].stock.value > 0
    ensures table[id] in SelectActiveSeckillProducts(table, now)
    ensures SelectActiveSeckillProductById(table, id, now) == Some(table[id])
  {
  }

  /** A row that has not started, has ended, or has no positive stock is returned by neither active query. */
  lemma InactiveNeverReturned(table: ProductTable, id: int, now: int)
    requires id in table
    requires var p := table[id];
      || (p.startTime.Some? && p.startTime.value > now)
      || (p.endTime.Some? && p.endTime.value < now)
      || (p.stock.Some? && p.stock.value <= 0)
    ensures table[id] !in SelectActiveSeckillProducts(table, now)
    ensures SelectActiveSeckillProductById(table, id, now) == None
  {
  }

  /** On a well-keyed table the by-id active query agrees with the list query. */
  lemma ActiveByIdAgreesWithList(table: ProductTable, id: int, now: int)
    requires WellKeyed(table)
    ensures forall p :: SelectActiveSeckillProductById(table, id, now) == Some(p) <==>
                        p in SelectActiveSeckillProducts(table, now) && p.id == id
  {
  }

  /** After a matching conditional update, the stock query reads the new value; the table stays well keyed. */
  lemma UpdateThenSelectStock(table: ProductTable, id: int, expected: int, newStock: int)
    requires WellKeyed(table)
    ensures var u := UpdateStockWhere(table, id, expected, newStock);
      && WellKeyed(u.table)
      && SelectStockById(u.table, id) == (if u.rows == 1 then Some(newStock) else SelectStockById(table, id))
  {
  }
}
