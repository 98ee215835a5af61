/**
 * service/SeckillService.java: the flash-sale purchase path.
 *
 * The service owns a process-local map of sold-out flags and works on the
 * seckill_product table through the mapper. A call of performSeckill runs as one
 * sequential step; LocalDateTime.now() is the parameter `now`.
 * `Seckill` is the specification of one call as a function of the state before it;
 * the class method `PerformSeckill` is the imperative code, proved equal to it.
 */
module Service {
  import opened Nullable
  import opened Products
  import opened Results
  import opened Mapper

  const SOLD_OUT_MESSAGE: string := "商品已售罄"
  const NOT_ACTIVE_MESSAGE: string := "秒杀活动未开始或已结束"
  const BUSY_MESSAGE: string := "系统繁忙，请稍后重试"

  /** The table behind the mapper together with the service's soldOutFlags map. */
  datatype ServiceState = ServiceState(table: ProductTable, soldOutFlags: map<int, bool>)

  /** The state after a call and the result it returned. */
  datatype Outcome = Outcome(state: ServiceState, result: SeckillResult<SeckillProduct>)

  /** soldOutFlags.getOrDefault(id, false) */
  function FlagOf(flags: map<int, bool>, id: int): (flagged: bool)
    ensures flagged <==> id in flags && flags[id]
  {
    if id in flags then flags[id] else false
  }

  /**
   * The service's invariant: rows are stored under their ids, every flag is true, and a
   * flagged product has no positive stock (so the flags are sound, only ever a shortcut).
   */
  ghost predicate Sound(s: ServiceState)
  {
    && WellKeyed(s.table)
    && forall id :: id in s.soldOutFlags ==>
         && s.soldOutFlags[id]
         && (id in s.table && s.table[id].stock.Some? ==> s.table[id].stock.value <= 0)
  }

  /**
   * The try block of performSeckill: the update conditional on the stock still being
   * `stockRead`, then the re-read of the row and the sold-out flag. A NullPointerException
   * while re-reading is caught and answered as busy; the update itself stays, because the
   * exception does not leave the transactional method.
   */
  function Commit(s: ServiceState, productId: int, stockRead: int): (o: Outcome)
    ensures o.result.success <==> SelectStockById(s.table, productId) == Some(stockRead)
    ensures !o.result.success ==> o == Outcome(s, Error(BUSY_MESSAGE))
    ensures o.state.soldOutFlags == s.soldOutFlags || o.state.soldOutFlags == s.soldOutFlags[productId := true]
    ensures o.result.success ==>
      var updated := s.table[productId].(stock := Some(stockRead - 1));
      && o.state.table == s.table[productId := updated]
      && o.result == Ok(Some(updated))
      && o.state.soldOutFlags ==
           if stockRead - 1 <= 0 then s.soldOutFlags[productId := true] else s.soldOutFlags
  {
    var u := UpdateStockWhere(s.table, productId, stockRead, stockRead - 1);
    if u.rows <= 0 then
      Outcome(s, Error(BUSY_MESSAGE))
    else
      var s' := s.(table := u.table);
      match SelectById(u.table, productId)
      case None => Outcome(s', Error(BUSY_MESSAGE))
      case Some(updated) =>
        match updated.stock
        case None => Outcome(s', Error(BUSY_MESSAGE))
        case Some(newStock) =>
          var flags := if newStock <= 0 then s.soldOutFlags[productId := true] else s.soldOutFlags;
          Outcome(s'.(soldOutFlags := flags), Ok(Some(updated)))
  }

  /** One call of performSeckill(productId) at time `now`. */
  function Seckill(s: ServiceState, productId: int, now: int): (o: Outcome)
    // flagged: answered at once, nothing touched
    ensures FlagOf(s.soldOutFlags, productId) ==> o == Outcome(s, Error(SOLD_OUT_MESSAGE))
    // no row, null stock or stock <= 0: flagged, table untouched
    ensures !FlagOf(s.soldOutFlags, productId) &&
            (productId !in s.table || s.table[productId].stock.None? || s.table[productId].stock.value <= 0) ==>
              o == Outcome(s.(soldOutFlags := s.soldOutFlags[productId := true]), Error(SOLD_OUT_MESSAGE))
    // stock left but outside the sale window: nothing touched
    ensures !FlagOf(s.soldOutFlags, productId) && productId in s.table &&
            s.table[productId].stock.Some? && s.table[productId].stock.value > 0 &&
            !IsActive(s.table[productId], now) ==>
              o == Outcome(s, Error(NOT_ACTIVE_MESSAGE))
    // success exactly when unflagged and active; then one unit is taken from that row only
    ensures o.result.success <==> !FlagOf(s.soldOutFlags, productId) && productId in s.table &&
                                  IsActive(s.table[productId], now)
    ensures o.result.success ==>
      var before := s.table[productId].stock.value;
      var updated := s.table[productId].(stock := Some(before - 1));
      && before - 1 >= 0
      && o.state.table == s.table[productId := updated]
      && o.result == Ok(Some(updated))
      && o.state.soldOutFlags ==
           if before - 1 == 0 then s.soldOutFlags[productId := true] else s.soldOutFlags
    // a failed call never changes the table; flags are only ever set, for this product
    ensures !o.result.success ==> o.state.table == s.table
    ensures o.state.soldOutFlags == s.soldOutFlags || o.state.soldOutFlags == s.soldOutFlags[productId := true]
    // run on its own, a call never loses the compare-and-set
    ensures o.result.message != BUSY_MESSAGE
  {
    if FlagOf(s.soldOutFlags, productId) then
      Outcome(s, Error(SOLD_OUT_MESSAGE))
    else
      var stock := SelectStockById(s.table, productId);
      if stock.None? || stock.value <= 0 then
        Outcome(s.(soldOutFlags := s.soldOutFlags[productId := true]), Error(SOLD_OUT_MESSAGE))
      else if SelectActiveSeckillProductById(s.table, productId, now).None? then
        Outcome(s, Error(NOT_ACTIVE_MESSAGE))
      else
        Commit(s, productId, stock.value)
  }

  /** Every call keeps the service's invariant. */
  lemma SeckillKeepsSound(s: ServiceState, productId: int, now: int)
    requires Sound(s)
    ensures Sound(Seckill(s, productId, now).state)
  {
  }

  class SeckillService {
    /** The seckill_product table as the mapper sees it. */
    var table: ProductTable
    /** soldOutFlags: products known to be sold out. */
    var soldOutFlags: map<int, bool>

    ghost function State(): ServiceState
      reads this
    {
      ServiceState(table, soldOutFlags)
    }

    ghost predicate Valid()
      reads this
    {
      Sound(State())
    }

    /** A fresh service over an existing table starts with no flags. */
    constructor (initial: ProductTable)
      requires WellKeyed(initial)
      ensures Valid()
      ensures table == initial && soldOutFlags == map[]
    {
      table := initial;
      soldOutFlags := map[];
    }

    /** getActiveSeckillProducts(): the rows on sale at `now`. */
    function GetActiveSeckillProducts(now: int): (rows: set<SeckillProduct>)
      reads this
      ensures rows <= table.Values
      ensures forall p :: p in rows ==> IsActive(p, now)
      ensures forall id :: id in table && IsActive(table[id], now) ==> table[id] in rows
    {
      SelectActiveSeckillProducts(table, now)
    }

    /** getSeckillProductById(id): the row with that id, whether or not it is on sale. */
    function GetSeckillProductById(id: int): (r: Option<SeckillProduct>)
      reads this
      ensures r.Some? <==> id in table
      ensures r.Some? ==> r.value == table[id]
    {
      SelectById(table, id)
    }

    /** performSeckill(productId) */
    method PerformSeckill(productId: int, now: int) returns (r: SeckillResult<SeckillProduct>)
      requires Valid()
      modifies this
      ensures Valid()
      ensures Outcome(State(), r) == Seckill(old(State()), productId, now)
    {
      ghost var s := State();
      SeckillKeepsSound(s, productId, now);
      if FlagOf(soldOutFlags, productId) {
        return Error(SOLD_OUT_MESSAGE);
      }
      var stock := SelectStockById(table, productId);
      if stock.None? || stock.value <= 0 {
        soldOutFlags := soldOutFlags[productId := true];
        return Error(SOLD_OUT_MESSAGE);
      }
      var product := SelectActiveSeckillProductById(table, productId, now);
      if product.None? {
        return Error(NOT_ACTIVE_MESSAGE);
      }
      var u := UpdateStockWhere(table, productId, stock.value, stock.value - 1);
      if u.rows <= 0 {
        return Error(BUSY_MESSAGE);
      }
      table := u.table;
      var updated := SelectById(table, productId);
      if updated.None? || updated.value.stock.None? {
        return Error(BUSY_MESSAGE);
      }
      if updated.value.stock.value <= 0 {
        soldOutFlags := soldOutFlags[productId := true];
      }
      return Ok(Some(updated.value));
    }
  }
}
