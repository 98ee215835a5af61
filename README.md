# Flash-sale purchase path, modelled in Dafny

This project models the purchase path of a small flash-sale ("seckill") shop service.
A buyer asks to buy one unit of a product. The service answers with a `SeckillResult`
(success flag, message, data). It must never sell more units than the product had.

What is modelled:

- **The product row** (`Products`): one `SeckillProduct` per row of the `seckill_product`
  table. Every nullable column is an `Option`. The table is a map from id to row.
- **The mapper** (`Mapper`): the three SQL queries of the mapper interface, and the two
  inherited operations the service uses. These are `selectById` and the update that is
  conditional on the stock still being the value read. A SQL comparison with NULL is never
  true, and the model keeps that rule. Both ends of the sale window are inclusive.
- **The result DTO** (`Results`): the `ok` and `error` factories.
- **The service** (`Service`): `performSeckill` as the class method
  `SeckillService.PerformSeckill`. It updates two fields: the table and the process-local
  `soldOutFlags` map. The method is proved equal to the function `Seckill`, which gives
  one call's outcome from the state before it. `Commit` is the compare-and-set tail of
  the call (the `try` block).
- **Histories** (`History`): runs of many attempts. An attempt is a whole call, or the
  late update half of a call whose stock read happened before other calls ran
  (`LateCommit`). The second kind models calls that overlap at the one race guard the
  code has: the update's `stock = <value read>` condition. Over every such run the model
  proves no oversell and sold-out stickiness.

Flags are never cleared (`History.FlagsNeverCleared`), and a flag is set even for an id
with no row. `Service.Seckill` answers a flagged id "商品已售罄" whatever its row holds.
So if the row later gains stock, or is inserted, by means outside this service, the
product stays refused as sold out until the process restarts.

The clock is an integer parameter `now`, standing for `LocalDateTime.now()`.

The repository also holds Redis helpers for a cache-first variant (atomic counter, warm-up,
write-back queue). Nothing on the purchase path calls them, so this model follows the code,
which reads and writes the database directly.

## Model

| member | source | states |
|---|---|---|
| `Results.Ok` | src/main/java/com/tom/shop/dto/SeckillResult.java:11-17 | the result has success true, the message "操作成功", and exactly the given data |
| `Results.Error` | src/main/java/com/tom/shop/dto/SeckillResult.java:19-24 | the result has success false, exactly the given message, and null data |
| `Results.FactoryOfResult` | src/main/java/com/tom/shop/dto/SeckillResult.java:11-24 | any result shaped like a factory output is `Ok` of its data exactly when it succeeded, and `Error` of its message exactly when it failed |
| `Mapper.SelectActiveSeckillProducts` | src/main/java/com/tom/shop/mapper/SeckillProductMapper.java:16-17 | every returned row is in the table and active at `now`, and every active row of the table is returned |
| `Mapper.SelectActiveSeckillProductById` | src/main/java/com/tom/shop/mapper/SeckillProductMapper.java:22-23 | non-null exactly when the row with that id exists and is active, and then it is that row |
| `Mapper.SelectStockById` | src/main/java/com/tom/shop/mapper/SeckillProductMapper.java:28-29 | non-null exactly when the row exists and its stock is non-null, and then it is that stock |
| `Mapper.SelectById` | src/main/java/com/tom/shop/service/SeckillService.java:34-36 | non-null exactly when the row exists, and then it is that row |
| `Mapper.UpdateStockWhere` | src/main/java/com/tom/shop/service/SeckillService.java:56-60 | one row changes exactly when the stored stock equals the expected value, and otherwise none does; only that row's stock is written and no row is added or removed |
| `Mapper.WindowBoundsInclusive` | src/main/java/com/tom/shop/mapper/SeckillProductMapper.java:16-23 | a row with stock whose window starts or ends exactly at `now` is returned by both active queries |
| `Mapper.InactiveNeverReturned` | src/main/java/com/tom/shop/mapper/SeckillProductMapper.java:16-23 | a row not yet started, already ended, or with stock ≤ 0 is returned by neither active query |
| `Mapper.ActiveByIdAgreesWithList` | src/main/java/com/tom/shop/mapper/SeckillProductMapper.java:16-23 | on a table keyed by id, the by-id active query returns a row exactly when the list query contains it with that id |
| `Mapper.UpdateThenSelectStock` | src/main/java/com/tom/shop/service/SeckillService.java:56-65 | after the conditional update the table is still keyed by id, and the stock query reads the new value when a row changed and the old one otherwise |
| `Service.FlagOf` | src/main/java/com/tom/shop/service/SeckillService.java:43 | `getOrDefault(id, false)` is true exactly when the id is present with a true flag |
| `Service.Commit` | src/main/java/com/tom/shop/service/SeckillService.java:55-71 | succeeds exactly when the stored stock still equals the value read, and otherwise answers "系统繁忙，请稍后重试" with nothing changed; on success the row's stock is one less, the result carries the re-read row, and the flag is set exactly when the new stock is ≤ 0 |
| `Service.Seckill` | src/main/java/com/tom/shop/service/SeckillService.java:42-72 | a flagged product is answered "商品已售罄" with nothing changed; a missing row, null stock or stock ≤ 0 sets the flag and answers "商品已售罄"; stock outside the window answers "秒杀活动未开始或已结束" with nothing changed; success happens exactly for an unflagged active product, takes one unit from that row only, and never takes the stock below 0; failures never change the table; flags are only ever set; a call on its own never gets the busy answer |
| `Service.SeckillKeepsSound` | src/main/java/com/tom/shop/service/SeckillService.java:22-72 | every call keeps the invariant: rows keyed by id, every flag true, and no flagged product has positive stock |
| `Service.SeckillService.constructor` | src/main/java/com/tom/shop/service/SeckillService.java:19-22 | a new service works on the given table with an empty flag map, and its invariant holds |
| `Service.SeckillService.GetActiveSeckillProducts` | src/main/java/com/tom/shop/service/SeckillService.java:27-29 | returns exactly the table's rows that are active at `now` |
| `Service.SeckillService.GetSeckillProductById` | src/main/java/com/tom/shop/service/SeckillService.java:34-36 | returns the row with that id whether or not it is on sale, or null when there is none |
| `Service.SeckillService.PerformSeckill` | src/main/java/com/tom/shop/service/SeckillService.java:42-72 | the step-by-step code with its early returns leaves the table, the flags and the result exactly as `Seckill` prescribes, and keeps the invariant |
| `History.StepStock` | src/main/java/com/tom/shop/service/SeckillService.java:46-61 | one attempt takes at most one unit from a product, only when it succeeds on that product, and only from stock ≥ 1 |
| `History.NoOversell` | src/main/java/com/tom/shop/service/SeckillService.java:46-61 | over any run of calls and late updates, the final stock is the initial stock minus the successes, and the successes never exceed the initial stock (zero when it was not positive) |
| `History.ApplyKeepsSound` | src/main/java/com/tom/shop/service/SeckillService.java:43-67 | a whole call or a late update keeps the invariant |
| `History.SoldOutIsSticky` | src/main/java/com/tom/shop/service/SeckillService.java:43-67 | once a product is flagged, the flag stays, its row never changes, no attempt on it succeeds, and every later call on it answers "商品已售罄" |
| `History.FlagsNeverCleared` | src/main/java/com/tom/shop/service/SeckillService.java:22-67 | over any run, a flag that was set is still set at the end |
| `History.SequentialCallsNeverBusy` | src/main/java/com/tom/shop/service/SeckillService.java:56-62 | a run of whole calls that do not overlap never gets the busy answer |
| `History.StaleReadLosesRace` | src/main/java/com/tom/shop/service/SeckillService.java:56-62 | a late update whose stock read is stale answers busy and changes nothing |
| `History.ThreeUnitsFiveCalls` | src/main/java/com/tom/shop/service/SeckillService.java:42-72 | with 3 units on sale, five calls give three successes leaving 2, 1 and 0 units, then two sold-out answers; the product ends with stock 0 and flagged |

## Left out

- The cache-first variant (Redis stock counter, warm-up, reconciliation, write-back queue) is not modelled: the purchase path never calls the Redis helpers.
- `RedisService`, `RedisCacheHelper`, `RedisConfig` and `MyBatisConfig` are library wrappers and wiring, and nothing in the purchase path calls them.
- The HTTP controllers are routing only. `GET /product/{id}` turns a null product into not-found; the model stops at `GetSeckillProductById` returning `None`.
- Real thread concurrency, `ConcurrentHashMap` and the database isolation level are not modelled. Calls run one after another. Overlap appears only as `LateCommit`, an update whose stock read is older than the current table. The window check and the re-read are not interleaved with other calls.
- `@Transactional` rollback is not modelled. No failure in the model escapes the method, so nothing would roll back.
- The catch-all at SeckillService.java:69-70 is modelled only for a null row or a null stock after the update. Both are unreachable in the model. Database errors and other runtime exceptions are not modelled.
- Wall-clock time is the parameter `now`. `LocalDateTime` values are integers, with no calendar or time zone.
- Price (`BigDecimal`) is kept as unscaled value and scale and never computed with.
- The `@Version` column is never written: the update passes a null entity, so the optimistic-lock plugin has nothing to advance.
- Stock and ids are unbounded integers. Java's 32-bit `Integer` and 64-bit `Long` cannot wrap here, because the only arithmetic is `stock - 1` on a positive stock.
- `Mapper.SelectActiveSeckillProducts` returns a set, because the SQL has no ORDER BY and the row order of the returned list is unspecified.
- The service never inserts or deletes products, and ids come from `IdType.AUTO`, so in the model the table changes only through the purchase update.
