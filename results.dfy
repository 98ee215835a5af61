/** The purchase outcome returned to callers (dto/SeckillResult.java). */
module Results {
  import opened Nullable

  const OK_MESSAGE: string := "操作成功"

  /** success flag, user-facing message, and the payload (null unless built by Ok). */
  datatype SeckillResult<T> = SeckillResult(success: bool, message: string, data: Option<T>)

  /** SeckillResult.ok(data): a success carrying data and the fixed success message. */
  function Ok<T>(data: Option<T>): (r: SeckillResult<T>)
    ensures r.success
    ensures r.message == OK_MESSAGE
    ensures r.data == data
  {
    SeckillResult(true, OK_MESSAGE, data)
  }

  /** SeckillResult.error(message): a failure carrying message and no data. */
  function Error<T>(message: string): (r: SeckillResult<T>)
    ensures !r.success
    ensures r.message == message
    ensures r.data == None
  {
    SeckillResult(false, message, None)
  }

  /** A result was built by exactly one factory, and that factory's argument can be read back. */
  lemma FactoryOfResult<T>(r: SeckillResult<T>)
    requires r.success ==> r.message == OK_MESSAGE
    requires !r.success ==> r.data == None
    ensures r.success <==> r == Ok(r.data)
    ensures !r.success <==> r == Error(r.message)
  {
  }
}
