/**
 * Sequences of purchase attempts against one service, and what holds over all of them.
 *
 * An attempt is either a whole call of performSeckill, or the update half of a call whose
 * stock read and window check happened earlier (its stock read may be stale because
 * other calls ran in between). The second kind is how calls overlap at the one point
 * where the source guards against a race: the update conditional on the stock read.
 */
module History {
  import opened Nullable
  import opened Products
  import opened Results
  import opened Mapper
  import opened Service

  datatype Attempt =
    | Call(productId: int, now: int)
    | LateCommit(productId: int, stockRead: int)

  /** A late update belongs to a call that got past the stock check, so its read was positive. */
  predicate Admissible(a: Attempt)
  {
    a.LateCommit? ==> a.stockRead > 0
  }

  function Apply(s: ServiceState, a: Attempt): Outcome
  {
    match a
    case Call(id, now) => Seckill(s, id, now)
    case LateCommit(id, stockRead) => Commit(s, id, stockRead)
  }

  datatype Run = Run(final: ServiceState, results: seq<SeckillResult<SeckillProduct>>)

  /** Runs the attempts one after the other; one result per attempt, in order. */
  function RunAll(s: ServiceState, attempts: seq<Attempt>): (r: Run)
    ensures |r.results| == |attempts|
    decreases |attempts|
  {
    if attempts == [] then Run(s, [])
    else
      var o := Apply(s, attempts[0]);
      var rest := RunAll(o.state, attempts[1..]);
      Run(rest.final, [o.result] + rest.results)
  }

  /** How many of the attempts on `id` succeeded. */
  function Successes(attempts: seq<Attempt>, results: seq<SeckillResult<SeckillProduct>>, id: int): nat
    requires |results| == |attempts|
    decreases |attempts|
  {
    if attempts == [] then 0
    else
      (if attempts[0].productId == id && results[0].success then 1 else 0)
      + Successes(attempts[1..], results[1..], id)
  }

  /** One attempt takes at most one unit from `id`, only when it succeeds on `id`, and only from positive stock. */
  lemma StepStock(s: ServiceState, a: Attempt, id: int, stock: int)
    requires Admissible(a)
    requires id in s.table && s.table[id].stock == Some(stock)
    ensures var o := Apply(s, a);
      var taken := if a.productId == id && o.result.success then 1 else 0;
      && id in o.state.table
      && o.state.table[id].stock == Some(stock - taken)
      && (taken == 1 ==> stock >= 1)
  {
  }

  /**
   * No oversell: over any sequence of attempts, the stock of `id` is its initial value minus
   * the number of successful attempts on it, and the successes never exceed the initial
   * stock (none at all when it was not positive), so a non-negative stock stays non-negative.
   */
  lemma {:induction false} NoOversell(s: ServiceState, attempts: seq<Attempt>, id: int, initial: int)
    requires forall i :: 0 <= i < |attempts| ==> Admissible(attempts[i])
    requires id in s.table && s.table[id].stock == Some(initial)
    ensures var r := RunAll(s, attempts);
      var sold := Successes(attempts, r.results, id);
      && id in r.final.table
      && r.final.table[id].stock == Some(initial - sold)
      && sold <= (if initial > 0 then initial else 0)
    decreases |attempts|
  {
    if attempts != [] {
      var o := Apply(s, attempts[0]);
      StepStock(s, attempts[0], id, initial);
      var taken := if attempts[0].productId == id && o.result.success then 1 else 0;
      NoOversell(o.state, attempts[1..], id, initial - taken);
      var rest := RunAll(o.state, attempts[1..]);
      assert RunAll(s, attempts).results[1..] == rest.results;
    }
  }

  /** One attempt keeps the service's invariant, the late update included. */
  lemma ApplyKeepsSound(s: ServiceState, a: Attempt)
    requires Sound(s)
    requires Admissible(a)
    ensures Sound(Apply(s, a).state)
  {
  }

  /**
   * Sold-out stickiness: once a product is flagged, the flag stays, its row never changes
   * again, no attempt on it succeeds, and every later call on it is answered sold out.
   */
  lemma {:induction false} SoldOutIsSticky(s: ServiceState, attempts: seq<Attempt>, id: int)
    requires Sound(s)
    requires forall i :: 0 <= i < |attempts| ==> Admissible(attempts[i])
    requires FlagOf(s.soldOutFlags, id)
    ensures var r := RunAll(s, attempts);
      && FlagOf(r.final.soldOutFlags, id)
      && (id in r.final.table <==> id in s.table)
      && (id in s.table ==> r.final.table[id] == s.table[id])
      && (forall i :: 0 <= i < |attempts| && attempts[i].productId == id ==> !r.results[i].success)
      && (forall i :: 0 <= i < |attempts| && attempts[i].Call? && attempts[i].productId == id ==>
            r.results[i] == Error(SOLD_OUT_MESSAGE))
    decreases |attempts|
  {
    if attempts != [] {
      var o := Apply(s, attempts[0]);
      ApplyKeepsSound(s, attempts[0]);
      SoldOutIsSticky(o.state, attempts[1..], id);
      var r := RunAll(s, attempts);
      var rest := RunAll(o.state, attempts[1..]);
      assert r.results == [o.result] + rest.results;
      forall i | 1 <= i < |attempts|
        ensures r.results[i] == rest.results[i - 1] && attempts[i] == attempts[1..][i - 1]
      {
      }
    }
  }

  /** The flags map only gains true entries: no attempt ever clears a flag. */
  lemma {:induction false} FlagsNeverCleared(s: ServiceState, attempts: seq<Attempt>, id: int)
    requires FlagOf(s.soldOutFlags, id)
    ensures FlagOf(RunAll(s, attempts).final.soldOutFlags, id)
    decreases |attempts|
  {
    if attempts != [] {
      FlagsNeverCleared(Apply(s, attempts[0]).state, attempts[1..], id);
    }
  }

  /** Calls that do not overlap never get the busy answer: only a stale read can lose the compare-and-set. */
  lemma {:induction false} SequentialCallsNeverBusy(s: ServiceState, attempts: seq<Attempt>)
    requires forall i :: 0 <= i < |attempts| ==> attempts[i].Call?
    ensures forall i :: 0 <= i < |attempts| ==> RunAll(s, attempts).results[i].message != BUSY_MESSAGE
    decreases |attempts|
  {
    if attempts != [] {
      var o := Apply(s, attempts[0]);
      SequentialCallsNeverBusy(o.state, attempts[1..]);
      var r := RunAll(s, attempts);
      var rest := RunAll(o.state, attempts[1..]);
      assert r.results == [o.result] + rest.results;
      forall i | 1 <= i < |attempts|
        ensures r.results[i] == rest.results[i - 1]
      {
      }
    }
  }

  /** A late update whose stock read is stale changes nothing and answers busy. */
  lemma StaleReadLosesRace(s: ServiceState, id: int, stockRead: int)
    requires SelectStockById(s.table, id) != Some(stockRead)
    ensures Apply(s, LateCommit(id, stockRead)) == Outcome(s, Error(BUSY_MESSAGE))
  {
  }

  /**
   * A product on sale with 3 units and five calls in a row: the first three succeed and
   * leave 2, 1 and 0 units, the last two are answered sold out, and the product ends flagged.
   */
  lemma ThreeUnitsFiveCalls(p: SeckillProduct, now: int)
    requires IsActive(p, now) && p.stock == Some(3)
    ensures var calls := seq(5, _ => Call(p.id, now));
      var r := RunAll(ServiceState(map[p.id := p], map[]), calls);
      && [r.results[0].data, r.results[1].data, r.results[2].data] ==
         [Some(p.(stock := Some(2))), Some(p.(stock := Some(1))), Some(p.(stock := Some(0)))]
      && r.results[0].success && r.results[1].success && r.results[2].success
      && r.results[3] == Error(SOLD_OUT_MESSAGE) && r.results[4] == Error(SOLD_OUT_MESSAGE)
      && Successes(calls, r.results, p.id) == 3
      && p.id in r.final.table && r.final.table[p.id].stock == Some(0)
      && FlagOf(r.final.soldOutFlags, p.id)
  {
    var id := p.id;
    var calls := seq(5, _ => Call(id, now));
    var s0 := ServiceState(map[id := p], map[]);
    var o1 := Seckill(s0, id, now);
    var o2 := Seckill(o1.state, id, now);
    var o3 := Seckill(o2.state, id, now);
    var o4 := Seckill(o3.state, id, now);
    var o5 := Seckill(o4.state, id, now);
    assert o1.result.data == Some(p.(stock := Some(2)));
    assert o2.result.data == Some(p.(stock := Some(1)));
    assert o3.result.data == Some(p.(stock := Some(0)));
    assert FlagOf(o3.state.soldOutFlags, id);
    var r5 := RunAll(o4.state, calls[4..]);
    assert calls[4..][0] == Call(id, now) && calls[4..][1..] == [];
    assert RunAll(o5.state, []) == Run(o5.state, []);
    assert r5 == Run(o5.state, [o5.result]);
    var r4 := RunAll(o3.state, calls[3..]);
    assert calls[3..][1..] == calls[4..];
    assert r4 == Run(o5.state, [o4.result, o5.result]);
    var r3 := RunAll(o2.state, calls[2..]);
    assert calls[2..][1..] == calls[3..];
    assert r3 == Run(o5.state, [o3.result, o4.result, o5.result]);
    var r2 := RunAll(o1.state, calls[1..]);
    assert calls[1..][1..] == calls[2..];
    assert r2 == Run(o5.state, [o2.result, o3.result, o4.result, o5.result]);
    var r := RunAll(s0, calls);
    assert r == Run(o5.state, [o1.result, o2.result, o3.result, o4.result, o5.result]);
    NoOversell(s0, calls, id, 3);
    assert Successes(calls[4..], r.results[4..], id) == 0;
    assert Successes(calls[3..], r.results[3..], id) == 0;
    assert Successes(calls[2..], r.results[2..], id) == 1;
    assert Successes(calls[1..], r.results[1..], id) == 2;
  }
}
