/**
 * The `main` method: connect, subscribe, roll back to the last ack, then
 * for each pulled message process it and ack it or roll it back, and
 * disconnect on the way out.
 */
module MainLoop {
  import opened CanalProtocol
  import opened Redis
  import opened Plans
  import opened Consumer

  /** `batchSize` passed to every pull. */
  const BatchSize: int := 1000

  /** The subscription filter: any schema, a literal dot, any table. */
  const Filter: string := ".*\\..*"

  /** The batch id of a message that carries no data. */
  const NoData: int := -1

  /** The calls made on the Canal connector, in the order they are made. */
  datatype Call =
    | Connect
    | Subscribe(filter: string)
    | Rollback                       // `rollback()`: back to the last acked position
    | GetWithoutAck(batchSize: int)
    | Ack(batchId: int)
    | RollbackBatch(batchId: int)    // `rollback(batchId)`
    | Disconnect

  /**
   * The Canal connector, seen from the consumer: `inbox` holds the messages the
   * server will return to the next pulls, `calls` records every call made.
   */
  class Connector {
    var inbox: seq<Message>
    var calls: seq<Call>

    constructor (inbox: seq<Message>)
      ensures this.inbox == inbox && calls == []
    {
      this.inbox := inbox;
      calls := [];
    }

    method Connect()
      modifies this`calls
      ensures calls == old(calls) + [Call.Connect]
    {
      calls := calls + [Call.Connect];
    }

    method Subscribe(filter: string)
      modifies this`calls
      ensures calls == old(calls) + [Call.Subscribe(filter)]
    {
      calls := calls + [Call.Subscribe(filter)];
    }

    method Rollback()
      modifies this`calls
      ensures calls == old(calls) + [Call.Rollback]
    {
      calls := calls + [Call.Rollback];
    }

    /** Pulls the next message without acknowledging it. */
    method GetWithoutAck(batchSize: int) returns (m: Message)
      requires |inbox| > 0
      modifies this
      ensures m == old(inbox[0]) && inbox == old(inbox[1..])
      ensures calls == old(calls) + [Call.GetWithoutAck(batchSize)]
    {
      m := inbox[0];
      inbox := inbox[1..];
      calls := calls + [Call.GetWithoutAck(batchSize)];
    }

    method Ack(batchId: int)
      modifies this`calls
      ensures calls == old(calls) + [Call.Ack(batchId)]
    {
      calls := calls + [Call.Ack(batchId)];
    }

    method RollbackBatch(batchId: int)
      modifies this`calls
      ensures calls == old(calls) + [Call.RollbackBatch(batchId)]
    {
      calls := calls + [Call.RollbackBatch(batchId)];
    }

    method Disconnect()
      modifies this`calls
      ensures calls == old(calls) + [Call.Disconnect]
    {
      calls := calls + [Call.Disconnect];
    }
  }

  /** A message with the no-data id or without entries is not processed. */
  predicate Idle(m: Message)
  {
    m.id == NoData || |m.entries| == 0
  }

  /** The ack or rollback the loop body issues for message `m`. */
  function Verdict(parse: Decoder, m: Message): (r: Call)
    ensures r == Ack(m.id) || r == RollbackBatch(m.id)
    ensures r == Ack(m.id) <==> Idle(m) || EntriesPlan(parse, m.entries).outcome == Completed
  {
    if Idle(m) then Ack(m.id)
    else
      match EntriesPlan(parse, m.entries).outcome
      case Completed => Ack(m.id)
      case Failed(_) => RollbackBatch(m.id)
  }

  /** The store after the loop body has handled `m`. */
  function MessageEffect(parse: Decoder, db: Db, m: Message): (r: Db)
    ensures Idle(m) ==> r == db
    ensures forall k :: k !in Touched(EntriesPlan(parse, m.entries).commands) ==> Lookup(r, k) == Lookup(db, k)
  {
    if Idle(m) then db
    else
      var cs := EntriesPlan(parse, m.entries).commands;
      ExecAllUntouched(db, cs);
      ExecAll(db, cs)
  }

  /** The connector calls of the loop for the messages `ms`, in order. */
  function LoopCalls(parse: Decoder, ms: seq<Message>): seq<Call>
  {
    if |ms| == 0 then []
    else LoopCalls(parse, ms[..|ms| - 1]) + [GetWithoutAck(BatchSize), Verdict(parse, ms[|ms| - 1])]
  }

  /** The store after the loop has handled the messages `ms`, in order. */
  function LoopStore(parse: Decoder, db: Db, ms: seq<Message>): Db
  {
    if |ms| == 0 then db else MessageEffect(parse, LoopStore(parse, db, ms[..|ms| - 1]), ms[|ms| - 1])
  }

  /**
   * Every pulled message gets exactly one answer, right after its pull and
   * before the next one: `ack` of its id when it was idle or processing
   * completed, `rollback` of its id when processing threw.
   */
  lemma {:induction false} LoopCallsAt(parse: Decoder, ms: seq<Message>, i: nat)
    requires i < |ms|
    ensures |LoopCalls(parse, ms)| == 2 * |ms|
    ensures LoopCalls(parse, ms)[2 * i] == GetWithoutAck(BatchSize)
    ensures LoopCalls(parse, ms)[2 * i + 1] == Ack(ms[i].id) <==>
      Idle(ms[i]) || EntriesPlan(parse, ms[i].entries).outcome == Completed
    ensures LoopCalls(parse, ms)[2 * i + 1] == RollbackBatch(ms[i].id) <==>
      !Idle(ms[i]) && EntriesPlan(parse, ms[i].entries).outcome.Failed?
  {
    var init := ms[..|ms| - 1];
    if i < |init| {
      LoopCallsAt(parse, init, i);
      assert init[i] == ms[i];
    } else {
      if |init| > 0 {
        LoopCallsAt(parse, init, 0);
      }
    }
  }

  /**
   * A message that holds only transaction markers is acked and leaves the
   * store unchanged.
   */
  lemma MarkersOnlyMessage(parse: Decoder, db: Db, m: Message)
    requires forall i :: 0 <= i < |m.entries| ==> IsTransactionMarker(m.entries[i])
    ensures Verdict(parse, m) == Ack(m.id)
    ensures MessageEffect(parse, db, m) == db
  {
    OnlyMarkers(parse, m.entries);
  }

  /**
   * Redelivery after a rollback is harmless: handling the same message twice
   * leaves the store as handling it once, whether it completed or threw.
   */
  lemma RedeliveryIdempotent(parse: Decoder, db: Db, m: Message)
    ensures MessageEffect(parse, MessageEffect(parse, db, m), m) == MessageEffect(parse, db, m)
  {
    if !Idle(m) {
      ExecAllIdempotent(db, EntriesPlan(parse, m.entries).commands);
    }
  }

  /** Any number `n > 0` of deliveries of `m` leaves the store as one delivery. */
  lemma {:induction false} RepeatedDelivery(parse: Decoder, db: Db, m: Message, n: nat)
    requires n > 0
    ensures LoopStore(parse, db, seq(n, _ => m)) == MessageEffect(parse, db, m)
  {
    var ms := seq(n, _ => m);
    if n > 1 {
      assert ms[..n - 1] == seq(n - 1, _ => m);
      RepeatedDelivery(parse, db, m, n - 1);
      RedeliveryIdempotent(parse, db, m);
    } else {
      assert ms[..0] == [];
    }
  }

  /**
   * The body of the `while (true)` loop: pull, then process unless the
   * message is idle, then ack, or roll back when processing threw.
   */
  method HandleMessage(connector: Connector, jedis: Jedis, parse: Decoder)
    requires |connector.inbox| > 0
    modifies connector, jedis
    ensures connector.inbox == old(connector.inbox[1..])
    ensures connector.calls ==
      old(connector.calls) + [GetWithoutAck(BatchSize), Verdict(parse, old(connector.inbox[0]))]
    ensures jedis.db == MessageEffect(parse, old(jedis.db), old(connector.inbox[0]))
  {
    var message := connector.GetWithoutAck(BatchSize);
    var batchId := message.id;
    var outcome := Completed;
    var size := |message.entries|;
    if batchId == NoData || size == 0 {
      // Thread.sleep(1000) is not modelled.
      assert jedis.db == MessageEffect(parse, old(jedis.db), message);
      assert Verdict(parse, message) == Ack(batchId);
    } else {
      outcome := ProcessEntries(message.entries, jedis, parse);
      assert jedis.db == MessageEffect(parse, old(jedis.db), message);
      assert outcome == EntriesPlan(parse, message.entries).outcome;
      assert Verdict(parse, message) == if outcome.Completed? then Ack(batchId) else RollbackBatch(batchId);
    }
    ghost var pulled := connector.calls;
    if outcome == Completed {
      connector.Ack(batchId);
    } else {
      connector.RollbackBatch(batchId);
    }
    assert connector.calls == pulled + [Verdict(parse, message)];
  }

  /**
   * `main` for as long as the server has messages: connect, subscribe with
   * the match-all filter, roll back to the last ack, run the loop body once
   * per message, then disconnect.
   */
  method RunConsumer(connector: Connector, jedis: Jedis, parse: Decoder)
    modifies connector, jedis
    ensures connector.inbox == []
    ensures connector.calls == old(connector.calls) + [Connect, Subscribe(Filter), Rollback] +
      LoopCalls(parse, old(connector.inbox)) + [Disconnect]
    ensures jedis.db == LoopStore(parse, old(jedis.db), old(connector.inbox))
  {
    ghost var ms := connector.inbox;
    ghost var db0 := jedis.db;
    connector.Connect();
    connector.Subscribe(Filter);
    connector.Rollback();
    ghost var start := connector.calls;
    var n := 0;
    while |connector.inbox| > 0
      invariant 0 <= n <= |ms| && connector.inbox == ms[n..]
      invariant connector.calls == start + LoopCalls(parse, ms[..n])
      invariant jedis.db == LoopStore(parse, db0, ms[..n])
      decreases |connector.inbox|
    {
      assert ms[..n + 1][..n] == ms[..n];
      assert ms[n..][0] == ms[n];
      HandleMessage(connector, jedis, parse);
      assert ms[n..][1..] == ms[n + 1..];
      n := n + 1;
    }
    assert ms[..n] == ms;
    connector.Disconnect();
  }
}
