/**
 * `processEntries`: the entries of one pulled message, in order, turned into
 * `del` and `set` calls on the store, stopping at the first exception.
 */
module Consumer {
  import opened Wrappers
  import opened CanalProtocol
  import opened Projection
  import opened Redis
  import opened Plans

  /**
   * The store call for one row of an event, or the exception raised while
   * computing its arguments. A delete removes the before image's key; an insert,
   * an update and every other event kind set the after image's key to the
   * after image's document. The key is computed before the document.
   */
  function RowCommand(eventType: EventType, row: RowImage): (r: Result<Command, Error>)
    ensures eventType == Delete ==> (r.Ok? <==> HasColumn(row.beforeColumns, KeyColumn))
    ensures eventType == Delete && r.Ok? ==> r.value.Del? && IsValueOf(row.beforeColumns, KeyColumn, r.value.key)
    ensures eventType != Delete ==>
      (r.Ok? <==> HasColumn(row.afterColumns, KeyColumn) && !HasDuplicateNames(row.afterColumns))
    ensures eventType != Delete && !HasColumn(row.afterColumns, KeyColumn) ==> r == Err(KeyColumnNotFound)
    ensures eventType != Delete && r.Ok? ==>
      r.value.Set? && IsValueOf(row.afterColumns, KeyColumn, r.value.key) &&
      r.value.value.Keys == ColumnNames(row.afterColumns) &&
      forall i :: 0 <= i < |row.afterColumns| ==> r.value.value[row.afterColumns[i].name] == row.afterColumns[i].value
  {
    if eventType == Delete then
      match RowToKey(KeyColumn, row.beforeColumns)
      case Err(e) => Err(e)
      case Ok(k) => Ok(Del(k))
    else
      match RowToKey(KeyColumn, row.afterColumns)
      case Err(e) => Err(e)
      case Ok(k) =>
        match RowToValue(row.afterColumns)
        case Err(e) => Err(e)
        case Ok(v) => Ok(Set(k, v))
  }

  function RowPlan(eventType: EventType, row: RowImage): Plan
  {
    match RowCommand(eventType, row)
    case Ok(c) => Plan([c], Completed)
    case Err(e) => Plan([], Failed(e))
  }

  function RowStep(eventType: EventType): RowImage -> Plan
  {
    row => RowPlan(eventType, row)
  }

  /**
   * One entry: a transaction marker issues nothing and is not decoded; a
   * payload that does not decode throws the wrapped parse error before any
   * store call; otherwise the rows issue one command each, in order, up to
   * the first row that throws.
   */
  function EntryPlan(parse: Decoder, e: Entry): (r: Plan)
    ensures IsTransactionMarker(e) ==> r == Nothing
    ensures !IsTransactionMarker(e) && parse(e.storeValue).None? ==>
      r.commands == [] && r.outcome == Failed(ParseError(e))
    ensures !IsTransactionMarker(e) && parse(e.storeValue).Some? ==>
      var rc := parse(e.storeValue).value;
      && |r.commands| <= |rc.rowDatas|
      && (forall j :: 0 <= j < |r.commands| ==> RowCommand(rc.eventType, rc.rowDatas[j]) == Ok(r.commands[j]))
      && (r.outcome == Completed <==> |r.commands| == |rc.rowDatas|)
      && (r.outcome.Failed? ==> RowCommand(rc.eventType, rc.rowDatas[|r.commands|]) == Err(r.outcome.error))
  {
    if IsTransactionMarker(e) then Nothing
    else
      match parse(e.storeValue)
      case None => Plan([], Failed(ParseError(e)))
      case Some(rc) =>
        RowsInOrder(rc.eventType, rc.rowDatas);
        Chain(RowStep(rc.eventType), rc.rowDatas)
  }

  function EntryStep(parse: Decoder): Entry -> Plan
  {
    e => EntryPlan(parse, e)
  }

  /**
   * All entries of a message, in order, until the first exception: the pass
   * completes exactly when every entry completes, and a failed pass carries
   * the error of one of its entries.
   */
  function EntriesPlan(parse: Decoder, entries: seq<Entry>): (r: Plan)
    ensures r.outcome == Completed <==>
      forall i :: 0 <= i < |entries| ==> EntryPlan(parse, entries[i]).outcome == Completed
    ensures r.outcome.Failed? ==>
      exists i :: 0 <= i < |entries| && EntryPlan(parse, entries[i]).outcome == r.outcome
  {
    assert forall i :: 0 <= i < |entries| ==> EntryStep(parse)(entries[i]) == EntryPlan(parse, entries[i]);
    Chain(EntryStep(parse), entries)
  }

  /**
   * Within one entry every row issues exactly one command, in row order, until
   * the first row whose key or document cannot be computed; that row issues
   * nothing and its exception ends the entry.
   */
  lemma {:induction false} RowsInOrder(eventType: EventType, rows: seq<RowImage>)
    ensures var p := Chain(RowStep(eventType), rows);
      && |p.commands| <= |rows|
      && (forall j :: 0 <= j < |p.commands| ==> RowCommand(eventType, rows[j]) == Ok(p.commands[j]))
      && (p.outcome == Completed <==> |p.commands| == |rows|)
      && (p.outcome.Failed? ==> RowCommand(eventType, rows[|p.commands|]) == Err(p.outcome.error))
  {
    assert SingleCommandSteps(RowStep(eventType), rows);
    SingleCommandChain(RowStep(eventType), rows);
    var p := Chain(RowStep(eventType), rows);
    forall j | 0 <= j < |p.commands| ensures RowCommand(eventType, rows[j]) == Ok(p.commands[j]) {
      assert RowPlan(eventType, rows[j]) == Plan([p.commands[j]], Completed);
    }
    if p.outcome.Failed? {
      assert RowPlan(eventType, rows[|p.commands|]).outcome == p.outcome;
    }
  }

  /** A transaction marker anywhere in the entry list changes nothing. */
  lemma SkipMarker(parse: Decoder, xs: seq<Entry>, e: Entry, ys: seq<Entry>)
    requires IsTransactionMarker(e)
    ensures EntriesPlan(parse, xs + [e] + ys) == EntriesPlan(parse, xs + ys)
  {
    ChainAppend(EntryStep(parse), xs + [e], ys);
    ChainAppend(EntryStep(parse), xs, [e]);
    ChainAppend(EntryStep(parse), xs, ys);
    var p := EntriesPlan(parse, xs);
    assert Chain(EntryStep(parse), [e]) == Nothing by {
      assert [e][..0] == [];
    }
    assert p.commands + [] == p.commands;
  }

  /**
   * A message of markers only completes without a store call, whatever the
   * decoder does: markers are never decoded.
   */
  lemma {:induction false} OnlyMarkers(parse: Decoder, entries: seq<Entry>)
    requires forall i :: 0 <= i < |entries| ==> IsTransactionMarker(entries[i])
    ensures EntriesPlan(parse, entries) == Nothing
  {
    if |entries| > 0 {
      OnlyMarkers(parse, entries[..|entries| - 1]);
    }
  }

  /**
   * Entries are applied in list order: the commands of `xs + ys` are those of
   * `xs` followed by those of `ys`, and `ys` is not looked at when `xs` threw.
   */
  lemma EntriesInOrder(parse: Decoder, xs: seq<Entry>, ys: seq<Entry>)
    ensures EntriesPlan(parse, xs).outcome.Failed? ==>
      EntriesPlan(parse, xs + ys) == EntriesPlan(parse, xs)
    ensures EntriesPlan(parse, xs).outcome == Completed ==>
      EntriesPlan(parse, xs + ys).commands == EntriesPlan(parse, xs).commands + EntriesPlan(parse, ys).commands &&
      EntriesPlan(parse, xs + ys).outcome == EntriesPlan(parse, ys).outcome
  {
    ChainAppend(EntryStep(parse), xs, ys);
  }

  /**
   * Failure without undo: when processing throws, there is a first failing
   * entry `i`; the store holds the writes of every entry before it and of the
   * rows of entry `i` before its failure, and the exception is entry `i`'s.
   */
  lemma FailedBatchKeepsEarlierWrites(parse: Decoder, entries: seq<Entry>, db: Db) returns (i: nat)
    requires EntriesPlan(parse, entries).outcome.Failed?
    ensures i < |entries|
    ensures EntriesPlan(parse, entries[..i]).outcome == Completed
    ensures EntryPlan(parse, entries[i]).outcome == EntriesPlan(parse, entries).outcome
    ensures ExecAll(db, EntriesPlan(parse, entries).commands) ==
      ExecAll(ExecAll(db, EntriesPlan(parse, entries[..i]).commands), EntryPlan(parse, entries[i]).commands)
  {
    i := FirstFailure(EntryStep(parse), entries);
    ExecAllAppend(db, EntriesPlan(parse, entries[..i]).commands, EntryPlan(parse, entries[i]).commands);
  }

  /**
   * A pass over `entries` cut short after its first `i` entries, followed by a
   * full pass, leaves the store as the full pass alone.
   */
  lemma PartialThenFull(parse: Decoder, entries: seq<Entry>, i: nat, db: Db)
    requires i <= |entries|
    ensures var full := EntriesPlan(parse, entries).commands;
      ExecAll(ExecAll(db, EntriesPlan(parse, entries[..i]).commands), full) == ExecAll(db, full)
  {
    ChainPrefix(EntryStep(parse), entries, i);
    PrefixThenWhole(db, EntriesPlan(parse, entries).commands, |EntriesPlan(parse, entries[..i]).commands|);
  }

  /**
   * After a delete event that completed, none of its rows' before-image keys
   * is in the store.
   */
  lemma DeleteEventRemovesKeys(parse: Decoder, e: Entry, db: Db, j: nat)
    requires !IsTransactionMarker(e) && parse(e.storeValue).Some?
    requires parse(e.storeValue).value.eventType == Delete
    requires j < |parse(e.storeValue).value.rowDatas|
    requires EntryPlan(parse, e).outcome == Completed
    ensures var k := RowToKey(KeyColumn, parse(e.storeValue).value.rowDatas[j].beforeColumns);
      k.Ok? && k.value !in ExecAll(db, EntryPlan(parse, e).commands)
  {
    var rc := parse(e.storeValue).value;
    var cs := EntryPlan(parse, e).commands;
    RowsInOrder(Delete, rc.rowDatas);
    var k := cs[j].key;
    ExecAllAt(db, cs, k);
    var i :| 0 <= i < |cs| && cs[i] == LastCommandOn(cs, k).value;
    assert RowCommand(Delete, rc.rowDatas[i]) == Ok(cs[i]);
  }

  /**
   * After an insert, update or other non-delete event that completed, the key
   * of row `j`'s after image holds row `j`'s document, provided no later row
   * of the event has the same key: the last write to a key wins.
   */
  lemma SetEventWritesLastImage(parse: Decoder, e: Entry, db: Db, j: nat)
    requires !IsTransactionMarker(e) && parse(e.storeValue).Some?
    requires parse(e.storeValue).value.eventType != Delete
    requires j < |parse(e.storeValue).value.rowDatas|
    requires EntryPlan(parse, e).outcome == Completed
    requires var rows := parse(e.storeValue).value.rowDatas;
      forall j' :: j < j' < |rows| ==>
        RowToKey(KeyColumn, rows[j'].afterColumns) != RowToKey(KeyColumn, rows[j].afterColumns)
    ensures var after := parse(e.storeValue).value.rowDatas[j].afterColumns;
      RowToKey(KeyColumn, after).Ok? && RowToValue(after).Ok? &&
      Lookup(ExecAll(db, EntryPlan(parse, e).commands), RowToKey(KeyColumn, after).value) ==
        Some(RowToValue(after).value)
  {
    var rc := parse(e.storeValue).value;
    var cs := EntryPlan(parse, e).commands;
    RowsInOrder(rc.eventType, rc.rowDatas);
    var k := cs[j].key;
    forall j' | j < j' < |cs| ensures cs[j'].key != k {
      assert RowCommand(rc.eventType, rc.rowDatas[j']) == Ok(cs[j']);
    }
    LastCommandIs(cs, j);
    ExecAllAt(db, cs, k);
  }

  /**
   * The body of the inner loop of `processEntries`: the branch on the
   * event kind for one row. `Failed` is the exception raised while computing
   * the key or the document; the store is then untouched.
   */
  method ApplyRow(eventType: EventType, rowData: RowImage, jedis: Jedis) returns (outcome: Outcome)
    modifies jedis
    ensures outcome == RowPlan(eventType, rowData).outcome
    ensures jedis.db == ExecAll(old(jedis.db), RowPlan(eventType, rowData).commands)
  {
    ghost var db := jedis.db;
    assert forall c: Command :: ExecAll(db, [c]) == Exec(db, c) by {
      forall c: Command ensures ExecAll(db, [c]) == Exec(db, c) {
        assert [c][..0] == [];
      }
    }
    if eventType == Delete {
      var key := RowToKey(KeyColumn, rowData.beforeColumns);
      if key.Err? {
        return Failed(key.error);
      }
      jedis.Del(key.value);
    } else if eventType == Insert {
      var key := RowToKey(KeyColumn, rowData.afterColumns);
      if key.Err? {
        return Failed(key.error);
      }
      var value := RowToValue(rowData.afterColumns);
      if value.Err? {
        return Failed(value.error);
      }
      jedis.Set(key.value, value.value);
    } else {
      var key := RowToKey(KeyColumn, rowData.afterColumns);
      if key.Err? {
        return Failed(key.error);
      }
      var value := RowToValue(rowData.afterColumns);
      if value.Err? {
        return Failed(value.error);
      }
      jedis.Set(key.value, value.value);
    }
    return Completed;
  }

  /**
   * The inner loop of `processEntries` over the rows of one decoded entry,
   * in order, up to the first row that throws.
   */
  method ApplyRows(eventType: EventType, rows: seq<RowImage>, jedis: Jedis) returns (outcome: Outcome)
    modifies jedis
    ensures outcome == Chain(RowStep(eventType), rows).outcome
    ensures jedis.db == ExecAll(old(jedis.db), Chain(RowStep(eventType), rows).commands)
  {
    ghost var base := jedis.db;
    var j := 0;
    while j < |rows|
      invariant 0 <= j <= |rows|
      invariant Chain(RowStep(eventType), rows[..j]).outcome == Completed
      invariant jedis.db == ExecAll(base, Chain(RowStep(eventType), rows[..j]).commands)
    {
      outcome := ApplyRow(eventType, rows[j], jedis);
      assert RowStep(eventType)(rows[j]) == RowPlan(eventType, rows[j]);
      ChainExecStep(RowStep(eventType), rows, j, base, jedis.db);
      if outcome.Failed? {
        return;
      }
      j := j + 1;
    }
    assert rows[..j] == rows;
    return Completed;
  }

  /**
   * `processEntries`: walks the entries in order, skipping transaction
   * markers and decoding the rest; `Failed` stands for the exception it throws.
   */
  method ProcessEntries(entries: seq<Entry>, jedis: Jedis, parse: Decoder) returns (outcome: Outcome)
    modifies jedis
    ensures outcome == EntriesPlan(parse, entries).outcome
    ensures jedis.db == ExecAll(old(jedis.db), EntriesPlan(parse, entries).commands)
  {
    ghost var db0 := jedis.db;
    var i := 0;
    while i < |entries|
      invariant 0 <= i <= |entries|
      invariant EntriesPlan(parse, entries[..i]).outcome == Completed
      invariant jedis.db == ExecAll(db0, EntriesPlan(parse, entries[..i]).commands)
    {
      var entry := entries[i];
      if entry.entryType == TransactionBegin || entry.entryType == TransactionEnd {
        assert EntryStep(parse)(entry) == Nothing;
        ChainExecStep(EntryStep(parse), entries, i, db0, jedis.db);
        i := i + 1;
        continue;
      }
      var decoded := parse(entry.storeValue);
      if decoded.None? {
        assert EntryStep(parse)(entry) == Plan([], Failed(ParseError(entry)));
        ChainExecStep(EntryStep(parse), entries, i, db0, jedis.db);
        return Failed(ParseError(entry));
      }
      var rowChange := decoded.value;
      outcome := ApplyRows(rowChange.eventType, rowChange.rowDatas, jedis);
      assert EntryStep(parse)(entry) == Chain(RowStep(rowChange.eventType), rowChange.rowDatas);
      ChainExecStep(EntryStep(parse), entries, i, db0, jedis.db);
      if outcome.Failed? {
        return;
      }
      i := i + 1;
    }
    assert entries[..i] == entries;
    return Completed;
  }
}
