/**
 The OpenStreetMap importer's database handle as a state machine: a
 bounded buffer of addresses, flushed into the `addresses` table or, row
 by row on failure, into `addresses_errors` with the error text.

 The SQL engine is a parameter: given the rows already in `addresses` and
 a new address, it answers `None` when the insert succeeds and the error
 text otherwise. The only rule fixed here is the NOT NULL constraint on
 `street`, which no engine can let through.
 */
module OsmDb {
  import opened Wrappers
  import opened Addresses
  import opened Seqs
  import opened OsmAddress

  /** A row of `addresses_errors`: the address and the error text (`kind`). */
  datatype ErrorRow = ErrorRow(address: Address, kind: string)

  /** The handle: both tables, the pending buffer and the buffer size. */
  datatype Db = Db(addresses: seq<Address>, errors: seq<ErrorRow>, buffer: seq<Address>, bufferSize: nat)

  /** Outcome of inserting an address into `addresses` holding the given rows. */
  type Engine = (seq<Address>, Address) -> Option<string>

  /** SQLite's message for a missing street. */
  const NotNullStreet: string := "NOT NULL constraint failed: addresses.street"

  /** Buffer size used by `import_addresses`. */
  const ImportBufferSize: nat := 100

  /** Executing the insert statement for one address. */
  function TryInsert(engine: Engine, table: seq<Address>, a: Address): (r: Option<string>)
    ensures a.street.None? ==> r == Some(NotNullStreet)
  {
    if a.street.None? then Some(NotNullStreet) else engine(table, a)
  }

  /** The addresses of a list of error rows. */
  function ErrorAddrs(es: seq<ErrorRow>): (r: seq<Address>)
    ensures |r| == |es|
    ensures forall i :: 0 <= i < |es| ==> r[i] == es[i].address
  {
    seq(|es|, i requires 0 <= i < |es| => es[i].address)
  }

  lemma ErrorAddrsAppend(es1: seq<ErrorRow>, es2: seq<ErrorRow>)
    ensures ErrorAddrs(es1 + es2) == ErrorAddrs(es1) + ErrorAddrs(es2)
  {
  }

  /** Every row of `addresses` has a street. */
  ghost predicate StreetsPresent(table: seq<Address>)
  {
    forall i :: 0 <= i < |table| ==> table[i].street.Some?
  }

  /** Every error row for an address without street carries the NOT NULL error. */
  ghost predicate NotNullKinds(errors: seq<ErrorRow>)
  {
    forall i :: 0 <= i < |errors| ==> errors[i].address.street.None? ==> errors[i].kind == NotNullStreet
  }

  /** The first phase of `flush_buffer`: try each pending address once, in
      order, against the growing table; return the rows inserted and the
      failed addresses with their error texts. */
  function FlushRows(engine: Engine, table: seq<Address>, pending: seq<Address>): (r: (seq<Address>, seq<ErrorRow>))
    ensures |r.0| + |r.1| == |pending|
    decreases |pending|
  {
    if |pending| == 0 then ([], [])
    else
      var a := pending[0];
      match TryInsert(engine, table, a)
      case None =>
        var rest := FlushRows(engine, table + [a], pending[1..]);
        ([a] + rest.0, rest.1)
      case Some(e) =>
        var rest := FlushRows(engine, table, pending[1..]);
        (rest.0, [ErrorRow(a, e)] + rest.1)
  }

  /** The flush splits the pending addresses: each goes to exactly one of
      the two tables, both keep the pending order, no inserted row lacks a
      street, and every street-less failure carries the NOT NULL text. */
  lemma {:induction false} FlushRowsSplits(engine: Engine, table: seq<Address>, pending: seq<Address>)
    ensures var r := FlushRows(engine, table, pending);
      && Interleave(pending, r.0, ErrorAddrs(r.1))
      && StreetsPresent(r.0)
      && NotNullKinds(r.1)
    decreases |pending|
  {
    if |pending| > 0 {
      var a := pending[0];
      assert pending == [a] + pending[1..];
      match TryInsert(engine, table, a)
      case None =>
        FlushRowsSplits(engine, table + [a], pending[1..]);
        var rest := FlushRows(engine, table + [a], pending[1..]);
        InterleaveCons(a, pending[1..], rest.0, ErrorAddrs(rest.1), true);
      case Some(e) =>
        FlushRowsSplits(engine, table, pending[1..]);
        var rest := FlushRows(engine, table, pending[1..]);
        assert ErrorAddrs([ErrorRow(a, e)] + rest.1) == [a] + ErrorAddrs(rest.1);
        InterleaveCons(a, pending[1..], rest.0, ErrorAddrs(rest.1), false);
    }
  }

  /** Each row of `rows` was accepted by the engine against `table` plus
      the rows inserted before it. */
  ghost predicate AcceptedInOrder(engine: Engine, table: seq<Address>, rows: seq<Address>)
  {
    forall i :: 0 <= i < |rows| ==> TryInsert(engine, table + rows[..i], rows[i]) == None
  }

  /** The error row carries the engine's text for its address, tried at
      some point of the insertion of `rows` after `table`. */
  ghost predicate EngineErrorAt(engine: Engine, table: seq<Address>, rows: seq<Address>, e: ErrorRow)
  {
    exists k :: 0 <= k <= |rows| && TryInsert(engine, table + rows[..k], e.address) == Some(e.kind)
  }

  /** Every error row carries the engine's own error text. */
  ghost predicate EngineErrors(engine: Engine, table: seq<Address>, rows: seq<Address>, errors: seq<ErrorRow>)
  {
    forall e :: e in errors ==> EngineErrorAt(engine, table, rows, e)
  }

  lemma AcceptedCons(engine: Engine, table: seq<Address>, a: Address, rest: seq<Address>)
    requires TryInsert(engine, table, a) == None && AcceptedInOrder(engine, table + [a], rest)
    ensures AcceptedInOrder(engine, table, [a] + rest)
  {
    var rows := [a] + rest;
    forall i | 0 <= i < |rows|
      ensures TryInsert(engine, table + rows[..i], rows[i]) == None
    {
      if i > 0 {
        assert table + rows[..i] == (table + [a]) + rest[..i - 1];
      } else {
        assert table + rows[..0] == table;
      }
    }
  }

  lemma EngineErrorsCons(engine: Engine, table: seq<Address>, a: Address, rest: seq<Address>, errors: seq<ErrorRow>)
    requires EngineErrors(engine, table + [a], rest, errors)
    ensures EngineErrors(engine, table, [a] + rest, errors)
  {
    var rows := [a] + rest;
    forall e | e in errors
      ensures EngineErrorAt(engine, table, rows, e)
    {
      assert EngineErrorAt(engine, table + [a], rest, e);
      var k :| 0 <= k <= |rest| && TryInsert(engine, (table + [a]) + rest[..k], e.address) == Some(e.kind);
      assert table + rows[..k + 1] == (table + [a]) + rest[..k];
    }
  }

  lemma EngineErrorsAdd(engine: Engine, table: seq<Address>, rows: seq<Address>, a: Address, err: string, errors: seq<ErrorRow>)
    requires TryInsert(engine, table, a) == Some(err) && EngineErrors(engine, table, rows, errors)
    ensures EngineErrors(engine, table, rows, [ErrorRow(a, err)] + errors)
  {
    assert table + rows[..0] == table;
    assert EngineErrorAt(engine, table, rows, ErrorRow(a, err));
  }

  /** The flush follows the engine: every inserted row was accepted
      against the table as it stood when that row was tried, and every
      error row carries the engine's own error text for its address. */
  lemma {:induction false} FlushRowsFollowsEngine(engine: Engine, table: seq<Address>, pending: seq<Address>)
    ensures var r := FlushRows(engine, table, pending);
      AcceptedInOrder(engine, table, r.0) && EngineErrors(engine, table, r.0, r.1)
    decreases |pending|
  {
    if |pending| > 0 {
      var a := pending[0];
      match TryInsert(engine, table, a)
      case None =>
        FlushRowsFollowsEngine(engine, table + [a], pending[1..]);
        var rest := FlushRows(engine, table + [a], pending[1..]);
        AcceptedCons(engine, table, a, rest.0);
        EngineErrorsCons(engine, table, a, rest.0, rest.1);
      case Some(err) =>
        FlushRowsFollowsEngine(engine, table, pending[1..]);
        var rest := FlushRows(engine, table, pending[1..]);
        EngineErrorsAdd(engine, table, rest.0, a, err, rest.1);
    }
  }

  /** `flush_buffer`: drain the buffer, appending inserted rows to
      `addresses` and failures, in buffer order, to `addresses_errors`. */
  function Flush(engine: Engine, db: Db): (r: Db)
    ensures r.buffer == [] && r.bufferSize == db.bufferSize
    ensures db.buffer == [] ==> r == db
  {
    var rows := FlushRows(engine, db.addresses, db.buffer);
    Db(db.addresses + rows.0, db.errors + rows.1, [], db.bufferSize)
  }

  /** Flushing only appends to the tables, and what it appends splits the
      buffer: each buffered address goes to exactly one table, in order. */
  lemma FlushSplitsBuffer(engine: Engine, db: Db)
    ensures var r := Flush(engine, db);
      && |r.addresses| >= |db.addresses| && r.addresses[..|db.addresses|] == db.addresses
      && |r.errors| >= |db.errors| && r.errors[..|db.errors|] == db.errors
      && Interleave(db.buffer, r.addresses[|db.addresses|..], ErrorAddrs(r.errors[|db.errors|..]))
  {
    var r := Flush(engine, db);
    var rows := FlushRows(engine, db.addresses, db.buffer);
    FlushRowsSplits(engine, db.addresses, db.buffer);
    assert r.addresses[|db.addresses|..] == rows.0;
    assert r.errors[|db.errors|..] == rows.1;
  }

  /** A flush of the handle follows the engine: the rows it appends to
      `addresses` were each accepted in turn, and the rows it appends to
      `addresses_errors` carry the engine's error texts. */
  lemma FlushFollowsEngine(engine: Engine, db: Db)
    ensures var r := Flush(engine, db);
      && |r.addresses| >= |db.addresses| && |r.errors| >= |db.errors|
      && AcceptedInOrder(engine, db.addresses, r.addresses[|db.addresses|..])
      && EngineErrors(engine, db.addresses, r.addresses[|db.addresses|..], r.errors[|db.errors|..])
  {
    var r := Flush(engine, db);
    var rows := FlushRows(engine, db.addresses, db.buffer);
    assert r.addresses[|db.addresses|..] == rows.0;
    assert r.errors[|db.errors|..] == rows.1;
    FlushRowsFollowsEngine(engine, db.addresses, db.buffer);
  }

  /** `insert`: buffer the address and flush once the buffer is full. */
  function Insert(engine: Engine, db: Db, a: Address): (r: Db)
    ensures r.bufferSize == db.bufferSize
    ensures db.bufferSize >= 1 ==> |r.buffer| < db.bufferSize
    ensures r.buffer == [] || r.buffer == db.buffer + [a]
    ensures |db.buffer| + 1 < db.bufferSize ==> r == db.(buffer := db.buffer + [a])
    ensures |db.buffer| + 1 >= db.bufferSize ==> r.buffer == []
  {
    var pushed := db.(buffer := db.buffer + [a]);
    if |pushed.buffer| >= db.bufferSize then Flush(engine, pushed) else pushed
  }

  /** The handle's invariant after the addresses of `log` were inserted:
      the buffer holds the newest of them, and the older ones are split
      in order between the two tables, no street-less row in `addresses`. */
  ghost predicate Accounts(db: Db, log: seq<Address>)
  {
    && |db.buffer| <= |log|
    && db.buffer == log[|log| - |db.buffer|..]
    && Interleave(log[..|log| - |db.buffer|], db.addresses, ErrorAddrs(db.errors))
    && StreetsPresent(db.addresses)
    && NotNullKinds(db.errors)
  }

  lemma StreetsPresentAppend(t1: seq<Address>, t2: seq<Address>)
    requires StreetsPresent(t1) && StreetsPresent(t2)
    ensures StreetsPresent(t1 + t2)
  {
    assert forall i :: |t1| <= i < |t1 + t2| ==> (t1 + t2)[i] == t2[i - |t1|];
  }

  lemma NotNullKindsAppend(e1: seq<ErrorRow>, e2: seq<ErrorRow>)
    requires NotNullKinds(e1) && NotNullKinds(e2)
    ensures NotNullKinds(e1 + e2)
  {
    assert forall i :: |e1| <= i < |e1 + e2| ==> (e1 + e2)[i] == e2[i - |e1|];
  }

  /** With an empty buffer the invariant says the tables split the log. */
  lemma EmptyBufferAccounts(db: Db, log: seq<Address>)
    requires db.buffer == []
    requires Interleave(log, db.addresses, ErrorAddrs(db.errors))
    requires StreetsPresent(db.addresses) && NotNullKinds(db.errors)
    ensures Accounts(db, log)
  {
    assert log[..|log| - 0] == log;
  }

  /** Flushing extends a split of `done` between the tables to a split of
      `done` followed by the buffer, and keeps both table invariants. */
  lemma FlushExtendsSplit(engine: Engine, db: Db, done: seq<Address>)
    requires Interleave(done, db.addresses, ErrorAddrs(db.errors))
    requires StreetsPresent(db.addresses) && NotNullKinds(db.errors)
    ensures var r := Flush(engine, db);
      && Interleave(done + db.buffer, r.addresses, ErrorAddrs(r.errors))
      && StreetsPresent(r.addresses) && NotNullKinds(r.errors)
  {
    var rows := FlushRows(engine, db.addresses, db.buffer);
    FlushRowsSplits(engine, db.addresses, db.buffer);
    InterleaveAppend(done, db.addresses, ErrorAddrs(db.errors), db.buffer, rows.0, ErrorAddrs(rows.1));
    ErrorAddrsAppend(db.errors, rows.1);
    StreetsPresentAppend(db.addresses, rows.0);
    NotNullKindsAppend(db.errors, rows.1);
  }

  /** Flushing keeps the invariant and empties the buffer. */
  lemma FlushAccounts(engine: Engine, db: Db, log: seq<Address>)
    requires Accounts(db, log)
    ensures Accounts(Flush(engine, db), log)
  {
    var n := |log| - |db.buffer|;
    FlushExtendsSplit(engine, db, log[..n]);
    assert log[..n] + db.buffer == log;
    EmptyBufferAccounts(Flush(engine, db), log);
  }

  /** Inserting keeps the invariant, with the address added to the log. */
  lemma InsertAccounts(engine: Engine, db: Db, log: seq<Address>, a: Address)
    requires Accounts(db, log)
    ensures Accounts(Insert(engine, db, a), log + [a])
  {
    var pushed := db.(buffer := db.buffer + [a]);
    var log' := log + [a];
    var n := |log| - |db.buffer|;
    assert log'[..|log'| - |pushed.buffer|] == log[..n];
    assert log'[|log'| - |pushed.buffer|..] == log[n..] + [a];
    assert Accounts(pushed, log');
    if |pushed.buffer| >= db.bufferSize {
      FlushAccounts(engine, pushed, log');
    }
  }

  /** Insert every address of `addrs`, in order. */
  function InsertAll(engine: Engine, db: Db, addrs: seq<Address>): (r: Db)
    ensures r.bufferSize == db.bufferSize
    ensures db.bufferSize >= 1 && (|addrs| > 0 || |db.buffer| < db.bufferSize) ==> |r.buffer| < db.bufferSize
    decreases |addrs|
  {
    if |addrs| == 0 then db else InsertAll(engine, Insert(engine, db, addrs[0]), addrs[1..])
  }

  /** Inserting a list keeps the invariant, with the list added to the log. */
  lemma {:induction false} InsertAllAccounts(engine: Engine, db: Db, log: seq<Address>, addrs: seq<Address>)
    requires Accounts(db, log)
    ensures Accounts(InsertAll(engine, db, addrs), log + addrs)
    decreases |addrs|
  {
    if |addrs| == 0 {
      assert log + addrs == log;
    } else {
      var next := Insert(engine, db, addrs[0]);
      InsertAccounts(engine, db, log, addrs[0]);
      InsertAllAccounts(engine, next, log + [addrs[0]], addrs[1..]);
      LogStep(log, addrs);
    }
  }

  lemma LogStep(log: seq<Address>, addrs: seq<Address>)
    requires |addrs| > 0
    ensures log + [addrs[0]] + addrs[1..] == log + addrs
  {
    assert addrs == [addrs[0]] + addrs[1..];
  }

  /** A fresh handle, with the removal of the old database file taken to
      have succeeded: nothing has been inserted yet and both tables are
      empty. */
  function NewDb(bufferSize: nat): (r: Db)
    ensures Accounts(r, []) && r.bufferSize == bufferSize
  {
    assert Interleave([], [], ErrorAddrs([]));
    Db([], [], [], bufferSize)
  }

  /** The addresses built from the selected nodes, in order. */
  function NodeAddresses(nodes: seq<Node>): (r: seq<Address>)
    ensures |r| == |nodes|
    ensures forall i :: 0 <= i < |nodes| ==> r[i] == NewAddress(nodes[i])
  {
    seq(|nodes|, i requires 0 <= i < |nodes| => NewAddress(nodes[i]))
  }

  /** `import_addresses`: insert the address of every selected node, then
      flush. Each such address lands in exactly one table, both tables
      keep the reading order, and `addresses` never holds a row without
      street. */
  function ImportAddresses(engine: Engine, items: seq<ReadItem>): (r: Db)
    ensures r.buffer == []
    ensures Interleave(NodeAddresses(SelectNodes(items)), r.addresses, ErrorAddrs(r.errors))
    ensures StreetsPresent(r.addresses) && NotNullKinds(r.errors)
  {
    var log := NodeAddresses(SelectNodes(items));
    InsertAllAccounts(engine, NewDb(ImportBufferSize), [], log);
    var filled := InsertAll(engine, NewDb(ImportBufferSize), log);
    FlushAccounts(engine, filled, [] + log);
    assert [] + log == log;
    var r := Flush(engine, filled);
    assert log[..|log| - 0] == log;
    r
  }

  /** After the import, the tables hold one row per selected node. */
  lemma ImportCounts(engine: Engine, items: seq<ReadItem>)
    ensures |ImportAddresses(engine, items).addresses| + |ImportAddresses(engine, items).errors| == |SelectNodes(items)|
  {
    var r := ImportAddresses(engine, items);
    InterleaveCounts(NodeAddresses(SelectNodes(items)), r.addresses, ErrorAddrs(r.errors));
  }

  /** A selected node without street always ends up in `addresses_errors`,
      with the NOT NULL error as its kind. */
  lemma MissingStreetIsAnError(engine: Engine, items: seq<ReadItem>, node: Node)
    requires node in SelectNodes(items) && NewAddress(node).street.None?
    ensures exists e :: e in ImportAddresses(engine, items).errors
                        && e.address == NewAddress(node) && e.kind == NotNullStreet
  {
    var r := ImportAddresses(engine, items);
    var nodes := SelectNodes(items);
    var i :| 0 <= i < |nodes| && nodes[i] == node;
    var a := NewAddress(node);
    assert a in NodeAddresses(nodes) by {
      assert NodeAddresses(nodes)[i] == a;
    }
    InterleaveMember(NodeAddresses(nodes), r.addresses, ErrorAddrs(r.errors), a);
    assert a !in r.addresses;
    var k :| 0 <= k < |r.errors| && ErrorAddrs(r.errors)[k] == a;
    assert r.errors[k] in r.errors;
  }

  /** The statement of FlushRowsAppend for one split of the pending list. */
  ghost predicate FlushesInTwo(engine: Engine, table: seq<Address>, p1: seq<Address>, p2: seq<Address>)
  {
    var r1 := FlushRows(engine, table, p1);
    var r2 := FlushRows(engine, table + r1.0, p2);
    FlushRows(engine, table, p1 + p2) == (r1.0 + r2.0, r1.1 + r2.1)
  }

  /** One step of the flush: the first address is tried against `table`. */
  lemma FlushRowsCons(engine: Engine, table: seq<Address>, a: Address, p: seq<Address>)
    ensures TryInsert(engine, table, a).None? ==>
      FlushRows(engine, table, [a] + p) == ([a] + FlushRows(engine, table + [a], p).0, FlushRows(engine, table + [a], p).1)
    ensures TryInsert(engine, table, a).Some? ==>
      FlushRows(engine, table, [a] + p)
        == (FlushRows(engine, table, p).0, [ErrorRow(a, TryInsert(engine, table, a).value)] + FlushRows(engine, table, p).1)
  {
    assert ([a] + p)[0] == a && ([a] + p)[1..] == p;
  }

  lemma FlushesInTwoAccepted(engine: Engine, table: seq<Address>, a: Address, p1: seq<Address>, p2: seq<Address>)
    requires TryInsert(engine, table, a) == None
    requires FlushesInTwo(engine, table + [a], p1, p2)
    ensures FlushesInTwo(engine, table, [a] + p1, p2)
  {
    assert [a] + p1 + p2 == [a] + (p1 + p2);
    FlushRowsCons(engine, table, a, p1);
    FlushRowsCons(engine, table, a, p1 + p2);
    var r1 := FlushRows(engine, table + [a], p1);
    assert (table + [a]) + r1.0 == table + ([a] + r1.0);
    var r2 := FlushRows(engine, (table + [a]) + r1.0, p2);
    assert [a] + (r1.0 + r2.0) == ([a] + r1.0) + r2.0;
  }

  lemma FlushesInTwoFailed(engine: Engine, table: seq<Address>, a: Address, e: string, p1: seq<Address>, p2: seq<Address>)
    requires TryInsert(engine, table, a) == Some(e)
    requires FlushesInTwo(engine, table, p1, p2)
    ensures FlushesInTwo(engine, table, [a] + p1, p2)
  {
    assert [a] + p1 + p2 == [a] + (p1 + p2);
    FlushRowsCons(engine, table, a, p1);
    FlushRowsCons(engine, table, a, p1 + p2);
    var r1 := FlushRows(engine, table, p1);
    var r2 := FlushRows(engine, table + r1.0, p2);
    assert [ErrorRow(a, e)] + (r1.1 + r2.1) == ([ErrorRow(a, e)] + r1.1) + r2.1;
  }

  /** Flushing `p1 + p2` is flushing `p1`, then `p2` against the table
      grown by the rows `p1` inserted. */
  lemma {:induction false} FlushRowsAppend(engine: Engine, table: seq<Address>, p1: seq<Address>, p2: seq<Address>)
    ensures var r1 := FlushRows(engine, table, p1);
      var r2 := FlushRows(engine, table + r1.0, p2);
      FlushRows(engine, table, p1 + p2) == (r1.0 + r2.0, r1.1 + r2.1)
    decreases |p1|
  {
    if |p1| == 0 {
      assert p1 + p2 == p2;
      assert table + [] == table;
      var r2 := FlushRows(engine, table, p2);
      assert [] + r2.0 == r2.0 && [] + r2.1 == r2.1;
    } else {
      var a := p1[0];
      assert p1 == [a] + p1[1..];
      match TryInsert(engine, table, a)
      case None =>
        FlushRowsAppend(engine, table + [a], p1[1..], p2);
        FlushesInTwoAccepted(engine, table, a, p1[1..], p2);
      case Some(e) =>
        FlushRowsAppend(engine, table, p1[1..], p2);
        FlushesInTwoFailed(engine, table, a, e, p1[1..], p2);
    }
  }

  /** The rows of one more address `a` after the rows `r` of a flush. */
  function FlushStep(engine: Engine, table: seq<Address>, r: (seq<Address>, seq<ErrorRow>), a: Address): (seq<Address>, seq<ErrorRow>)
  {
    match TryInsert(engine, table + r.0, a)
    case None => (r.0 + [a], r.1)
    case Some(e) => (r.0, r.1 + [ErrorRow(a, e)])
  }

  /** Each address of a flush is tried against the table plus exactly the
      rows inserted before it: it is inserted when the engine accepts it
      there, and otherwise recorded with the engine's text for it there. */
  lemma FlushRowsSnoc(engine: Engine, table: seq<Address>, pending: seq<Address>, a: Address)
    ensures FlushRows(engine, table, pending + [a]) == FlushStep(engine, table, FlushRows(engine, table, pending), a)
  {
    var r1 := FlushRows(engine, table, pending);
    FlushRowsAppend(engine, table, pending, [a]);
    assert [a][1..] == [];
    var t := table + r1.0;
    assert [a][0] == a && [a][1..] == [];
    match TryInsert(engine, t, a)
    case None =>
      assert FlushRows(engine, t + [a], []) == ([], []);
      assert [a] + [] == [a];
      assert FlushRows(engine, t, [a]) == ([a], []);
      assert r1.1 + [] == r1.1;
    case Some(e) =>
      assert FlushRows(engine, t, []) == ([], []);
      assert [ErrorRow(a, e)] + [] == [ErrorRow(a, e)];
      assert FlushRows(engine, t, [a]) == ([], [ErrorRow(a, e)]);
      assert r1.0 + [] == r1.0;
  }

  /** The handle's tables are what one unbuffered flush of the addresses
      that have left the buffer produces. */
  ghost predicate AsOneFlush(engine: Engine, db: Db, log: seq<Address>)
  {
    && |db.buffer| <= |log|
    && db.buffer == log[|log| - |db.buffer|..]
    && db.addresses == FlushRows(engine, [], log[..|log| - |db.buffer|]).0
    && db.errors == FlushRows(engine, [], log[..|log| - |db.buffer|]).1
  }

  /** Tables that are the flush of `done`, followed by a flush of
      `buffer` against them, are the flush of `done + buffer`. */
  lemma FlushAfter(engine: Engine, done: seq<Address>, buffer: seq<Address>, addresses: seq<Address>, errors: seq<ErrorRow>)
    requires addresses == FlushRows(engine, [], done).0 && errors == FlushRows(engine, [], done).1
    ensures var rows := FlushRows(engine, addresses, buffer);
      FlushRows(engine, [], done + buffer) == (addresses + rows.0, errors + rows.1)
  {
    assert [] + addresses == addresses;
    FlushRowsAppend(engine, [], done, buffer);
  }

  /** Flushing keeps the tables equal to one unbuffered flush. */
  lemma FlushAsOne(engine: Engine, db: Db, log: seq<Address>)
    requires AsOneFlush(engine, db, log)
    ensures AsOneFlush(engine, Flush(engine, db), log)
  {
    var done := log[..|log| - |db.buffer|];
    assert done + db.buffer == log;
    FlushAfter(engine, done, db.buffer, db.addresses, db.errors);
    var r := Flush(engine, db);
    assert log[..|log| - |r.buffer|] == log && r.buffer == log[|log|..];
  }

  /** `insert` keeps the tables equal to one unbuffered flush. */
  lemma InsertAsOne(engine: Engine, db: Db, log: seq<Address>, a: Address)
    requires AsOneFlush(engine, db, log)
    ensures AsOneFlush(engine, Insert(engine, db, a), log + [a])
  {
    var pushed := db.(buffer := db.buffer + [a]);
    var log' := log + [a];
    var n := |log| - |db.buffer|;
    assert log'[..|log'| - |pushed.buffer|] == log[..n];
    assert log'[|log'| - |pushed.buffer|..] == log[n..] + [a];
    assert AsOneFlush(engine, pushed, log');
    if |pushed.buffer| >= db.bufferSize {
      FlushAsOne(engine, pushed, log');
    }
  }

  /** A list of inserts keeps the tables equal to one unbuffered flush. */
  lemma {:induction false} InsertAllAsOne(engine: Engine, db: Db, log: seq<Address>, addrs: seq<Address>)
    requires AsOneFlush(engine, db, log)
    ensures AsOneFlush(engine, InsertAll(engine, db, addrs), log + addrs)
    decreases |addrs|
  {
    if |addrs| == 0 {
      assert log + addrs == log;
    } else {
      InsertAsOne(engine, db, log, addrs[0]);
      InsertAllAsOne(engine, Insert(engine, db, addrs[0]), log + [addrs[0]], addrs[1..]);
      LogStep(log, addrs);
    }
  }

  /** With the buffer drained, the tables are the unbuffered flush of
      everything inserted. */
  lemma DrainedAsOne(engine: Engine, db: Db, log: seq<Address>)
    requires AsOneFlush(engine, db, log) && db.buffer == []
    ensures db.addresses == FlushRows(engine, [], log).0 && db.errors == FlushRows(engine, [], log).1
  {
    assert log[..|log| - 0] == log;
  }

  /** A new handle is one unbuffered flush of nothing. */
  lemma NewDbAsOne(engine: Engine, bufferSize: nat)
    ensures AsOneFlush(engine, NewDb(bufferSize), [])
  {
    assert FlushRows(engine, [], []) == ([], []);
  }

  /** The import keeps the tables equal to one unbuffered flush of the
      selected addresses. */
  lemma ImportAsOne(engine: Engine, items: seq<ReadItem>)
    ensures AsOneFlush(engine, ImportAddresses(engine, items), NodeAddresses(SelectNodes(items)))
  {
    var log := NodeAddresses(SelectNodes(items));
    var db0 := NewDb(ImportBufferSize);
    NewDbAsOne(engine, ImportBufferSize);
    InsertAllAsOne(engine, db0, [], log);
    assert [] + log == log;
    FlushAsOne(engine, InsertAll(engine, db0, log), log);
  }

  /** Buffering is invisible: the import ends with the tables that one
      unbuffered pass over the selected addresses produces, each address
      tried in reading order against the rows inserted before it. */
  lemma ImportIsOneFlush(engine: Engine, items: seq<ReadItem>)
    ensures var log := NodeAddresses(SelectNodes(items));
      var r := ImportAddresses(engine, items);
      r.addresses == FlushRows(engine, [], log).0 && r.errors == FlushRows(engine, [], log).1
  {
    ImportAsOne(engine, items);
    DrainedAsOne(engine, ImportAddresses(engine, items), NodeAddresses(SelectNodes(items)));
  }
}
