/**
 * The consumer loop of main: it drains the files channel, passes each
 * record to toDB, gathers the fragments of NEW files into one multi-row
 * insert of at most fileChanSize rows, and executes that insert when a
 * record arrives on a full batch and once more after the channel closes.
 */
module Persister {
  import opened Wrappers
  import opened HashInfo
  import opened Store

  /** Capacity of the files channel, also the batch size. */
  const FileChanSize: nat := 250

  /** The start of every batch insert; the table name comes from the
      connection settings. */
  function Prefix(tableName: string): string {
    "insert into " + tableName + " (filePath, extension, permissions, hash, hashTime, lastModified) values "
  }

  /** The fragments of ps in order, with ", " between neighbours. */
  function Batch(ps: seq<FileHashInfo>): (r: string)
    ensures r == "" <==> ps == []
  {
    if ps == [] then ""
    else if |ps| == 1 then Fragment(ps[0])
    else Batch(ps[..|ps| - 1]) + ", " + Fragment(ps[|ps| - 1])
  }

  /** No leading or trailing separator: a non-empty batch opens with the
      first fragment's "('" and closes with the last one's "')". */
  lemma {:induction false} BatchShape(ps: seq<FileHashInfo>)
    requires ps != []
    ensures var r := Batch(ps); |r| >= 24 && r[..2] == "('" && r[|r| - 2..] == "')"
  {
    if |ps| > 1 {
      var init := Batch(ps[..|ps| - 1]);
      var last := Fragment(ps[|ps| - 1]);
      BatchShape(ps[..|ps| - 1]);
      assert (init + ", " + last)[..2] == init[..2];
      assert (init + ", " + last)[|init + ", " + last| - 2..] == last[|last| - 2..];
    }
  }

  /** The variables of the loop, and the database and error channel it works
      on. pending holds the records whose fragments insert carries: what the
      database reads out of the statement when it is executed. */
  datatype LoopState = LoopState(
    count: nat,
    pending: seq<FileHashInfo>,
    insert: string,
    rows: Table,
    executed: seq<string>,
    errors: seq<string>)

  /** The batching invariant: count fragments are queued, at most a batch, and
      the buffer is the prefix followed by exactly those fragments. */
  ghost predicate Inv(prefix: string, s: LoopState) {
    && s.count <= FileChanSize
    && s.count == |s.pending|
    && s.insert == prefix + Batch(s.pending)
  }

  /** The state before the first record: nothing queued. */
  function Begin(prefix: string, s: LoopState): (b: LoopState)
    ensures Inv(prefix, b)
  {
    s.(count := 0, pending := [], insert := prefix)
  }

  /** What con.Exec(insert) does to the table: all queued rows, or none when
      the statement fails. The error it returns is discarded. */
  function ExecInsert(rows: Table, pending: seq<FileHashInfo>, ok: bool): (t: Table)
    // an executed insert adds a row for every queued path and no other key
    ensures ok ==> t.Keys == rows.Keys + PathsOf(pending)
    // rows whose path was not queued are left alone
    ensures ok ==> forall p :: p in rows && p !in PathsOf(pending) ==> t[p] == rows[p]
    // a queued record that no later one repeats gets a NEW row
    ensures ok ==> forall i ::
                     (0 <= i < |pending| && forall j :: i < j < |pending| ==> pending[j].path != pending[i].path)
                     ==> pending[i].path in t && t[pending[i].path] == NewRow(pending[i])
    // a failed insert changes nothing
    ensures !ok ==> t == rows
  {
    if ok then
      var t := InsertAll(rows, pending);
      forall i | 0 <= i < |pending| &&
                 (forall j :: i < j < |pending| ==> pending[j].path != pending[i].path)
        ensures pending[i].path in t && t[pending[i].path] == NewRow(pending[i])
      {
        InsertedRowIsNew(rows, pending, i);
      }
      t
    else rows
  }

  /** One iteration of the loop for the received record x. */
  function Step(prefix: string, s: LoopState, x: FileHashInfo, reply: DbReply): LoopState {
    if s.count < FileChanSize then
      var p := ToDBResult(s.rows, x, reply);
      var s' := s.(rows := p.table, errors := s.errors + p.reported);
      if p.response != "" then
        if s.count == 0 then
          s'.(count := s.count + 1, insert := s.insert + p.response, pending := s.pending + [x])
        else
          s'.(count := s.count + 1, insert := s.insert + ", " + p.response, pending := s.pending + [x])
      else s'
    else
      s.(count := 0,
         executed := s.executed + [s.insert],
         rows := ExecInsert(s.rows, s.pending, reply.insertOk),
         insert := prefix,
         pending := [])
  }

  /** The loop run over the records xs, with the database's replies db. */
  function Consume(prefix: string, s: LoopState, xs: seq<FileHashInfo>, db: seq<DbReply>): LoopState
    requires |xs| == |db|
  {
    if xs == [] then s
    else Step(prefix, Consume(prefix, s, xs[..|xs| - 1], db[..|db| - 1]), xs[|xs| - 1], db[|db| - 1])
  }

  /** The statement executed after the channel closes. */
  function Finish(s: LoopState, ok: bool): LoopState {
    s.(executed := s.executed + [s.insert], rows := ExecInsert(s.rows, s.pending, ok))
  }

  // ---------------------------------------------------------------------------
  // The batching invariant

  lemma BatchSnoc(ps: seq<FileHashInfo>, x: FileHashInfo)
    ensures Batch(ps + [x]) == if ps == [] then Fragment(x) else Batch(ps) + ", " + Fragment(x)
  {
    assert (ps + [x])[..|ps|] == ps;
  }

  /** Every iteration keeps the batching invariant. */
  lemma StepKeepsInv(prefix: string, s: LoopState, x: FileHashInfo, reply: DbReply)
    requires Inv(prefix, s)
    ensures Inv(prefix, Step(prefix, s, x, reply))
  {
    var p := ToDBResult(s.rows, x, reply);
    var n := Step(prefix, s, x, reply);
    if s.count < FileChanSize && p.response != "" {
      assert p.response == Fragment(x);
      assert n.count == s.count + 1 && n.pending == s.pending + [x];
      BatchSnoc(s.pending, x);
      if s.count == 0 {
        assert n.insert == prefix + Fragment(x);
      } else {
        assert n.insert == prefix + Batch(s.pending) + ", " + Fragment(x);
      }
    }
  }

  lemma {:induction false} ConsumeKeepsInv(prefix: string, s: LoopState, xs: seq<FileHashInfo>, db: seq<DbReply>)
    requires |xs| == |db| && Inv(prefix, s)
    ensures Inv(prefix, Consume(prefix, s, xs, db))
  {
    if xs != [] {
      ConsumeKeepsInv(prefix, s, xs[..|xs| - 1], db[..|db| - 1]);
      StepKeepsInv(prefix, Consume(prefix, s, xs[..|xs| - 1], db[..|db| - 1]), xs[|xs| - 1], db[|db| - 1]);
    }
  }

  /** Below a full batch: no batch insert is executed, the record goes through toDB,
      and count grows by one exactly when toDB returns a fragment, which is
      then the last one in the buffer. */
  lemma QueueOnNew(prefix: string, s: LoopState, x: FileHashInfo, reply: DbReply)
    requires Inv(prefix, s) && s.count < FileChanSize
    ensures var n := Step(prefix, s, x, reply);
            var p := ToDBResult(s.rows, x, reply);
            && n.executed == s.executed
            && n.rows == p.table && n.errors == s.errors + p.reported
            && (n.count == s.count + 1 <==> QueryRow(s.rows, x.path, reply.queryFault).NoRows?)
            && (n.count == s.count + 1 ==> n.pending == s.pending + [x] &&
                                            n.insert == prefix + Batch(s.pending + [x]))
            && (n.count != s.count + 1 ==> n.count == s.count && n.pending == s.pending && n.insert == s.insert)
  {
    var p := ToDBResult(s.rows, x, reply);
    var n := Step(prefix, s, x, reply);
    StepKeepsInv(prefix, s, x, reply);
    if p.response != "" {
      assert n.count == s.count + 1 && n.pending == s.pending + [x];
    }
  }

  /** On a full batch: exactly one execution, of the buffer holding
      fileChanSize fragments, and a reset. The received record does not reach
      toDB: the result is the same whatever record arrived. */
  lemma FlushDropsRecord(prefix: string, s: LoopState, x: FileHashInfo, y: FileHashInfo, reply: DbReply)
    requires Inv(prefix, s) && s.count == FileChanSize
    ensures var n := Step(prefix, s, x, reply);
            && n == Step(prefix, s, y, reply)
            && n.executed == s.executed + [prefix + Batch(s.pending)]
            && |s.pending| == FileChanSize
            && n.rows == ExecInsert(s.rows, s.pending, reply.insertOk)
            && n.errors == s.errors
            && n.count == 0 && n.pending == [] && n.insert == prefix
  {
  }

  /** After the channel closes, exactly one more execution, of the current
      buffer; with nothing queued it is the bare prefix. */
  lemma FinalFlushOnce(prefix: string, s: LoopState, ok: bool)
    requires Inv(prefix, s)
    ensures var n := Finish(s, ok);
            && n.executed == s.executed + [prefix + Batch(s.pending)]
            && (s.count == 0 ==> n.executed[|n.executed| - 1] == prefix)
            && n.errors == s.errors
  {
  }

  // ---------------------------------------------------------------------------
  // Exact flush points when every record is new

  ghost predicate DistinctPaths(xs: seq<FileHashInfo>) {
    forall i, j :: 0 <= i < j < |xs| ==> xs[i].path != xs[j].path
  }

  /** None of the records from index k on is in the table or queued. */
  ghost predicate Unseen(xs: seq<FileHashInfo>, k: nat, s: LoopState) {
    forall j :: k <= j < |xs| ==> xs[j].path !in s.rows && xs[j].path !in PathsOf(s.pending)
  }

  lemma PathsOfSnoc(ps: seq<FileHashInfo>, x: FileHashInfo)
    ensures PathsOf(ps + [x]) == PathsOf(ps) + {x.path}
  {
    assert (ps + [x])[..|ps|] == ps;
  }

  lemma DivModUnique(a: nat, q: nat, r: nat)
    requires a == (FileChanSize + 1) * q + r && r < FileChanSize + 1
    ensures a / (FileChanSize + 1) == q && a % (FileChanSize + 1) == r
  {
  }

  lemma CountArithmetic(k: nat)
    ensures k % (FileChanSize + 1) < FileChanSize ==>
              (k + 1) % (FileChanSize + 1) == k % (FileChanSize + 1) + 1 &&
              (k + 1) / (FileChanSize + 1) == k / (FileChanSize + 1)
    ensures k % (FileChanSize + 1) == FileChanSize ==>
              (k + 1) % (FileChanSize + 1) == 0 &&
              (k + 1) / (FileChanSize + 1) == k / (FileChanSize + 1) + 1
  {
    var q, r := k / (FileChanSize + 1), k % (FileChanSize + 1);
    if r < FileChanSize {
      DivModUnique(k + 1, q, r + 1);
    } else {
      DivModUnique(k + 1, q + 1, 0);
    }
  }

  /** One iteration on a record that is neither stored nor queued. */
  lemma StepOnUnseen(prefix: string, s: LoopState, x: FileHashInfo, reply: DbReply)
    requires Inv(prefix, s) && reply.queryFault.None?
    requires x.path !in s.rows && x.path !in PathsOf(s.pending)
    ensures var n := Step(prefix, s, x, reply);
            && (s.count < FileChanSize ==>
                  n.count == s.count + 1 && |n.executed| == |s.executed| &&
                  n.rows == s.rows && PathsOf(n.pending) == PathsOf(s.pending) + {x.path})
            && (s.count == FileChanSize ==>
                  n.count == 0 && |n.executed| == |s.executed| + 1 &&
                  n.rows.Keys <= s.rows.Keys + PathsOf(s.pending) && n.pending == [])
  {
    if s.count < FileChanSize {
      QueueOnNew(prefix, s, x, reply);
      PathsOfSnoc(s.pending, x);
    }
  }

  lemma {:induction false} AllNewPrefix(prefix: string, s0: LoopState, xs: seq<FileHashInfo>, db: seq<DbReply>, k: nat)
    requires |xs| == |db| && k <= |xs|
    requires Inv(prefix, s0) && s0.count == 0
    requires DistinctPaths(xs) && Unseen(xs, 0, s0)
    requires forall i :: 0 <= i < |db| ==> db[i].queryFault.None?
    ensures var s := Consume(prefix, s0, xs[..k], db[..k]);
            && Inv(prefix, s)
            && s.count == k % (FileChanSize + 1)
            && |s.executed| == |s0.executed| + k / (FileChanSize + 1)
            && Unseen(xs, k, s)
  {
    if k > 0 {
      AllNewPrefix(prefix, s0, xs, db, k - 1);
      var s := Consume(prefix, s0, xs[..k - 1], db[..k - 1]);
      var x, r := xs[k - 1], db[k - 1];
      assert xs[..k][..k - 1] == xs[..k - 1] && db[..k][..k - 1] == db[..k - 1];
      assert Consume(prefix, s0, xs[..k], db[..k]) == Step(prefix, s, x, r);
      StepKeepsInv(prefix, s, x, r);
      StepOnUnseen(prefix, s, x, r);
      CountArithmetic(k - 1);
      var n := Step(prefix, s, x, r);
      forall j | k <= j < |xs|
        ensures xs[j].path !in n.rows && xs[j].path !in PathsOf(n.pending)
      {
        assert xs[k - 1].path != xs[j].path;
      }
    }
  }

  /** With every record new and every lookup answered, the loop executes one
      insert per fileChanSize + 1 records (the record that triggers the flush
      is lost) and the final one; the last batch holds the remainder. */
  lemma AllNewFlushPoints(prefix: string, s0: LoopState, xs: seq<FileHashInfo>, db: seq<DbReply>, ok: bool)
    requires |xs| == |db|
    requires Inv(prefix, s0) && s0.count == 0
    requires DistinctPaths(xs) && Unseen(xs, 0, s0)
    requires forall i :: 0 <= i < |db| ==> db[i].queryFault.None?
    ensures var s := Finish(Consume(prefix, s0, xs, db), ok);
            && |s.executed| == |s0.executed| + |xs| / (FileChanSize + 1) + 1
            && |Consume(prefix, s0, xs, db).pending| == |xs| % (FileChanSize + 1)
  {
    AllNewPrefix(prefix, s0, xs, db, |xs|);
    assert xs[..|xs|] == xs && db[..|db|] == db;
  }

  // ---------------------------------------------------------------------------
  // The table

  lemma StepKeepsKeyed(prefix: string, s: LoopState, x: FileHashInfo, reply: DbReply)
    requires Keyed(s.rows)
    ensures Keyed(Step(prefix, s, x, reply).rows)
  {
    KeyedPreserved(s.rows, x, reply, s.pending);
  }

  /** Every row stays under its own filePath through the whole loop. */
  lemma {:induction false} ConsumeKeepsKeyed(prefix: string, s: LoopState, xs: seq<FileHashInfo>, db: seq<DbReply>, ok: bool)
    requires |xs| == |db| && Keyed(s.rows)
    ensures Keyed(Consume(prefix, s, xs, db).rows)
    ensures Keyed(Finish(Consume(prefix, s, xs, db), ok).rows)
  {
    if xs != [] {
      ConsumeKeepsKeyed(prefix, s, xs[..|xs| - 1], db[..|db| - 1], ok);
      StepKeepsKeyed(prefix, Consume(prefix, s, xs[..|xs| - 1], db[..|db| - 1]), xs[|xs| - 1], db[|db| - 1]);
    }
    var c := Consume(prefix, s, xs, db);
    InsertAllKeyed(c.rows, c.pending);
  }

  // ---------------------------------------------------------------------------
  // The loop itself

  class Persister {
    const tableName: string
    /** The text every batch insert starts with, Prefix(tableName). */
    const prefix: string
    /** The table the connection reads and writes. */
    var rows: Table
    /** The fragments queued in insert. */
    var count: nat
    /** The statement under construction, prefix plus the queued fragments. */
    var insert: string
    /** The records whose fragments insert carries: the database's view of
        the statement, read only when it is executed (ExecInsert). The Go
        consumer holds no such variable. */
    var pending: seq<FileHashInfo>
    /** The batch inserts executed so far, in order. */
    var executed: seq<string>
    /** The messages sent on the error channel. */
    var errors: seq<string>

    function State(): LoopState
      reads this
    {
      LoopState(count, pending, insert, rows, executed, errors)
    }

    ghost predicate Valid()
      reads this
    {
      Inv(prefix, State())
    }

    /** A connection to a table holding rows. */
    constructor (tableName: string, rows: Table)
      ensures this.tableName == tableName && prefix == Prefix(tableName) && Valid()
      ensures State() == LoopState(0, [], Prefix(tableName), rows, [], [])
    {
      this.tableName := tableName;
      prefix := Prefix(tableName);
      this.rows := rows;
      count := 0;
      pending := [];
      insert := Prefix(tableName);
      executed := [];
      errors := [];
    }

    /** toDB: look the path up; queue a fragment for a NEW file, otherwise
        update its row at once and report a failed update. */
    method ToDB(file: FileHashInfo, reply: DbReply) returns (response: string)
      modifies this`rows, this`errors
      ensures var p := ToDBResult(old(rows), file, reply);
              response == p.response && rows == p.table && errors == old(errors) + p.reported
    {
      var lookup := QueryRow(rows, file.path, reply.queryFault);
      if lookup.NoRows? {
        response := Fragment(file);
        return;
      }
      var dbHash, dbTime := "", "";
      if lookup.Found? {
        dbHash, dbTime := lookup.row.hash, lookup.row.hashTime;
      }
      match reply.updateFault {
        case Some(cause) =>
          errors := errors + [UpdateError(cause)];
        case None =>
          rows := Update(rows, file, dbHash, dbTime);
      }
      response := "";
    }

    /** con.Exec(insert), whose error is ignored. */
    method Exec(ok: bool)
      modifies this`rows, this`executed
      ensures executed == old(executed) + [insert]
      ensures rows == ExecInsert(old(rows), pending, ok)
    {
      executed := executed + [insert];
      rows := ExecInsert(rows, pending, ok);
    }

    /** One pass of the loop body for the received record x. */
    method Receive(x: FileHashInfo, reply: DbReply)
      requires Valid()
      modifies this
      ensures State() == Step(prefix, old(State()), x, reply)
      ensures Valid()
    {
      StepKeepsInv(prefix, State(), x, reply);
      if count < FileChanSize {
        var response := ToDB(x, reply);
        if response != "" {
          if count == 0 {
            count := count + 1;
            insert := insert + response;
          } else {
            count := count + 1;
            insert := insert + ", " + response;
          }
          pending := pending + [x];
        }
      } else {
        count := 0;
        Exec(reply.insertOk);
        insert := prefix;
        pending := [];
      }
    }

    /** The consumer part of main: drain files, then the final execution. */
    method Run(files: seq<FileHashInfo>, db: seq<DbReply>, lastOk: bool)
      requires |db| == |files|
      modifies this
      ensures State() == Finish(Consume(prefix, Begin(prefix, old(State())), files, db), lastOk)
      ensures Valid()
    {
      count := 0;
      insert := prefix;
      pending := [];
      ghost var s0 := State();
      var i := 0;
      while i < |files|
        invariant 0 <= i <= |files|
        invariant State() == Consume(prefix, s0, files[..i], db[..i])
        invariant Valid()
      {
        Receive(files[i], db[i]);
        assert files[..i + 1][..i] == files[..i] && db[..i + 1][..i] == db[..i];
        i := i + 1;
      }
      assert files[..i] == files && db[..i] == db;
      ConsumeKeepsInv(prefix, s0, files, db);
      Exec(lastOk);
    }
  }

  /** Two runs of the program over the same file against an empty table, with
      a database that never fails: the first run inserts a NEW row, the second
      rotates it, so the row ends up with the first run's hash as oldHash and
      the second run's as hash. */
  method ScanTwice(tableName: string, first: FileHashInfo, second: FileHashInfo) returns (row: Row)
    requires first.path == second.path
    ensures row.filePath == first.path
    ensures row.oldHash == Some(first.hash) && row.oldTime == Some(first.hashTime)
    ensures row.hash == second.hash && row.hashTime == second.hashTime
  {
    var fine := DbReply(None, None, true);
    var p := new Persister(tableName, map[]);
    p.Run([first], [fine], true);
    assert [first][..0] == [] && [fine][..0] == [];
    assert p.rows == InsertAll(map[], [first]);
    assert p.rows == map[first.path := NewRow(first)];
    ghost var before := p.rows;
    UpdateBranch(before, second, fine);
    p.Run([second], [fine], true);
    assert [second][..0] == [] && [fine][..0] == [];
    row := p.rows[first.path];
  }
}
