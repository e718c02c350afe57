// The statement handle of DBD-SQLite/dbdimp.c: execute, fetch with one step of
// look-ahead, and finish.
module StHandle {
  import opened Engine
  import opened SqlScan
  import D = DbHandle

  // The fields of a statement handle and the engine's statement behind it.
  datatype Sth<Row> = Sth(active: bool, retval: StepResult, nrow: int, cur: Cursor<Row>)

  // An active handle that holds a row stands on it.
  predicate Valid<Row>(s: Sth<Row>) {
    && (s.active && s.retval == RRow ==> 1 <= s.cur.pos <= |s.cur.rows|)
    && (!s.active ==> s.cur.pos == 0 && !s.cur.err)
  }

  // What the engine delivers for one execution: its rows, then an error or the end; an
  // error on the first step may roll the transaction back.
  datatype Outcome<Row> = Outcome(rows: seq<Row>, fails: bool, aborts: bool, changes: int)

  // What a fetch yields; only Fetched carries a row.
  datatype Fetched<Row> = Fetched(row: Row) | NoMore | Failed | Inactive

  // ----- What each operation does to the handle -----

  function Reset<Row>(s: Sth<Row>): Sth<Row> {
    s.(cur := s.cur.Reset().0, retval := s.cur.Reset().1)
  }

  function Finish<Row>(s: Sth<Row>, dbActive: bool, isDestroy: bool): Sth<Row> {
    if !s.active then s
    else if !dbActive || isDestroy then s.(active := false)
    else Reset(s.(active := false))
  }

  function Fetch<Row>(s: Sth<Row>, dbActive: bool): (Sth<Row>, Fetched<Row>)
    requires dbActive ==> Valid(s)
  {
    if !dbActive || !s.active then (s, Inactive)
    else if s.retval == RDone then (Finish(s, dbActive, false), NoMore)
    else if s.retval != RRow then (Finish(s, dbActive, false), Failed)
    else
      var next := s.cur.Step();
      (s.(nrow := s.nrow + 1, cur := next.0, retval := next.1), Fetched(s.cur.rows[s.cur.pos - 1]))
  }

  // A fetch takes its look-ahead step.
  predicate Steps<Row>(s: Sth<Row>, dbActive: bool) {
    dbActive && s.active && s.retval == RRow
  }

  // How the look-ahead step of a fetch, if it takes one, ends for the connection; aborts
  // says whether an error rolls the transaction back.
  function StepReply<Row>(s: Sth<Row>, dbActive: bool, aborts: bool): Reply {
    if Steps(s, dbActive) && s.cur.Step().1 == RError then if aborts then FailAbort else Fail
    else Ok
  }

  // What a rollback on the connection does to a statement that stands on a row: the row
  // is still delivered, but the next step fails.
  function Trip<Row>(s: Sth<Row>): Sth<Row>
    requires Valid(s)
  {
    if s.active && s.retval == RRow then s.(cur := s.cur.(rows := s.cur.rows[..s.cur.pos], fails := true))
    else s
  }

  // The engine's answer to the steps that an execute takes itself: all of them for a
  // statement without columns, else the first.
  function FirstReply<Row>(out: Outcome<Row>, fields: nat): Reply {
    if out.fails && (fields == 0 || out.rows == []) then if out.aborts then FailAbort else Fail
    else Ok
  }

  // A handle whose statement delivered its first step.
  function Started<Row>(rows: seq<Row>, fails: bool): Sth<Row> {
    var first := Cursor(rows, fails, 0, false).Step();
    Sth(true, first.1, 0, first.0)
  }

  // The handle after the steps of an execute; ran says that the engine ran the statement.
  function Stepped<Row>(s: Sth<Row>, fields: nat, out: Outcome<Row>, ran: bool): (Sth<Row>, int) {
    var rows := if ran then out.rows else [];
    var fails := out.fails || !ran;
    if fields == 0 then
      if fails then (Sth(s.active, RError, 0, Cursor(rows, fails, 0, false)), -5)
      else (Sth(s.active, RDone, out.changes, Cursor(rows, fails, 0, false)), out.changes)
    else if rows == [] && fails then (Sth(s.active, RError, 0, Cursor(rows, fails, 0, false)), -6)
    else (Started(rows, fails), 0)
  }

  // sqlite_st_execute: the flags of the database handle are those of DbHandle.Execute.
  function Execute<S, Row>(d: D.Db<S>, s: Sth<Row>, sql: string, st: Stmt<S>, fields: nat,
                           bindOk: bool, beginReply: Reply, out: Outcome<Row>): (D.Db<S>, Sth<Row>, int)
  {
    if !d.active then (d, s, -2)
    else if s.active && s.cur.err then (d, Reset(s), -2)
    else
      var s1 := if s.active then Reset(s) else s;
      if !bindOk then (d, s1, -4)
      else
        var p := D.Prepare(d, sql, beginReply);
        if !p.1 then (p.0, s1, -2)
        else
          var ran := Run(p.0.conn, st, FirstReply(out, fields)).1;
          var r := Stepped(s1, fields, out, ran);
          (D.Execute(d, sql, st, fields, beginReply, FirstReply(out, fields)), r.0, r.1)
  }

  // ----- The handle object -----

  class Statement<S, Row> {
    const dbh: D.Handle<S>
    const sql: CString
    const st: Stmt<S>
    const fields: nat
    var active: bool
    var retval: StepResult
    var nrow: int
    var cur: Cursor<Row>

    ghost function State(): Sth<Row>
      reads this
    {
      Sth(active, retval, nrow, cur)
    }

    // sqlite_st_prepare
    constructor (dbh: D.Handle<S>, sql: CString, st: Stmt<S>, fields: nat)
      ensures this.dbh == dbh && this.sql == sql && this.st == st && this.fields == fields
      ensures State() == Sth(false, ROk, -1, Cursor([], false, 0, false))
    {
      this.dbh, this.sql, this.st, this.fields := dbh, sql, st, fields;
      active, retval, nrow, cur := false, ROk, -1, Cursor([], false, 0, false);
    }

    // sqlite3_step
    method Step() returns (r: StepResult)
      modifies this`cur
      ensures (cur, r) == old(cur).Step()
    {
      var next := cur.Step();
      cur, r := next.0, next.1;
    }

    // sqlite3_reset
    method DoReset() returns (r: StepResult)
      modifies this`cur
      ensures (cur, r) == old(cur).Reset()
    {
      var next := cur.Reset();
      cur, r := next.0, next.1;
    }

    // The loop of sqlite_st_execute for a statement without columns.
    method StepAll(changes: int) returns (rc: int)
      requires cur.pos == 0 && !cur.err
      modifies this
      ensures cur == old(cur) && active == old(active)
      ensures if cur.fails then rc == -5 && retval == RError && nrow == old(nrow)
              else rc == changes && retval == RDone && nrow == changes
    {
      retval := Step();
      while retval != RDone
        invariant active == old(active) && nrow == old(nrow)
        invariant cur.rows == old(cur.rows) && cur.fails == old(cur.fails)
        invariant 1 <= cur.pos <= |cur.rows| + 1
        invariant retval == if cur.pos <= |cur.rows| then RRow else if cur.fails then RError else RDone
        decreases |cur.rows| + 1 - cur.pos
      {
        if retval != RRow {
          var _ := DoReset();
          return -5;
        }
        retval := Step();
      }
      var _ := DoReset();
      nrow := changes;
      return nrow;
    }

    // sqlite_st_execute after the parameters are bound and the transaction is prepared:
    // the engine runs the statement at the first step.
    method RunSteps(out: Outcome<Row>) returns (rc: int)
      requires !cur.err && cur.pos == 0
      modifies this, dbh
      ensures var r := Run(old(dbh.conn), st, FirstReply(out, fields));
              && (State(), rc) == Stepped(old(State()), fields, out, r.1)
              && dbh.State() == var d := old(dbh.State()).(conn := r.0); if fields > 0 && r.1 then D.NoticeTxn(d) else d
      ensures dbh.useImmediate == old(dbh.useImmediate)
    {
      var r := Run(dbh.conn, st, FirstReply(out, fields));
      dbh.conn := r.0;
      cur := Cursor(if r.1 then out.rows else [], out.fails || !r.1, 0, false);
      nrow := 0;
      if fields == 0 {
        rc := StepAll(out.changes);
        return;
      }
      retval := Step();
      if retval == RRow || retval == RDone {
        active := true;
        if dbh.autoCommit && dbh.conn.inTxn {
          dbh.begunWork := true;
          dbh.autoCommit := false;
        }
        return 0;
      }
      var _ := DoReset();
      return -6;
    }

    method DoExecute(bindOk: bool, beginReply: Reply, out: Outcome<Row>) returns (rc: int)
      requires dbh.active ==> Valid(State())
      modifies this, dbh
      ensures (dbh.State(), State(), rc)
           == Execute(old(dbh.State()), old(State()), sql, st, fields, bindOk, beginReply, out)
      ensures dbh.useImmediate == old(dbh.useImmediate)
    {
      if !dbh.active {
        return -2;
      }
      if active {
        retval := DoReset();
        if retval != ROk {
          return -2;
        }
      }
      if !bindOk {
        return -4;
      }
      var go := dbh.DoPrepare(sql, beginReply);
      if !go {
        return -2;
      }
      rc := RunSteps(out);
    }

    // sqlite_st_finish3
    method DoFinish(isDestroy: bool) returns (ok: bool)
      modifies this
      ensures State() == Finish(old(State()), dbh.active, isDestroy)
      ensures ok <==> !(old(active) && dbh.active && !isDestroy && retval != ROk)
    {
      if !active {
        return true;
      }
      active := false;
      if !dbh.active {
        return true;
      }
      if isDestroy {
        return true;
      }
      retval := DoReset();
      return retval == ROk;
    }

    // sqlite_st_fetch
    method DoFetch(opens: bool, aborts: bool) returns (f: Fetched<Row>)
      requires dbh.active ==> Valid(State())
      modifies this, dbh`conn
      ensures (State(), f) == Fetch(old(State()), dbh.active)
      ensures dbh.State() == D.LookAhead(old(dbh.State()), opens && Steps(old(State()), dbh.active),
                                         StepReply(old(State()), dbh.active, aborts))
    {
      if !dbh.active {
        return Inactive;
      }
      if !active {
        return Inactive;
      }
      if retval == RDone {
        var _ := DoFinish(false);
        return NoMore;
      }
      if retval != RRow {
        var _ := DoFinish(false);
        return Failed;
      }
      nrow := nrow + 1;
      f := Fetched(cur.rows[cur.pos - 1]);
      retval := Step();
      if retval == RError && aborts {
        dbh.conn := dbh.conn.RolledBack();
      } else if opens {
        dbh.conn := dbh.conn.(inTxn := true);
      }
    }
  }

  // ----- The look-ahead cursor is a row list -----

  lemma ExecuteKeepsValid<S, Row>(d: D.Db<S>, s: Sth<Row>, sql: string, st: Stmt<S>, fields: nat,
                                  bindOk: bool, beginReply: Reply, out: Outcome<Row>)
    requires Valid(s)
    ensures Valid(Execute(d, s, sql, st, fields, bindOk, beginReply, out).1)
  {}

  // On the database handle an execute is one step of DbHandle.Execute, or nothing.
  lemma ExecuteIsDbStep<S, Row>(d: D.Db<S>, s: Sth<Row>, sql: string, st: Stmt<S>, fields: nat,
                                bindOk: bool, beginReply: Reply, out: Outcome<Row>)
    ensures var r := Execute(d, s, sql, st, fields, bindOk, beginReply, out);
            r.0 == d || r.0 == D.Execute(d, sql, st, fields, beginReply, FirstReply(out, fields))
    ensures Execute(d, s, sql, st, fields, bindOk, beginReply, out).2 >= 0 && out.changes >= 0
      ==> Execute(d, s, sql, st, fields, bindOk, beginReply, out).0
          == D.Execute(d, sql, st, fields, beginReply, FirstReply(out, fields))
  {}

  lemma FetchKeepsValid<Row>(s: Sth<Row>)
    requires Valid(s)
    ensures Valid(Fetch(s, true).0)
  {}

  // The handle and the answers after k fetches.
  function FetchMany<Row>(s: Sth<Row>, k: nat): (r: (Sth<Row>, seq<Fetched<Row>>))
    requires Valid(s)
    ensures Valid(r.0) && |r.1| == k
  {
    if k == 0 then (s, [])
    else
      var r := FetchMany(s, k - 1);
      var f := Fetch(r.0, true);
      (f.0, r.1 + [f.1])
  }

  // What a plain list of rows, ended by an error or not, answers to the i-th fetch.
  function Answer<Row>(rows: seq<Row>, fails: bool, i: nat): Fetched<Row> {
    if i < |rows| then Fetched(rows[i])
    else if i == |rows| then if fails then Failed else NoMore
    else Inactive
  }

  // The handle after k fetches, in closed form.
  function Position<Row>(rows: seq<Row>, fails: bool, k: nat): Sth<Row> {
    if k < |rows| then Sth(true, RRow, k, Cursor(rows, fails, k + 1, false))
    else if k == |rows| then Sth(true, if fails then RError else RDone, k, Cursor(rows, fails, k + 1, fails))
    else Sth(false, if fails then RError else ROk, |rows|, Cursor(rows, fails, 0, false))
  }

  lemma PositionStep<Row>(rows: seq<Row>, fails: bool, k: nat)
    ensures Valid(Position(rows, fails, k))
    ensures Fetch(Position(rows, fails, k), true) == (Position(rows, fails, k + 1), Answer(rows, fails, k))
  {}

  lemma TripPosition<Row>(rows: seq<Row>, fails: bool, k: nat)
    ensures Valid(Position(rows, fails, k))
    ensures Trip(Position(rows, fails, k))
         == if k < |rows| then Position(rows[..k + 1], true, k) else Position(rows, fails, k)
  {}

  lemma StartedIsPosition<Row>(rows: seq<Row>, fails: bool)
    requires rows != [] || !fails
    ensures Started(rows, fails) == Position(rows, fails, 0)
  {}

  lemma {:induction false} FetchesReachPosition<Row>(rows: seq<Row>, fails: bool, k: nat)
    ensures Valid(Position(rows, fails, 0))
    ensures FetchMany(Position(rows, fails, 0), k).0 == Position(rows, fails, k)
  {
    hide Fetch, Position, Valid;
    PositionStep(rows, fails, k);
    PositionStep(rows, fails, 0);
    if k > 0 {
      FetchesReachPosition(rows, fails, k - 1);
      PositionStep(rows, fails, k - 1);
    }
  }

  lemma {:induction false} FetchesAnswer<Row>(rows: seq<Row>, fails: bool, k: nat)
    ensures Valid(Position(rows, fails, 0))
    ensures FetchMany(Position(rows, fails, 0), k).1 == seq(k, i requires 0 <= i < k => Answer(rows, fails, i))
  {
    hide Fetch, Position, Valid, Answer;
    PositionStep(rows, fails, 0);
    if k > 0 {
      FetchesAnswer(rows, fails, k - 1);
      FetchesReachPosition(rows, fails, k - 1);
      PositionStep(rows, fails, k - 1);
    }
  }

  // After an execute that returns columns: the k-th fetch yields row k, none lost or
  // repeated; the fetch after the last row reports the end, or the error, and deactivates
  // the handle; nrow counts the rows delivered.
  lemma FetchesDeliverRows<S, Row>(d: D.Db<S>, s: Sth<Row>, sql: string, st: Stmt<S>, fields: nat,
                                   bindOk: bool, beginReply: Reply, out: Outcome<Row>, k: nat)
    requires Valid(s) && fields > 0
    requires Execute(d, s, sql, st, fields, bindOk, beginReply, out).2 == 0
    ensures var s0 := Execute(d, s, sql, st, fields, bindOk, beginReply, out).1;
            && Valid(s0)
            && FetchMany(s0, k).1 == seq(k, i requires 0 <= i < k => Answer(out.rows, out.fails, i))
            && FetchMany(s0, k).0.nrow == (if k < |out.rows| then k else |out.rows|)
            && (FetchMany(s0, k).0.active <==> k <= |out.rows|)
  {
    hide Execute, Fetch, Started;
    ExecuteStarts(d, s, sql, st, fields, bindOk, beginReply, out);
    StartedIsPosition(out.rows, out.fails);
    FetchesReachPosition(out.rows, out.fails, k);
    FetchesAnswer(out.rows, out.fails, k);
  }

  lemma ExecuteStarts<S, Row>(d: D.Db<S>, s: Sth<Row>, sql: string, st: Stmt<S>, fields: nat,
                              bindOk: bool, beginReply: Reply, out: Outcome<Row>)
    requires fields > 0 && Execute(d, s, sql, st, fields, bindOk, beginReply, out).2 == 0
    ensures Execute(d, s, sql, st, fields, bindOk, beginReply, out).1 == Started(out.rows, out.fails)
    ensures out.rows != [] || !out.fails
  {
    hide Run, FirstReply, SqlScan.Scan;
  }

  // Why an execute fails, and what it answers; a statement without columns answers the
  // number of changes, which nrow keeps.
  lemma ExecuteAnswers<S, Row>(d: D.Db<S>, s: Sth<Row>, sql: string, st: Stmt<S>, fields: nat,
                               bindOk: bool, beginReply: Reply, out: Outcome<Row>)
    ensures var r := Execute(d, s, sql, st, fields, bindOk, beginReply, out);
            var p := D.Prepare(d, sql, beginReply);
            if !d.active || (s.active && s.cur.err) then r.2 == -2 && r.0 == d
            else if !bindOk then r.2 == -4 && r.0 == d && r.1 == (if s.active then Reset(s) else s)
            else if !p.1 then r.2 == -2 && r.0 == p.0 && r.1 == (if s.active then Reset(s) else s)
            else
              var ran := Run(p.0.conn, st, FirstReply(out, fields)).1;
              && (r.2 != 0 || fields == 0 ==> r.1.active == s.active && r.1.cur.pos == 0 && !r.1.cur.err)
              && r.1.nrow == (if fields == 0 && ran && !out.fails then out.changes else 0)
              && r.2 == (if fields > 0 then if ran && (out.rows != [] || !out.fails) then 0 else -6
                         else if ran && !out.fails then out.changes else -5)
  {
    hide D.Prepare, Run, FirstReply, D.Execute;
  }

  // The steps of an execute fail for the engine exactly if its statement fails before the
  // first row, or at all if it has no columns, and roll back if that error does; the step
  // of a fetch fails exactly if it meets the error after the last row.
  lemma FailingSteps<Row>(out: Outcome<Row>, fields: nat, s: Sth<Row>, dbActive: bool, aborts: bool)
    ensures FirstReply(out, fields) != Ok <==> out.fails && (fields == 0 || out.rows == [])
    ensures FirstReply(out, fields) != Ok ==> (FirstReply(out, fields) == FailAbort <==> out.aborts)
    ensures StepReply(s, dbActive, aborts) != Ok
      <==> dbActive && s.active && s.retval == RRow && s.cur.pos >= |s.cur.rows| && s.cur.fails
    ensures StepReply(s, dbActive, aborts) != Ok ==> (StepReply(s, dbActive, aborts) == FailAbort <==> aborts)
  {}

  // A fetch on a closed connection or an inactive handle yields nothing and changes nothing.
  lemma FetchInactive<Row>(s: Sth<Row>, dbActive: bool)
    requires dbActive ==> Valid(s)
    ensures Fetch(s, dbActive).1 == Inactive <==> !dbActive || !s.active
    ensures Fetch(s, dbActive).1 == Inactive ==> Fetch(s, dbActive).0 == s
  {}

  // Finishing deactivates an active handle, and resets the engine's statement unless the
  // connection is closed or the handle is being destroyed.
  lemma FinishMeans<Row>(s: Sth<Row>, dbActive: bool, isDestroy: bool)
    ensures var e := Finish(s, dbActive, isDestroy);
            && !e.active && e.nrow == s.nrow
            && (if s.active && dbActive && !isDestroy
                then e.cur == s.cur.(pos := 0, err := false) && (e.retval == RError <==> s.cur.err)
                else e == s.(active := false))
  {}

  // An UPDATE of three rows answers 3.
  lemma ChangesAreAnswered<S, Row>(d: D.Db<S>, s: Sth<Row>, sql: string, effect: S -> S, rows: seq<Row>, n: int)
    requires d.active && !(s.active && s.cur.err) && D.Prepare(d, sql, Ok).1
    ensures var r := Execute(d, s, sql, SWrite(effect, false), 0, true, Ok, Outcome(rows, false, false, n));
            r.2 == n && r.1.nrow == n && r.1.retval == RDone && !r.1.cur.err && r.1.cur.pos == 0
  {}

  // Executing in whatever state the handles are starts from the first row of the new
  // result, unless the look-ahead has met an error and was not reset since.
  lemma ReexecuteRestarts<S, Row>(d: D.Db<S>, s: Sth<Row>, sql: string, st: Stmt<S>,
                                  fields: nat, beginReply: Reply, out: Outcome<Row>)
    requires d.active && fields > 0
    requires D.Prepare(d, sql, beginReply).1
    requires Run(D.Prepare(d, sql, beginReply).0.conn, st, FirstReply(out, fields)).1
    ensures var r := Execute(d, s, sql, st, fields, true, beginReply, out);
            if s.active && s.cur.err then r.0 == d && r.1 == Reset(s) && r.2 == -2
            else r.1 == Started(out.rows, out.fails) && r.2 == 0
  {}

  // The failed execute clears the error, so that the next one starts.
  lemma ReexecuteTwiceRestarts<S, Row>(d: D.Db<S>, s: Sth<Row>, sql: string, st: Stmt<S>,
                                       fields: nat, beginReply: Reply, out: Outcome<Row>)
    requires d.active && fields > 0 && s.active && s.cur.err
    requires D.Prepare(d, sql, beginReply).1
    requires Run(D.Prepare(d, sql, beginReply).0.conn, st, FirstReply(out, fields)).1
    ensures var once := Execute(d, s, sql, st, fields, true, beginReply, out);
            var twice := Execute(once.0, once.1, sql, st, fields, true, beginReply, out);
            once.2 == -2 && twice.2 == 0 && twice.1 == Started(out.rows, out.fails)
  {
    hide Execute, D.Prepare, Run, FirstReply;
    ReexecuteRestarts(d, s, sql, st, fields, beginReply, out);
    ReexecuteRestarts(d, Reset(s), sql, st, fields, beginReply, out);
  }
}
