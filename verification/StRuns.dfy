// Runs of a statement handle among other work on its connection.
module StRuns {
  import opened Engine
  import opened Options
  import opened SqlScan
  import opened StHandle
  import D = DbHandle
  import T = TxnRuns

  // What was prepared: the text, what the engine reads in it, and its columns.
  datatype Prepared<!S> = Prepared(sql: CString, st: Stmt<S>, fields: nat)

  // One operation on the statement handle, or any other one on its connection. If that one
  // rolls back, trips says whether it reaches the cursor of a statement still reading: it
  // need not reach one that has collected its rows.
  datatype Act<!S, Row> =
    | AExecute(bindOk: bool, beginReply: Reply, out: Outcome<Row>)
    | AFetch(opens: bool, aborts: bool)
    | AFinish
    | AOther(op: T.Op<S>, trips: bool)

  // The two handles together.
  datatype Pair<S, Row> = Pair(d: D.Db<S>, s: Sth<Row>)

  // Once the connection is closed nothing is done to the statement any more.
  predicate Ready<S, Row>(p: Pair<S, Row>) {
    p.d.active ==> Valid(p.s)
  }

  function Next<S, Row>(stm: Prepared<S>, p: Pair<S, Row>, act: Act<S, Row>): (r: Pair<S, Row>)
    requires Ready(p)
    ensures Ready(r) && (r.d.active ==> p.d.active)
  {
    match act
    case AExecute(bindOk, beginReply, out) =>
      ExecuteKeepsReady(stm, p, bindOk, beginReply, out);
      var r := Execute(p.d, p.s, stm.sql, stm.st, stm.fields, bindOk, beginReply, out);
      Pair(r.0, r.1)
    case AFetch(opens, aborts) =>
      Pair(D.LookAhead(p.d, opens && Steps(p.s, p.d.active), StepReply(p.s, p.d.active, aborts)),
           Fetch(p.s, p.d.active).0)
    case AFinish => Pair(p.d, Finish(p.s, p.d.active, false))
    case AOther(op, trips) =>
      Pair(T.Next(p.d, op), if p.d.active && trips && T.MayRollBack(op) then Trip(p.s) else p.s)
  }

  lemma ExecuteKeepsReady<S, Row>(stm: Prepared<S>, p: Pair<S, Row>, bindOk: bool, beginReply: Reply, out: Outcome<Row>)
    requires Ready(p)
    ensures var r := Execute(p.d, p.s, stm.sql, stm.st, stm.fields, bindOk, beginReply, out);
            (r.0.active ==> Valid(r.1)) && (r.0.active <==> p.d.active) && !(r.0.active && r.1.active && r.1.cur.err)
  {
    hide Run, SqlScan.Scan, FirstReply;
  }

  function After<S, Row>(stm: Prepared<S>, p: Pair<S, Row>, acts: seq<Act<S, Row>>): (r: Pair<S, Row>)
    requires Ready(p)
    ensures Ready(r) && (r.d.active ==> p.d.active)
  {
    if acts == [] then p else Next(stm, After(stm, p, acts[..|acts| - 1]), acts[|acts| - 1])
  }

  // ----- Executing again at any point -----

  // The last operation on the statement was a fetch whose look-ahead met an error.
  predicate ErrorPending<S, Row>(stm: Prepared<S>, p: Pair<S, Row>, acts: seq<Act<S, Row>>)
    requires Ready(p)
  {
    if acts == [] then false
    else
      var init, act := acts[..|acts| - 1], acts[|acts| - 1];
      match act
      case AOther(_, _) => ErrorPending(stm, p, init)
      case AFetch(_, aborts) => var b := After(stm, p, init); StepReply(b.s, b.d.active, aborts) != Ok
      case _ => false
  }

  lemma PendingStep<S, Row>(stm: Prepared<S>, p: Pair<S, Row>, act: Act<S, Row>)
    requires Ready(p) && Next(stm, p, act).d.active
    ensures var e := Next(stm, p, act).s;
            e.active && e.cur.err <==>
            match act
            case AOther(_, _) => p.s.active && p.s.cur.err
            case AFetch(_, aborts) => StepReply(p.s, p.d.active, aborts) != Ok
            case _ => false
  {
    if act.AExecute? {
      ExecuteKeepsReady(stm, p, act.bindOk, act.beginReply, act.out);
    }
  }

  lemma {:induction false} PendingMeans<S, Row>(stm: Prepared<S>, p: Pair<S, Row>, acts: seq<Act<S, Row>>)
    requires Ready(p) && !(p.s.active && p.s.cur.err) && After(stm, p, acts).d.active
    ensures var e := After(stm, p, acts).s; e.active && e.cur.err <==> ErrorPending(stm, p, acts)
  {
    if acts != [] {
      var init, act := acts[..|acts| - 1], acts[|acts| - 1];
      PendingMeans(stm, p, init);
      PendingStep(stm, After(stm, p, init), act);
    }
  }

  // After any run an execute that the engine carries out starts from the first row,
  // except exactly when an error of the look-ahead is pending: then it fails and leaves
  // the connection alone.
  lemma RunRestarts<S, Row>(stm: Prepared<S>, p: Pair<S, Row>, acts: seq<Act<S, Row>>,
                            beginReply: Reply, out: Outcome<Row>)
    requires Ready(p) && !(p.s.active && p.s.cur.err) && stm.fields > 0
    requires var d := After(stm, p, acts).d;
             && d.active && D.Prepare(d, stm.sql, beginReply).1
             && Run(D.Prepare(d, stm.sql, beginReply).0.conn, stm.st, FirstReply(out, stm.fields)).1
    ensures var e := After(stm, p, acts);
            var r := Execute(e.d, e.s, stm.sql, stm.st, stm.fields, true, beginReply, out);
            if ErrorPending(stm, p, acts) then r.2 == -2 && r.0 == e.d
            else r.2 == 0 && r.1 == Started(out.rows, out.fails)
  {
    hide Next, Execute, D.Prepare, Run, FirstReply;
    PendingMeans(stm, p, acts);
    var e := After(stm, p, acts);
    ReexecuteRestarts(e.d, e.s, stm.sql, stm.st, stm.fields, beginReply, out);
  }

  // ----- Fetches among other work -----

  predicate FetchesOnly<S, Row>(acts: seq<Act<S, Row>>) {
    forall i :: 0 <= i < |acts| ==> acts[i].AFetch? || acts[i].AOther?
  }

  // What the fetches of a run yield.
  function Yields<S, Row>(stm: Prepared<S>, p: Pair<S, Row>, acts: seq<Act<S, Row>>): seq<Fetched<Row>>
    requires Ready(p)
  {
    if acts == [] then []
    else
      var init, act := acts[..|acts| - 1], acts[|acts| - 1];
      var b := After(stm, p, init);
      Yields(stm, p, init) + if act.AFetch? then [Fetch(b.s, b.d.active).1] else []
  }

  // The operation is a rollback that reaches the statement while it stands on a row.
  predicate Reaches<S, Row>(p: Pair<S, Row>, act: Act<S, Row>) {
    act.AOther? && act.trips && T.MayRollBack(act.op) && Steps(p.s, p.d.active)
  }

  // The number of rows that the engine had delivered at the first such rollback.
  function CutAt<S, Row>(stm: Prepared<S>, p: Pair<S, Row>, acts: seq<Act<S, Row>>): Option<nat>
    requires Ready(p)
  {
    if acts == [] then None
    else
      var init, act := acts[..|acts| - 1], acts[|acts| - 1];
      var b := After(stm, p, init);
      if CutAt(stm, p, init).Some? then CutAt(stm, p, init)
      else if Reaches(b, act) then Some(b.s.cur.pos)
      else None
  }

  // What is left of a row list, and of its end.
  function Left<Row>(rows: seq<Row>, c: Option<nat>): seq<Row> {
    if c.Some? && c.value <= |rows| then rows[..c.value] else rows
  }

  function Answers<Row>(rows: seq<Row>, fails: bool, n: nat): seq<Fetched<Row>> {
    seq(n, i requires 0 <= i < n => Answer(rows, fails, i))
  }

  // The state of a run that began in Position(rows, fails, 0): after k fetches, and the
  // first rollback that reached it at c.
  ghost predicate Standing<Row>(rows: seq<Row>, fails: bool, s: Sth<Row>, c: Option<nat>, y: seq<Fetched<Row>>) {
    && (c.Some? ==> 1 <= c.value <= |rows| && c.value <= |y| + 1)
    && s == Position(Left(rows, c), fails || c.Some?, |y|)
    && y == Answers(Left(rows, c), fails || c.Some?, |y|)
  }

  lemma FetchStands<Row>(rows: seq<Row>, fails: bool, s: Sth<Row>, c: Option<nat>, y: seq<Fetched<Row>>)
    requires Standing(rows, fails, s, c, y)
    ensures Valid(s) && Standing(rows, fails, Fetch(s, true).0, c, y + [Fetch(s, true).1])
  {
    hide Fetch, Position, Answer;
    PositionStep(Left(rows, c), fails || c.Some?, |y|);
  }

  lemma TripStands<Row>(rows: seq<Row>, fails: bool, s: Sth<Row>, c: Option<nat>, y: seq<Fetched<Row>>)
    requires Standing(rows, fails, s, c, y)
    ensures Valid(s)
    ensures Standing(rows, fails, Trip(s), if c.None? && Steps(s, true) then Some(s.cur.pos) else c, y)
  {
    TripPosition(Left(rows, c), fails || c.Some?, |y|);
    if c.None? && Steps(s, true) {
      assert s.cur.pos == |y| + 1;
      assert Answers(rows[..|y| + 1], true, |y|) == Answers(rows, fails, |y|);
    } else if c.Some? && Steps(s, true) {
      assert c.value == |y| + 1;
      assert Left(rows, c)[..|y| + 1] == Left(rows, c);
    }
  }

  lemma {:induction false} RunStands<S, Row>(stm: Prepared<S>, p: Pair<S, Row>, rows: seq<Row>, fails: bool,
                                             acts: seq<Act<S, Row>>)
    requires Ready(p) && p.s == Position(rows, fails, 0)
    requires FetchesOnly(acts) && After(stm, p, acts).d.active
    ensures Standing(rows, fails, After(stm, p, acts).s, CutAt(stm, p, acts), Yields(stm, p, acts))
  {
    if acts == [] {
      assert Answers(rows, fails, 0) == [];
    } else {
      var init, act := acts[..|acts| - 1], acts[|acts| - 1];
      RunStands(stm, p, rows, fails, init);
      var b, c, y := After(stm, p, init), CutAt(stm, p, init), Yields(stm, p, init);
      hide Standing, Fetch, Trip, T.Next, D.LookAhead;
      if act.AFetch? {
        FetchStands(rows, fails, b.s, c, y);
      } else {
        assert act.AOther?;
        TripStands(rows, fails, b.s, c, y);
        assert y + [] == y;
      }
    }
  }

  // After a successful execute the fetches of any run yield the rows in order, none lost
  // or repeated, whatever else is done on the connection in between, up to the first
  // rollback that reaches the statement: the row it stands on then is the last.
  lemma RowsAmongOtherWork<S, Row>(stm: Prepared<S>, p: Pair<S, Row>, bindOk: bool, beginReply: Reply, out: Outcome<Row>,
                                   acts: seq<Act<S, Row>>)
    requires Ready(p) && p.d.active && stm.fields > 0 && FetchesOnly(acts)
    requires Execute(p.d, p.s, stm.sql, stm.st, stm.fields, bindOk, beginReply, out).2 == 0
    requires After(stm, Next(stm, p, AExecute(bindOk, beginReply, out)), acts).d.active
    ensures var q := Next(stm, p, AExecute(bindOk, beginReply, out));
            var y, c := Yields(stm, q, acts), CutAt(stm, q, acts);
            && (c.Some? ==> 1 <= c.value <= |out.rows|)
            && y == Answers(Left(out.rows, c), out.fails || c.Some?, |y|)
  {
    hide Execute, Fetch, After, Yields, Answers, CutAt, Position;
    var q := Next(stm, p, AExecute(bindOk, beginReply, out));
    ExecuteStarts(p.d, p.s, stm.sql, stm.st, stm.fields, bindOk, beginReply, out);
    StartedIsPosition(out.rows, out.fails);
    RunStands(stm, q, out.rows, out.fails, acts);
  }

  // Cutting a list shows, once it is read to its end, unless the list ends in an error
  // after the very row it is cut at.
  lemma CutShows<Row>(rows: seq<Row>, fails: bool, c: Option<nat>, n: nat)
    requires n > |rows| && (c.Some? ==> 1 <= c.value <= |rows|)
    ensures Answers(Left(rows, c), fails || c.Some?, n) == Answers(rows, fails, n)
      <==> c.None? || (c.value == |rows| && fails)
  {
    if c.Some? {
      assert Answers(Left(rows, c), true, n)[c.value] == Failed;
      assert Answers(rows, fails, n)[c.value] == Answer(rows, fails, c.value);
      if c.value == |rows| {
        assert Left(rows, c) == rows;
      }
    }
  }

  // So a run that fetches to the end sees the whole list, as if nothing else were done,
  // if and only if no rollback reached the statement before its last row, or none at all
  // when no error was to follow that row.
  lemma AllRowsExactly<S, Row>(stm: Prepared<S>, p: Pair<S, Row>, bindOk: bool, beginReply: Reply, out: Outcome<Row>,
                               acts: seq<Act<S, Row>>)
    requires Ready(p) && p.d.active && stm.fields > 0 && FetchesOnly(acts)
    requires Execute(p.d, p.s, stm.sql, stm.st, stm.fields, bindOk, beginReply, out).2 == 0
    requires After(stm, Next(stm, p, AExecute(bindOk, beginReply, out)), acts).d.active
    ensures var q := Next(stm, p, AExecute(bindOk, beginReply, out));
            var y, c := Yields(stm, q, acts), CutAt(stm, q, acts);
            |y| > |out.rows| ==>
              (y == Answers(out.rows, out.fails, |y|) <==> c.None? || (c.value == |out.rows| && out.fails))
  {
    hide Next, Execute, Fetch, After, Yields, Answers, CutAt, Left;
    RowsAmongOtherWork(stm, p, bindOk, beginReply, out, acts);
    var q := Next(stm, p, AExecute(bindOk, beginReply, out));
    if |Yields(stm, q, acts)| > |out.rows| {
      CutShows(out.rows, out.fails, CutAt(stm, q, acts), |Yields(stm, q, acts)|);
    }
  }

  // Work that does not roll back never reaches it.
  lemma {:induction false} NoRollbackNoCut<S, Row>(stm: Prepared<S>, p: Pair<S, Row>, acts: seq<Act<S, Row>>)
    requires Ready(p)
    requires forall i :: 0 <= i < |acts| && acts[i].AOther? ==> !T.MayRollBack(acts[i].op)
    ensures CutAt(stm, p, acts) == None
  {
    if acts != [] {
      hide Next, T.MayRollBack;
      NoRollbackNoCut(stm, p, acts[..|acts| - 1]);
    }
  }

  // Three rows, and a rollback before the first fetch: that fetch yields the row already
  // looked ahead, and the next one fails.
  lemma RollbackLosesRows<S, Row>(stm: Prepared<S>, d: D.Db<S>, a: Row, b: Row, c: Row)
    requires d.active
    ensures var p := Pair(d, Started([a, b, c], false));
            Ready(p) && Yields(stm, p, [AOther(T.OpRollback(Ok), true), AFetch(false, false), AFetch(false, false)])
                        == [Fetched(a), Failed]
  {
    var p := Pair(d, Started([a, b, c], false));
    var act0: Act<S, Row>, act1: Act<S, Row> := AOther(T.OpRollback(Ok), true), AFetch(false, false);
    assert [act0, act1, act1][..2] == [act0, act1] && [act0, act1][..1] == [act0] && [act0][..0] == [];
    assert After(stm, p, []) == p;
    assert After(stm, p, [act0]).s == Position([a], true, 0);
    assert After(stm, p, [act0, act1]).s == Position([a], true, 1);
    assert Yields(stm, p, [act0]) == [];
    assert Yields(stm, p, [act0, act1]) == [Fetched(a)];
  }
}
