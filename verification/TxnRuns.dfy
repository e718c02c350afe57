// Runs of a database handle: what the AutoCommit and BegunWork flags say about the
// engine's transaction, and when committed data can change.
module TxnRuns {
  import opened Engine
  import opened SqlScan
  import opened DbHandle

  // ----- Operations and runs -----

  datatype Op<!S> =
    | OpExecute(sql: CString, st: Stmt<S>, fields: nat, beginReply: Reply, reply: Reply)
    | OpFetch(opens: bool, reply: Reply)
    | OpCommit(reply: Reply)
    | OpRollback(reply: Reply)
    | OpAutoCommit(on: bool, reply: Reply)
    | OpBeginWork
    | OpDisconnect(reply: Reply)

  function Next<S>(d: Db<S>, op: Op<S>): Db<S> {
    match op
    case OpExecute(sql, st, fields, beginReply, reply) => Execute(d, sql, st, fields, beginReply, reply)
    case OpFetch(opens, reply) => if d.active then LookAhead(d, opens, reply) else d
    case OpCommit(reply) => Commit(d, reply).0
    case OpRollback(reply) => Rollback(d, reply).0
    case OpAutoCommit(on, reply) => StoreAutoCommit(d, on, reply)
    case OpBeginWork => BeginWork(d)
    case OpDisconnect(reply) => Disconnect(d, reply)
  }

  function After<S>(d: Db<S>, ops: seq<Op<S>>): Db<S> {
    if ops == [] then d else Next(After(d, ops[..|ops| - 1]), ops[|ops| - 1])
  }

  // AutoCommit on means no open transaction, and BegunWork means AutoCommit off.
  ghost predicate Consistent<S>(d: Db<S>) {
    && d.conn.Valid()
    && (d.autoCommit ==> !d.conn.inTxn)
    && (d.begunWork ==> !d.autoCommit)
    && (!d.active ==> !d.conn.inTxn)
  }

  // ----- Exactly when a step breaks the flags -----

  predicate OpensTxn<S>(st: Stmt<S>) {
    st.SBegin? || st.SSavepoint? || OpensInside(st)
  }

  // A statement run outside a transaction opens one, and the handle does not look: it has
  // no columns, or the statement fails.
  predicate OpensUnnoticed<S>(st: Stmt<S>, fields: nat, reply: Reply) {
    (reply == Ok && OpensTxn(st) && fields == 0) || (reply == Fail && OpensInside(st))
  }

  // Only the outermost savepoint has that name.
  predicate OnlyOutermost<S>(saves: seq<(string, S)>, name: string) {
    0 < |saves| && saves[0].0 == name && forall i :: 0 < i < |saves| ==> saves[i].0 != name
  }

  predicate HasSave<S>(saves: seq<(string, S)>, name: string) {
    exists i :: 0 <= i < |saves| && saves[i].0 == name
  }

  // Releasing the savepoint that opened the transaction commits it.
  predicate ReleasesAll<S>(c: Conn<S>, st: Stmt<S>) {
    st.SRelease? && c.spOpened && OnlyOutermost(c.saves, st.name)
  }

  // The engine leaves the open transaction of c.
  predicate EndsTxn<S>(c: Conn<S>, st: Stmt<S>, reply: Reply) {
    reply == FailAbort || (reply == Ok
      && (st.SCommit? || st.SRollback? || ReleasesAll(c, st)))
  }

  // The statement succeeds inside the open transaction of c.
  predicate Succeeds<S>(c: Conn<S>, st: Stmt<S>, reply: Reply) {
    && reply == Ok && !st.SBegin?
    && (st.SRelease? || st.SRollbackTo? ==> HasSave(c.saves, st.name))
  }

  // The steps after which the flags and the engine disagree, told from the state before:
  // under AutoCommit, a statement that opens a transaction unnoticed although the scan does
  // not read BEGIN, or a fetch whose look-ahead opens one; a COMMIT or ROLLBACK, by call or
  // as the scan reads it, that leaves begun work open; and turning AutoCommit on over
  // begun work.
  predicate Breaks<S>(d: Db<S>, op: Op<S>) {
    match op
    case OpExecute(sql, st, fields, beginReply, reply) =>
      && d.active
      && ((!d.conn.inTxn && d.autoCommit && !Scan(sql).KBegin? && OpensUnnoticed(st, fields, reply))
          || (d.conn.inTxn && d.begunWork && (Scan(sql).KCommit? || Scan(sql).KRollback?)
              && !EndsTxn(d.conn, st, reply) && !(fields > 0 && Succeeds(d.conn, st, reply))))
    case OpFetch(opens, reply) => d.active && d.autoCommit && opens && reply != FailAbort
    case OpCommit(reply) => d.active && d.conn.inTxn && d.begunWork && reply == Fail
    case OpRollback(reply) => d.active && d.conn.inTxn && d.begunWork && reply == Fail
    case OpAutoCommit(on, reply) => on && d.begunWork && !(d.conn.inTxn && reply != Ok)
    case OpBeginWork => false
    case OpDisconnect(_) => false
  }

  lemma RunInsideTxn<S>(c: Conn<S>, st: Stmt<S>, reply: Reply)
    requires c.Valid() && c.inTxn
    ensures Run(c, st, reply).0.inTxn <==> !EndsTxn(c, st, reply)
    ensures Run(c, st, reply).1 <==> Succeeds(c, st, reply)
  {
    if st.SRelease? || st.SRollbackTo? {
      FindSaveSpec(c.saves, st.name);
    }
  }

  lemma ExecuteBreaksExactly<S>(d: Db<S>, sql: CString, st: Stmt<S>, fields: nat, beginReply: Reply, reply: Reply)
    requires Consistent(d)
    ensures Consistent(Execute(d, sql, st, fields, beginReply, reply))
      <==> !Breaks(d, OpExecute(sql, st, fields, beginReply, reply))
  {
    if d.conn.inTxn {
      RunKeepsValid(d.conn, st, reply);
      RunInsideTxn(d.conn, st, reply);
    } else {
      ExecuteOutsideTxn(d, sql, st, fields, beginReply, reply);
    }
  }

  lemma ExecuteOutsideTxn<S>(d: Db<S>, sql: CString, st: Stmt<S>, fields: nat, beginReply: Reply, reply: Reply)
    requires Consistent(d) && !d.conn.inTxn
    ensures Consistent(Execute(d, sql, st, fields, beginReply, reply))
      <==> !Breaks(d, OpExecute(sql, st, fields, beginReply, reply))
  {}

  // One step keeps the flags in agreement with the engine exactly when it is not one of
  // those; a failed BEGIN is not.
  lemma StepBreaksExactly<S>(d: Db<S>, op: Op<S>)
    requires Consistent(d)
    ensures Consistent(Next(d, op)) <==> !Breaks(d, op)
  {
    match op
    case OpExecute(sql, st, fields, beginReply, reply) =>
      ExecuteBreaksExactly(d, sql, st, fields, beginReply, reply);
    case OpFetch(opens, reply) => RunKeepsValid(d.conn, SRead(opens), reply);
    case OpCommit(reply) => RunKeepsValid(d.conn, SCommit, reply);
    case OpRollback(reply) => RunKeepsValid(d.conn, SRollback, reply);
    case OpAutoCommit(on, reply) => RunKeepsValid(d.conn, SCommit, reply);
    case OpBeginWork =>
    case OpDisconnect(reply) => RunKeepsValid(d.conn, SRollback, reply);
  }

  // ----- Whole runs -----

  // No step of the run breaks the flags.
  predicate Unbroken<S>(d: Db<S>, ops: seq<Op<S>>) {
    ops == [] || (Unbroken(d, ops[..|ops| - 1]) && !Breaks(After(d, ops[..|ops| - 1]), ops[|ops| - 1]))
  }

  lemma {:induction false} RunStaysConsistent<S>(d: Db<S>, ops: seq<Op<S>>)
    requires Consistent(d) && Unbroken(d, ops)
    ensures Consistent(After(d, ops))
  {
    if ops != [] {
      RunStaysConsistent(d, ops[..|ops| - 1]);
      StepBreaksExactly(After(d, ops[..|ops| - 1]), ops[|ops| - 1]);
    }
  }

  // The engine reads the statement as the scan does.
  predicate Agrees<S>(sql: string, st: Stmt<S>) {
    match st
    case SBegin => Scan(sql).KBegin?
    case SCommit => Scan(sql).KCommit?
    case SRollback => Scan(sql).KRollback?
    case SRollbackTo(_) => Scan(sql).KRollbackTo?
    case _ => Scan(sql).KOther?
  }

  // What a careful program does, whatever its state: its statements are read alike, its
  // COMMITs and ROLLBACKs succeed, under AutoCommit it opens no transaction unnoticed, by
  // a savepoint, from inside or while fetching, and it does not assign AutoCommit=1 over
  // begun work.
  predicate Careful<S>(d: Db<S>, op: Op<S>) {
    match op
    case OpExecute(sql, st, fields, _, reply) =>
      && Agrees(sql, st)
      && (st.SCommit? || st.SRollback? ==> reply == Ok)
      && (d.autoCommit && !d.conn.inTxn && !st.SBegin? ==> !OpensUnnoticed(st, fields, reply))
    case OpFetch(opens, _) => d.autoCommit ==> !opens
    case OpCommit(reply) => reply == Ok
    case OpRollback(reply) => reply == Ok
    case OpAutoCommit(on, _) => on ==> !d.begunWork
    case OpBeginWork => true
    case OpDisconnect(_) => true
  }

  predicate CarefulRun<S>(d: Db<S>, ops: seq<Op<S>>) {
    ops == [] || (CarefulRun(d, ops[..|ops| - 1]) && Careful(After(d, ops[..|ops| - 1]), ops[|ops| - 1]))
  }

  lemma CarefulStep<S>(d: Db<S>, op: Op<S>)
    requires Consistent(d) && Careful(d, op)
    ensures !Breaks(d, op)
  {}

  // In every careful run AutoCommit on implies no open transaction, and BegunWork
  // implies AutoCommit off.
  lemma {:induction false} CarefulRunStaysConsistent<S>(d: Db<S>, ops: seq<Op<S>>)
    requires Consistent(d) && CarefulRun(d, ops)
    ensures Consistent(After(d, ops))
  {
    if ops != [] {
      var before, op := After(d, ops[..|ops| - 1]), ops[|ops| - 1];
      CarefulRunStaysConsistent(d, ops[..|ops| - 1]);
      CarefulStep(before, op);
      StepBreaksExactly(before, op);
    }
  }

  // ----- Transactions protect the committed state -----

  // While AutoCommit is off, a statement that is not BEGIN is stepped inside a transaction.
  lemma SteppedInsideTxn<S>(d: Db<S>, sql: CString, beginReply: Reply)
    requires Sound(d) && !d.autoCommit && !Scan(sql).KBegin?
    ensures Prepare(d, sql, beginReply).1 ==> Prepare(d, sql, beginReply).0.conn.inTxn
  {}

  // The operations that may commit.
  predicate MayCommit<S>(d: Db<S>, op: Op<S>) {
    match op
    case OpExecute(_, st, _, _, _) => st.SCommit? || ReleasesAll(d.conn, st)
    case OpCommit(_) => true
    case OpAutoCommit(on, _) => on
    case _ => false
  }

  // The scan does not take the statement for BEGIN, unless it is one.
  predicate NotMisreadAsBegin<S>(op: Op<S>) {
    op.OpExecute? && Scan(op.sql).KBegin? ==> op.st.SBegin?
  }

  // The part of consistency that holds in every run, whatever is done to the flags.
  ghost predicate Sound<S>(d: Db<S>) {
    d.conn.Valid() && (!d.active ==> !d.conn.inTxn)
  }

  lemma StepStaysSound<S>(d: Db<S>, op: Op<S>)
    requires Sound(d)
    ensures Sound(Next(d, op))
  {
    if op.OpExecute? {
      var p := Prepare(d, op.sql, op.beginReply);
      RunKeepsValid(d.conn, SBegin, op.beginReply);
      RunKeepsValid(p.0.conn, op.st, op.reply);
    }
  }

  lemma PrepareOpensTxn<S>(d: Db<S>, sql: CString, beginReply: Reply)
    requires Sound(d) && !d.autoCommit
    ensures var p := Prepare(d, sql, beginReply);
            && p.0.conn.Valid() && p.0.conn.committed == d.conn.committed
            && (d.conn.inTxn ==> p.0.conn == d.conn)
            && (!d.conn.inTxn ==> !p.0.conn.spOpened)
            && (p.1 && !Scan(sql).KBegin? ==> p.0.conn.inTxn)
  {
    hide Scan;
    RunKeepsValid(d.conn, SBegin, beginReply);
  }

  lemma RunKeepsCommitted<S>(c: Conn<S>, st: Stmt<S>, reply: Reply)
    requires c.Valid() && (c.inTxn || st.SBegin?)
    requires !st.SCommit? && !ReleasesAll(c, st)
    ensures Run(c, st, reply).0.committed == c.committed
  {
    if st.SRelease? {
      FindSaveSpec(c.saves, st.name);
    }
  }

  // With AutoCommit off, the committed state changes through a commit only.
  lemma OnlyCommitsCommit<S>(d: Db<S>, op: Op<S>)
    requires Sound(d) && !d.autoCommit
    requires NotMisreadAsBegin(op) && !MayCommit(d, op)
    ensures Next(d, op).conn.committed == d.conn.committed
  {
    if op.OpExecute? && d.active {
      hide Scan, Run, Prepare;
      var p := Prepare(d, op.sql, op.beginReply);
      PrepareOpensTxn(d, op.sql, op.beginReply);
      if p.1 {
        RunKeepsCommitted(p.0.conn, op.st, op.reply);
      }
    }
  }

  // Over a run: AutoCommit is off before every step, and no step may commit. The steps
  // may fail, and may leave the flags in disagreement with the engine.
  predicate Uncommitting<S>(d: Db<S>, ops: seq<Op<S>>) {
    ops == [] ||
    var before, op := After(d, ops[..|ops| - 1]), ops[|ops| - 1];
    Uncommitting(d, ops[..|ops| - 1]) && !before.autoCommit && NotMisreadAsBegin(op) && !MayCommit(before, op)
  }

  lemma {:induction false} UncommittingRun<S>(d: Db<S>, ops: seq<Op<S>>)
    requires Sound(d) && Uncommitting(d, ops)
    ensures Sound(After(d, ops)) && After(d, ops).conn.committed == d.conn.committed
  {
    if ops != [] {
      var before, op := After(d, ops[..|ops| - 1]), ops[|ops| - 1];
      UncommittingRun(d, ops[..|ops| - 1]);
      StepStaysSound(before, op);
      OnlyCommitsCommit(before, op);
    }
  }

  // Disconnecting discards whatever the run did, even if the ROLLBACK fails.
  lemma DisconnectDiscards<S>(d: Db<S>, ops: seq<Op<S>>, reply: Reply)
    requires Sound(d) && Uncommitting(d, ops)
    ensures var end := Disconnect(After(d, ops), reply);
            !end.active && end.conn == Conn(d.conn.committed, d.conn.committed, false, false, [])
  {
    UncommittingRun(d, ops);
  }

  // The operations in which the engine may roll back, to the beginning of the transaction
  // or to a savepoint.
  predicate MayRollBack<S>(op: Op<S>) {
    match op
    case OpExecute(_, st, _, beginReply, reply) =>
      beginReply == FailAbort || reply == FailAbort || (reply == Ok && (st.SRollback? || st.SRollbackTo?))
    case OpFetch(_, reply) => reply == FailAbort
    case OpCommit(reply) => reply == FailAbort
    case OpRollback(reply) => reply != Fail
    case OpAutoCommit(on, reply) => on && reply == FailAbort
    case OpBeginWork => false
    case OpDisconnect(_) => true
  }

  // ----- What the calls do -----

  // A connection that holds x and no transaction.
  function Resting<S>(x: S): Conn<S> {
    Conn(x, x, false, false, [])
  }

  // With AutoCommit off, by assignment or by begun work, a commit stores the working state;
  // AutoCommit comes on again only if work was begun.
  lemma CommitStores<S>(d: Db<S>)
    requires d.active && !d.autoCommit && d.conn.inTxn
    ensures Commit(d, Ok) == (Db(true, d.begunWork, false, Resting(d.conn.working)), true)
  {}

  // A rollback returns to the committed state.
  lemma RollbackReturns<S>(d: Db<S>)
    requires d.active && d.conn.inTxn
    ensures Rollback(d, Ok) == (Db(true, d.autoCommit || d.begunWork, false, Resting(d.conn.committed)), true)
  {}

  // The answers: false on an inactive handle, and if the engine was asked and failed.
  lemma CommitAnswers<S>(d: Db<S>, reply: Reply)
    ensures Commit(d, reply).1 <==> d.active && (d.autoCommit || !d.conn.inTxn || reply == Ok)
  {}

  lemma RollbackAnswers<S>(d: Db<S>, reply: Reply)
    ensures Rollback(d, reply).1 <==> d.active && (!d.conn.inTxn || reply == Ok)
  {}

  // Without an open transaction, neither touches the connection; begun work ends.
  lemma NothingToEnd<S>(d: Db<S>, reply: Reply)
    requires d.active && !d.conn.inTxn
    ensures Rollback(d, reply).0 == d.(begunWork := false, autoCommit := d.autoCommit || d.begunWork)
    ensures Commit(d, reply).0 == if d.autoCommit then d else Rollback(d, reply).0
  {}

  // A failed commit or rollback ends begun work all the same, and leaves the transaction
  // open unless the engine dropped it.
  lemma FailedEnd<S>(d: Db<S>, reply: Reply)
    requires d.active && d.conn.inTxn && reply != Ok
    ensures var end := Rollback(d, reply).0;
            && !end.begunWork && end.autoCommit == (d.autoCommit || d.begunWork)
            && end.conn == if reply == Fail then d.conn else Resting(d.conn.committed)
    ensures Commit(d, reply).0 == if d.autoCommit then d else Rollback(d, reply).0
  {}

  // Assigning AutoCommit=1 commits first, and does not take effect if that fails.
  lemma AutoCommitOnStores<S>(d: Db<S>, reply: Reply)
    requires d.active && !d.autoCommit && d.conn.inTxn
    ensures StoreAutoCommit(d, true, reply)
         == match reply
            case Ok => d.(autoCommit := true, conn := Resting(d.conn.working))
            case Fail => d
            case FailAbort => d.(conn := Resting(d.conn.committed))
  {}

  // Every other assignment just sets the flag.
  lemma AutoCommitIsSet<S>(d: Db<S>, on: bool, reply: Reply)
    requires !on || !d.active || d.autoCommit || !d.conn.inTxn
    ensures StoreAutoCommit(d, on, reply) == d.(autoCommit := on)
  {}

  // begin_work under AutoCommit turns it off for the time being; otherwise it does nothing.
  lemma BeginWorkMeans<S>(d: Db<S>)
    ensures BeginWork(d) == if d.active && d.autoCommit then Db(true, false, true, d.conn) else d
  {}

  // A BEGIN that the scan reads outside a transaction does the same to the flags, and is
  // left to the engine; with AutoCommit off by assignment it begins no work.
  lemma LiteralBeginMeans<S>(d: Db<S>, sql: CString, beginReply: Reply)
    requires d.active && !d.conn.inTxn && Scan(sql).KBegin?
    ensures Prepare(d, sql, beginReply) == (BeginWork(d), true)
  {}

  // Disconnecting ends begun work like a rollback.
  lemma DisconnectEnds<S>(d: Db<S>, reply: Reply)
    requires Consistent(d) && d.active
    ensures Disconnect(d, reply) == Db(false, d.autoCommit || d.begunWork, false, Resting(d.conn.committed))
  {}

  // Under AutoCommit a statement that the scan does not take for BEGIN and that opens no
  // transaction leaves the flags as they are.
  lemma FlagsStayOn<S>(d: Db<S>, sql: CString, st: Stmt<S>, fields: nat, beginReply: Reply, reply: Reply)
    requires Consistent(d) && d.active && d.autoCommit && !Scan(sql).KBegin? && !OpensTxn(st)
    ensures var end := Execute(d, sql, st, fields, beginReply, reply);
            end.active && end.autoCommit && !end.begunWork && !end.conn.inTxn
  {}

  // One with columns whose first step opens a transaction begins work.
  lemma OpeningIsNoticed<S>(d: Db<S>, sql: CString, st: Stmt<S>, fields: nat, beginReply: Reply)
    requires Consistent(d) && d.active && d.autoCommit && OpensTxn(st) && fields > 0
    ensures var end := Execute(d, sql, st, fields, beginReply, Ok);
            end.begunWork && !end.autoCommit && end.conn.inTxn
  {}

  // ----- One transaction from beginning to end -----

  // begin_work, or a BEGIN statement whether or not it succeeds
  predicate Begins<S>(op: Op<S>) {
    op.OpBeginWork? || (op.OpExecute? && op.st.SBegin? && Agrees(op.sql, op.st))
  }

  // AutoCommit=0: the other way to work in transactions.
  predicate TurnsOff<S>(op: Op<S>) {
    op.OpAutoCommit? && !op.on
  }

  // An ordinary statement of a transaction, or a fetch; it may fail.
  predicate Ordinary<S>(op: Op<S>) {
    op.OpFetch? || (op.OpExecute? && Agrees(op.sql, op.st)
      && !op.st.SBegin? && !op.st.SCommit? && !op.st.SRollback?)
  }

  predicate AllOrdinary<S>(ops: seq<Op<S>>) {
    forall i :: 0 <= i < |ops| ==> Ordinary(ops[i])
  }

  // Between the beginning and the end: AutoCommit is off, for the time being if work was
  // begun, and the data stored before is still the committed state.
  ghost predicate Within<S>(d: Db<S>, stored: S, begun: bool) {
    && Consistent(d) && d.active && !d.autoCommit && d.begunWork == begun
    && !d.conn.spOpened && d.conn.committed == stored
  }

  lemma BeginsWithin<S>(d: Db<S>, op: Op<S>)
    requires Consistent(d) && d.active && d.autoCommit && (Begins(op) || TurnsOff(op))
    ensures Within(Next(d, op), d.conn.committed, Begins(op)) && Next(d, op).conn.working == d.conn.working
  {}

  lemma OrdinaryStaysWithin<S>(d: Db<S>, op: Op<S>, stored: S, begun: bool)
    requires Within(d, stored, begun) && Ordinary(op)
    ensures Within(Next(d, op), stored, begun)
  {
    hide Scan;
  }

  lemma {:induction false} RunStaysWithin<S>(d: Db<S>, ops: seq<Op<S>>, stored: S, begun: bool)
    requires Within(d, stored, begun) && AllOrdinary(ops)
    ensures Within(After(d, ops), stored, begun)
  {
    if ops != [] {
      RunStaysWithin(d, ops[..|ops| - 1], stored, begun);
      OrdinaryStaysWithin(After(d, ops[..|ops| - 1]), ops[|ops| - 1], stored, begun);
    }
  }

  lemma EndsWithin<S>(d: Db<S>, stored: S, begun: bool)
    requires Within(d, stored, begun)
    ensures Commit(d, Ok) == (Db(true, begun, false, Resting(d.conn.working)), true)
    ensures Rollback(d, Ok) == (Db(true, begun, false, Resting(stored)), true)
  {}

  // begin_work, BEGIN or AutoCommit=0, any ordinary statements, commit: what they built up
  // is stored, and AutoCommit is on again if it was off for the time being only.
  lemma TransactionCommits<S>(d: Db<S>, begin: Op<S>, ops: seq<Op<S>>)
    requires Consistent(d) && d.active && d.autoCommit && (Begins(begin) || TurnsOff(begin)) && AllOrdinary(ops)
    ensures var before := After(Next(d, begin), ops);
            && !before.autoCommit && before.conn.committed == d.conn.committed
            && Commit(before, Ok) == (Db(true, Begins(begin), false, Resting(before.conn.working)), true)
  {
    BeginsWithin(d, begin);
    RunStaysWithin(Next(d, begin), ops, d.conn.committed, Begins(begin));
    EndsWithin(After(Next(d, begin), ops), d.conn.committed, Begins(begin));
  }

  // With a rollback in place of the commit there is no trace of the transaction, and
  // AutoCommit is off only if it was turned off.
  lemma TransactionRollsBack<S>(d: Db<S>, begin: Op<S>, ops: seq<Op<S>>)
    requires Consistent(d) && d.active && d.autoCommit && (Begins(begin) || TurnsOff(begin)) && AllOrdinary(ops)
    ensures Rollback(After(Next(d, begin), ops), Ok) == (d.(autoCommit := Begins(begin)), true)
  {
    BeginsWithin(d, begin);
    RunStaysWithin(Next(d, begin), ops, d.conn.committed, Begins(begin));
    EndsWithin(After(Next(d, begin), ops), d.conn.committed, Begins(begin));
  }

  // A write that the engine carries out.
  predicate Writes<S>(op: Op<S>) {
    op.OpExecute? && op.st.SWrite? && Agrees(op.sql, op.st) && op.beginReply == Ok && op.reply == Ok
  }

  // The effects of the writes, one after the other.
  function Applied<S>(x: S, ops: seq<Op<S>>): S {
    if ops == [] then x
    else
      var y, op := Applied(x, ops[..|ops| - 1]), ops[|ops| - 1];
      if op.OpExecute? && op.st.SWrite? then op.st.effect(y) else y
  }

  // What a transaction builds up: the effects of its writes, in order.
  lemma {:induction false} WritesBuildUp<S>(d: Db<S>, ops: seq<Op<S>>, stored: S, begun: bool)
    requires Within(d, stored, begun) && forall i :: 0 <= i < |ops| ==> Writes(ops[i])
    ensures After(d, ops).conn.working == Applied(d.conn.working, ops)
  {
    if ops != [] {
      var init, op := ops[..|ops| - 1], ops[|ops| - 1];
      WritesBuildUp(d, init, stored, begun);
      RunStaysWithin(d, init, stored, begun);
      WriteIsDone(After(d, init), op);
    }
  }

  lemma WriteIsDone<S>(d: Db<S>, op: Op<S>)
    requires Consistent(d) && d.active && Writes(op)
    ensures Next(d, op).conn.working == op.st.effect(d.conn.working)
    ensures d.autoCommit && !op.st.opensTxn ==> Next(d, op) == d.(conn := Resting(op.st.effect(d.conn.working)))
  {}

  // Under AutoCommit each write is stored at once, and nothing else changes.
  lemma {:induction false} WritesAreStored<S>(d: Db<S>, ops: seq<Op<S>>)
    requires Consistent(d) && d.active && d.autoCommit
    requires forall i :: 0 <= i < |ops| ==> Writes(ops[i]) && !ops[i].st.opensTxn
    ensures After(d, ops) == d.(conn := Resting(Applied(d.conn.committed, ops)))
  {
    if ops != [] {
      var init, op := ops[..|ops| - 1], ops[|ops| - 1];
      WritesAreStored(d, init);
      WriteIsDone(After(d, init), op);
    }
  }

  // A literal COMMIT or ROLLBACK does the same as the call, unless work was begun and no
  // transaction is open in the engine yet: then AutoCommit stays off.
  lemma LiteralEndIsCall<S>(d: Db<S>, op: Op<S>, stored: S, begun: bool)
    requires Within(d, stored, begun)
    requires op.OpExecute? && Agrees(op.sql, op.st) && op.reply == Ok && op.beginReply == Ok
    requires op.st.SCommit? || op.st.SRollback?
    ensures var called := if op.st.SCommit? then Commit(d, Ok).0 else Rollback(d, Ok).0;
            Next(d, op) == called <==> d.conn.inTxn || !begun
    ensures Next(d, op).autoCommit <==> d.conn.inTxn && begun
  {}

  // ----- Ways to break the flags -----

  // A COMMIT that fails leaves AutoCommit on with the transaction still open.
  lemma FailedCommitBreaks<S>(d: Db<S>)
    requires Consistent(d) && d.active && d.begunWork && d.conn.inTxn
    ensures var end := Commit(d, Fail).0; end.autoCommit && end.conn.inTxn
  {}

  // SAVEPOINT outside a transaction opens one under AutoCommit.
  lemma SavepointBreaks<S>(d: Db<S>, sql: CString, name: string)
    requires Consistent(d) && d.active && d.autoCommit && Scan(sql).KOther?
    ensures var end := Execute(d, sql, SSavepoint(name), 0, Ok, Ok); end.autoCommit && end.conn.inTxn
  {}

  // So does a fetch whose look-ahead opens one, such as a user function that runs
  // SAVEPOINT for the second row: only the first step of an execute is followed by a look
  // at the engine.
  lemma FetchBreaks<S>(d: Db<S>)
    requires Consistent(d) && d.active && d.autoCommit
    ensures var end := Next(d, OpFetch(true, Ok)); end.autoCommit && end.conn.inTxn
  {}

  // So does rolling back to a savepoint in a text that the scan takes for ROLLBACK.
  lemma MisreadRollbackBreaks<S>(d: Db<S>, sql: CString, name: string)
    requires Consistent(d) && d.active && d.begunWork && d.conn.inTxn && Scan(sql).KRollback?
    ensures var end := Execute(d, sql, SRollbackTo(name), 0, Ok, Ok); end.autoCommit && end.conn.inTxn
  {}

  // Such a text is one with a newline after TO.
  lemma NewlineAfterToBreaks<S>(stored: S)
    ensures var sql := "ROLLBACK TO\nsvp";
            var d := Db(true, false, true, Conn(stored, stored, true, false, [("svp", stored)]));
            && '\0' !in sql && Consistent(d)
            && var end := Execute(d, sql, SRollbackTo("svp"), 0, Ok, Ok); end.autoCommit && end.conn.inTxn
  {
    NewlineAfterTo();
    var d := Db(true, false, true, Conn(stored, stored, true, false, [("svp", stored)]));
    MisreadRollbackBreaks(d, "ROLLBACK TO\nsvp", "svp");
  }
}
