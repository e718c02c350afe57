// SQLite as the driver sees it: a connection with a committed and a working state,
// and a statement that delivers rows one step at a time.
module Engine {

  // What the engine reads a statement as. Reads and writes may open a transaction from
  // inside, as a user function that runs SQL on the same connection can.
  datatype Stmt<!S> =
    | SBegin
    | SCommit
    | SRollback
    | SSavepoint(name: string)
    | SRelease(name: string)
    | SRollbackTo(name: string)
    | SRead(opensTxn: bool)
    | SWrite(effect: S -> S, opensTxn: bool)

  // How the engine answers: a failure may also roll the transaction back.
  datatype Reply = Ok | Fail | FailAbort

  // inTxn is the negation of sqlite3_get_autocommit; spOpened says that the outermost
  // savepoint opened the transaction.
  datatype Conn<S> = Conn(committed: S, working: S, inTxn: bool, spOpened: bool, saves: seq<(string, S)>) {
    predicate Idle() {
      !inTxn && !spOpened && saves == []
    }

    ghost predicate Valid() {
      && (!inTxn ==> Idle() && working == committed)
      && (spOpened ==> saves != [])
    }

    function RolledBack(): Conn<S> {
      Conn(committed, committed, false, false, [])
    }

    function Committed(): Conn<S> {
      Conn(working, working, false, false, [])
    }
  }

  // The index of the innermost savepoint of that name, or |saves|.
  function FindSave<S>(saves: seq<(string, S)>, name: string): (k: nat)
    ensures k <= |saves|
  {
    if saves == [] then 0
    else
      var n := |saves| - 1;
      if saves[n].0 == name then n
      else
        var k := FindSave(saves[..n], name);
        if k == n then n + 1 else k
  }

  lemma {:induction false} FindSaveSpec<S>(saves: seq<(string, S)>, name: string)
    ensures var k := FindSave(saves, name);
            && (k < |saves| ==> saves[k].0 == name)
            && forall i :: 0 <= i < |saves| && (k < i || k == |saves|) ==> saves[i].0 != name
  {
    if saves != [] {
      FindSaveSpec(saves[..|saves| - 1], name);
    }
  }

  predicate OpensInside<S>(st: Stmt<S>) {
    (st.SRead? || st.SWrite?) && st.opensTxn
  }

  // Running a statement to its first result; false if the engine reports an error. A
  // transaction opened from inside stays open even then.
  function Run<S>(c: Conn<S>, st: Stmt<S>, reply: Reply): (Conn<S>, bool) {
    var c1 := if OpensInside(st) then c.(inTxn := true) else c;
    if reply == Fail then (c1, false)
    else if reply == FailAbort then (c.RolledBack(), false)
    else
      match st
      case SBegin => if c.inTxn then (c, false) else (c.(inTxn := true), true)
      case SCommit => if c.inTxn then (c.Committed(), true) else (c, false)
      case SRollback => if c.inTxn then (c.RolledBack(), true) else (c, false)
      case SSavepoint(name) =>
        (c.(inTxn := true, spOpened := c.spOpened || !c.inTxn, saves := c.saves + [(name, c.working)]), true)
      case SRelease(name) =>
        var k := FindSave(c.saves, name);
        if k == |c.saves| then (c, false)
        else if k == 0 && c.spOpened then (c.Committed(), true)
        else (c.(saves := c.saves[..k]), true)
      case SRollbackTo(name) =>
        var k := FindSave(c.saves, name);
        if k == |c.saves| then (c, false)
        else (c.(working := c.saves[k].1, saves := c.saves[..k + 1]), true)
      case SRead(_) => (c1, true)
      case SWrite(effect, _) =>
        var w := effect(c.working);
        (if c1.inTxn then c1.(working := w) else c.(working := w, committed := w), true)
  }

  // Rolling back to a savepoint undoes what was done since, and leaves it set.
  lemma SavepointRestores<S>(c: Conn<S>, name: string, later: S)
    requires c.Valid()
    ensures var c1 := Run(c, SSavepoint(name), Ok).0;
            Run(c1.(working := later), SRollbackTo(name), Ok) == (c1, true) && c1.working == c.working && c1.inTxn
  {
    var saves := c.saves + [(name, c.working)];
    assert saves[..|c.saves| + 1] == saves;
  }

  // Inside a transaction, setting a savepoint and releasing it changes nothing.
  lemma ReleaseForgets<S>(c: Conn<S>, name: string)
    requires c.Valid() && c.inTxn
    ensures Run(Run(c, SSavepoint(name), Ok).0, SRelease(name), Ok) == (c, true)
  {
    var saves := c.saves + [(name, c.working)];
    assert saves[..|c.saves|] == c.saves;
  }

  // sqlite3_close drops an open transaction.
  function Close<S>(c: Conn<S>): Conn<S> {
    c.RolledBack()
  }

  lemma RunKeepsValid<S>(c: Conn<S>, st: Stmt<S>, reply: Reply)
    requires c.Valid()
    ensures Run(c, st, reply).0.Valid()
  {}

  // ----- A prepared statement -----

  datatype StepResult = ROk | RRow | RDone | RError

  // One execution: the rows to come, whether an error follows them, how many steps were
  // taken, and whether the last step was an error.
  datatype Cursor<Row> = Cursor(rows: seq<Row>, fails: bool, pos: nat, err: bool) {
    function Step(): (Cursor<Row>, StepResult) {
      if pos < |rows| then (this.(pos := pos + 1, err := false), RRow)
      else if fails then (this.(pos := pos + 1, err := true), RError)
      else (this.(pos := pos + 1, err := false), RDone)
    }

    // sqlite3_reset repeats the error of the last step, and clears it.
    function Reset(): (Cursor<Row>, StepResult) {
      (this.(pos := 0, err := false), if err then RError else ROk)
    }
  }
}
