// The database handle of DBD-SQLite/dbdimp.c: AutoCommit and BegunWork against the
// transaction state of the engine.
module DbHandle {
  import opened Engine
  import opened SqlScan

  // The flags of a handle and the connection behind it.
  datatype Db<S> = Db(active: bool, autoCommit: bool, begunWork: bool, conn: Conn<S>) {
    function TxnEnded(): Db<S> {
      this.(begunWork := false, autoCommit := true)
    }
  }

  // ----- What each operation does to the handle -----

  function Commit<S>(d: Db<S>, reply: Reply): (Db<S>, bool) {
    if !d.active then (d, false)
    else if d.autoCommit then (d, true)
    else EndTxn(if d.begunWork then d.TxnEnded() else d, SCommit, reply)
  }

  function Rollback<S>(d: Db<S>, reply: Reply): (Db<S>, bool) {
    if !d.active then (d, false)
    else EndTxn(if d.begunWork then d.TxnEnded() else d, SRollback, reply)
  }

  function EndTxn<S>(d: Db<S>, st: Stmt<S>, reply: Reply): (Db<S>, bool) {
    if d.conn.inTxn then
      var r := Run(d.conn, st, reply);
      (d.(conn := r.0), r.1)
    else (d, true)
  }

  function Disconnect<S>(d: Db<S>, reply: Reply): Db<S> {
    var d1 := if d.autoCommit then d else Rollback(d, reply).0;
    d1.(active := false, conn := Close(d1.conn))
  }

  function StoreAutoCommit<S>(d: Db<S>, on: bool, reply: Reply): Db<S> {
    if on && d.active && !d.autoCommit && d.conn.inTxn then
      var r := Run(d.conn, SCommit, reply);
      if r.1 then d.(conn := r.0, autoCommit := true) else d.(conn := r.0)
    else d.(autoCommit := on)
  }

  // DBI's begin_work, as it reaches the handle.
  function BeginWork<S>(d: Db<S>): Db<S> {
    if d.active && d.autoCommit then d.(autoCommit := false, begunWork := true) else d
  }

  // What sqlite_st_execute does before the first step; false if it gives up.
  function Prepare<S>(d: Db<S>, sql: string, beginReply: Reply): (Db<S>, bool) {
    if !d.conn.inTxn then
      if Scan(sql).KBegin? then (if d.autoCommit then d.(begunWork := true, autoCommit := false) else d, true)
      else if !d.autoCommit then
        var r := Run(d.conn, SBegin, beginReply);
        (d.(conn := r.0), r.1)
      else (d, true)
    else if d.begunWork && (Scan(sql).KCommit? || Scan(sql).KRollback?) then (d.TxnEnded(), true)
    else (d, true)
  }

  // A statement that returns columns and leaves the engine in a transaction.
  function NoticeTxn<S>(d: Db<S>): Db<S> {
    if d.autoCommit && d.conn.inTxn then d.(begunWork := true, autoCommit := false) else d
  }

  // Executing a statement whose parameters could be bound.
  function Execute<S>(d: Db<S>, sql: string, st: Stmt<S>, fields: nat, beginReply: Reply, reply: Reply): Db<S> {
    if !d.active then d
    else
      var p := Prepare(d, sql, beginReply);
      if !p.1 then p.0
      else
        var r := Run(p.0.conn, st, reply);
        var d1 := p.0.(conn := r.0);
        if fields > 0 && r.1 then NoticeTxn(d1) else d1
  }

  // A further step of a running statement: it may open a transaction from inside, and an
  // error may roll the transaction back.
  function LookAhead<S>(d: Db<S>, opens: bool, reply: Reply): Db<S> {
    d.(conn := Run(d.conn, SRead(opens), reply).0)
  }

  // ----- The handle object -----

  class Handle<S> {
    var active: bool
    var autoCommit: bool
    var begunWork: bool
    var useImmediate: bool
    var conn: Conn<S>

    ghost function State(): Db<S>
      reads this
    {
      Db(active, autoCommit, begunWork, conn)
    }

    // sqlite_db_login6
    constructor (stored: S)
      ensures State() == Db(true, true, false, Conn(stored, stored, false, false, []))
    {
      active, autoCommit, begunWork, useImmediate := true, true, false, true;
      conn := Conn(stored, stored, false, false, []);
    }

    // sqlite_exec of one transaction statement
    method Exec(st: Stmt<S>, reply: Reply) returns (ok: bool)
      modifies this`conn
      ensures (conn, ok) == Run(old(conn), st, reply)
    {
      var r := Run(conn, st, reply);
      conn, ok := r.0, r.1;
    }

    // sqlite_db_commit
    method DoCommit(reply: Reply) returns (ok: bool)
      modifies this
      ensures (State(), ok) == Commit(old(State()), reply)
      ensures useImmediate == old(useImmediate)
    {
      if !active {
        return false;
      }
      if autoCommit {
        return true;
      }
      if begunWork {
        begunWork := false;
        autoCommit := true;
      }
      if conn.inTxn {
        var rc := Exec(SCommit, reply);
        if !rc {
          return false;
        }
      }
      return true;
    }

    // sqlite_db_rollback
    method DoRollback(reply: Reply) returns (ok: bool)
      modifies this
      ensures (State(), ok) == Rollback(old(State()), reply)
      ensures useImmediate == old(useImmediate)
    {
      if !active {
        return false;
      }
      if begunWork {
        begunWork := false;
        autoCommit := true;
      }
      if conn.inTxn {
        var rc := Exec(SRollback, reply);
        if !rc {
          return false;
        }
      }
      return true;
    }

    // sqlite_db_disconnect
    method DoDisconnect(reply: Reply)
      modifies this
      ensures State() == Disconnect(old(State()), reply)
      ensures useImmediate == old(useImmediate)
    {
      if !autoCommit {
        var _ := DoRollback(reply);
      }
      active := false;
      conn := Close(conn);
    }

    // The AutoCommit branch of sqlite_db_STORE_attrib
    method DoStoreAutoCommit(on: bool, reply: Reply)
      modifies this
      ensures State() == StoreAutoCommit(old(State()), on, reply)
      ensures useImmediate == old(useImmediate)
    {
      if on {
        if active && !autoCommit && conn.inTxn {
          var rc := Exec(SCommit, reply);
          if !rc {
            return;
          }
        }
      }
      autoCommit := on;
    }

    // The transaction part of sqlite_st_execute before the first step. BEGIN and BEGIN
    // IMMEDIATE differ in when the engine can fail, which the reply covers.
    method DoPrepare(sql: CString, beginReply: Reply) returns (go: bool)
      modifies this
      ensures (State(), go) == Prepare(old(State()), sql, beginReply)
      ensures useImmediate == old(useImmediate)
    {
      hide Lead;
      var i := SkipLead(sql);
      var s := sql[i..];
      if !conn.inTxn {
        if IsBegin(s) {
          if autoCommit {
            begunWork := true;
            autoCommit := false;
          }
        } else if !autoCommit {
          go := Exec(SBegin, beginReply);
          return;
        }
      } else if begunWork {
        if IsCommit(s) || IsEnd(s) {
          begunWork := false;
          autoCommit := true;
        } else if IsRollback(s) {
          var isSavepoint := ScanRollback(sql, i + 8);
          assert sql[i..][8..] == sql[i + 8..];
          if !isSavepoint {
            begunWork := false;
            autoCommit := true;
          }
        }
      }
      return true;
    }
  }
}
