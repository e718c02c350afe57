// The hand-written keyword scan of sqlite_st_execute in DBD-SQLite/dbdimp.c.
module SqlScan {
  import opened Texts

  // SQL text as a C string: no NUL inside.
  type CString = s: string | '\0' !in s witness []

  // s[i], where position |s| and beyond read as the terminating NUL.
  function At(s: string, i: nat): char {
    if i < |s| then s[i] else '\0'
  }

  // _isspace
  predicate IsBlank(c: char) {
    c == ' ' || c == '\t' || c == '\n' || c == '\r' || c == 0x0B as char || c == 0x0C as char
  }

  // c is the letter l (given in lower case) in either case.
  predicate L(c: char, l: char) {
    c == l || (c as int + 32 == l as int)
  }

  predicate IsDashes(s: string) {
    At(s, 0) == '-' && At(s, 1) == '-'
  }

  // The text from the end of the current line on.
  function DropComment(s: string): (r: string)
    ensures |r| <= |s|
  {
    if s == [] || s[0] == '\n' then s else DropComment(s[1..])
  }

  // Leading blanks and line comments are skipped.
  function Lead(s: string): string
    decreases |s|
  {
    if s == [] then s
    else if IsBlank(s[0]) then Lead(s[1..])
    else if IsDashes(s) then Lead(DropComment(s[1..]))
    else s
  }

  predicate IsBegin(s: string) {
    L(At(s, 0), 'b') && L(At(s, 1), 'e') && L(At(s, 2), 'g') && L(At(s, 3), 'i') && L(At(s, 4), 'n')
  }

  predicate IsCommit(s: string) {
    && L(At(s, 0), 'c') && L(At(s, 1), 'o') && L(At(s, 2), 'm')
    && L(At(s, 3), 'm') && L(At(s, 4), 'i') && L(At(s, 5), 't')
  }

  predicate IsEnd(s: string) {
    L(At(s, 0), 'e') && L(At(s, 1), 'n') && L(At(s, 2), 'd')
  }

  predicate IsRollback(s: string) {
    && L(At(s, 0), 'r') && L(At(s, 1), 'o') && L(At(s, 2), 'l') && L(At(s, 3), 'l')
    && L(At(s, 4), 'b') && L(At(s, 5), 'a') && L(At(s, 6), 'c') && L(At(s, 7), 'k')
  }

  predicate IsTransaction(s: string) {
    && L(At(s, 0), 't') && L(At(s, 1), 'r') && L(At(s, 2), 'a') && L(At(s, 3), 'n') && L(At(s, 4), 's')
    && L(At(s, 5), 'a') && L(At(s, 6), 'c') && L(At(s, 7), 't') && L(At(s, 8), 'i') && L(At(s, 9), 'o')
    && L(At(s, 10), 'n')
  }

  // TO and a space or tab
  predicate IsTo(s: string) {
    L(At(s, 0), 't') && L(At(s, 1), 'o') && (At(s, 2) == ' ' || At(s, 2) == '\t')
  }

  // After ROLLBACK: blanks, comments and TRANSACTION are skipped; is TO next?
  function ToSavepoint(s: string): bool
    decreases |s|
  {
    if s == [] then false
    else if IsBlank(s[0]) then ToSavepoint(s[1..])
    else if IsDashes(s) then
      var r := DropComment(s[1..]);
      if r == [] then false else ToSavepoint(r[1..])
    else if IsTransaction(s) then ToSavepoint(s[11..])
    else IsTo(s)
  }

  // The blanks and the keywords, spelled out.
  lemma BlanksAre(c: char)
    ensures IsBlank(c) <==> c in " \t\n\r" || c as int == 11 || c as int == 12
  {}

  lemma BeginIs(s: string)
    ensures IsBegin(s) <==> WordAt(s, 0, "begin")
  {
    KeywordIs(s, "begin");
    hide At, L, WordAt;
  }

  lemma CommitIs(s: string)
    ensures IsCommit(s) <==> WordAt(s, 0, "commit")
  {
    KeywordIs(s, "commit");
    hide At, L, WordAt;
  }

  lemma EndIs(s: string)
    ensures IsEnd(s) <==> WordAt(s, 0, "end")
  {
    KeywordIs(s, "end");
    hide At, L, WordAt;
  }

  lemma RollbackIs(s: string)
    ensures IsRollback(s) <==> WordAt(s, 0, "rollback")
  {
    KeywordIs(s, "rollback");
    hide At, L, WordAt;
  }

  lemma TransactionIs(s: string)
    ensures IsTransaction(s) <==> WordAt(s, 0, "transaction")
  {
    KeywordIs(s, "transaction");
    hide At, L, WordAt;
  }

  lemma KeywordIs(s: string, word: string)
    requires forall k :: 0 <= k < |word| ==> 'a' <= word[k] <= 'z'
    ensures WordAt(s, 0, word) <==> forall k :: 0 <= k < |word| ==> L(At(s, k), word[k])
  {
    if word != [] && forall k :: 0 <= k < |word| ==> L(At(s, k), word[k]) {
      assert L(At(s, |word| - 1), word[|word| - 1]);
    }
  }

  datatype Kind = KBegin | KCommit | KRollback | KRollbackTo | KOther

  // What the scan takes a statement for.
  function Scan(sql: string): Kind {
    KindOf(Lead(sql))
  }

  function KindOf(s: string): Kind {
    if IsBegin(s) then KBegin
    else if IsCommit(s) || IsEnd(s) then KCommit
    else if IsRollback(s) then if ToSavepoint(s[8..]) then KRollbackTo else KRollback
    else KOther
  }

  // A statement is taken for what its first keyword says, after blanks and line comments.
  lemma KeywordDecides(sql: string)
    ensures var s := Lead(sql);
            match Scan(sql)
            case KBegin => WordAt(s, 0, "begin")
            case KCommit => WordAt(s, 0, "commit") || WordAt(s, 0, "end")
            case KRollback => WordAt(s, 0, "rollback") && !ToSavepoint(s[8..])
            case KRollbackTo => WordAt(s, 0, "rollback") && ToSavepoint(s[8..])
            case KOther => !WordAt(s, 0, "begin") && !WordAt(s, 0, "commit") && !WordAt(s, 0, "end")
                           && !WordAt(s, 0, "rollback")
  {
    hide ToSavepoint, Lead, IsBegin, IsCommit, IsEnd, IsRollback, WordAt;
    BeginIs(Lead(sql));
    CommitIs(Lead(sql));
    EndIs(Lead(sql));
    RollbackIs(Lead(sql));
    if IsRollback(Lead(sql)) {
      RollbackIsLong(Lead(sql));
    }
  }

  lemma RollbackIsLong(s: string)
    requires IsRollback(s)
    ensures 8 <= |s|
  {}

  // ----- The scanning loops -----

  method SkipLead(sql: CString) returns (i: nat)
    ensures i <= |sql| && sql[i..] == Lead(sql)
  {
    i := 0;
    while IsBlank(At(sql, i)) || (At(sql, i) == '-' && At(sql, i + 1) == '-')
      invariant i <= |sql| && Lead(sql[i..]) == Lead(sql)
      decreases |sql| - i
    {
      ghost var i0 := i;
      if IsBlank(At(sql, i)) {
        while IsBlank(At(sql, i))
          invariant i0 <= i <= |sql| && Lead(sql[i..]) == Lead(sql)
          invariant i == i0 ==> IsBlank(At(sql, i))
          decreases |sql| - i
        {
          assert sql[i..][1..] == sql[i + 1..];
          i := i + 1;
        }
      } else {
        i := SkipComment(sql, i);
      }
    }
  }

  method SkipComment(sql: CString, i0: nat) returns (i: nat)
    requires i0 < |sql| && IsDashes(sql[i0..])
    ensures i0 < i <= |sql| && sql[i..] == DropComment(sql[i0..][1..]) && (i == |sql| || sql[i] == '\n')
    ensures Lead(sql[i..]) == Lead(sql[i0..])
  {
    i := i0;
    while At(sql, i) != '\0' && At(sql, i) != '\n'
      invariant i0 <= i <= |sql| && DropComment(sql[i..]) == DropComment(sql[i0..])
      decreases |sql| - i
    {
      assert sql[i..][1..] == sql[i + 1..];
      i := i + 1;
    }
  }

  // One step of ToSavepoint, in terms of positions of the whole text.
  lemma StepBlank(sql: string, i: nat)
    requires i < |sql| && IsBlank(sql[i])
    ensures ToSavepoint(sql[i..]) == ToSavepoint(sql[i + 1..])
  {}

  lemma StepComment(sql: string, i: nat, j: nat)
    requires i < j <= |sql| && IsDashes(sql[i..]) && sql[j..] == DropComment(sql[i..][1..])
    ensures ToSavepoint(sql[i..]) == if j < |sql| then ToSavepoint(sql[j + 1..]) else false
  {}

  lemma StepTransaction(sql: CString, i: nat)
    requires i < |sql| && IsTransaction(sql[i..])
    ensures i + 11 <= |sql| && ToSavepoint(sql[i..]) == ToSavepoint(sql[i + 11..])
  {}

  lemma StepWord(sql: CString, i: nat)
    requires i < |sql| && !IsBlank(sql[i]) && !IsDashes(sql[i..]) && !IsTransaction(sql[i..])
    ensures ToSavepoint(sql[i..]) == IsTo(sql[i..])
  {}

  // The branch of the loop that looks at a word: TRANSACTION is passed over, and TO decides.
  method ScanWord(sql: CString, i: nat) returns (next: nat, isSavepoint: bool)
    requires i < |sql| && !IsBlank(sql[i]) && !IsDashes(sql[i..])
    ensures next == i ==> isSavepoint == ToSavepoint(sql[i..])
    ensures next != i ==> i < next <= |sql| && ToSavepoint(sql[next..]) == ToSavepoint(sql[i..])
  {
    var s := sql[i..];
    next, isSavepoint := i, false;
    if L(At(s, 0), 't') {
      if IsTransaction(s) {
        StepTransaction(sql, i);
        next := i + 11;
        return;
      } else if L(At(s, 0), 't') && L(At(s, 1), 'o') && (At(s, 2) == ' ' || At(s, 2) == '\t') {
        isSavepoint := true;
      }
    }
    StepWord(sql, i);
  }

  method ScanRollback(sql: CString, start: nat) returns (isSavepoint: bool)
    requires start <= |sql|
    ensures isSavepoint == ToSavepoint(sql[start..])
  {
    hide IsTransaction, IsTo, DropComment;
    var i := start;
    while i < |sql|
      invariant start <= i <= |sql| + 1
      invariant ToSavepoint(sql[start..]) == if i <= |sql| then ToSavepoint(sql[i..]) else false
      decreases |sql| + 1 - i
    {
      ghost var i0 := i;
      if IsBlank(At(sql, i)) {
        StepBlank(sql, i);
        i := i + 1;
      } else if At(sql, i) == '-' && At(sql, i + 1) == '-' {
        i := SkipComment(sql, i);
        StepComment(sql, i0, i);
        i := i + 1;
      } else {
        var next;
        next, isSavepoint := ScanWord(sql, i);
        if next == i {
          return;
        }
        i := next;
      }
    }
    return false;
  }

  // ----- What the scan sees through -----

  // A blank, a line comment with its newline, or a block comment. The engine passes over
  // all of them (over a vertical tab only after another blank).
  datatype Gap = Blank(c: char) | Comment(text: string) | Block(text: string) {
    predicate Valid() {
      match this
      case Blank(c) => IsBlank(c)
      case Comment(text) => '\n' !in text
      case Block(text) => forall i :: 0 <= i < |text| - 1 ==> !(text[i] == '*' && text[i + 1] == '/')
    }

    function Text(): string {
      match this
      case Blank(c) => [c]
      case Comment(text) => ['-', '-'] + text + ['\n']
      case Block(text) => ['/', '*'] + text + ['*', '/']
    }
  }

  // A gap, or the word TRANSACTION.
  datatype Item = Space(gap: Gap) | Transaction(word: string) {
    predicate Valid() {
      match this
      case Space(gap) => gap.Valid()
      case Transaction(word) => |word| == 11 && IsTransaction(word)
    }

    function Text(): string {
      match this
      case Space(gap) => gap.Text()
      case Transaction(word) => word
    }
  }

  predicate ValidGaps(gs: seq<Gap>) {
    forall i :: 0 <= i < |gs| ==> gs[i].Valid()
  }

  predicate ValidItems(items: seq<Item>) {
    forall i :: 0 <= i < |items| ==> items[i].Valid()
  }

  predicate HasBlock(gs: seq<Gap>) {
    exists i :: 0 <= i < |gs| && gs[i].Block?
  }

  predicate IsBlock(item: Item) {
    item.Space? && item.gap.Block?
  }

  predicate BlockAmong(items: seq<Item>) {
    exists i :: 0 <= i < |items| && IsBlock(items[i])
  }

  function GapsText(gs: seq<Gap>): string {
    if gs == [] then [] else gs[0].Text() + GapsText(gs[1..])
  }

  function ItemsText(items: seq<Item>): string {
    if items == [] then [] else items[0].Text() + ItemsText(items[1..])
  }

  lemma {:induction false} DropOfLine(text: string, rest: string)
    requires '\n' !in text
    ensures DropComment(text + ['\n'] + rest) == ['\n'] + rest
  {
    if text == [] {
      assert [] + ['\n'] + rest == ['\n'] + rest;
    } else {
      assert (text + ['\n'] + rest)[1..] == text[1..] + ['\n'] + rest;
      DropOfLine(text[1..], rest);
    }
  }

  lemma CommentDrops(g: Gap, rest: string)
    requires g.Comment? && g.Valid()
    ensures var t := g.Text() + rest;
            IsDashes(t) && !IsBlank(t[0]) && DropComment(t[1..]) == ['\n'] + rest
  {
    var t := g.Text() + rest;
    assert t[1..] == (['-'] + g.text) + ['\n'] + rest;
    DropOfLine(['-'] + g.text, rest);
  }

  lemma LeadSkipsGap(g: Gap, rest: string)
    requires g.Valid() && !g.Block?
    ensures Lead(g.Text() + rest) == Lead(rest)
  {
    var t := g.Text() + rest;
    if g.Blank? {
      assert t[1..] == rest;
    } else {
      CommentDrops(g, rest);
      assert (['\n'] + rest)[1..] == rest;
    }
  }

  lemma FirstBlock(g: Gap, gs: seq<Gap>)
    ensures HasBlock([g] + gs) <==> g.Block? || HasBlock(gs)
  {
    var all := [g] + gs;
    assert all[0] == g;
    if i :| 0 <= i < |gs| && gs[i].Block? {
      assert all[i + 1] == gs[i];
    }
  }

  // Blanks and line comments before a statement never change what it is taken for, but
  // with a block comment among them no statement is recognised.
  lemma {:induction false} ScanSeesThroughGaps(gs: seq<Gap>, sql: string)
    requires ValidGaps(gs)
    ensures Scan(GapsText(gs) + sql) == if HasBlock(gs) then KOther else Scan(sql)
  {
    if gs == [] {
      assert [] + sql == sql;
    } else {
      var g, rest := gs[0], GapsText(gs[1..]) + sql;
      assert GapsText(gs) + sql == g.Text() + rest;
      assert gs == [g] + gs[1..];
      FirstBlock(g, gs[1..]);
      if g.Block? {
        BlockIsOther(g, rest);
      } else {
        LeadSkipsGap(g, rest);
        ScanSeesThroughGaps(gs[1..], sql);
      }
    }
  }

  lemma BlockIsOther(g: Gap, rest: string)
    requires g.Block?
    ensures Scan(g.Text() + rest) == KOther && !ToSavepoint(g.Text() + rest)
  {
    var t := g.Text() + rest;
    assert t[0] == '/';
  }

  lemma ToSavepointSkipsItem(item: Item, rest: string)
    requires item.Valid() && !IsBlock(item)
    ensures ToSavepoint(item.Text() + rest) == ToSavepoint(rest)
  {
    var t := item.Text() + rest;
    if item.Transaction? {
      assert t[11..] == rest;
      TransactionStays(item.word, rest);
    } else if item.gap.Blank? {
      assert t[1..] == rest;
    } else {
      CommentDrops(item.gap, rest);
      assert (['\n'] + rest)[1..] == rest;
    }
  }

  lemma TransactionStays(word: string, rest: string)
    requires |word| == 11 && IsTransaction(word)
    ensures IsTransaction(word + rest) && !IsBlank((word + rest)[0]) && !IsDashes(word + rest)
  {}

  lemma FirstItem(item: Item, items: seq<Item>)
    ensures BlockAmong([item] + items) <==> IsBlock(item) || BlockAmong(items)
  {
    var all := [item] + items;
    assert all[0] == item;
    if i :| 0 <= i < |items| && IsBlock(items[i]) {
      assert all[i + 1] == items[i];
    }
  }

  // Likewise between ROLLBACK and TO, where TRANSACTION is passed over as well.
  lemma {:induction false} RollbackSeesThroughItems(items: seq<Item>, rest: string)
    requires ValidItems(items)
    ensures ToSavepoint(ItemsText(items) + rest) <==> !BlockAmong(items) && ToSavepoint(rest)
  {
    if items == [] {
      assert [] + rest == rest;
    } else {
      var item, more := items[0], ItemsText(items[1..]) + rest;
      assert ItemsText(items) + rest == item.Text() + more;
      assert items == [item] + items[1..];
      FirstItem(item, items[1..]);
      if IsBlock(item) {
        BlockIsOther(item.gap, more);
      } else {
        hide ToSavepoint;
        ToSavepointSkipsItem(item, more);
        RollbackSeesThroughItems(items[1..], rest);
      }
    }
  }

  predicate SpaceOrTab(rest: string) {
    rest != [] && (rest[0] == ' ' || rest[0] == '\t')
  }

  // After ROLLBACK and any gaps, TO is recognised if and only if none of them is a block
  // comment and a space or a tab follows.
  lemma ToNeedsSpaceOrTab(items: seq<Item>, t: char, o: char, rest: string)
    requires ValidItems(items) && L(t, 't') && L(o, 'o')
    ensures ToSavepoint(ItemsText(items) + ([t, o] + rest)) <==> !BlockAmong(items) && SpaceOrTab(rest)
  {
    RollbackSeesThroughItems(items, [t, o] + rest);
    ToDecides(t, o, rest);
  }

  // What may continue an identifier of SQL, so that a keyword does not end before it.
  predicate IsIdChar(c: char) {
    'a' <= c <= 'z' || 'A' <= c <= 'Z' || '0' <= c <= '9' || c == '_' || c == '$' || 0x80 <= c as int
  }

  // gaps, ROLLBACK, gaps and TRANSACTION, TO
  function RollbackTo(gs: seq<Gap>, word: string, items: seq<Item>, t: char, o: char, rest: string): string {
    GapsText(gs) + (word + (ItemsText(items) + ([t, o] + rest)))
  }

  // What such a text is taken for.
  lemma RollbackToIsTakenFor(gs: seq<Gap>, word: string, items: seq<Item>, t: char, o: char, rest: string)
    requires ValidGaps(gs) && ValidItems(items)
    requires |word| == 8 && IsRollback(word) && L(t, 't') && L(o, 'o')
    ensures Scan(RollbackTo(gs, word, items, t, o, rest))
         == if HasBlock(gs) then KOther
            else if !BlockAmong(items) && SpaceOrTab(rest) then KRollbackTo
            else KRollback
  {
    hide Scan, ToSavepoint;
    var more := ItemsText(items) + ([t, o] + rest);
    ScanSeesThroughGaps(gs, word + more);
    ScanOfRollback(word, more);
    ToNeedsSpaceOrTab(items, t, o, rest);
  }

  // The engine reads TO in such a text exactly if nothing continues it to a longer word.
  // The scan agrees with the engine if and only if a longer word stands there, or no block
  // comment stands in it and a space or a tab follows TO.
  lemma ScanAgreesExactly(gs: seq<Gap>, word: string, items: seq<Item>, t: char, o: char, rest: string)
    requires ValidGaps(gs) && ValidItems(items)
    requires |word| == 8 && IsRollback(word) && L(t, 't') && L(o, 'o')
    ensures var longer := rest != [] && IsIdChar(rest[0]);
            (Scan(RollbackTo(gs, word, items, t, o, rest)).KRollbackTo? <==> !longer)
            <==> longer || (!HasBlock(gs) && !BlockAmong(items) && SpaceOrTab(rest))
  {
    hide Scan;
    RollbackToIsTakenFor(gs, word, items, t, o, rest);
  }

  lemma ToDecides(t: char, o: char, rest: string)
    requires L(t, 't') && L(o, 'o')
    ensures ToSavepoint([t, o] + rest) <==> SpaceOrTab(rest)
  {}

  lemma ScanOfRollback(word: string, rest: string)
    requires |word| == 8 && IsRollback(word)
    ensures Scan(word + rest) == if ToSavepoint(rest) then KRollbackTo else KRollback
  {
    hide ToSavepoint;
    var t := word + rest;
    assert t[8..] == rest;
    assert Lead(t) == t;
  }

  // ROLLBACK, one gap, TO svp
  lemma OneGapBeforeTo(g: Gap, rest: string)
    requires g.Valid()
    ensures Scan("ROLLBACK" + (g.Text() + (['T', 'O'] + rest)))
         == if !g.Block? && SpaceOrTab(rest) then KRollbackTo else KRollback
  {
    var items := [Space(g)];
    assert items[1..] == [];
    assert ItemsText(items) == g.Text() + [] == g.Text();
    assert BlockAmong(items) <==> IsBlock(items[0]);
    hide Scan, ToSavepoint, ItemsText, BlockAmong;
    ToNeedsSpaceOrTab(items, 'T', 'O', rest);
    ScanOfRollback("ROLLBACK", g.Text() + (['T', 'O'] + rest));
  }

  lemma NewlineAfterTo()
    ensures Scan("ROLLBACK TO\nsvp").KRollback? && Scan("ROLLBACK TO svp").KRollbackTo?
  {
    hide Scan;
    OneGapBeforeTo(Blank(' '), "\nsvp");
    OneGapBeforeTo(Blank(' '), " svp");
    assert "ROLLBACK TO\nsvp" == "ROLLBACK" + ([' '] + (['T', 'O'] + "\nsvp"));
    assert "ROLLBACK TO svp" == "ROLLBACK" + ([' '] + (['T', 'O'] + " svp"));
  }

  lemma BlockBeforeTo()
    ensures Scan("ROLLBACK/* x */TO svp").KRollback?
  {
    hide Scan;
    OneGapBeforeTo(Block(" x "), " svp");
    assert "ROLLBACK/* x */TO svp" == "ROLLBACK" + ((['/', '*'] + " x " + ['*', '/']) + (['T', 'O'] + " svp"));
  }

  lemma BlockBeforeCommit()
    ensures Scan("/* x */COMMIT").KOther? && Scan("COMMIT").KCommit?
  {
    BlockIsOther(Block(" x "), "COMMIT");
    assert "/* x */COMMIT" == (['/', '*'] + " x " + ['*', '/']) + "COMMIT";
  }
}
