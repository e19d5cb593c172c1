/**
 Units of work carried through the context.

 A program is what a service does with its repositories: read a cell into a
 local variable, write a cell, fail, handle an error, and open a unit of work.
 Cells stand for rows; local variables stand for captured variables of a
 closure, which a rollback does not restore.
 */
module Transactions {
  import opened Wrappers

  type Key = string
  type Value = int
  type Table = map<Key, Value>
  type Locals = map<string, Value>

  datatype Expr = Lit(value: Value) | Local(name: string)

  datatype Prog =
    | Skip
    | Read(key: Key, into: string, fails: bool)
    | Write(key: Key, value: Expr, fails: bool)
    | Fail(code: int)
    | Seq(first: Prog, second: Prog)
    | If(name: string, equals: Value, yes: Prog, no: Prog)
    | Handle(body: Prog, handler: Prog)
    | WithinTx(unit: Prog, commitFails: bool)

  datatype Outcome = Ok | Err(code: int)

  const DB_ERROR: int := -1
  const COMMIT_ERROR: int := -2

  /** The context: whether it carries an ambient transaction. */
  datatype Context = Plain | Carrying(tx: Table)

  /** Committed table, the ambient transaction if there is one, and the locals. */
  datatype State = State(committed: Table, ctx: Context, locals: Locals)

  /** The handle a repository works on: the ambient transaction, otherwise the pool. */
  function Conn(s: State): Table {
    match s.ctx
    case Carrying(tx) => tx
    case Plain => s.committed
  }

  function Put(s: State, key: Key, v: Value): State {
    match s.ctx
    case Carrying(tx) => s.(ctx := Carrying(tx[key := v]))
    case Plain => s.(committed := s.committed[key := v])
  }

  function Eval(e: Expr, locals: Locals): Value {
    match e
    case Lit(v) => v
    case Local(x) => if x in locals then locals[x] else 0
  }

  function Get(t: Table, key: Key): Value {
    if key in t then t[key] else 0
  }

  /** What running a program in a context does. */
  function Exec(p: Prog, s: State): (State, Outcome) {
    match p
    case Skip => (s, Ok)
    case Read(key, x, fails) =>
      if fails then (s, Err(DB_ERROR)) else (s.(locals := s.locals[x := Get(Conn(s), key)]), Ok)
    case Write(key, e, fails) =>
      if fails then (s, Err(DB_ERROR)) else (Put(s, key, Eval(e, s.locals)), Ok)
    case Fail(code) => (s, Err(code))
    case Seq(a, b) =>
      var (s1, r1) := Exec(a, s);
      if r1.Err? then (s1, r1) else Exec(b, s1)
    case If(x, v, yes, no) => if Eval(Local(x), s.locals) == v then Exec(yes, s) else Exec(no, s)
    case Handle(body, handler) =>
      var (s1, r1) := Exec(body, s);
      if r1.Err? then Exec(handler, s1) else (s1, r1)
    case WithinTx(unit, commitFails) =>
      if s.ctx.Carrying? then
        Exec(unit, s)
      else
        var (s1, r1) := Exec(unit, s.(ctx := Carrying(s.committed)));
        if r1.Err? then (State(s.committed, Plain, s1.locals), r1)
        else if commitFails then (State(s.committed, Plain, s1.locals), Err(COMMIT_ERROR))
        else (State(Conn(s1), Plain, s1.locals), Ok)
  }

  // ----- Flattening ------------------------------------------------------

  /** The program with every unit of work erased. */
  function Erase(p: Prog): Prog {
    match p
    case Seq(a, b) => Seq(Erase(a), Erase(b))
    case If(x, v, yes, no) => If(x, v, Erase(yes), Erase(no))
    case Handle(body, handler) => Handle(Erase(body), Erase(handler))
    case WithinTx(unit, _) => Erase(unit)
    case _ => p
  }

  /** The program with every unit of work inside another one erased. */
  function Flatten(p: Prog): Prog {
    match p
    case Seq(a, b) => Seq(Flatten(a), Flatten(b))
    case If(x, v, yes, no) => If(x, v, Flatten(yes), Flatten(no))
    case Handle(body, handler) => Handle(Flatten(body), Flatten(handler))
    case WithinTx(unit, commitFails) => WithinTx(Erase(unit), commitFails)
    case _ => p
  }

  /** No unit of work anywhere. */
  predicate Bare(p: Prog) {
    match p
    case Seq(a, b) => Bare(a) && Bare(b)
    case If(_, _, yes, no) => Bare(yes) && Bare(no)
    case Handle(body, handler) => Bare(body) && Bare(handler)
    case WithinTx(_, _) => false
    case _ => true
  }

  /** No unit of work inside another. */
  predicate Flat(p: Prog) {
    match p
    case Seq(a, b) => Flat(a) && Flat(b)
    case If(_, _, yes, no) => Flat(yes) && Flat(no)
    case Handle(body, handler) => Flat(body) && Flat(handler)
    case WithinTx(unit, _) => Bare(unit)
    case _ => true
  }

  /** Erasing leaves no unit and flattening no nested one; neither touches a program that has none. */
  lemma {:induction false} FlattenFlattens(p: Prog)
    ensures Bare(Erase(p)) && Flat(Flatten(p))
    ensures (Bare(p) ==> Erase(p) == p) && (Flat(p) ==> Flatten(p) == p)
  {
    match p
    case Seq(a, b) =>
      FlattenFlattens(a);
      FlattenFlattens(b);
    case If(_, _, yes, no) =>
      FlattenFlattens(yes);
      FlattenFlattens(no);
    case Handle(body, handler) =>
      FlattenFlattens(body);
      FlattenFlattens(handler);
    case WithinTx(unit, _) => FlattenFlattens(unit);
    case _ =>
  }

  /** Running keeps the kind of context, and inside a transaction the committed table does not move. */
  lemma {:induction false} ContextIsKept(p: Prog, s: State)
    ensures Exec(p, s).0.ctx.Carrying? == s.ctx.Carrying?
    ensures s.ctx.Carrying? ==> Exec(p, s).0.committed == s.committed
  {
    match p
    case Seq(a, b) =>
      ContextIsKept(a, s);
      ContextIsKept(b, Exec(a, s).0);
    case If(_, _, yes, no) =>
      ContextIsKept(yes, s);
      ContextIsKept(no, s);
    case Handle(body, handler) =>
      ContextIsKept(body, s);
      ContextIsKept(handler, Exec(body, s).0);
    case WithinTx(unit, _) =>
      if s.ctx.Carrying? {
        ContextIsKept(unit, s);
      }
    case _ =>
  }

  /** Inside a transaction, erasing every nested unit changes nothing. */
  lemma {:induction false} NestedUnitsErase(p: Prog, s: State)
    requires s.ctx.Carrying?
    ensures Exec(p, s) == Exec(Erase(p), s)
  {
    match p
    case Seq(a, b) =>
      NestedUnitsErase(a, s);
      ContextIsKept(a, s);
      NestedUnitsErase(b, Exec(a, s).0);
    case If(_, _, yes, no) =>
      NestedUnitsErase(yes, s);
      NestedUnitsErase(no, s);
    case Handle(body, handler) =>
      NestedUnitsErase(body, s);
      ContextIsKept(body, s);
      NestedUnitsErase(handler, Exec(body, s).0);
    case WithinTx(unit, _) => NestedUnitsErase(unit, s);
    case _ =>
  }

  /** In any context, a program means the same with its inner units erased. */
  lemma {:induction false} FlatteningPreservesMeaning(p: Prog, s: State)
    ensures Exec(p, s) == Exec(Flatten(p), s)
  {
    match p
    case Seq(a, b) =>
      FlatteningPreservesMeaning(a, s);
      FlatteningPreservesMeaning(b, Exec(a, s).0);
    case If(_, _, yes, no) =>
      FlatteningPreservesMeaning(yes, s);
      FlatteningPreservesMeaning(no, s);
    case Handle(body, handler) =>
      FlatteningPreservesMeaning(body, s);
      FlatteningPreservesMeaning(handler, Exec(body, s).0);
    case WithinTx(unit, _) =>
      NestedUnitsErase(unit, if s.ctx.Carrying? then s else s.(ctx := Carrying(s.committed)));
    case _ =>
  }

  // ----- What a read sees -------------------------------------------------

  /** The writes a program makes from a state, in order. */
  ghost function Written(p: Prog, s: State): seq<(Key, Value)> {
    match p
    case Write(key, e, fails) => if fails then [] else [(key, Eval(e, s.locals))]
    case Seq(a, b) => Written(a, s) + if Exec(a, s).1.Ok? then Written(b, Exec(a, s).0) else []
    case If(x, v, yes, no) =>
      if (if x in s.locals then s.locals[x] else 0) == v then Written(yes, s) else Written(no, s)
    case Handle(body, handler) =>
      Written(body, s) + if Exec(body, s).1.Ok? then [] else Written(handler, Exec(body, s).0)
    case WithinTx(unit, _) => Written(unit, s)
    case _ => []
  }

  /** The value last written under the key, or the one it had before. */
  ghost function Latest(log: seq<(Key, Value)>, key: Key, before: Option<Value>): Option<Value> {
    if log == [] then before
    else if log[|log| - 1].0 == key then Some(log[|log| - 1].1)
    else Latest(log[..|log| - 1], key, before)
  }

  ghost function Cell(t: Table, key: Key): Option<Value> {
    if key in t then Some(t[key]) else None
  }

  lemma {:induction false} LatestOfBoth(a: seq<(Key, Value)>, b: seq<(Key, Value)>, key: Key, before: Option<Value>)
    ensures Latest(a + b, key, before) == Latest(b, key, Latest(a, key, before))
  {
    if b == [] {
      assert a + b == a;
    } else {
      assert (a + b)[..|a + b| - 1] == a + b[..|b| - 1];
      LatestOfBoth(a, b[..|b| - 1], key, before);
    }
  }

  /** Inside a transaction every cell holds what the unit last wrote to it, or what it held when the unit began. */
  lemma {:induction false} CellsFollowWrites(p: Prog, s: State, key: Key)
    requires s.ctx.Carrying?
    ensures Exec(p, s).0.ctx.Carrying?
    ensures Cell(Exec(p, s).0.ctx.tx, key) == Latest(Written(p, s), key, Cell(s.ctx.tx, key))
  {
    match p
    case Seq(a, b) =>
      CellsFollowWrites(a, s, key);
      if Exec(a, s).1.Ok? {
        CellsFollowWrites(b, Exec(a, s).0, key);
        LatestOfBoth(Written(a, s), Written(b, Exec(a, s).0), key, Cell(s.ctx.tx, key));
      } else {
        assert Written(p, s) == Written(a, s);
      }
    case If(_, _, yes, no) =>
      CellsFollowWrites(yes, s, key);
      CellsFollowWrites(no, s, key);
    case Handle(body, handler) =>
      CellsFollowWrites(body, s, key);
      if Exec(body, s).1.Ok? {
        assert Written(p, s) == Written(body, s);
      } else {
        CellsFollowWrites(handler, Exec(body, s).0, key);
        LatestOfBoth(Written(body, s), Written(handler, Exec(body, s).0), key, Cell(s.ctx.tx, key));
      }
    case WithinTx(unit, _) => CellsFollowWrites(unit, s, key);
    case _ =>
  }

  /**
   A read after any part of a unit sees the value the unit last wrote under the key,
   or, if it wrote none, the value the table held when the unit began; an absent cell
   reads as zero.
   */
  lemma ReadYourWrites(p: Prog, key: Key, x: string, committed: Table, t: Table, locals: Locals)
    requires Exec(p, State(committed, Carrying(t), locals)).1.Ok?
    ensures var s := State(committed, Carrying(t), locals);
            var (s', r) := Exec(Seq(p, Read(key, x, false)), s);
            var cell := Latest(Written(p, s), key, if key in t then Some(t[key]) else None);
            r.Ok? && x in s'.locals && s'.locals[x] == if cell.Some? then cell.value else 0
  {
    CellsFollowWrites(p, State(committed, Carrying(t), locals), key);
  }

  /** Outside a unit of work a read sees the committed value, and a write is committed at once. */
  lemma PlainAccess(key: Key, x: string, v: Value, committed: Table, locals: Locals)
    ensures var s := State(committed, Plain, locals);
            && Exec(Read(key, x, false), s)
               == (State(committed, Plain, locals[x := if key in committed then committed[key] else 0]), Ok)
            && Exec(Write(key, Lit(v), false), s) == (State(committed[key := v], Plain, locals), Ok)
            && Exec(Write(key, Local(x), false), s)
               == (State(committed[key := if x in locals then locals[x] else 0], Plain, locals), Ok)
  {
  }

  /** What a unit does depends on its own table alone: whatever others have committed makes no difference to it. */
  lemma {:induction false} UnitsAreIsolated(p: Prog, t: Table, locals: Locals, committed: Table, committed': Table)
    ensures var (s, r) := Exec(p, State(committed, Carrying(t), locals));
            var (s', r') := Exec(p, State(committed', Carrying(t), locals));
            s.ctx == s'.ctx && s.locals == s'.locals && r == r'
  {
    match p
    case Seq(a, b) =>
      UnitsAreIsolated(a, t, locals, committed, committed');
      ContextIsKept(a, State(committed, Carrying(t), locals));
      ContextIsKept(a, State(committed', Carrying(t), locals));
      var s := Exec(a, State(committed, Carrying(t), locals)).0;
      UnitsAreIsolated(b, s.ctx.tx, s.locals, committed, committed');
    case If(_, _, yes, no) =>
      UnitsAreIsolated(yes, t, locals, committed, committed');
      UnitsAreIsolated(no, t, locals, committed, committed');
    case Handle(body, handler) =>
      UnitsAreIsolated(body, t, locals, committed, committed');
      ContextIsKept(body, State(committed, Carrying(t), locals));
      ContextIsKept(body, State(committed', Carrying(t), locals));
      var s := Exec(body, State(committed, Carrying(t), locals)).0;
      UnitsAreIsolated(handler, s.ctx.tx, s.locals, committed, committed');
    case WithinTx(unit, _) => UnitsAreIsolated(unit, t, locals, committed, committed');
    case _ =>
  }

  /** A failing statement does nothing; an error skips what follows it and is what a handler is for. */
  lemma ErrorsSkipAhead(a: Prog, b: Prog, key: Key, e: Expr, x: string, code: int, s: State)
    ensures Exec(Read(key, x, true), s) == (s, Err(-1)) && Exec(Write(key, e, true), s) == (s, Err(-1))
    ensures Exec(Fail(code), s) == (s, Err(code)) && Exec(Skip, s) == (s, Ok)
    ensures Exec(a, s).1.Err? ==> Exec(Seq(a, b), s) == Exec(a, s) && Exec(Handle(a, b), s) == Exec(b, Exec(a, s).0)
    ensures Exec(a, s).1.Ok? ==> Exec(Seq(a, b), s) == Exec(b, Exec(a, s).0) && Exec(Handle(a, b), s) == Exec(a, s)
    ensures var v := if x in s.locals then s.locals[x] else 0;
            Exec(If(x, code, a, b), s) == if v == code then Exec(a, s) else Exec(b, s)
  {
  }

  // ----- All writes or none ----------------------------------------------

  datatype Update = Update(key: Key, value: Value)

  datatype Journal = Journal(log: seq<Update>, locals: Locals, result: Outcome)

  function Replay(t: Table, log: seq<Update>): Table {
    if log == [] then t else Replay(t, log[..|log| - 1])[log[|log| - 1].key := log[|log| - 1].value]
  }

  /** An account of a unit's writes that knows nothing of transactions: it only keeps a log over a base table. */
  function Record(p: Prog, base: Table, log: seq<Update>, locals: Locals): Journal {
    match p
    case Skip => Journal(log, locals, Ok)
    case Read(key, x, fails) =>
      if fails then Journal(log, locals, Err(DB_ERROR)) else Journal(log, locals[x := Get(Replay(base, log), key)], Ok)
    case Write(key, e, fails) =>
      if fails then Journal(log, locals, Err(DB_ERROR)) else Journal(log + [Update(key, Eval(e, locals))], locals, Ok)
    case Fail(code) => Journal(log, locals, Err(code))
    case Seq(a, b) =>
      var j := Record(a, base, log, locals);
      if j.result.Err? then j else Record(b, base, j.log, j.locals)
    case If(x, v, yes, no) =>
      if Eval(Local(x), locals) == v then Record(yes, base, log, locals) else Record(no, base, log, locals)
    case Handle(body, handler) =>
      var j := Record(body, base, log, locals);
      if j.result.Err? then Record(handler, base, j.log, j.locals) else j
    case WithinTx(unit, _) => Record(unit, base, log, locals)
  }

  /** The log only grows: a handled error takes back none of the writes before it. */
  lemma {:induction false} LogGrows(p: Prog, base: Table, log: seq<Update>, locals: Locals)
    ensures log <= Record(p, base, log, locals).log
  {
    match p
    case Seq(a, b) =>
      LogGrows(a, base, log, locals);
      var j := Record(a, base, log, locals);
      LogGrows(b, base, j.log, j.locals);
    case If(_, _, yes, no) =>
      LogGrows(yes, base, log, locals);
      LogGrows(no, base, log, locals);
    case Handle(body, handler) =>
      LogGrows(body, base, log, locals);
      var j := Record(body, base, log, locals);
      LogGrows(handler, base, j.log, j.locals);
    case WithinTx(unit, _) => LogGrows(unit, base, log, locals);
    case _ =>
  }

  lemma ReplayAppends(t: Table, log: seq<Update>, u: Update)
    ensures Replay(t, log + [u]) == Replay(t, log)[u.key := u.value]
  {
  }

  lemma {:induction false} JournalAgrees(p: Prog, base: Table, log: seq<Update>, committed: Table, locals: Locals)
    ensures var j := Record(p, base, log, locals);
            Exec(p, State(committed, Carrying(Replay(base, log)), locals))
            == (State(committed, Carrying(Replay(base, j.log)), j.locals), j.result)
  {
    match p
    case Write(key, e, _) => ReplayAppends(base, log, Update(key, Eval(e, locals)));
    case Seq(a, b) =>
      JournalAgrees(a, base, log, committed, locals);
      var j := Record(a, base, log, locals);
      JournalAgrees(b, base, j.log, committed, j.locals);
    case If(_, _, yes, no) =>
      JournalAgrees(yes, base, log, committed, locals);
      JournalAgrees(no, base, log, committed, locals);
    case Handle(body, handler) =>
      JournalAgrees(body, base, log, committed, locals);
      var j := Record(body, base, log, locals);
      JournalAgrees(handler, base, j.log, committed, j.locals);
    case WithinTx(unit, _) => JournalAgrees(unit, base, log, committed, locals);
    case _ =>
  }

  /**
   An outermost unit commits, in order, every write its body made (including
   those of an inner unit whose error was handled) when the body and the commit
   succeed, and none otherwise.
   */
  lemma AllWritesOrNone(unit: Prog, commitFails: bool, committed: Table, locals: Locals)
    ensures var j := Record(unit, committed, [], locals);
            var (s, r) := Exec(WithinTx(unit, commitFails), State(committed, Plain, locals));
            && s.ctx == Plain && s.locals == j.locals
            && r == (if j.result.Err? then j.result else if commitFails then Err(COMMIT_ERROR) else Ok)
            && s.committed == (if r.Ok? then Replay(committed, j.log) else committed)
  {
    JournalAgrees(unit, committed, [], committed, locals);
  }

  /** What the body of a handler wrote before its error is written for good when the unit around it commits. */
  lemma HandledErrorLosesNothing(body: Prog, handler: Prog, committed: Table, locals: Locals)
    requires Record(Handle(body, handler), committed, [], locals).result.Ok?
    ensures var log := Record(body, committed, [], locals).log;
            var all := Record(Handle(body, handler), committed, [], locals).log;
            && log <= all
            && Exec(WithinTx(Handle(body, handler), false), State(committed, Plain, locals)).0.committed
               == Replay(committed, all)
  {
    var j := Record(body, committed, [], locals);
    LogGrows(handler, committed, j.log, j.locals);
    AllWritesOrNone(Handle(body, handler), false, committed, locals);
  }

  /** A write inside an inner unit whose error is handled is committed with the outer unit. */
  lemma SwallowedInnerErrorStillCommits(key: Key, v: Value, code: int, committed: Table, locals: Locals)
    ensures var inner := WithinTx(Seq(Write(key, Lit(v), false), Fail(code)), false);
            Exec(WithinTx(Handle(inner, Skip), false), State(committed, Plain, locals))
            == (State(committed[key := v], Plain, locals), Ok)
  {
    var body := Seq(Write(key, Lit(v), false), Fail(code));
    var inside := State(committed, Carrying(committed), locals);
    var written := State(committed, Carrying(committed[key := v]), locals);
    assert Exec(body, inside) == (written, Err(code));
    assert Exec(Handle(WithinTx(body, false), Skip), inside) == (written, Ok);
  }

  // ----- The transaction manager -----------------------------------------

  class TxManager {
    var committed: Table
    var ctx: Context
    var locals: Locals

    ghost function View(): State
      reads this
    {
      State(committed, ctx, locals)
    }

    constructor (committed: Table)
      ensures View() == State(committed, Plain, map[])
    {
      this.committed, ctx, locals := committed, Plain, map[];
    }

    /** Runs the body inside a transaction: joins the ambient one, or opens, then commits or rolls back. */
    method WithinTx(unit: Prog, commitFails: bool) returns (r: Outcome)
      modifies this
      ensures (View(), r) == Exec(Prog.WithinTx(unit, commitFails), old(View()))
      decreases unit, 1
    {
      if ctx.Carrying? {
        r := Run(unit);
        return;
      }
      ctx := Carrying(committed);
      r := Run(unit);
      ContextIsKept(unit, State(old(committed), Carrying(old(committed)), old(locals)));
      if r.Ok? && commitFails {
        r := Err(COMMIT_ERROR);
      } else if r.Ok? {
        committed := ctx.tx;
      }
      ctx := Plain;
    }

    method Run(p: Prog) returns (r: Outcome)
      modifies this
      ensures (View(), r) == Exec(p, old(View()))
      decreases p, 0
    {
      match p
      case Skip => r := Ok;
      case Read(key, x, fails) =>
        if fails { return Err(DB_ERROR); }
        locals := locals[x := Get(if ctx.Carrying? then ctx.tx else committed, key)];
        r := Ok;
      case Write(key, e, fails) =>
        if fails { return Err(DB_ERROR); }
        if ctx.Carrying? {
          ctx := Carrying(ctx.tx[key := Eval(e, locals)]);
        } else {
          committed := committed[key := Eval(e, locals)];
        }
        r := Ok;
      case Fail(code) => r := Err(code);
      case Seq(a, b) =>
        r := Run(a);
        if r.Ok? { r := Run(b); }
      case If(x, v, yes, no) =>
        if Eval(Local(x), locals) == v { r := Run(yes); } else { r := Run(no); }
      case Handle(body, handler) =>
        r := Run(body);
        if r.Err? { r := Run(handler); }
      case WithinTx(unit, commitFails) => r := this.WithinTx(unit, commitFails);
    }
  }
}
