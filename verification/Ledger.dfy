/**
 Applying migrations: one transaction per migration that runs Up and records the
 version, by any number of instances booting at the same time.
 */
module Ledger {
  import opened Wrappers
  import opened Migrations

  /** The schema and data Up works on, and the versions the ledger table holds as its primary key. */
  datatype Db<S> = Db(schema: S, ledger: set<int>)

  /** One transaction: fails with Up, with the ledger's primary key, or for outside reasons. */
  function Apply<S>(db: Db<S>, m: Migration<S>, fault: bool): Option<Db<S>> {
    if m.up.None? then None
    else match m.up.value(db.schema)
      case None => None
      case Some(schema) => if fault || m.version in db.ledger then None else Some(Db(schema, db.ledger + {m.version}))
  }

  /** A transaction commits exactly when nothing outside fails, Up succeeds and the version is new. */
  lemma ApplyDecides<S>(db: Db<S>, m: Migration<S>, fault: bool)
    ensures Apply(db, m, fault).Some? <==>
              !fault && m.up.Some? && m.up.value(db.schema).Some? && m.version !in db.ledger
    ensures Apply(db, m, fault).Some? ==>
              && m.up.value(db.schema) == Some(Apply(db, m, fault).value.schema)
              && Apply(db, m, fault).value.ledger == db.ledger + {m.version}
  {
  }

  /** The schema after the whole list, if every Up succeeds in turn. */
  function Fold<S>(list: seq<Migration<S>>, init: S): Option<S> {
    if list == [] then Some(init)
    else match Fold(list[..|list| - 1], init)
      case None => None
      case Some(s) => if list[|list| - 1].up.None? then None else list[|list| - 1].up.value(s)
  }

  /** The database holds exactly the first n migrations: ledger and schema both say so. */
  ghost predicate AtPrefix<S>(list: seq<Migration<S>>, init: S, db: Db<S>, n: nat) {
    && n <= |list|
    && (forall v :: v in db.ledger <==> v in Versions(list[..n]))
    && Fold(list[..n], init) == Some(db.schema)
  }

  /** A version of the list lies in the ledger exactly when its place is inside the prefix. */
  lemma InLedger<S>(list: seq<Migration<S>>, init: S, db: Db<S>, n: nat, i: nat)
    requires WellFormed(list) && AtPrefix(list, init, db, n) && i < |list|
    ensures list[i].version in db.ledger <==> i < n
  {
    var vs := Versions(list[..n]);
    if i < n { assert vs[i] == list[i].version; }
    if list[i].version in vs {
      var k :| 0 <= k < |vs| && vs[k] == list[i].version;
      assert list[k].version == list[i].version;
    }
  }

  /** On a prefix, the only migration that can commit is the next one, and it leads to the next prefix. */
  lemma ApplyExtendsPrefix<S>(list: seq<Migration<S>>, init: S, db: Db<S>, n: nat, i: nat, fault: bool)
    requires WellFormed(list) && AtPrefix(list, init, db, n) && i <= n && i < |list|
    requires Apply(db, list[i], fault).Some?
    ensures i == n && AtPrefix(list, init, Apply(db, list[i], fault).value, n + 1)
  {
    var vs := Versions(list[..n]);
    InLedger(list, init, db, n, i);
    var next := Versions(list[..n + 1]);
    assert next == vs + [list[n].version];
    assert list[..n + 1][..n] == list[..n];
  }

  // ----- Many instances at once ------------------------------------------

  /** An instance has yet to read the ledger, works through the list against what it read, or is finished. */
  datatype Instance = Booting | Working(applied: set<int>, next: nat) | Finished | Broken

  datatype System<S> = System(db: Db<S>, commits: seq<int>, instances: map<nat, Instance>)

  datatype Action = Boot(id: nat) | Advance(id: nat, fault: bool)

  ghost function Step<S>(list: seq<Migration<S>>, sys: System<S>, a: Action): System<S> {
    match a
    case Boot(id) => if id in sys.instances then sys else sys.(instances := sys.instances[id := Booting])
    case Advance(id, fault) =>
      if id !in sys.instances then sys
      else match sys.instances[id]
        case Booting => sys.(instances := sys.instances[id := if fault then Broken else Working(sys.db.ledger, 0)])
        case Working(applied, next) =>
          if next >= |list| then sys.(instances := sys.instances[id := Finished])
          else if list[next].version in applied then sys.(instances := sys.instances[id := Working(applied, next + 1)])
          else (
            match Apply(sys.db, list[next], fault)
            case None => sys.(instances := sys.instances[id := Broken])
            case Some(db) =>
              System(db, sys.commits + [list[next].version], sys.instances[id := Working(applied, next + 1)])
          )
        case Finished => sys
        case Broken => sys
  }

  /** An instance that meets a fault, or whose next migration cannot commit, stops and changes nothing. */
  lemma FaultStopsTheInstance<S>(list: seq<Migration<S>>, sys: System<S>, id: nat, fault: bool)
    requires id in sys.instances
    requires var i := sys.instances[id];
             || (i == Booting && fault)
             || (&& i.Working? && i.next < |list| && list[i.next].version !in i.applied
                 && (|| fault || list[i.next].up.None? || list[i.next].up.value(sys.db.schema).None?
                     || list[i.next].version in sys.db.ledger))
    ensures Step(list, sys, Advance(id, fault)) == sys.(instances := sys.instances[id := Broken])
  {
  }

  ghost function Run<S>(list: seq<Migration<S>>, sys: System<S>, actions: seq<Action>): System<S> {
    if actions == [] then sys
    else Step(list, Run(list, sys, actions[..|actions| - 1]), actions[|actions| - 1])
  }

  /** What an instance knows of the ledger is true of it, since versions are never taken out. */
  ghost predicate Informed(i: Instance, n: nat, size: nat, ledger: set<int>) {
    match i
    case Working(applied, next) => next <= n && applied <= ledger
    case Finished => n == size
    case _ => true
  }

  ghost predicate Consistent<S>(list: seq<Migration<S>>, init: S, sys: System<S>, n: nat) {
    && AtPrefix(list, init, sys.db, n)
    && sys.commits == Versions(list[..n])
    && forall id :: id in sys.instances ==> Informed(sys.instances[id], n, |list|, sys.db.ledger)
  }

  lemma StepKeepsConsistent<S>(list: seq<Migration<S>>, init: S, sys: System<S>, a: Action, n: nat) returns (n': nat)
    requires WellFormed(list) && Consistent(list, init, sys, n)
    ensures n <= n' && Consistent(list, init, Step(list, sys, a), n')
  {
    n' := n;
    var after := Step(list, sys, a);
    if a.Advance? && a.id in sys.instances && sys.instances[a.id].Working? {
      var applied, next := sys.instances[a.id].applied, sys.instances[a.id].next;
      assert Informed(sys.instances[a.id], n, |list|, sys.db.ledger);
      if next < |list| {
        InLedger(list, init, sys.db, n, next);
        if list[next].version !in applied && Apply(sys.db, list[next], a.fault).Some? {
          ApplyExtendsPrefix(list, init, sys.db, n, next, a.fault);
          n' := n + 1;
          assert list[..n + 1] == list[..n] + [list[n]];
          assert after.commits == Versions(list[..n + 1]);
        }
      }
    }
  }

  /**
   However many instances run the list at once, and whatever fails, the ledger
   is a prefix of the list, the versions committed so far are that prefix in
   order and so each at most once, and the schema is the fold of Up over it; an
   instance that finishes has seen the whole list applied.
   */
  lemma {:induction false} ConcurrentMigrationIsSafe<S>(list: seq<Migration<S>>, init: S, actions: seq<Action>)
    returns (n: nat)
    requires WellFormed(list)
    ensures var sys := Run(list, System(Db(init, {}), [], map[]), actions);
            && AtPrefix(list, init, sys.db, n)
            && sys.commits == Versions(list[..n])
            && (forall i, j :: 0 <= i < j < |sys.commits| ==> sys.commits[i] != sys.commits[j])
            && (forall id :: id in sys.instances && sys.instances[id] == Finished ==> n == |list|)
            && Consistent(list, init, sys, n)
    decreases |actions|
  {
    var start := System(Db(init, {}), [], map[]);
    if actions == [] {
      n := 0;
      assert list[..0] == [];
    } else {
      var m := ConcurrentMigrationIsSafe(list, init, actions[..|actions| - 1]);
      n := StepKeepsConsistent(list, init, Run(list, start, actions[..|actions| - 1]), actions[|actions| - 1], m);
    }
    var sys := Run(list, start, actions);
    forall id | id in sys.instances && sys.instances[id] == Finished ensures n == |list| {
      assert Informed(sys.instances[id], n, |list|, sys.db.ledger);
    }
  }

  // ----- What a single run has to do --------------------------------------

  /** The migrations whose version a ledger does not hold, in the order of the list. */
  function Pending<S>(list: seq<Migration<S>>, ledger: set<int>): seq<Migration<S>> {
    if list == [] then []
    else
      var earlier, last := Pending(list[..|list| - 1], ledger), list[|list| - 1];
      if last.version in ledger then earlier else earlier + [last]
  }

  /** These migrations have been done, in order, and nothing else. */
  ghost predicate Done<S>(todo: seq<Migration<S>>, before: Db<S>, after: Db<S>) {
    && (forall v :: v in after.ledger <==> v in before.ledger || v in Versions(todo))
    && Fold(todo, before.schema) == Some(after.schema)
  }

  lemma PendingGrows<S>(list: seq<Migration<S>>, ledger: set<int>, i: nat)
    requires i < |list|
    ensures Pending(list[..i + 1], ledger)
            == if list[i].version in ledger then Pending(list[..i], ledger) else Pending(list[..i], ledger) + [list[i]]
  {
    assert list[..i + 1][..i] == list[..i];
  }

  lemma PrefixOfPrefix<T>(a: seq<T>, b: seq<T>, c: seq<T>)
    requires a <= b <= c
    ensures a <= c
  {
  }

  lemma {:induction false} PendingOfPrefix<S>(list: seq<Migration<S>>, ledger: set<int>, i: nat)
    requires i <= |list|
    ensures Pending(list[..i], ledger) <= Pending(list, ledger)
    decreases |list| - i
  {
    if i == |list| {
      assert list[..i] == list;
    } else {
      PendingGrows(list, ledger, i);
      PendingOfPrefix(list, ledger, i + 1);
      PrefixOfPrefix(Pending(list[..i], ledger), Pending(list[..i + 1], ledger), Pending(list, ledger));
    }
  }

  /** What is pending comes from the list. */
  lemma {:induction false} PendingIsListed<S>(list: seq<Migration<S>>, ledger: set<int>, k: nat) returns (j: nat)
    requires k < |Pending(list, ledger)|
    ensures j < |list| && list[j] == Pending(list, ledger)[k] && list[j].version !in ledger
  {
    var earlier := list[..|list| - 1];
    if k < |Pending(earlier, ledger)| {
      j := PendingIsListed(earlier, ledger, k);
    } else {
      j := |list| - 1;
    }
  }

  lemma PendingIsNew<S>(list: seq<Migration<S>>, ledger: set<int>, i: nat)
    requires WellFormed(list) && i < |list|
    ensures list[i].version !in Versions(Pending(list[..i], ledger))
  {
    var vs := Versions(Pending(list[..i], ledger));
    if list[i].version in vs {
      var k :| 0 <= k < |vs| && vs[k] == list[i].version;
      var j := PendingIsListed(list[..i], ledger, k);
    }
  }

  lemma FoldOneMore<S>(todo: seq<Migration<S>>, m: Migration<S>, init: S)
    ensures Fold(todo + [m], init)
            == match Fold(todo, init) case None => None case Some(s) => if m.up.None? then None else m.up.value(s)
  {
    assert (todo + [m])[..|todo|] == todo;
  }

  lemma VersionsOneMore<S>(todo: seq<Migration<S>>, m: Migration<S>)
    ensures Versions(todo + [m]) == Versions(todo) + [m.version]
  {
  }

  /** One more migration, on a database on which the ones before it have been done. */
  lemma DoOne<S>(todo: seq<Migration<S>>, before: Db<S>, db: Db<S>, m: Migration<S>, fault: bool)
    requires Done(todo, before, db) && m.version !in before.ledger && m.version !in Versions(todo)
    ensures Apply(db, m, fault).Some? ==> Done(todo + [m], before, Apply(db, m, fault).value)
    ensures Apply(db, m, fault).None? && !fault ==> Fold(todo + [m], before.schema).None?
  {
    FoldOneMore(todo, m, before.schema);
    VersionsOneMore(todo, m);
  }

  /** The loop invariant of a run: of the first i migrations, those that were due have been done. */
  ghost predicate Reached<S>(list: seq<Migration<S>>, before: Db<S>, db: Db<S>, i: nat) {
    i <= |list| && Done(Pending(list[..i], before.ledger), before, db)
  }

  lemma SkipApplied<S>(list: seq<Migration<S>>, before: Db<S>, db: Db<S>, i: nat)
    requires Reached(list, before, db, i) && i < |list| && list[i].version in before.ledger
    ensures Reached(list, before, db, i + 1)
  {
    PendingGrows(list, before.ledger, i);
  }

  lemma {:induction false} PartStopsAll<S>(part: seq<Migration<S>>, all: seq<Migration<S>>, init: S)
    requires part <= all
    ensures Fold(part, init).None? ==> Fold(all, init).None?
    decreases |all|
  {
    if part != all {
      PartStopsAll(part, all[..|all| - 1], init);
    }
  }

  lemma DoNext<S>(list: seq<Migration<S>>, before: Db<S>, db: Db<S>, i: nat, fault: bool)
    requires WellFormed(list) && Reached(list, before, db, i) && i < |list| && list[i].version !in before.ledger
    ensures Apply(db, list[i], fault).Some? ==> Reached(list, before, Apply(db, list[i], fault).value, i + 1)
    ensures Apply(db, list[i], fault).None? && !fault ==> Fold(Pending(list, before.ledger), before.schema).None?
  {
    PendingGrows(list, before.ledger, i);
    PendingIsNew(list, before.ledger, i);
    DoOne(Pending(list[..i], before.ledger), before, db, list[i], fault);
    PendingOfPrefix(list, before.ledger, i + 1);
    PartStopsAll(Pending(list[..i + 1], before.ledger), Pending(list, before.ledger), before.schema);
  }

  /** A run that stops at migration i has done what was due before it, and that one is the next due. */
  lemma StoppedAt<S>(list: seq<Migration<S>>, before: Db<S>, db: Db<S>, i: nat)
    requires Reached(list, before, db, i) && i < |list| && list[i].version !in before.ledger
    ensures var todo, k := Pending(list, before.ledger), |Pending(list[..i], before.ledger)|;
            k < |todo| && todo[k] == list[i] && Done(todo[..k], before, db)
  {
    var part := Pending(list[..i], before.ledger);
    PendingGrows(list, before.ledger, i);
    PendingOfPrefix(list, before.ledger, i + 1);
    assert Pending(list, before.ledger)[..|part|] == part;
  }

  // ----- One instance, statement by statement ----------------------------

  datatype Outcome = Migrated | Invalid(v: Verdict) | Unread | Stopped(at: int)

  class Database<!S> {
    var schema: S
    var ledger: set<int>

    ghost function View(): Db<S>
      reads this
    {
      Db(schema, ledger)
    }

    constructor (init: S)
      ensures View() == Db(init, {})
    {
      schema, ledger := init, {};
    }

    method ApplyMigration(m: Migration<S>, fault: bool) returns (ok: bool)
      modifies this
      ensures ok == Apply(old(View()), m, fault).Some?
      ensures fault ==> !ok && schema == old(schema) && ledger == old(ledger)
      ensures View() == if ok then Apply(old(View()), m, fault).value else old(View())
    {
      if m.up.None? {
        return false;
      }
      var up := m.up.value(schema);
      if up.None? {
        return false;
      }
      if fault || m.version in ledger {
        return false;
      }
      schema, ledger := up.value, ledger + {m.version};
      ok := true;
    }

    /**
     On any ledger, a run does the migrations the ledger lacks, in the order of
     the list, up to the one it stops at; without outside faults it succeeds
     exactly when all their Ups do.
     */
    method Migrate(list: seq<Migration<S>>, sorted: seq<Migration<S>>, unreadable: bool, faults: nat -> bool)
      returns (r: Outcome, ghost k: nat)
      requires IsSortOf(list, sorted)
      modifies this
      ensures r.Invalid? <==> !WellFormed(list)
      ensures r == Unread <==> WellFormed(list) && unreadable
      ensures r.Invalid? ==> Justified(r.v, list)
      ensures r.Invalid? || r == Unread ==> View() == old(View())
      ensures k <= |Pending(list, old(ledger))| && Done(Pending(list, old(ledger))[..k], old(View()), View())
      ensures r == Migrated ==> k == |Pending(list, old(ledger))|
      ensures r.Stopped? ==> k < |Pending(list, old(ledger))| && r.at == Pending(list, old(ledger))[k].version
      ensures r == Migrated ==> forall i :: 0 <= i < |list| && list[i].version !in old(ledger) ==> !faults(i)
      ensures r.Stopped? ==>
                forall i :: 0 <= i < |list| && list[i].version !in old(ledger) && faults(i) ==> r.at <= list[i].version
      ensures WellFormed(list) && !unreadable && (forall i :: !faults(i)) ==>
                (r == Migrated <==> Fold(Pending(list, old(ledger)), old(schema)).Some?)
    {
      k := 0;
      var v := ValidateMigrations(list, sorted);
      if !v.Accepted? {
        return Invalid(v), 0;
      }
      if unreadable {
        return Unread, 0;
      }
      var applied := ledger;
      ghost var before := View();
      for i := 0 to |list|
        invariant Reached(list, before, View(), i)
        invariant forall j :: 0 <= j < i && list[j].version !in applied ==> !faults(j)
      {
        if list[i].version in applied {
          SkipApplied(list, before, View(), i);
        } else {
          ghost var db := View();
          DoNext(list, before, db, i, faults(i));
          StoppedAt(list, before, db, i);
          var ok := ApplyMigration(list[i], faults(i));
          if !ok {
            return Stopped(list[i].version), |Pending(list[..i], before.ledger)|;
          }
        }
      }
      assert list[..|list|] == list;
      k := |Pending(list, before.ledger)|;
      assert Pending(list, before.ledger)[..k] == Pending(list, before.ledger);
      r := Migrated;
    }
  }

  // ----- On a ledger the list itself has written --------------------------

  /** The ledger holds exactly the versions of the first n migrations of the list. */
  ghost predicate HoldsFirst<S>(list: seq<Migration<S>>, ledger: set<int>, n: nat) {
    n <= |list| && forall i :: 0 <= i < |list| ==> (list[i].version in ledger <==> i < n)
  }

  lemma {:induction false} NothingPendingAmongFirst<S>(list: seq<Migration<S>>, ledger: set<int>, n: nat, i: nat)
    requires HoldsFirst(list, ledger, n) && i <= n
    ensures Pending(list[..i], ledger) == []
  {
    if i > 0 {
      NothingPendingAmongFirst(list, ledger, n, i - 1);
      PendingGrows(list, ledger, i - 1);
    }
  }

  lemma OneMore<T>(s: seq<T>, n: nat, i: nat)
    requires n < i <= |s|
    ensures s[n..i] == s[n..i - 1] + [s[i - 1]]
  {
  }

  lemma PendingTakesOne<S>(list: seq<Migration<S>>, ledger: set<int>, n: nat, i: nat)
    requires HoldsFirst(list, ledger, n) && n < i <= |list|
    ensures Pending(list[..i], ledger) == Pending(list[..i - 1], ledger) + [list[i - 1]]
  {
    PendingGrows(list, ledger, i - 1);
  }

  lemma {:induction false} PendingAfterFirst<S>(list: seq<Migration<S>>, ledger: set<int>, n: nat, i: nat)
    requires HoldsFirst(list, ledger, n) && n <= i <= |list|
    ensures Pending(list[..i], ledger) == list[n..i]
  {
    if i == n {
      NothingPendingAmongFirst(list, ledger, n, n);
    } else {
      PendingAfterFirst(list, ledger, n, i - 1);
      PendingTakesOne(list, ledger, n, i);
      OneMore(list, n, i);
    }
  }

  lemma {:induction false} FoldFrom<S>(list: seq<Migration<S>>, init: S, n: nat, k: nat, mid: S)
    requires n + k <= |list| && Fold(list[..n], init) == Some(mid)
    ensures Fold(list[..n + k], init) == Fold(list[n..][..k], mid)
  {
    if k > 0 {
      FoldFrom(list, init, n, k - 1, mid);
      assert list[..n + k][..n + k - 1] == list[..n + k - 1];
      assert list[n..][..k][..k - 1] == list[n..][..k - 1];
    }
  }

  lemma VersionsConcat<S>(a: seq<Migration<S>>, b: seq<Migration<S>>)
    ensures Versions(a + b) == Versions(a) + Versions(b)
  {
  }

  /** On a prefix, what is pending is the rest of the list. */
  lemma PendingIsRest<S>(list: seq<Migration<S>>, init: S, db: Db<S>, n: nat)
    requires WellFormed(list) && AtPrefix(list, init, db, n)
    ensures Pending(list, db.ledger) == list[n..]
  {
    forall i | 0 <= i < |list| ensures list[i].version in db.ledger <==> i < n {
      InLedger(list, init, db, n, i);
    }
    PendingAfterFirst(list, db.ledger, n, |list|);
    assert list[..|list|] == list && list[n..|list|] == list[n..];
  }

  lemma ExtendPrefix<S>(list: seq<Migration<S>>, init: S, before: Db<S>, after: Db<S>, n: nat, k: nat)
    requires AtPrefix(list, init, before, n) && n + k <= |list| && Done(list[n..][..k], before, after)
    ensures AtPrefix(list, init, after, n + k)
  {
    FoldFrom(list, init, n, k, before.schema);
    assert list[..n + k] == list[..n] + list[n..][..k];
    VersionsConcat(list[..n], list[n..][..k]);
  }

  /** From a prefix, a run leads to a longer prefix, and to the whole list when it has done all that was pending. */
  lemma RunExtendsPrefix<S>(list: seq<Migration<S>>, init: S, before: Db<S>, after: Db<S>, n: nat, k: nat)
    requires WellFormed(list) && AtPrefix(list, init, before, n)
    requires k <= |Pending(list, before.ledger)| && Done(Pending(list, before.ledger)[..k], before, after)
    ensures AtPrefix(list, init, after, n + k)
    ensures |Pending(list, before.ledger)| == |list| - n
  {
    PendingIsRest(list, init, before, n);
    ExtendPrefix(list, init, before, after, n, k);
  }

  // ----- Without outside faults somebody always gets through ---------------

  ghost predicate FaultFree(actions: seq<Action>) {
    forall i :: 0 <= i < |actions| && actions[i].Advance? ==> !actions[i].fault
  }

  /** The instance has nothing before it but what is not yet applied. */
  predicate Leads(i: Instance, n: nat) {
    i == Finished || (i.Working? && i.next == n)
  }

  /** Once something is applied somebody leads, and nobody fails before that. */
  ghost predicate Led<S>(sys: System<S>, n: nat) {
    && (n > 0 ==> exists id :: id in sys.instances && Leads(sys.instances[id], n))
    && (forall id :: id in sys.instances && sys.instances[id] == Broken ==> n > 0)
  }

  /** On a prefix of a list that can be folded, the next migration commits. */
  lemma NextCommits<S>(list: seq<Migration<S>>, init: S, db: Db<S>, n: nat)
    requires WellFormed(list) && AtPrefix(list, init, db, n) && n < |list| && Fold(list, init).Some?
    ensures Apply(db, list[n], false).Some?
  {
    InLedger(list, init, db, n, n);
    PartStopsAll(list[..n + 1], list, init);
    assert list[..n + 1][..n] == list[..n];
  }

  lemma StepKeepsLed<S>(list: seq<Migration<S>>, init: S, sys: System<S>, a: Action, n: nat) returns (n': nat)
    requires WellFormed(list) && Fold(list, init).Some? && Consistent(list, init, sys, n) && Led(sys, n)
    requires a.Advance? ==> !a.fault
    ensures Consistent(list, init, Step(list, sys, a), n') && Led(Step(list, sys, a), n')
  {
    var after := Step(list, sys, a);
    n' := StepKeepsConsistent(list, init, sys, a, n);
    assert |sys.commits| == n && |after.commits| == n';
    if a.Advance? && a.id in sys.instances && sys.instances[a.id].Working? {
      var next := sys.instances[a.id].next;
      assert Informed(sys.instances[a.id], n, |list|, sys.db.ledger);
      if next < |list| {
        InLedger(list, init, sys.db, n, next);
      }
      if next == n < |list| {
        NextCommits(list, init, sys.db, n);
      }
      if next == n {
        assert Leads(after.instances[a.id], n');
      }
    }
    if n' == n > 0 {
      var id :| id in sys.instances && Leads(sys.instances[id], n);
      assert id in after.instances && Leads(after.instances[id], n);
    }
  }

  /**
   Without outside faults, on a list whose Ups succeed in turn, the instances that
   fail do so because another is ahead of them: once all have stopped, the whole
   list has been applied.
   */
  lemma {:induction false} SomebodyGetsThrough<S>(list: seq<Migration<S>>, init: S, actions: seq<Action>)
    returns (n: nat)
    requires WellFormed(list) && Fold(list, init).Some? && FaultFree(actions)
    ensures var sys := Run(list, System(Db(init, {}), [], map[]), actions);
            && Consistent(list, init, sys, n) && Led(sys, n)
            && (sys.instances != map[] && (forall id :: id in sys.instances ==> sys.instances[id] in {Finished, Broken})
                ==> n == |list|)
    decreases |actions|
  {
    var start := System(Db(init, {}), [], map[]);
    if actions == [] {
      n := 0;
      assert list[..0] == [];
    } else {
      var m := SomebodyGetsThrough(list, init, actions[..|actions| - 1]);
      n := StepKeepsLed(list, init, Run(list, start, actions[..|actions| - 1]), actions[|actions| - 1], m);
    }
    var sys := Run(list, start, actions);
    if sys.instances != map[] && forall id :: id in sys.instances ==> sys.instances[id] in {Finished, Broken} {
      var id :| id in sys.instances && (n > 0 ==> Leads(sys.instances[id], n));
      assert Informed(sys.instances[id], n, |list|, sys.db.ledger);
    }
  }

  // ----- An instance left alone finishes ------------------------------------

  function Alone(id: nat, k: nat): seq<Action> {
    if k == 0 then [] else [Advance(id, false)] + Alone(id, k - 1)
  }

  lemma {:induction false} FirstThenRest<S>(list: seq<Migration<S>>, sys: System<S>, a: Action, rest: seq<Action>)
    ensures Run(list, sys, [a] + rest) == Run(list, Step(list, sys, a), rest)
    decreases |rest|
  {
    var all := [a] + rest;
    if rest == [] {
      assert all[..|all| - 1] == [] && all[|all| - 1] == a;
    } else {
      assert all[..|all| - 1] == [a] + rest[..|rest| - 1];
      FirstThenRest(list, sys, a, rest[..|rest| - 1]);
    }
  }

  /** The instance works, and knows of everything applied beyond the place it has reached. */
  ghost predicate UpToDate<S>(list: seq<Migration<S>>, sys: System<S>, id: nat, n: nat) {
    && id in sys.instances && sys.instances[id].Working? && n <= |list|
    && forall j :: sys.instances[id].next <= j < n ==> list[j].version in sys.instances[id].applied
  }

  lemma AloneAdvances<S>(list: seq<Migration<S>>, init: S, sys: System<S>, id: nat, n: nat) returns (n': nat)
    requires WellFormed(list) && Fold(list, init).Some? && Consistent(list, init, sys, n) && UpToDate(list, sys, id, n)
    requires sys.instances[id].next < |list|
    ensures var after := Step(list, sys, Advance(id, false));
            && Consistent(list, init, after, n') && UpToDate(list, after, id, n')
            && after.instances[id].next == sys.instances[id].next + 1
  {
    var next := sys.instances[id].next;
    n' := StepKeepsConsistent(list, init, sys, Advance(id, false), n);
    assert |sys.commits| == n && |Step(list, sys, Advance(id, false)).commits| == n';
    assert Informed(sys.instances[id], n, |list|, sys.db.ledger);
    InLedger(list, init, sys.db, n, next);
    if next == n {
      NextCommits(list, init, sys.db, n);
    }
  }

  lemma {:induction false} AloneFinishes<S>(list: seq<Migration<S>>, init: S, sys: System<S>, id: nat, n: nat)
    requires WellFormed(list) && Fold(list, init).Some? && Consistent(list, init, sys, n) && UpToDate(list, sys, id, n)
    requires sys.instances[id].next <= |list|
    ensures var last := Run(list, sys, Alone(id, |list| - sys.instances[id].next + 1));
            id in last.instances && last.instances[id] == Finished
    decreases |list| - sys.instances[id].next
  {
    var k := |list| - sys.instances[id].next;
    var after := Step(list, sys, Advance(id, false));
    FirstThenRest(list, sys, Advance(id, false), Alone(id, k));
    if k > 0 {
      var n' := AloneAdvances(list, init, sys, id, n);
      AloneFinishes(list, init, after, id, n');
    }
  }

  lemma BootingFinishes<S>(list: seq<Migration<S>>, init: S, sys: System<S>, id: nat, n: nat)
    requires WellFormed(list) && Fold(list, init).Some? && Consistent(list, init, sys, n)
    requires id in sys.instances && sys.instances[id] == Booting
    ensures var last := Run(list, sys, Alone(id, |list| + 2));
            id in last.instances && last.instances[id] == Finished
  {
    var after := Step(list, sys, Advance(id, false));
    var n' := StepKeepsConsistent(list, init, sys, Advance(id, false), n);
    assert |sys.commits| == n && |after.commits| == n';
    forall j | 0 <= j < n ensures list[j].version in sys.db.ledger {
      InLedger(list, init, sys.db, n, j);
    }
    FirstThenRest(list, sys, Advance(id, false), Alone(id, |list| + 1));
    AloneFinishes(list, init, after, id, n);
  }

  /**
   An instance that boots on whatever the others have applied, and is then left alone
   without faults, finishes, on a list whose Ups succeed in turn.
   */
  lemma LoneInstanceFinishes<S>(list: seq<Migration<S>>, init: S, sys: System<S>, id: nat, n: nat)
    requires WellFormed(list) && Fold(list, init).Some? && Consistent(list, init, sys, n) && id !in sys.instances
    ensures var last := Run(list, sys, [Boot(id)] + Alone(id, |list| + 2));
            id in last.instances && last.instances[id] == Finished
  {
    var n' := StepKeepsConsistent(list, init, sys, Boot(id), n);
    FirstThenRest(list, sys, Boot(id), Alone(id, |list| + 2));
    BootingFinishes(list, init, Step(list, sys, Boot(id)), id, n');
  }
}
