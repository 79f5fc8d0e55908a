/** Dependency-first execution of planned items (ddl/exec.go). */
module Executor {
  import opened Prelude
  import opened Planner

  /** A database that may refuse any statement; it remembers what it was given and how it answered. */
  class Db {
    var log: seq<(CreateTable, bool)>

    method Exec(stmt: CreateTable) returns (ok: bool)
      modifies this
      ensures log == old(log) + [(stmt, ok)]
    {
      ok := *;
      log := log + [(stmt, ok)];
    }
  }

  class NameSet {
    var names: set<string>

    constructor ()
      ensures names == {}
    {
      names := {};
    }
  }

  function Accepted(stmts: seq<CreateTable>): (r: seq<(CreateTable, bool)>)
    ensures |r| == |stmts| && forall i :: 0 <= i < |r| ==> r[i] == (stmts[i], true)
  {
    seq(|stmts|, i requires 0 <= i < |stmts| => (stmts[i], true))
  }

  /** What the executor reads of a planned table. */
  datatype Table = Table(stmts: seq<CreateTable>, deps: set<string>)

  type Plan = map<string, Table>

  ghost predicate Describes(plan: Plan, memo: InitMap)
    reads memo, memo.Items()
  {
    && plan.Keys == memo.Done()
    && forall k :: k in plan ==>
         plan[k] == Table(memo.entries[k].sqlStr, memo.entries[k].depTableSqlItemMap.Keys)
  }

  // ---------- Runs ----------

  /** Everything the database sees while the named tables are run one after the other. */
  function Runs(plan: Plan, names: seq<string>): seq<(CreateTable, bool)> {
    if names == [] then []
    else Runs(plan, names[..|names| - 1]) + RunOf(plan, names[|names| - 1])
  }

  function RunOf(plan: Plan, name: string): seq<(CreateTable, bool)> {
    if name in plan then Accepted(plan[name].stmts) else []
  }

  /** The log of a table whose last statement tried was refused. */
  ghost predicate Broken(stmts: seq<CreateTable>, log: seq<(CreateTable, bool)>) {
    0 < |log| <= |stmts| && log == Accepted(stmts[..|log| - 1]) + [(stmts[|log| - 1], false)]
  }

  /** The tables run so far: planned, without repeats, each after all its dependencies. */
  ghost predicate RanOk(plan: Plan, ran: seq<string>) {
    && Distinct(ran)
    && forall i :: 0 <= i < |ran| ==> ran[i] in plan && plan[ran[i]].deps <= Elems(ran[..i])
  }

  ghost predicate DepPath(plan: Plan, p: seq<string>, from: string, to: string) {
    && |p| > 0 && p[0] == from && p[|p| - 1] == to
    && forall i :: 0 <= i < |p| - 1 ==> p[i] in plan && p[i + 1] in plan[p[i]].deps
  }

  /** `to` is `from` or one of its direct or indirect dependencies. */
  ghost predicate Needs(plan: Plan, from: string, to: string) {
    exists p :: DepPath(plan, p, from, to)
  }

  /** A run table has everything it needs run too. Read the other way: no table that needs a
      table that was not run has been run. */
  lemma RunIsClosed(plan: Plan, ran: seq<string>, from: string, to: string)
    requires RanOk(plan, ran) && from in ran && Needs(plan, from, to)
    ensures to in ran
  {
    var p :| DepPath(plan, p, from, to);
    PathIsRun(plan, ran, p, from, to);
  }

  lemma {:induction false} PathIsRun(plan: Plan, ran: seq<string>, p: seq<string>, from: string, to: string)
    requires RanOk(plan, ran) && from in ran && DepPath(plan, p, from, to)
    ensures to in ran
    decreases |p|
  {
    if |p| > 1 {
      var i :| 0 <= i < |ran| && ran[i] == from;
      assert p[1] in Elems(ran[..i]);
      PathIsRun(plan, ran, p[1..], p[1], to);
    }
  }

  lemma NeedsPrepend(plan: Plan, a: string, b: string, c: string)
    requires a in plan && b in plan[a].deps && Needs(plan, b, c)
    ensures Needs(plan, a, c)
  {
    var p :| DepPath(plan, p, b, c);
    assert DepPath(plan, [a] + p, a, c);
  }

  lemma NeedsSelf(plan: Plan, a: string)
    ensures Needs(plan, a, a)
  {
    assert DepPath(plan, [a], a, a);
  }

  lemma {:induction false} RunsAppend(plan: Plan, a: seq<string>, b: seq<string>)
    ensures Runs(plan, a + b) == Runs(plan, a) + Runs(plan, b)
    decreases |b|
  {
    if b == [] {
      assert a + b == a;
    } else {
      assert (a + b)[..|a + b| - 1] == a + b[..|b| - 1];
      RunsAppend(plan, a, b[..|b| - 1]);
      ConcatAssoc(Runs(plan, a), Runs(plan, b[..|b| - 1]), RunOf(plan, b[|b| - 1]));
    }
  }

  lemma RanOkAppend(plan: Plan, ran: seq<string>, n: string)
    requires RanOk(plan, ran) && n in plan && n !in ran && plan[n].deps <= Elems(ran)
    ensures RanOk(plan, ran + [n]) && Elems(ran + [n]) == Elems(ran) + {n}
  {
    DistinctAppend(ran, n);
    var r := ran + [n];
    forall i | 0 <= i < |r|
      ensures r[i] in plan && plan[r[i]].deps <= Elems(r[..i])
    {
      assert r[..i] == ran[..i];
    }
  }

  // ---------- The executor ----------

  /** The log grew by what the newly run tables ran. */
  ghost predicate LogGrew(plan: Plan, ran: seq<string>, ran': seq<string>,
                          log: seq<(CreateTable, bool)>, log': seq<(CreateTable, bool)>)
  {
    ran <= ran' && log' == log + Runs(plan, ran'[|ran|..])
  }

  /** The newly run tables are needed by `root` and rank no higher. */
  ghost predicate NewlyNeeded(plan: Plan, order: seq<string>, root: string, ran: seq<string>, ran': seq<string>) {
    forall i :: |ran| <= i < |ran'| ==> Needs(plan, root, ran'[i]) && Ranks(order, ran'[i]) <= Ranks(order, root)
  }

  ghost predicate Progress(plan: Plan, order: seq<string>, root: string, ran: seq<string>, ran': seq<string>,
                           log: seq<(CreateTable, bool)>, log': seq<(CreateTable, bool)>)
  {
    RanOk(plan, ran') && LogGrew(plan, ran, ran', log, log') && NewlyNeeded(plan, order, root, ran, ran')
  }

  function Ranks(order: seq<string>, n: string): nat {
    if n in order then IndexOf(order, n) else |order|
  }

  lemma LogTrans(plan: Plan, ran0: seq<string>, ran1: seq<string>, ran2: seq<string>, log0: seq<(CreateTable, bool)>,
                 log1: seq<(CreateTable, bool)>, log2: seq<(CreateTable, bool)>)
    requires LogGrew(plan, ran0, ran1, log0, log1) && LogGrew(plan, ran1, ran2, log1, log2)
    ensures LogGrew(plan, ran0, ran2, log0, log2)
  {
    var a, b := ran1[|ran0|..], ran2[|ran1|..];
    assert ran2[|ran0|..] == a + b;
    RunsAppend(plan, a, b);
    ConcatAssoc(log0, Runs(plan, a), Runs(plan, b));
  }

  lemma NeededTrans(plan: Plan, order: seq<string>, root: string, dep: string,
                    ran0: seq<string>, ran1: seq<string>, ran2: seq<string>)
    requires root in plan && dep in plan[root].deps && Ranks(order, dep) < Ranks(order, root)
    requires ran0 <= ran1 <= ran2
    requires NewlyNeeded(plan, order, root, ran0, ran1) && NewlyNeeded(plan, order, dep, ran1, ran2)
    ensures NewlyNeeded(plan, order, root, ran0, ran2)
    ensures root !in ran1 ==> root !in ran2
  {
    forall i | |ran0| <= i < |ran2|
      ensures Needs(plan, root, ran2[i]) && Ranks(order, ran2[i]) <= Ranks(order, root)
    {
      if i < |ran1| {
        assert ran2[i] == ran1[i];
      } else {
        NeedsPrepend(plan, root, dep, ran2[i]);
      }
    }
  }

  lemma ProgressTrans(plan: Plan, order: seq<string>, root: string, dep: string, ran0: seq<string>, ran1: seq<string>,
                      ran2: seq<string>, log0: seq<(CreateTable, bool)>, log1: seq<(CreateTable, bool)>,
                      log2: seq<(CreateTable, bool)>)
    requires root in plan && dep in plan[root].deps && Ranks(order, dep) < Ranks(order, root)
    requires Progress(plan, order, root, ran0, ran1, log0, log1) && Progress(plan, order, dep, ran1, ran2, log1, log2)
    ensures Progress(plan, order, root, ran0, ran2, log0, log2)
    ensures root !in ran1 ==> root !in ran2
  {
    LogTrans(plan, ran0, ran1, ran2, log0, log1, log2);
    NeededTrans(plan, order, root, dep, ran0, ran1, ran2);
  }

  lemma ProgressDone(plan: Plan, order: seq<string>, root: string, ran0: seq<string>, ran1: seq<string>,
                     log0: seq<(CreateTable, bool)>, log1: seq<(CreateTable, bool)>)
    requires root in plan && plan[root].deps <= Elems(ran1) && root !in ran1
    requires Progress(plan, order, root, ran0, ran1, log0, log1)
    ensures Progress(plan, order, root, ran0, ran1 + [root], log0, log1 + Accepted(plan[root].stmts))
    ensures Elems(ran1 + [root]) == Elems(ran1) + {root}
  {
    RanOkAppend(plan, ran1, root);
    LogOne(plan, ran1, root, log1);
    LogTrans(plan, ran0, ran1, ran1 + [root], log0, log1, log1 + RunOf(plan, root));
    NeededOne(plan, order, root, ran0, ran1);
  }

  lemma LogOne(plan: Plan, ran: seq<string>, root: string, log: seq<(CreateTable, bool)>)
    ensures LogGrew(plan, ran, ran + [root], log, log + RunOf(plan, root))
  {
    assert (ran + [root])[|ran|..] == [root] && [root][..0] == [];
    assert Runs(plan, [root]) == Runs(plan, []) + RunOf(plan, root) == RunOf(plan, root);
  }

  lemma NeededOne(plan: Plan, order: seq<string>, root: string, ran0: seq<string>, ran1: seq<string>)
    requires ran0 <= ran1 && NewlyNeeded(plan, order, root, ran0, ran1) && root in plan
    ensures NewlyNeeded(plan, order, root, ran0, ran1 + [root])
  {
    NeedsSelf(plan, root);
  }

  lemma PrefixElems<T>(a: seq<T>, b: seq<T>)
    requires a <= b
    ensures Elems(a) <= Elems(b)
  {
    assert forall x :: x in a ==> x in b;
  }

  lemma RankBelow(order: seq<string>, pos: nat, n: string)
    requires Distinct(order) && pos < |order| && n in order[..pos]
    ensures Ranks(order, n) < pos
  {
  }

  method RunStatements(db: Db, stmts: seq<CreateTable>) returns (ok: bool)
    modifies db
    ensures old(db.log) <= db.log
    ensures ok ==> db.log == old(db.log) + Accepted(stmts)
    ensures !ok ==> Broken(stmts, db.log[|old(db.log)|..])
  {
    var i := 0;
    while i < |stmts|
      invariant 0 <= i <= |stmts|
      invariant db.log == old(db.log) + Accepted(stmts[..i])
    {
      ok := db.Exec(stmts[i]);
      if !ok {
        assert db.log[|old(db.log)|..] == Accepted(stmts[..i]) + [(stmts[i], false)];
        return;
      }
      assert Accepted(stmts[..i + 1]) == Accepted(stmts[..i]) + [(stmts[i], true)];
      i := i + 1;
    }
    ok := true;
    assert stmts[..i] == stmts;
  }

  /** The heap items seen as a catalogue: each is described by the plan under its own name, and
      its dependencies are catalogued items of lower rank. */
  ghost predicate Catalogued(items: map<string, InitItem>, plan: Plan, order: seq<string>)
    reads items.Values
  {
    forall k :: k in items ==>
      && items[k].tableName == k
      && k in plan && plan[k] == Table(items[k].sqlStr, items[k].depTableSqlItemMap.Keys)
      && forall d :: d in items[k].depTableSqlItemMap ==>
           d in items && items[d] == items[k].depTableSqlItemMap[d] && Ranks(order, d) < Ranks(order, k)
  }

  lemma PlannerItems(memo: InitMap, plan: Plan, order: seq<string>) returns (items: map<string, InitItem>)
    requires memo.Finished(order) && Describes(plan, memo)
    ensures items.Keys == plan.Keys
    ensures forall k :: k in items ==> memo.entries[k] == items[k]
    ensures Catalogued(items, plan, order)
  {
    items := map k | k in memo.Done() :: memo.entries[k];
    forall k | k in items
      ensures items[k].tableName == k
      ensures forall d :: d in items[k].depTableSqlItemMap ==>
                d in items && items[d] == items[k].depTableSqlItemMap[d] && Ranks(order, d) < Ranks(order, k)
    {
      assert k in Elems(order);
      var pos := IndexOf(order, k);
      assert memo.ItemOk(order[pos], order[..pos]);
      forall d | d in items[k].depTableSqlItemMap
        ensures d in items && Ranks(order, d) < Ranks(order, k)
      {
        RankBelow(order, pos, d);
      }
    }
  }

  ghost predicate Stopped(plan: Plan, order: seq<string>, root: string, ran: seq<string>, ran': seq<string>,
                          failed: string, log: seq<(CreateTable, bool)>, log1: seq<(CreateTable, bool)>,
                          log': seq<(CreateTable, bool)>)
  {
    && Progress(plan, order, root, ran, ran', log, log1)
    && failed !in ran' && Needs(plan, root, failed)
    && StoppedIn(plan, failed, log1, log')
  }

  method InitTable(db: Db, stmt: InitItem, initialized: NameSet, ghost items: map<string, InitItem>, ghost plan: Plan,
                   ghost order: seq<string>, ghost ran: seq<string>)
    returns (ok: bool, ghost ran': seq<string>, ghost failed: string, ghost log1: seq<(CreateTable, bool)>)
    requires Catalogued(items, plan, order)
    requires stmt.tableName in items && items[stmt.tableName] == stmt
    requires RanOk(plan, ran) && initialized.names == Elems(ran)
    modifies db, initialized
    ensures initialized.names == Elems(ran')
    ensures ok ==> stmt.tableName in ran' && Progress(plan, order, stmt.tableName, ran, ran', old(db.log), db.log)
    ensures !ok ==> Stopped(plan, order, stmt.tableName, ran, ran', failed, old(db.log), log1, db.log)
    decreases Ranks(order, stmt.tableName)
  {
    ran', failed, log1 := ran, "", db.log;
    if stmt.tableName in initialized.names {
      ok := true;
      return;
    }
    ghost var self := stmt.tableName;
    var remaining := stmt.depTableSqlItemMap.Keys;
    while remaining != {}
      invariant remaining <= stmt.depTableSqlItemMap.Keys
      invariant initialized.names == Elems(ran') && self !in ran'
      invariant plan[self].deps - remaining <= Elems(ran')
      invariant Progress(plan, order, self, ran, ran', old(db.log), db.log)
      decreases remaining
    {
      var depName :| depName in remaining;
      ghost var ran1, logNow := ran', db.log;
      ok, ran', failed, log1 := InitTable(db, stmt.depTableSqlItemMap[depName], initialized, items, plan, order, ran');
      ProgressTrans(plan, order, self, depName, ran, ran1, ran', old(db.log), logNow, if ok then db.log else log1);
      if !ok {
        NeedsPrepend(plan, self, depName, failed);
        return;
      }
      PrefixElems(ran1, ran');
      remaining := remaining - {depName};
    }
    log1 := db.log;
    ok := RunStatements(db, stmt.sqlStr);
    if !ok {
      failed := self;
      NeedsSelf(plan, self);
      return;
    }
    initialized.names := initialized.names + {stmt.tableName};
    ProgressDone(plan, order, self, ran, ran', old(db.log), log1);
    ran' := ran' + [self];
  }

  ghost function NamesOf(items: seq<InitItem>): seq<string>
    reads items
  {
    seq(|items|, i requires 0 <= i < |items| reads items => items[i].tableName)
  }

  /** Some of the requested tables is, or depends on, `n`. */
  ghost predicate NeededByAny(plan: Plan, roots: seq<string>, n: string) {
    exists i :: 0 <= i < |roots| && Needs(plan, roots[i], n)
  }

  /** The log ends in the middle of the failed table's statements, at the refused one. */
  ghost predicate StoppedIn(plan: Plan, failed: string, log1: seq<(CreateTable, bool)>, log': seq<(CreateTable, bool)>)
  {
    failed in plan && log1 <= log' && Broken(plan[failed].stmts, log'[|log1|..])
  }

  /** How a run ends. On success each table any root needs was run exactly once, after all its
      dependencies, and nothing else was; when a statement is refused the run stops there, and
      no table needing the failed one was run. */
  ghost predicate RunOutcome(plan: Plan, roots: seq<string>, ok: bool, ran: seq<string>, failed: string,
                             log0: seq<(CreateTable, bool)>, log1: seq<(CreateTable, bool)>)
  {
    && RanOk(plan, ran)
    && if ok then
         log1 == log0 + Runs(plan, ran) && forall n :: n in ran <==> NeededByAny(plan, roots, n)
       else
         && StoppedIn(plan, failed, log0 + Runs(plan, ran), log1)
         && NeededByAny(plan, roots, failed)
         && forall n :: n in ran ==> NeededByAny(plan, roots, n) && !Needs(plan, n, failed)
  }

  /** The state of a run after its first `i` roots. */
  ghost predicate RunSoFar(plan: Plan, roots: seq<string>, i: nat, ran: seq<string>,
                           log0: seq<(CreateTable, bool)>, log1: seq<(CreateTable, bool)>)
  {
    RanOk(plan, ran) && LogGrew(plan, [], ran, log0, log1) && AllNeeded(plan, roots, ran) && Covered(roots, i, ran)
  }

  lemma RunStep(plan: Plan, order: seq<string>, roots: seq<string>, i: nat, ran0: seq<string>, ran: seq<string>,
                log0: seq<(CreateTable, bool)>, logNow: seq<(CreateTable, bool)>, log1: seq<(CreateTable, bool)>)
    requires i < |roots| && RunSoFar(plan, roots, i, ran0, log0, logNow)
    requires roots[i] in ran && Progress(plan, order, roots[i], ran0, ran, logNow, log1)
    ensures RunSoFar(plan, roots, i + 1, ran, log0, log1)
  {
    LogTrans(plan, [], ran0, ran, log0, logNow, log1);
    AllNeededGrows(plan, order, roots, i, ran0, ran);
    CoveredStep(roots, i, ran0, ran);
  }

  lemma FinishedRun(plan: Plan, roots: seq<string>, ran: seq<string>,
                    log0: seq<(CreateTable, bool)>, log1: seq<(CreateTable, bool)>)
    requires RunSoFar(plan, roots, |roots|, ran, log0, log1)
    ensures RunOutcome(plan, roots, true, ran, "", log0, log1)
  {
    LogOf(plan, ran, log0, log1);
    AllNeededRan(plan, roots, ran);
  }

  lemma StoppedRun(plan: Plan, order: seq<string>, roots: seq<string>, i: nat, ran0: seq<string>, ran: seq<string>,
                   failed: string, log0: seq<(CreateTable, bool)>, logNow: seq<(CreateTable, bool)>,
                   log1: seq<(CreateTable, bool)>, log': seq<(CreateTable, bool)>)
    requires i < |roots| && RunSoFar(plan, roots, i, ran0, log0, logNow)
    requires Stopped(plan, order, roots[i], ran0, ran, failed, logNow, log1, log')
    ensures RunOutcome(plan, roots, false, ran, failed, log0, log')
  {
    LogTrans(plan, [], ran0, ran, log0, logNow, log1);
    AllNeededGrows(plan, order, roots, i, ran0, ran);
    LogOf(plan, ran, log0, log1);
    NoneNeeds(plan, ran, failed);
    assert NeededByAny(plan, roots, failed);
  }

  /** Runs planned items in any order and with any overlap. */
  method ExecSql(db: Db, sqlStats: seq<InitItem>,
                 ghost items: map<string, InitItem>, ghost plan: Plan, ghost order: seq<string>)
    returns (ok: bool, ghost ran: seq<string>, ghost failed: string)
    requires Catalogued(items, plan, order)
    requires forall i :: 0 <= i < |sqlStats| ==>
               sqlStats[i].tableName in items && items[sqlStats[i].tableName] == sqlStats[i]
    modifies db
    ensures RunOutcome(plan, NamesOf(sqlStats), ok, ran, failed, old(db.log), db.log)
  {
    ok, ran, failed := RunItems(db, sqlStats, NamesOf(sqlStats), items, plan, order);
  }

  method RunItems(db: Db, sqlStats: seq<InitItem>, ghost roots: seq<string>,
                  ghost items: map<string, InitItem>, ghost plan: Plan, ghost order: seq<string>)
    returns (ok: bool, ghost ran: seq<string>, ghost failed: string)
    requires Catalogued(items, plan, order) && |roots| == |sqlStats|
    requires forall i :: 0 <= i < |sqlStats| ==>
             roots[i] in items && items[roots[i]] == sqlStats[i] && sqlStats[i].tableName == roots[i]
    modifies db
    ensures RunOutcome(plan, roots, ok, ran, failed, old(db.log), db.log)
  {
    var initialized := new NameSet();
    ran, failed := [], "";
    var i := 0;
    while i < |sqlStats|
      invariant 0 <= i <= |sqlStats| && fresh(initialized)
      invariant RunSoFar(plan, roots, i, ran, old(db.log), db.log) && initialized.names == Elems(ran)
    {
      ghost var ran0, logNow, log1 := ran, db.log, db.log;
      ok, ran, failed, log1 := InitTable(db, sqlStats[i], initialized, items, plan, order, ran);
      if !ok {
        StoppedRun(plan, order, roots, i, ran0, ran, failed, old(db.log), logNow, log1, db.log);
        return;
      }
      RunStep(plan, order, roots, i, ran0, ran, old(db.log), logNow, db.log);
      i := i + 1;
    }
    ok, failed := true, "";
    FinishedRun(plan, roots, ran, old(db.log), db.log);
  }

  lemma {:induction false} LogOf(plan: Plan, ran: seq<string>, log0: seq<(CreateTable, bool)>,
                                 log1: seq<(CreateTable, bool)>)
    requires LogGrew(plan, [], ran, log0, log1)
    ensures log1 == log0 + Runs(plan, ran)
  {
    assert ran[0..] == ran;
  }

  ghost predicate Covered(roots: seq<string>, i: nat, ran: seq<string>) {
    forall j :: 0 <= j < i && j < |roots| ==> roots[j] in ran
  }

  lemma CoveredStep(roots: seq<string>, i: nat, ran0: seq<string>, ran: seq<string>)
    requires Covered(roots, i, ran0) && ran0 <= ran && i < |roots| && roots[i] in ran
    ensures Covered(roots, i + 1, ran)
  {
    PrefixElems(ran0, ran);
    forall j | 0 <= j < i
      ensures roots[j] in ran
    {
      assert roots[j] in Elems(ran0);
    }
  }

  ghost predicate AllNeeded(plan: Plan, roots: seq<string>, ran: seq<string>) {
    forall k :: 0 <= k < |ran| ==> NeededByAny(plan, roots, ran[k])
  }

  lemma AllNeededGrows(plan: Plan, order: seq<string>, roots: seq<string>, i: nat, ran0: seq<string>, ran: seq<string>)
    requires i < |roots| && ran0 <= ran && AllNeeded(plan, roots, ran0)
    requires NewlyNeeded(plan, order, roots[i], ran0, ran)
    ensures AllNeeded(plan, roots, ran)
  {
    forall k | 0 <= k < |ran|
      ensures NeededByAny(plan, roots, ran[k])
    {
      if k < |ran0| {
        assert ran[k] == ran0[k];
      }
    }
  }

  lemma AllNeededRan(plan: Plan, roots: seq<string>, ran: seq<string>)
    requires RanOk(plan, ran) && AllNeeded(plan, roots, ran) && Covered(roots, |roots|, ran)
    ensures forall n :: n in ran <==> NeededByAny(plan, roots, n)
  {
    forall n | NeededByAny(plan, roots, n)
      ensures n in ran
    {
      var j :| 0 <= j < |roots| && Needs(plan, roots[j], n);
      RunIsClosed(plan, ran, roots[j], n);
    }
  }

  lemma NoneNeeds(plan: Plan, ran: seq<string>, failed: string)
    requires RanOk(plan, ran) && failed !in ran
    ensures forall n :: n in ran ==> !Needs(plan, n, failed)
  {
    forall n | n in ran && Needs(plan, n, failed)
      ensures false
    {
      RunIsClosed(plan, ran, n, failed);
    }
  }
}
