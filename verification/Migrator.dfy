/** Applying migrations to a database: one run with faults, and any number of concurrent runs. */
module Migrator {
  import opened Bytes
  import opened Wrappers
  import opened Migration

  datatype Row = Row(name: bytes, checksum: bytes)

  /** The committed rows of schema_migrations, and the versions whose SQL was committed, in order. */
  datatype Database = Database(table: map<int, Row>, executed: seq<int>)

  /** What goes wrong with one migration of a run: the query for its row, its transaction before
      the commit, or the answer to the commit, which may have happened or not. */
  datatype Fault = NoFault | CheckFails | ApplyFails | CommitLost(committed: bool)

  datatype Outcome = Done | Failed(index: nat)

  /** The table holds a row for m with m's checksum (`checkAppliedMigration`). */
  predicate Recorded(m: Migration, db: Database) {
    m.version in db.table && db.table[m.version].checksum == m.checksum
  }

  /** The transaction of `applyMigration`: the SQL and the row, both or neither. */
  function Commit(db: Database, m: Migration): Database {
    Database(db.table[m.version := Row(m.name, m.checksum)], db.executed + [m.version])
  }

  function FaultAt(faults: seq<Fault>, i: nat): Fault {
    if i < |faults| then faults[i] else NoFault
  }

  /** The loop of `Migrate` from index i on. */
  function MigrateFrom(db: Database, ms: seq<Migration>, i: nat, faults: seq<Fault>): (Database, Outcome)
    decreases |ms| - i
  {
    if i >= |ms| then (db, Done)
    else
      var m, fault := ms[i], FaultAt(faults, i);
      if fault.CheckFails? then (db, Failed(i))
      else if m.version in db.table then
        if Recorded(m, db) then MigrateFrom(db, ms, i + 1, faults) else (db, Failed(i))
      else
        match fault
        case CommitLost(committed) => (if committed then Commit(db, m) else db, Failed(i))
        case NoFault => MigrateFrom(Commit(db, m), ms, i + 1, faults)
        case _ => (db, Failed(i))
  }

  class Session {
    var table: map<int, Row>
    var executed: seq<int>

    constructor (table: map<int, Row>)
      ensures this.table == table && executed == []
    {
      this.table, executed := table, [];
    }

    /** `applyMigration`; the primary key refuses a second row for a version. */
    method ApplyMigration(m: Migration, fault: Fault) returns (ok: bool)
      modifies this
      ensures m.version in old(table) || fault.CheckFails? || fault.ApplyFails? || fault == CommitLost(false) ==>
                !ok && table == old(table) && executed == old(executed)
      ensures m.version !in old(table) && (fault.NoFault? || fault == CommitLost(true)) ==>
                ok == fault.NoFault? && Database(table, executed) == Commit(old(Database(table, executed)), m)
    {
      if fault.CheckFails? || fault.ApplyFails? { return false; }
      if m.version in table { return false; }
      if fault == CommitLost(false) { return false; }
      table, executed := table[m.version := Row(m.name, m.checksum)], executed + [m.version];
      return fault.NoFault?;
    }

    method Migrate(ms: seq<Migration>, faults: seq<Fault>) returns (outcome: Outcome)
      modifies this
      ensures (Database(table, executed), outcome) == MigrateFrom(old(Database(table, executed)), ms, 0, faults)
    {
      for i := 0 to |ms|
        invariant MigrateFrom(Database(table, executed), ms, i, faults)
                  == MigrateFrom(old(Database(table, executed)), ms, 0, faults)
      {
        var m, fault := ms[i], FaultAt(faults, i);
        if fault.CheckFails? { return Failed(i); }
        if m.version in table {
          if table[m.version].checksum != m.checksum { return Failed(i); }
          continue;
        }
        var ok := ApplyMigration(m, fault);
        if !ok { return Failed(i); }
      }
      return Done;
    }
  }

  /** No row is ever changed or removed. */
  predicate Keeps(before: Database, after: Database) {
    forall v :: v in before.table ==> v in after.table && after.table[v] == before.table[v]
  }

  lemma {:induction false} MigrateKeeps(db: Database, ms: seq<Migration>, i: nat, faults: seq<Fault>)
    ensures Keeps(db, MigrateFrom(db, ms, i, faults).0)
    decreases |ms| - i
  {
    if i < |ms| {
      MigrateKeeps(db, ms, i + 1, faults);
      MigrateKeeps(Commit(db, ms[i]), ms, i + 1, faults);
    }
  }

  /** A successful run leaves every migration recorded with its checksum; a run that fails at an
      index has recorded all before it. */
  lemma {:induction false} MigrateRecords(db: Database, ms: seq<Migration>, i: nat, faults: seq<Fault>)
    ensures var (db', outcome) := MigrateFrom(db, ms, i, faults);
            && (outcome.Failed? ==> i <= outcome.index < |ms|)
            && forall j :: i <= j < (if outcome.Failed? then outcome.index else |ms|) ==> Recorded(ms[j], db')
    decreases |ms| - i
  {
    if i < |ms| {
      var db1 := if ms[i].version in db.table then db else Commit(db, ms[i]);
      MigrateRecords(db1, ms, i + 1, faults);
      MigrateKeeps(db1, ms, i + 1, faults);
    }
  }

  /** A run that fails, at whatever point and for whatever reason, and is run again without faults
      leaves exactly the table and the history of one run without faults: it resumes where it
      stopped, and nothing is applied twice or left out. */
  lemma {:induction false} RetryResumes(db: Database, ms: seq<Migration>, i: nat, faults: seq<Fault>)
    ensures MigrateFrom(MigrateFrom(db, ms, i, faults).0, ms, i, []) == MigrateFrom(db, ms, i, [])
    decreases |ms| - i
  {
    if i < |ms| {
      var db1 := if ms[i].version in db.table then db else Commit(db, ms[i]);
      RetryResumes(db1, ms, i + 1, faults);
      MigrateKeeps(db1, ms, i + 1, faults);
    }
  }

  /** After a successful run, another run applies nothing, whatever would go wrong with applying. */
  lemma {:induction false} SecondRunIsIdle(db: Database, ms: seq<Migration>, i: nat, faults: seq<Fault>)
    requires forall j :: i <= j < |ms| ==> Recorded(ms[j], db) && !FaultAt(faults, j).CheckFails?
    ensures MigrateFrom(db, ms, i, faults) == (db, Done)
    decreases |ms| - i
  {
    if i < |ms| {
      SecondRunIsIdle(db, ms, i + 1, faults);
    }
  }

  lemma MigrateTwice(db: Database, ms: seq<Migration>, faults: seq<Fault>, again: seq<Fault>)
    requires MigrateFrom(db, ms, 0, faults).1.Done?
    requires forall j :: 0 <= j < |ms| ==> !FaultAt(again, j).CheckFails?
    ensures MigrateFrom(MigrateFrom(db, ms, 0, faults).0, ms, 0, again) == (MigrateFrom(db, ms, 0, faults).0, Done)
  {
    MigrateRecords(db, ms, 0, faults);
    SecondRunIsIdle(MigrateFrom(db, ms, 0, faults).0, ms, 0, again);
  }

  /** A run without faults succeeds exactly when no recorded checksum contradicts a migration. */
  lemma {:induction false} MigrateSucceedsIff(db: Database, ms: seq<Migration>, i: nat)
    requires Ascending(ms)
    ensures MigrateFrom(db, ms, i, []).1.Done? <==>
            forall j :: i <= j < |ms| && ms[j].version in db.table ==>
              db.table[ms[j].version].checksum == ms[j].checksum
    decreases |ms| - i
  {
    if i < |ms| {
      if ms[i].version in db.table {
        MigrateSucceedsIff(db, ms, i + 1);
      } else {
        MigrateSucceedsIff(Commit(db, ms[i]), ms, i + 1);
      }
    }
  }

  /** The versions among ms that the table does not hold, in the order of the list. */
  function NewVersions(ms: seq<Migration>, i: nat, table: map<int, Row>): seq<int>
    decreases |ms| - i
  {
    if i >= |ms| then []
    else (if ms[i].version in table then [] else [ms[i].version]) + NewVersions(ms, i + 1, table)
  }

  lemma {:induction false} NewVersionsAfter(ms: seq<Migration>, i: nat, k: nat, table: map<int, Row>, row: Row)
    requires Ascending(ms) && k < i && k < |ms|
    ensures NewVersions(ms, i, table[ms[k].version := row]) == NewVersions(ms, i, table)
    decreases |ms| - i
  {
    if i < |ms| {
      NewVersionsAfter(ms, i + 1, k, table, row);
    }
  }

  /** What a successful run leaves: the rows that were there, a row with name and checksum for every
      other migration of the list and nothing else; and the SQL of exactly those has been executed, in
      the order of the list. */
  lemma {:induction false} MigrateApplies(db: Database, ms: seq<Migration>, i: nat)
    requires Ascending(ms) && MigrateFrom(db, ms, i, []).1.Done?
    ensures var db' := MigrateFrom(db, ms, i, []).0;
            && db'.executed == db.executed + NewVersions(ms, i, db.table)
            && (forall v :: v in db.table ==> v in db'.table && db'.table[v] == db.table[v])
            && (forall j :: i <= j < |ms| && ms[j].version !in db.table ==>
                  ms[j].version in db'.table && db'.table[ms[j].version] == Row(ms[j].name, ms[j].checksum))
            && (forall v :: v in db'.table && v !in db.table ==> exists j :: i <= j < |ms| && ms[j].version == v)
    decreases |ms| - i
  {
    if i < |ms| {
      var m := ms[i];
      var db1 := if m.version in db.table then db else Commit(db, m);
      MigrateApplies(db1, ms, i + 1);
      if m.version !in db.table {
        NewVersionsAfter(ms, i + 1, i, db.table, Row(m.name, m.checksum));
        Regroup(db.executed, [m.version], NewVersions(ms, i + 1, db.table));
      }
    }
  }

  /** A run without faults that fails stops at the first migration whose recorded checksum differs. */
  lemma {:induction false} MigrateFailsAt(db: Database, ms: seq<Migration>, i: nat)
    requires Ascending(ms) && MigrateFrom(db, ms, i, []).1.Failed?
    ensures var k := MigrateFrom(db, ms, i, []).1.index;
            && i <= k < |ms| && ms[k].version in db.table && db.table[ms[k].version].checksum != ms[k].checksum
            && forall j :: i <= j < k && ms[j].version in db.table ==>
                 db.table[ms[j].version].checksum == ms[j].checksum
    decreases |ms| - i
  {
    if i < |ms| {
      if ms[i].version !in db.table {
        MigrateFailsAt(Commit(db, ms[i]), ms, i + 1);
      } else if Recorded(ms[i], db) {
        MigrateFailsAt(db, ms, i + 1);
      }
    }
  }

  /** What a fault does to the migration it hits, when that one is not recorded: nothing is committed,
      unless only the answer to the commit was lost; the run stops there in any case. A row that cannot
      be queried stops the run too, recorded or not. */
  lemma FaultStops(db: Database, ms: seq<Migration>, i: nat, faults: seq<Fault>)
    requires i < |faults| && i < |ms|
    ensures faults[i].CheckFails? ==> MigrateFrom(db, ms, i, faults) == (db, Failed(i))
    ensures ms[i].version !in db.table && (faults[i].ApplyFails? || faults[i] == CommitLost(false)) ==>
              MigrateFrom(db, ms, i, faults) == (db, Failed(i))
    ensures ms[i].version !in db.table && faults[i] == CommitLost(true) ==>
              MigrateFrom(db, ms, i, faults) ==
              (Database(db.table[ms[i].version := Row(ms[i].name, ms[i].checksum)], db.executed + [ms[i].version]),
               Failed(i))
  {
  }

  /** The versions of the first n migrations. */
  function Prefix(ms: seq<Migration>, n: nat): set<int>
    requires n <= |ms|
  {
    set j | 0 <= j < n :: ms[j].version
  }

  lemma PrefixHas(ms: seq<Migration>, i: nat, n: nat)
    requires Ascending(ms) && i < |ms| && n <= |ms|
    ensures ms[i].version in Prefix(ms, n) <==> i < n
  {
  }

  lemma PrefixGrows(ms: seq<Migration>, n: nat)
    requires n < |ms|
    ensures Prefix(ms, n + 1) == Prefix(ms, n) + {ms[n].version}
  {
  }

  /** Where a run that began with p recorded migrations leaves the table. */
  ghost predicate KeepsPrefix(db': Database, outcome: Outcome, ms: seq<Migration>, i: nat, p: nat, faults: seq<Fault>) {
    match outcome
    case Done => db'.table.Keys == Prefix(ms, |ms|)
    case Failed(k) =>
      i <= k < |ms| && p <= |ms| &&
      db'.table.Keys == Prefix(ms, if k >= p && FaultAt(faults, k) == CommitLost(true) then k + 1 else Max(p, k))
  }

  /** From a recorded prefix, a run keeps a prefix recorded: a failure at index k commits nothing
      from k on, except k itself when only the answer to its commit was lost. */
  lemma {:induction false} MigrateKeepsPrefix(db: Database, ms: seq<Migration>, i: nat, p: nat, faults: seq<Fault>)
    requires Ascending(ms) && i <= p <= |ms| && db.table.Keys == Prefix(ms, p)
    ensures var (db', outcome) := MigrateFrom(db, ms, i, faults); KeepsPrefix(db', outcome, ms, i, p, faults)
    decreases |ms| - i
  {
    hide Prefix, Ascending;
    if i < |ms| {
      var m := ms[i];
      PrefixHas(ms, i, p);
      assert m.version in db.table <==> m.version in db.table.Keys;
      if i < p {
        if Recorded(m, db) && !FaultAt(faults, i).CheckFails? {
          MigrateKeepsPrefix(db, ms, i + 1, p, faults);
        }
      } else {
        PrefixGrows(ms, p);
        var db1 := Commit(db, m);
        assert db1.table.Keys == db.table.Keys + {m.version};
        hide Commit;
        if FaultAt(faults, i).NoFault? {
          MigrateKeepsPrefix(db1, ms, i + 1, p + 1, faults);
        }
      }
    }
  }

  // ----- concurrent migrators

  datatype Phase = Checking | Applying | Stopped

  datatype Worker = Worker(index: nat, phase: Phase)

  datatype State = State(db: Database, workers: map<nat, Worker>)

  /** The steps of one migrator: start, query the row of its next migration, commit its transaction
      (the answer may get lost), or fail for any reason. The advisory lock plays no part. */
  datatype Step =
    | Start(t: nat)
    | Check(t: nat)
    | TryCommit(t: nat, answered: bool)
    | Abort(t: nat)

  function Next(s: State, ms: seq<Migration>, step: Step): Option<State> {
    if step.Start? then
      if step.t in s.workers then None else Some(s.(workers := s.workers[step.t := Worker(0, Checking)]))
    else if step.t !in s.workers || s.workers[step.t].phase.Stopped? || s.workers[step.t].index >= |ms| then None
    else
      var w := s.workers[step.t];
      var m := ms[w.index];
      match step
      case Check(t) =>
        if !w.phase.Checking? then None
        else if m.version !in s.db.table then Some(s.(workers := s.workers[t := w.(phase := Applying)]))
        else if Recorded(m, s.db) then Some(s.(workers := s.workers[t := Worker(w.index + 1, Checking)]))
        else Some(s.(workers := s.workers[t := w.(phase := Stopped)]))
      case TryCommit(t, answered) =>
        if !w.phase.Applying? then None
        else if m.version in s.db.table then Some(s.(workers := s.workers[t := w.(phase := Stopped)]))
        else
          var w' := if answered then Worker(w.index + 1, Checking) else w.(phase := Stopped);
          Some(State(Commit(s.db, m), s.workers[t := w']))
      case Abort(t) => Some(s.(workers := s.workers[t := w.(phase := Stopped)]))
      case Start(_) => None
  }

  function Run(s: State, ms: seq<Migration>, steps: seq<Step>): Option<State>
    decreases |steps|
  {
    if steps == [] then Some(s)
    else match Next(s, ms, steps[0])
         case None => None
         case Some(s') => Run(s', ms, steps[1..])
  }

  /** The first n migrations are all recorded with their checksums. */
  predicate RecordedUpTo(db: Database, ms: seq<Migration>, n: nat) {
    n <= |ms| && forall j :: 0 <= j < n ==> Recorded(ms[j], db)
  }

  /** The versions are strictly ascending, are versions of the list, and are behind recorded ones only. */
  ghost predicate InOrder(db: Database, ms: seq<Migration>) {
    && (forall i, j :: 0 <= i < j < |db.executed| ==> db.executed[i] < db.executed[j])
    && (forall v <- db.executed :: v in db.table)
    && (forall v <- db.executed :: exists k :: 0 <= k < |ms| && ms[k].version == v && RecordedUpTo(db, ms, k))
  }

  ghost predicate WorkersBehind(s: State, ms: seq<Migration>) {
    forall t :: t in s.workers ==> RecordedUpTo(s.db, ms, s.workers[t].index)
  }

  lemma ExecutedBelow(db: Database, ms: seq<Migration>, i: nat, x: int)
    requires Ascending(ms) && i < |ms| && InOrder(db, ms) && x in db.executed && ms[i].version !in db.table
    ensures x < ms[i].version
  {
    var k :| 0 <= k < |ms| && ms[k].version == x && RecordedUpTo(db, ms, k);
    assert k <= i by {
      assert forall j :: 0 <= j < k ==> Recorded(ms[j], db);
    }
  }

  lemma CommitInOrder(db: Database, ms: seq<Migration>, i: nat)
    requires Ascending(ms) && i < |ms| && InOrder(db, ms)
    requires RecordedUpTo(db, ms, i) && ms[i].version !in db.table
    ensures InOrder(Commit(db, ms[i]), ms) && RecordedUpTo(Commit(db, ms[i]), ms, i + 1)
  {
    var v, db' := ms[i].version, Commit(db, ms[i]);
    forall x | x in db.executed
      ensures exists k :: 0 <= k < |ms| && ms[k].version == x && RecordedUpTo(db', ms, k)
    {
      var k :| 0 <= k < |ms| && ms[k].version == x && RecordedUpTo(db, ms, k);
      assert RecordedUpTo(db', ms, k);
    }
    forall a | 0 <= a < |db.executed|
      ensures db.executed[a] < v
    {
      ExecutedBelow(db, ms, i, db.executed[a]);
    }
    assert RecordedUpTo(db', ms, i);
  }

  ghost predicate Inv(s: State, ms: seq<Migration>) {
    InOrder(s.db, ms) && WorkersBehind(s, ms)
  }

  lemma StepKeepsInv(s: State, ms: seq<Migration>, step: Step)
    requires Ascending(ms) && Inv(s, ms) && Next(s, ms, step).Some?
    ensures Inv(Next(s, ms, step).value, ms)
    ensures Keeps(s.db, Next(s, ms, step).value.db)
  {
    var s' := Next(s, ms, step).value;
    if step.TryCommit? && s'.db != s.db {
      var i := s.workers[step.t].index;
      CommitInOrder(s.db, ms, i);
      forall t | t in s'.workers
        ensures RecordedUpTo(s'.db, ms, s'.workers[t].index)
      {
        if t != step.t {
          assert RecordedUpTo(s.db, ms, s.workers[t].index);
        }
      }
    } else {
      assert s'.db == s.db;
      assert forall t :: t in s'.workers && t != step.t ==> s'.workers[t] == s.workers[t];
    }
  }

  /** What has happened to a database since it was db0: every executed version was new, and the
      recorded versions are the old ones and the executed ones. */
  ghost predicate GrownFrom(db0: Database, db: Database) {
    && Keeps(db0, db)
    && (forall v <- db.executed :: v !in db0.table)
    && db.table.Keys == db0.table.Keys + set v <- db.executed
  }

  lemma StepGrows(db0: Database, s: State, ms: seq<Migration>, step: Step)
    requires GrownFrom(db0, s.db) && Next(s, ms, step).Some?
    ensures GrownFrom(db0, Next(s, ms, step).value.db)
  {
    var s' := Next(s, ms, step).value;
    if s'.db != s.db {
      var m := ms[s.workers[step.t].index];
      assert s'.db == Commit(s.db, m) && s'.db.table.Keys == s.db.table.Keys + {m.version};
      assert (set v <- s'.db.executed) == (set v <- s.db.executed) + {m.version};
    }
  }

  lemma {:induction false} RunKeepsInv(db0: Database, s: State, ms: seq<Migration>, steps: seq<Step>)
    requires Ascending(ms) && Inv(s, ms) && GrownFrom(db0, s.db) && Run(s, ms, steps).Some?
    ensures Inv(Run(s, ms, steps).value, ms) && GrownFrom(db0, Run(s, ms, steps).value.db)
    decreases |steps|
  {
    hide Next, Inv, GrownFrom;
    if steps != [] {
      StepKeepsInv(s, ms, steps[0]);
      StepGrows(db0, s, ms, steps[0]);
      RunKeepsInv(db0, Next(s, ms, steps[0]).value, ms, steps[1..]);
    }
  }

  /** In every interleaving of any number of migrators, with any faults, the SQL of each version is
      committed at most once and never for a version that was recorded before; commits happen in
      strictly ascending version order; and a migrator that has gone through the list has every
      migration recorded with its checksum. */
  lemma ConcurrentRunsAreOrdered(table: map<int, Row>, ms: seq<Migration>, steps: seq<Step>)
    requires Ascending(ms)
    requires Run(State(Database(table, []), map[]), ms, steps).Some?
    ensures var s := Run(State(Database(table, []), map[]), ms, steps).value;
            && (forall i, j :: 0 <= i < j < |s.db.executed| ==> s.db.executed[i] < s.db.executed[j])
            && GrownFrom(Database(table, []), s.db)
            && forall t :: t in s.workers && s.workers[t].index >= |ms| ==> RecordedUpTo(s.db, ms, |ms|)
  {
    hide Run;
    var s0 := State(Database(table, []), map[]);
    RunKeepsInv(s0.db, s0, ms, steps);
  }

  lemma {:induction false} PrefixStep(s: State, ms: seq<Migration>, p: nat, step: Step) returns (q: nat)
    requires Ascending(ms) && Inv(s, ms) && Next(s, ms, step).Some?
    requires p <= |ms| && s.db.table.Keys == Prefix(ms, p)
    ensures q <= |ms| && Next(s, ms, step).value.db.table.Keys == Prefix(ms, q)
  {
    hide Prefix, InOrder;
    var s' := Next(s, ms, step).value;
    q := p;
    if s'.db != s.db {
      var i := s.workers[step.t].index;
      var m := ms[i];
      assert s'.db == Commit(s.db, m) && s'.db.table.Keys == s.db.table.Keys + {m.version};
      PrefixHas(ms, i, p);
      if p < |ms| { PrefixHas(ms, p, p); }
      assert p < i ==> Recorded(ms[p], s.db);
      assert i == p;
      PrefixGrows(ms, p);
      q := p + 1;
    }
  }

  /** If the recorded versions are a prefix of the list, they stay one in every interleaving. */
  lemma {:induction false} ConcurrentRunsKeepPrefix(s: State, ms: seq<Migration>, p: nat, steps: seq<Step>)
    returns (q: nat)
    requires Ascending(ms) && Inv(s, ms) && Run(s, ms, steps).Some?
    requires p <= |ms| && s.db.table.Keys == Prefix(ms, p)
    ensures q <= |ms| && Run(s, ms, steps).value.db.table.Keys == Prefix(ms, q)
    decreases |steps|
  {
    hide Next, Inv, Prefix;
    q := p;
    if steps != [] {
      StepKeepsInv(s, ms, steps[0]);
      q := PrefixStep(s, ms, p, steps[0]);
      q := ConcurrentRunsKeepPrefix(Next(s, ms, steps[0]).value, ms, q, steps[1..]);
    }
  }

  // ----- one migrator alone

  /** Steps of one migrator only: it queries and commits, and every answer arrives. */
  ghost predicate Alone(steps: seq<Step>, t: nat) {
    forall i :: 0 <= i < |steps| ==> steps[i] == Check(t) || steps[i] == TryCommit(t, true)
  }

  /** The migrator t is at work, and nobody has recorded the version that it is about to commit. */
  ghost predicate AtWork(s: State, ms: seq<Migration>, t: nat) {
    && t in s.workers && s.workers[t].index <= |ms|
    && (s.workers[t].phase.Applying? ==>
          s.workers[t].index < |ms| && ms[s.workers[t].index].version !in s.db.table)
  }

  /** What the work of t comes to from here on, if no fault comes: what the loop of `Migrate` says. */
  function Left(s: State, ms: seq<Migration>, t: nat): (Database, Outcome)
    requires t in s.workers
  {
    if s.workers[t].phase.Stopped? then (s.db, Failed(s.workers[t].index))
    else MigrateFrom(s.db, ms, s.workers[t].index, [])
  }

  lemma AloneStep(s: State, ms: seq<Migration>, t: nat, step: Step)
    requires AtWork(s, ms, t) && (step == Check(t) || step == TryCommit(t, true)) && Next(s, ms, step).Some?
    ensures var s' := Next(s, ms, step).value;
            && AtWork(s', ms, t) && Left(s', ms, t) == Left(s, ms, t)
            && (forall u :: u != t ==> (u in s'.workers <==> u in s.workers))
            && (forall u :: u != t && u in s.workers ==> s'.workers[u] == s.workers[u])
  {
    hide Commit;
  }

  lemma AtWorkIs(s: State, ms: seq<Migration>, t: nat)
    requires AtWork(s, ms, t)
    ensures t in s.workers
    ensures s.workers[t].index >= |ms| && !s.workers[t].phase.Stopped? ==> Left(s, ms, t) == (s.db, Done)
  {
  }

  /** A migrator that runs alone does what the loop of `Migrate` does: when it is through or has stopped,
      table, history and outcome are those of a run without faults from where it was. */
  lemma {:induction false} AloneIsMigrate(s: State, ms: seq<Migration>, t: nat, steps: seq<Step>)
    requires AtWork(s, ms, t) && Alone(steps, t) && Run(s, ms, steps).Some?
    ensures var s' := Run(s, ms, steps).value;
            && AtWork(s', ms, t) && Left(s', ms, t) == Left(s, ms, t)
            && (s'.workers[t].index == |ms| && !s'.workers[t].phase.Stopped? ==> (s'.db, Done) == Left(s, ms, t))
            && (s'.workers[t].phase.Stopped? ==> (s'.db, Failed(s'.workers[t].index)) == Left(s, ms, t))
    decreases |steps|
  {
    hide Next, AtWork;
    if steps != [] {
      AloneStep(s, ms, t, steps[0]);
      AloneIsMigrate(Next(s, ms, steps[0]).value, ms, t, steps[1..]);
    }
    assert AtWork(Run(s, ms, steps).value, ms, t);
    AtWorkIs(Run(s, ms, steps).value, ms, t);
  }

  lemma RunAfter(s: State, ms: seq<Migration>, step: Step, steps: seq<Step>)
    requires Next(s, ms, step).Some?
    ensures Run(s, ms, [step] + steps) == Run(Next(s, ms, step).value, ms, steps)
  {
    hide Next;
    assert ([step] + steps)[1..] == steps;
  }

  lemma RunNothing(s: State, ms: seq<Migration>)
    ensures Run(s, ms, []) == Some(s)
  {
  }

  /** A migrator at work can always go on alone to its end: through the whole list, or stopped. */
  lemma {:induction false} ComesToEnd(s: State, ms: seq<Migration>, t: nat) returns (steps: seq<Step>)
    requires AtWork(s, ms, t)
    ensures Alone(steps, t) && Run(s, ms, steps).Some? && t in Run(s, ms, steps).value.workers
    ensures var w := Run(s, ms, steps).value.workers[t]; w.phase.Stopped? || w.index == |ms|
    decreases if s.workers[t].phase.Stopped? then 0
              else 1 + 2 * (|ms| - s.workers[t].index) + if s.workers[t].phase.Applying? then 0 else 1
  {
    hide Run;
    var w := s.workers[t];
    if w.phase.Stopped? || w.index == |ms| {
      steps := [];
      RunNothing(s, ms);
    } else {
      var step := if w.phase.Checking? then Check(t) else TryCommit(t, true);
      AloneStep(s, ms, t, step);
      var more := ComesToEnd(Next(s, ms, step).value, ms, t);
      RunAfter(s, ms, step, more);
      steps := [step] + more;
    }
  }

  /** From every state: a migrator at work can run alone through the whole list exactly when no recorded
      checksum from its place on differs from the list. It then leaves what MigrateApplies says. */
  lemma FinishesIff(s: State, ms: seq<Migration>, t: nat)
    requires Ascending(ms) && AtWork(s, ms, t) && !s.workers[t].phase.Stopped?
    ensures (exists steps :: Alone(steps, t) && Run(s, ms, steps).Some? && t in Run(s, ms, steps).value.workers
                             && Run(s, ms, steps).value.workers[t] == Worker(|ms|, Checking)) <==>
            (forall j :: s.workers[t].index <= j < |ms| && ms[j].version in s.db.table ==>
               s.db.table[ms[j].version].checksum == ms[j].checksum)
  {
    hide Run, Next, Ascending;
    MigrateSucceedsIff(s.db, ms, s.workers[t].index);
    var steps := ComesToEnd(s, ms, t);
    AloneIsMigrate(s, ms, t, steps);
    forall steps | && Alone(steps, t) && Run(s, ms, steps).Some? && t in Run(s, ms, steps).value.workers
                   && Run(s, ms, steps).value.workers[t] == Worker(|ms|, Checking)
      ensures Left(s, ms, t).1.Done?
    {
      AloneIsMigrate(s, ms, t, steps);
    }
  }

  /** A migrator that has found its version missing loses it to another one: its own commit fails on
      the primary key, and it stops. */
  lemma LoserStops(s: State, ms: seq<Migration>, t: nat, answered: bool)
    requires t in s.workers && s.workers[t].phase.Applying? && s.workers[t].index < |ms|
    requires ms[s.workers[t].index].version in s.db.table
    ensures var s' := Next(s, ms, TryCommit(t, answered));
            s'.Some? && s'.value.db == s.db && s'.value.workers == s.workers[t := Worker(s.workers[t].index, Stopped)]
  {
  }
}
