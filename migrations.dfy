/**
 * Start-up of the database module: the stored schema version is read once, and
 * then each `@migration(number)` declaration, in source order, either skips its
 * migration or runs it, bumps the version, or rolls back and exits.
 *
 * The SQLite file is abstracted to the part the gate looks at: the `version`
 * column of every row of table `state` (absent when the table does not exist)
 * and the names of the other tables.
 */
module Migrations {
  import opened Wrappers

  /** The database as the migrations see it. */
  datatype Schema = Schema(state: Option<seq<int>>, tables: set<string>)

  /** A declared migration: its number, its function's name, and what its body does (`None`: it raised `OperationalError`). */
  datatype Migration = Migration(number: int, name: string, body: Schema -> Option<Schema>)

  /** The reason the module fails to import before any migration is declared. */
  datatype BootError =
    | NoStateRow   // `fetchone()` returned None and `row["version"]` raised TypeError

  /**
   * The module-level state while migrations are declared: the database, the
   * global `version`, the names of the migrations run so far, and whether
   * `sys.exit(1)` has been called.
   */
  datatype Startup = Startup(schema: Schema, version: int, ran: seq<string>, halted: bool)

  /**
   * The version read at import time: a missing `state` table raises
   * `OperationalError` and gives 0; an empty one leaves `row` as None and the
   * subscript fails; otherwise the first row's version.
   */
  function StartVersion(s: Schema): (r: Result<int, BootError>)
    ensures s.state.None? ==> r == Ok(0)
    ensures r.Err? <==> s.state == Some([])
    ensures r.Ok? && s.state.Some? ==> r.value in s.state.value
  {
    match s.state
    case None => Ok(0)
    case Some(rows) => if |rows| == 0 then Err(NoStateRow) else Ok(rows[0])
  }

  /** `UPDATE state SET version = v`: every row takes `v`; without a `state` table the statement raises `OperationalError`. */
  function SetVersion(s: Schema, v: int): (r: Option<Schema>)
    ensures r.Some? <==> s.state.Some?
    ensures r.Some? ==> r.value.tables == s.tables && r.value.state.Some?
    ensures r.Some? ==> |r.value.state.value| == |s.state.value|
    ensures r.Some? ==> forall i :: 0 <= i < |r.value.state.value| ==> r.value.state.value[i] == v
  {
    match s.state
    case None => None
    case Some(rows) => Some(s.(state := Some(seq(|rows|, _ => v))))
  }

  /**
   * What declaring `m` does (lines 17-34): after an exit nothing more runs; a
   * migration below the current version is skipped; otherwise its body runs
   * and the stored version is set to the old in-process `version + 1`. If the
   * body or that update raises, the transaction is rolled back and start-up
   * halts with `version` unchanged; on success `version` grows by one.
   */
  function Step(st: Startup, m: Migration): (r: Startup)
    ensures st.halted || m.number < st.version ==> r == st
    ensures r.halted ==> r.version == st.version && r.schema == st.schema && r.ran == st.ran
    ensures !r.halted ==> !st.halted && (r == st || (r.version == st.version + 1 && r.ran == st.ran + [m.name]))
  {
    if st.halted || m.number < st.version then st
    else
      match m.body(st.schema)
      case None => st.(halted := true)
      case Some(s1) =>
        match SetVersion(s1, st.version + 1)
        case None => st.(halted := true)
        case Some(s2) => Startup(s2, st.version + 1, st.ran + [m.name], false)
  }

  /** Declaring the migrations `ms` in order, starting from `st`. */
  function Run(st: Startup, ms: seq<Migration>): (r: Startup)
    ensures !r.halted ==> !st.halted
    ensures |st.ran| <= |r.ran| <= |st.ran| + |ms|
  {
    if |ms| == 0 then st else Step(Run(st, ms[..|ms| - 1]), ms[|ms| - 1])
  }

  /** Importing the module over database `s` with migrations `ms`. */
  function Boot(s: Schema, ms: seq<Migration>): (r: Result<Startup, BootError>)
    ensures r.Err? <==> s.state == Some([])
    ensures r.Ok? ==> |r.value.ran| <= |ms| && r.value.version == StartVersion(s).value + |r.value.ran|
  {
    match StartVersion(s)
    case Err(e) => Err(e)
    case Ok(v) =>
      RunCounts(Startup(s, v, [], false), ms);
      Ok(Run(Startup(s, v, [], false), ms))
  }

  /** Number 0, `initial`: creates `state` with one row holding 0, and `places`, `books` and `borrows`; `CREATE TABLE` of an existing table raises. */
  function InitialBody(s: Schema): (r: Option<Schema>)
    ensures r.Some? <==> s.state.None? && "places" !in s.tables && "books" !in s.tables && "borrows" !in s.tables
    ensures r.Some? ==> r.value == Schema(Some([0]), s.tables + {"places", "books", "borrows"})
  {
    if s.state.Some? || "places" in s.tables || "books" in s.tables || "borrows" in s.tables then None
    else Some(Schema(Some([0]), s.tables + {"places", "books", "borrows"}))
  }

  /** The declared migration `initial`. */
  function Initial(): (m: Migration)
    ensures m.number == 0 && m.name == "initial"
    ensures forall s :: m.body(s) == InitialBody(s)
  {
    Migration(0, "initial", InitialBody)
  }

  /** The migrations of the module, in declaration order. */
  function Declared(): (ms: seq<Migration>)
    ensures |ms| == 1 && ms[0].number == 0 && ms[0].name == "initial"
  {
    [Initial()]
  }

  /** A migration is declared while start-up has not halted: it runs iff its number is at least the current version. */
  lemma StepGate(st: Startup, m: Migration)
    requires !st.halted
    ensures m.number < st.version ==> Step(st, m) == st
    ensures m.number >= st.version ==> Step(st, m) != st
    ensures m.number >= st.version ==>
      (Step(st, m).halted && Step(st, m).version == st.version && Step(st, m).schema == st.schema && Step(st, m).ran == st.ran) ||
      (!Step(st, m).halted && Step(st, m).ran == st.ran + [m.name])
  {
    if m.number >= st.version {
      match m.body(st.schema)
      case None =>
      case Some(s1) =>
        match SetVersion(s1, st.version + 1)
        case None =>
        case Some(s2) =>
          assert |Step(st, m).ran| == |st.ran| + 1;
    }
  }

  /** A run migration leaves the stored version equal to the in-process one: every `state` row holds the old version plus one. */
  lemma StepBumps(st: Startup, m: Migration)
    requires !st.halted && !Step(st, m).halted && m.number >= st.version
    ensures Step(st, m).version == st.version + 1
    ensures Synced(Step(st, m))
  {
  }

  /** The in-process version equals every row of `state`. */
  ghost predicate Synced(st: Startup)
  {
    st.schema.state.Some? && forall i :: 0 <= i < |st.schema.state.value| ==> st.schema.state.value[i] == st.version
  }

  /** After a run migration, the next import reads back exactly the version the previous one ended with, unless the `state` table is empty. */
  lemma RestartReadsVersion(st: Startup, m: Migration)
    requires !st.halted && m.number >= st.version && !Step(st, m).halted
    requires Step(st, m).schema.state != Some([])
    ensures StartVersion(Step(st, m).schema) == Ok(Step(st, m).version)
  {
    StepBumps(st, m);
  }

  /** Once halted, later declarations change nothing: `sys.exit` ends the import. */
  lemma {:induction false} HaltedStays(st: Startup, ms: seq<Migration>)
    requires st.halted
    ensures Run(st, ms) == st
  {
    if |ms| > 0 {
      HaltedStays(st, ms[..|ms| - 1]);
    }
  }

  /** Declaring `a` then `b` is declaring `a + b`. */
  lemma {:induction false} RunAppend(st: Startup, a: seq<Migration>, b: seq<Migration>)
    ensures Run(st, a + b) == Run(Run(st, a), b)
  {
    if |b| == 0 {
      assert a + b == a;
    } else {
      assert (a + b)[..|a + b| - 1] == a + b[..|b| - 1];
      RunAppend(st, a, b[..|b| - 1]);
    }
  }

  /** The global `version` only grows, and by exactly the number of migrations run. */
  lemma {:induction false} RunCounts(st: Startup, ms: seq<Migration>)
    ensures |Run(st, ms).ran| >= |st.ran| && Run(st, ms).ran[..|st.ran|] == st.ran
    ensures Run(st, ms).version == st.version + |Run(st, ms).ran| - |st.ran|
  {
    if |ms| > 0 {
      RunCounts(st, ms[..|ms| - 1]);
      var mid := Run(st, ms[..|ms| - 1]);
      var m := ms[|ms| - 1];
      if !mid.halted && m.number >= mid.version {
        match m.body(mid.schema)
        case None =>
        case Some(s1) =>
          match SetVersion(s1, mid.version + 1)
          case None =>
          case Some(s2) =>
            assert (mid.ran + [m.name])[..|st.ran|] == mid.ran[..|st.ran|];
      }
    }
  }

  /** With every migration numbered below the starting version, none runs and nothing changes. */
  lemma {:induction false} NothingRunsBelow(st: Startup, ms: seq<Migration>)
    requires forall i :: 0 <= i < |ms| ==> ms[i].number < st.version
    ensures Run(st, ms) == st
  {
    if |ms| > 0 {
      NothingRunsBelow(st, ms[..|ms| - 1]);
    }
  }

  /** `initial` runs on a still-running start-up iff the version is at most 0. */
  lemma InitialGate(st: Startup)
    requires !st.halted
    ensures (Step(st, Initial()).ran == st.ran + ["initial"] || Step(st, Initial()).halted) <==> st.version <= 0
  {
    StepGate(st, Initial());
    if st.version > 0 {
      assert |Step(st, Initial()).ran| == |st.ran|;
    }
  }

  /** On an empty database file `initial` runs and leaves stored and in-process version 1. */
  lemma FreshBoot()
    ensures Boot(Schema(None, {}), Declared()) ==
      Ok(Startup(Schema(Some([1]), {"places", "books", "borrows"}), 1, ["initial"], false))
  {
    var st := Startup(Schema(None, {}), 0, [], false);
    var tables: set<string> := {"places", "books", "borrows"};
    assert Declared()[..0] == [];
    assert Run(st, Declared()) == Step(st, Initial());
    assert st.schema.tables + tables == tables;
    assert InitialBody(st.schema) == Some(Schema(Some([0]), tables));
    assert seq(1, _ => 1) == [1];
    assert SetVersion(Schema(Some([0]), tables), 1) == Some(Schema(Some([1]), tables));
    assert st.ran + ["initial"] == ["initial"];
    assert Step(st, Initial()) == Startup(Schema(Some([1]), tables), 1, ["initial"], false);
  }

  /** Importing again after a fresh boot reads version 1 and runs nothing. */
  lemma SecondBoot()
    ensures var s := Schema(Some([1]), {"places", "books", "borrows"});
      Boot(s, Declared()) == Ok(Startup(s, 1, [], false))
  {
    var s := Schema(Some([1]), {"places", "books", "borrows"});
    NothingRunsBelow(Startup(s, 1, [], false), Declared());
  }

  /**
   * The import sequence as the module executes it: read the version, then
   * apply each decorator in turn, stopping at the first `sys.exit`.
   */
  method Start(s: Schema, ms: seq<Migration>) returns (r: Result<Startup, BootError>)
    ensures r == Boot(s, ms)
  {
    var v := StartVersion(s);
    if v.Err? {
      return Err(v.error);
    }
    ghost var st0 := Startup(s, v.value, [], false);
    var schema, version, ran := s, v.value, [];
    var i := 0;
    while i < |ms|
      invariant 0 <= i <= |ms|
      invariant Run(st0, ms[..i]) == Startup(schema, version, ran, false)
    {
      var m := ms[i];
      assert ms[..i + 1][..i] == ms[..i];
      if m.number >= version {
        var after := m.body(schema);
        var updated := if after.Some? then SetVersion(after.value, version + 1) else None;
        if updated.None? {
          // rolled back; sys.exit(1)
          HaltedStays(Startup(schema, version, ran, true), ms[i + 1..]);
          RunAppend(st0, ms[..i + 1], ms[i + 1..]);
          assert ms[..i + 1] + ms[i + 1..] == ms;
          return Ok(Startup(schema, version, ran, true));
        }
        schema, version, ran := updated.value, version + 1, ran + [m.name];
      }
      i := i + 1;
    }
    assert ms[..i] == ms;
    r := Ok(Startup(schema, version, ran, false));
  }
}
