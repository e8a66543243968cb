/** `write_content` and `write_db`: for each table source, its CREATE TABLE,
    then its INSERTs in row order, then a commit, against a database whose
    answers are given. The model records the actions asked of the database,
    in order. */
module Loader {
  import opened PyText
  import opened PyNumbers
  import opened TableSource
  import opened Statements

  /** What the loader asks of the database. */
  datatype Action = Execute(statement: string) | Commit

  /** How one action ends: it succeeds, it raises `sqlite3.OperationalError`,
      or it raises any other exception. */
  datatype ExecResult = Succeeded | OperationalError(message: string) | OtherError(message: string)

  /** The database as far as the loader can tell: how an execution or a
      commit ends, given every action asked of the database before it. */
  type Database = (seq<Action>, Action) -> ExecResult

  /** How one `write_content` call ends. */
  datatype WriteOutcome =
    | Committed
      // every INSERT succeeded and so did the commit
    | CommitRaised(message: string)
      // every INSERT succeeded but the commit raised: the exception leaves write_content
    | Abandoned(row: nat, message: string)
      // the INSERT of `row` raised OperationalError: reported, returned before the commit
    | CreateRaised(message: string)
      // CREATE TABLE raised: the exception leaves write_content
    | InsertRaised(row: nat, message: string)
      // the INSERT of `row` raised something else: the exception leaves write_content
  {
    /** The exception escapes and ends the whole run. */
    predicate IsFatal() {
      CreateRaised? || InsertRaised? || CommitRaised?
    }

    /** Every INSERT succeeded, so the commit was asked for. */
    predicate AskedCommit() {
      Committed? || CommitRaised?
    }
  }

  /** The statements of one table source: CREATE TABLE and one INSERT per
      data row, row `i`'s at index `i`. */
  datatype Job = Job(create: string, inserts: seq<string>)

  /** A source the statements can be built for: a type for every header name. */
  predicate Loadable(src: Csv) {
    |src.columnTypes| >= |src.columnNames|
  }

  function JobOf(src: Csv): (j: Job)
    requires Loadable(src)
    ensures |j.inserts| == |src.content|
  {
    Job(CreateStatement(src.name, src.columnNames, src.columnTypes),
        seq(|src.content|, i requires 0 <= i < |src.content| => InsertStatement(src.name, i, src.content[i])))
  }

  /** For a well-formed source the statements read back: CREATE TABLE names
      the source's table and lists the key column and every header name with
      its type, and the INSERT of row `i` names the same table and lists `i`
      and then every field of row `i`. */
  lemma JobReadsBack(src: Csv)
    requires WellFormed(src)
    ensures var job := JobOf(src);
      && |CreateHead(src.name)| + 2 <= |job.create|
      && job.create[..|CreateHead(src.name)|] == CreateHead(src.name)
      && job.create[|job.create| - 2..] == ");"
      && Split(job.create[|CreateHead(src.name)|..|job.create| - 2], ',')
         == [IdColumn] + Prefixed(" ", ColumnDefs(src.columnNames, src.columnTypes))
      && forall i :: 0 <= i < |src.content| ==>
           && |InsertHead(src.name)| + 1 <= |job.inserts[i]|
           && job.inserts[i][..|InsertHead(src.name)|] == InsertHead(src.name)
           && job.inserts[i][|job.inserts[i]| - 1] == ')'
           && Split(job.inserts[i][|InsertHead(src.name)|..|job.inserts[i]| - 1], ',')
              == [NatToString(i)] + Prefixed(" ", src.content[i])
  {
    CreateSchema(src.name, src.columnNames, src.columnTypes);
    forall i | 0 <= i < |src.content|
      ensures |InsertHead(src.name)| + 1 <= |JobOf(src).inserts[i]|
      ensures JobOf(src).inserts[i][..|InsertHead(src.name)|] == InsertHead(src.name)
      ensures JobOf(src).inserts[i][|JobOf(src).inserts[i]| - 1] == ')'
      ensures Split(JobOf(src).inserts[i][|InsertHead(src.name)|..|JobOf(src).inserts[i]| - 1], ',')
              == [NatToString(i)] + Prefixed(" ", src.content[i])
    {
      InsertRecoverable(src.name, i, src.content[i]);
    }
  }

  /** How one file becomes a table source: `CSV(path)` given the file's
      lines. */
  type Builder = (string, seq<string>) -> Result<Csv>

  /** The first file whose construction raises, or the number of files when
      none does. */
  function FirstBadFile(files: seq<(string, seq<string>)>, build: Builder): (f: nat)
    ensures f <= |files|
    ensures forall k :: 0 <= k < f ==> build(files[k].0, files[k].1).Ok?
    ensures f < |files| ==> build(files[f].0, files[f].1).Err?
    decreases |files|
  {
    if |files| == 0 || build(files[0].0, files[0].1).Err? then 0
    else 1 + FirstBadFile(files[1..], build)
  }

  /** `read_csvs` with the constructor given: a table source per file, in
      order, or the exception of the first file whose construction raises. */
  function ReadAll(files: seq<(string, seq<string>)>, build: Builder): (r: Result<seq<Csv>>)
    ensures r.Ok? <==> FirstBadFile(files, build) == |files|
    ensures r.Ok? ==> |r.value| == |files|
    ensures r.Ok? ==> forall i :: 0 <= i < |files| ==> r.value[i] == build(files[i].0, files[i].1).value
    ensures r.Err? ==> r.error == build(files[FirstBadFile(files, build)].0, files[FirstBadFile(files, build)].1).error
    decreases |files|
  {
    if |files| == 0 then Ok([])
    else
      match build(files[0].0, files[0].1)
      case Err(e) => Err(e)
      case Ok(src) =>
        match ReadAll(files[1..], build)
        case Err(e) => Err(e)
        case Ok(rest) => Ok([src] + rest)
  }

  /** `read_csvs`. Every source it builds is well formed, so its statements
      can be built. */
  function ReadCsvs(files: seq<(string, seq<string>)>): (r: Result<seq<Csv>>)
    ensures r.Ok? ==> forall s :: s in r.value ==> WellFormed(s) && Loadable(s)
  {
    var r := ReadAll(files, NewCsv);
    if r.Ok? then
      assert forall s :: s in r.value ==> exists i :: 0 <= i < |files| && s == NewCsv(files[i].0, files[i].1).value;
      r
    else r
  }

  /** The INSERTs of rows 0 to `k - 1`, in order. */
  function Inserts(job: Job, k: nat): (r: seq<Action>)
    requires k <= |job.inserts|
    ensures |r| == k
    ensures forall i :: 0 <= i < k ==> r[i] == Execute(job.inserts[i])
  {
    seq(k, i requires 0 <= i < k => Execute(job.inserts[i]))
  }

  /** Everything `write_content` asks for when nothing raises. */
  function Plan(job: Job): seq<Action> {
    [Execute(job.create)] + Inserts(job, |job.inserts|) + [Commit]
  }

  /** The actions asked of the database before the INSERT of row `k`. */
  function History(job: Job, before: seq<Action>, k: nat): seq<Action>
    requires k <= |job.inserts|
  {
    before + [Execute(job.create)] + Inserts(job, k)
  }

  /** How the INSERT of row `k` ends once it is reached. */
  function InsertResult(job: Job, db: Database, before: seq<Action>, k: nat): ExecResult
    requires k < |job.inserts|
  {
    db(History(job, before, k), Execute(job.inserts[k]))
  }

  /** How the commit after the last INSERT ends. */
  function CommitResult(job: Job, db: Database, before: seq<Action>): ExecResult {
    db(History(job, before, |job.inserts|), Commit)
  }

  /** How `write_content` ends once it has asked for the commit: any exception
      `commit()` raises leaves it. */
  function CommitOutcome(e: ExecResult): (o: WriteOutcome)
    ensures o.AskedCommit()
    ensures o.Committed? <==> e.Succeeded?
  {
    if e.Succeeded? then Committed else CommitRaised(e.message)
  }

  /** The loop over the rows from row `i` on: execute each INSERT; on
      OperationalError report it and return; on any other exception let it
      propagate; after the last row, commit, which may raise too. */
  function InsertRows(job: Job, db: Database, before: seq<Action>, i: nat): (seq<Action>, WriteOutcome)
    requires i <= |job.inserts|
    decreases |job.inserts| - i
  {
    if i == |job.inserts| then ([Commit], CommitOutcome(CommitResult(job, db, before)))
    else
      var stmt := job.inserts[i];
      match InsertResult(job, db, before, i)
      case Succeeded =>
        var (rest, outcome) := InsertRows(job, db, before, i + 1);
        ([Execute(stmt)] + rest, outcome)
      case OperationalError(m) => ([Execute(stmt)], Abandoned(i, m))
      case OtherError(m) => ([Execute(stmt)], InsertRaised(i, m))
  }

  /** The first row from `i` on whose INSERT does not succeed, or the number of
      rows when every one succeeds. */
  function FirstFailure(job: Job, db: Database, before: seq<Action>, i: nat): (f: nat)
    requires i <= |job.inserts|
    ensures i <= f <= |job.inserts|
    ensures forall k :: i <= k < f ==> InsertResult(job, db, before, k).Succeeded?
    ensures f < |job.inserts| ==> !InsertResult(job, db, before, f).Succeeded?
    decreases |job.inserts| - i
  {
    if i == |job.inserts| || !InsertResult(job, db, before, i).Succeeded? then i
    else FirstFailure(job, db, before, i + 1)
  }

  /** Which way a failed INSERT ends `write_content`. */
  function FailureOutcome(row: nat, e: ExecResult): (o: WriteOutcome)
    requires !e.Succeeded?
    ensures o.IsFatal() <==> e.OtherError?
    ensures !o.AskedCommit()
    ensures (o.Abandoned? || o.InsertRaised?) && o.row == row && o.message == e.message
  {
    if e.OperationalError? then Abandoned(row, e.message) else InsertRaised(row, e.message)
  }

  /** What the loop from row `i` should do, read off the first failing row:
      the INSERTs up to and including it, and the commit only when there is
      none. */
  function StopAtFirstFailure(job: Job, db: Database, before: seq<Action>, i: nat): (seq<Action>, WriteOutcome)
    requires i <= |job.inserts|
  {
    var f := FirstFailure(job, db, before, i);
    if f == |job.inserts| then (Inserts(job, f)[i..] + [Commit], CommitOutcome(CommitResult(job, db, before)))
    else (Inserts(job, f + 1)[i..], FailureOutcome(f, InsertResult(job, db, before, f)))
  }

  /** The loop stops exactly at the first INSERT that raises. */
  lemma {:induction false} InsertRowsStopsAtFirstFailure(job: Job, db: Database, before: seq<Action>, i: nat)
    requires i <= |job.inserts|
    ensures InsertRows(job, db, before, i) == StopAtFirstFailure(job, db, before, i)
    decreases |job.inserts| - i
  {
    if i < |job.inserts| && InsertResult(job, db, before, i).Succeeded? {
      InsertRowsStopsAtFirstFailure(job, db, before, i + 1);
      StopAtFirstFailureStep(job, db, before, i);
      var (rest, outcome) := InsertRows(job, db, before, i + 1);
      assert InsertRows(job, db, before, i) == ([Execute(job.inserts[i])] + rest, outcome);
    } else if i < |job.inserts| {
      var stmt := Execute(job.inserts[i]);
      assert FirstFailure(job, db, before, i) == i;
      assert Inserts(job, i + 1)[i..] == [stmt];
      var e := InsertResult(job, db, before, i);
      assert StopAtFirstFailure(job, db, before, i) == ([stmt], FailureOutcome(i, e));
      assert InsertRows(job, db, before, i).1 == FailureOutcome(i, e);
    } else {
      assert Inserts(job, i)[i..] == [];
      assert StopAtFirstFailure(job, db, before, i).0 == [Commit];
      assert InsertRows(job, db, before, i).1 == CommitOutcome(CommitResult(job, db, before));
    }
  }

  /** Dropping the first of the INSERTs from row `i` on. */
  lemma InsertsFrom(job: Job, k: nat, i: nat)
    requires i < k <= |job.inserts|
    ensures Inserts(job, k)[i..] == [Execute(job.inserts[i])] + Inserts(job, k)[i + 1..]
  {
    var xs := Inserts(job, k);
    assert xs[i..] == [xs[i]] + xs[i + 1..];
  }

  /** A row that succeeds is inserted, and the rest goes on from the next row. */
  lemma StopAtFirstFailureStep(job: Job, db: Database, before: seq<Action>, i: nat)
    requires i < |job.inserts| && InsertResult(job, db, before, i).Succeeded?
    ensures var next := StopAtFirstFailure(job, db, before, i + 1);
      StopAtFirstFailure(job, db, before, i) == ([Execute(job.inserts[i])] + next.0, next.1)
  {
    var f := FirstFailure(job, db, before, i);
    assert f == FirstFailure(job, db, before, i + 1);
    var head := [Execute(job.inserts[i])];
    if f == |job.inserts| {
      InsertsFrom(job, f, i);
      assert StopAtFirstFailure(job, db, before, i).0 == Inserts(job, f)[i..] + [Commit];
      assert StopAtFirstFailure(job, db, before, i + 1).0 == Inserts(job, f)[i + 1..] + [Commit];
      assert Inserts(job, f)[i..] + [Commit] == head + (Inserts(job, f)[i + 1..] + [Commit]);
    } else {
      InsertsFrom(job, f + 1, i);
    }
  }

  /** `write_content` for the statements of one source. */
  function WriteContent(job: Job, db: Database, before: seq<Action>): (seq<Action>, WriteOutcome) {
    match db(before, Execute(job.create))
    case Succeeded =>
      var rest := InsertRows(job, db, before, 0);
      ([Execute(job.create)] + rest.0, rest.1)
    case OperationalError(m) => ([Execute(job.create)], CreateRaised(m))
    case OtherError(m) => ([Execute(job.create)], CreateRaised(m))
  }

  /** `write_content` asks for CREATE TABLE, then the INSERTs from row 0 up to
      and including the first one that raises, and the commit only when none
      raises: always a prefix of the plan, holding the commit exactly when
      every statement succeeded. A failing CREATE TABLE always propagates; a
      failing INSERT propagates unless it raised OperationalError; a failing
      commit always propagates. */
  lemma WriteContentStops(job: Job, db: Database, before: seq<Action>)
    ensures var (t, o) := WriteContent(job, db, before);
      var created := db(before, Execute(job.create));
      var f := FirstFailure(job, db, before, 0);
      && |t| > 0 && t[0] == Execute(job.create)
      && t <= Plan(job)
      && (Commit in t <==> o.AskedCommit())
      && (o.CreateRaised? <==> !created.Succeeded?)
      && (!created.Succeeded? ==> t == [Execute(job.create)] && o.message == created.message)
      && (o.AskedCommit() <==> created.Succeeded? && f == |job.inserts|)
      && (o.AskedCommit() ==> t == Plan(job) && o == CommitOutcome(CommitResult(job, db, before)))
      && (created.Succeeded? && f < |job.inserts| ==>
            && t == [Execute(job.create)] + Inserts(job, f + 1)
            && o == FailureOutcome(f, InsertResult(job, db, before, f)))
  {
    var (t, o) := WriteContent(job, db, before);
    var plan := Plan(job);
    var n := |job.inserts|;
    assert Inserts(job, n)[0..] == Inserts(job, n);
    if db(before, Execute(job.create)).Succeeded? {
      InsertRowsStopsAtFirstFailure(job, db, before, 0);
      var f := FirstFailure(job, db, before, 0);
      if f < n {
        assert Inserts(job, f + 1)[0..] == Inserts(job, f + 1);
        assert t == plan[..f + 2];
        forall k | 0 <= k < |t| ensures t[k] != Commit {
          if k > 0 {
            assert t[k] == Inserts(job, f + 1)[k - 1];
          }
        }
      }
    }
  }

  /** The position just after the last commit asked for in the trace `t`, or
      0 when none was asked for. */
  function CommitMark(t: seq<Action>): (k: nat)
    ensures k <= |t|
    ensures k > 0 ==> t[k - 1] == Commit
    ensures forall j :: k <= j < |t| ==> t[j] != Commit
    decreases |t|
  {
    if |t| == 0 then 0
    else if t[|t| - 1] == Commit then |t|
    else CommitMark(t[..|t| - 1])
  }

  /** The actions asked for after the last commit request. No rollback is ever
      asked for, so these are the statements no commit has been asked to
      cover yet. */
  function SinceCommit(t: seq<Action>): (r: seq<Action>)
    ensures Commit !in r
  {
    t[CommitMark(t)..]
  }

  /** Actions without a commit leave the position of the last commit where it
      was. */
  lemma {:induction false} CommitMarkAppend(t: seq<Action>, u: seq<Action>)
    requires Commit !in u
    ensures CommitMark(t + u) == CommitMark(t)
    decreases |u|
  {
    if |u| == 0 {
      assert t + u == t;
    } else {
      var u' := u[..|u| - 1];
      var whole := t + u;
      assert whole[..|whole| - 1] == t + u';
      assert whole[|whole| - 1] == u[|u| - 1];
      assert Commit !in u' by {
        forall k | 0 <= k < |u'| ensures u'[k] != Commit {
          assert u'[k] == u[k];
        }
      }
      CommitMarkAppend(t, u');
    }
  }

  /** Actions without a commit join the actions since the last commit; a
      commit at the end leaves none. */
  lemma SinceCommitAppend(t: seq<Action>, u: seq<Action>)
    ensures Commit !in u ==> SinceCommit(t + u) == SinceCommit(t) + u
    ensures |u| > 0 && u[|u| - 1] == Commit ==> SinceCommit(t + u) == []
  {
    if Commit !in u {
      CommitMarkAppend(t, u);
      var k := CommitMark(t);
      assert (t + u)[k..] == t[k..] + u;
    }
  }

  /** After `write_content` no action follows the last commit request when it
      asked for the commit; otherwise everything it asked for joins the
      actions since the last commit, after those already there. */
  lemma WriteContentSinceCommit(job: Job, db: Database, before: seq<Action>)
    ensures var (t, o) := WriteContent(job, db, before);
      && (o.AskedCommit() ==> SinceCommit(before + t) == [])
      && (!o.AskedCommit() ==> SinceCommit(before + t) == SinceCommit(before) + t)
      && (!o.AskedCommit() ==> |SinceCommit(before + t)| > 0)
  {
    var (t, o) := WriteContent(job, db, before);
    WriteContentStops(job, db, before);
    if o.AskedCommit() {
      assert t[|t| - 1] == Commit;
    }
    SinceCommitAppend(before, t);
  }

  /** `write_db`: `write_content` for every source in turn, each seeing what
      the earlier ones asked for. An exception that leaves `write_content`
      ends the run; an abandoned source does not. */
  function WriteDb(srcs: seq<Job>, db: Database, before: seq<Action>): (r: (seq<Action>, seq<WriteOutcome>))
    ensures |r.1| <= |srcs|
    ensures |srcs| > 0 ==> |r.1| > 0
    decreases |srcs|
  {
    if |srcs| == 0 then ([], [])
    else
      var first := WriteContent(srcs[0], db, before);
      if first.1.IsFatal() then (first.0, [first.1])
      else
        var rest := WriteDb(srcs[1..], db, before + first.0);
        (first.0 + rest.0, [first.1] + rest.1)
  }

  /** Only the last source reached can have raised, and the run stops early
      only when it did: an abandoned source does not stop it. */
  lemma {:induction false} WriteDbStopsOnlyOnRaise(srcs: seq<Job>, db: Database, before: seq<Action>)
    ensures var os := WriteDb(srcs, db, before).1;
      && (forall k :: 0 <= k < |os| - 1 ==> !os[k].IsFatal())
      && (|os| < |srcs| ==> os[|os| - 1].IsFatal())
    decreases |srcs|
  {
    if |srcs| > 0 {
      var first := WriteContent(srcs[0], db, before);
      if !first.1.IsFatal() {
        var rest := WriteDb(srcs[1..], db, before + first.0);
        WriteDbStopsOnlyOnRaise(srcs[1..], db, before + first.0);
        var os := WriteDb(srcs, db, before).1;
        assert os == [first.1] + rest.1;
        forall k | 0 <= k < |os| - 1 ensures !os[k].IsFatal() {
          if k > 0 {
            assert os[k] == rest.1[k - 1];
          }
        }
      }
    }
  }

  /** After a run of `write_db`, no action follows the last commit request
      exactly when the last source it reached asked for the commit. No
      rollback is ever asked for, so the INSERTs of an abandoned source come
      before the next commit request, made by the next source whose
      statements all succeed. */
  lemma {:induction false} WriteDbSinceCommit(srcs: seq<Job>, db: Database, before: seq<Action>)
    requires |srcs| > 0
    ensures var r := WriteDb(srcs, db, before);
      r.1[|r.1| - 1].AskedCommit() <==> SinceCommit(before + r.0) == []
    decreases |srcs|
  {
    var t := WriteContent(srcs[0], db, before).0;
    if WriteDbGoesOn(srcs, db, before) {
      WriteDbSinceCommit(srcs[1..], db, before + t);
      WriteDbStep(srcs, db, before);
    } else {
      WriteDbLast(srcs, db, before);
    }
  }

  /** The run goes past the first source. */
  predicate WriteDbGoesOn(srcs: seq<Job>, db: Database, before: seq<Action>)
    requires |srcs| > 0
  {
    |srcs| > 1 && !WriteContent(srcs[0], db, before).1.IsFatal()
  }

  lemma WriteDbStep(srcs: seq<Job>, db: Database, before: seq<Action>)
    requires |srcs| > 0 && WriteDbGoesOn(srcs, db, before)
    ensures var t := WriteContent(srcs[0], db, before).0;
      var rest := WriteDb(srcs[1..], db, before + t);
      var r := WriteDb(srcs, db, before);
      && before + r.0 == (before + t) + rest.0
      && r.1[|r.1| - 1] == rest.1[|rest.1| - 1]
  {
    var first := WriteContent(srcs[0], db, before);
    var rest := WriteDb(srcs[1..], db, before + first.0);
    var r := WriteDb(srcs, db, before);
    assert r == (first.0 + rest.0, [first.1] + rest.1);
    assert r.1[|r.1| - 1] == rest.1[|rest.1| - 1];
    assert before + r.0 == (before + first.0) + rest.0;
  }

  lemma WriteDbLast(srcs: seq<Job>, db: Database, before: seq<Action>)
    requires |srcs| > 0 && !WriteDbGoesOn(srcs, db, before)
    ensures var r := WriteDb(srcs, db, before);
      r.1[|r.1| - 1].AskedCommit() <==> SinceCommit(before + r.0) == []
  {
    var first := WriteContent(srcs[0], db, before);
    WriteContentSinceCommit(srcs[0], db, before);
    if !first.1.IsFatal() {
      assert WriteDb(srcs[1..], db, before + first.0) == ([], []);
      assert first.0 + [] == first.0 && [first.1] + [] == [first.1];
    }
    assert WriteDb(srcs, db, before) == (first.0, [first.1]);
  }

  /** `hs[k]` is everything asked for before source `k`, and source `k`'s
      `write_content` ran on it: its actions lead to `hs[k + 1]` and its
      outcome is `os[k]`. */
  predicate RunOf(srcs: seq<Job>, db: Database, hs: seq<seq<Action>>, os: seq<WriteOutcome>) {
    && |hs| == |os| + 1
    && |os| <= |srcs|
    && forall k :: 0 <= k < |os| ==>
         && hs[k + 1] == hs[k] + WriteContent(srcs[k], db, hs[k]).0
         && os[k] == WriteContent(srcs[k], db, hs[k]).1
  }

  /** `write_db` runs `write_content` for the sources in order, each on what
      the earlier ones asked for, and asks for nothing else. */
  lemma {:induction false} WriteDbInOrder(srcs: seq<Job>, db: Database, before: seq<Action>)
    ensures var r := WriteDb(srcs, db, before);
      exists hs :: RunOf(srcs, db, hs, r.1) && hs[0] == before && hs[|hs| - 1] == before + r.0
    decreases |srcs|
  {
    var r := WriteDb(srcs, db, before);
    if |srcs| == 0 {
      assert RunOf(srcs, db, [before], r.1) && before + r.0 == before;
    } else if WriteContent(srcs[0], db, before).1.IsFatal() {
      var hs := WriteDbFatalRun(srcs, db, before);
    } else {
      var after := before + WriteContent(srcs[0], db, before).0;
      var rest := WriteDb(srcs[1..], db, after);
      WriteDbInOrder(srcs[1..], db, after);
      var hs' :| RunOf(srcs[1..], db, hs', rest.1) && hs'[0] == after && hs'[|hs'| - 1] == after + rest.0;
      WriteDbGoesOnRun(srcs, db, before, hs');
    }
  }

  /** A run that stops at its first source is that source's `write_content`. */
  lemma {:induction false} WriteDbFatalRun(srcs: seq<Job>, db: Database, before: seq<Action>) returns (hs: seq<seq<Action>>)
    requires |srcs| > 0 && WriteContent(srcs[0], db, before).1.IsFatal()
    ensures var r := WriteDb(srcs, db, before);
      RunOf(srcs, db, hs, r.1) && hs[0] == before && hs[|hs| - 1] == before + r.0
  {
    var first := WriteContent(srcs[0], db, before);
    hs := [before, before + first.0];
    assert WriteDb(srcs, db, before) == (first.0, [first.1]);
  }

  /** A run past the first source is that source's `write_content` followed
      by the run of the rest. */
  lemma {:induction false} WriteDbGoesOnRun(srcs: seq<Job>, db: Database, before: seq<Action>, hs': seq<seq<Action>>)
    requires |srcs| > 0 && !WriteContent(srcs[0], db, before).1.IsFatal()
    requires var after := before + WriteContent(srcs[0], db, before).0;
      var rest := WriteDb(srcs[1..], db, after);
      RunOf(srcs[1..], db, hs', rest.1) && hs'[0] == after && hs'[|hs'| - 1] == after + rest.0
    ensures var r := WriteDb(srcs, db, before);
      var hs := [before] + hs';
      RunOf(srcs, db, hs, r.1) && hs[0] == before && hs[|hs| - 1] == before + r.0
  {
    var first := WriteContent(srcs[0], db, before);
    var after := before + first.0;
    var rest := WriteDb(srcs[1..], db, after);
    RunOfCons(srcs, db, before, hs', rest.1);
    assert WriteDb(srcs, db, before) == (first.0 + rest.0, [first.1] + rest.1);
    assert after + rest.0 == before + (first.0 + rest.0);
  }

  /** A run of the later sources, started on what the first source's
      `write_content` left, extends to a run of all of them. */
  lemma {:induction false} RunOfCons(srcs: seq<Job>, db: Database, before: seq<Action>, hs': seq<seq<Action>>, os': seq<WriteOutcome>)
    requires |srcs| > 0
    requires RunOf(srcs[1..], db, hs', os')
    requires hs'[0] == before + WriteContent(srcs[0], db, before).0
    ensures RunOf(srcs, db, [before] + hs', [WriteContent(srcs[0], db, before).1] + os')
  {
    var hs := [before] + hs';
    var os := [WriteContent(srcs[0], db, before).1] + os';
    forall k | 0 <= k < |os|
      ensures hs[k + 1] == hs[k] + WriteContent(srcs[k], db, hs[k]).0
      ensures os[k] == WriteContent(srcs[k], db, hs[k]).1
    {
      if k > 0 {
        assert srcs[k] == srcs[1..][k - 1];
        assert hs[k] == hs'[k - 1] && hs[k + 1] == hs'[k];
        assert os[k] == os'[k - 1];
      }
    }
  }
}
