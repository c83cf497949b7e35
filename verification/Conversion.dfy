// The concurrent row conversion of setPropertiesToNodeRow and setPropertiesToEdgeRow
// (sdk/api/insert.nodes.go, insert.edges.go): a loop that checks rows and starts one goroutine each,
// all of them writing one shared `err`. Steps are single reads and writes of shared variables.
module Conversion {
  import opened Base

  /** What checking and converting each row would give on its own. */
  datatype Job<R, E> = Job(checks: seq<Option<E>>, results: seq<Result<R, E>>)
  {
    ghost predicate Valid() {
      |checks| == |results|
    }

    /** Every row checks and converts. */
    ghost predicate AllGood() {
      Valid() && forall i :: 0 <= i < |results| ==> checks[i].None? && results[i].Ok?
    }

    /** newNode as the goroutine leaves it: nil when the conversion failed. */
    function Row(i: nat): Option<R>
      requires i < |results|
    {
      match results[i] case Ok(r) => Some(r) case Err(_) => None
    }

    function Failure(i: nat): Option<E>
      requires i < |results|
    {
      match results[i] case Ok(_) => None case Err(e) => Some(e)
    }
  }

  /** The loop: check row i into err, test err, start the goroutine, look for cancellation. */
  datatype Main<E> =
    | Check(i: nat) | Test(i: nat) | Spawn(i: nat) | Select(i: nat) | Wait | Return | Returned(err: Option<E>)

  /** A goroutine: convert into newNode and err, test err, store newNode. */
  datatype Task = NotStarted | Running | Converted | Storing | Finished

  datatype State<R, E> = State(main: Main<E>, tasks: seq<Task>, err: Option<E>, cancelled: bool, rows: seq<Option<R>>)

  function Init<R, E>(job: Job<R, E>): State<R, E> {
    var n := |job.results|;
    State(Loop(0, n), seq(n, i => NotStarted), None, false, seq(n, i => None))
  }

  function Loop<E>(i: nat, n: nat): Main<E> {
    if i < n then Check(i) else Wait
  }

  ghost predicate Shape<R, E>(job: Job<R, E>, s: State<R, E>) {
    && job.Valid() && |s.tasks| == |s.rows| == |job.results|
    && ((s.main.Check? || s.main.Test? || s.main.Spawn? || s.main.Select?) ==> s.main.i < |job.results|)
  }

  ghost predicate MainStep<R, E>(job: Job<R, E>, s: State<R, E>, t: State<R, E>)
    requires Shape(job, s)
  {
    match s.main
    case Check(i) => t == s.(main := Test(i), err := job.checks[i])
    case Test(i) => t == s.(main := if s.err.Some? then Return else Spawn(i))
    case Spawn(i) => t == s.(main := Select(i), tasks := s.tasks[i := Running])
    case Select(i) => t == s.(main := if s.cancelled then Return else Loop(i + 1, |job.results|))
    case Wait => (forall i :: 0 <= i < |s.tasks| ==> s.tasks[i].Finished?) && t == s.(main := Return)
    case Return => t == s.(main := Returned(s.err))
    case Returned(_) => false
  }

  ghost predicate TaskStep<R, E>(job: Job<R, E>, s: State<R, E>, t: State<R, E>, i: nat)
    requires Shape(job, s) && i < |s.tasks|
  {
    match s.tasks[i]
    case NotStarted => false
    case Running => t == s.(tasks := s.tasks[i := Converted], err := job.Failure(i))
    case Converted =>
      if s.err.Some? then t == s.(tasks := s.tasks[i := Finished], cancelled := true)
      else t == s.(tasks := s.tasks[i := Storing])
    case Storing => t == s.(tasks := s.tasks[i := Finished], rows := s.rows[i := job.Row(i)])
    case Finished => false
  }

  ghost predicate Next<R(!new), E(!new)>(job: Job<R, E>, s: State<R, E>, t: State<R, E>) {
    Shape(job, s) && (MainStep(job, s, t) || exists i :: 0 <= i < |s.tasks| && TaskStep(job, s, t, i))
  }

  /** A run: any interleaving of the loop and its goroutines. */
  ghost predicate Run<R(!new), E(!new)>(job: Job<R, E>, ss: seq<State<R, E>>) {
    && job.Valid() && ss != [] && ss[0] == Init(job)
    && forall k :: 0 <= k < |ss| - 1 ==> Next(job, ss[k], ss[k + 1])
  }

  /** The caller has its answer. */
  predicate Complete<R, E>(ss: seq<State<R, E>>) {
    ss != [] && ss[|ss| - 1].main.Returned?
  }

  // ---- what every step keeps ----

  /** How far the loop has started goroutines. */
  function Started<R, E>(s: State<R, E>): nat {
    match s.main
    case Check(i) => i
    case Test(i) => i
    case Spawn(i) => i
    case Select(i) => i + 1
    case _ => |s.tasks|
  }

  /** A slot is empty or holds its own row's conversion, stored by its finished goroutine. */
  ghost predicate SlotsOwn<R, E>(job: Job<R, E>, s: State<R, E>)
    requires Shape(job, s)
  {
    forall i :: 0 <= i < |s.rows| && s.rows[i].Some? ==> s.tasks[i].Finished? && s.rows[i] == job.Row(i)
  }

  ghost predicate TasksStarted<R, E>(s: State<R, E>) {
    && (forall i :: Started(s) <= i < |s.tasks| ==> s.tasks[i].NotStarted?)
    && (!s.main.Return? && !s.main.Returned? ==>
          forall i :: 0 <= i < |s.tasks| && i < Started(s) ==> !s.tasks[i].NotStarted?)
  }

  /** When all rows are good no error ever shows and nothing is stored wrongly or left out. */
  ghost predicate Undisturbed<R, E>(job: Job<R, E>, s: State<R, E>)
    requires Shape(job, s)
  {
    && s.err.None? && !s.cancelled
    && (forall i :: 0 <= i < |s.tasks| && s.tasks[i].Finished? ==> s.rows[i].Some?)
    && (s.main.Return? || s.main.Returned? ==> forall i :: 0 <= i < |s.tasks| ==> s.tasks[i].Finished?)
    && (s.main.Returned? ==> s.main.err.None?)
  }

  ghost predicate Inv<R, E>(job: Job<R, E>, s: State<R, E>) {
    Shape(job, s) && SlotsOwn(job, s) && TasksStarted(s) && (job.AllGood() ==> Undisturbed(job, s))
  }

  lemma InitInv<R, E>(job: Job<R, E>)
    requires job.Valid()
    ensures Inv(job, Init(job))
  {
  }

  lemma NextInv<R(!new), E(!new)>(job: Job<R, E>, s: State<R, E>, t: State<R, E>)
    requires Inv(job, s) && Next(job, s, t)
    ensures Inv(job, t)
  {
    if MainStep(job, s, t) {
      MainInv(job, s, t);
    } else {
      var i :| 0 <= i < |s.tasks| && TaskStep(job, s, t, i);
      TaskInv(job, s, t, i);
    }
  }

  lemma MainInv<R, E>(job: Job<R, E>, s: State<R, E>, t: State<R, E>)
    requires Inv(job, s) && MainStep(job, s, t)
    ensures Inv(job, t)
  {
  }

  lemma TaskInv<R, E>(job: Job<R, E>, s: State<R, E>, t: State<R, E>, i: nat)
    requires Inv(job, s) && i < |s.tasks| && TaskStep(job, s, t, i)
    ensures Inv(job, t)
  {
  }

  lemma {:induction false} RunInv<R(!new), E(!new)>(job: Job<R, E>, ss: seq<State<R, E>>)
    requires Run(job, ss)
    ensures Inv(job, ss[|ss| - 1])
  {
    if |ss| == 1 {
      InitInv(job);
    } else {
      var n := |ss| - 1;
      RunInv(job, ss[..n]);
      assert Next(job, ss[n - 1], ss[n - 1 + 1]);
      NextInv(job, ss[n - 1], ss[n]);
    }
  }

  /** In every reachable state of every interleaving, a slot is empty or its own row's conversion. */
  lemma SlotsHoldOwnRows<R(!new), E(!new)>(job: Job<R, E>, ss: seq<State<R, E>>)
    requires Run(job, ss)
    ensures var s := ss[|ss| - 1];
      && |s.rows| == |job.results|
      && forall i :: 0 <= i < |s.rows| && s.rows[i].Some? ==> job.results[i] == Ok(s.rows[i].value)
  {
    RunInv(job, ss);
  }

  // ---- every run can be completed, and none is endless ----

  function TaskRank(t: Task): nat {
    match t
    case NotStarted => 3
    case Running => 3
    case Converted => 2
    case Storing => 1
    case Finished => 0
  }

  function TaskRanks(ts: seq<Task>): nat {
    if ts == [] then 0 else TaskRanks(ts[..|ts| - 1]) + TaskRank(ts[|ts| - 1])
  }

  function MainRank<E>(m: Main<E>, n: nat): nat {
    match m
    case Check(i) => if i < n then 4 * (n - i) + 3 else 0
    case Test(i) => if i < n then 4 * (n - i) + 2 else 0
    case Spawn(i) => if i < n then 4 * (n - i) + 1 else 0
    case Select(i) => if i < n then 4 * (n - i) else 0
    case Wait => 2
    case Return => 1
    case Returned(_) => 0
  }

  function Rank<R, E>(job: Job<R, E>, s: State<R, E>): nat {
    MainRank(s.main, |job.results|) + TaskRanks(s.tasks)
  }

  lemma {:induction false} RankUpdate(ts: seq<Task>, i: nat, t: Task)
    requires i < |ts|
    ensures TaskRanks(ts[i := t]) == TaskRanks(ts) - TaskRank(ts[i]) + TaskRank(t)
  {
    var n := |ts| - 1;
    if i == n {
      assert ts[i := t][..n] == ts[..n];
    } else {
      assert ts[i := t][..n] == ts[..n][i := t];
      RankUpdate(ts[..n], i, t);
    }
  }

  /** Every step, of the loop or of a goroutine, uses up rank: no run goes on for ever. */
  lemma StepsDecrease<R(!new), E(!new)>(job: Job<R, E>, s: State<R, E>, t: State<R, E>)
    requires Inv(job, s) && Next(job, s, t)
    ensures Rank(job, t) < Rank(job, s)
  {
    if MainStep(job, s, t) {
      LoopDecreases(job, s, t);
    } else {
      var i :| 0 <= i < |s.tasks| && TaskStep(job, s, t, i);
      TaskDecreases(job, s, t, i);
    }
  }

  lemma LoopDecreases<R, E>(job: Job<R, E>, s: State<R, E>, t: State<R, E>)
    requires Inv(job, s) && MainStep(job, s, t)
    ensures Rank(job, t) < Rank(job, s)
  {
    hide Undisturbed, SlotsOwn, TaskRanks;
    if s.main.Spawn? {
      RankUpdate(s.tasks, s.main.i, Running);
    }
  }

  lemma TaskDecreases<R, E>(job: Job<R, E>, s: State<R, E>, t: State<R, E>, i: nat)
    requires Inv(job, s) && i < |s.tasks| && TaskStep(job, s, t, i)
    ensures Rank(job, t) < Rank(job, s)
  {
    hide Undisturbed, SlotsOwn, TasksStarted, TaskRanks, MainRank;
    RankUpdate(s.tasks, i, t.tasks[i]);
  }

  /** Until the loop has returned, something can move. */
  lemma SomeStep<R(!new), E(!new)>(job: Job<R, E>, s: State<R, E>) returns (t: State<R, E>)
    requires Inv(job, s) && !s.main.Returned?
    ensures Next(job, s, t)
  {
    match s.main
    case Check(i) => t := s.(main := Test(i), err := job.checks[i]);
    case Test(i) => t := s.(main := if s.err.Some? then Return else Spawn(i));
    case Spawn(i) => t := s.(main := Select(i), tasks := s.tasks[i := Running]);
    case Select(i) => t := s.(main := if s.cancelled then Return else Loop(i + 1, |job.results|));
    case Return => t := s.(main := Returned(s.err));
    case Wait =>
      if i :| 0 <= i < |s.tasks| && !s.tasks[i].Finished? {
        if s.tasks[i].Running? {
          t := s.(tasks := s.tasks[i := Converted], err := job.Failure(i));
        } else if s.tasks[i].Storing? {
          t := s.(tasks := s.tasks[i := Finished], rows := s.rows[i := job.Row(i)]);
        } else if s.err.Some? {
          t := s.(tasks := s.tasks[i := Finished], cancelled := true);
        } else {
          t := s.(tasks := s.tasks[i := Storing]);
        }
        assert TaskStep(job, s, t, i);
      } else {
        t := s.(main := Return);
      }
  }

  lemma {:induction false} RunCompletes<R(!new), E(!new)>(job: Job<R, E>,
          ss: seq<State<R, E>>) returns (whole: seq<State<R, E>>)
    requires Run(job, ss)
    ensures Run(job, whole) && Complete(whole) && ss <= whole
    decreases Rank(job, ss[|ss| - 1])
  {
    var s := ss[|ss| - 1];
    RunInv(job, ss);
    if s.main.Returned? {
      whole := ss;
    } else {
      var t := SomeStep(job, s);
      StepsDecrease(job, s, t);
      RunSnoc(job, ss, t);
      whole := RunCompletes(job, ss + [t]);
    }
  }

  lemma RunSnoc<R(!new), E(!new)>(job: Job<R, E>, ss: seq<State<R, E>>, t: State<R, E>)
    requires Run(job, ss) && Next(job, ss[|ss| - 1], t)
    ensures Run(job, ss + [t])
  {
    var longer := ss + [t];
    forall k | 0 <= k < |longer| - 1 ensures Next(job, longer[k], longer[k + 1]) {
      if k < |ss| - 1 {
        assert Next(job, ss[k], ss[k + 1]);
      }
    }
  }

  // ---- what a caller may rely on ----

  /** No error, and every row converted. */
  predicate Clean<R, E>(s: State<R, E>) {
    s.main.Returned? && s.main.err.None? && forall i :: 0 <= i < |s.rows| ==> s.rows[i].Some?
  }

  /** Good rows: every complete run returns no error and converts row by row. */
  lemma GoodRowsConvert<R(!new), E(!new)>(job: Job<R, E>, ss: seq<State<R, E>>)
    requires job.AllGood() && Run(job, ss) && Complete(ss)
    ensures var s := ss[|ss| - 1];
      Clean(s) && |s.rows| == |job.results| && forall i :: 0 <= i < |s.rows| ==> job.results[i] == Ok(s.rows[i].value)
  {
    RunInv(job, ss);
  }

  ghost predicate AlwaysClean<R(!new), E(!new)>(job: Job<R, E>) {
    forall ss :: Run(job, ss) && Complete(ss) ==> Clean(ss[|ss| - 1])
  }

  /** The state when the loop has started the first `i` goroutines and none of them has moved. */
  function LoopState<R, E>(job: Job<R, E>, i: nat): State<R, E> {
    var n := |job.results|;
    State(Check(i), seq(n, j => if j < i then Running else NotStarted), None, false, seq(n, j => None))
  }

  /** The loop alone reaches row `i` when the rows before it pass their checks. */
  lemma {:induction false} LoopAlone<R(!new), E(!new)>(job: Job<R, E>, i: nat) returns (ss: seq<State<R, E>>)
    requires job.Valid() && i < |job.results| && forall j :: 0 <= j < i ==> job.checks[j].None?
    ensures Run(job, ss)
    ensures ss[|ss| - 1] == LoopState(job, i)
  {
    ss := [Init(job)];
    if i > 0 {
      ss := LoopAlone(job, i - 1);
      var s := LoopState(job, i - 1);
      var t1 := s.(main := Test(i - 1), err := None);
      var t2 := t1.(main := Spawn(i - 1));
      var t3 := t2.(main := Select(i - 1), tasks := s.tasks[i - 1 := Running]);
      var t4 := t3.(main := Check(i));
      RunSnoc(job, ss, t1);
      RunSnoc(job, ss + [t1], t2);
      RunSnoc(job, ss + [t1] + [t2], t3);
      RunSnoc(job, ss + [t1] + [t2] + [t3], t4);
      ss := ss + [t1] + [t2] + [t3] + [t4];
      assert t4 == LoopState(job, i);
    }
  }

  /** A row that fails its check can end the run with its error. */
  lemma FailedCheckShows<R(!new), E(!new)>(job: Job<R, E>, i: nat) returns (ss: seq<State<R, E>>)
    requires job.Valid() && i < |job.results| && job.checks[i].Some? && forall j :: 0 <= j < i ==> job.checks[j].None?
    ensures Run(job, ss) && Complete(ss) && !Clean(ss[|ss| - 1])
  {
    ss := LoopAlone(job, i);
    var s := LoopState(job, i);
    var t1 := s.(main := Test(i), err := job.checks[i]);
    var t2 := t1.(main := Return);
    var t3 := t2.(main := Returned(t2.err));
    RunSnoc(job, ss, t1);
    RunSnoc(job, ss + [t1], t2);
    RunSnoc(job, ss + [t1] + [t2], t3);
    ss := ss + [t1] + [t2] + [t3];
  }

  lemma {:induction false} FirstFailedCheck<R, E>(job: Job<R, E>, n: nat) returns (i: nat)
    requires job.Valid() && n < |job.results| && job.checks[n].Some?
    ensures i <= n && job.checks[i].Some? && forall j :: 0 <= j < i ==> job.checks[j].None?
  {
    i := n;
    if j :| 0 <= j < n && job.checks[j].Some? {
      i := FirstFailedCheck(job, j);
    }
  }

  /** Every complete run is clean if and only if every row checks and converts. */
  lemma CleanExactly<R(!new), E(!new)>(job: Job<R, E>)
    requires job.Valid()
    ensures AlwaysClean(job) <==> job.AllGood()
  {
    if job.AllGood() {
      forall ss | Run(job, ss) && Complete(ss) ensures Clean(ss[|ss| - 1]) {
        GoodRowsConvert(job, ss);
      }
    } else if i :| 0 <= i < |job.results| && job.results[i].Err? {
      var ss := RunCompletes(job, [Init(job)]);
      RunInv(job, ss);
      assert ss[|ss| - 1].rows[i].None?;
    } else {
      var n :| 0 <= n < |job.results| && job.checks[n].Some?;
      var i := FirstFailedCheck(job, n);
      var ss := FailedCheckShows(job, i);
    }
  }

  // ---- when a nil error can be trusted ----

  /** A step of the loop, appended to a run. */
  lemma Loops<R(!new), E(!new)>(job: Job<R, E>, ss: seq<State<R, E>>,
          t: State<R, E>) returns (tt: seq<State<R, E>>, s: State<R, E>)
    requires Run(job, ss) && Shape(job, ss[|ss| - 1]) && MainStep(job, ss[|ss| - 1], t)
    ensures Run(job, tt) && tt[|tt| - 1] == t == s
  {
    RunSnoc(job, ss, t);
    tt, s := ss + [t], t;
  }

  /** A step of goroutine `i`, appended to a run. */
  lemma Works<R(!new), E(!new)>(job: Job<R, E>, ss: seq<State<R, E>>, i: nat,
          t: State<R, E>) returns (tt: seq<State<R, E>>, s: State<R, E>)
    requires Run(job, ss) && Shape(job, ss[|ss| - 1]) && i < |ss[|ss| - 1].tasks| && TaskStep(job, ss[|ss| - 1], t, i)
    ensures Run(job, tt) && tt[|tt| - 1] == t == s
  {
    RunSnoc(job, ss, t);
    tt, s := ss + [t], t;
  }

  /** The caller gets a nil error. */
  predicate NilError<R, E>(ss: seq<State<R, E>>) {
    Complete(ss) && ss[|ss| - 1].main == Returned(None)
  }

  /** What a caller reads into a nil error: every row checks and converts, and every slot is filled. */
  ghost predicate NilErrorMeansGood<R(!new), E(!new)>(job: Job<R, E>) {
    forall ss :: Run(job, ss) && NilError(ss) ==> job.AllGood() && Clean(ss[|ss| - 1])
  }

  /** A failure that nothing can hide: row 0 fails its check before any goroutine is started, or the only
      goroutine that is ever started fails to convert. */
  predicate FailsAlone<R, E>(job: Job<R, E>)
    requires job.Valid() && |job.results| > 0
  {
    job.checks[0].Some? || (job.results[0].Err? && (|job.results| == 1 || job.checks[1].Some?))
  }

  /** What every run of such a job keeps: only goroutine 0 moves, and what it or the second check writes
      to err stays there until the answer. */
  ghost predicate Loud<R, E>(job: Job<R, E>, s: State<R, E>)
    requires Shape(job, s) && |job.results| > 0
  {
    && (forall i :: 1 <= i < |s.tasks| ==> s.tasks[i].NotStarted?)
    && !s.tasks[0].Storing? && (s.cancelled ==> s.tasks[0].Finished?)
    && (!s.tasks[0].NotStarted? ==> job.checks[0].None?)
    && (s.tasks[0].Converted? || s.tasks[0].Finished? ==> s.err.Some?)
    && match s.main
       case Check(i) => i <= 1 && (i == 0 <==> s.tasks[0].NotStarted?)
       case Test(i) => i <= 1 && (i == 0 <==> s.tasks[0].NotStarted?)
                      && (if i == 0 then s.err == job.checks[0] else s.err.Some?)
       case Spawn(i) => i == 0 && s.tasks[0].NotStarted? && job.checks[0].None?
       case Select(i) => i == 0 && !s.tasks[0].NotStarted?
       case Wait => |job.results| == 1 && !s.tasks[0].NotStarted?
       case Return => s.err.Some?
       case Returned(err) => err.Some?
  }

  lemma LoudStep<R(!new), E(!new)>(job: Job<R, E>, s: State<R, E>, t: State<R, E>)
    requires Inv(job, s) && |job.results| > 0 && FailsAlone(job) && Loud(job, s) && Next(job, s, t)
    ensures Shape(job, t) && Loud(job, t)
  {
    if MainStep(job, s, t) {
      LoudMain(job, s, t);
    } else {
      var i :| 0 <= i < |s.tasks| && TaskStep(job, s, t, i);
      assert i == 0;
      LoudTask(job, s, t);
    }
  }

  lemma LoudMain<R, E>(job: Job<R, E>, s: State<R, E>, t: State<R, E>)
    requires Shape(job, s) && |job.results| > 0 && FailsAlone(job) && Loud(job, s) && MainStep(job, s, t)
    ensures Shape(job, t) && Loud(job, t)
  {
  }

  lemma LoudTask<R, E>(job: Job<R, E>, s: State<R, E>, t: State<R, E>)
    requires Shape(job, s) && |job.results| > 0 && FailsAlone(job) && Loud(job, s) && TaskStep(job, s, t, 0)
    ensures Shape(job, t) && Loud(job, t)
  {
  }

  lemma {:induction false} FailsAloud<R(!new), E(!new)>(job: Job<R, E>, ss: seq<State<R, E>>)
    requires Run(job, ss) && |job.results| > 0 && FailsAlone(job)
    ensures Shape(job, ss[|ss| - 1]) && Loud(job, ss[|ss| - 1])
  {
    if |ss| > 1 {
      var n := |ss| - 1;
      RunInv(job, ss[..n]);
      FailsAloud(job, ss[..n]);
      assert Next(job, ss[n - 1], ss[n - 1 + 1]);
      LoudStep(job, ss[n - 1], ss[n]);
    }
  }

  /** Row 0 fails, cancels the loop, and the next check clears its error. */
  lemma CancelHides<R(!new), E(!new)>(job: Job<R, E>) returns (ss: seq<State<R, E>>)
    requires job.Valid() && |job.results| > 1 && job.results[0].Err? && job.checks[0].None? && job.checks[1].None?
    ensures Run(job, ss) && NilError(ss)
  {
    ss := LoopAlone(job, 1);
    var s := LoopState(job, 1);
    ss, s := Works(job, ss, 0, s.(tasks := s.tasks[0 := Converted], err := job.Failure(0)));
    ss, s := Works(job, ss, 0, s.(tasks := s.tasks[0 := Finished], cancelled := true));
    ss, s := Loops(job, ss, s.(main := Test(1), err := None));
    ss, s := Loops(job, ss, s.(main := Spawn(1)));
    ss, s := Loops(job, ss, s.(main := Select(1), tasks := s.tasks[1 := Running]));
    ss, s := Loops(job, ss, s.(main := Return));
    ss, s := Loops(job, ss, s.(main := Returned(None)));
  }

  /** Row `c` fails its check, and row 0 converts before the error is returned. */
  lemma CheckHides<R(!new), E(!new)>(job: Job<R, E>, c: nat) returns (ss: seq<State<R, E>>)
    requires job.Valid() && 0 < c < |job.results| && job.results[0].Ok?
    requires job.checks[c].Some? && forall j :: 0 <= j < c ==> job.checks[j].None?
    ensures Run(job, ss) && NilError(ss)
  {
    ss := LoopAlone(job, c);
    var s := LoopState(job, c);
    ss, s := Loops(job, ss, s.(main := Test(c), err := job.checks[c]));
    ss, s := Loops(job, ss, s.(main := Return));
    ss, s := Works(job, ss, 0, s.(tasks := s.tasks[0 := Converted], err := None));
    ss, s := Loops(job, ss, s.(main := Returned(None)));
  }

  /** Row `j` fails and cancels the loop, and row 0 converts before the error is returned. */
  lemma FailureHides<R(!new), E(!new)>(job: Job<R, E>, j: nat) returns (ss: seq<State<R, E>>)
    requires job.Valid() && 0 < j < |job.results| && job.results[0].Ok? && job.results[j].Err?
    requires forall k :: 0 <= k <= j ==> job.checks[k].None?
    ensures Run(job, ss) && NilError(ss)
  {
    ss := LoopAlone(job, j);
    var s := LoopState(job, j);
    ss, s := Loops(job, ss, s.(main := Test(j), err := None));
    ss, s := Loops(job, ss, s.(main := Spawn(j)));
    ss, s := Loops(job, ss, s.(main := Select(j), tasks := s.tasks[j := Running]));
    ss, s := Works(job, ss, j, s.(tasks := s.tasks[j := Converted], err := job.Failure(j)));
    ss, s := Works(job, ss, j, s.(tasks := s.tasks[j := Finished], cancelled := true));
    ss, s := Works(job, ss, 0, s.(tasks := s.tasks[0 := Converted], err := None));
    ss, s := Loops(job, ss, s.(main := Return));
    ss, s := Loops(job, ss, s.(main := Returned(None)));
  }

  /** Any other job with a bad row has a run that returns no error. */
  lemma NilErrorRun<R(!new), E(!new)>(job: Job<R, E>) returns (ss: seq<State<R, E>>)
    requires job.Valid() && !job.AllGood() && !FailsAlone(job)
    ensures Run(job, ss) && NilError(ss)
  {
    if job.results[0].Err? {
      ss := CancelHides(job);
    } else if n :| 0 <= n < |job.results| && job.checks[n].Some? {
      var c := FirstFailedCheck(job, n);
      ss := CheckHides(job, c);
    } else {
      var j :| 0 <= j < |job.results| && job.results[j].Err?;
      ss := FailureHides(job, j);
    }
  }

  /** For any mix of failed checks and failed conversions: a nil error means that every row was checked and
      converted if and only if every row is good or the failure stands alone. */
  lemma NilErrorExactly<R(!new), E(!new)>(job: Job<R, E>)
    requires job.Valid()
    ensures NilErrorMeansGood(job) <==> job.AllGood() || FailsAlone(job)
  {
    forall ss | (job.AllGood() || FailsAlone(job)) && Run(job, ss) && NilError(ss)
      ensures job.AllGood() && Clean(ss[|ss| - 1])
    {
      if job.AllGood() {
        GoodRowsConvert(job, ss);
      } else {
        FailsAloud(job, ss);
      }
    }
    if !job.AllGood() && !FailsAlone(job) {
      var ss := NilErrorRun(job);
    }
  }

  /** When every row checks: a nil error means filled slots if and only if all rows convert or there is
      only one. */
  lemma CheckedNilErrorExactly<R(!new), E(!new)>(job: Job<R, E>)
    requires job.Valid() && forall i :: 0 <= i < |job.checks| ==> job.checks[i].None?
    ensures (forall ss :: Run(job, ss) && NilError(ss) ==> Clean(ss[|ss| - 1]))
       <==> job.AllGood() || |job.results| <= 1
  {
    NilErrorExactly(job);
    if !job.AllGood() && |job.results| > 1 {
      var ss := NilErrorRun(job);
      SlotsHoldOwnRows(job, ss);
    }
  }

  /** When every row converts: a failed check never ends in a nil error if and only if there is none or it
      is row 0's. */
  lemma ConvertibleNilErrorExactly<R(!new), E(!new)>(job: Job<R, E>)
    requires job.Valid() && forall i :: 0 <= i < |job.results| ==> job.results[i].Ok?
    ensures (forall ss :: Run(job, ss) && NilError(ss) ==> job.AllGood())
       <==> job.AllGood() || job.checks[0].Some?
  {
    NilErrorExactly(job);
    if !job.AllGood() && job.checks[0].None? {
      var ss := NilErrorRun(job);
    }
  }

  // ---- two lost errors ----

  /** Two rows, the first of which cannot be converted: its error can be overwritten by the second
      goroutine before it is looked at, so the caller gets no error and an empty slot. */
  lemma ErrorCanBeLost<R(!new), E(!new)>(e: E, r: R) returns (ss: seq<State<R, E>>)
    ensures var job := Job([None, None], [Err(e), Ok(r)]);
      Run(job, ss) && Complete(ss) && ss[|ss| - 1].main == Returned(None) && ss[|ss| - 1].rows == [None, Some(r)]
  {
    var job := Job([None, None], [Err(e), Ok(r)]);
    ss := LoopAlone(job, 1);
    var s := LoopState(job, 1);
    assert s.tasks == [Running, NotStarted] && s.rows == [None, None];
    ss, s := Loops(job, ss, s.(main := Test(1)));
    ss, s := Loops(job, ss, s.(main := Spawn(1)));
    ss, s := Loops(job, ss, s.(main := Select(1), tasks := [Running, Running]));
    ss, s := Loops(job, ss, s.(main := Wait));
    ss, s := Works(job, ss, 0, s.(tasks := [Converted, Running], err := Some(e)));
    ss, s := Works(job, ss, 1, s.(tasks := [Converted, Converted], err := None));
    ss, s := Works(job, ss, 0, s.(tasks := [Storing, Converted]));
    ss, s := Works(job, ss, 0, s.(tasks := [Finished, Converted]));
    ss, s := Works(job, ss, 1, s.(tasks := [Finished, Storing]));
    ss, s := Works(job, ss, 1, s.(tasks := [Finished, Finished], rows := [None, Some(r)]));
    ss, s := Loops(job, ss, s.(main := Return));
    ss, s := Loops(job, ss, s.(main := Returned(None)));
  }

  /** Two rows, the second of which fails its check: the first goroutine can clear that error before it
      is looked at, and the row is converted all the same. */
  lemma CheckCanBeMissed<R(!new), E(!new)>(e: E, q: R, r: R) returns (ss: seq<State<R, E>>)
    ensures var job := Job([None, Some(e)], [Ok(q), Ok(r)]);
      Run(job, ss) && Complete(ss) && ss[|ss| - 1].main == Returned(None) && ss[|ss| - 1].rows == [Some(q), Some(r)]
  {
    var job := Job([None, Some(e)], [Ok(q), Ok(r)]);
    ss := LoopAlone(job, 1);
    var s := LoopState(job, 1);
    assert s.tasks == [Running, NotStarted] && s.rows == [None, None];
    ss, s := Loops(job, ss, s.(main := Test(1), err := Some(e)));
    ss, s := Works(job, ss, 0, s.(tasks := [Converted, NotStarted], err := None));
    ss, s := Loops(job, ss, s.(main := Spawn(1)));
    ss, s := Loops(job, ss, s.(main := Select(1), tasks := [Converted, Running]));
    ss, s := Loops(job, ss, s.(main := Wait));
    ss, s := Works(job, ss, 0, s.(tasks := [Storing, Running]));
    ss, s := Works(job, ss, 0, s.(tasks := [Finished, Running], rows := [Some(q), None]));
    ss, s := Works(job, ss, 1, s.(tasks := [Finished, Converted]));
    ss, s := Works(job, ss, 1, s.(tasks := [Finished, Storing]));
    ss, s := Works(job, ss, 1, s.(tasks := [Finished, Finished], rows := [Some(q), Some(r)]));
    ss, s := Loops(job, ss, s.(main := Return));
    ss, s := Loops(job, ss, s.(main := Returned(None)));
  }
}
