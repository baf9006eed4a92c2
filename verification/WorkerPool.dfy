/**
  The indexing run as a state machine: one walker, a counting semaphore, a wait group and any number of
  workers, all interleaved step by step, with cancellation possible between any two steps.
 */
module WorkerPool {
  import Indexing

  // ---------- what the walker does with one callback ----------

  /** One callback of the directory walk, with the answers to the questions the program asks about it. */
  datatype Visit = Visit(
    path: string, walkError: bool, isDir: bool, ext: string, secretExt: bool, secretName: bool,
    supported: bool, statError: bool, size: int, cloudOnly: bool)

  const WORKERS_MAX_CAP := 8

  datatype Kind = Failed | Folder | Secret | Unnamed | Named | Unreadable | Large | Cloud | Indexable

  function Classify(v: Visit): Kind {
    if v.walkError then Failed
    else if v.isDir then Folder
    else if v.secretExt || v.secretName then Secret
    else if !v.supported then (if v.ext == "" then Unnamed else Named)
    else if v.statError then Unreadable
    else if v.size > Indexing.MAX_FILE_SIZE then Large
    else if v.cloudOnly then Cloud
    else Indexable
  }

  /** Which callback ends how: the first question that stops it decides. */
  lemma ClassifyExactly(v: Visit)
    ensures Classify(v) == Failed <==> v.walkError
    ensures Classify(v) == Folder <==> !v.walkError && v.isDir
    ensures Classify(v) == Secret <==> !v.walkError && !v.isDir && (v.secretExt || v.secretName)
    ensures var file := !v.walkError && !v.isDir && !v.secretExt && !v.secretName;
      && (Classify(v) == Unnamed <==> file && !v.supported && v.ext == "")
      && (Classify(v) == Named <==> file && !v.supported && v.ext != "")
      && (Classify(v) == Unreadable <==> file && v.supported && v.statError)
      && (Classify(v) == Large <==> file && v.supported && !v.statError && v.size > 52_428_800)
      && (Classify(v) == Cloud <==> file && v.supported && !v.statError && v.size <= 52_428_800 && v.cloudOnly)
      && (Classify(v) == Indexable <==> file && v.supported && !v.statError && v.size <= 52_428_800 && !v.cloudOnly)
  {
  }

  const SKIPPED := {Secret, Unnamed, Named, Large, Cloud}

  datatype Stats = Stats(indexed: nat, skipped: nat, skippedLarge: nat, errors: nat, skippedExtensions: map<string, nat>)

  const NO_STATS := Stats(0, 0, 0, 0, map[])

  function Tally(s: Stats, v: Visit): Stats {
    match Classify(v)
    case Failed => s.(errors := s.errors + 1)
    case Unreadable => s.(errors := s.errors + 1)
    case Folder => s
    case Indexable => s
    case Named =>
      s.(skipped := s.skipped + 1,
         skippedExtensions := s.skippedExtensions[v.ext := Get(s.skippedExtensions, v.ext) + 1])
    case Large => s.(skipped := s.skipped + 1, skippedLarge := s.skippedLarge + 1)
    case _ => s.(skipped := s.skipped + 1)
  }

  function Get(m: map<string, nat>, e: string): nat {
    if e in m then m[e] else 0
  }

  function AdaptiveWorkers(cpus: nat): (n: nat)
    ensures 1 <= n <= 8
    ensures n == 1 || 2 * n <= cpus
    ensures n == 8 || cpus < 2 * (n + 1)
  {
    var n := cpus / 2;
    if n < 1 then 1 else if n > WORKERS_MAX_CAP then WORKERS_MAX_CAP else n
  }

  // ---------- the state machine ----------

  datatype Phase = Indexing | Counted | Released | Done

  /** A worker goroutine; `ok` is the outcome of its file, meaningful once it is counted. */
  datatype Worker = Worker(file: string, phase: Phase, ok: bool)

  datatype Walker =
    | Walking
    | Acquiring(file: string)  // at the semaphore
    | Adding(file: string)     // before wg.Add
    | Spawning(file: string)   // before go
    | Waiting                  // at wg.Wait
    | Returned

  datatype State = State(
    todo: seq<Visit>, visited: seq<Visit>, walker: Walker, sem: nat, wg: nat, workers: seq<Worker>,
    stats: Stats, cancelled: bool, err: bool)

  datatype Step =
    | Cancel
    | Callback
    | WalkEnd
    | Acquire
    | Add
    | Spawn
    | Finish(i: nat, ok: bool)  // IndexFile returns and the counter is updated
    | Release(i: nat)           // the deferred receive from the semaphore
    | WgDone(i: nat)
    | Return

  function Init(visits: seq<Visit>): State {
    State(visits, [], Walking, 0, 0, [], NO_STATS, false, false)
  }

  predicate At(s: State, i: nat, p: Phase) {
    i < |s.workers| && s.workers[i].phase == p
  }

  predicate Enabled(capacity: nat, s: State, step: Step) {
    match step
    case Cancel => true
    case Callback => s.walker.Walking? && s.todo != []
    case WalkEnd => s.walker.Walking? && s.todo == []
    case Acquire => s.walker.Acquiring? && s.sem < capacity
    case Add => s.walker.Adding?
    case Spawn => s.walker.Spawning?
    case Finish(i, _) => At(s, i, Indexing)
    case Release(i) => At(s, i, Counted) && s.sem > 0
    case WgDone(i) => At(s, i, Released) && s.wg > 0
    case Return => s.walker.Waiting? && s.wg == 0
  }

  function Next(capacity: nat, s: State, step: Step): State
    requires Enabled(capacity, s, step)
  {
    match step
    case Cancel => s.(cancelled := true)
    case Callback =>
      if s.cancelled then s.(walker := Waiting, err := true)
      else
        var v := s.todo[0];
        s.(todo := s.todo[1..], visited := s.visited + [v], stats := Tally(s.stats, v),
           walker := if Classify(v) == Indexable then Acquiring(v.path) else Walking)
    case WalkEnd => s.(walker := Waiting)
    case Acquire => s.(sem := s.sem + 1, walker := Adding(s.walker.file))
    case Add => s.(wg := s.wg + 1, walker := Spawning(s.walker.file))
    case Spawn => s.(workers := s.workers + [Worker(s.walker.file, Indexing, false)], walker := Walking)
    case Finish(i, ok) =>
      s.(workers := s.workers[i := s.workers[i].(phase := Counted, ok := ok)],
         stats := if ok then s.stats.(indexed := s.stats.indexed + 1) else s.stats.(errors := s.stats.errors + 1))
    case Release(i) => s.(workers := s.workers[i := s.workers[i].(phase := Released)], sem := s.sem - 1)
    case WgDone(i) => s.(workers := s.workers[i := s.workers[i].(phase := Done)], wg := s.wg - 1)
    case Return => s.(walker := Returned)
  }

  // ---------- counting ----------

  function Count(vs: seq<Visit>, kinds: set<Kind>): nat {
    if vs == [] then 0
    else Count(vs[..|vs| - 1], kinds) + (if Classify(vs[|vs| - 1]) in kinds then 1 else 0)
  }

  /** How many unsupported files had the extension `e`. */
  function CountExt(vs: seq<Visit>, e: string): nat {
    if vs == [] then 0
    else
      var v := vs[|vs| - 1];
      CountExt(vs[..|vs| - 1], e) + (if Classify(v) == Named && v.ext == e then 1 else 0)
  }

  /** The files to index, in the order the walk met them. */
  function Candidates(vs: seq<Visit>): seq<string> {
    if vs == [] then []
    else
      var v := vs[|vs| - 1];
      Candidates(vs[..|vs| - 1]) + (if Classify(v) == Indexable then [v.path] else [])
  }

  function CountPhases(ws: seq<Worker>, phases: set<Phase>): nat {
    if ws == [] then 0
    else CountPhases(ws[..|ws| - 1], phases) + (if ws[|ws| - 1].phase in phases then 1 else 0)
  }

  /** Workers that have been counted with the outcome `ok`. */
  function CountOutcome(ws: seq<Worker>, ok: bool): nat {
    if ws == [] then 0
    else
      var w := ws[|ws| - 1];
      CountOutcome(ws[..|ws| - 1], ok) + (if w.phase != Indexing && w.ok == ok then 1 else 0)
  }

  function Files(ws: seq<Worker>): seq<string> {
    seq(|ws|, i requires 0 <= i < |ws| => ws[i].file)
  }

  lemma {:induction false} PhasesUpdate(ws: seq<Worker>, i: nat, w: Worker, phases: set<Phase>)
    requires i < |ws|
    ensures CountPhases(ws[i := w], phases) + (if ws[i].phase in phases then 1 else 0)
         == CountPhases(ws, phases) + (if w.phase in phases then 1 else 0)
    decreases |ws|
  {
    var front := ws[..|ws| - 1];
    if i < |front| {
      assert ws[i := w][..|ws| - 1] == front[i := w];
      PhasesUpdate(front, i, w, phases);
    } else {
      assert ws[i := w][..|ws| - 1] == front;
    }
  }

  lemma {:induction false} OutcomeUpdate(ws: seq<Worker>, i: nat, w: Worker, ok: bool)
    requires i < |ws|
    ensures CountOutcome(ws[i := w], ok) + (if ws[i].phase != Indexing && ws[i].ok == ok then 1 else 0)
         == CountOutcome(ws, ok) + (if w.phase != Indexing && w.ok == ok then 1 else 0)
    decreases |ws|
  {
    var front := ws[..|ws| - 1];
    if i < |front| {
      assert ws[i := w][..|ws| - 1] == front[i := w];
      OutcomeUpdate(front, i, w, ok);
    } else {
      assert ws[i := w][..|ws| - 1] == front;
    }
  }

  lemma {:induction false} SomeInPhases(ws: seq<Worker>, phases: set<Phase>) returns (i: nat)
    requires CountPhases(ws, phases) > 0
    ensures i < |ws| && ws[i].phase in phases
    decreases |ws|
  {
    if ws[|ws| - 1].phase in phases {
      i := |ws| - 1;
    } else {
      i := SomeInPhases(ws[..|ws| - 1], phases);
    }
  }

  lemma {:induction false} PhasesMonotone(ws: seq<Worker>, a: set<Phase>, b: set<Phase>)
    requires a <= b
    ensures CountPhases(ws, a) <= CountPhases(ws, b)
    decreases |ws|
  {
    if ws == [] {
    } else {
      PhasesMonotone(ws[..|ws| - 1], a, b);
    }
  }

  lemma {:induction false} NoneLeft(ws: seq<Worker>)
    requires CountPhases(ws, RUNNING) == 0
    ensures forall i :: 0 <= i < |ws| ==> ws[i].phase == Done
    ensures CountOutcome(ws, true) + CountOutcome(ws, false) == |ws|
    decreases |ws|
  {
    if ws == [] {
    } else {
      NoneLeft(ws[..|ws| - 1]);
      assert forall i :: 0 <= i < |ws| - 1 ==> ws[..|ws| - 1][i] == ws[i];
    }
  }

  // ---------- the invariant ----------

  const HOLDING := {Indexing, Counted}
  const RUNNING := {Indexing, Counted, Released}

  function Pending(w: Walker): seq<string> {
    match w
    case Acquiring(f) => [f]
    case Adding(f) => [f]
    case Spawning(f) => [f]
    case _ => []
  }

  ghost predicate Synchronised(capacity: nat, s: State) {
    && s.sem == CountPhases(s.workers, HOLDING) + (if s.walker.Adding? || s.walker.Spawning? then 1 else 0)
    && s.wg == CountPhases(s.workers, RUNNING) + (if s.walker.Spawning? then 1 else 0)
    && s.sem <= capacity
    && (s.walker.Returned? ==> s.wg == 0)
  }

  /** The counters say exactly what was visited and how the workers fared. */
  ghost predicate Accounted(s: State) {
    && s.stats.indexed == CountOutcome(s.workers, true)
    && s.stats.errors == Count(s.visited, {Failed, Unreadable}) + CountOutcome(s.workers, false)
    && s.stats.skipped == Count(s.visited, SKIPPED)
    && s.stats.skippedLarge == Count(s.visited, {Large})
    && (forall e :: Get(s.stats.skippedExtensions, e) == CountExt(s.visited, e))
    && Candidates(s.visited) == Files(s.workers) + Pending(s.walker)
  }

  ghost predicate Walked(visits: seq<Visit>, s: State) {
    && s.visited + s.todo == visits
    && (s.err ==> s.cancelled)
    && ((s.walker.Waiting? || s.walker.Returned?) && !s.err ==> s.todo == [])
  }

  ghost predicate Inv(capacity: nat, visits: seq<Visit>, s: State) {
    Synchronised(capacity, s) && Accounted(s) && Walked(visits, s)
  }

  lemma StepSynchronised(capacity: nat, s: State, step: Step)
    requires Synchronised(capacity, s) && Enabled(capacity, s, step)
    ensures Synchronised(capacity, Next(capacity, s, step))
  {
    match step
    case Spawn =>
      assert (s.workers + [Worker(s.walker.file, Indexing, false)])[..|s.workers|] == s.workers;
    case Finish(i, ok) =>
      var w := s.workers[i].(phase := Counted, ok := ok);
      PhasesUpdate(s.workers, i, w, HOLDING);
      PhasesUpdate(s.workers, i, w, RUNNING);
    case Release(i) =>
      var w := s.workers[i].(phase := Released);
      PhasesUpdate(s.workers, i, w, HOLDING);
      PhasesUpdate(s.workers, i, w, RUNNING);
    case WgDone(i) =>
      var w := s.workers[i].(phase := Done);
      PhasesUpdate(s.workers, i, w, HOLDING);
      PhasesUpdate(s.workers, i, w, RUNNING);
    case _ =>
  }

  lemma StepAccounted(capacity: nat, s: State, step: Step)
    requires Accounted(s) && Enabled(capacity, s, step)
    ensures Accounted(Next(capacity, s, step))
  {
    hide Count, CountExt, CountOutcome, Candidates, Files, Tally;
    match step
    case Callback =>
      if !s.cancelled { CallbackAccounted(s, s.todo[0]); }
    case Spawn =>
      NewWorker(s.workers, s.walker.file);
    case Finish(i, ok) =>
      WorkerAccounted(s, i, s.workers[i].(phase := Counted, ok := ok));
    case Release(i) =>
      WorkerAccounted(s, i, s.workers[i].(phase := Released));
    case WgDone(i) =>
      WorkerAccounted(s, i, s.workers[i].(phase := Done));
    case _ =>
  }

  lemma NewWorker(ws: seq<Worker>, file: string)
    ensures Files(ws + [Worker(file, Indexing, false)]) == Files(ws) + [file]
    ensures forall ok :: CountOutcome(ws + [Worker(file, Indexing, false)], ok) == CountOutcome(ws, ok)
  {
    assert (ws + [Worker(file, Indexing, false)])[..|ws|] == ws;
  }

  /** A worker moves on; only the step out of Indexing is counted. */
  lemma WorkerAccounted(s: State, i: nat, w: Worker)
    requires Accounted(s) && i < |s.workers| && s.workers[i].file == w.file && w.phase != Indexing
    requires s.workers[i].phase != Indexing ==> w.ok == s.workers[i].ok
    ensures var counted := if s.workers[i].phase == Indexing then 1 else 0;
      Files(s.workers[i := w]) == Files(s.workers)
      && CountOutcome(s.workers[i := w], true) == s.stats.indexed + (if w.ok then counted else 0)
      && Count(s.visited, {Failed, Unreadable}) + CountOutcome(s.workers[i := w], false)
      == s.stats.errors + (if w.ok then 0 else counted)
  {
    OutcomeUpdate(s.workers, i, w, true);
    OutcomeUpdate(s.workers, i, w, false);
  }

  lemma CallbackAccounted(s: State, v: Visit)
    requires Accounted(s) && s.walker.Walking?
    ensures Accounted(s.(visited := s.visited + [v], stats := Tally(s.stats, v),
                         walker := if Classify(v) == Indexable then Acquiring(v.path) else Walking))
  {
    var vs := s.visited + [v];
    assert vs[..|s.visited|] == s.visited;
    assert Candidates(vs) == Candidates(s.visited) + (if Classify(v) == Indexable then [v.path] else []);
    forall e
      ensures Get(Tally(s.stats, v).skippedExtensions, e) == CountExt(vs, e)
    {
      assert Get(s.stats.skippedExtensions, e) == CountExt(s.visited, e);
    }
  }

  lemma StepWalked(capacity: nat, visits: seq<Visit>, s: State, step: Step)
    requires Walked(visits, s) && Enabled(capacity, s, step)
    ensures Walked(visits, Next(capacity, s, step))
  {
    hide Tally, Classify;
    if step.Callback? && !s.cancelled {
      assert s.visited + s.todo == s.visited + [s.todo[0]] + s.todo[1..];
    }
  }

  lemma StepInv(capacity: nat, visits: seq<Visit>, s: State, step: Step)
    requires Inv(capacity, visits, s) && Enabled(capacity, s, step)
    ensures Inv(capacity, visits, Next(capacity, s, step))
  {
    hide Synchronised, Accounted, Walked, Next, Enabled;
    StepSynchronised(capacity, s, step);
    StepAccounted(capacity, s, step);
    StepWalked(capacity, visits, s, step);
  }

  // ---------- runs ----------

  predicate IsRun(capacity: nat, s: State, steps: seq<Step>)
    decreases |steps|
  {
    steps != [] ==> Enabled(capacity, s, steps[0]) && IsRun(capacity, Next(capacity, s, steps[0]), steps[1..])
  }

  function Run(capacity: nat, s: State, steps: seq<Step>): State
    requires IsRun(capacity, s, steps)
    decreases |steps|
  {
    if steps == [] then s else Run(capacity, Next(capacity, s, steps[0]), steps[1..])
  }

  lemma {:induction false} RunInv(capacity: nat, visits: seq<Visit>, s: State, steps: seq<Step>)
    requires Inv(capacity, visits, s) && IsRun(capacity, s, steps)
    ensures Inv(capacity, visits, Run(capacity, s, steps))
    decreases |steps|
  {
    if steps == [] {
    } else {
      StepInv(capacity, visits, s, steps[0]);
      RunInv(capacity, visits, Next(capacity, s, steps[0]), steps[1..]);
    }
  }

  lemma InitInv(capacity: nat, visits: seq<Visit>)
    ensures Inv(capacity, visits, Init(visits))
  {
  }

  /** Whatever the interleaving and the cancellation: never more files at once than the pool has workers, at most 8. */
  lemma BoundedParallelism(cpus: nat, visits: seq<Visit>, steps: seq<Step>)
    requires IsRun(AdaptiveWorkers(cpus), Init(visits), steps)
    ensures CountPhases(Run(AdaptiveWorkers(cpus), Init(visits), steps).workers, {Indexing})
         <= AdaptiveWorkers(cpus) <= 8
  {
    var n := AdaptiveWorkers(cpus);
    InitInv(n, visits);
    hide Accounted, Walked;
    RunInv(n, visits, Init(visits), steps);
    PhasesMonotone(Run(n, Init(visits), steps).workers, {Indexing}, HOLDING);
  }

  /** Nothing ever deadlocks: until Run returns, some step other than a cancellation can be taken. */
  lemma Progress(capacity: nat, visits: seq<Visit>, s: State) returns (step: Step)
    requires capacity > 0 && Inv(capacity, visits, s) && !s.walker.Returned?
    ensures !step.Cancel? && Enabled(capacity, s, step)
  {
    match s.walker
    case Walking => step := if s.todo == [] then WalkEnd else Callback;
    case Adding(_) => step := Add;
    case Spawning(_) => step := Spawn;
    case Acquiring(_) =>
      if s.sem < capacity {
        step := Acquire;
      } else {
        var i := SomeInPhases(s.workers, HOLDING);
        step := if s.workers[i].phase == Indexing then Finish(i, true) else Release(i);
      }
    case Waiting =>
      if s.wg == 0 {
        step := Return;
      } else {
        var i := SomeInPhases(s.workers, RUNNING);
        if s.workers[i].phase == Counted { HoldersHold(s.workers, i); }
        step := match s.workers[i].phase
          case Indexing => Finish(i, true)
          case Counted => Release(i)
          case _ => WgDone(i);
      }
  }

  lemma {:induction false} HoldersHold(ws: seq<Worker>, i: nat)
    requires i < |ws| && ws[i].phase in HOLDING
    ensures CountPhases(ws, HOLDING) > 0
    decreases |ws|
  {
    if i == |ws| - 1 {
    } else {
      HoldersHold(ws[..|ws| - 1], i);
    }
  }

  // ---------- cancellation ----------

  /** A callback: after a cancellation it ends the walk with an error, otherwise it visits the next path. */
  lemma CallbackExactly(capacity: nat, s: State)
    requires Enabled(capacity, s, Callback)
    ensures var t, v := Next(capacity, s, Callback), s.todo[0];
      if s.cancelled then t == s.(walker := Waiting, err := true)
      else
        && t.visited == s.visited + [v] && t.todo == s.todo[1..] && t.stats == Tally(s.stats, v)
        && t.walker == (if Classify(v) == Indexable then Acquiring(v.path) else Walking)
        && t.workers == s.workers && t.sem == s.sem && t.wg == s.wg && !t.cancelled && t.err == s.err
  {
  }

  /** After a cancellation nothing more is visited, and at most the file the walker already holds is started. */
  lemma {:induction false} CancelStopsTheWalk(capacity: nat, s: State, steps: seq<Step>)
    requires IsRun(capacity, s, steps) && s.cancelled
    ensures var t := Run(capacity, s, steps);
      && t.cancelled && t.visited == s.visited
      && |t.workers| + |Pending(t.walker)| == |s.workers| + |Pending(s.walker)|
      && |Pending(s.walker)| <= 1
    decreases |steps|
  {
    if steps == [] {
    } else {
      CancelStopsTheWalk(capacity, Next(capacity, s, steps[0]), steps[1..]);
    }
  }

  // ---------- termination ----------

  function Remaining(ws: seq<Worker>): nat {
    if ws == [] then 0
    else Remaining(ws[..|ws| - 1]) + (match ws[|ws| - 1].phase
                                      case Indexing => 3
                                      case Counted => 2
                                      case Released => 1
                                      case Done => 0)
  }

  function Distance(s: State): nat {
    7 * |s.todo| + Remaining(s.workers) +
    (match s.walker
     case Walking => 2
     case Acquiring(_) => 8
     case Adding(_) => 7
     case Spawning(_) => 6
     case Waiting => 1
     case Returned => 0)
  }

  lemma {:induction false} RemainingUpdate(ws: seq<Worker>, i: nat, w: Worker)
    requires i < |ws|
    requires (ws[i].phase, w.phase) in {(Indexing, Counted), (Counted, Released), (Released, Done)}
    ensures Remaining(ws[i := w]) + 1 == Remaining(ws)
    decreases |ws|
  {
    var front := ws[..|ws| - 1];
    if i < |front| {
      assert ws[i := w][..|ws| - 1] == front[i := w];
      RemainingUpdate(front, i, w);
    } else {
      assert ws[i := w][..|ws| - 1] == front;
    }
  }

  /** Every step but a cancellation brings the run closer to its end. */
  lemma StepApproaches(capacity: nat, s: State, step: Step)
    requires Enabled(capacity, s, step) && !step.Cancel?
    ensures Distance(Next(capacity, s, step)) < Distance(s)
  {
    match step
    case Spawn =>
      assert (s.workers + [Worker(s.walker.file, Indexing, false)])[..|s.workers|] == s.workers;
    case Finish(i, ok) => RemainingUpdate(s.workers, i, s.workers[i].(phase := Counted, ok := ok));
    case Release(i) => RemainingUpdate(s.workers, i, s.workers[i].(phase := Released));
    case WgDone(i) => RemainingUpdate(s.workers, i, s.workers[i].(phase := Done));
    case _ =>
  }

  function Moves(steps: seq<Step>): nat {
    if steps == [] then 0 else (if steps[0].Cancel? then 0 else 1) + Moves(steps[1..])
  }

  /** With Progress, this makes Run return in every fair schedule: no run over `visits` takes more steps than this. */
  lemma {:induction false} RunsAreShort(capacity: nat, s: State, steps: seq<Step>)
    requires IsRun(capacity, s, steps)
    ensures Moves(steps) + Distance(Run(capacity, s, steps)) <= Distance(s)
    decreases |steps|
  {
    if steps == [] {
    } else {
      var t := Next(capacity, s, steps[0]);
      if !steps[0].Cancel? { StepApproaches(capacity, s, steps[0]); }
      RunsAreShort(capacity, t, steps[1..]);
    }
  }

  lemma RunTerminates(capacity: nat, visits: seq<Visit>, steps: seq<Step>)
    requires IsRun(capacity, Init(visits), steps)
    ensures Moves(steps) <= 7 * |visits| + 2
  {
    RunsAreShort(capacity, Init(visits), steps);
  }

  // ---------- the statistics Run returns ----------

  /** The sum of a map's values. */
  ghost function Sum(m: map<string, nat>): nat {
    if m == map[] then 0
    else
      var e :| e in m;
      m[e] + Sum(m - {e})
  }

  /** The sum does not depend on which entry is taken out first. */
  lemma {:induction false} SumTake(m: map<string, nat>, e: string)
    requires e in m
    ensures Sum(m) == m[e] + Sum(m - {e})
    decreases |m|
  {
    var f :| f in m && Sum(m) == m[f] + Sum(m - {f});
    if f == e {
    } else {
      SumTake(m - {f}, e);
      SumTake(m - {e}, f);
      assert m - {f} - {e} == m - {e} - {f};
    }
  }

  lemma {:induction false} ExtensionsSum(vs: seq<Visit>, m: map<string, nat>)
    requires forall e :: Get(m, e) == CountExt(vs, e)
    ensures Sum(m) == Count(vs, {Named})
    decreases |vs|
  {
    if vs == [] {
      SumOfZeros(m);
    } else {
      var front, v := vs[..|vs| - 1], vs[|vs| - 1];
      if Classify(v) == Named {
        assert Get(m, v.ext) == CountExt(vs, v.ext) > 0;
        var m' := m[v.ext := m[v.ext] - 1];
        forall e ensures Get(m', e) == CountExt(front, e) {
          assert Get(m, e) == CountExt(vs, e);
        }
        ExtensionsSum(front, m');
        SumTake(m, v.ext);
        SumTake(m', v.ext);
        assert m - {v.ext} == m' - {v.ext};
      } else {
        forall e ensures Get(m, e) == CountExt(front, e) {
          assert Get(m, e) == CountExt(vs, e);
        }
        ExtensionsSum(front, m);
      }
    }
  }

  lemma {:induction false} SumOfZeros(m: map<string, nat>)
    requires forall e :: Get(m, e) == 0
    ensures Sum(m) == 0
    decreases |m|
  {
    if m == map[] {
    } else {
      var e :| e in m;
      SumTake(m, e);
      forall f ensures Get(m - {e}, f) == 0 { assert Get(m, f) == 0; }
      assert Get(m, e) == 0;
      SumOfZeros(m - {e});
    }
  }

  lemma {:induction false} CountSplits(vs: seq<Visit>)
    ensures Count(vs, SKIPPED) == Count(vs, {Secret, Unnamed, Cloud}) + Count(vs, {Named}) + Count(vs, {Large})
    ensures Count(vs, {Failed, Unreadable}) + Count(vs, SKIPPED) + |Candidates(vs)| == |vs| - Count(vs, {Folder})
    decreases |vs|
  {
    if vs == [] {
    } else {
      CountSplits(vs[..|vs| - 1]);
    }
  }

  // ---------- the counters as numbers of things ----------

  /** The callbacks of these kinds. */
  function Those(vs: seq<Visit>, kinds: set<Kind>): set<int> {
    set i | 0 <= i < |vs| && Classify(vs[i]) in kinds
  }

  /** The unsupported files with this extension. */
  function Unsupported(vs: seq<Visit>, e: string): set<int> {
    set i | 0 <= i < |vs| && Classify(vs[i]) == Named && vs[i].ext == e
  }

  lemma ThoseGrow(vs: seq<Visit>, kinds: set<Kind>)
    requires vs != []
    ensures var n := |vs| - 1;
      Those(vs, kinds) == Those(vs[..n], kinds) + (if Classify(vs[n]) in kinds then {n} else {}) && n !in Those(vs[..n], kinds)
  {
    hide Classify;
  }

  lemma {:induction false} CountIsSize(vs: seq<Visit>, kinds: set<Kind>)
    ensures Count(vs, kinds) == |Those(vs, kinds)|
    decreases |vs|
  {
    if vs == [] {
      assert Those(vs, kinds) == {};
    } else {
      ThoseGrow(vs, kinds);
      hide Classify, Those;
      CountIsSize(vs[..|vs| - 1], kinds);
    }
  }

  lemma UnsupportedGrow(vs: seq<Visit>, e: string)
    requires vs != []
    ensures var n := |vs| - 1;
      Unsupported(vs, e) == Unsupported(vs[..n], e) + (if Classify(vs[n]) == Named && vs[n].ext == e then {n} else {})
      && n !in Unsupported(vs[..n], e)
  {
    hide Classify;
  }

  lemma {:induction false} CountExtIsSize(vs: seq<Visit>, e: string)
    ensures CountExt(vs, e) == |Unsupported(vs, e)|
    decreases |vs|
  {
    if vs == [] {
      assert Unsupported(vs, e) == {};
    } else {
      UnsupportedGrow(vs, e);
      hide Classify, Unsupported;
      CountExtIsSize(vs[..|vs| - 1], e);
    }
  }

  /** The k-th candidate is the path of the k-th indexable file. */
  lemma {:induction false} CandidatesAt(vs: seq<Visit>, i: nat)
    requires i < |vs| && Classify(vs[i]) == Indexable
    ensures |Candidates(vs)| == Count(vs, {Indexable})
    ensures Count(vs[..i], {Indexable}) < |Candidates(vs)| && Candidates(vs)[Count(vs[..i], {Indexable})] == vs[i].path
    decreases |vs|
  {
    var front := vs[..|vs| - 1];
    CandidatesCount(vs);
    CandidatesCount(front);
    hide Classify;
    if i == |front| {
    } else {
      CandidatesAt(front, i);
      assert front[..i] == vs[..i];
    }
  }

  lemma {:induction false} CandidatesCount(vs: seq<Visit>)
    ensures |Candidates(vs)| == Count(vs, {Indexable})
    decreases |vs|
  {
    if vs == [] {
    } else {
      CandidatesCount(vs[..|vs| - 1]);
    }
  }

  /** How many calls of IndexFile have returned with this outcome. */
  function Finishes(steps: seq<Step>, ok: bool): nat {
    if steps == [] then 0 else (if steps[0].Finish? && steps[0].ok == ok then 1 else 0) + Finishes(steps[1..], ok)
  }

  lemma {:induction false} FinishesAreCounted(capacity: nat, s: State, steps: seq<Step>)
    requires IsRun(capacity, s, steps)
    ensures Run(capacity, s, steps).stats.indexed == s.stats.indexed + Finishes(steps, true)
    decreases |steps|
  {
    if steps == [] {
    } else {
      FinishesAreCounted(capacity, Next(capacity, s, steps[0]), steps[1..]);
    }
  }

  lemma {:induction false} FinishedWorkers(capacity: nat, s: State, steps: seq<Step>)
    requires IsRun(capacity, s, steps)
    ensures CountOutcome(Run(capacity, s, steps).workers, false) == CountOutcome(s.workers, false) + Finishes(steps, false)
    decreases |steps|
  {
    if steps == [] {
    } else {
      var t := Next(capacity, s, steps[0]);
      FinishedWorkers(capacity, t, steps[1..]);
      hide CountOutcome, Finishes;
      assert Finishes(steps, false) == (if steps[0].Finish? && !steps[0].ok then 1 else 0) + Finishes(steps[1..], false)
        by { FinishesUnfold(steps); }
      match steps[0] {
        case Spawn => NewWorker(s.workers, s.walker.file);
        case Finish(i, ok) => OutcomeUpdate(s.workers, i, s.workers[i].(phase := Counted, ok := ok), false);
        case Release(i) => OutcomeUpdate(s.workers, i, s.workers[i].(phase := Released), false);
        case WgDone(i) => OutcomeUpdate(s.workers, i, s.workers[i].(phase := Done), false);
        case _ =>
      }
    }
  }

  lemma FinishesUnfold(steps: seq<Step>)
    requires steps != []
    ensures forall ok :: Finishes(steps, ok) == (if steps[0].Finish? && steps[0].ok == ok then 1 else 0) + Finishes(steps[1..], ok)
  {
  }

  /** The skip counters and the errors of the walk are the numbers of what they are said to count. */
  ghost predicate CountersOf(s: State, failed: nat) {
    && s.stats.errors == failed + |Those(s.visited, {Failed, Unreadable})|
    && s.stats.skipped == |Those(s.visited, {Secret, Unnamed, Named, Large, Cloud})|
    && s.stats.skippedLarge == |Those(s.visited, {Large})|
    && forall e :: Get(s.stats.skippedExtensions, e) == |Unsupported(s.visited, e)|
  }

  lemma AccountedCounters(s: State)
    requires Accounted(s)
    ensures CountersOf(s, CountOutcome(s.workers, false))
  {
    hide Classify, Count, CountExt, CountOutcome, Those, Unsupported, Candidates, Files, Get;
    CountIsSize(s.visited, {Failed, Unreadable});
    CountIsSize(s.visited, {Secret, Unnamed, Named, Large, Cloud});
    CountIsSize(s.visited, {Large});
    forall e ensures Get(s.stats.skippedExtensions, e) == |Unsupported(s.visited, e)| { CountExtIsSize(s.visited, e); }
  }

  /**
    Each counter that Run returns is the number of what it is said to count: the calls of IndexFile that succeeded; those
    that failed and the callbacks that did; the skipped files in all, those that were too large, and those of each
    unsupported extension.
   */
  lemma CountersExactly(capacity: nat, visits: seq<Visit>, steps: seq<Step>)
    requires IsRun(capacity, Init(visits), steps)
    ensures Run(capacity, Init(visits), steps).stats.indexed == Finishes(steps, true)
    ensures CountersOf(Run(capacity, Init(visits), steps), Finishes(steps, false))
  {
    NoWorkersYet(visits);
    hide Init, Accounted, Synchronised, Walked, CountersOf, CountOutcome, Finishes, Run, IsRun;
    InitInv(capacity, visits);
    RunInv(capacity, visits, Init(visits), steps);
    FinishesAreCounted(capacity, Init(visits), steps);
    FinishedWorkers(capacity, Init(visits), steps);
    AccountedCounters(Run(capacity, Init(visits), steps));
  }

  lemma NoWorkersYet(visits: seq<Visit>)
    ensures CountOutcome(Init(visits).workers, false) == 0 && Init(visits).stats == NO_STATS
  {
  }

  ghost predicate Ledger(visits: seq<Visit>, s: State) {
    && (forall i :: 0 <= i < |s.workers| ==> s.workers[i].phase == Done)
    && Files(s.workers) == Candidates(s.visited)
    && s.stats.indexed + s.stats.skipped + s.stats.errors == |s.visited| - Count(s.visited, {Folder})
    && s.stats.skipped
    == s.stats.skippedLarge + Sum(s.stats.skippedExtensions) + Count(s.visited, {Secret, Unnamed, Cloud})
    && s.visited <= visits
    && (if s.err then s.cancelled else s.visited == visits)
  }

  lemma LedgerHolds(capacity: nat, visits: seq<Visit>, s: State)
    requires Inv(capacity, visits, s) && s.walker.Returned?
    ensures Ledger(visits, s)
  {
    NoneLeft(s.workers);
    CountSplits(s.visited);
    ExtensionsSum(s.visited, s.stats.skippedExtensions);
    assert Files(s.workers) + Pending(s.walker) == Files(s.workers);
    hide Count, CountExt, CountOutcome, CountPhases;
    assert visits[..|s.visited|] == s.visited;
  }

  /**
    What Run reports when it returns: every worker has finished; the files handed to workers are the indexable
    files visited, each once, in order; indexed, skipped and errors add up to the callbacks that were not
    directories; and the skip counters account for each other exactly. Without an error the whole walk was visited.
   */
  lemma ReturnedStats(capacity: nat, visits: seq<Visit>, steps: seq<Step>)
    requires IsRun(capacity, Init(visits), steps)
    requires Run(capacity, Init(visits), steps).walker.Returned?
    ensures Ledger(visits, Run(capacity, Init(visits), steps))
  {
    InitInv(capacity, visits);
    hide Inv, Ledger;
    RunInv(capacity, visits, Init(visits), steps);
    LedgerHolds(capacity, visits, Run(capacity, Init(visits), steps));
  }
}
