/** The background embedding loop over a fixed list of paths: which paths are attempted, how often, and when it rests. */
module Embedding {
  import Sets

  const MAX_VECTORS := 50_000
  const MAX_ATTEMPTS := 3

  /** How one attempt ends. Only the first three are counted as failures. */
  datatype Outcome = Unreadable | EmptyFile | EmbedFails | Stored | StoreFails

  predicate Counted(o: Outcome) {
    o.Unreadable? || o.EmptyFile? || o.EmbedFails?
  }

  /** The stored paths, most recently stored first, and the failure counts. */
  datatype Progress = Progress(rows: seq<string>, failed: map<string, nat>)

  function Failures(s: Progress, path: string): nat {
    if path in s.failed then s.failed[path] else 0
  }

  /** The paths whose vectors are loaded: the most recent ones, up to the cap. */
  function Loaded(rows: seq<string>): set<string> {
    set i | 0 <= i < |rows| && i < MAX_VECTORS :: rows[i]
  }

  predicate Due(s: Progress, path: string) {
    path !in Loaded(s.rows) && Failures(s, path) < MAX_ATTEMPTS
  }

  function Todo(s: Progress, paths: seq<string>): seq<string> {
    if paths == [] then []
    else (if Due(s, paths[0]) then [paths[0]] else []) + Todo(s, paths[1..])
  }

  function WithoutPath(rows: seq<string>, path: string): (r: seq<string>)
    ensures |r| <= |rows|
    ensures forall x :: x in r <==> x in rows && x != path
  {
    if rows == [] then []
    else if rows[0] == path then WithoutPath(rows[1..], path)
    else [rows[0]] + WithoutPath(rows[1..], path)
  }

  function Attempted(s: Progress, path: string, o: Outcome): Progress {
    if Counted(o) then s.(failed := s.failed[path := Failures(s, path) + 1])
    else if o.Stored? then s.(rows := [path] + WithoutPath(s.rows, path))
    else s
  }

  /** The world's answers: how the attempt of a path in a pass ends. */
  type World = (nat, string) -> Outcome

  function Pass(s: Progress, todo: seq<string>, world: World, n: nat): Progress
    decreases |todo|
  {
    if todo == [] then s else Pass(Attempted(s, todo[0], world(n, todo[0])), todo[1..], world, n)
  }

  /** A run of the loop: the table it finds, the paths it is given, and how the world answers. */
  datatype Scenario = Scenario(rows: seq<string>, paths: seq<string>, world: World)

  /** The state before pass n. */
  function Before(c: Scenario, n: nat): Progress
    decreases n, 0
  {
    if n == 0 then Progress(c.rows, map[])
    else Pass(Before(c, n - 1), TodoAt(c, n - 1), c.world, n - 1)
  }

  /** What pass n attempts; the loop rests when that is nothing. */
  function TodoAt(c: Scenario, n: nat): seq<string>
    decreases n, 1
  {
    Todo(Before(c, n), c.paths)
  }

  predicate Distinct(s: seq<string>) {
    forall i, j :: 0 <= i < j < |s| ==> s[i] != s[j]
  }

  function Members(s: seq<string>): set<string> {
    set x | x in s
  }

  /** How many of the first n passes attempt the path. */
  function Attempts(c: Scenario, path: string, n: nat): nat {
    if n == 0 then 0 else Attempts(c, path, n - 1) + if path in TodoAt(c, n - 1) then 1 else 0
  }

  /** How many of the first n passes attempt the path with this outcome. */
  function Times(c: Scenario, path: string, o: Outcome, n: nat): nat {
    if n == 0 then 0
    else Times(c, path, o, n - 1) + if path in TodoAt(c, n - 1) && c.world(n - 1, path) == o then 1 else 0
  }

  function TotalAttempts(c: Scenario, paths: seq<string>, n: nat): nat
    decreases |paths|
  {
    if paths == [] then 0 else Attempts(c, paths[0], n) + TotalAttempts(c, paths[1..], n)
  }

  /** The failed stores of all these paths in the first n passes. */
  function FailedStores(c: Scenario, paths: seq<string>, n: nat): nat
    decreases |paths|
  {
    if paths == [] then 0 else Times(c, paths[0], StoreFails, n) + FailedStores(c, paths[1..], n)
  }

  ghost predicate StoresWork(world: World) {
    forall n, p :: world(n, p) != StoreFails
  }

  /** Stores fail no more than b times, ever. */
  ghost predicate FailuresCease(c: Scenario, b: nat) {
    forall n :: FailedStores(c, c.paths, n) <= b
  }

  /** The listed paths whose vectors are not loaded at the start. */
  function Missing(rows: seq<string>, paths: seq<string>): set<string> {
    set p | p in paths && p !in Loaded(rows)
  }

  /** Storing all missing paths pushes no listed path, nor any of themselves, below the cap. */
  ghost predicate Fits(rows: seq<string>, paths: seq<string>) {
    && |Missing(rows, paths)| <= 50_000
    && forall i :: 0 <= i < |rows| && i < 50_000 && rows[i] in paths ==> i + |Missing(rows, paths)| < 50_000
  }

  /** Each of the first n passes has something to do. */
  ghost predicate WorksUntil(c: Scenario, n: nat) {
    forall k :: 0 <= k < n ==> TodoAt(c, k) != []
  }

  class BackgroundIndexer {
    var failed: map<string, nat>
    var rows: seq<string>

    constructor (rows: seq<string>)
      ensures State() == Progress(rows, map[])
    {
      this.failed, this.rows := map[], rows;
    }

    ghost function State(): Progress
      reads this
    {
      Progress(rows, failed)
    }

    method Attempt(path: string, o: Outcome)
      modifies this
      ensures State() == Attempted(old(State()), path, o)
    {
      if Counted(o) {
        var count := if path in failed then failed[path] else 0;
        failed := failed[path := count + 1];
        return;
      }
      if o.Stored? {
        rows := [path] + WithoutPath(rows, path);
      }
    }

    method Collect(paths: seq<string>) returns (todo: seq<string>)
      ensures todo == Todo(State(), paths)
    {
      var existing := Loaded(rows);
      todo := [];
      for i := 0 to |paths|
        invariant todo + Todo(State(), paths[i..]) == Todo(State(), paths)
      {
        var count := if paths[i] in failed then failed[paths[i]] else 0;
        if paths[i] !in existing && count < MAX_ATTEMPTS {
          todo := todo + [paths[i]];
        }
      }
    }

    method RunPass(todo: seq<string>, world: World, n: nat)
      modifies this
      ensures State() == Pass(old(State()), todo, world, n)
    {
      hide Attempted;
      ghost var start := State();
      for i := 0 to |todo|
        invariant Pass(State(), todo[i..], world, n) == Pass(start, todo, world, n)
      {
        Attempt(todo[i], world(n, todo[i]));
      }
    }

    /**
      The working passes up to the first rest, when stores fail no more than `faults` times in all: at most three for
      each path, and at most three in all when storing the missing paths pushes no listed path below the cap.
     */
    method RunUntilRest(paths: seq<string>, world: World, ghost faults: nat) returns (passes: nat)
      requires failed == map[] && Distinct(rows) && Distinct(paths) && |paths| <= 50_000
      requires FailuresCease(Scenario(rows, paths, world), faults)
      modifies this
      ensures State() == Before(Scenario(old(rows), paths, world), passes)
      ensures Todo(State(), paths) == [] && WorksUntil(Scenario(old(rows), paths, world), passes)
      ensures passes <= 3 * |paths| + faults
      ensures Fits(old(rows), paths) ==> passes <= 3 + faults
    {
      ghost var c := Scenario(rows, paths, world);
      ghost var bound := MAX_ATTEMPTS * |paths| + faults;
      ghost var fits := Fits(rows, paths);
      hide Todo, TodoAt, Pass, Before, Distinct, FailuresCease, Fits, WorksUntil;
      RestsInBoth(c, faults);
      OnePass(c, 0);
      passes := 0;
      while true
        invariant passes <= bound && State() == Before(c, passes) && WorksUntil(c, passes)
        invariant fits ==> passes <= MAX_ATTEMPTS + faults
        decreases bound - passes
      {
        OnePass(c, passes);
        var todo := Collect(paths);
        if |todo| == 0 {
          return;
        }
        RunPass(todo, world, passes);
        passes := passes + 1;
      }
    }
  }

  // ---------- each step, in numbers ----------

  /** Loaded are the first 50,000 rows; due is a listed path that is not, unless it has failed three times. */
  lemma DueExactly(s: Progress, path: string)
    ensures path in Loaded(s.rows) <==> exists i :: 0 <= i < |s.rows| && i < 50_000 && s.rows[i] == path
    ensures Due(s, path) <==> path !in Loaded(s.rows) && (path in s.failed ==> s.failed[path] < 3)
  {
  }

  /** Two members of t come in the same order in s. */
  predicate Follows(s: seq<string>, p: string, q: string) {
    exists a, b :: 0 <= a < b < |s| && s[a] == p && s[b] == q
  }

  lemma FollowsBehind(x: string, s: seq<string>)
    ensures forall p, q :: Follows(s, p, q) ==> Follows([x] + s, p, q)
    ensures forall q :: q in s ==> Follows([x] + s, x, q)
  {
    var u := [x] + s;
    forall p, q | Follows(s, p, q) ensures Follows(u, p, q) {
      var a, b :| 0 <= a < b < |s| && s[a] == p && s[b] == q;
      assert u[a + 1] == p && u[b + 1] == q;
    }
    forall q | q in s ensures Follows(u, x, q) {
      var b :| 0 <= b < |s| && s[b] == q;
      assert u[0] == x && u[b + 1] == q;
    }
  }

  /** The todo list is the due paths among the listed ones, in their order. */
  lemma {:induction false} TodoExactly(s: Progress, paths: seq<string>)
    ensures forall p :: p in Todo(s, paths) <==> p in paths && Due(s, p)
    ensures forall i, j :: 0 <= i < j < |Todo(s, paths)| ==> Follows(paths, Todo(s, paths)[i], Todo(s, paths)[j])
  {
    if paths == [] {
    } else {
      TodoExactly(s, paths[1..]);
      FollowsBehind(paths[0], paths[1..]);
      assert paths == [paths[0]] + paths[1..];
      hide Follows, Due;
    }
  }

  /** One attempt: three outcomes are counted, a store puts the path on top of the rows, a failed store changes nothing. */
  lemma AttemptedExactly(s: Progress, path: string, o: Outcome)
    requires Distinct(s.rows)
    ensures o in {Unreadable, EmptyFile, EmbedFails} ==>
              Attempted(s, path, o) == Progress(s.rows, s.failed[path := if path in s.failed then s.failed[path] + 1 else 1])
    ensures o == StoreFails ==> Attempted(s, path, o) == s
    ensures o == Stored && path !in s.rows ==> Attempted(s, path, o) == Progress([path] + s.rows, s.failed)
    ensures o == Stored ==> forall i :: 0 <= i < |s.rows| && s.rows[i] == path ==>
              Attempted(s, path, o) == Progress([path] + s.rows[..i] + s.rows[i + 1..], s.failed)
  {
    if path in s.rows {
      var i :| 0 <= i < |s.rows| && s.rows[i] == path;
      WithoutPathAt(s.rows, i);
      assert [path] + s.rows[..i] + s.rows[i + 1..] == [path] + (s.rows[..i] + s.rows[i + 1..]);
    } else {
      AbsentPath(s.rows, path);
    }
  }

  /** A pass attempts the paths one after the other, in the order of the list. */
  lemma {:induction false} PassExactly(s: Progress, todo: seq<string>, p: string, world: World, n: nat)
    ensures Pass(s, [], world, n) == s
    ensures Pass(s, todo + [p], world, n) == Attempted(Pass(s, todo, world, n), p, world(n, p))
    decreases |todo|
  {
    hide Attempted;
    if todo == [] {
      assert ([] + [p])[1..] == [];
    } else {
      assert (todo + [p])[1..] == todo[1..] + [p];
      PassExactly(Attempted(s, todo[0], world(n, todo[0])), todo[1..], p, world, n);
    }
  }

  lemma {:induction false} WithoutPathAt(rows: seq<string>, i: nat)
    requires Distinct(rows) && i < |rows|
    ensures WithoutPath(rows, rows[i]) == rows[..i] + rows[i + 1..]
  {
    if i == 0 {
      AbsentPath(rows[1..], rows[0]);
    } else {
      assert rows[1..][i - 1] == rows[i];
      WithoutPathAt(rows[1..], i - 1);
      assert rows[..i] + rows[i + 1..] == [rows[0]] + (rows[1..][..i - 1] + rows[1..][i..]);
    }
  }

  // ---------- the ledger of one path ----------

  lemma OnePass(c: Scenario, n: nat)
    ensures Before(c, n + 1) == Pass(Before(c, n), TodoAt(c, n), c.world, n)
    ensures TodoAt(c, n) == Todo(Before(c, n), c.paths)
    ensures WorksUntil(c, 0) && (WorksUntil(c, n) && TodoAt(c, n) != [] ==> WorksUntil(c, n + 1))
  {
  }

  lemma {:induction false} TodoMembers(s: Progress, paths: seq<string>)
    ensures forall p :: p in Todo(s, paths) <==> p in paths && Due(s, p)
    ensures Distinct(paths) ==> Distinct(Todo(s, paths))
  {
    if paths == [] {
    } else {
      TodoMembers(s, paths[1..]);
      var rest := Todo(s, paths[1..]);
      if Distinct(paths) {
        forall j | 0 <= j < |rest| ensures rest[j] != paths[0] { assert rest[j] in paths[1..]; }
      }
    }
  }

  /** A pass adds one failure to a path it attempts with a counted outcome, and to no other. */
  lemma {:induction false} PassFailures(s: Progress, todo: seq<string>, world: World, n: nat, p: string)
    requires Distinct(todo)
    ensures Failures(Pass(s, todo, world, n), p) == Failures(s, p) + if p in todo && Counted(world(n, p)) then 1 else 0
    decreases |todo|
  {
    if todo == [] {
    } else {
      PassFailures(Attempted(s, todo[0], world(n, todo[0])), todo[1..], world, n, p);
      assert todo == [todo[0]] + todo[1..];
      assert todo[0] !in todo[1..];
    }
  }

  lemma CountsUnfold(c: Scenario, p: string, n: nat)
    ensures Attempts(c, p, n + 1) == Attempts(c, p, n) + if p in TodoAt(c, n) then 1 else 0
    ensures Times(c, p, Stored, n + 1)
         == Times(c, p, Stored, n) + if p in TodoAt(c, n) && c.world(n, p).Stored? then 1 else 0
    ensures Times(c, p, StoreFails, n + 1)
         == Times(c, p, StoreFails, n) + if p in TodoAt(c, n) && c.world(n, p).StoreFails? then 1 else 0
  {
  }

  lemma FailuresUnfold(c: Scenario, p: string, n: nat)
    requires Distinct(c.paths)
    ensures Failures(Before(c, n + 1), p)
         == Failures(Before(c, n), p) + if p in TodoAt(c, n) && Counted(c.world(n, p)) then 1 else 0
    ensures p in TodoAt(c, n) <==> p in c.paths && Due(Before(c, n), p)
  {
    TodoMembers(Before(c, n), c.paths);
    PassFailures(Before(c, n), TodoAt(c, n), c.world, n, p);
  }

  lemma OutcomeKinds(o: Outcome)
    ensures Counted(o) <==> o != Stored && o != StoreFails
  {
  }

  /** Before the first pass nothing has been counted. */
  lemma NothingYet(c: Scenario, p: string)
    ensures Before(c, 0) == Progress(c.rows, map[]) && Failures(Before(c, 0), p) == 0
    ensures Attempts(c, p, 0) == Times(c, p, Stored, 0) == Times(c, p, StoreFails, 0) == 0
  {
  }

  /** What one pass does to the counts of a path. */
  lemma LedgerStep(c: Scenario, p: string, n: nat)
    requires Distinct(c.paths)
    ensures var attempted, o := p in TodoAt(c, n), c.world(n, p);
      && Attempts(c, p, n + 1) == Attempts(c, p, n) + (if attempted then 1 else 0)
      && Failures(Before(c, n + 1), p) == Failures(Before(c, n), p) + (if attempted && Counted(o) then 1 else 0)
      && Times(c, p, Stored, n + 1) == Times(c, p, Stored, n) + (if attempted && o.Stored? then 1 else 0)
      && Times(c, p, StoreFails, n + 1) == Times(c, p, StoreFails, n) + (if attempted && o.StoreFails? then 1 else 0)
      && (attempted ==> Failures(Before(c, n), p) < MAX_ATTEMPTS)
  {
    hide Failures, Distinct, Todo;
    CountsUnfold(c, p, n);
    FailuresUnfold(c, p, n);
  }

  /** Every attempt is counted as a failure, ends with a store, or ends with a failed store. */
  lemma {:induction false} Ledger(c: Scenario, p: string, n: nat)
    requires Distinct(c.paths)
    ensures Attempts(c, p, n) == Failures(Before(c, n), p) + Times(c, p, Stored, n) + Times(c, p, StoreFails, n)
    ensures Failures(Before(c, n), p) <= 3
  {
    hide Attempts, Times, Before, TodoAt, Failures, Distinct, Counted;
    if n == 0 {
      NothingYet(c, p);
    } else {
      Ledger(c, p, n - 1);
      LedgerStep(c, p, n - 1);
      OutcomeKinds(c.world(n - 1, p));
    }
  }

  // ---------- what the run has stored stays in front ----------

  /** The rows are distinct, and those in `done` come before all others. */
  ghost predicate Front(rows: seq<string>, done: set<string>) {
    && Distinct(rows) && (forall p :: p in done ==> p in rows)
    && forall i, j :: 0 <= i < j < |rows| && rows[j] in done ==> rows[i] in done
  }

  lemma {:induction false} WithoutPathKeepsFront(rows: seq<string>, done: set<string>, p: string)
    requires Distinct(rows)
    requires forall i, j :: 0 <= i < j < |rows| && rows[j] in done ==> rows[i] in done
    ensures var w := WithoutPath(rows, p);
      Distinct(w) && forall i, j :: 0 <= i < j < |w| && w[j] in done ==> w[i] in done
  {
    if rows == [] {
    } else {
      WithoutPathKeepsFront(rows[1..], done, p);
      var w := WithoutPath(rows[1..], p);
      forall j | 0 <= j < |w| ensures w[j] != rows[0] && (w[j] in done ==> rows[0] in done) {
        assert w[j] in rows[1..];
      }
    }
  }

  lemma StoreKeepsFront(rows: seq<string>, done: set<string>, p: string)
    requires Front(rows, done)
    ensures Front([p] + WithoutPath(rows, p), done + {p})
  {
    WithoutPathKeepsFront(rows, done, p);
    var w := WithoutPath(rows, p);
    assert forall j :: 0 <= j < |w| ==> w[j] in w;
    assert forall q :: q in [p] + w <==> q == p || q in w;
  }

  function StoredIn(todo: seq<string>, world: World, n: nat): set<string> {
    set p | p in todo && world(n, p).Stored?
  }

  lemma {:induction false} PassKeepsFront(s: Progress, todo: seq<string>, world: World, n: nat, done: set<string>)
    requires Front(s.rows, done)
    ensures Front(Pass(s, todo, world, n).rows, done + StoredIn(todo, world, n))
    decreases |todo|
  {
    hide Front;
    if todo == [] {
      assert done + StoredIn(todo, world, n) == done;
    } else {
      var p := todo[0];
      var o := world(n, p);
      var done' := if o.Stored? then done + {p} else done;
      StoreKeepsFront(s.rows, done, p);
      PassKeepsFront(Attempted(s, p, o), todo[1..], world, n, done');
      assert todo == [p] + todo[1..];
      assert done + StoredIn(todo, world, n) == done' + StoredIn(todo[1..], world, n);
    }
  }

  /** The paths the first n passes have stored. */
  function Done(c: Scenario, n: nat): set<string> {
    set p | p in c.paths && Times(c, p, Stored, n) > 0
  }

  lemma NothingDone(c: Scenario)
    ensures Before(c, 0).rows == c.rows && Done(c, 0) == {}
  {
  }

  lemma DoneStep(c: Scenario, n: nat)
    ensures Done(c, n + 1) == Done(c, n) + StoredIn(TodoAt(c, n), c.world, n)
  {
    hide Before, TodoAt, Todo, Due;
    OnePass(c, n);
    TodoMembers(Before(c, n), c.paths);
    forall p ensures p in Done(c, n + 1) <==> p in Done(c, n) + StoredIn(TodoAt(c, n), c.world, n) {
      CountsUnfold(c, p, n);
    }
  }

  /** Rows that are in front at the start stay there, together with all that has been stored. */
  lemma {:induction false} FrontIsKept(c: Scenario, front: set<string>, n: nat)
    requires Front(c.rows, front)
    ensures Front(Before(c, n).rows, front + Done(c, n))
  {
    hide Front, Before, TodoAt, Todo, Pass, Due, Done;
    if n == 0 {
      NothingDone(c);
      assert front + {} == front;
    } else {
      FrontIsKept(c, front, n - 1);
      OnePass(c, n - 1);
      DoneStep(c, n - 1);
      PassKeepsFront(Before(c, n - 1), TodoAt(c, n - 1), c.world, n - 1, front + Done(c, n - 1));
      assert front + Done(c, n - 1) + StoredIn(TodoAt(c, n - 1), c.world, n - 1) == front + Done(c, n);
    }
  }

  lemma DoneInFront(c: Scenario, n: nat)
    requires Distinct(c.rows)
    ensures Front(Before(c, n).rows, Done(c, n))
  {
    FrontIsKept(c, {}, n);
    assert {} + Done(c, n) == Done(c, n);
  }

  lemma {:induction false} DistinctSize(s: seq<string>)
    requires Distinct(s)
    ensures |Members(s)| == |s|
  {
    if s == [] {
    } else {
      DistinctSize(s[1..]);
      assert Members(s) == Members(s[1..]) + {s[0]};
    }
  }

  lemma {:induction false} MembersSize(s: seq<string>)
    ensures |Members(s)| <= |s|
  {
    if s == [] {
    } else {
      MembersSize(s[1..]);
      assert Members(s) == Members(s[1..]) + {s[0]};
    }
  }

  /** Rows in front that fit under the cap are loaded. */
  lemma FrontIsLoaded(rows: seq<string>, done: set<string>, p: string)
    requires Front(rows, done) && |done| <= MAX_VECTORS && p in done
    ensures p in Loaded(rows)
  {
    var i :| 0 <= i < |rows| && rows[i] == p;
    var top := rows[..i + 1];
    assert forall k :: 0 <= k <= i ==> rows[k] in done;
    DistinctSize(top);
    Sets.SubsetSize(Members(top), done);
  }

  /** With few enough paths, a path stored in the run is never due again. */
  lemma DoneIsNotDue(c: Scenario, p: string, n: nat)
    requires Distinct(c.rows) && Distinct(c.paths) && |c.paths| <= MAX_VECTORS
    ensures p in TodoAt(c, n) ==> Times(c, p, Stored, n) == 0
  {
    FailuresUnfold(c, p, n);
    if p in TodoAt(c, n) && Times(c, p, Stored, n) > 0 {
      DoneInFront(c, n);
      MembersSize(c.paths);
      Sets.SubsetSize(Done(c, n), Members(c.paths));
      FrontIsLoaded(Before(c, n).rows, Done(c, n), p);
      assert false;
    }
  }

  lemma {:induction false} StoredOnce(c: Scenario, p: string, n: nat)
    requires Distinct(c.rows) && Distinct(c.paths) && |c.paths| <= MAX_VECTORS
    ensures Failures(Before(c, n), p) + Times(c, p, Stored, n) <= MAX_ATTEMPTS
  {
    hide Attempts, Times, Before, TodoAt, Failures, Distinct, Counted;
    if n == 0 {
      NothingYet(c, p);
    } else {
      StoredOnce(c, p, n - 1);
      DoneIsNotDue(c, p, n - 1);
      LedgerStep(c, p, n - 1);
      OutcomeKinds(c.world(n - 1, p));
    }
  }

  /**
    From any table, stale rows included: with at most 50,000 paths, no path is attempted more than three times
    beyond its own failed stores, however many passes there are.
   */
  lemma AttemptsBounded(c: Scenario, p: string, n: nat)
    requires Distinct(c.rows) && Distinct(c.paths) && |c.paths| <= 50_000
    ensures Attempts(c, p, n) <= 3 + Times(c, p, StoreFails, n)
  {
    Ledger(c, p, n);
    StoredOnce(c, p, n);
  }

  // ---------- when the loop rests ----------

  lemma {:induction false} TotalIsBounded(c: Scenario, paths: seq<string>, n: nat)
    requires Distinct(c.rows) && Distinct(c.paths) && |c.paths| <= MAX_VECTORS
    ensures TotalAttempts(c, paths, n) <= MAX_ATTEMPTS * |paths| + FailedStores(c, paths, n)
    decreases |paths|
  {
    if paths == [] {
    } else {
      AttemptsBounded(c, paths[0], n);
      hide Attempts, Times, Distinct;
      TotalIsBounded(c, paths[1..], n);
    }
  }

  lemma {:induction false} TotalGrows(c: Scenario, paths: seq<string>, n: nat)
    ensures TotalAttempts(c, paths, n + 1) >= TotalAttempts(c, paths, n)
    ensures (exists p :: p in paths && p in TodoAt(c, n)) ==> TotalAttempts(c, paths, n + 1) > TotalAttempts(c, paths, n)
    decreases |paths|
  {
    if paths == [] {
    } else {
      CountsUnfold(c, paths[0], n);
      hide Attempts, TodoAt;
      TotalGrows(c, paths[1..], n);
      assert forall p :: p in paths ==> p == paths[0] || p in paths[1..];
    }
  }

  lemma {:induction false} WorkIsCounted(c: Scenario, n: nat)
    requires forall k :: 0 <= k < n ==> TodoAt(c, k) != []
    ensures TotalAttempts(c, c.paths, n) >= n
  {
    if n == 0 {
    } else {
      WorkIsCounted(c, n - 1);
      TodoMembers(Before(c, n - 1), c.paths);
      var p := TodoAt(c, n - 1)[0];
      assert p in TodoAt(c, n - 1) && p in c.paths;
      hide TodoAt;
      TotalGrows(c, c.paths, n - 1);
    }
  }

  /** At rest nothing changes any more. */
  lemma {:induction false} RestStays(c: Scenario, m: nat, n: nat)
    requires m <= n && TodoAt(c, m) == []
    ensures Before(c, n) == Before(c, m) && TodoAt(c, n) == []
    ensures forall p, o :: Times(c, p, o, n) == Times(c, p, o, m)
  {
    if n == m {
    } else {
      RestStays(c, m, n - 1);
    }
  }

  /** With at most 50,000 paths the loop rests after three passes for each path and one for each failed store. */
  lemma RestsInTime(c: Scenario, faults: nat)
    requires Distinct(c.rows) && Distinct(c.paths) && |c.paths| <= MAX_VECTORS
    requires FailedStores(c, c.paths, MAX_ATTEMPTS * |c.paths| + faults + 1) <= faults
    ensures TodoAt(c, MAX_ATTEMPTS * |c.paths| + faults) == []
  {
    var n := MAX_ATTEMPTS * |c.paths| + faults;
    hide Distinct, FailedStores, TodoAt, Before;
    if TodoAt(c, n) != [] {
      forall k | 0 <= k < n + 1 ensures TodoAt(c, k) != [] {
        if TodoAt(c, k) == [] { RestStays(c, k, n); }
      }
      WorkIsCounted(c, n + 1);
      TotalIsBounded(c, c.paths, n + 1);
    }
  }

  lemma {:induction false} FailedStoresMonotone(c: Scenario, paths: seq<string>, m: nat, n: nat)
    requires m <= n
    ensures FailedStores(c, paths, m) <= FailedStores(c, paths, n)
    decreases |paths|
  {
    if paths == [] {
    } else {
      TimesMonotone(c, paths[0], StoreFails, m, n);
      FailedStoresMonotone(c, paths[1..], m, n);
    }
  }

  lemma {:induction false} TimesMonotone(c: Scenario, p: string, o: Outcome, m: nat, n: nat)
    requires m <= n
    ensures Times(c, p, o, m) <= Times(c, p, o, n)
  {
    if m == n {
    } else {
      TimesMonotone(c, p, o, m, n - 1);
    }
  }

  lemma {:induction false} FailedStoresAtRest(c: Scenario, paths: seq<string>, m: nat, n: nat)
    requires m <= n && TodoAt(c, m) == []
    ensures FailedStores(c, paths, n) == FailedStores(c, paths, m)
    decreases |paths|
  {
    if paths == [] {
    } else {
      RestStays(c, m, n);
      hide TodoAt, Times;
      FailedStoresAtRest(c, paths[1..], m, n);
    }
  }

  /** Whatever the table and the world, with at most 50,000 paths: the loop rests if and only if stores stop failing. */
  lemma RestsIffStoresStopFailing(c: Scenario)
    requires Distinct(c.rows) && Distinct(c.paths) && |c.paths| <= 50_000
    ensures (exists n :: TodoAt(c, n) == []) <==> exists b :: FailuresCease(c, b)
  {
    hide TodoAt, FailedStores, Distinct;
    if m: nat :| TodoAt(c, m) == [] {
      var b := FailedStores(c, c.paths, m);
      forall n: nat ensures FailedStores(c, c.paths, n) <= b {
        if n <= m { FailedStoresMonotone(c, c.paths, n, m); } else { FailedStoresAtRest(c, c.paths, m, n); }
      }
      assert FailuresCease(c, b);
    }
    if b: nat :| FailuresCease(c, b) {
      RestsInTime(c, b);
    }
  }

  // ---------- paths whose vectors are not loaded ----------

  /** Taking a path out shifts every other row by one place at most. */
  lemma {:induction false} WithoutPathShifts(rows: seq<string>, p: string, i: nat)
    requires Distinct(rows) && i < |WithoutPath(rows, p)|
    ensures WithoutPath(rows, p)[i] == rows[i] || (i + 1 < |rows| && WithoutPath(rows, p)[i] == rows[i + 1])
  {
    if rows[0] == p {
      AbsentPath(rows[1..], p);
    } else if i > 0 {
      WithoutPathShifts(rows[1..], p, i - 1);
    }
  }

  lemma {:induction false} AbsentPath(rows: seq<string>, p: string)
    requires p !in rows
    ensures WithoutPath(rows, p) == rows
  {
    if rows == [] {
    } else {
      AbsentPath(rows[1..], p);
    }
  }

  lemma StoreLoadsNoOther(rows: seq<string>, p: string, q: string)
    requires Distinct(rows) && q != p && q !in Loaded(rows)
    ensures q !in Loaded([p] + WithoutPath(rows, p))
  {
    var w := WithoutPath(rows, p);
    forall i | 0 <= i < |[p] + w| && i < MAX_VECTORS ensures ([p] + w)[i] != q {
      if i > 0 {
        WithoutPathShifts(rows, p, i - 1);
        assert rows[i - 1] != q && (i < |rows| ==> rows[i] != q);
      }
    }
  }

  lemma {:induction false} PassLoadsNoOther(s: Progress, todo: seq<string>, world: World, n: nat, q: string)
    requires Distinct(s.rows) && q !in Loaded(s.rows) && q !in StoredIn(todo, world, n)
    ensures q !in Loaded(Pass(s, todo, world, n).rows)
    decreases |todo|
  {
    if todo == [] {
    } else {
      var p, o := todo[0], world(n, todo[0]);
      assert todo == [p] + todo[1..];
      if o.Stored? {
        StoreLoadsNoOther(s.rows, p, q);
        StoreKeepsFront(s.rows, {}, p);
      }
      hide Loaded, Distinct;
      PassLoadsNoOther(Attempted(s, p, o), todo[1..], world, n, q);
    }
  }

  lemma StillDue(s: Progress, p: string)
    ensures Due(s, p) <==> p !in Loaded(s.rows) && Failures(s, p) < MAX_ATTEMPTS
  {
  }

  lemma RowsStayDistinct(c: Scenario, n: nat)
    requires Distinct(c.rows)
    ensures Distinct(Before(c, n).rows)
  {
    DoneInFront(c, n);
  }

  /** A path that is not loaded before pass m, and not stored from there on, stays so. */
  lemma {:induction false} StaysUnloaded(c: Scenario, p: string, m: nat, n: nat)
    requires Distinct(c.rows) && m <= n && p !in Loaded(Before(c, m).rows)
    requires Times(c, p, Stored, n) == Times(c, p, Stored, m)
    ensures p !in Loaded(Before(c, n).rows)
  {
    hide Attempts, Times, Before, TodoAt, Distinct, Loaded, Todo, Pass;
    if n == m {
    } else {
      TimesMonotone(c, p, Stored, m, n - 1);
      CountsUnfold(c, p, n - 1);
      StaysUnloaded(c, p, m, n - 1);
      RowsStayDistinct(c, n - 1);
      PassLoadsNoOther(Before(c, n - 1), TodoAt(c, n - 1), c.world, n - 1, p);
      OnePass(c, n - 1);
    }
  }

  lemma {:induction false} FailuresMonotone(c: Scenario, p: string, m: nat, n: nat)
    requires Distinct(c.paths) && m <= n
    ensures Failures(Before(c, m), p) <= Failures(Before(c, n), p) <= Failures(Before(c, m), p) + (n - m)
  {
    hide Before, TodoAt, Failures, Distinct;
    if m == n {
    } else {
      FailuresMonotone(c, p, m, n - 1);
      FailuresUnfold(c, p, n - 1);
    }
  }

  lemma {:induction false} AlwaysAttempted(c: Scenario, p: string, m: nat, n: nat)
    requires m <= n && forall k :: m <= k < n ==> p in TodoAt(c, k)
    ensures Attempts(c, p, n) == Attempts(c, p, m) + (n - m)
  {
    hide TodoAt, Attempts;
    if m == n {
    } else {
      AlwaysAttempted(c, p, m, n - 1);
      CountsUnfold(c, p, n - 1);
    }
  }

  lemma {:induction false} NeverHappens(c: Scenario, p: string, o: Outcome, n: nat)
    requires forall k :: c.world(k, p) != o
    ensures Times(c, p, o, n) == 0
  {
    if n == 0 {
    } else {
      NeverHappens(c, p, o, n - 1);
    }
  }

  // ---------- exactly when three passes are enough ----------

  lemma TopIsFront(rows: seq<string>, i: nat)
    requires Distinct(rows) && i <= |rows|
    ensures Front(rows, Members(rows[..i])) && |Members(rows[..i])| == i
  {
    DistinctSize(rows[..i]);
    forall j, k | 0 <= j < k < |rows| && rows[k] in Members(rows[..i]) ensures rows[j] in Members(rows[..i]) {
      assert k < i;
      assert rows[..i][j] == rows[j];
    }
  }

  /** The first i + 1 rows stay loaded as long as what has been stored fits above them. */
  lemma TopStaysLoaded(c: Scenario, i: nat, stored: set<string>, n: nat)
    requires Distinct(c.rows) && i < |c.rows| && Done(c, n) <= stored
    requires |Members(c.rows[..i + 1]) + stored| <= MAX_VECTORS
    ensures c.rows[i] in Loaded(Before(c, n).rows)
  {
    var top := Members(c.rows[..i + 1]);
    hide Before, Done, Loaded, Front;
    TopIsFront(c.rows, i + 1);
    FrontIsKept(c, top, n);
    Sets.SubsetSize(top + Done(c, n), top + stored);
    assert c.rows[..i + 1][i] == c.rows[i];
    FrontIsLoaded(Before(c, n).rows, top + Done(c, n), c.rows[i]);
  }

  lemma TopSize(c: Scenario, i: nat)
    requires Distinct(c.rows) && Fits(c.rows, c.paths) && i < |c.rows| && i < MAX_VECTORS && c.rows[i] in c.paths
    ensures |Members(c.rows[..i + 1]) + Missing(c.rows, c.paths)| <= MAX_VECTORS
  {
    TopIsFront(c.rows, i + 1);
  }

  /** When everything fits, only missing paths are ever stored, and a listed path that is loaded stays so. */
  lemma {:induction false} LoadedPathsStay(c: Scenario, n: nat)
    requires Distinct(c.rows) && Distinct(c.paths) && Fits(c.rows, c.paths)
    ensures Done(c, n) <= Missing(c.rows, c.paths)
    ensures forall p :: p in c.paths && p in Loaded(c.rows) ==> p in Loaded(Before(c, n).rows)
  {
    hide Before, TodoAt, Todo, Pass, Done, Fits, Distinct;
    if n == 0 {
      NothingDone(c);
    } else {
      LoadedPathsStay(c, n - 1);
      DoneStep(c, n - 1);
      OnePass(c, n - 1);
      TodoMembers(Before(c, n - 1), c.paths);
      forall p | p in c.paths && p in Loaded(c.rows) ensures p in Loaded(Before(c, n).rows) {
        var i :| 0 <= i < |c.rows| && i < MAX_VECTORS && c.rows[i] == p;
        TopSize(c, i);
        TopStaysLoaded(c, i, Missing(c.rows, c.paths), n);
      }
    }
  }

  /** When everything fits, a path still due has not been stored. */
  lemma DueIsMissing(c: Scenario, p: string, n: nat)
    requires Distinct(c.rows) && Distinct(c.paths) && Fits(c.rows, c.paths) && p in TodoAt(c, n)
    ensures p !in Loaded(c.rows) && Times(c, p, Stored, n) == 0
    ensures p in c.paths && Failures(Before(c, n), p) < MAX_ATTEMPTS
  {
    FailuresUnfold(c, p, n);
    StillDue(Before(c, n), p);
    hide TodoAt, Failures, Before, Times, Loaded, Due;
    LoadedPathsStay(c, n);
    DoneInFront(c, n);
    Sets.SubsetSize(Done(c, n), Missing(c.rows, c.paths));
    if p in Done(c, n) { FrontIsLoaded(Before(c, n).rows, Done(c, n), p); }
  }

  /** ... so it has been due in every pass. */
  lemma DueThroughout(c: Scenario, p: string, n: nat)
    requires Distinct(c.rows) && Distinct(c.paths) && Fits(c.rows, c.paths) && p in TodoAt(c, n)
    ensures Attempts(c, p, n) == n
  {
    hide TodoAt, Failures, Before, Times, Loaded, Attempts, Fits, Distinct;
    DueIsMissing(c, p, n);
    NothingYet(c, p);
    forall k | 0 <= k < n ensures p in TodoAt(c, k) {
      TimesMonotone(c, p, Stored, k, n);
      StaysUnloaded(c, p, 0, k);
      FailuresMonotone(c, p, k, n);
      StillDue(Before(c, k), p);
      FailuresUnfold(c, p, k);
    }
    AlwaysAttempted(c, p, 0, n);
  }

  lemma {:induction false} FailedStoresOf(c: Scenario, paths: seq<string>, p: string, n: nat)
    requires p in paths
    ensures Times(c, p, StoreFails, n) <= FailedStores(c, paths, n)
    decreases |paths|
  {
    if p == paths[0] {
    } else {
      FailedStoresOf(c, paths[1..], p, n);
    }
  }

  lemma RestsEarly(c: Scenario, faults: nat)
    requires Distinct(c.rows) && Distinct(c.paths) && Fits(c.rows, c.paths)
    requires FailedStores(c, c.paths, MAX_ATTEMPTS + faults) <= faults
    ensures TodoAt(c, MAX_ATTEMPTS + faults) == []
  {
    var n := MAX_ATTEMPTS + faults;
    hide TodoAt, Attempts, FailedStores, Failures, Fits, Distinct;
    if TodoAt(c, n) != [] {
      var p := TodoAt(c, n)[0];
      assert p in TodoAt(c, n);
      DueIsMissing(c, p, n);
      DueThroughout(c, p, n);
      Ledger(c, p, n);
      FailedStoresOf(c, c.paths, p, n);
    }
  }

  lemma RestsInBoth(c: Scenario, faults: nat)
    requires Distinct(c.rows) && Distinct(c.paths) && |c.paths| <= MAX_VECTORS
    requires FailuresCease(c, faults)
    ensures TodoAt(c, MAX_ATTEMPTS * |c.paths| + faults) == []
    ensures Fits(c.rows, c.paths) ==> TodoAt(c, MAX_ATTEMPTS + faults) == []
    ensures Before(c, 0) == Progress(c.rows, map[])
  {
    hide Distinct, TodoAt, FailedStores, Fits;
    RestsInTime(c, faults);
    if Fits(c.rows, c.paths) { RestsEarly(c, faults); }
  }

  /** The rows above a path. */
  function Ahead(rows: seq<string>, p: string): set<string> {
    if rows == [] || rows[0] == p then {} else {rows[0]} + Ahead(rows[1..], p)
  }

  lemma {:induction false} AheadAt(rows: seq<string>, i: nat)
    requires Distinct(rows) && i < |rows|
    ensures Ahead(rows, rows[i]) == Members(rows[..i])
  {
    if i == 0 {
    } else {
      assert rows[1..][i - 1] == rows[i];
      AheadAt(rows[1..], i - 1);
      assert rows[..i] == [rows[0]] + rows[1..][..i - 1];
    }
  }

  lemma {:induction false} AheadWithout(rows: seq<string>, q: string, p: string)
    requires q != p
    ensures Ahead(WithoutPath(rows, q), p) == Ahead(rows, p) - {q}
  {
    if rows == [] {
    } else {
      AheadWithout(rows[1..], q, p);
    }
  }

  lemma StoreAhead(rows: seq<string>, q: string, p: string)
    requires q != p
    ensures Ahead([q] + WithoutPath(rows, q), p) == Ahead(rows, p) + {q}
  {
    AheadWithout(rows, q, p);
    assert ([q] + WithoutPath(rows, q))[1..] == WithoutPath(rows, q);
  }

  /** What a pass stores goes above a path that it does not store. */
  lemma {:induction false} PassAhead(s: Progress, todo: seq<string>, world: World, n: nat, p: string)
    requires p in s.rows && p !in StoredIn(todo, world, n)
    ensures p in Pass(s, todo, world, n).rows
    ensures Ahead(Pass(s, todo, world, n).rows, p) == Ahead(s.rows, p) + StoredIn(todo, world, n)
    decreases |todo|
  {
    hide Ahead;
    if todo == [] {
      assert StoredIn(todo, world, n) == {};
    } else {
      var q := todo[0];
      var t := Attempted(s, q, world(n, q));
      var stored := if world(n, q).Stored? then {q} else {};
      assert todo == [q] + todo[1..];
      assert StoredIn(todo, world, n) == stored + StoredIn(todo[1..], world, n);
      if world(n, q).Stored? { StoreAhead(s.rows, q, p); }
      PassAhead(t, todo[1..], world, n, p);
    }
  }

  /** Fewer rows than the cap are above a loaded path, and they are loaded too. */
  lemma LoadedAhead(rows: seq<string>, p: string)
    requires p in Loaded(rows)
    ensures Ahead(rows, p) <= Loaded(rows) && |Ahead(rows, p)| < MAX_VECTORS
  {
    var i :| 0 <= i < |rows| && i < MAX_VECTORS && rows[i] == p;
    AheadWithin(rows, i);
    MembersSize(rows[..i]);
    Sets.SubsetSize(Ahead(rows, p), Members(rows[..i]));
    forall q | q in Members(rows[..i]) ensures q in Loaded(rows) {
      var j :| 0 <= j < i && rows[..i][j] == q;
      assert rows[j] == q;
    }
  }

  lemma {:induction false} AheadWithin(rows: seq<string>, i: nat)
    requires i < |rows|
    ensures Ahead(rows, rows[i]) <= Members(rows[..i])
  {
    if i == 0 || rows[0] == rows[i] {
    } else {
      assert rows[1..][i - 1] == rows[i];
      AheadWithin(rows[1..], i - 1);
      assert rows[..i] == [rows[0]] + rows[1..][..i - 1];
    }
  }

  lemma MissingIsTodo(c: Scenario)
    ensures forall p :: p in TodoAt(c, 0) <==> p in Missing(c.rows, c.paths)
  {
    TodoMembers(Before(c, 0), c.paths);
  }

  /** Storing all missing paths pushes the path at row i out, when it is not stored itself. */
  lemma PushedOutAtOnce(c: Scenario, i: nat)
    requires Distinct(c.rows) && i < |c.rows| && i < MAX_VECTORS
    requires i + |Missing(c.rows, c.paths)| >= MAX_VECTORS
    requires forall q :: c.world(0, q).Stored? <==> q != c.rows[i]
    ensures c.rows[i] !in Loaded(Before(c, 1).rows)
  {
    var p, u := c.rows[i], Missing(c.rows, c.paths);
    assert p in Loaded(c.rows);
    MissingIsTodo(c);
    hide TodoAt, Before, Pass, Todo;
    OnePass(c, 0);
    NothingYet(c, p);
    var t := Before(c, 1);
    PassAhead(Before(c, 0), TodoAt(c, 0), c.world, 0, p);
    assert StoredIn(TodoAt(c, 0), c.world, 0) == u;
    AheadAt(c.rows, i);
    TopIsFront(c.rows, i);
    forall q | q in Members(c.rows[..i]) ensures q !in u {
      var j :| 0 <= j < i && c.rows[..i][j] == q;
      assert c.rows[j] == q;
    }
    assert Members(c.rows[..i]) * u == {};
    assert |Members(c.rows[..i]) + u| == i + |u|;
    if p in Loaded(t.rows) { LoadedAhead(t.rows, p); }
  }

  /** The world in which one path cannot be read and everything else goes well. */
  function AllBut(p: string): World {
    (n: nat, q: string) => if q == p then Unreadable else Stored
  }

  /** A loaded path that is pushed out by the first pass and cannot be read is still due before the fourth. */
  lemma FourthPassNeeded(rows: seq<string>, paths: seq<string>, i: nat)
    requires Distinct(rows) && Distinct(paths) && i < |rows| && i < MAX_VECTORS && rows[i] in paths
    requires i + |Missing(rows, paths)| >= MAX_VECTORS
    ensures rows[i] in TodoAt(Scenario(rows, paths, AllBut(rows[i])), MAX_ATTEMPTS)
  {
    var p := rows[i];
    var c := Scenario(rows, paths, AllBut(p));
    assert p in Loaded(rows);
    PushedOutAtOnce(c, i);
    NothingYet(c, p);
    FailuresUnfold(c, p, 0);
    StillDue(Before(c, 0), p);
    hide TodoAt, Before, Times, Failures, Loaded, Missing, Distinct;
    FailuresMonotone(c, p, 1, MAX_ATTEMPTS);
    NeverHappens(c, p, Stored, 1);
    NeverHappens(c, p, Stored, MAX_ATTEMPTS);
    StaysUnloaded(c, p, 1, MAX_ATTEMPTS);
    FailuresUnfold(c, p, MAX_ATTEMPTS);
    StillDue(Before(c, MAX_ATTEMPTS), p);
  }

  /** The promise that three passes settle every path. */
  ghost predicate ThreePassesAreEnough(rows: seq<string>, paths: seq<string>) {
    forall world: World :: StoresWork(world) ==> TodoAt(Scenario(rows, paths, world), 3) == []
  }

  /**
    With working stores three passes are enough if and only if everything fits: the paths without a vector are at most
    50,000, and with all of them stored every listed path that is loaded now still is.
   */
  lemma ThreePassesExactlyWhenAllFits(rows: seq<string>, paths: seq<string>)
    requires Distinct(rows) && Distinct(paths)
    ensures ThreePassesAreEnough(rows, paths) <==> Fits(rows, paths)
  {
    hide Distinct, TodoAt, FailedStores, Missing;
    if Fits(rows, paths) {
      forall world: World | StoresWork(world) ensures TodoAt(Scenario(rows, paths, world), MAX_ATTEMPTS) == [] {
        RestsAfterThreePasses(Scenario(rows, paths, world));
      }
    } else if |Missing(rows, paths)| > MAX_VECTORS {
      var lucky: World := (n: nat, p: string) => Stored;
      ManyMissing(rows, paths);
      TooManyPathsNeverRest(Scenario(rows, paths, lucky), MAX_ATTEMPTS);
    } else {
      var i :| 0 <= i < |rows| && i < MAX_VECTORS && rows[i] in paths && i + |Missing(rows, paths)| >= MAX_VECTORS;
      FourthPassNeeded(rows, paths, i);
      assert StoresWork(AllBut(rows[i]));
    }
  }

  lemma ManyMissing(rows: seq<string>, paths: seq<string>)
    ensures |Missing(rows, paths)| <= |paths|
  {
    MembersSize(paths);
    Sets.SubsetSize(Missing(rows, paths), Members(paths));
  }

  lemma RestsAfterThreePasses(c: Scenario)
    requires Distinct(c.rows) && Distinct(c.paths) && Fits(c.rows, c.paths) && StoresWork(c.world)
    ensures TodoAt(c, MAX_ATTEMPTS) == []
  {
    NoFailedStores(c, c.paths, MAX_ATTEMPTS);
    RestsEarly(c, 0);
  }

  /** In particular everything fits when stored and listed paths are at most 50,000 together. */
  lemma FewRowsAndPathsFit(rows: seq<string>, paths: seq<string>)
    requires Distinct(rows) && |Members(rows) + Members(paths)| <= 50_000
    ensures Fits(rows, paths)
  {
    var all, u := Members(rows) + Members(paths), Missing(rows, paths);
    Sets.SubsetSize(u, all);
    forall i | 0 <= i < |rows| && i < MAX_VECTORS && rows[i] in paths ensures i + |u| < MAX_VECTORS {
      var top := Members(rows[..i + 1]);
      TopIsFront(rows, i + 1);
      forall q | q in top ensures q !in u && q in all {
        var j :| 0 <= j <= i && rows[..i + 1][j] == q;
        assert rows[j] == q;
      }
      assert top * u == {};
      Sets.SubsetSize(top + u, all);
    }
  }

  lemma {:induction false} NoFailedStores(c: Scenario, paths: seq<string>, n: nat)
    requires StoresWork(c.world)
    ensures FailedStores(c, paths, n) == 0
    decreases |paths|
  {
    if paths == [] {
    } else {
      NeverHappens(c, paths[0], StoreFails, n);
      NoFailedStores(c, paths[1..], n);
    }
  }

  // ---------- too many paths ----------

  lemma LoadedIsCapped(rows: seq<string>)
    ensures |Loaded(rows)| <= MAX_VECTORS
  {
    var top := if |rows| < MAX_VECTORS then rows else rows[..MAX_VECTORS];
    assert Loaded(rows) == Members(top) by {
      forall x | x in Members(top) ensures x in Loaded(rows) {
        var i :| 0 <= i < |top| && top[i] == x;
        assert rows[i] == x;
      }
      forall x | x in Loaded(rows) ensures x in Members(top) {
        var i :| 0 <= i < |rows| && i < MAX_VECTORS && rows[i] == x;
        assert top[i] == x;
      }
    }
    MembersSize(top);
  }

  lemma {:induction false} NoFailureWithoutCause(c: Scenario, n: nat)
    requires forall k, p :: !Counted(c.world(k, p))
    ensures Before(c, n).failed == map[]
  {
    if n == 0 {
    } else {
      NoFailureWithoutCause(c, n - 1);
      NoFailureInPass(Before(c, n - 1), TodoAt(c, n - 1), c.world, n - 1);
    }
  }

  lemma {:induction false} NoFailureInPass(s: Progress, todo: seq<string>, world: World, n: nat)
    requires forall p :: !Counted(world(n, p))
    ensures Pass(s, todo, world, n).failed == s.failed
    decreases |todo|
  {
    if todo == [] {
    } else {
      NoFailureInPass(Attempted(s, todo[0], world(n, todo[0])), todo[1..], world, n);
    }
  }

  /** Above the cap the loop never rests, even when nothing ever fails: some path is due before every pass. */
  lemma TooManyPathsNeverRest(c: Scenario, n: nat)
    requires Distinct(c.paths) && |c.paths| > 50_000
    requires forall k, p :: !Counted(c.world(k, p))
    ensures TodoAt(c, n) != []
  {
    var s := Before(c, n);
    NoFailureWithoutCause(c, n);
    DistinctSize(c.paths);
    LoadedIsCapped(s.rows);
    TodoMembers(s, c.paths);
    if Members(c.paths) <= Loaded(s.rows) {
      Sets.SubsetSize(Members(c.paths), Loaded(s.rows));
    }
    var p :| p in Members(c.paths) && p !in Loaded(s.rows);
    assert Due(s, p);
  }

  // ---------- the exact condition, with working stores ----------

  /** The promise "skip after 3 attempts". */
  ghost predicate AtMostThreeAttempts(rows: seq<string>, paths: seq<string>) {
    forall world: World, p, n :: StoresWork(world) ==> Attempts(Scenario(rows, paths, world), p, n) <= 3
  }

  /** The promise that all is embedded, or given up, some day. */
  ghost predicate AlwaysRests(rows: seq<string>, paths: seq<string>) {
    forall world: World :: StoresWork(world) ==> exists n :: TodoAt(Scenario(rows, paths, world), n) == []
  }

  lemma {:induction false} FewAttemptsEach(c: Scenario, paths: seq<string>, n: nat)
    requires forall p :: Attempts(c, p, n) <= MAX_ATTEMPTS
    ensures TotalAttempts(c, paths, n) <= MAX_ATTEMPTS * |paths|
    decreases |paths|
  {
    if paths == [] {
    } else {
      FewAttemptsEach(c, paths[1..], n);
    }
  }

  /** From any table and with working stores, both promises hold exactly when there are at most 50,000 paths. */
  lemma PromisesHoldExactlyUnderTheCap(rows: seq<string>, paths: seq<string>)
    requires Distinct(rows) && Distinct(paths)
    ensures AtMostThreeAttempts(rows, paths) <==> |paths| <= 50_000
    ensures AlwaysRests(rows, paths) <==> |paths| <= 50_000
  {
    hide Distinct, Attempts, TodoAt, TotalAttempts, FailedStores;
    if |paths| <= MAX_VECTORS {
      forall world: World, p, n: nat | StoresWork(world)
        ensures Attempts(Scenario(rows, paths, world), p, n) <= MAX_ATTEMPTS
      {
        AttemptsBounded(Scenario(rows, paths, world), p, n);
        NeverHappens(Scenario(rows, paths, world), p, StoreFails, n);
      }
      forall world: World | StoresWork(world) ensures exists n :: TodoAt(Scenario(rows, paths, world), n) == [] {
        RestsWithinThreePassesPerPath(Scenario(rows, paths, world));
      }
    } else {
      var lucky: World := (n: nat, p: string) => Stored;
      var c := Scenario(rows, paths, lucky);
      forall n: nat ensures TodoAt(c, n) != [] { TooManyPathsNeverRest(c, n); }
      var n := MAX_ATTEMPTS * |paths| + 1;
      WorkIsCounted(c, n);
      if forall p :: Attempts(c, p, n) <= MAX_ATTEMPTS { FewAttemptsEach(c, paths, n); }
    }
  }

  lemma RestsWithinThreePassesPerPath(c: Scenario)
    requires Distinct(c.rows) && Distinct(c.paths) && |c.paths| <= MAX_VECTORS && StoresWork(c.world)
    ensures TodoAt(c, MAX_ATTEMPTS * |c.paths|) == []
  {
    NoFailedStores(c, c.paths, MAX_ATTEMPTS * |c.paths| + 1);
    RestsInTime(c, 0);
  }

  // ---------- the exact condition, with stores that fail ----------

  lemma {:induction false} NoFailureOf(c: Scenario, p: string, n: nat)
    requires Distinct(c.paths) && forall k :: !Counted(c.world(k, p))
    ensures Failures(Before(c, n), p) == 0
  {
    hide Before, TodoAt, Failures, Distinct;
    if n == 0 {
      NothingYet(c, p);
    } else {
      NoFailureOf(c, p, n - 1);
      FailuresUnfold(c, p, n - 1);
    }
  }

  /** A path whose stores keep failing, once without a vector, is attempted in every pass, whatever happens to the others. */
  lemma FailingStoreIsRetriedForEver(c: Scenario, p: string, m: nat, n: nat)
    requires Distinct(c.rows) && Distinct(c.paths) && p in c.paths
    requires m <= n && p !in Loaded(Before(c, m).rows)
    requires forall k :: c.world(k, p) == StoreFails
    ensures Attempts(c, p, n) == Attempts(c, p, m) + (n - m)
  {
    hide TodoAt, Failures, Before, Times, Loaded, Attempts, Distinct;
    forall k | m <= k < n ensures p in TodoAt(c, k) {
      NeverHappens(c, p, Stored, m);
      NeverHappens(c, p, Stored, k);
      StaysUnloaded(c, p, m, k);
      NoFailureOf(c, p, k);
      StillDue(Before(c, k), p);
      FailuresUnfold(c, p, k);
    }
    AlwaysAttempted(c, p, m, n);
  }

  /** Only stores of the paths in `faulty` ever fail. */
  ghost predicate OnlyFaulty(world: World, faulty: set<string>) {
    forall n, p :: world(n, p) == StoreFails ==> p in faulty
  }

  /** The path is loaded, and stays so even when every listed path that is not above it is stored. */
  ghost predicate Safe(rows: seq<string>, paths: seq<string>, p: string) {
    exists i :: 0 <= i < |rows| && rows[i] == p && i + |Below(rows, paths, i)| < 50_000
  }

  /** The listed paths that are not among the first i + 1 rows. */
  function Below(rows: seq<string>, paths: seq<string>, i: nat): set<string>
    requires i < |rows|
  {
    Members(paths) - Members(rows[..i + 1])
  }

  lemma BelowSize(rows: seq<string>, paths: seq<string>, i: nat)
    requires Distinct(rows) && i < |rows|
    ensures |Members(rows[..i + 1]) + Members(paths)| == i + 1 + |Below(rows, paths, i)|
  {
    TopIsFront(rows, i + 1);
    hide Distinct, Front, Members;
    assert Members(rows[..i + 1]) + Members(paths) == Members(rows[..i + 1]) + Below(rows, paths, i);
  }

  lemma DoneIsListed(c: Scenario, n: nat)
    ensures Done(c, n) <= Members(c.paths)
  {
  }

  lemma SafeIsLoaded(c: Scenario, p: string, n: nat)
    requires Distinct(c.rows) && Safe(c.rows, c.paths, p)
    ensures p in Loaded(Before(c, n).rows)
  {
    var i :| 0 <= i < |c.rows| && c.rows[i] == p && i + |Below(c.rows, c.paths, i)| < MAX_VECTORS;
    hide Before, Done, Loaded, Distinct, Below, Safe, Members;
    BelowSize(c.rows, c.paths, i);
    DoneIsListed(c, n);
    TopStaysLoaded(c, i, Members(c.paths), n);
  }

  /** A safe path is never attempted, whatever the world. */
  lemma {:induction false} SafeIsNeverAttempted(c: Scenario, p: string, n: nat)
    requires Distinct(c.rows) && Distinct(c.paths) && Safe(c.rows, c.paths, p)
    ensures Attempts(c, p, n) == 0
  {
    hide TodoAt, Before, Attempts, Distinct, Loaded, Safe;
    if n == 0 {
      NothingYet(c, p);
    } else {
      SafeIsNeverAttempted(c, p, n - 1);
      SafeIsLoaded(c, p, n - 1);
      StillDue(Before(c, n - 1), p);
      FailuresUnfold(c, p, n - 1);
      CountsUnfold(c, p, n - 1);
    }
  }

  /** The world in which the stores of one path fail and everything else goes well. */
  function FailingOnly(p: string): World {
    (n: nat, q: string) => if q == p then StoreFails else Stored
  }

  lemma {:induction false} AheadGrows(c: Scenario, p: string, n: nat)
    requires p in c.rows && forall k :: !c.world(k, p).Stored?
    ensures p in Before(c, n).rows && Ahead(c.rows, p) <= Ahead(Before(c, n).rows, p)
  {
    hide TodoAt, Before, Pass, Todo, Ahead;
    if n == 0 {
      NothingYet(c, p);
    } else {
      AheadGrows(c, p, n - 1);
      PassAhead(Before(c, n - 1), TodoAt(c, n - 1), c.world, n - 1, p);
      OnePass(c, n - 1);
    }
  }

  /** At rest, when no failure has been counted, all listed paths are loaded. */
  lemma AllLoadedAtRest(c: Scenario, n: nat)
    requires TodoAt(c, n) == [] && forall k, q :: !Counted(c.world(k, q))
    ensures Members(c.paths) <= Loaded(Before(c, n).rows)
  {
    NoFailureWithoutCause(c, n);
    OnePass(c, n);
    TodoMembers(Before(c, n), c.paths);
    hide TodoAt, Todo, Before, Loaded;
    forall q | q in Members(c.paths) ensures q in Loaded(Before(c, n).rows) { StillDue(Before(c, n), q); }
  }

  /** The rows down to a path that is still loaded, and never stored, are all loaded. */
  lemma TopIsLoaded(c: Scenario, i: nat, n: nat)
    requires Distinct(c.rows) && i < |c.rows| && c.rows[i] in Loaded(Before(c, n).rows)
    requires forall k :: !c.world(k, c.rows[i]).Stored?
    ensures Members(c.rows[..i + 1]) <= Loaded(Before(c, n).rows)
  {
    hide Loaded, Before, Ahead;
    AheadGrows(c, c.rows[i], n);
    LoadedAhead(Before(c, n).rows, c.rows[i]);
    AheadAt(c.rows, i);
    assert c.rows[..i + 1] == c.rows[..i] + [c.rows[i]];
    assert Members(c.rows[..i + 1]) == Members(c.rows[..i]) + {c.rows[i]};
  }

  /** A path that is loaded when the loop rests without a counted failure, as all listed paths then are, is safe. */
  lemma LoadedAtRestIsSafe(c: Scenario, i: nat, n: nat)
    requires Distinct(c.rows) && i < |c.rows| && c.rows[i] in c.paths
    requires forall k, q :: !Counted(c.world(k, q))
    requires forall k :: !c.world(k, c.rows[i]).Stored?
    requires TodoAt(c, n) == []
    ensures i + |Below(c.rows, c.paths, i)| < MAX_VECTORS
  {
    var loaded := Loaded(Before(c, n).rows);
    assert c.rows[i] in Members(c.paths);
    hide Distinct, TodoAt, Before, Members, Loaded, Below, Counted;
    AllLoadedAtRest(c, n);
    TopIsLoaded(c, i, n);
    LoadedIsCapped(Before(c, n).rows);
    BelowSize(c.rows, c.paths, i);
    Sets.SubsetSize(Members(c.rows[..i + 1]) + Members(c.paths), loaded);
  }

  lemma {:induction false} NoFailedStoresBut(c: Scenario, paths: seq<string>, p: string, n: nat)
    requires forall k, q :: c.world(k, q).StoreFails? ==> q == p
    requires Times(c, p, StoreFails, n) == 0
    ensures FailedStores(c, paths, n) == 0
    decreases |paths|
  {
    if paths == [] {
    } else {
      if paths[0] != p { NeverHappens(c, paths[0], StoreFails, n); }
      NoFailedStoresBut(c, paths[1..], p, n);
    }
  }

  /** A path that stays loaded for three passes of every path, although its stores fail, is safe. */
  lemma StayingLoadedIsSafe(c: Scenario, i: nat)
    requires Distinct(c.rows) && Distinct(c.paths) && |c.paths| <= MAX_VECTORS
    requires i < |c.rows| && c.rows[i] in c.paths && c.world == FailingOnly(c.rows[i])
    requires forall k :: 0 <= k <= MAX_ATTEMPTS * |c.paths| ==> c.rows[i] in Loaded(Before(c, k).rows)
    ensures i + |Below(c.rows, c.paths, i)| < MAX_VECTORS
  {
    var p, n := c.rows[i], MAX_ATTEMPTS * |c.paths|;
    hide Before, TodoAt, Loaded, Attempts, Times, FailedStores, Distinct, Below;
    LoadedIsNotAttempted(c, p, n + 1);
    NoFailedStoresBut(c, c.paths, p, n + 1);
    RestsInTime(c, 0);
    LoadedAtRestIsSafe(c, i, n);
  }

  /** A path that is not safe is without a vector at some point, when its own stores fail and all else goes well. */
  lemma UnsafeIsPushedOut(rows: seq<string>, paths: seq<string>, p: string) returns (n: nat)
    requires Distinct(rows) && Distinct(paths) && |paths| <= MAX_VECTORS && p in paths && !Safe(rows, paths, p)
    ensures p !in Loaded(Before(Scenario(rows, paths, FailingOnly(p)), n).rows)
  {
    var c := Scenario(rows, paths, FailingOnly(p));
    NothingYet(c, p);
    hide Before, Distinct, Below, FailingOnly;
    if m: nat :| p !in Loaded(Before(c, m).rows) {
      n := m;
    } else {
      assert p in Loaded(rows);
      var i :| 0 <= i < |rows| && i < MAX_VECTORS && rows[i] == p;
      StayingLoadedIsSafe(c, i);
    }
  }

  lemma {:induction false} LoadedIsNotAttempted(c: Scenario, p: string, n: nat)
    requires Distinct(c.paths) && forall k :: 0 <= k < n ==> p in Loaded(Before(c, k).rows)
    ensures Times(c, p, StoreFails, n) == 0
  {
    hide Before, TodoAt, Loaded, Times, Distinct;
    if n == 0 {
      NothingYet(c, p);
    } else {
      LoadedIsNotAttempted(c, p, n - 1);
      StillDue(Before(c, n - 1), p);
      FailuresUnfold(c, p, n - 1);
      CountsUnfold(c, p, n - 1);
    }
  }

  /** A path is sure to be attempted at most three times exactly when its stores cannot fail or it is safe. */
  lemma ThreeAttemptsExactly(rows: seq<string>, paths: seq<string>, p: string, faulty: set<string>)
    requires Distinct(rows) && Distinct(paths) && |paths| <= 50_000 && p in paths
    ensures p !in faulty || Safe(rows, paths, p) <==>
              forall world: World, n :: OnlyFaulty(world, faulty) ==>
                Attempts(Scenario(rows, paths, world), p, n) <= 3
  {
    hide Distinct, Attempts, Loaded, Safe, Before;
    if p in faulty && !Safe(rows, paths, p) {
      var world := FailingOnly(p);
      assert OnlyFaulty(world, faulty);
      var m := UnsafeIsPushedOut(rows, paths, p);
      FailingStoreIsRetriedForEver(Scenario(rows, paths, world), p, m, m + MAX_ATTEMPTS + 1);
    } else {
      forall world: World, n: nat | OnlyFaulty(world, faulty)
        ensures Attempts(Scenario(rows, paths, world), p, n) <= MAX_ATTEMPTS
      {
        if p in faulty {
          SafeIsNeverAttempted(Scenario(rows, paths, world), p, n);
        } else {
          AttemptsBounded(Scenario(rows, paths, world), p, n);
          NeverHappens(Scenario(rows, paths, world), p, StoreFails, n);
        }
      }
    }
  }

  // ---------- one stale row ----------

  function Name(i: nat): (s: string)
    ensures |s| == i
  {
    seq(i, _ => 'a')
  }

  /** The rows before pass n: the n paths stored so far, then the old rows without them. */
  function Turned(n: nat): (r: seq<string>)
    requires n <= MAX_VECTORS
    ensures |r| == MAX_VECTORS + 1
  {
    seq(MAX_VECTORS + 1, i requires 0 <= i <= MAX_VECTORS => if i < n then Name(n - 1 - i) else Name(MAX_VECTORS + n - i))
  }

  function Listed(): (r: seq<string>)
    ensures |r| == MAX_VECTORS
  {
    seq(MAX_VECTORS, i requires 0 <= i => Name(i))
  }

  lemma TurnedIsDistinct(n: nat)
    requires n <= MAX_VECTORS
    ensures Distinct(Turned(n)) && Distinct(Listed())
  {
    var r := Turned(n);
    forall i | 0 <= i < |r| ensures |r[i]| == if i < n then n - 1 - i else MAX_VECTORS + n - i {
      if i < n { assert r[i] == Name(n - 1 - i); } else { assert r[i] == Name(MAX_VECTORS + n - i); }
    }
    assert forall i :: 0 <= i < MAX_VECTORS ==> |Listed()[i]| == i;
  }

  lemma {:induction false} WithoutLast(rows: seq<string>)
    requires rows != [] && Distinct(rows)
    ensures WithoutPath(rows, rows[|rows| - 1]) == rows[..|rows| - 1]
  {
    if |rows| == 1 {
    } else {
      WithoutLast(rows[1..]);
      assert rows[1..][|rows| - 2] == rows[|rows| - 1];
      assert rows[..|rows| - 1] == [rows[0]] + rows[1..][..|rows| - 2];
    }
  }

  lemma {:induction false} OneDue(s: Progress, paths: seq<string>, p: string)
    requires Distinct(paths) && p in paths
    requires forall q :: q in paths ==> (Due(s, q) <==> q == p)
    ensures Todo(s, paths) == [p]
  {
    if paths[0] == p {
      NoneDue(s, paths[1..]);
    } else {
      OneDue(s, paths[1..], p);
    }
  }

  lemma {:induction false} NoneDue(s: Progress, paths: seq<string>)
    requires forall q :: q in paths ==> !Due(s, q)
    ensures Todo(s, paths) == []
  {
    if paths == [] {
    } else {
      NoneDue(s, paths[1..]);
    }
  }

  lemma TurnedTodo(n: nat)
    requires n <= MAX_VECTORS
    ensures Todo(Progress(Turned(n), map[]), Listed()) == if n < MAX_VECTORS then [Name(n)] else []
  {
    var s, r := Progress(Turned(n), map[]), Turned(n);
    TurnedIsDistinct(n);
    assert r[MAX_VECTORS] == Name(n);
    forall q | q in Listed() ensures Due(s, q) <==> q == Name(n) {
      var i :| 0 <= i < MAX_VECTORS && Listed()[i] == q;
      assert |Name(i)| == i;
      var at := if i < n then n - 1 - i else MAX_VECTORS + n - i;
      assert r[at] == q;
      if i == n { assert forall k :: 0 <= k < MAX_VECTORS ==> r[k] != r[MAX_VECTORS]; }
    }
    if n < MAX_VECTORS {
      assert Listed()[n] == Name(n);
      OneDue(s, Listed(), Name(n));
    } else {
      forall q | q in Listed() ensures q != Name(n) {
        var i :| 0 <= i < MAX_VECTORS && Listed()[i] == q;
        assert |Name(i)| == i;
      }
      NoneDue(s, Listed());
    }
  }

  /** Storing the last row's path again turns the rows by one place. */
  lemma TurnOnce(n: nat, world: World)
    requires n < MAX_VECTORS && world(n, Name(n)) == Stored
    ensures Pass(Progress(Turned(n), map[]), [Name(n)], world, n) == Progress(Turned(n + 1), map[])
  {
    var r := Turned(n);
    TurnedIsDistinct(n);
    WithoutLast(r);
    assert r[MAX_VECTORS] == Name(n);
    assert [Name(n)] + r[..MAX_VECTORS] == Turned(n + 1);
    assert [Name(n)][1..] == [];
  }

  /**
    One stale row is enough to defeat the three passes: a table with a vector for each of the 50,000 paths and a more
    recent one for a file that is gone. Nothing fails, and still the loop takes 50,000 passes of one path each.
   */
  lemma {:induction false} OneStaleRowCostsAllPasses(n: nat)
    requires n <= 50_000
    ensures var c := Scenario(Turned(0), Listed(), (k, p) => Stored);
      && Before(c, n) == Progress(Turned(n), map[])
      && TodoAt(c, n) == if n < 50_000 then [Name(n)] else []
  {
    var c := Scenario(Turned(0), Listed(), (k, p) => Stored);
    hide Todo, Pass, Turned, Listed, Name;
    TurnedTodo(n);
    if n == 0 {
    } else {
      OneStaleRowCostsAllPasses(n - 1);
      TurnOnce(n - 1, c.world);
    }
  }
}
