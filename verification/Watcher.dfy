/**
  The file watcher: events are coalesced per path, a timer is pushed back by each accepted event, and when it
  fires the batch is applied to the index and to the cache. First the event loop as a value, then the flush on
  the real database and cache objects.
 */
module Watcher {
  import opened Options
  import opened Index
  import opened Indexing
  import Cache
  import Lru
  import Text

  const BATCH_DELAY := 500_000_000  // nanoseconds

  // ---------- the event loop ----------

  /** A path waiting to be flushed maps to whether its latest event deleted it; `deadline` is the armed timer. */
  datatype Loop = Loop(pending: map<string, bool>, deadline: Option<int>)

  const IDLE := Loop(map[], None)

  datatype Input =
    | Event(path: string, createdDir: bool, supported: bool, removed: bool, at: int)
    | WatchError(at: int)
    | Fire(at: int)

  function Next(w: Loop, input: Input): Loop {
    match input
    case Event(path, createdDir, supported, removed, at) =>
      if createdDir || !supported then w else Loop(w.pending[path := removed], Some(at + BATCH_DELAY))
    case WatchError(_) => w
    case Fire(_) => if w.pending == map[] then w.(deadline := None) else IDLE
  }

  /** One turn of the loop: which events make their path pending and push the timer back, and what a firing leaves. */
  lemma NextExactly(w: Loop, path: string, createdDir: bool, supported: bool, removed: bool, at: int)
    ensures Next(w, Event(path, createdDir, supported, removed, at))
         == if supported && !createdDir then Loop(w.pending[path := removed], Some(at + 500_000_000)) else w
    ensures Next(w, WatchError(at)) == w
    ensures Next(w, Fire(at)) == Loop(map[], None)
  {
  }

  /** An event of a supported file that is not the creation of a directory. */
  predicate Accepted(input: Input) {
    input.Event? && !input.createdDir && input.supported
  }

  /** The timer fires only when it is armed and due. */
  predicate CanHappen(w: Loop, input: Input) {
    input.Fire? ==> w.deadline.Some? && w.deadline.value <= input.at
  }

  /** The loop after a history of inputs, the latest last. */
  function After(history: seq<Input>): Loop {
    if history == [] then IDLE else Next(After(history[..|history| - 1]), history[|history| - 1])
  }

  predicate IsHistory(history: seq<Input>) {
    forall i :: 0 <= i < |history| ==>
      CanHappen(After(history[..i]), history[i]) && (i > 0 ==> history[i - 1].at <= history[i].at)
  }

  /** Index of the first input after the latest firing. */
  function SinceFlush(history: seq<Input>): (n: nat)
    ensures n <= |history|
    ensures n > 0 ==> history[n - 1].Fire?
    ensures forall i :: n <= i < |history| ==> !history[i].Fire?
  {
    if history == [] then 0
    else if history[|history| - 1].Fire? then |history|
    else SinceFlush(history[..|history| - 1])
  }

  /** Input i is the latest accepted event of its path since the latest firing. */
  predicate IsLatest(history: seq<Input>, i: int) {
    && SinceFlush(history) <= i < |history| && Accepted(history[i])
    && forall j :: i < j < |history| ==> !(Accepted(history[j]) && history[j].path == history[i].path)
  }

  /** Input i is the latest accepted event of all since the latest firing. */
  predicate IsLast(history: seq<Input>, i: int) {
    && SinceFlush(history) <= i < |history| && Accepted(history[i])
    && forall j :: i < j < |history| ==> !Accepted(history[j])
  }

  /** Pending holds exactly the paths with an accepted event since the last flush, each with its latest flag. */
  ghost predicate Coalesced(history: seq<Input>, pending: map<string, bool>) {
    && (forall p :: p in pending ==> exists i :: IsLatest(history, i) && history[i].path == p && history[i].removed == pending[p])
    && (forall i :: IsLatest(history, i) ==> history[i].path in pending)
  }

  lemma {:induction false} PendingIsCoalesced(history: seq<Input>)
    ensures Coalesced(history, After(history).pending)
  {
    if history == [] {
    } else {
      var front, last := history[..|history| - 1], history[|history| - 1];
      PendingIsCoalesced(front);
      CoalescedStep(front, last, After(front));
      assert front + [last] == history;
    }
  }

  lemma CoalescedStep(front: seq<Input>, last: Input, w: Loop)
    requires Coalesced(front, w.pending)
    ensures Coalesced(front + [last], Next(w, last).pending)
  {
    var history, n := front + [last], |front|;
    assert history[..n] == front;
    var pending := Next(w, last).pending;
    if last.Fire? {
      assert SinceFlush(history) == |history|;
      assert pending == map[];
    } else {
      LatestExtends(front, last);
      hide IsLatest;
      forall p | p in pending
        ensures exists i :: IsLatest(history, i) && history[i].path == p && history[i].removed == pending[p]
      {
        if Accepted(last) && last.path == p {
          assert IsLatest(history, n);
        } else {
          var i :| IsLatest(front, i) && front[i].path == p && front[i].removed == w.pending[p];
          assert IsLatest(history, i) && history[i] == front[i];
        }
      }
      forall i | IsLatest(history, i) ensures history[i].path in pending {
        if i < n { assert IsLatest(front, i); }
      }
    }
  }

  /** One more input that is not a firing: an earlier latest event stays so unless the new one is of its path. */
  lemma LatestExtends(front: seq<Input>, last: Input)
    requires !last.Fire?
    ensures forall i :: IsLatest(front, i) && !(Accepted(last) && last.path == front[i].path) ==> IsLatest(front + [last], i)
    ensures forall i :: i < |front| && IsLatest(front + [last], i) ==> IsLatest(front, i)
    ensures IsLatest(front + [last], |front|) <==> Accepted(last)
    ensures forall i :: IsLatest(front + [last], i) || IsLatest(front, i) ==> 0 <= i <= |front|
  {
    var history := front + [last];
    assert history[..|front|] == front;
    assert SinceFlush(history) == SinceFlush(front);
    forall i | i < |front| && IsLatest(history, i) ensures IsLatest(front, i) {
      assert forall j :: i < j < |front| ==> history[j] == front[j];
    }
  }

  /** The timer is armed exactly while something is pending, 500 ms after the latest accepted event. */
  ghost predicate Armed(history: seq<Input>, w: Loop) {
    && (w.pending == map[] <==> w.deadline.None?)
    && (w.deadline.Some? ==> exists i :: IsLast(history, i) && w.deadline.value == history[i].at + 500_000_000)
  }

  lemma {:induction false} TimerIsArmed(history: seq<Input>)
    ensures Armed(history, After(history))
  {
    if history == [] {
    } else {
      var n := |history| - 1;
      var front, last := history[..n], history[n];
      TimerIsArmed(front);
      var w := After(front);
      if Accepted(last) {
        assert IsLast(history, n);
        assert last.path in Next(w, last).pending;
      } else if !last.Fire? && w.deadline.Some? {
        var i :| IsLast(front, i) && w.deadline.value == front[i].at + 500_000_000;
        assert IsLast(history, i) && history[i] == front[i];
      }
    }
  }

  /**
    Debouncing: when the timer fires there is always something to flush, and every event since the previous
    firing is at least 500 ms old; afterwards nothing is pending and the timer is off.
   */
  lemma FlushIsDebounced(history: seq<Input>, at: int)
    requires IsHistory(history) && CanHappen(After(history), Fire(at))
    ensures After(history).pending != map[]
    ensures forall i :: SinceFlush(history) <= i < |history| && Accepted(history[i]) ==> history[i].at + 500_000_000 <= at
    ensures After(history + [Fire(at)]) == IDLE
  {
    TimerIsArmed(history);
    var w := After(history);
    var last :| IsLast(history, last) && w.deadline.value == history[last].at + 500_000_000;
    assert (history + [Fire(at)])[..|history|] == history;
    hide IsHistory, After;
    forall i | SinceFlush(history) <= i < |history| && Accepted(history[i])
      ensures history[i].at + 500_000_000 <= at
    {
      assert i <= last;
      TimesOrdered(history, i, last);
    }
  }

  lemma {:induction false} TimesOrdered(history: seq<Input>, i: nat, j: nat)
    requires IsHistory(history) && i <= j < |history|
    ensures history[i].at <= history[j].at
    decreases j
  {
    if i == j {
    } else {
      TimesOrdered(history, i, j - 1);
    }
  }

  // ---------- the flush ----------

  /** Which statements of the database call for a path fail. */
  type Faults = map<string, set<Statement>>

  function FaultsOf(faults: Faults, path: string): set<Statement> {
    if path in faults then faults[path] else {}
  }

  datatype Batch = Batch(pending: map<string, bool>, disk: Disk, faults: Faults, hash: Hash)

  function RowAfter(b: Batch, row: Option<Row>, p: string): Option<Row>
    requires p in b.pending
  {
    if b.pending[p] then ForgottenRow(row, FaultsOf(b.faults, p))
    else IndexedRow(row, b.hash, b.disk, p, FaultsOf(b.faults, p))
  }

  predicate Succeeds(b: Batch, row: Option<Row>, p: string)
    requires p in b.pending
  {
    if b.pending[p] then ForgetFailure(row, FaultsOf(b.faults, p)).None?
    else IndexFailure(row, b.hash, b.disk, p, FaultsOf(b.faults, p)).None?
  }

  /** The index once the paths in `done` are flushed. It does not depend on the order they were taken in. */
  function FlushedRows(b: Batch, rows: map<string, Row>, done: set<string>): map<string, Row>
    requires done <= b.pending.Keys
  {
    map p | p in rows.Keys + done && (p in done ==> RowAfter(b, CurrentRow(rows, p), p).Some?) ::
      if p in done then RowAfter(b, CurrentRow(rows, p), p).value else rows[p]
  }

  /** The cached entries that name none of the paths. */
  function Unnaming(s: Lru.Recency, paths: set<string>): Lru.Recency {
    if s == [] then []
    else if exists p :: p in paths && Lru.Mentions(s[0].results, p) then Unnaming(s[1..], paths)
    else [s[0]] + Unnaming(s[1..], paths)
  }

  function Successes(b: Batch, rows: map<string, Row>, done: set<string>): set<string> {
    set p | p in done && p in b.pending && Succeeds(b, CurrentRow(rows, p), p)
  }

  lemma {:induction false} UnnamingNone(s: Lru.Recency)
    ensures Unnaming(s, {}) == s
  {
    if s == [] {
    } else {
      UnnamingNone(s[1..]);
    }
  }

  lemma {:induction false} UnnamingMembers(s: Lru.Recency, paths: set<string>)
    ensures forall x :: x in Unnaming(s, paths) <==> x in s && forall p :: p in paths ==> !Lru.Mentions(x.results, p)
  {
    if s == [] {
    } else {
      UnnamingMembers(s[1..], paths);
    }
  }

  lemma {:induction false} InvalidateOneMore(s: Lru.Recency, paths: set<string>, path: string, seen: set<string>)
    requires Lru.KeySet(Unnaming(s, paths)) <= seen
    ensures Lru.Surviving(Unnaming(s, paths), seen, path) == Unnaming(s, paths + {path})
  {
    if s == [] {
    } else {
      var u := Unnaming(s, paths);
      if exists p :: p in paths && Lru.Mentions(s[0].results, p) {
        var p :| p in paths && Lru.Mentions(s[0].results, p);
        assert p in paths + {path};
        InvalidateOneMore(s[1..], paths, path, seen);
      } else {
        assert u[0] == s[0] && u[1..] == Unnaming(s[1..], paths);
        assert u[0].key in Lru.KeySet(u);
        forall k | k in Lru.KeySet(u[1..]) ensures k in seen {
          var i :| 0 <= i < |u[1..]| && u[1..][i].key == k;
          assert u[i + 1].key == k;
        }
        InvalidateOneMore(s[1..], paths, path, seen);
        if Lru.Mentions(s[0].results, path) { assert path in paths + {path}; }
      }
    }
  }

  lemma FlushOneMore(b: Batch, rows: map<string, Row>, done: set<string>, p: string)
    requires done <= b.pending.Keys && p in b.pending && p !in done
    ensures CurrentRow(FlushedRows(b, rows, done), p) == CurrentRow(rows, p)
    ensures WithRow(FlushedRows(b, rows, done), p, RowAfter(b, CurrentRow(rows, p), p)) == FlushedRows(b, rows, done + {p})
    ensures Successes(b, rows, done + {p})
         == Successes(b, rows, done) + (if Succeeds(b, CurrentRow(rows, p), p) then {p} else {})
  {
    hide RowAfter, Succeeds;
    var a, c := WithRow(FlushedRows(b, rows, done), p, RowAfter(b, CurrentRow(rows, p), p)), FlushedRows(b, rows, done + {p});
    assert a.Keys == c.Keys;
  }

  lemma NothingPending(rows: map<string, Row>, held: Lru.Recency, b: Batch)
    requires b.pending == map[]
    ensures FlushedRows(b, rows, b.pending.Keys) == rows
    ensures Unnaming(held, Successes(b, rows, b.pending.Keys)) == held
  {
    UnnamingNone(held);
    assert Successes(b, rows, b.pending.Keys) == {};
  }

  // ---------- the loop and what it acts on, together ----------

  /** The loop, the index and the cache. */
  datatype System = System(loop: Loop, rows: map<string, Row>, held: Lru.Recency)

  /** One turn of the loop; the disk and the statements that fail matter only when the timer fires. */
  datatype Turn = Turn(input: Input, disk: Disk, faults: Faults)

  function BatchOf(hash: Hash, s: System, t: Turn): Batch {
    Batch(if t.input.Fire? then s.loop.pending else map[], t.disk, t.faults, hash)
  }

  function TurnNext(hash: Hash, s: System, t: Turn): System {
    var b := BatchOf(hash, s, t);
    System(Next(s.loop, t.input), FlushedRows(b, s.rows, b.pending.Keys),
           Unnaming(s.held, Successes(b, s.rows, b.pending.Keys)))
  }

  class Watcher {
    const database: Database
    const cache: Cache.Cache
    var pending: map<string, bool>
    var deadline: Option<int>

    ghost predicate Ready()
      reads database, cache, cache.repr
      ensures Ready() ==> Bijective(database.tables)
    {
      Sound(database.tables, database.hash) && cache.Valid()
    }

    constructor (database: Database, cache: Cache.Cache)
      ensures this.database == database && this.cache == cache && State() == IDLE
    {
      this.database, this.cache := database, cache;
      pending, deadline := map[], None;
    }

    ghost function State(): Loop
      reads this
    {
      Loop(pending, deadline)
    }

    ghost function Everything(): System
      reads this, database, cache, cache.repr
      requires Ready()
    {
      System(State(), Rows(database.tables), cache.contents)
    }

    /** One turn of the event loop; `disk` and `faults` matter only when the timer fires. */
    method Handle(input: Input, disk: Disk, faults: Faults)
      requires Ready() && CanHappen(State(), input)
      modifies this, database, cache, cache.repr
      ensures Ready() && cache.repr == old(cache.repr)
      ensures Everything() == TurnNext(database.hash, old(Everything()), Turn(input, disk, faults))
      ensures !input.Fire? ==> database.tables == old(database.tables) && cache.contents == old(cache.contents)
    {
      hide Ready;
      NothingPending(Rows(database.tables), cache.contents, Batch(map[], disk, faults, database.hash));
      hide FlushedRows, Successes, Unnaming;
      match input
      case Event(path, createdDir, supported, removed, at) =>
        if createdDir || !supported { return; }
        pending := pending[path := removed];
        deadline := Some(at + BATCH_DELAY);
      case WatchError(_) =>
      case Fire(_) =>
        deadline := None;
        if pending == map[] {
          return;
        }
        Flush(pending, disk, faults);
        pending := map[];
    }

    /** Handles one path of the batch, then invalidates what the cache says about it unless that failed. */
    method FlushOne(p: string, ghost b: Batch, removed: bool, disk: Disk, fails: set<Statement>)
      requires Ready() && p in b.pending && b.pending[p] == removed
      requires b.disk == disk && FaultsOf(b.faults, p) == fails && b.hash == database.hash
      modifies database, cache, cache.repr
      ensures Ready() && cache.repr == old(cache.repr)
      ensures Rows(database.tables) == old(WithRow(Rows(database.tables), p,
                RowAfter(b, CurrentRow(Rows(database.tables), p), p)))
      ensures cache.contents == old(if Succeeds(b, CurrentRow(Rows(database.tables), p), p)
                                    then Lru.AfterInvalidate(cache.contents, p) else cache.contents)
    {
      var ok: bool;
      if removed {
        var err := Forget(database, p, fails);
        ok := err.None?;
      } else {
        var err := IndexFile(database, disk, p, fails);
        ok := err.None?;
      }
      if ok {
        cache.InvalidateByPath(p);
      }
    }

    /**
      Applies a batch: first every deletion, then every change, each group in the arbitrary order the map is
      walked in. The outcome is a function of the batch alone.
     */
    method Flush(pending: map<string, bool>, disk: Disk, faults: Faults)
      requires Ready()
      modifies database, cache, cache.repr
      ensures Ready() && cache.repr == old(cache.repr)
      ensures Rows(database.tables)
           == FlushedRows(Batch(pending, disk, faults, database.hash), Rows(old(database.tables)), pending.Keys)
      ensures cache.contents == Unnaming(old(cache.contents),
                Successes(Batch(pending, disk, faults, database.hash), Rows(old(database.tables)), pending.Keys))
    {
      hide Ready;
      ghost var b := Batch(pending, disk, faults, database.hash);
      ghost var rows, held := Rows(database.tables), cache.contents;
      var deleted, changed := Split(pending);
      UnnamingNone(held);
      ghost var gone := set p | p in deleted;
      assert FlushedRows(b, rows, {}) == rows && Successes(b, rows, {}) == {};
      hide FlushedRows, Successes, Unnaming;
      FlushAll(deleted, true, disk, faults, b, rows, held, {}, gone);
      FlushAll(changed, false, disk, faults, b, rows, held, gone, pending.Keys);
    }

    /** One turn of either loop of the flush. */
    method FlushNext(p: string, removed: bool, disk: Disk, faults: Faults, ghost b: Batch,
                     ghost rows: map<string, Row>, ghost held: Lru.Recency, ghost done: set<string>)
      requires Ready()
      requires b.disk == disk && b.faults == faults && b.hash == database.hash && done <= b.pending.Keys
      requires p in b.pending && p !in done && b.pending[p] == removed
      requires Rows(database.tables) == FlushedRows(b, rows, done)
      requires cache.contents == Unnaming(held, Successes(b, rows, done))
      modifies database, cache, cache.repr
      ensures Ready() && cache.repr == old(cache.repr)
      ensures Rows(database.tables) == FlushedRows(b, rows, done + {p})
      ensures cache.contents == Unnaming(held, Successes(b, rows, done + {p}))
    {
      hide Ready, FlushedRows, Successes, Unnaming, RowAfter, Succeeds, WithRow;
      FlushOneMore(b, rows, done, p);
      InvalidateOneMore(held, Successes(b, rows, done), p, Lru.KeySet(cache.contents));
      FlushOne(p, b, removed, disk, FaultsOf(faults, p));
      assert Successes(b, rows, done) + {} == Successes(b, rows, done);
    }

    /** One of the two loops of the flush: `done` are the paths flushed before it, `after` those flushed after it. */
    method FlushAll(paths: seq<string>, removed: bool, disk: Disk, faults: Faults, ghost b: Batch,
                    ghost rows: map<string, Row>, ghost held: Lru.Recency, ghost done: set<string>, ghost after: set<string>)
      requires Ready()
      requires b.disk == disk && b.faults == faults && b.hash == database.hash && after <= b.pending.Keys
      requires forall p :: p in paths ==> p in b.pending && p !in done && b.pending[p] == removed
      requires forall p :: p in after <==> p in done || p in paths
      requires forall i, j :: 0 <= i < j < |paths| ==> paths[i] != paths[j]
      requires Rows(database.tables) == FlushedRows(b, rows, done)
      requires cache.contents == Unnaming(held, Successes(b, rows, done))
      modifies database, cache, cache.repr
      ensures Ready() && cache.repr == old(cache.repr)
      ensures Rows(database.tables) == FlushedRows(b, rows, after)
      ensures cache.contents == Unnaming(held, Successes(b, rows, after))
    {
      hide Ready, FlushedRows, Successes, Unnaming;
      ghost var now := done;
      for i := 0 to |paths|
        invariant Ready() && cache.repr == old(cache.repr)
        invariant now <= b.pending.Keys && forall p :: p in now <==> p in done || p in paths[..i]
        invariant Rows(database.tables) == FlushedRows(b, rows, now)
        invariant cache.contents == Unnaming(held, Successes(b, rows, now))
      {
        var p := paths[i];
        assert p in paths && p !in paths[..i];
        FlushNext(p, removed, disk, faults, b, rows, held, now);
        now := now + {p};
        assert paths[..i + 1] == paths[..i] + [p];
      }
      assert paths[..|paths|] == paths;
      assert now == after;
    }
  }

  /** Sorts the pending paths into deletions and changes, in the order the map yields them. */
  method Split(pending: map<string, bool>) returns (deleted: seq<string>, changed: seq<string>)
    ensures forall p :: p in deleted <==> p in pending && pending[p]
    ensures forall p :: p in changed <==> p in pending && !pending[p]
    ensures forall i, j :: 0 <= i < j < |deleted| ==> deleted[i] != deleted[j]
    ensures forall i, j :: 0 <= i < j < |changed| ==> changed[i] != changed[j]
  {
    deleted, changed := [], [];
    var todo := pending.Keys;
    while todo != {}
      invariant todo <= pending.Keys
      invariant forall p :: p in deleted <==> p in pending && p !in todo && pending[p]
      invariant forall p :: p in changed <==> p in pending && p !in todo && !pending[p]
      invariant forall i, j :: 0 <= i < j < |deleted| ==> deleted[i] != deleted[j]
      invariant forall i, j :: 0 <= i < j < |changed| ==> changed[i] != changed[j]
      decreases todo
    {
      var p :| p in todo;
      if pending[p] {
        deleted := deleted + [p];
      } else {
        changed := changed + [p];
      }
      todo := todo - {p};
    }
  }

  /** After a flush no cached result names a path it handled, and entries that name none keep their order. */
  lemma FlushLeavesNothingStale(held: Lru.Recency, b: Batch, rows: map<string, Row>, x: Lru.Item, p: string)
    requires p in b.pending && Succeeds(b, CurrentRow(rows, p), p)
    requires x in Unnaming(held, Successes(b, rows, b.pending.Keys))
    ensures forall j :: 0 <= j < |x.results| ==> x.results[j].path != p
  {
    UnnamingMembers(held, Successes(b, rows, b.pending.Keys));
    assert !Lru.Mentions(x.results, p);
  }

  /** After a flush the cache holds the entries of before that name no successful path, in their order. */
  lemma FlushKeepsTheRest(held: Lru.Recency, b: Batch, rows: map<string, Row>)
    ensures var after := Unnaming(held, Successes(b, rows, b.pending.Keys));
      && Lru.InOrder(after, held)
      && forall x :: x in after <==>
           x in held && forall j :: 0 <= j < |x.results| ==>
             var p := x.results[j].path; !(p in b.pending && Succeeds(b, CurrentRow(rows, p), p))
  {
    var paths := Successes(b, rows, b.pending.Keys);
    hide Succeeds, Lru.InOrder, Unnaming;
    UnnamingMembers(held, paths);
    UnnamingInOrder(held, paths);
    forall x: Lru.Item
      ensures (forall p :: p in paths ==> !Lru.Mentions(x.results, p))
         <==> forall j :: 0 <= j < |x.results| ==> x.results[j].path !in paths
    {
      if j :| 0 <= j < |x.results| && x.results[j].path in paths {
        assert Lru.Mentions(x.results, x.results[j].path);
      }
    }
  }

  lemma {:induction false} UnnamingInOrder(s: Lru.Recency, paths: set<string>)
    ensures Lru.InOrder(Unnaming(s, paths), s)
  {
    hide Lru.InOrder;
    if s == [] {
      Lru.EmptyInOrder(s);
    } else {
      UnnamingInOrder(s[1..], paths);
      UnnamingMembers(s[1..], paths);
      Lru.InOrderBehind(Unnaming(s[1..], paths), s[0], s[1..]);
      assert s == [s[0]] + s[1..];
    }
  }

  /** A flush changes the rows of its batch as their own calls do, and no other row. */
  lemma FlushedExactly(b: Batch, rows: map<string, Row>, p: string)
    ensures var after := FlushedRows(b, rows, b.pending.Keys);
      CurrentRow(after, p) == if p in b.pending then RowAfter(b, CurrentRow(rows, p), p) else CurrentRow(rows, p)
  {
    hide RowAfter;
  }

  /** The calls: a path whose latest event removed it is deleted, any other is indexed from the disk. */
  lemma CallExactly(b: Batch, row: Option<Row>, p: string)
    requires p in b.pending
    ensures b.pending[p] ==>
              var err := FirstFailing(DeleteStatements(row.Some?), FaultsOf(b.faults, p));
              (Succeeds(b, row, p) <==> err.None?) && RowAfter(b, row, p) == if err.None? then None else row
    ensures !b.pending[p] ==>
              (Succeeds(b, row, p) <==> IndexFailure(row, b.hash, b.disk, p, FaultsOf(b.faults, p)).None?)
              && RowAfter(b, row, p) == IndexedRow(row, b.hash, b.disk, p, FaultsOf(b.faults, p))
  {
  }

  /**
    A handled path ends as the disk says: gone when it was deleted; otherwise, when the file was readable and not blank,
    with the digest of its name, stem and text, and with those and the file's mtime unless that digest was already stored.
   */
  lemma FlushReflectsDisk(b: Batch, rows: map<string, Row>, p: string)
    requires p in b.pending
    ensures var ok, after := Succeeds(b, CurrentRow(rows, p), p), FlushedRows(b, rows, b.pending.Keys);
      && (ok && b.pending[p] ==> p !in after)
      && (!ok ==> CurrentRow(after, p) == CurrentRow(rows, p))
      && (ok && !b.pending[p] ==>
            && p in b.disk && b.disk[p].text.Some?
            && var content := b.disk[p].name + "\n" + b.disk[p].stem + "\n" + b.disk[p].text.value;
               (exists i :: 0 <= i < |content| && !Text.IsSpace(content[i])) ==>
                 && p in after && after[p].hash == b.hash(content)
                 && ((p in rows && rows[p].hash == b.hash(content))
                     || (after[p].content == content && after[p].mtime == b.disk[p].mtime)))
  {
    hide FirstFailing;
    IndexedExactly(CurrentRow(rows, p), b.hash, b.disk, p, FaultsOf(b.faults, p));
  }

  // ---------- when a history has gone quiet ----------

  /** A turn of the loop, and what the rest of the program does with the cache until the next one. */
  datatype Round = Round(turn: Turn, others: seq<Lru.Op>)

  /** What a history starts from. */
  datatype Setting = Setting(cfg: Lru.Config, hash: Hash, rows: map<string, Row>, held: Lru.Recency)

  function RoundNext(g: Setting, s: System, r: Round): System {
    var t := TurnNext(g.hash, s, r.turn);
    t.(held := Lru.Run(g.cfg, t.held, r.others))
  }

  /** The system after these rounds, the latest last. */
  function AfterRounds(g: Setting, rounds: seq<Round>): System {
    if rounds == [] then System(IDLE, g.rows, g.held)
    else RoundNext(g, AfterRounds(g, rounds[..|rounds| - 1]), rounds[|rounds| - 1])
  }

  function Inputs(rounds: seq<Round>): (r: seq<Input>)
    ensures |r| == |rounds|
  {
    seq(|rounds|, i requires 0 <= i < |rounds| => rounds[i].turn.input)
  }

  lemma {:induction false} LoopOfRounds(g: Setting, rounds: seq<Round>)
    ensures AfterRounds(g, rounds).loop == After(Inputs(rounds))
  {
    if rounds == [] {
    } else {
      LoopOfRounds(g, rounds[..|rounds| - 1]);
      assert Inputs(rounds)[..|rounds| - 1] == Inputs(rounds[..|rounds| - 1]);
    }
  }

  predicate AcceptedFor(input: Input, p: string) {
    Accepted(input) && input.path == p
  }

  /** Turn i brings the latest accepted event of the path. */
  predicate LatestOf(rounds: seq<Round>, p: string, i: int) {
    && 0 <= i < |rounds| && AcceptedFor(rounds[i].turn.input, p)
    && forall k :: i < k < |rounds| ==> !AcceptedFor(rounds[k].turn.input, p)
  }

  /** Turn j is the first firing after turn i. */
  predicate FirstFiring(rounds: seq<Round>, i: int, j: int) {
    0 <= i < j < |rounds| && rounds[j].turn.input.Fire? && forall k :: i < k < j ==> !rounds[k].turn.input.Fire?
  }

  /** The entry is what a store of these operations wrote. */
  predicate StoredBy(cfg: Lru.Config, ops: seq<Lru.Op>, x: Lru.Item) {
    exists k :: 0 <= k < |ops| && ops[k].Set? && Lru.Stored(cfg, ops[k]) == x
  }

  /** The entry was stored by the rest of the program after turn j or a later one. */
  predicate StoredSince(g: Setting, rounds: seq<Round>, j: int, x: Lru.Item) {
    exists k :: 0 <= j <= k < |rounds| && StoredBy(g.cfg, rounds[k].others, x)
  }

  /** A turn leaves alone the row of a path that is not in its batch, and only takes entries out of the cache. */
  lemma TurnFrame(hash: Hash, s: System, t: Turn, p: string)
    ensures p !in s.loop.pending ==> CurrentRow(TurnNext(hash, s, t).rows, p) == CurrentRow(s.rows, p)
    ensures p !in s.loop.pending && !AcceptedFor(t.input, p) ==> p !in TurnNext(hash, s, t).loop.pending
    ensures forall x :: x in TurnNext(hash, s, t).held ==> x in s.held
  {
    hide RowAfter, Succeeds;
    var b := BatchOf(hash, s, t);
    UnnamingMembers(s.held, Successes(b, s.rows, b.pending.Keys));
  }

  /** After the turn only the cache changes, and only stores bring entries into it. */
  lemma OthersFrame(g: Setting, s: System, r: Round)
    ensures var t, u := TurnNext(g.hash, s, r.turn), RoundNext(g, s, r);
      && u.loop == t.loop && u.rows == t.rows
      && forall x :: x in u.held ==> x in t.held || StoredBy(g.cfg, r.others, x)
  {
    hide TurnNext;
    Lru.RunMembers(g.cfg, TurnNext(g.hash, s, r.turn).held, r.others);
  }

  /** Between two moments of a history the path's row stayed as it is, and every entry that is new has been stored since. */
  ghost predicate Settled(g: Setting, rounds: seq<Round>, p: string, m: nat, earlier: System, now: System) {
    && p !in now.loop.pending && CurrentRow(now.rows, p) == CurrentRow(earlier.rows, p)
    && forall x :: x in now.held ==> x in earlier.held || StoredSince(g, rounds, m, x)
  }

  /** Once a path is not pending, and until it has an accepted event again, its row stays as it is. */
  lemma {:induction false} RowStays(g: Setting, rounds: seq<Round>, p: string, m: nat)
    requires m <= |rounds| && p !in AfterRounds(g, rounds[..m]).loop.pending
    requires forall k :: m <= k < |rounds| ==> !AcceptedFor(rounds[k].turn.input, p)
    ensures Settled(g, rounds, p, m, AfterRounds(g, rounds[..m]), AfterRounds(g, rounds))
    decreases |rounds|
  {
    hide TurnNext, RoundNext, AcceptedFor, StoredBy;
    if m == |rounds| {
      assert rounds[..m] == rounds;
    } else {
      var front, last := rounds[..|rounds| - 1], rounds[|rounds| - 1];
      assert front[..m] == rounds[..m];
      RowStays(g, front, p, m);
      TurnFrame(g.hash, AfterRounds(g, front), last.turn, p);
      OthersFrame(g, AfterRounds(g, front), last);
      assert forall x :: StoredSince(g, front, m, x) ==> StoredSince(g, rounds, m, x) by {
        assert forall k :: 0 <= k < |front| ==> rounds[k] == front[k];
      }
      assert forall x :: StoredBy(g.cfg, last.others, x) ==> StoredSince(g, rounds, m, x) by {
        assert rounds[|rounds| - 1] == last;
      }
    }
  }

  /** A latest event is pending with its own flag. */
  lemma LatestIsPending(history: seq<Input>, i: int)
    requires IsLatest(history, i)
    ensures history[i].path in After(history).pending && After(history).pending[history[i].path] == history[i].removed
  {
    hide After, SinceFlush;
    PendingIsCoalesced(history);
    var pending, p := After(history).pending, history[i].path;
    var k :| IsLatest(history, k) && history[k].path == p && history[k].removed == pending[p];
    assert k == i;
  }

  lemma LatestBeforeFiring(rounds: seq<Round>, p: string, i: int, j: int)
    requires LatestOf(rounds, p, i) && FirstFiring(rounds, i, j)
    ensures IsLatest(Inputs(rounds[..j]), i) && Inputs(rounds[..j])[i] == rounds[i].turn.input
  {
    var inputs := Inputs(rounds[..j]);
    assert forall k :: i <= k < j ==> inputs[k] == rounds[k].turn.input;
    assert SinceFlush(inputs) <= i;
  }

  /** What is pending for a path when the timer fires for the first time after its latest event: that event's flag. */
  lemma PendingAtFiring(g: Setting, rounds: seq<Round>, p: string, i: int, j: int)
    requires LatestOf(rounds, p, i) && FirstFiring(rounds, i, j)
    ensures var s := AfterRounds(g, rounds[..j]);
      p in s.loop.pending && s.loop.pending[p] == rounds[i].turn.input.removed
  {
    LoopOfRounds(g, rounds[..j]);
    LatestBeforeFiring(rounds, p, i, j);
    hide After, AfterRounds, IsLatest, Inputs;
    LatestIsPending(Inputs(rounds[..j]), i);
  }

  /**
    The flush at turn j had the path with this flag and left its row as it is at the end; and if its call succeeded,
    every cached entry that names the path has been stored since.
   */
  ghost predicate FlushedAt(g: Setting, rounds: seq<Round>, p: string, j: nat, removed: bool, end: System)
    requires j < |rounds|
  {
    var s := AfterRounds(g, rounds[..j]);
    var b := BatchOf(g.hash, s, rounds[j].turn);
    && p in b.pending && b.pending[p] == removed && CurrentRow(end.rows, p) == RowAfter(b, CurrentRow(s.rows, p), p)
    && (Succeeds(b, CurrentRow(s.rows, p), p) ==>
          forall x, m :: x in end.held && 0 <= m < |x.results| && x.results[m].path == p ==> StoredSince(g, rounds, j, x))
  }

  /** What a firing does to a path that is pending. */
  lemma FiringTurn(hash: Hash, s: System, t: Turn, p: string)
    requires t.input.Fire? && p in s.loop.pending
    ensures var b, after := BatchOf(hash, s, t), TurnNext(hash, s, t);
      && p !in after.loop.pending && CurrentRow(after.rows, p) == RowAfter(b, CurrentRow(s.rows, p), p)
      && (Succeeds(b, CurrentRow(s.rows, p), p) ==> forall x :: x in after.held ==> !Lru.Mentions(x.results, p))
  {
    hide RowAfter, Succeeds;
    var b := BatchOf(hash, s, t);
    UnnamingMembers(s.held, Successes(b, s.rows, b.pending.Keys));
  }

  lemma AfterOneMore(g: Setting, rounds: seq<Round>, j: nat)
    requires j < |rounds|
    ensures AfterRounds(g, rounds[..j + 1]) == RoundNext(g, AfterRounds(g, rounds[..j]), rounds[j])
  {
    assert rounds[..j + 1][..j] == rounds[..j];
  }

  lemma LatestEnds(rounds: seq<Round>, p: string, i: int)
    requires LatestOf(rounds, p, i)
    ensures forall k :: 0 <= i < k < |rounds| ==> !AcceptedFor(rounds[k].turn.input, p)
  {
  }

  lemma SinceFiring(g: Setting, rounds: seq<Round>, j: nat)
    requires j < |rounds|
    ensures forall x :: StoredSince(g, rounds, j + 1, x) || StoredBy(g.cfg, rounds[j].others, x) ==> StoredSince(g, rounds, j, x)
  {
    hide StoredBy;
  }

  lemma FlushLasts(g: Setting, rounds: seq<Round>, p: string, i: int, j: int)
    requires LatestOf(rounds, p, i) && FirstFiring(rounds, i, j)
    ensures FlushedAt(g, rounds, p, j, rounds[i].turn.input.removed, AfterRounds(g, rounds))
  {
    var s := AfterRounds(g, rounds[..j]);
    AfterOneMore(g, rounds, j);
    hide AfterRounds, LatestOf, TurnNext, RoundNext, RowAfter, Succeeds, StoredBy, StoredSince;
    PendingAtFiring(g, rounds, p, i, j);
    FiringTurn(g.hash, s, rounds[j].turn, p);
    OthersFrame(g, s, rounds[j]);
    LatestEnds(rounds, p, i);
    RowStays(g, rounds, p, j + 1);
    SinceFiring(g, rounds, j);
  }

  /**
    When nothing is pending any more, a path without accepted events has the row it had at the start, and any other
    path has been flushed for good: its latest event was at least 500 ms old when the timer fired next, its row is the
    one that firing's call for it left, with that event's flag and the disk of that moment, and if the call succeeded
    every entry of the cache that names the path was stored after that firing.
   */
  lemma QuietHistory(g: Setting, rounds: seq<Round>, p: string)
    requires IsHistory(Inputs(rounds)) && After(Inputs(rounds)).pending == map[]
    ensures var end := AfterRounds(g, rounds);
      || ((forall k :: 0 <= k < |rounds| ==> !AcceptedFor(rounds[k].turn.input, p))
          && CurrentRow(end.rows, p) == CurrentRow(g.rows, p))
      || exists i, j :: LatestOf(rounds, p, i) && FirstFiring(rounds, i, j)
           && rounds[j].turn.input.at >= rounds[i].turn.input.at + 500_000_000
           && FlushedAt(g, rounds, p, j, rounds[i].turn.input.removed, end)
  {
    if k :| 0 <= k < |rounds| && AcceptedFor(rounds[k].turn.input, p) {
      var i := Latest(rounds, p, k);
      var j := Firing(rounds, p, i);
      FlushLasts(g, rounds, p, i, j);
      FiringIsLate(rounds, p, i, j);
    } else {
      assert rounds[..0] == [];
      RowStays(g, rounds, p, 0);
    }
  }

  lemma {:induction false} Latest(rounds: seq<Round>, p: string, k: nat) returns (i: int)
    requires k < |rounds| && AcceptedFor(rounds[k].turn.input, p)
    ensures LatestOf(rounds, p, i)
    decreases |rounds| - k
  {
    if m :| k < m < |rounds| && AcceptedFor(rounds[m].turn.input, p) {
      i := Latest(rounds, p, m);
    } else {
      i := k;
    }
  }

  /** A latest event that is not pending any more has been followed by a firing. */
  lemma Firing(rounds: seq<Round>, p: string, i: int) returns (j: int)
    requires LatestOf(rounds, p, i) && p !in After(Inputs(rounds)).pending
    ensures FirstFiring(rounds, i, j)
  {
    var inputs := Inputs(rounds);
    PendingIsCoalesced(inputs);
    assert !IsLatest(inputs, i);
    var n := SinceFlush(inputs);
    j := FirstFrom(rounds, i, i + 1, n - 1);
  }

  lemma {:induction false} FirstFrom(rounds: seq<Round>, i: int, k: int, n: int) returns (j: int)
    requires 0 <= i < k <= n < |rounds| && rounds[n].turn.input.Fire?
    requires forall m :: i < m < k ==> !rounds[m].turn.input.Fire?
    ensures FirstFiring(rounds, i, j)
    decreases n - k
  {
    if rounds[k].turn.input.Fire? {
      j := k;
    } else {
      j := FirstFrom(rounds, i, k + 1, n);
    }
  }

  lemma FiringIsLate(rounds: seq<Round>, p: string, i: int, j: int)
    requires IsHistory(Inputs(rounds)) && LatestOf(rounds, p, i) && FirstFiring(rounds, i, j)
    ensures rounds[j].turn.input.at >= rounds[i].turn.input.at + 500_000_000
  {
    var inputs := Inputs(rounds);
    var front := inputs[..j];
    HistoryPrefix(inputs, j);
    hide After, IsHistory;
    FlushIsDebounced(front, inputs[j].at);
    assert front[i] == rounds[i].turn.input;
    assert SinceFlush(front) <= i;
  }

  lemma HistoryPrefix(history: seq<Input>, j: nat)
    requires IsHistory(history) && j < |history|
    ensures IsHistory(history[..j]) && CanHappen(After(history[..j]), history[j])
  {
    hide After, CanHappen;
    assert forall k :: 0 <= k <= j ==> history[..j][..k] == history[..k];
  }
}
