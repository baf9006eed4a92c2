/**
  The search cache seen as a value: its entries in recency order, most recently touched first.
  Every operation of the linked-list cache refines one function of this module, and the
  least-recently-used guarantee is proved here, about whole runs.
 */
module Lru {
  import opened Options
  import Sets

  datatype Result = Result(path: string, snippet: string)

  datatype Item = Item(key: string, results: seq<Result>, total: int, exp: int)

  type Recency = seq<Item>

  /** What a lookup hands back on a hit. */
  datatype Answer = Answer(results: seq<Result>, total: int)

  /** Capacity and time to live (nanoseconds). */
  datatype Config = Config(maxSize: int, ttl: int) {
    predicate Valid() { maxSize > 0 && ttl > 0 }
  }

  const DEFAULT_MAX_SIZE := 128
  const DEFAULT_TTL := 30_000_000_000

  predicate Mentions(results: seq<Result>, path: string) {
    exists i :: 0 <= i < |results| && results[i].path == path
  }

  predicate DistinctKeys(s: Recency) {
    forall i, j :: 0 <= i < j < |s| ==> s[i].key != s[j].key
  }

  predicate Bounded(cfg: Config, s: Recency) {
    DistinctKeys(s) && |s| <= cfg.maxSize
  }

  function Lookup(s: Recency, key: string): (r: Option<Item>)
    ensures r.Some? ==> r.value.key == key
  {
    if s == [] then None
    else if s[0].key == key then Some(s[0])
    else Lookup(s[1..], key)
  }

  lemma {:induction false} LookupFinds(s: Recency, key: string)
    ensures Lookup(s, key).Some? ==> Lookup(s, key).value in s
    ensures Lookup(s, key).None? <==> forall i :: 0 <= i < |s| ==> s[i].key != key
  {
    if s == [] {
    } else {
      LookupFinds(s[1..], key);
    }
  }

  function Without(s: Recency, key: string): (r: Recency)
    ensures |r| <= |s|
    ensures forall i :: 0 <= i < |r| ==> r[i].key != key
  {
    if s == [] then []
    else if s[0].key == key then Without(s[1..], key)
    else [s[0]] + Without(s[1..], key)
  }

  /** The entries an invalidation of `path` keeps, looking only at the keys in `seen`. */
  function Surviving(s: Recency, seen: set<string>, path: string): Recency {
    if s == [] then []
    else if s[0].key in seen && Mentions(s[0].results, path) then Surviving(s[1..], seen, path)
    else [s[0]] + Surviving(s[1..], seen, path)
  }

  // ---------- operations ----------

  function AfterGet(s: Recency, key: string, now: int): Recency {
    match Lookup(s, key)
    case None => s
    case Some(item) => if now > item.exp then Without(s, key) else [item] + Without(s, key)
  }

  function GetAnswer(s: Recency, key: string, now: int): Option<Answer> {
    match Lookup(s, key)
    case None => None
    case Some(item) => if now > item.exp then None else Some(Answer(item.results, item.total))
  }

  function AfterSet(cfg: Config, s: Recency, item: Item): Recency {
    var t := [item] + Without(s, item.key);
    if |t| > cfg.maxSize then t[..|t| - 1] else t
  }

  function AfterInvalidate(s: Recency, path: string): Recency {
    Surviving(s, KeySet(s), path)
  }

  datatype Op =
    | Get(key: string, now: int)
    | Set(key: string, results: seq<Result>, total: int, now: int)
    | Flush
    | Invalidate(path: string)

  function Stored(cfg: Config, op: Op): Item
    requires op.Set?
  {
    Item(op.key, op.results, op.total, op.now + cfg.ttl)
  }

  function Step(cfg: Config, s: Recency, op: Op): Recency {
    match op
    case Get(key, now) => AfterGet(s, key, now)
    case Set(_, _, _, _) => AfterSet(cfg, s, Stored(cfg, op))
    case Flush => []
    case Invalidate(path) => AfterInvalidate(s, path)
  }

  function Run(cfg: Config, s: Recency, ops: seq<Op>): Recency
    decreases |ops|
  {
    if ops == [] then s else Run(cfg, Step(cfg, s, ops[0]), ops[1..])
  }

  // ---------- elementary facts ----------

  function KeySet(s: Recency): set<string> {
    set i | 0 <= i < |s| :: s[i].key
  }

  lemma {:induction false} WithoutMembers(s: Recency, key: string)
    ensures forall x :: x in Without(s, key) <==> x in s && x.key != key
  {
    if s == [] {
    } else {
      WithoutMembers(s[1..], key);
    }
  }

  lemma AfterGetMembers(s: Recency, key: string, now: int)
    ensures forall x :: x in AfterGet(s, key, now) ==> x in s
  {
    WithoutMembers(s, key);
    LookupFinds(s, key);
  }

  lemma AfterSetMembers(cfg: Config, s: Recency, item: Item)
    ensures forall x :: x in AfterSet(cfg, s, item) ==> x in s || x == item
  {
    WithoutMembers(s, item.key);
  }

  lemma {:induction false} WithoutKeepsDistinct(s: Recency, key: string)
    requires DistinctKeys(s)
    ensures DistinctKeys(Without(s, key))
  {
    if s == [] {
    } else {
      WithoutKeepsDistinct(s[1..], key);
      var w := Without(s[1..], key);
      WithoutMembers(s[1..], key);
      forall j | 0 <= j < |w| ensures w[j].key != s[0].key {
        assert w[j] in s[1..];
      }
    }
  }

  lemma {:induction false} WithoutAbsent(s: Recency, key: string)
    requires Lookup(s, key).None?
    ensures Without(s, key) == s
  {
    if s == [] {
    } else {
      WithoutAbsent(s[1..], key);
    }
  }

  /** With distinct keys, dropping a key drops the one entry that has it and keeps the order. */
  lemma {:induction false} WithoutIsRemoval(s: Recency, i: nat)
    requires DistinctKeys(s) && i < |s|
    ensures Without(s, s[i].key) == s[..i] + s[i + 1..]
    ensures Lookup(s, s[i].key) == Some(s[i])
  {
    if i == 0 {
      LookupFinds(s[1..], s[0].key);
      WithoutAbsent(s[1..], s[0].key);
    } else {
      assert s[1..][i - 1] == s[i] && s[0].key != s[i].key;
      WithoutIsRemoval(s[1..], i - 1);
      assert s[..i] == [s[0]] + s[1..][..i - 1];
      assert s[i + 1..] == s[1..][i..];
    }
  }

  lemma {:induction false} SurvivingMembers(s: Recency, seen: set<string>, path: string)
    ensures forall x :: x in Surviving(s, seen, path) ==> x in s
  {
    if s == [] {
    } else {
      SurvivingMembers(s[1..], seen, path);
    }
  }

  /** Whatever is held after a run was held before it or stored by it. */
  lemma {:induction false} RunMembers(cfg: Config, s: Recency, ops: seq<Op>)
    ensures forall x :: x in Run(cfg, s, ops) ==>
              x in s || exists k :: 0 <= k < |ops| && ops[k].Set? && Stored(cfg, ops[k]) == x
    decreases |ops|
  {
    if ops == [] {
    } else {
      var t := Step(cfg, s, ops[0]);
      match ops[0] {
        case Get(key, now) => AfterGetMembers(s, key, now);
        case Set(_, _, _, _) => AfterSetMembers(cfg, s, Stored(cfg, ops[0]));
        case Flush =>
        case Invalidate(path) => SurvivingMembers(s, KeySet(s), path);
      }
      RunMembers(cfg, t, ops[1..]);
      forall x | x in Run(cfg, s, ops) && x !in s
        ensures exists k :: 0 <= k < |ops| && ops[k].Set? && Stored(cfg, ops[k]) == x
      {
        if x !in t {
          var k :| 0 <= k < |ops[1..]| && ops[1..][k].Set? && Stored(cfg, ops[1..][k]) == x;
          assert ops[k + 1].Set? && Stored(cfg, ops[k + 1]) == x;
        }
      }
    }
  }

  lemma {:induction false} SurvivingSubset(s: Recency, seen: set<string>, path: string)
    requires DistinctKeys(s)
    ensures DistinctKeys(Surviving(s, seen, path)) && |Surviving(s, seen, path)| <= |s|
    ensures forall x :: x in Surviving(s, seen, path) <==> x in s && !(x.key in seen && Mentions(x.results, path))
  {
    if s == [] {
    } else {
      SurvivingSubset(s[1..], seen, path);
      var w := Surviving(s[1..], seen, path);
      forall j | 0 <= j < |w| ensures w[j].key != s[0].key {
        assert w[j] in w;
        assert w[j] in s[1..];
      }
    }
  }

  lemma {:induction false} SurvivingNothingSeen(s: Recency, path: string)
    ensures Surviving(s, {}, path) == s
  {
    if s == [] {
    } else {
      SurvivingNothingSeen(s[1..], path);
    }
  }

  /** Looking at one more key removes at most the entry with that key. */
  lemma {:induction false} SurvivingOneMore(s: Recency, seen: set<string>, item: Item, path: string)
    requires DistinctKeys(s) && item in s && item.key !in seen
    ensures Surviving(s, seen + {item.key}, path)
         == if Mentions(item.results, path) then Without(Surviving(s, seen, path), item.key)
            else Surviving(s, seen, path)
  {
    if s[0] == item {
      LookupFinds(s[1..], item.key);
      SurvivingUnaffected(s[1..], seen, item.key, path);
      SurvivingSubset(s[1..], seen, path);
      LookupFinds(Surviving(s[1..], seen, path), item.key);
      WithoutAbsent(Surviving(s[1..], seen, path), item.key);
    } else {
      assert s[0].key != item.key;
      SurvivingOneMore(s[1..], seen, item, path);
    }
  }

  lemma {:induction false} SurvivingUnaffected(s: Recency, seen: set<string>, key: string, path: string)
    requires Lookup(s, key).None?
    ensures Surviving(s, seen + {key}, path) == Surviving(s, seen, path)
  {
    if s == [] {
    } else {
      SurvivingUnaffected(s[1..], seen, key, path);
    }
  }

  // ---------- invariants of every run ----------

  lemma StepBounded(cfg: Config, s: Recency, op: Op)
    requires cfg.Valid() && Bounded(cfg, s)
    ensures Bounded(cfg, Step(cfg, s, op))
  {
    match op
    case Get(key, now) =>
      WithoutKeepsDistinct(s, key);
      if Lookup(s, key).Some? { WithoutShorter(s, key); }
    case Set(key, _, _, _) =>
      WithoutKeepsDistinct(s, key);
    case Flush =>
    case Invalidate(path) =>
      SurvivingSubset(s, KeySet(s), path);
  }

  lemma {:induction false} WithoutShorter(s: Recency, key: string)
    requires Lookup(s, key).Some?
    ensures |Without(s, key)| < |s|
  {
    if s[0].key == key {
    } else {
      WithoutShorter(s[1..], key);
    }
  }

  lemma {:induction false} RunBounded(cfg: Config, s: Recency, ops: seq<Op>)
    requires cfg.Valid() && Bounded(cfg, s)
    ensures Bounded(cfg, Run(cfg, s, ops))
    decreases |ops|
  {
    if ops == [] {
    } else {
      StepBounded(cfg, s, ops[0]);
      RunBounded(cfg, Step(cfg, s, ops[0]), ops[1..]);
    }
  }

  lemma {:induction false} RunConcat(cfg: Config, s: Recency, a: seq<Op>, b: seq<Op>)
    ensures Run(cfg, s, a + b) == Run(cfg, Run(cfg, s, a), b)
    decreases |a|
  {
    if a == [] {
      assert a + b == b;
    } else {
      assert (a + b)[1..] == a[1..] + b;
      RunConcat(cfg, Step(cfg, s, a[0]), a[1..], b);
    }
  }

  /** The entry the latest Set of `key` wrote, if there was one. */
  function LatestSet(cfg: Config, ops: seq<Op>, key: string): Option<Item> {
    if ops == [] then None
    else
      var last := ops[|ops| - 1];
      if last.Set? && last.key == key then Some(Stored(cfg, last))
      else LatestSet(cfg, ops[..|ops| - 1], key)
  }

  /** Nothing stale is ever served: every cached entry is the one its key's latest Set wrote. */
  lemma {:induction false} EntriesComeFromLatestSet(cfg: Config, ops: seq<Op>, item: Item)
    requires cfg.Valid()
    requires item in Run(cfg, [], ops)
    ensures LatestSet(cfg, ops, item.key) == Some(item)
  {
    if ops == [] {
    } else {
      var front, last := ops[..|ops| - 1], ops[|ops| - 1];
      assert ops == front + [last];
      RunConcat(cfg, [], front, [last]);
      var s := Run(cfg, [], front);
      RunBounded(cfg, [], front);
      assert item in Step(cfg, s, last);
      if last.Set? && last.key == item.key {
        assert item == Stored(cfg, last);
      } else {
        if last.Invalidate? { SurvivingSubset(s, KeySet(s), last.path); }
        if last.Get? { AfterGetMembers(s, last.key, last.now); }
        if last.Set? { AfterSetMembers(cfg, s, Stored(cfg, last)); }
        assert item in s;
        EntriesComeFromLatestSet(cfg, front, item);
      }
    }
  }

  // ---------- each operation, entry by entry ----------

  /** A lookup: what it answers, and which entry it moves to the front or takes out. */
  lemma GetExactly(s: Recency, key: string, now: int)
    requires DistinctKeys(s)
    ensures (forall i :: 0 <= i < |s| ==> s[i].key != key) ==> AfterGet(s, key, now) == s && GetAnswer(s, key, now) == None
    ensures forall i :: 0 <= i < |s| && s[i].key == key && now <= s[i].exp ==>
              AfterGet(s, key, now) == [s[i]] + s[..i] + s[i + 1..]
              && GetAnswer(s, key, now) == Some(Answer(s[i].results, s[i].total))
    ensures forall i :: 0 <= i < |s| && s[i].key == key && now > s[i].exp ==>
              AfterGet(s, key, now) == s[..i] + s[i + 1..] && GetAnswer(s, key, now) == None
  {
    LookupFinds(s, key);
    if i :| 0 <= i < |s| && s[i].key == key {
      WithoutIsRemoval(s, i);
      assert [s[i]] + s[..i] + s[i + 1..] == [s[i]] + (s[..i] + s[i + 1..]);
    }
  }

  /** A store: the item goes to the front, in place of its key's entry or else, in a full list, of the last one. */
  lemma SetExactly(cfg: Config, s: Recency, item: Item)
    requires cfg.Valid() && DistinctKeys(s) && |s| <= cfg.maxSize
    ensures forall i :: 0 <= i < |s| && s[i].key == item.key ==> AfterSet(cfg, s, item) == [item] + s[..i] + s[i + 1..]
    ensures (forall i :: 0 <= i < |s| ==> s[i].key != item.key) ==>
              AfterSet(cfg, s, item) == [item] + if |s| == cfg.maxSize then s[..|s| - 1] else s
  {
    LookupFinds(s, item.key);
    if i :| 0 <= i < |s| && s[i].key == item.key {
      WithoutIsRemoval(s, i);
      assert [item] + s[..i] + s[i + 1..] == [item] + (s[..i] + s[i + 1..]);
    } else {
      WithoutAbsent(s, item.key);
    }
  }

  /** An invalidation keeps exactly the entries none of whose results has the path, in their order. */
  lemma InvalidateExactly(s: Recency, path: string)
    requires DistinctKeys(s)
    ensures forall x :: x in AfterInvalidate(s, path) <==>
              x in s && forall j :: 0 <= j < |x.results| ==> x.results[j].path != path
    ensures InOrder(AfterInvalidate(s, path), s)
  {
    SurvivingSubset(s, KeySet(s), path);
    SurvivingInOrder(s, KeySet(s), path);
    forall x | x in s ensures x.key in KeySet(s) {
      var i :| 0 <= i < |s| && s[i] == x;
    }
  }

  /** Somewhere in s the entry x comes before the entry y. */
  predicate Precedes(s: Recency, x: Item, y: Item) {
    exists a, b :: 0 <= a < b < |s| && s[a] == x && s[b] == y
  }

  /** Any two entries of t come in the same order in s. */
  predicate InOrder(t: Recency, s: Recency) {
    forall i, j :: 0 <= i < j < |t| ==> Precedes(s, t[i], t[j])
  }

  lemma PrecedesBehind(x: Item, s: Recency)
    ensures forall y, z :: Precedes(s, y, z) ==> Precedes([x] + s, y, z)
    ensures forall y :: y in s ==> Precedes([x] + s, x, y)
  {
    var u := [x] + s;
    forall y, z | Precedes(s, y, z) ensures Precedes(u, y, z) {
      var a, b :| 0 <= a < b < |s| && s[a] == y && s[b] == z;
      assert u[a + 1] == y && u[b + 1] == z;
    }
    forall y | y in s ensures Precedes(u, x, y) {
      var b :| 0 <= b < |s| && s[b] == y;
      assert u[0] == x && u[b + 1] == y;
    }
  }

  lemma InOrderBehind(w: Recency, x: Item, s: Recency)
    requires InOrder(w, s) && forall y :: y in w ==> y in s
    ensures InOrder(w, [x] + s) && InOrder([x] + w, [x] + s)
  {
    PrecedesBehind(x, s);
    hide Precedes;
    assert forall i :: 0 < i < |[x] + w| ==> ([x] + w)[i] == w[i - 1];
  }

  lemma {:induction false} SurvivingInOrder(s: Recency, seen: set<string>, path: string)
    ensures InOrder(Surviving(s, seen, path), s)
  {
    hide InOrder;
    if s == [] {
      EmptyInOrder(s);
    } else {
      SurvivingInOrder(s[1..], seen, path);
      SurvivingMembers(s[1..], seen, path);
      InOrderBehind(Surviving(s[1..], seen, path), s[0], s[1..]);
      assert s == [s[0]] + s[1..];
    }
  }

  lemma EmptyInOrder(s: Recency)
    ensures InOrder([], s)
  {
  }

  /** The operation is one that an entry survives. */
  predicate Spares(op: Op, item: Item) {
    match op
    case Get(key, now) => key == item.key ==> now <= item.exp
    case Set(key, _, _, _) => key != item.key
    case Flush => false
    case Invalidate(path) => forall j :: 0 <= j < |item.results| ==> item.results[j].path != path
  }

  /** Set k wrote the item, with its expiry one time to live later, and every operation since has spared it. */
  ghost predicate WrittenAt(cfg: Config, ops: seq<Op>, item: Item, k: int) {
    && 0 <= k < |ops| && ops[k].Set?
    && item == Item(ops[k].key, ops[k].results, ops[k].total, ops[k].now + cfg.ttl)
    && forall m :: k < m < |ops| ==> Spares(ops[m], item)
  }

  lemma StepSpares(cfg: Config, s: Recency, op: Op, item: Item)
    requires cfg.Valid() && Bounded(cfg, s) && item in Step(cfg, s, op)
    ensures (item in s && Spares(op, item))
         || (op.Set? && item == Item(op.key, op.results, op.total, op.now + cfg.ttl))
  {
    match op
    case Get(key, now) =>
      AfterGetMembers(s, key, now);
      LookupFinds(s, key);
    case Set(key, _, _, _) => WithoutMembers(s, key);
    case Flush =>
    case Invalidate(path) => InvalidateExactly(s, path);
  }

  /** In every run, each entry has been written by a Set and spared by everything since. */
  lemma {:induction false} EntriesAreSpared(cfg: Config, ops: seq<Op>, item: Item)
    requires cfg.Valid() && item in Run(cfg, [], ops)
    ensures exists k :: WrittenAt(cfg, ops, item, k)
  {
    if ops == [] {
    } else {
      var front, last := ops[..|ops| - 1], ops[|ops| - 1];
      var s := Run(cfg, [], front);
      assert ops == front + [last];
      RunConcat(cfg, [], front, [last]);
      RunBounded(cfg, [], front);
      StepSpares(cfg, s, last, item);
      hide Run, Step, Spares;
      if item in s && Spares(last, item) {
        EntriesAreSpared(cfg, front, item);
        var k :| WrittenAt(cfg, front, item, k);
        assert WrittenAt(cfg, ops, item, k);
      } else {
        assert WrittenAt(cfg, ops, item, |ops| - 1);
      }
    }
  }

  // ---------- the least-recently-used guarantee ----------

  /** The keys more recent than `key`. */
  function Ahead(s: Recency, key: string): set<string> {
    if s == [] || s[0].key == key then {} else {s[0].key} + Ahead(s[1..], key)
  }

  /** The keys the run touches: every Set, and every Get that hits. */
  function Touched(cfg: Config, s: Recency, ops: seq<Op>): set<string>
    decreases |ops|
  {
    if ops == [] then {}
    else TouchedBy(s, ops[0]) + Touched(cfg, Step(cfg, s, ops[0]), ops[1..])
  }

  function TouchedBy(s: Recency, op: Op): set<string> {
    match op
    case Get(key, now) => if GetAnswer(s, key, now).Some? then {key} else {}
    case Set(key, _, _, _) => {key}
    case _ => {}
  }

  /** No operation of the run concerns `item`: no access to its key, no flush, no invalidation naming it. */
  predicate Undisturbed(ops: seq<Op>, item: Item) {
    forall i :: 0 <= i < |ops| ==> Leaves(ops[i], item)
  }

  predicate Leaves(op: Op, item: Item) {
    match op
    case Get(key, _) => key != item.key
    case Set(key, _, _, _) => key != item.key
    case Flush => false
    case Invalidate(path) => forall j :: 0 <= j < |item.results| ==> item.results[j].path != path
  }

  lemma {:induction false} AheadWithin(s: Recency, key: string)
    ensures Ahead(s, key) <= KeySet(s) && key !in Ahead(s, key)
  {
    if s == [] || s[0].key == key {
    } else {
      AheadWithin(s[1..], key);
      forall k | k in Ahead(s[1..], key) ensures k in KeySet(s) {
        var i :| 0 <= i < |s[1..]| && s[1..][i].key == k;
        assert s[i + 1].key == k;
      }
    }
  }

  /** A key present in a list is preceded by as many keys as its position. */
  lemma {:induction false} AheadSize(s: Recency, i: nat)
    requires DistinctKeys(s) && i < |s|
    ensures |Ahead(s, s[i].key)| == i
  {
    if i == 0 {
    } else {
      var key := s[i].key;
      assert s[1..][i - 1].key == key != s[0].key;
      AheadSize(s[1..], i - 1);
      AheadWithin(s[1..], key);
      assert s[0].key !in KeySet(s[1..]);
      assert Ahead(s, key) == {s[0].key} + Ahead(s[1..], key);
    }
  }

  lemma {:induction false} AheadOfWithout(s: Recency, other: string, key: string)
    requires other != key
    ensures Ahead(Without(s, other), key) == Ahead(s, key) - {other}
    ensures Lookup(Without(s, other), key) == Lookup(s, key)
  {
    if s == [] {
    } else {
      AheadOfWithout(s[1..], other, key);
    }
  }

  lemma {:induction false} AheadOfSurviving(s: Recency, seen: set<string>, path: string, key: string)
    requires Lookup(s, key).Some? && !Mentions(Lookup(s, key).value.results, path)
    ensures Ahead(Surviving(s, seen, path), key) <= Ahead(s, key)
    ensures Lookup(Surviving(s, seen, path), key) == Lookup(s, key)
  {
    if s[0].key == key {
    } else {
      AheadOfSurviving(s[1..], seen, path, key);
    }
  }

  /** Dropping the least recent entry leaves every other entry where it is. */
  lemma {:induction false} AheadOfFront(t: Recency, key: string)
    requires DistinctKeys(t) && t != []
    requires t[|t| - 1].key != key
    ensures Lookup(t[..|t| - 1], key) == Lookup(t, key)
    ensures Lookup(t, key).Some? ==> Ahead(t[..|t| - 1], key) == Ahead(t, key)
  {
    if t[0].key == key || |t| == 1 {
    } else {
      assert t[..|t| - 1][1..] == t[1..][..|t| - 2];
      AheadOfFront(t[1..], key);
    }
  }

  /** Storing another key puts it in front and changes nothing else about `key`. */
  lemma PushedBehind(s: Recency, item: Item, key: string)
    requires DistinctKeys(s) && item.key != key
    ensures DistinctKeys([item] + Without(s, item.key))
    ensures Lookup([item] + Without(s, item.key), key) == Lookup(s, key)
    ensures Ahead([item] + Without(s, item.key), key) == Ahead(s, key) + {item.key}
  {
    var t := [item] + Without(s, item.key);
    assert t[1..] == Without(s, item.key);
    WithoutKeepsDistinct(s, item.key);
    AheadOfWithout(s, item.key, key);
    assert Lookup(t, key) == Lookup(t[1..], key);
  }

  lemma FrontRetains(t: Recency, key: string, capacity: nat)
    requires DistinctKeys(t) && |t| <= capacity + 1
    requires Lookup(t, key).Some? && |Ahead(t, key)| < capacity
    ensures |t| > capacity ==> Lookup(t[..|t| - 1], key) == Lookup(t, key)
    ensures |t| > capacity ==> Ahead(t[..|t| - 1], key) == Ahead(t, key)
  {
    if |t| > capacity {
      if t[|t| - 1].key == key { AheadSize(t, |t| - 1); }
      AheadOfFront(t, key);
    }
  }

  lemma SetRetains(cfg: Config, s: Recency, stored: Item, item: Item)
    requires cfg.Valid() && Bounded(cfg, s)
    requires Lookup(s, item.key) == Some(item) && stored.key != item.key
    requires |Ahead(s, item.key) + {stored.key}| < cfg.maxSize
    ensures Lookup(AfterSet(cfg, s, stored), item.key) == Some(item)
    ensures Ahead(AfterSet(cfg, s, stored), item.key) == Ahead(s, item.key) + {stored.key}
  {
    hide DistinctKeys, Ahead, Lookup, Without;
    PushedBehind(s, stored, item.key);
    FrontRetains([stored] + Without(s, stored.key), item.key, cfg.maxSize);
  }

  lemma GetRetains(s: Recency, key: string, now: int, item: Item)
    requires Lookup(s, item.key) == Some(item) && key != item.key
    ensures Lookup(AfterGet(s, key, now), item.key) == Some(item)
    ensures Ahead(AfterGet(s, key, now), item.key) <= Ahead(s, item.key) + TouchedBy(s, Get(key, now))
  {
    AheadOfWithout(s, key, item.key);
    if Lookup(s, key).Some? {
      var t := [Lookup(s, key).value] + Without(s, key);
      assert t[1..] == Without(s, key);
    }
  }

  /** One step that leaves `item` alone: it stays, behind at most the keys it was behind and those touched,
      provided those are fewer than the capacity. */
  lemma StepRetains(cfg: Config, s: Recency, op: Op, item: Item)
    requires cfg.Valid() && Bounded(cfg, s)
    requires Lookup(s, item.key) == Some(item) && Leaves(op, item)
    requires |Ahead(s, item.key) + TouchedBy(s, op)| < cfg.maxSize
    ensures Lookup(Step(cfg, s, op), item.key) == Some(item)
    ensures Ahead(Step(cfg, s, op), item.key) <= Ahead(s, item.key) + TouchedBy(s, op)
  {
    match op
    case Get(key, now) => GetRetains(s, key, now, item);
    case Set(_, _, _, _) => SetRetains(cfg, s, Stored(cfg, op), item);
    case Invalidate(path) => AheadOfSurviving(s, KeySet(s), path, item.key);
  }

  lemma {:induction false} RunRetains(cfg: Config, s: Recency, ops: seq<Op>, item: Item)
    requires cfg.Valid() && Bounded(cfg, s)
    requires Lookup(s, item.key) == Some(item) && Undisturbed(ops, item)
    requires |Ahead(s, item.key) + Touched(cfg, s, ops)| < cfg.maxSize
    ensures Lookup(Run(cfg, s, ops), item.key) == Some(item)
    decreases |ops|
  {
    if ops == [] {
    } else {
      var t := Step(cfg, s, ops[0]);
      var all := Ahead(s, item.key) + Touched(cfg, s, ops);
      Sets.SubsetSize(Ahead(s, item.key) + TouchedBy(s, ops[0]), all);
      StepRetains(cfg, s, ops[0], item);
      StepBounded(cfg, s, ops[0]);
      Sets.SubsetSize(Ahead(t, item.key) + Touched(cfg, t, ops[1..]), all);
      RunRetains(cfg, t, ops[1..], item);
    }
  }

  /** An access of `key` that (re)starts its life: a Set, or a Get that hits. */
  predicate Touches(cfg: Config, before: seq<Op>, touch: Op, key: string) {
    key in TouchedBy(Run(cfg, [], before), touch)
  }

  /**
    The guarantee over whole runs. Take any run, an access that touches `key`, and any later operations
    that leave the key's entry alone and touch fewer than `maxSize` distinct keys. The next lookup of `key`
    answers with what the latest Set of `key` stored, up to and including the expiry time, and misses after it.
   */
  lemma LruGuarantee(cfg: Config, before: seq<Op>, touch: Op, after: seq<Op>, key: string, now: int)
    requires cfg.Valid()
    requires Touches(cfg, before, touch, key)
    requires LatestSet(cfg, before + [touch], key).Some? ==>
               Undisturbed(after, LatestSet(cfg, before + [touch], key).value)
    requires |Touched(cfg, Run(cfg, [], before + [touch]), after)| < cfg.maxSize
    ensures LatestSet(cfg, before + [touch], key).Some?
    ensures GetAnswer(Run(cfg, [], before + [touch] + after), key, now)
         == var item := LatestSet(cfg, before + [touch], key).value;
            if now <= item.exp then Some(Answer(item.results, item.total)) else None
  {
    RunConcat(cfg, [], before, [touch]);
    RunBounded(cfg, [], before);
    RunBounded(cfg, [], before + [touch]);
    var s := Run(cfg, [], before + [touch]);
    assert s == Step(cfg, Run(cfg, [], before), touch);
    assert s[0].key == key;
    EntriesComeFromLatestSet(cfg, before + [touch], s[0]);
    RunRetains(cfg, s, after, s[0]);
    RunConcat(cfg, [], before + [touch], after);
  }

  /** Nothing leaves except by eviction: no flush, no invalidation, no lookup of an expired entry. */
  predicate OnlyEvicts(cfg: Config, s: Recency, ops: seq<Op>)
    decreases |ops|
  {
    ops != [] ==>
      && (match ops[0]
          case Get(key, now) => Lookup(s, key).Some? ==> now <= Lookup(s, key).value.exp
          case Set(_, _, _, _) => true
          case _ => false)
      && OnlyEvicts(cfg, Step(cfg, s, ops[0]), ops[1..])
  }

  lemma GetPushesBack(s: Recency, key: string, now: int, item: Item)
    requires key != item.key
    requires Lookup(s, key).Some? ==> now <= Lookup(s, key).value.exp
    ensures Lookup(AfterGet(s, key, now), item.key) == Lookup(s, item.key)
    ensures Ahead(AfterGet(s, key, now), item.key) == Ahead(s, item.key) + TouchedBy(s, Get(key, now))
  {
    AheadOfWithout(s, key, item.key);
    if Lookup(s, key).Some? {
      var t := [Lookup(s, key).value] + Without(s, key);
      assert t[1..] == Without(s, key);
    }
  }

  lemma SetPushesBack(cfg: Config, s: Recency, stored: Item, item: Item)
    requires cfg.Valid() && Bounded(cfg, s) && stored.key != item.key
    requires Lookup(AfterSet(cfg, s, stored), item.key).Some?
    ensures Lookup(s, item.key).Some?
    ensures Ahead(AfterSet(cfg, s, stored), item.key) == Ahead(s, item.key) + {stored.key}
  {
    PushedBehind(s, stored, item.key);
    var t := [stored] + Without(s, stored.key);
    if |t| > cfg.maxSize {
      LookupFinds(t[..|t| - 1], item.key);
      AheadOfFront(t, item.key);
    }
  }

  lemma StepPushesBack(cfg: Config, s: Recency, op: Op, item: Item)
    requires cfg.Valid() && Bounded(cfg, s) && Leaves(op, item)
    requires OnlyEvicts(cfg, s, [op])
    requires Lookup(Step(cfg, s, op), item.key).Some?
    ensures Lookup(s, item.key).Some?
    ensures Ahead(Step(cfg, s, op), item.key) == Ahead(s, item.key) + TouchedBy(s, op)
  {
    match op
    case Get(key, now) => GetPushesBack(s, key, now, item);
    case Set(_, _, _, _) => SetPushesBack(cfg, s, Stored(cfg, op), item);
  }

  lemma {:induction false} RunPushesBack(cfg: Config, s: Recency, ops: seq<Op>, item: Item)
    requires cfg.Valid() && Bounded(cfg, s) && Undisturbed(ops, item)
    requires OnlyEvicts(cfg, s, ops)
    requires Lookup(Run(cfg, s, ops), item.key).Some?
    ensures Lookup(s, item.key).Some?
    ensures Ahead(Run(cfg, s, ops), item.key) == Ahead(s, item.key) + Touched(cfg, s, ops)
    decreases |ops|
  {
    if ops == [] {
    } else {
      StepBounded(cfg, s, ops[0]);
      RunPushesBack(cfg, Step(cfg, s, ops[0]), ops[1..], item);
      StepPushesBack(cfg, s, ops[0], item);
    }
  }

  /**
    The guarantee is sharp. When only eviction removes entries, the entry at the front is still cached after
    a run that leaves it alone if and only if the run touches fewer than `maxSize` distinct keys.
   */
  lemma LruExact(cfg: Config, s: Recency, ops: seq<Op>)
    requires cfg.Valid() && Bounded(cfg, s) && s != []
    requires Undisturbed(ops, s[0]) && OnlyEvicts(cfg, s, ops)
    ensures Lookup(Run(cfg, s, ops), s[0].key).Some? <==> |Touched(cfg, s, ops)| < cfg.maxSize
  {
    var key := s[0].key;
    hide Touched, OnlyEvicts, Undisturbed, Run;
    if |Touched(cfg, s, ops)| < cfg.maxSize {
      assert Ahead(s, key) + Touched(cfg, s, ops) == Touched(cfg, s, ops);
      RunRetains(cfg, s, ops, s[0]);
    }
    if Lookup(Run(cfg, s, ops), key).Some? {
      RunPushesBack(cfg, s, ops, s[0]);
      var t := Run(cfg, s, ops);
      RunBounded(cfg, s, ops);
      LookupFinds(t, key);
      var i :| 0 <= i < |t| && t[i].key == key;
      AheadSize(t, i);
      assert Ahead(t, key) == Touched(cfg, s, ops);
    }
  }
}
