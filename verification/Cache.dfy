/**
  The search cache as the program holds it: a hand-linked doubly linked list of entries, a map from key
  to entry and a size counter, all updated in place. Each method is proved against the operation of
  module Lru that has the same name.
 */
module Cache {
  import opened Options
  import opened Lru

  class Entry {
    const key: string
    var results: seq<Result>
    var total: int
    var exp: int
    var prev: Entry?
    var next: Entry?

    constructor (key: string, results: seq<Result>, total: int, exp: int)
      ensures this.key == key && this.results == results && this.total == total && this.exp == exp
      ensures prev == null && next == null
    {
      this.key, this.results, this.total, this.exp := key, results, total, exp;
      prev, next := null, null;
    }

    ghost function Contents(): Item
      reads this`results, this`total, this`exp
    {
      Item(key, results, total, exp)
    }
  }

  ghost predicate Indexes(items: map<string, Entry>, nodes: seq<Entry>) {
    && (forall i :: 0 <= i < |nodes| ==> nodes[i].key in items && items[nodes[i].key] == nodes[i])
    && (forall k :: k in items ==> items[k] in nodes && items[k].key == k)
  }

  lemma IndexesWithout(items: map<string, Entry>, nodes: seq<Entry>, i: nat)
    requires Indexes(items, nodes) && i < |nodes|
    requires forall j, k :: 0 <= j < k < |nodes| ==> nodes[j] != nodes[k]
    ensures Indexes(items - {nodes[i].key}, nodes[..i] + nodes[i + 1..])
  {
    var rest := nodes[..i] + nodes[i + 1..];
    var left := items - {nodes[i].key};
    forall j | 0 <= j < |rest| ensures rest[j].key in left && left[rest[j].key] == rest[j] {
      var m := if j < i then j else j + 1;
      assert rest[j] == nodes[m] && nodes[m] != nodes[i];
      assert items[nodes[m].key] == nodes[m] && items[nodes[i].key] == nodes[i];
    }
    forall k | k in left ensures left[k] in rest && left[k].key == k {
      var m :| 0 <= m < |nodes| && nodes[m] == items[k];
      assert rest[if m < i then m else m - 1] == nodes[m];
    }
  }

  lemma IndexesMoved(items: map<string, Entry>, nodes: seq<Entry>, i: nat)
    requires Indexes(items, nodes) && i < |nodes|
    ensures Indexes(items, [nodes[i]] + (nodes[..i] + nodes[i + 1..]))
  {
    var moved := [nodes[i]] + (nodes[..i] + nodes[i + 1..]);
    forall j | 0 <= j < |moved| ensures moved[j] in nodes {}
    forall k | k in items ensures items[k] in moved {
      var m :| 0 <= m < |nodes| && nodes[m] == items[k];
      assert moved[if m == i then 0 else if m < i then m + 1 else m] == nodes[m];
    }
  }

  lemma IndexesInserted(items: map<string, Entry>, nodes: seq<Entry>, e: Entry)
    requires Indexes(items, nodes) && e.key !in items
    ensures Indexes(items[e.key := e], [e] + nodes)
  {
  }

  ghost predicate Mirrors(contents: Recency, nodes: seq<Entry>, repr: set<Entry>)
    reads repr`results, repr`total, repr`exp
  {
    && (forall n :: n in nodes ==> n in repr)
    && |contents| == |nodes| && forall i :: 0 <= i < |nodes| ==> contents[i] == nodes[i].Contents()
  }

  lemma MirrorsWithout(contents: Recency, nodes: seq<Entry>, repr: set<Entry>, i: nat)
    requires Mirrors(contents, nodes, repr) && i < |nodes|
    ensures Mirrors(contents[..i] + contents[i + 1..], nodes[..i] + nodes[i + 1..], repr)
  {
  }

  lemma MirrorsWith(contents: Recency, nodes: seq<Entry>, repr: set<Entry>, e: Entry)
    requires Mirrors(contents, nodes, repr)
    ensures Mirrors([e.Contents()] + contents, [e] + nodes, repr + {e})
  {
  }

  function AllButLast<T>(s: seq<T>): (r: seq<T>)
    ensures |r| == |s| - if s == [] then 0 else 1
  {
    if s == [] then [] else s[..|s| - 1]
  }

  lemma StoredThenBounded(cfg: Config, s: Recency, item: Item)
    ensures var t := [item] + Without(s, item.key);
      AfterSet(cfg, s, item) == if |t| > cfg.maxSize then AllButLast(t) else t
  {
  }

  class Cache {
    var items: map<string, Entry>
    var head: Entry?
    var tail: Entry?
    var size: int
    const maxSize: int
    const ttl: int
    ghost var nodes: seq<Entry>  // the list from head to tail
    ghost var contents: Recency  // what those entries hold
    ghost var repr: set<Entry>   // every entry the cache ever linked

    /** `nodes` is acyclic, `head` and `tail` are its ends, and the prev and next links mirror each other. */
    ghost predicate Linked()
      reads this`head, this`tail, this`nodes, this`repr, repr`prev, repr`next
    {
      && (forall n :: n in nodes ==> n in repr)
      && (forall i, j :: 0 <= i < j < |nodes| ==> nodes[i] != nodes[j])
      && head == (if nodes == [] then null else nodes[0])
      && tail == (if nodes == [] then null else nodes[|nodes| - 1])
      && (forall i {:trigger nodes[i].prev} :: 0 <= i < |nodes| ==> nodes[i].prev == if i == 0 then null else nodes[i - 1])
      && (forall i {:trigger nodes[i].next} ::
            0 <= i < |nodes| ==> nodes[i].next == if i == |nodes| - 1 then null else nodes[i + 1])
    }

    /** The map holds exactly the list's entries, each under its own key. */
    ghost predicate Indexed()
      reads this`nodes, this`items
    {
      Indexes(items, nodes)
    }

    ghost predicate Mirrored()
      reads this`contents, this`nodes, this`repr, repr`results, repr`total, repr`exp
    {
      Mirrors(contents, nodes, repr)
    }

    ghost predicate Valid()
      reads this, repr
    {
      Linked() && Indexed() && Mirrored() && size == |nodes| <= maxSize && maxSize > 0 && ttl > 0
    }

    ghost function Config(): Config
    {
      Lru.Config(maxSize, ttl)
    }

    constructor (maxSize: int, ttl: int)
      ensures Valid() && contents == [] && repr == {}
      ensures this.maxSize == if maxSize <= 0 then 128 else maxSize
      ensures this.ttl == if ttl <= 0 then 30_000_000_000 else ttl
    {
      this.maxSize := if maxSize <= 0 then DEFAULT_MAX_SIZE else maxSize;
      this.ttl := if ttl <= 0 then DEFAULT_TTL else ttl;
      items, head, tail, size, nodes, contents, repr := map[], null, null, 0, [], [], {};
    }

    /** The abstract list is a recency list of distinct keys, and its keys are the map's. */
    lemma ContentsBounded()
      requires Valid()
      ensures Bounded(Config(), contents) && KeySet(contents) == items.Keys
    {
      forall i, j | 0 <= i < j < |contents| ensures contents[i].key != contents[j].key {
        assert contents[i].key == nodes[i].key && contents[j].key == nodes[j].key;
      }
      forall k | k in items ensures k in KeySet(contents) {
        var i :| 0 <= i < |nodes| && nodes[i] == items[k];
        assert contents[i].key == k;
      }
    }

    lemma IndexedWithout(i: nat)
      requires Linked() && Indexed() && i < |nodes|
      ensures Indexes(items - {nodes[i].key}, nodes[..i] + nodes[i + 1..])
    {
      IndexesWithout(items, nodes, i);
    }

    lemma Held(i: nat)
      requires Mirrored() && i < |nodes|
      ensures |contents| == |nodes| && nodes[i] in repr && contents[i] == nodes[i].Contents()
    {
    }

    /** Where the entry of a present key sits in the list, and what the abstract list says about it. */
    lemma Locate(key: string) returns (i: nat)
      requires Valid() && key in items
      ensures i < |nodes| == |contents| && nodes[i] == items[key] && nodes[i].key == key
      ensures contents[i] == items[key].Contents()
      ensures Lookup(contents, key) == Some(contents[i])
      ensures Without(contents, key) == contents[..i] + contents[i + 1..]
    {
      i :| 0 <= i < |nodes| && nodes[i] == items[key];
      ContentsBounded();
      WithoutIsRemoval(contents, i);
    }

    lemma Absent(key: string)
      requires Valid() && key !in items
      ensures Lookup(contents, key).None? && Without(contents, key) == contents
    {
      forall i | 0 <= i < |contents| ensures contents[i].key != key {
        assert contents[i].key == nodes[i].key;
      }
      LookupFinds(contents, key);
      WithoutAbsent(contents, key);
    }

    method Unlink(e: Entry, ghost i: nat)
      requires Linked() && i < |nodes| && nodes[i] == e
      modifies this`head, this`tail, this`nodes, repr`prev, repr`next
      ensures repr == old(repr)
      ensures Linked() && nodes == old(nodes[..i] + nodes[i + 1..])
    {
      ghost var before, after := if i == 0 then null else nodes[i - 1], if i + 1 == |nodes| then null else nodes[i + 1];
      assert e.prev == before && e.next == after;
      if e.prev != null { e.prev.next := e.next; } else { head := e.next; }
      if e.next != null { e.next.prev := e.prev; } else { tail := e.prev; }
      e.prev := null;
      e.next := null;
      ghost var rest := nodes[..i] + nodes[i + 1..];
      assert forall j :: 0 <= j < i ==> rest[j] == nodes[j];
      assert forall j :: i <= j < |rest| ==> rest[j] == nodes[j + 1];
      nodes := rest;
    }

    method PushFront(e: Entry)
      requires Linked() && e !in nodes
      modifies this`head, this`tail, this`nodes, this`repr, repr`prev, e`prev, e`next
      ensures Linked() && nodes == old([e] + nodes) && repr == old(repr) + {e}
    {
      e.prev := null;
      e.next := head;
      if head != null { head.prev := e; }
      head := e;
      if tail == null { tail := e; }
      nodes, repr := [e] + nodes, repr + {e};
    }

    method MoveToFront(e: Entry, ghost i: nat)
      requires Linked() && i < |nodes| && nodes[i] == e
      modifies this`head, this`tail, this`nodes, this`repr, repr`prev, repr`next
      ensures repr == old(repr)
      ensures Linked() && nodes == old([e] + (nodes[..i] + nodes[i + 1..]))
    {
      if head == e {
        assert i == 0;
        assert nodes == [e] + (nodes[..i] + nodes[i + 1..]);
        return;
      }
      Unlink(e, i);
      PushFront(e);
    }

    /** Makes a listed entry the most recent one. */
    method Touch(e: Entry, ghost i: nat)
      requires Valid() && i < |nodes| && nodes[i] == e
      modifies this`head, this`tail, this`nodes, this`repr, this`contents, repr`prev, repr`next
      ensures Valid() && repr == old(repr)
      ensures contents == old([contents[i]] + (contents[..i] + contents[i + 1..]))
    {
      hide Linked, Indexes, Mirrors;
      IndexesMoved(items, nodes, i);
      Held(i);
      MirrorsWithout(contents, nodes, repr, i);
      MirrorsWith(contents[..i] + contents[i + 1..], nodes[..i] + nodes[i + 1..], repr, e);
      assert repr + {e} == repr;
      ghost var moved, held := [e] + (nodes[..i] + nodes[i + 1..]), [contents[i]] + (contents[..i] + contents[i + 1..]);
      assert held[0] == e.Contents();
      MoveToFront(e, i);
      contents := held;
    }

    /** Takes one entry out of the list and out of the map; the size may be one above the bound on entry. */
    method Remove(e: Entry, ghost i: nat)
      requires Linked() && Indexed() && Mirrored() && i < |nodes| && nodes[i] == e
      modifies this`head, this`tail, this`nodes, this`contents, this`items, this`size, repr`prev, repr`next
      ensures repr == old(repr)
      ensures Linked() && Indexed() && Mirrored() && nodes == old(nodes[..i] + nodes[i + 1..])
      ensures contents == old(contents[..i] + contents[i + 1..])
      ensures items == old(items) - {e.key} && size == old(size) - 1
    {
      hide Linked, Indexes, Mirrors;
      IndexedWithout(i);
      Held(i);
      MirrorsWithout(contents, nodes, repr, i);
      ghost var rest, held := nodes[..i] + nodes[i + 1..], contents[..i] + contents[i + 1..];
      Unlink(e, i);
      items := items - {e.key};
      size := size - 1;
      contents := held;
    }

    method Evict()
      requires Linked() && Indexed() && Mirrored()
      modifies this`head, this`tail, this`nodes, this`contents, this`items, this`size, repr`prev, repr`next
      ensures repr == old(repr)
      ensures Linked() && Indexed() && Mirrored() && |contents| == |nodes|
      ensures nodes == AllButLast(old(nodes)) && contents == AllButLast(old(contents))
      ensures size == old(size) - if old(nodes) == [] then 0 else 1
    {
      if tail == null { return; }
      Remove(tail, |nodes| - 1);
    }

    method Get(key: string, now: int) returns (results: seq<Result>, total: int, ok: bool)
      requires Valid()
      modifies this, repr`prev, repr`next
      ensures Valid() && repr == old(repr)
      ensures contents == AfterGet(old(contents), key, now)
      ensures GetAnswer(old(contents), key, now) == if ok then Some(Answer(results, total)) else None
      ensures !ok ==> results == [] && total == 0
    {
      hide Linked, Indexes, Mirrors;
      if key !in items {
        Absent(key);
        return [], 0, false;
      }
      var e := items[key];
      ghost var i := Locate(key);
      if now > e.exp {
        Remove(e, i);
        return [], 0, false;
      }
      Touch(e, i);
      return e.results, e.total, true;
    }

    method Set(key: string, results: seq<Result>, total: int, now: int)
      requires Valid()
      modifies this, repr
      ensures Valid() && old(repr) <= repr && fresh(repr - old(repr))
      ensures contents == AfterSet(Config(), old(contents), Item(key, results, total, now + ttl))
    {
      hide Linked, Indexes, Mirrors, Without, Lookup, AllButLast;
      if key in items {
        var e := items[key];
        ghost var i := Locate(key);
        Overwrite(e, i, results, total, now + ttl);
        return;
      }
      Absent(key);
      StoredThenBounded(Config(), contents, Item(key, results, total, now + ttl));
      hide AfterSet;
      var e := new Entry(key, results, total, now + ttl);
      Insert(e);
      if size > maxSize {
        Evict();
      }
    }

    /** The arm of Set for a key that is present. */
    method Overwrite(e: Entry, ghost i: nat, results: seq<Result>, total: int, exp: int)
      requires Valid() && i < |nodes| && nodes[i] == e
      modifies this`head, this`tail, this`nodes, this`repr, this`contents, repr
      ensures Valid() && repr == old(repr)
      ensures contents == [Item(e.key, results, total, exp)] + old(contents[..i] + contents[i + 1..])
    {
      e.results := results;
      e.total := total;
      e.exp := exp;
      contents := contents[i := e.Contents()];
      hide Linked, Indexes, Mirrors;
      Touch(e, i);
    }

    /** The arm of Set for a new key, before the bound is enforced. */
    method Insert(e: Entry)
      requires Linked() && Indexed() && Mirrored() && e.key !in items && e !in nodes
      modifies this`head, this`tail, this`nodes, this`contents, this`items, this`size, this`repr, repr`prev, e`prev, e`next
      ensures Linked() && Indexed() && Mirrored() && nodes == old([e] + nodes) && size == old(size) + 1
      ensures repr == old(repr) + {e}
      ensures contents == [e.Contents()] + old(contents) && |contents| == |nodes|
    {
      hide Linked, Indexes, Mirrors;
      IndexesInserted(items, nodes, e);
      MirrorsWith(contents, nodes, repr, e);
      ghost var listed, held := [e] + nodes, [e.Contents()] + contents;
      items := items[e.key := e];
      PushFront(e);
      size := size + 1;
      contents := held;
    }

    method Flush()
      requires Valid()
      modifies this
      ensures Valid() && contents == [] && items == map[] && repr == old(repr)
    {
      items, head, tail, size := map[], null, null, 0;
      nodes, contents := [], [];
    }

    /** One turn of the invalidation loop. */
    method InvalidateEntry(key: string, path: string, ghost before: Recency, ghost seen: set<string>)
      requires Valid() && key in items && key !in seen
      requires DistinctKeys(before) && contents == Surviving(before, seen, path)
      modifies this, repr`prev, repr`next
      ensures Valid() && repr == old(repr)
      ensures items == old(items) || items == old(items) - {key}
      ensures contents == Surviving(before, seen + {key}, path)
    {
      hide Linked, Indexes, Mirrors, Surviving, DistinctKeys;
      var e := items[key];
      ghost var i := Locate(key);
      SurvivingSubset(before, seen, path);
      SurvivingOneMore(before, seen, contents[i], path);
      var mentioned := MentionsPath(e.results, path);
      if mentioned {
        Remove(e, i);
      }
    }

    /** Visits the map's entries in an arbitrary order; the outcome does not depend on it. */
    method InvalidateByPath(path: string)
      requires Valid()
      modifies this, repr`prev, repr`next
      ensures Valid() && repr == old(repr)
      ensures contents == AfterInvalidate(old(contents), path)
      ensures forall x :: x in contents <==>
                x in old(contents) && forall j :: 0 <= j < |x.results| ==> x.results[j].path != path
      ensures InOrder(contents, old(contents))
    {
      hide Linked, Indexes, Mirrors, Surviving, InOrder;
      ghost var before, all := contents, items.Keys;
      ghost var seen: set<string> := {};
      var todo := items.Keys;
      assert DistinctKeys(before) && all == KeySet(before) by { ContentsBounded(); }
      assert contents == Surviving(before, seen, path) by { SurvivingNothingSeen(before, path); }
      while todo != {}
        invariant Valid() && repr == old(repr)
        invariant todo <= items.Keys && seen !! todo && seen + todo == all
        invariant contents == Surviving(before, seen, path)
        decreases todo
      {
        var k :| k in todo;
        InvalidateEntry(k, path, before, seen);
        todo, seen := todo - {k}, seen + {k};
      }
      assert seen == all;
      InvalidateExactly(before, path);
    }
  }

  method MentionsPath(results: seq<Result>, path: string) returns (found: bool)
    ensures found == Mentions(results, path)
    ensures found <==> exists j :: 0 <= j < |results| && results[j].path == path
  {
    for i := 0 to |results|
      invariant forall j :: 0 <= j < i ==> results[j].path != path
    {
      if results[i].path == path { return true; }
    }
    return false;
  }
}
