/**
  The index database: the full-text table `documents`, keyed by rowid, and its shadow table `files`, keyed by
  path. A transaction is a working copy that is either committed or dropped. The hash is any function whose
  digests are not empty.
 */
module Index {
  import opened Options

  datatype Doc = Doc(path: string, content: string)

  datatype FileRow = FileRow(docRowid: int, hash: string, mtime: int)

  datatype Tables = Tables(documents: map<int, Doc>, files: map<string, FileRow>)

  const EMPTY_TABLES := Tables(map[], map[])

  type Hash = string -> string

  ghost predicate NeverEmpty(hash: Hash) {
    forall c :: hash(c) != ""
  }

  /** `files` and `documents` correspond one to one: a row names the one document that has its path. */
  ghost predicate Bijective(t: Tables) {
    && (forall p :: p in t.files ==>
          t.files[p].docRowid in t.documents && t.documents[t.files[p].docRowid].path == p)
    && (forall r :: r in t.documents ==>
          t.documents[r].path in t.files && t.files[t.documents[r].path].docRowid == r)
  }

  /** A stored hash is the digest of the document's content, or empty when the row was backfilled. */
  ghost predicate HashesMatch(t: Tables, hash: Hash)
    requires Bijective(t)
  {
    forall p :: p in t.files ==>
      t.files[p].hash == "" || t.files[p].hash == hash(t.documents[t.files[p].docRowid].content)
  }

  ghost predicate Sound(t: Tables, hash: Hash) {
    Bijective(t) && HashesMatch(t, hash)
  }

  // ---------- what the two calls do when they succeed ----------

  predicate Unchanged(t: Tables, hash: Hash, path: string, content: string) {
    path in t.files && t.files[path].hash == hash(content)
  }

  /** The documents that remain when the path's old document is gone. */
  function OtherDocuments(t: Tables, path: string): map<int, Doc> {
    if path in t.files then t.documents - {t.files[path].docRowid} else t.documents
  }

  function AfterUpsert(t: Tables, hash: Hash, path: string, content: string, mtime: int, rowid: int): Tables {
    if Unchanged(t, hash, path, content) then t
    else Tables(OtherDocuments(t, path)[rowid := Doc(path, content)],
                t.files[path := FileRow(rowid, hash(content), mtime)])
  }

  function AfterDelete(t: Tables, path: string): Tables {
    if path in t.files then Tables(OtherDocuments(t, path), t.files - {path}) else t
  }

  // ---------- the calls, statement by statement ----------

  datatype Statement = Begin | Lookup | DeleteDoc | InsertDoc | LastRowid | WriteFile | DeleteFile | Commit

  /** The statements an upsert executes when none fails; `same` says whether the stored digest is the new one. */
  function UpsertStatements(present: bool, same: bool): seq<Statement> {
    if present && same then [Begin, Lookup, Commit]
    else if present then [Begin, Lookup, DeleteDoc, InsertDoc, LastRowid, WriteFile, Commit]
    else [Begin, Lookup, InsertDoc, LastRowid, WriteFile, Commit]
  }

  function DeleteStatements(present: bool): seq<Statement> {
    if present then [Begin, Lookup, DeleteDoc, DeleteFile, Commit] else [Begin, Lookup, Commit]
  }

  /** The first of the statements that fails, if any does. */
  function FirstFailing(stmts: seq<Statement>, fails: set<Statement>): (r: Option<Statement>)
    ensures r.None? <==> forall s :: s in stmts ==> s !in fails
  {
    if stmts == [] then None
    else if stmts[0] in fails then Some(stmts[0])
    else FirstFailing(stmts[1..], fails)
  }

  /** The same, written out for a short list. */
  function FirstOfSeven(s: seq<Statement>, fails: set<Statement>): Option<Statement>
    requires |s| <= 7
  {
    if |s| > 0 && s[0] in fails then Some(s[0])
    else if |s| > 1 && s[1] in fails then Some(s[1])
    else if |s| > 2 && s[2] in fails then Some(s[2])
    else if |s| > 3 && s[3] in fails then Some(s[3])
    else if |s| > 4 && s[4] in fails then Some(s[4])
    else if |s| > 5 && s[5] in fails then Some(s[5])
    else if |s| > 6 && s[6] in fails then Some(s[6])
    else None
  }

  lemma {:induction false} Unfolded(s: seq<Statement>, fails: set<Statement>)
    requires |s| <= 7
    ensures FirstFailing(s, fails) == FirstOfSeven(s, fails)
  {
    if s == [] {
    } else {
      Unfolded(s[1..], fails);
    }
  }

  /** The order in which the program issues its statements. */
  function Rank(s: Statement): nat {
    match s
    case Begin => 0
    case Lookup => 1
    case DeleteDoc => 2
    case InsertDoc => 3
    case LastRowid => 4
    case WriteFile => 5
    case DeleteFile => 6
    case Commit => 7
  }

  /** What an upsert executes: an equal digest ends it after the lookup, and only a known path has an old document. */
  predicate UpsertExecutes(present: bool, same: bool, s: Statement) {
    match s
    case Begin => true
    case Lookup => true
    case Commit => true
    case DeleteDoc => present && !same
    case DeleteFile => false
    case _ => !(present && same)
  }

  predicate DeleteExecutes(present: bool, s: Statement) {
    s.Begin? || s.Lookup? || s.Commit? || (present && (s.DeleteDoc? || s.DeleteFile?))
  }

  ghost predicate InOrder(stmts: seq<Statement>) {
    forall i, j :: 0 <= i < j < |stmts| ==> Rank(stmts[i]) < Rank(stmts[j])
  }

  /** Exactly those statements are issued, and in that order. */
  lemma UpsertInOrder(present: bool, same: bool, s: Statement)
    ensures InOrder(UpsertStatements(present, same))
    ensures s in UpsertStatements(present, same) <==> UpsertExecutes(present, same, s)
  {
    if present && same {
    } else if present {
    } else {
    }
  }

  lemma DeleteInOrder(present: bool, s: Statement)
    ensures InOrder(DeleteStatements(present))
    ensures s in DeleteStatements(present) <==> DeleteExecutes(present, s)
  {
  }

  /** The failure that is reported is the earliest one. */
  lemma {:induction false} FailureIsEarliest(stmts: seq<Statement>, fails: set<Statement>)
    requires InOrder(stmts)
    ensures var r := FirstFailing(stmts, fails);
      r.Some? ==> r.value in stmts && r.value in fails
                  && forall s :: s in stmts && s in fails ==> Rank(r.value) <= Rank(s)
  {
    if stmts == [] {
    } else {
      FailureIsEarliest(stmts[1..], fails);
    }
  }

  class Database {
    const hash: Hash
    var tables: Tables

    constructor (hash: Hash)
      ensures this.hash == hash && tables == EMPTY_TABLES
    {
      this.hash, tables := hash, EMPTY_TABLES;
    }

    /** Some unused rowid: the engine's choice, of which nothing else is assumed. */
    method FreshRowid(documents: map<int, Doc>) returns (rowid: int)
      ensures rowid !in documents
    {
      rowid := 1;
      var below := documents.Keys;
      while rowid in documents
        invariant below <= documents.Keys
        invariant forall r :: r in documents && r >= rowid ==> r in below
        decreases below
      {
        below := below - {rowid};
        rowid := rowid + 1;
      }
    }

    /** `fails` are the statements that return an error when they are reached. */
    method UpsertWithMtime(path: string, content: string, mtime: int, fails: set<Statement>)
      returns (err: Option<Statement>, rowid: int)
      modifies this
      ensures err == FirstFailing(UpsertStatements(path in old(tables).files, Unchanged(old(tables), hash, path, content)), fails)
      ensures err.Some? ==> tables == old(tables)
      ensures err.None? ==> rowid !in OtherDocuments(old(tables), path)
      ensures err.None? ==> tables == AfterUpsert(old(tables), hash, path, content, mtime, rowid)
    {
      hide FirstFailing;
      Unfolded(UpsertStatements(path in tables.files, Unchanged(tables, hash, path, content)), fails);
      rowid := FreshRowid(OtherDocuments(tables, path));
      var digest := hash(content);
      if Begin in fails { return Some(Begin), rowid; }
      var work := tables;
      if Lookup in fails { return Some(Lookup), rowid; }
      if path in work.files && work.files[path].hash == digest {
        if Commit in fails { return Some(Commit), rowid; }
        tables := work;
        return None, rowid;
      }
      if path in work.files {
        if DeleteDoc in fails { return Some(DeleteDoc), rowid; }
        work := work.(documents := work.documents - {work.files[path].docRowid});
      }
      if InsertDoc in fails { return Some(InsertDoc), rowid; }
      work := work.(documents := work.documents[rowid := Doc(path, content)]);
      if LastRowid in fails { return Some(LastRowid), rowid; }
      if WriteFile in fails { return Some(WriteFile), rowid; }
      work := work.(files := work.files[path := FileRow(rowid, digest, mtime)]);
      if Commit in fails { return Some(Commit), rowid; }
      tables := work;
      return None, rowid;
    }

    method Delete(path: string, fails: set<Statement>) returns (err: Option<Statement>)
      modifies this
      ensures err == FirstFailing(DeleteStatements(path in old(tables).files), fails)
      ensures tables == if err.None? then AfterDelete(old(tables), path) else old(tables)
    {
      hide FirstFailing;
      Unfolded(DeleteStatements(path in tables.files), fails);
      if Begin in fails { return Some(Begin); }
      var work := tables;
      if Lookup in fails { return Some(Lookup); }
      if path !in work.files {
        if Commit in fails { return Some(Commit); }
        tables := work;
        return None;
      }
      if DeleteDoc in fails { return Some(DeleteDoc); }
      work := work.(documents := work.documents - {work.files[path].docRowid});
      if DeleteFile in fails { return Some(DeleteFile); }
      work := work.(files := work.files - {path});
      if Commit in fails { return Some(Commit); }
      tables := work;
      return None;
    }
  }

  // ---------- the index as a map from path to content ----------

  /** What the two tables say together of one path. */
  datatype Row = Row(content: string, mtime: int, hash: string)

  ghost function Rows(t: Tables): map<string, Row>
    requires Bijective(t)
  {
    map p | p in t.files :: Row(t.documents[t.files[p].docRowid].content, t.files[p].mtime, t.files[p].hash)
  }

  /** What the index says of one path; `hashed` is false for a backfilled row, which the next upsert rewrites. */
  datatype Indexed = Indexed(content: string, mtime: int, hashed: bool)

  type View = map<string, Indexed>

  function Summary(rows: map<string, Row>): View {
    map p | p in rows :: Indexed(rows[p].content, rows[p].mtime, rows[p].hash != "")
  }

  ghost function ViewOf(t: Tables): View
    requires Bijective(t)
  {
    Summary(Rows(t))
  }

  /** One call as it happened: `ok` says whether it succeeded, `rowid` is the one the engine picked. */
  datatype Call =
    | Upsert(path: string, content: string, mtime: int, rowid: int, ok: bool)
    | Delete(path: string, ok: bool)

  function Step(t: Tables, hash: Hash, c: Call): Tables {
    if !c.ok then t
    else match c
      case Upsert(path, content, mtime, rowid, _) => AfterUpsert(t, hash, path, content, mtime, rowid)
      case Delete(path, _) => AfterDelete(t, path)
  }

  predicate Possible(t: Tables, c: Call) {
    c.Upsert? && c.ok ==> c.rowid !in OtherDocuments(t, c.path)
  }

  function Run(t: Tables, hash: Hash, calls: seq<Call>): Tables
    decreases |calls|
  {
    if calls == [] then t else Run(Step(t, hash, calls[0]), hash, calls[1..])
  }

  predicate PossibleRun(t: Tables, hash: Hash, calls: seq<Call>)
    decreases |calls|
  {
    calls != [] ==> Possible(t, calls[0]) && PossibleRun(Step(t, hash, calls[0]), hash, calls[1..])
  }

  /** The plain map the index stands for: an upsert with the content already there changes nothing, not even mtime. */
  function ViewStep(v: View, c: Call): View {
    if !c.ok then v
    else match c
      case Upsert(path, content, mtime, _, _) =>
        if path in v && v[path].hashed && v[path].content == content then v
        else v[path := Indexed(content, mtime, true)]
      case Delete(path, _) => v - {path}
  }

  function Fold(v: View, calls: seq<Call>): View
    decreases |calls|
  {
    if calls == [] then v else Fold(ViewStep(v, calls[0]), calls[1..])
  }

  /** The hash tells the given contents apart. */
  ghost predicate CollisionFree(hash: Hash, contents: set<string>) {
    forall a, b :: a in contents && b in contents && hash(a) == hash(b) ==> a == b
  }

  function Contents(v: View): set<string> {
    set p | p in v :: v[p].content
  }

  function Uploaded(calls: seq<Call>): set<string>
    decreases |calls|
  {
    if calls == [] then {}
    else (if calls[0].Upsert? then {calls[0].content} else {}) + Uploaded(calls[1..])
  }

  /** A successful upsert, table by table. */
  lemma UpsertExactly(t: Tables, hash: Hash, path: string, content: string, mtime: int, rowid: int)
    ensures var t' := AfterUpsert(t, hash, path, content, mtime, rowid);
      if path in t.files && t.files[path].hash == hash(content) then t' == t
      else
        && t'.files == t.files[path := FileRow(rowid, hash(content), mtime)]
        && t'.documents.Keys == t.documents.Keys - (if path in t.files then {t.files[path].docRowid} else {}) + {rowid}
        && t'.documents[rowid] == Doc(path, content)
        && forall r :: r in t'.documents && r != rowid ==> t'.documents[r] == t.documents[r]
  {
  }

  /** A successful delete, table by table. */
  lemma DeleteExactly(t: Tables, path: string)
    ensures var t' := AfterDelete(t, path);
      if path !in t.files then t' == t
      else t'.files == t.files - {path} && t'.documents == t.documents - {t.files[path].docRowid}
  {
  }

  lemma UpsertSound(t: Tables, hash: Hash, path: string, content: string, mtime: int, rowid: int)
    requires Sound(t, hash) && rowid !in OtherDocuments(t, path)
    ensures Sound(AfterUpsert(t, hash, path, content, mtime, rowid), hash)
  {
  }

  lemma DeleteSound(t: Tables, hash: Hash, path: string)
    requires Sound(t, hash)
    ensures Sound(AfterDelete(t, path), hash)
    ensures ViewOf(AfterDelete(t, path)) == ViewOf(t) - {path}
    ensures Rows(AfterDelete(t, path)) == Rows(t) - {path}
  {
    assert Bijective(AfterDelete(t, path));
    assert Rows(AfterDelete(t, path)) == Rows(t) - {path};
    hide Sound, Rows, Bijective;
    assert Summary(Rows(t) - {path}) == Summary(Rows(t)) - {path};
  }

  lemma OtherDocumentKept(t: Tables, path: string, p: string)
    requires Bijective(t) && p in t.files && p != path
    ensures t.files[p].docRowid in OtherDocuments(t, path)
    ensures OtherDocuments(t, path)[t.files[p].docRowid] == t.documents[t.files[p].docRowid]
  {
  }

  lemma RewrittenRows(t: Tables, path: string, content: string, row: FileRow)
    requires Bijective(t) && row.docRowid !in OtherDocuments(t, path)
    requires Bijective(Tables(OtherDocuments(t, path)[row.docRowid := Doc(path, content)], t.files[path := row]))
    ensures Rows(Tables(OtherDocuments(t, path)[row.docRowid := Doc(path, content)], t.files[path := row]))
         == Rows(t)[path := Row(content, row.mtime, row.hash)]
  {
    var t' := Tables(OtherDocuments(t, path)[row.docRowid := Doc(path, content)], t.files[path := row]);
    var v, v' := Rows(t), Rows(t');
    hide Bijective;
    assert v'.Keys == v.Keys + {path};
    forall p | p in v && p != path ensures v'[p] == v[p] {
      OtherDocumentKept(t, path, p);
    }
  }

  /** Upserting touches one path: the rows change there and nowhere else, and not at all for the same digest. */
  lemma UpsertRows(t: Tables, hash: Hash, path: string, content: string, mtime: int, rowid: int)
    requires Sound(t, hash) && rowid !in OtherDocuments(t, path)
    ensures Sound(AfterUpsert(t, hash, path, content, mtime, rowid), hash)
    ensures Rows(AfterUpsert(t, hash, path, content, mtime, rowid))
         == if Unchanged(t, hash, path, content) then Rows(t) else Rows(t)[path := Row(content, mtime, hash(content))]
  {
    UpsertSound(t, hash, path, content, mtime, rowid);
    if !Unchanged(t, hash, path, content) {
      RewrittenRows(t, path, content, FileRow(rowid, hash(content), mtime));
    }
  }

  lemma SummaryUpdate(rows: map<string, Row>, path: string, row: Row)
    ensures Summary(rows[path := row]) == Summary(rows)[path := Indexed(row.content, row.mtime, row.hash != "")]
    ensures Summary(rows - {path}) == Summary(rows) - {path}
  {
  }

  lemma UpsertView(t: Tables, hash: Hash, path: string, content: string, mtime: int, rowid: int)
    requires NeverEmpty(hash) && Sound(t, hash) && rowid !in OtherDocuments(t, path)
    ensures Sound(AfterUpsert(t, hash, path, content, mtime, rowid), hash)
    ensures ViewOf(AfterUpsert(t, hash, path, content, mtime, rowid))
         == if Unchanged(t, hash, path, content) then ViewOf(t) else ViewOf(t)[path := Indexed(content, mtime, true)]
  {
    hide HashesMatch, Summary, Rows, AfterUpsert;
    UpsertRows(t, hash, path, content, mtime, rowid);
    SummaryUpdate(Rows(t), path, Row(content, mtime, hash(content)));
  }

  /** An upsert that reports success leaves the new content in the index, except exactly when the stored row
      carries a digest that the new content shares with a different one. */
  lemma UpsertStoresUnlessCollision(t: Tables, hash: Hash, path: string, content: string, mtime: int, rowid: int)
    requires NeverEmpty(hash) && Sound(t, hash) && rowid !in OtherDocuments(t, path)
    ensures Sound(AfterUpsert(t, hash, path, content, mtime, rowid), hash)
    ensures path in ViewOf(AfterUpsert(t, hash, path, content, mtime, rowid))
    ensures ViewOf(AfterUpsert(t, hash, path, content, mtime, rowid))[path].content == content
       <==> !(path in t.files && t.files[path].hash == hash(content)
              && t.documents[t.files[path].docRowid].content != content)
  {
    UpsertView(t, hash, path, content, mtime, rowid);
  }

  /** Such a collision, for a hash that gives every content one digest: the second upsert succeeds and changes nothing. */
  lemma CollisionKeepsOldContent(path: string, mtime: int, rowid: int)
    ensures var hash := (c: string) => "digest";
      var t := AfterUpsert(EMPTY_TABLES, hash, path, "old", mtime, rowid);
      NeverEmpty(hash) && Sound(t, hash) && AfterUpsert(t, hash, path, "new", mtime + 1, rowid + 1) == t
  {
    var hash := (c: string) => "digest";
    UpsertSound(EMPTY_TABLES, hash, path, "old", mtime, rowid);
  }

  lemma StepRefines(t: Tables, hash: Hash, c: Call)
    requires NeverEmpty(hash) && Sound(t, hash) && Possible(t, c)
    requires CollisionFree(hash, Contents(ViewOf(t)) + Uploaded([c]))
    ensures Sound(Step(t, hash, c), hash)
    ensures ViewOf(Step(t, hash, c)) == ViewStep(ViewOf(t), c)
  {
    var v := ViewOf(t);
    match c
    case Upsert(path, content, mtime, rowid, ok) =>
      if ok {
        UpsertView(t, hash, path, content, mtime, rowid);
        if path in t.files {
          assert v[path].content in Contents(v) && content in Uploaded([c]);
        }
      }
    case Delete(path, ok) =>
      DeleteSound(t, hash, path);
  }

  lemma StepContents(v: View, c: Call)
    ensures Contents(ViewStep(v, c)) <= Contents(v) + Uploaded([c])
  {
    var v' := ViewStep(v, c);
    forall x | x in Contents(v') ensures x in Contents(v) + Uploaded([c]) {
      var p :| p in v' && v'[p].content == x;
      if p in v && v'[p] == v[p] { assert v[p].content in Contents(v); }
    }
  }

  /** Whatever the hash and whatever fails, the tables stay in one-to-one correspondence and the hashes match. */
  lemma {:induction false} RunSound(t: Tables, hash: Hash, calls: seq<Call>)
    requires Sound(t, hash) && PossibleRun(t, hash, calls)
    ensures Sound(Run(t, hash, calls), hash)
    decreases |calls|
  {
    if calls == [] {
    } else {
      var c := calls[0];
      assert Sound(Step(t, hash, c), hash) by {
        match c
        case Upsert(path, content, mtime, rowid, ok) => if ok { UpsertSound(t, hash, path, content, mtime, rowid); }
        case Delete(path, _) => DeleteSound(t, hash, path);
      }
      hide Sound, Step, Possible;
      RunSound(Step(t, hash, c), hash, calls[1..]);
    }
  }

  /**
    Every run of upserts and deletes, each of which may fail: the tables stay in bijection, the stored hashes
    match, and the index is the fold of the calls that succeeded over a plain map. In particular the stored
    mtime is the one of the last upsert that changed the content.
   */
  lemma {:induction false} RunRefines(t: Tables, hash: Hash, calls: seq<Call>)
    requires NeverEmpty(hash) && Sound(t, hash) && PossibleRun(t, hash, calls)
    requires CollisionFree(hash, Contents(ViewOf(t)) + Uploaded(calls))
    ensures Sound(Run(t, hash, calls), hash)
    ensures ViewOf(Run(t, hash, calls)) == Fold(ViewOf(t), calls)
    decreases |calls|
  {
    if calls == [] {
    } else {
      var v := ViewOf(t);
      assert Uploaded([calls[0]]) <= Uploaded(calls);
      StepRefines(t, hash, calls[0]);
      StepContents(v, calls[0]);
      hide Sound, ViewOf, Step, ViewStep;
      RunRefines(Step(t, hash, calls[0]), hash, calls[1..]);
    }
  }
}
