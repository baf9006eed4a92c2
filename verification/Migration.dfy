/**
  The schema migration, one statement at a time. A statement that fails stops the migration with everything
  before it kept, except the ALTER that adds the mtime column, whose failure the program ignores.
 */
module Migration {
  import opened Options
  import Index

  /** A document of the full-text table, in rowid order. */
  datatype DocRow = DocRow(rowid: int, path: string, content: string)

  /** The shadow table; `hasMtime` says whether it has the mtime column. */
  datatype FilesTable = FilesTable(hasMtime: bool, rows: map<string, Index.FileRow>)

  datatype Schema = Schema(version: int, documents: Option<seq<DocRow>>, files: Option<FilesTable>, audit: bool)

  const CURRENT_VERSION := 3

  datatype Statement = ReadVersion | CreateDocuments | CreateFiles | Backfill | AddMtime | CreateAudit | Stamp

  /** The statements the program issues on a database stamped `version`. */
  function Statements(version: int): seq<Statement> {
    if version < 1 then [ReadVersion, CreateDocuments, CreateFiles, Backfill, AddMtime, CreateAudit, Stamp]
    else if version < 2 then [ReadVersion, AddMtime, CreateAudit, Stamp]
    else if version < CURRENT_VERSION then [ReadVersion, CreateAudit, Stamp]
    else [ReadVersion]
  }

  /** INSERT OR IGNORE of one row per document: the first document of a path wins, and existing rows stay. */
  function Backfilled(rows: map<string, Index.FileRow>, docs: seq<DocRow>): map<string, Index.FileRow>
    decreases |docs|
  {
    if docs == [] then rows
    else Backfilled(if docs[0].path in rows then rows else rows[docs[0].path := Index.FileRow(docs[0].rowid, "", 0)],
                    docs[1..])
  }

  function WithMtime(f: FilesTable): FilesTable {
    if f.hasMtime then f else FilesTable(true, map p | p in f.rows :: f.rows[p].(mtime := 0))
  }

  function Apply(s: Schema, st: Statement): Schema {
    match st
    case ReadVersion => s
    case CreateDocuments => if s.documents.None? then s.(documents := Some([])) else s
    case CreateFiles => if s.files.None? then s.(files := Some(FilesTable(true, map[]))) else s
    case Backfill =>
      if s.documents.None? || s.files.None? then s
      else s.(files := Some(s.files.value.(rows := Backfilled(s.files.value.rows, s.documents.value))))
    case AddMtime => if s.files.None? then s else s.(files := Some(WithMtime(s.files.value)))
    case CreateAudit => s.(audit := true)
    case Stamp => s.(version := CURRENT_VERSION)
  }

  /** Runs the statements; `fails` are those that return an error. */
  function Execute(s: Schema, stmts: seq<Statement>, fails: set<Statement>): (Schema, Option<Statement>)
    decreases |stmts|
  {
    if stmts == [] then (s, None)
    else if stmts[0] !in fails then Execute(Apply(s, stmts[0]), stmts[1..], fails)
    else if stmts[0] == AddMtime then Execute(s, stmts[1..], fails)
    else (s, Some(stmts[0]))
  }

  function Migrated(s: Schema, fails: set<Statement>): Schema {
    Execute(s, Statements(s.version), fails).0
  }

  class Database {
    var schema: Schema

    constructor (schema: Schema)
      ensures this.schema == schema
    {
      this.schema := schema;
    }

    method Migrate(fails: set<Statement>) returns (err: Option<Statement>)
      modifies this
      ensures (schema, err) == Execute(old(schema), Statements(old(schema.version)), fails)
    {
      if ReadVersion in fails { return Some(ReadVersion); }
      var version := schema.version;
      ghost var s := schema;
      if version < 1 {
        CreatesThenRest(s, fails);
        if CreateDocuments in fails { return Some(CreateDocuments); }
        if schema.documents.None? { schema := schema.(documents := Some([])); }
        if CreateFiles in fails { return Some(CreateFiles); }
        if schema.files.None? { schema := schema.(files := Some(FilesTable(true, map[]))); }
        if Backfill in fails { return Some(Backfill); }
        var files := schema.files.value;
        schema := schema.(files := Some(files.(rows := Backfilled(files.rows, schema.documents.value))));
      }
      Unrolled(s, fails);
      LastThree(schema, fails);
      if version < 2 && AddMtime !in fails && schema.files.Some? {
        schema := schema.(files := Some(WithMtime(schema.files.value)));
      }
      LastTwo(schema, fails);
      if version < 3 {
        if CreateAudit in fails { return Some(CreateAudit); }
        schema := schema.(audit := true);
      }
      if version < CURRENT_VERSION {
        if Stamp in fails { return Some(Stamp); }
        schema := schema.(version := CURRENT_VERSION);
      }
      return None;
    }
  }

  /** The first four statements of a migration from scratch, unrolled. */
  lemma CreatesThenRest(s: Schema, fails: set<Statement>)
    requires s.version < 1 && ReadVersion !in fails
    ensures Execute(s, Statements(s.version), fails)
         == if CreateDocuments in fails then (s, Some(CreateDocuments))
            else if CreateFiles in fails then (Apply(s, CreateDocuments), Some(CreateFiles))
            else if Backfill in fails then (Apply(Apply(s, CreateDocuments), CreateFiles), Some(Backfill))
            else Execute(Apply(Apply(Apply(s, CreateDocuments), CreateFiles), Backfill), [AddMtime, CreateAudit, Stamp], fails)
  {
    var all := Statements(s.version);
    var s1 := Apply(s, CreateDocuments);
    var s2 := Apply(s1, CreateFiles);
    assert Execute(s, all, fails) == Execute(s, all[1..], fails);
    assert all[1..][1..] == [CreateFiles, Backfill, AddMtime, CreateAudit, Stamp];
    if CreateDocuments !in fails {
      assert Execute(s, all[1..], fails) == Execute(s1, [CreateFiles, Backfill, AddMtime, CreateAudit, Stamp], fails);
      if CreateFiles !in fails {
        assert [CreateFiles, Backfill, AddMtime, CreateAudit, Stamp][1..] == [Backfill, AddMtime, CreateAudit, Stamp];
        assert [Backfill, AddMtime, CreateAudit, Stamp][1..] == [AddMtime, CreateAudit, Stamp];
      }
    }
  }

  /** The last statements of every migration, unrolled. */
  lemma LastTwo(s: Schema, fails: set<Statement>)
    ensures Execute(s, [CreateAudit, Stamp], fails)
         == if CreateAudit in fails then (s, Some(CreateAudit))
            else if Stamp in fails then (Apply(s, CreateAudit), Some(Stamp))
            else (Apply(Apply(s, CreateAudit), Stamp), None)
  {
    assert [CreateAudit, Stamp][1..] == [Stamp];
  }

  lemma LastThree(s: Schema, fails: set<Statement>)
    ensures Execute(s, [AddMtime, CreateAudit, Stamp], fails)
         == Execute(if AddMtime in fails then s else Apply(s, AddMtime), [CreateAudit, Stamp], fails)
  {
    assert [AddMtime, CreateAudit, Stamp][1..] == [CreateAudit, Stamp];
    LastTwo(s, fails);
    LastTwo(Apply(s, AddMtime), fails);
  }

  // ---------- what is executed, and where it stops ----------

  /** The order in which the program issues its statements. */
  function Rank(st: Statement): nat {
    match st
    case ReadVersion => 0
    case CreateDocuments => 1
    case CreateFiles => 2
    case Backfill => 3
    case AddMtime => 4
    case CreateAudit => 5
    case Stamp => 6
  }

  ghost predicate InOrder(stmts: seq<Statement>) {
    forall i, j :: 0 <= i < j < |stmts| ==> Rank(stmts[i]) < Rank(stmts[j])
  }

  /** Each statement is issued up to the version that has what it makes. */
  lemma StatementsExactly(version: int, st: Statement)
    ensures InOrder(Statements(version))
    ensures st in Statements(version) <==>
              version < match st
                        case ReadVersion => version + 1
                        case CreateDocuments => 1
                        case CreateFiles => 1
                        case Backfill => 1
                        case AddMtime => 2
                        case CreateAudit => 3
                        case Stamp => 3
  {
    if version < 1 {
    } else if version < 2 {
    } else if version < 3 {
    } else {
    }
  }

  /** The failure reported is the earliest, the ALTER's apart; every statement before it has been executed. */
  lemma {:induction false} FailureIsEarliest(s: Schema, stmts: seq<Statement>, fails: set<Statement>)
    requires InOrder(stmts)
    ensures var err := Execute(s, stmts, fails).1;
      err.Some? ==> err.value in stmts && err.value in fails && err.value != AddMtime
                    && forall st :: st in stmts && st in fails && st != AddMtime ==> Rank(err.value) <= Rank(st)
    decreases |stmts|
  {
    if stmts == [] {
    } else {
      FailureIsEarliest(if stmts[0] in fails then s else Apply(s, stmts[0]), stmts[1..], fails);
    }
  }

  /** The schema that each failure leaves behind. */
  lemma StoppedExactly(s: Schema, fails: set<Statement>)
    ensures var (t, err) := Execute(s, Statements(s.version), fails);
      && (err == Some(ReadVersion) || err == Some(CreateDocuments) ==> t == s)
      && (err == Some(CreateFiles) ==> t == s.(documents := if s.documents.Some? then s.documents else Some([])))
      && (err == Some(Backfill) ==>
            t == s.(documents := if s.documents.Some? then s.documents else Some([]),
                    files := if s.files.Some? then s.files else Some(FilesTable(true, map[]))))
      && (err == Some(CreateAudit) ==> t.audit == s.audit)
      && (err == Some(Stamp) ==> t.audit)
      && (err.Some? && err.value in {CreateAudit, Stamp} && AddMtime !in fails ==>
            t.documents == Final(s).documents && t.files == Final(s).files)
      && (err.Some? ==> t.version == s.version)
  {
    if ReadVersion in fails {
    } else {
      Unrolled(s, fails);
      var t := if s.version < 1 then Apply(Apply(Apply(s, CreateDocuments), CreateFiles), Backfill) else s;
      if s.version < 1 { CreatesThenRest(s, fails); }
      LastThree(t, fails);
      LastTwo(t, fails);
      LastTwo(Apply(t, AddMtime), fails);
    }
  }

  /** All that a migration executes after the read of the version and the three creating statements. */
  lemma Unrolled(s: Schema, fails: set<Statement>)
    requires ReadVersion !in fails
    ensures 1 <= s.version < 2 ==>
              Execute(s, Statements(s.version), fails) == Execute(s, [AddMtime, CreateAudit, Stamp], fails)
    ensures 2 <= s.version < CURRENT_VERSION ==>
              Execute(s, Statements(s.version), fails) == Execute(s, [CreateAudit, Stamp], fails)
    ensures CURRENT_VERSION <= s.version ==> Execute(s, Statements(s.version), fails) == (s, None)
  {
    assert [ReadVersion, AddMtime, CreateAudit, Stamp][1..] == [AddMtime, CreateAudit, Stamp];
    assert [ReadVersion, CreateAudit, Stamp][1..] == [CreateAudit, Stamp];
  }

  // ---------- restartability ----------

  /** Where a migration that nothing interrupts ends. */
  function Final(s: Schema): Schema {
    if s.version >= CURRENT_VERSION then s
    else
      var docs := if s.version < 1 && s.documents.None? then Some([]) else s.documents;
      var files := if s.version < 1 && s.files.None? then Some(FilesTable(true, map[])) else s.files;
      var filled :=
        if s.version < 1 then Some(files.value.(rows := Backfilled(files.value.rows, docs.value))) else files;
      var dated := if s.version < 2 && filled.Some? then Some(WithMtime(filled.value)) else filled;
      Schema(CURRENT_VERSION, docs, dated, true)
  }

  lemma ReachesFinal(s: Schema)
    ensures Execute(s, Statements(s.version), {}) == (Final(s), None)
  {
    Unrolled(s, {});
    var t := if s.version < 1 then Apply(Apply(Apply(s, CreateDocuments), CreateFiles), Backfill) else s;
    if s.version < 1 { CreatesThenRest(s, {}); }
    LastThree(t, {});
    LastTwo(t, {});
    LastTwo(Apply(t, AddMtime), {});
  }

  lemma {:induction false} BackfillKeepsRows(rows: map<string, Index.FileRow>, docs: seq<DocRow>)
    ensures forall p :: p in rows ==> p in Backfilled(rows, docs) && Backfilled(rows, docs)[p] == rows[p]
    ensures forall p :: p in Backfilled(rows, docs) <==> p in rows || exists i :: 0 <= i < |docs| && docs[i].path == p
    decreases |docs|
  {
    if docs == [] {
    } else {
      var rows' := if docs[0].path in rows then rows else rows[docs[0].path := Index.FileRow(docs[0].rowid, "", 0)];
      BackfillKeepsRows(rows', docs[1..]);
      forall p | p in Backfilled(rows, docs) && p !in rows
        ensures exists i :: 0 <= i < |docs| && docs[i].path == p
      {
        if p in rows' { assert docs[0].path == p; }
        else { var i :| 0 <= i < |docs[1..]| && docs[1..][i].path == p; assert docs[i + 1].path == p; }
      }
      forall i | 0 <= i < |docs| ensures docs[i].path in Backfilled(rows, docs) {
        if i > 0 { assert docs[i] == docs[1..][i - 1]; }
      }
    }
  }

  lemma {:induction false} NothingToBackfill(rows: map<string, Index.FileRow>, docs: seq<DocRow>)
    requires forall i :: 0 <= i < |docs| ==> docs[i].path in rows
    ensures Backfilled(rows, docs) == rows
    decreases |docs|
  {
    if docs == [] {
    } else {
      assert docs[0].path in rows;
      forall i | 0 <= i < |docs[1..]| ensures docs[1..][i].path in rows { assert docs[1..][i] == docs[i + 1]; }
      NothingToBackfill(rows, docs[1..]);
    }
  }

  lemma BackfillTwice(rows: map<string, Index.FileRow>, docs: seq<DocRow>)
    ensures Backfilled(Backfilled(rows, docs), docs) == Backfilled(rows, docs)
  {
    BackfillKeepsRows(rows, docs);
    NothingToBackfill(Backfilled(rows, docs), docs);
  }

  function Zeroed(rows: map<string, Index.FileRow>): map<string, Index.FileRow> {
    map p | p in rows :: rows[p].(mtime := 0)
  }

  lemma {:induction false} BackfillOfZeroed(rows: map<string, Index.FileRow>, docs: seq<DocRow>)
    ensures Backfilled(Zeroed(rows), docs) == Zeroed(Backfilled(rows, docs))
    decreases |docs|
  {
    if docs == [] {
    } else {
      var rows' := if docs[0].path in rows then rows else rows[docs[0].path := Index.FileRow(docs[0].rowid, "", 0)];
      if docs[0].path !in rows {
        assert Zeroed(rows') == Zeroed(rows)[docs[0].path := Index.FileRow(docs[0].rowid, "", 0)];
      }
      BackfillOfZeroed(rows', docs[1..]);
    }
  }

  /** No statement before the stamp changes where the migration will end. */
  lemma StatementKeepsFinal(s: Schema, st: Statement)
    requires s.version < CURRENT_VERSION && st in Statements(s.version) && st != Stamp
    ensures Apply(s, st).version == s.version && Final(Apply(s, st)) == Final(s)
  {
    if st == Backfill && s.documents.Some? && s.files.Some? {
      BackfillTwice(s.files.value.rows, s.documents.value);
    }
    if st == AddMtime && s.files.Some? && s.version < 1 && !s.files.value.hasMtime {
      var docs := if s.documents.None? then [] else s.documents.value;
      BackfillOfZeroed(s.files.value.rows, docs);
      assert WithMtime(s.files.value).rows == Zeroed(s.files.value.rows);
      assert Final(s).files.value.rows == Zeroed(Backfilled(s.files.value.rows, docs));
    }
  }

  /** A migration that stops at an error, anywhere, keeps where it will end. */
  lemma {:induction false} InterruptionKeepsFinal(s: Schema, stmts: seq<Statement>, fails: set<Statement>)
    requires s.version < CURRENT_VERSION
    requires forall i :: 0 <= i < |stmts| ==> stmts[i] in Statements(s.version)
    requires forall i :: 0 <= i < |stmts| - 1 ==> stmts[i] != Stamp
    requires Execute(s, stmts, fails).1.Some?
    ensures Execute(s, stmts, fails).0.version == s.version
    ensures Final(Execute(s, stmts, fails).0) == Final(s)
    decreases |stmts|
  {
    if stmts[0] in fails && stmts[0] != AddMtime {
    } else {
      assert |stmts| > 1;
      forall i | 0 <= i < |stmts[1..]|
        ensures stmts[1..][i] in Statements(s.version)
        ensures i < |stmts[1..]| - 1 ==> stmts[1..][i] != Stamp
      {
        assert stmts[1..][i] == stmts[i + 1];
      }
      if stmts[0] in fails {
        InterruptionKeepsFinal(s, stmts[1..], fails);
      } else {
        StatementKeepsFinal(s, stmts[0]);
        InterruptionKeepsFinal(Apply(s, stmts[0]), stmts[1..], fails);
      }
    }
  }

  /** The state after a series of attempts, each interrupted wherever its faults say. */
  function Attempts(s: Schema, attempts: seq<set<Statement>>): Schema
    decreases |attempts|
  {
    if attempts == [] then s else Attempts(Migrated(s, attempts[0]), attempts[1..])
  }

  lemma {:induction false} CurrentStays(s: Schema, attempts: seq<set<Statement>>)
    requires s.version >= CURRENT_VERSION
    ensures Attempts(s, attempts) == s
    decreases |attempts|
  {
    if attempts == [] {
    } else {
      assert Execute(s, [ReadVersion], attempts[0]).0 == s;
      CurrentStays(s, attempts[1..]);
    }
  }

  /** Of the statements to execute the ALTER, and nothing else, fails, on a table that lacks the column. */
  predicate Lossy(s: Schema, fails: set<Statement>) {
    && s.version < 2 && s.files.Some? && !s.files.value.hasMtime
    && AddMtime in fails && forall st :: st in Statements(s.version) && st in fails ==> st == AddMtime
  }

  /** A migration reports success exactly when nothing but the ALTER fails. */
  lemma {:induction false} SuccessIsNoOtherFault(s: Schema, stmts: seq<Statement>, fails: set<Statement>)
    ensures Execute(s, stmts, fails).1.None? <==> forall st :: st in stmts && st in fails ==> st == AddMtime
    decreases |stmts|
  {
    if stmts == [] {
    } else {
      assert forall st :: st in stmts <==> st == stmts[0] || st in stmts[1..];
      SuccessIsNoOtherFault(if stmts[0] in fails then s else Apply(s, stmts[0]), stmts[1..], fails);
    }
  }

  /** None of the attempts is lossy. */
  predicate NoLoss(s: Schema, attempts: seq<set<Statement>>)
    decreases |attempts|
  {
    attempts != [] ==> !Lossy(s, attempts[0]) && NoLoss(Migrated(s, attempts[0]), attempts[1..])
  }

  lemma LossOfSuccess(s: Schema, fails: set<Statement>)
    requires Execute(s, Statements(s.version), fails).1.None?
    ensures Lossy(s, fails) <==> s.version < 2 && s.files.Some? && !s.files.value.hasMtime && AddMtime in fails
  {
    hide Execute, Statements;
    SuccessIsNoOtherFault(s, Statements(s.version), fails);
  }

  /** Where a migration that reports success ends. */
  lemma SuccessfulAttempt(s: Schema, fails: set<Statement>)
    requires s.version < CURRENT_VERSION && Execute(s, Statements(s.version), fails).1.None?
    ensures Migrated(s, fails).version == CURRENT_VERSION
    ensures Lossy(s, fails) <==> s.version < 2 && s.files.Some? && !s.files.value.hasMtime && AddMtime in fails
    ensures !Lossy(s, fails) ==> Migrated(s, fails) == Final(s)
    ensures Lossy(s, fails) ==> Migrated(s, fails).files.Some? && !Migrated(s, fails).files.value.hasMtime
  {
    LossOfSuccess(s, fails);
    hide Lossy;
    SuccessIsNoOtherFault(s, Statements(s.version), fails);
    assert ReadVersion !in fails;
    Unrolled(s, fails);
    var t := if s.version < 1 then Apply(Apply(Apply(s, CreateDocuments), CreateFiles), Backfill) else s;
    if s.version < 1 { CreatesThenRest(s, fails); }
    LastThree(t, fails);
    LastTwo(t, fails);
    LastTwo(Apply(t, AddMtime), fails);
  }

  /** An attempt, wherever it stops, keeps where the migration will end, unless it is lossy. */
  lemma AttemptKeepsFinal(s: Schema, fails: set<Statement>)
    ensures Final(Migrated(s, fails)) == Final(s) <==> !Lossy(s, fails)
  {
    if s.version >= CURRENT_VERSION {
      CurrentStays(s, [fails]);
    } else if Execute(s, Statements(s.version), fails).1.Some? {
      SuccessIsNoOtherFault(s, Statements(s.version), fails);
      InterruptionKeepsFinal(s, Statements(s.version), fails);
    } else {
      SuccessfulAttempt(s, fails);
    }
  }

  /**
    The migration is restartable exactly when nothing is lost: however many attempts were cut short, and wherever,
    the next one that nothing interrupts ends where a single uninterrupted migration does, if and only if none of the
    attempts reported success over a failed ALTER that was needed. Running it again changes nothing.
   */
  lemma {:induction false} Restartable(s: Schema, attempts: seq<set<Statement>>)
    ensures Migrated(Attempts(s, attempts), {}) == Final(s) <==> NoLoss(s, attempts)
    ensures Migrated(Final(s), {}) == Final(s)
    decreases |attempts|
  {
    hide Final, Migrated, Lossy;
    IdleAtFinal(s);
    if attempts == [] {
      EndsAtFinal(s);
    } else {
      var t := Migrated(s, attempts[0]);
      AttemptKeepsFinal(s, attempts[0]);
      Restartable(t, attempts[1..]);
      if Lossy(s, attempts[0]) { LossIsFinal(s, attempts); }
    }
  }

  lemma EndsAtFinal(s: Schema)
    ensures Migrated(s, {}) == Final(s)
  {
    ReachesFinal(s);
  }

  lemma IdleAtFinal(s: Schema)
    ensures Migrated(Final(s), {}) == Final(s)
  {
    EndsAtFinal(Final(s));
  }

  /** After a lossy attempt the stamp keeps every later one from doing anything. */
  lemma LossIsFinal(s: Schema, attempts: seq<set<Statement>>)
    requires attempts != [] && Lossy(s, attempts[0])
    ensures Migrated(Attempts(s, attempts), {}) != Final(s)
  {
    var t := Migrated(s, attempts[0]);
    SuccessIsNoOtherFault(s, Statements(s.version), attempts[0]);
    SuccessfulAttempt(s, attempts[0]);
    AttemptKeepsFinal(s, attempts[0]);
    CurrentStays(t, attempts[1..]);
    EndsAtFinal(t);
  }

  /**
    What a finished migration of `s` has to be. The version is 3 and the audit table is there; no document is touched;
    every row stays with its rowid and hash; coming from version 0, exactly the old rows' and the documents' paths have
    rows; and the index is usable unless the stamp was already past the version that adds the mtime column and the
    column is missing.
   */
  ghost predicate Upgraded(s: Schema, t: Schema)
    requires Stamped(s)
  {
    && (if s.version >= 3 then t == s else t.version == 3 && t.audit)
    && t.documents == (if s.documents.Some? then s.documents else Some([]))
    && t.files.Some? && KeepsRows(s, t.files.value.rows)
    && (forall p :: p in t.files.value.rows <==> HasRow(s, p) || (s.version < 1 && HasDocument(s, p)))
    && (s.version < 1 ==> forall i :: IsFirstDocument(s, i) && !HasRow(s, s.documents.value[i].path) ==>
          t.files.value.rows[s.documents.value[i].path] == Index.FileRow(s.documents.value[i].rowid, "", 0))
    && (Usable(t) <==> s.version < 2 || s.files.value.hasMtime)
  }

  /** A migration that nothing interrupts reaches its final schema, and that is what it has to be. */
  lemma UninterruptedReachesFinal(s: Schema)
    ensures Execute(s, Statements(s.version), {}) == (Final(s), None)
    ensures Stamped(s) ==> Upgraded(s, Final(s))
  {
    hide Execute, Final, Upgraded;
    ReachesFinal(s);
    if Stamped(s) { FinalIsUpgraded(s); }
  }

  lemma FinalIsUpgraded(s: Schema)
    requires Stamped(s)
    ensures Upgraded(s, Final(s))
  {
    var rows := if s.files.Some? then s.files.value.rows else map[];
    var docs := if s.documents.Some? then s.documents.value else [];
    BackfillKeepsRows(rows, docs);
    forall i | IsFirstDocument(s, i) && !HasRow(s, docs[i].path)
      ensures docs[i].path in Backfilled(rows, docs)
      ensures Backfilled(rows, docs)[docs[i].path] == Index.FileRow(docs[i].rowid, "", 0)
    {
      BackfilledRow(rows, docs, i);
    }
  }

  predicate HasRow(s: Schema, path: string) {
    s.files.Some? && path in s.files.value.rows
  }

  predicate HasDocument(s: Schema, path: string) {
    s.documents.Some? && exists i :: 0 <= i < |s.documents.value| && s.documents.value[i].path == path
  }

  /** No document before it has the same path. */
  predicate IsFirstDocument(s: Schema, i: int) {
    && s.documents.Some? && 0 <= i < |s.documents.value|
    && forall j :: 0 <= j < i ==> s.documents.value[j].path != s.documents.value[i].path
  }

  /** Every row is kept with its rowid and hash, and with its mtime when it has one; a new mtime column starts at 0. */
  predicate KeepsRows(s: Schema, rows: map<string, Index.FileRow>) {
    s.files.Some? ==> forall p :: p in s.files.value.rows ==>
      && p in rows && rows[p].docRowid == s.files.value.rows[p].docRowid && rows[p].hash == s.files.value.rows[p].hash
      && (s.files.value.hasMtime || s.version >= 2 ==> rows[p] == s.files.value.rows[p])
      && (!s.files.value.hasMtime && s.version < 2 ==> rows[p].mtime == 0)
  }

  // ---------- the mtime column ----------

  /** What upserts need: both tables, and the mtime column. */
  predicate Usable(s: Schema) {
    s.documents.Some? && s.files.Some? && s.files.value.hasMtime
  }

  /** A stamp is only there when the tables it stands for are. */
  predicate Stamped(s: Schema) {
    s.version >= 1 ==> s.documents.Some? && s.files.Some?
  }

  /**
    The ignored failure costs the column exactly when an existing table had none: a migration that reports
    success leaves a usable index if and only if the ALTER succeeded or there was nothing to alter.
   */
  lemma MtimeColumn(s: Schema, fails: set<Statement>)
    requires Stamped(s) && s.version < 2
    requires Execute(s, Statements(s.version), fails).1.None?
    ensures Migrated(s, fails).version == CURRENT_VERSION
    ensures Usable(Migrated(s, fails)) <==> AddMtime !in fails || s.files.None? || s.files.value.hasMtime
  {
    assert ReadVersion !in fails;
    Unrolled(s, fails);
    var t := if s.version < 1 then Apply(Apply(Apply(s, CreateDocuments), CreateFiles), Backfill) else s;
    if s.version < 1 { CreatesThenRest(s, fails); }
    LastThree(t, fails);
    LastTwo(t, fails);
    LastTwo(Apply(t, AddMtime), fails);
  }

  /** A database without the column: a migration in which only the ALTER fails stamps it, so no later run repairs it. */
  lemma LostMtimeColumnIsNeverRepaired(s: Schema, later: seq<set<Statement>>)
    requires Stamped(s) && s.version < 2 && s.files.Some? && !s.files.value.hasMtime
    ensures !Usable(Attempts(Migrated(s, {AddMtime}), later))
  {
    Unrolled(s, {AddMtime});
    var t := if s.version < 1 then Apply(Apply(Apply(s, CreateDocuments), CreateFiles), Backfill) else s;
    if s.version < 1 { CreatesThenRest(s, {AddMtime}); }
    LastThree(t, {AddMtime});
    LastTwo(t, {AddMtime});
    CurrentStays(Migrated(s, {AddMtime}), later);
  }

  // ---------- what the backfill establishes ----------

  function DocMap(docs: seq<DocRow>): map<int, Index.Doc> {
    if docs == [] then map[] else DocMap(docs[1..])[docs[0].rowid := Index.Doc(docs[0].path, docs[0].content)]
  }

  predicate DistinctRowids(docs: seq<DocRow>) {
    forall i, j :: 0 <= i < j < |docs| ==> docs[i].rowid != docs[j].rowid
  }

  predicate DistinctPaths(docs: seq<DocRow>) {
    forall i, j :: 0 <= i < j < |docs| ==> docs[i].path != docs[j].path
  }

  lemma {:induction false} DocMapEntries(docs: seq<DocRow>)
    requires DistinctRowids(docs)
    ensures forall i :: 0 <= i < |docs| ==>
              docs[i].rowid in DocMap(docs) && DocMap(docs)[docs[i].rowid] == Index.Doc(docs[i].path, docs[i].content)
    ensures forall r :: r in DocMap(docs) ==> exists i :: 0 <= i < |docs| && docs[i].rowid == r
  {
    if docs == [] {
    } else {
      DocMapEntries(docs[1..]);
      forall i | 0 <= i < |docs|
        ensures docs[i].rowid in DocMap(docs)
        ensures DocMap(docs)[docs[i].rowid] == Index.Doc(docs[i].path, docs[i].content)
      {
        if i > 0 { assert docs[i] == docs[1..][i - 1]; }
      }
      forall r | r in DocMap(docs) ensures exists i :: 0 <= i < |docs| && docs[i].rowid == r {
        if r != docs[0].rowid {
          var i :| 0 <= i < |docs[1..]| && docs[1..][i].rowid == r;
          assert docs[i + 1].rowid == r;
        }
      }
    }
  }

  /** In a table filled from nothing, each row names the first document of its path and has an empty hash. */
  lemma {:induction false} BackfilledRow(rows: map<string, Index.FileRow>, docs: seq<DocRow>, i: nat)
    requires i < |docs| && docs[i].path !in rows
    requires forall j :: 0 <= j < i ==> docs[j].path != docs[i].path
    ensures docs[i].path in Backfilled(rows, docs)
    ensures Backfilled(rows, docs)[docs[i].path] == Index.FileRow(docs[i].rowid, "", 0)
    decreases |docs|
  {
    var rows' := if docs[0].path in rows then rows else rows[docs[0].path := Index.FileRow(docs[0].rowid, "", 0)];
    if i == 0 {
      BackfillKeepsRows(rows', docs[1..]);
    } else {
      assert docs[1..][i - 1] == docs[i];
      forall j | 0 <= j < i - 1 ensures docs[1..][j].path != docs[i].path { assert docs[1..][j] == docs[j + 1]; }
      BackfilledRow(rows', docs[1..], i - 1);
    }
  }

  function Tables(s: Schema): Index.Tables
    requires s.documents.Some? && s.files.Some?
  {
    Index.Tables(DocMap(s.documents.value), s.files.value.rows)
  }

  /**
    Upgrading a database from before the shadow table: the tables end up in one-to-one correspondence if and
    only if no two legacy documents share a path.
   */
  lemma BackfillBijective(docs: seq<DocRow>)
    requires DistinctRowids(docs)
    ensures Index.Bijective(Index.Tables(DocMap(docs), Backfilled(map[], docs))) <==> DistinctPaths(docs)
  {
    var t := Index.Tables(DocMap(docs), Backfilled(map[], docs));
    DocMapEntries(docs);
    BackfillKeepsRows(map[], docs);
    if DistinctPaths(docs) {
      forall i | 0 <= i < |docs|
        ensures docs[i].path in t.files && t.files[docs[i].path].docRowid == docs[i].rowid
      {
        BackfilledRow(map[], docs, i);
      }
    } else {
      var i, j :| 0 <= i < j < |docs| && docs[i].path == docs[j].path;
      assert t.documents[docs[i].rowid].path == t.documents[docs[j].rowid].path;
    }
  }

  /** ... and then the next upsert of any path rewrites it, whatever the content. */
  lemma BackfilledRowsAreRewritten(docs: seq<DocRow>, hash: Index.Hash, path: string, content: string)
    requires Index.NeverEmpty(hash) && DistinctRowids(docs) && DistinctPaths(docs)
    ensures Final(Schema(0, Some(docs), None, false))
         == Schema(CURRENT_VERSION, Some(docs), Some(FilesTable(true, Backfilled(map[], docs))), true)
    ensures Index.Sound(Tables(Final(Schema(0, Some(docs), None, false))), hash)
    ensures !Index.Unchanged(Tables(Final(Schema(0, Some(docs), None, false))), hash, path, content)
  {
    var t := Index.Tables(DocMap(docs), Backfilled(map[], docs));
    BackfillBijective(docs);
    BackfillKeepsRows(map[], docs);
    forall p | p in t.files ensures t.files[p].hash == "" {
      var i :| 0 <= i < |docs| && docs[i].path == p;
      forall j | 0 <= j < i ensures docs[j].path != docs[i].path {}
      BackfilledRow(map[], docs, i);
    }
  }
}
