/** Indexing and forgetting one path: what happens to that path's row, and that no other row is touched. */
module Indexing {
  import opened Options
  import opened Index
  import Text

  /** A file on disk; `text` is missing when its text cannot be extracted. */
  datatype File = File(name: string, stem: string, size: int, text: Option<string>, mtime: int)

  type Disk = map<string, File>

  const MAX_FILE_SIZE := 50 * 1024 * 1024

  datatype Failure = NotFound | TooLarge | NoText | Failed(at: Statement)

  /** What is indexed for a file: its name with and without extension, so that both can be searched, then its text. */
  function Document(f: File): string
    requires f.text.Some?
  {
    f.name + "\n" + f.stem + "\n" + f.text.value
  }

  function CurrentRow(rows: map<string, Row>, path: string): Option<Row> {
    if path in rows then Some(rows[path]) else None
  }

  predicate SameDigest(row: Option<Row>, hash: Hash, content: string) {
    row.Some? && row.value.hash == hash(content)
  }

  /** How indexing `path` ends, given the path's row, the disk and the statements that fail. */
  function IndexFailure(row: Option<Row>, hash: Hash, disk: Disk, path: string, fails: set<Statement>): Option<Failure> {
    if path !in disk then Some(NotFound)
    else
      var f := disk[path];
      if f.size > MAX_FILE_SIZE then Some(TooLarge)
      else if f.text.None? then Some(NoText)
      else if Text.Blank(Document(f)) then None
      else match FirstFailing(UpsertStatements(row.Some?, SameDigest(row, hash, Document(f))), fails)
        case None => None
        case Some(at) => Some(Failed(at))
  }

  /** The path's row afterwards. */
  function IndexedRow(row: Option<Row>, hash: Hash, disk: Disk, path: string, fails: set<Statement>): Option<Row> {
    if IndexFailure(row, hash, disk, path, fails).Some? then row
    else
      var content := Document(disk[path]);
      if Text.Blank(content) || SameDigest(row, hash, content) then row
      else Some(Row(content, disk[path].mtime, hash(content)))
  }

  function ForgetFailure(row: Option<Row>, fails: set<Statement>): Option<Statement> {
    FirstFailing(DeleteStatements(row.Some?), fails)
  }

  function ForgottenRow(row: Option<Row>, fails: set<Statement>): Option<Row> {
    if ForgetFailure(row, fails).None? then None else row
  }

  function WithRow(rows: map<string, Row>, path: string, row: Option<Row>): map<string, Row> {
    if row.Some? then rows[path := row.value] else rows - {path}
  }

  /**
    Indexing a path, case by case: a missing file, one above 50 MB and one without text are errors, a failing statement
    is reported, and all of them leave the row as it is. Otherwise the row holds the file's name and stem, each on a line
    of its own, and then its text, with that content's digest and the file's mtime, unless the digest is the stored one.
   */
  lemma IndexedExactly(row: Option<Row>, hash: Hash, disk: Disk, path: string, fails: set<Statement>)
    ensures var err, after := IndexFailure(row, hash, disk, path, fails), IndexedRow(row, hash, disk, path, fails);
      && (err.Some? ==> after == row)
      && (path !in disk ==> err == Some(NotFound))
      && (path in disk && disk[path].size > 52_428_800 ==> err == Some(TooLarge))
      && (path in disk && disk[path].size <= 52_428_800 && disk[path].text.None? ==> err == Some(NoText))
      && (path in disk && disk[path].size <= 52_428_800 && disk[path].text.Some? ==>
            var content := disk[path].name + "\n" + disk[path].stem + "\n" + disk[path].text.value;
            var same := row.Some? && row.value.hash == hash(content);
            if forall i :: 0 <= i < |content| ==> Text.IsSpace(content[i]) then err.None? && after == row
            else
              && (err.Some? <==> FirstFailing(UpsertStatements(row.Some?, same), fails).Some?)
              && (err.Some? ==> err == Some(Failed(FirstFailing(UpsertStatements(row.Some?, same), fails).value)))
              && (err.None? ==> after == if same then row else Some(Row(content, disk[path].mtime, hash(content)))))
  {
  }

  /** Forgetting a path: its row is gone, unless a statement fails. */
  lemma ForgottenExactly(row: Option<Row>, fails: set<Statement>)
    ensures ForgetFailure(row, fails) == FirstFailing(DeleteStatements(row.Some?), fails)
    ensures ForgottenRow(row, fails) == if FirstFailing(DeleteStatements(row.Some?), fails).Some? then row else None
  {
  }

  /** Writing a path's row changes nothing else. */
  lemma WithRowExactly(rows: map<string, Row>, path: string, row: Option<Row>)
    ensures var t := WithRow(rows, path, row);
      && CurrentRow(t, path) == row && (path in t <==> row.Some?)
      && forall p :: p != path ==> (p in t <==> p in rows) && (p in t ==> t[p] == rows[p])
  {
  }

  lemma Rewriting(rows: map<string, Row>, path: string)
    ensures WithRow(rows, path, CurrentRow(rows, path)) == rows
  {
  }

  method BlankDocument(s: string) returns (blank: bool)
    ensures blank == Text.Blank(s)
  {
    for i := 0 to |s|
      invariant Text.Blank(s[..i])
    {
      if !Text.IsSpace(s[i]) { return false; }
    }
    return true;
  }

  method IndexFile(db: Database, disk: Disk, path: string, fails: set<Statement>) returns (err: Option<Failure>)
    requires Sound(db.tables, db.hash)
    modifies db
    ensures Sound(db.tables, db.hash)
    ensures err == IndexFailure(CurrentRow(Rows(old(db.tables)), path), db.hash, disk, path, fails)
    ensures Rows(db.tables) == WithRow(Rows(old(db.tables)), path,
              IndexedRow(CurrentRow(Rows(old(db.tables)), path), db.hash, disk, path, fails))
    ensures err.None? ==> path in disk && disk[path].text.Some?
    ensures err.None? ==>
              var content := disk[path].name + "\n" + disk[path].stem + "\n" + disk[path].text.value;
              (exists i :: 0 <= i < |content| && !Text.IsSpace(content[i]))
              && !(path in old(db.tables).files && old(db.tables).files[path].hash == db.hash(content)) ==>
                path in db.tables.files && db.tables.files[path].mtime == disk[path].mtime
                && db.tables.documents[db.tables.files[path].docRowid].content == content
  {
    hide FirstFailing;
    Rewriting(Rows(db.tables), path);
    if path !in disk { return Some(NotFound); }
    var f := disk[path];
    if f.size > MAX_FILE_SIZE { return Some(TooLarge); }
    if f.text.None? { return Some(NoText); }
    var content := Document(f);
    var blank := BlankDocument(content);
    if blank { return None; }
    ghost var before := db.tables;
    var failed, rowid := db.UpsertWithMtime(path, content, f.mtime, fails);
    DigestsAgree(before, db.hash, path, content);
    if failed.Some? { return Some(Failed(failed.value)); }
    UpsertRows(before, db.hash, path, content, f.mtime, rowid);
    return None;
  }

  lemma DigestsAgree(t: Tables, hash: Hash, path: string, content: string)
    requires Bijective(t)
    ensures Unchanged(t, hash, path, content) == SameDigest(CurrentRow(Rows(t), path), hash, content)
  {
  }

  method Forget(db: Database, path: string, fails: set<Statement>) returns (err: Option<Statement>)
    requires Sound(db.tables, db.hash)
    modifies db
    ensures Sound(db.tables, db.hash)
    ensures err == ForgetFailure(CurrentRow(Rows(old(db.tables)), path), fails)
    ensures Rows(db.tables) == WithRow(Rows(old(db.tables)), path,
              ForgottenRow(CurrentRow(Rows(old(db.tables)), path), fails))
  {
    hide FirstFailing;
    Rewriting(Rows(db.tables), path);
    DeleteSound(db.tables, db.hash, path);
    err := db.Delete(path, fails);
  }
}
