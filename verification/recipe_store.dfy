/**
 * The dual-store recipe facade of db.py: a recipe's full payload goes to a
 * JSON file in the recipes directory, and a row of the `recipes` table
 * indexes it by an auto-increment id.  The directory is a map from file name
 * to content and the table a sequence of rows in insertion order.
 */
module RecipeStore {
  import opened Wrappers
  import opened Decimals
  import opened Documents

  /** A point in time as `datetime.utcnow()` gives it. */
  type Timestamp = nat

  /** A row of the `recipes` table.  `author` is nullable and holds JNull for
      NULL.  Both columns are `String` columns with TEXT affinity, so SQLite
      stores a number bound to them as its text; the model keeps the payload's
      value, since nothing here reads the row's name or author back. */
  datatype RecipeRow = RecipeRow(id: nat, name: Json, author: Json, createdAt: Timestamp, filePath: string)

  /** A value of the dict `get_recipe` returns: a field of the document, or
      the row's integer id or datetime, which are not JSON. */
  datatype Field = Stored(value: Json) | RowId(id: nat) | CreatedAt(at: Timestamp)

  type Record = map<string, Field>

  const DefaultAuthor: Json := JString("Anonymous")

  /** `f"recipe_{recipe_id}.json"`, where `stamp` is the text of the salted
      hash of the name and the current time. */
  function FileNameFor(stamp: string): (name: string)
    ensures HasJsonSuffix(name)
  {
    var name := "recipe_" + stamp + ".json";
    assert name[|name| - 5..] == ".json";
    name
  }

  /** `recipe_data.get('author', 'Anonymous')`. */
  function AuthorOf(data: Document): Json {
    if "author" in data then data["author"] else DefaultAuthor
  }

  const MinInt64: int := -0x8000_0000_0000_0000
  const MaxInt64: int := 0x7FFF_FFFF_FFFF_FFFF

  /** An integer numeral (`str` of a Python int has exponent 0; that of a
      float has a point or an exponent) whose value SQLite's signed 64-bit
      INTEGER cannot hold. */
  predicate IntegerOutOfRange(n: Decimal) {
    var x: int := if n.negative then -(n.coef as int) else n.coef;
    n.exp == 0 && !(MinInt64 <= x <= MaxInt64)
  }

  /** sqlite3 binds null, booleans, numbers and strings; it refuses lists and
      dicts, and raises OverflowError on an int beyond 64 bits. */
  predicate Bindable(v: Json) {
    !v.JArray? && !v.JObject? && !(v.JNumber? && IntegerOutOfRange(v.n))
  }

  /** Why the insert of (name, author) fails, if it does: a parameter sqlite3
      cannot bind, then the NOT NULL constraint on `name`; `dbFault` stands
      for any failure of the database itself. */
  function InsertError(name: Json, author: Json, dbFault: bool): (r: Option<Error>)
    ensures r.None? <==> Bindable(name) && Bindable(author) && name != JNull && !dbFault
  {
    if !Bindable(name) then Some(UnbindableValue("name"))
    else if !Bindable(author) then Some(UnbindableValue("author"))
    else if name == JNull then Some(NotNullViolated("name"))
    else if dbFault then Some(DatabaseFailed)
    else None
  }

  /** The error `create_recipe` is meant to raise, if any: the one that stops
      it first, in the order the body meets them (the name is read, the file
      written, then the row inserted). */
  function CreateFailure(data: Document, writeFault: bool, dbFault: bool): (r: Option<Error>)
    ensures r.None? <==> "name" in data && !writeFault && InsertError(data["name"], AuthorOf(data), dbFault).None?
    ensures r == Some(KeyError("name")) <==> "name" !in data
    ensures r == Some(WriteFailed) <==> "name" in data && writeFault
  {
    if "name" !in data then Some(KeyError("name"))
    else if writeFault then Some(WriteFailed)
    else InsertError(data["name"], AuthorOf(data), dbFault)
  }

  /** The error `create_recipe` raises as written.  The session is opened only
      after the file is written, so when the name is missing or the write
      fails, the handler's `session.rollback()` (and then the `finally`
      clause's `session.close()`) meets an unbound local and raises
      UnboundLocalError in place of the error that stopped the call. */
  function CreateFailureAsWritten(data: Document, writeFault: bool, dbFault: bool): (r: Option<Error>)
    ensures r.Some? <==> CreateFailure(data, writeFault, dbFault).Some?
    ensures r.Some? && r != CreateFailure(data, writeFault, dbFault) <==> "name" !in data || writeFault
    ensures r.Some? && r != CreateFailure(data, writeFault, dbFault) ==> r == Some(UnboundSession)
  {
    var failure := CreateFailure(data, writeFault, dbFault);
    if failure.Some? && ("name" !in data || writeFault) then Some(UnboundSession) else failure
  }

  /** A payload without a name: the caller is meant to see KeyError('name')
      and sees UnboundLocalError instead. */
  lemma MissingNameMasked()
    ensures CreateFailure(map[], false, false) == Some(KeyError("name"))
    ensures CreateFailureAsWritten(map[], false, false) == Some(UnboundSession)
  {
  }

  ghost predicate IdsIncreasing(rows: seq<RecipeRow>) {
    forall i, j | 0 <= i < j < |rows| :: rows[i].id < rows[j].id
  }

  /** `SELECT ... WHERE id = ?` then `.first()`: the position of the first row
      with the id, if there is one. */
  function FindRow(rows: seq<RecipeRow>, id: int): (r: Option<nat>)
    ensures r.Some? ==> r.value < |rows| && rows[r.value].id == id
    ensures r.Some? ==> forall j | 0 <= j < r.value :: rows[j].id != id
    ensures r.None? <==> forall j | 0 <= j < |rows| :: rows[j].id != id
  {
    if rows == [] then None
    else if rows[0].id == id then Some(0)
    else
      match FindRow(rows[1..], id)
      case None => None
      case Some(k) => Some(k + 1)
  }

  /** `recipe_details.update({'id': ..., 'created_at': ...})`: the document
      with the two row columns written over whatever it held under those keys. */
  function Merge(doc: Document, id: nat, at: Timestamp): (r: Record)
    ensures r.Keys == doc.Keys + {"id", "created_at"}
    ensures r["id"] == RowId(id) && r["created_at"] == CreatedAt(at)
    ensures forall k | k in doc && k != "id" && k != "created_at" :: r[k] == Stored(doc[k])
  {
    (map k | k in doc :: Stored(doc[k]))["id" := RowId(id)]["created_at" := CreatedAt(at)]
  }

  /** What `get_recipe(id)` returns or raises for a given directory and table. */
  function Retrieve(files: map<string, FileContent>, rows: seq<RecipeRow>, id: int): (r: Result<Option<Record>, Error>)
    ensures r == Ok(None) <==> forall j | 0 <= j < |rows| :: rows[j].id != id
    ensures r.Ok? && r.value.Some? ==> id >= 0 && "id" in r.value.value && r.value.value["id"] == RowId(id as nat)
    ensures r.Err? ==> exists j | 0 <= j < |rows| :: rows[j].id == id
                          && (r.error == FileNotFound(rows[j].filePath) || r.error == UnreadableDocument
                              || r.error == NoUpdate)
  {
    match FindRow(rows, id)
    case None => Ok(None)
    case Some(i) =>
      var row := rows[i];
      if row.filePath !in files then Err(FileNotFound(row.filePath))
      else
        match files[row.filePath]
        case Unreadable => Err(UnreadableDocument)
        case JsonFile(JObject(doc)) => Ok(Some(Merge(doc, row.id, row.createdAt)))
        case JsonFile(_) => Err(NoUpdate)
  }

  // ---------------------------------------------------------------------
  // Properties of the specification

  /** For an existing row, the result is decided by its file: missing,
      unreadable, an object (merged with the row's columns), or another
      JSON value, which has no `update`. */
  lemma RetrieveExistingRow(files: map<string, FileContent>, rows: seq<RecipeRow>, i: nat)
    requires IdsIncreasing(rows) && i < |rows|
    ensures var p := rows[i].filePath;
            var r := Retrieve(files, rows, rows[i].id);
            && (p !in files ==> r == Err(FileNotFound(p)))
            && (p in files && files[p].Unreadable? ==> r == Err(UnreadableDocument))
            && (p in files && files[p].JsonFile? && files[p].value.JObject? ==>
                  r == Ok(Some(Merge(files[p].value.members, rows[i].id, rows[i].createdAt))))
            && (p in files && files[p].JsonFile? && !files[p].value.JObject? ==> r == Err(NoUpdate))
  {
    assert FindRow(rows, rows[i].id) == Some(i);
  }

  /** An id without a row gives None whatever the directory holds: no file is read. */
  lemma MissingReadsNoFile(files1: map<string, FileContent>, files2: map<string, FileContent>,
                           rows: seq<RecipeRow>, id: int)
    requires forall j | 0 <= j < |rows| :: rows[j].id != id
    ensures Retrieve(files1, rows, id) == Retrieve(files2, rows, id) == Ok(None)
  {
  }

  /** A row appended under a fresh id is found at the end, and for any other
      id the search finds what it found before. */
  lemma FindAfterAppend(rows: seq<RecipeRow>, row: RecipeRow, id: int)
    requires forall j | 0 <= j < |rows| :: rows[j].id < row.id
    ensures id == row.id ==> FindRow(rows + [row], id) == Some(|rows|)
    ensures id != row.id ==> FindRow(rows + [row], id) == FindRow(rows, id)
  {
    var all := rows + [row];
    assert all[|rows|] == row;
    assert forall j | 0 <= j < |rows| :: all[j] == rows[j];
    match FindRow(all, id)
    case None =>
    case Some(k) =>
      if id != row.id {
        assert k < |rows|;
      }
  }

  /** Creating then getting: the document comes back with `id` and
      `created_at` merged in. */
  lemma CreateThenRetrieve(files: map<string, FileContent>, rows: seq<RecipeRow>,
                           data: Document, path: string, row: RecipeRow)
    requires forall j | 0 <= j < |rows| :: rows[j].id < row.id
    requires row.filePath == path
    ensures Retrieve(files[path := JsonFile(JObject(data))], rows + [row], row.id)
            == Ok(Some(Merge(data, row.id, row.createdAt)))
  {
    FindAfterAppend(rows, row, row.id);
  }

  /** Creating a recipe under a file name no existing row points to leaves
      what every other id retrieves unchanged. */
  lemma CreateLeavesOthers(files: map<string, FileContent>, rows: seq<RecipeRow>,
                           data: Document, path: string, row: RecipeRow, id: int)
    requires forall j | 0 <= j < |rows| :: rows[j].id < row.id && rows[j].filePath != path
    requires id != row.id
    ensures Retrieve(files[path := JsonFile(JObject(data))], rows + [row], id) == Retrieve(files, rows, id)
  {
    FindAfterAppend(rows, row, id);
  }

  /** The file name comes from a hash, and nothing stops it from naming an
      existing recipe's file: that recipe then retrieves the new document. */
  lemma CollisionReplacesDocument(files: map<string, FileContent>, rows: seq<RecipeRow>,
                                  data: Document, row: RecipeRow, i: nat)
    requires IdsIncreasing(rows)
    requires forall j | 0 <= j < |rows| :: rows[j].id < row.id
    requires i < |rows| && rows[i].filePath == row.filePath
    ensures Retrieve(files[row.filePath := JsonFile(JObject(data))], rows + [row], rows[i].id)
            == Ok(Some(Merge(data, rows[i].id, rows[i].createdAt)))
  {
    FindAfterAppend(rows, row, rows[i].id);
    assert FindRow(rows, rows[i].id) == Some(i);
  }

  /** The table SQLite keeps: ids increase in scan order and stay below the
      id the next insert gets, which is the one SQLite derives from the table,
      and no name is NULL. */
  ghost predicate StoreInvariant(rows: seq<RecipeRow>, nextId: nat) {
    && IdsIncreasing(rows)
    && nextId == NextId(rows)
    && (forall i | 0 <= i < |rows| :: rows[i].id < nextId)
    && (forall i | 0 <= i < |rows| :: rows[i].name != JNull)
  }

  /** The id SQLite gives the next row of an INTEGER PRIMARY KEY table: one
      more than the largest id, or 1 for an empty table. */
  function NextId(rows: seq<RecipeRow>): (n: nat)
    ensures n >= 1
    ensures IdsIncreasing(rows) ==> forall i | 0 <= i < |rows| :: rows[i].id < n
    ensures rows != [] ==> exists i | 0 <= i < |rows| :: rows[i].id + 1 == n
  {
    if rows == [] then 1 else rows[|rows| - 1].id + 1
  }

  /** Appending a named row under `nextId` keeps the invariant and moves
      `nextId` on by one. */
  lemma AppendKeepsInvariant(rows: seq<RecipeRow>, nextId: nat, row: RecipeRow)
    requires StoreInvariant(rows, nextId)
    requires row.id == nextId && row.name != JNull
    ensures StoreInvariant(rows + [row], nextId + 1)
  {
    var all := rows + [row];
    assert forall j | 0 <= j < |rows| :: all[j] == rows[j];
    assert all[|rows|] == row;
    assert NextId(all) == row.id + 1;
  }

  // ---------------------------------------------------------------------
  // The store

  class CoffeeDB {
    /** The recipes directory: file name to content. */
    var files: map<string, FileContent>
    /** The `recipes` table in insertion order. */
    var rows: seq<RecipeRow>
    /** The id SQLite gives the next inserted row. */
    var nextId: nat

    ghost predicate Valid()
      reads this
    {
      StoreInvariant(rows, nextId)
    }

    /** `CoffeeDB()` over a directory holding `existing` and a `recipes` table
        holding `table` (`create_all` keeps an existing table and its rows). */
    constructor (existing: map<string, FileContent>, table: seq<RecipeRow>)
      requires IdsIncreasing(table)
      requires forall i | 0 <= i < |table| :: table[i].name != JNull
      ensures Valid()
      ensures files == existing && rows == table && nextId == NextId(table)
    {
      files := existing;
      rows := table;
      nextId := NextId(table);
    }

    /** `create_recipe(recipe_data)`.  `stamp` is the hash the file name is
        built from, `now` the time the row gets; `writeFault` and `dbFault`
        say whether writing the file, or the insert and commit, fail for a
        reason the data does not explain. */
    method CreateRecipe(data: Document, stamp: string, now: Timestamp, writeFault: bool, dbFault: bool)
      returns (r: Result<nat, Error>)
      requires Valid()
      modifies this
      ensures Valid()
      ensures r.Err? <==> CreateFailure(data, writeFault, dbFault).Some?
      ensures r.Err? ==> r.error == CreateFailure(data, writeFault, dbFault).value
      // A payload without a name raises before anything is written.
      ensures "name" !in data ==>
                r == Err(KeyError("name")) && files == old(files) && rows == old(rows) && nextId == old(nextId)
      ensures "name" in data && writeFault ==>
                r == Err(WriteFailed) && files == old(files) && rows == old(rows) && nextId == old(nextId)
      // Otherwise the file is written first and is kept whatever the insert does.
      ensures "name" in data && !writeFault ==> files == old(files)[FileNameFor(stamp) := JsonFile(JObject(data))]
      ensures "name" in data && !writeFault ==>
                var failure := InsertError(data["name"], AuthorOf(data), dbFault);
                && (failure.Some? ==> r == Err(failure.value) && rows == old(rows) && nextId == old(nextId))
                && (failure.None? ==>
                      && r == Ok(old(nextId))
                      && rows == old(rows) + [RecipeRow(old(nextId), data["name"], AuthorOf(data), now, FileNameFor(stamp))]
                      && nextId == old(nextId) + 1)
      // The new id is above every earlier one.
      ensures r.Ok? ==> forall j | 0 <= j < |old(rows)| :: old(rows)[j].id < r.value
      // Round trip.
      ensures r.Ok? ==> Retrieve(files, rows, r.value) == Ok(Some(Merge(data, r.value, now)))
      // Unless the new file name is one an existing row points to, no other recipe changes.
      ensures r.Ok? && (forall j | 0 <= j < |old(rows)| :: old(rows)[j].filePath != FileNameFor(stamp)) ==>
                forall id | id != r.value :: Retrieve(files, rows, id) == Retrieve(old(files), old(rows), id)
    {
      if "name" !in data {
        return Err(KeyError("name"));
      }
      var path := FileNameFor(stamp);
      if writeFault {
        return Err(WriteFailed);
      }
      files := files[path := JsonFile(JObject(data))];
      var author := AuthorOf(data);
      var failure := InsertError(data["name"], author, dbFault);
      if failure.Some? {
        return Err(failure.value);
      }
      var row := RecipeRow(nextId, data["name"], author, now, path);
      ghost var oldFiles := old(files);
      ghost var oldRows := rows;
      AppendKeepsInvariant(rows, nextId, row);
      rows := rows + [row];
      nextId := nextId + 1;
      r := Ok(row.id);
      CreateThenRetrieve(oldFiles, oldRows, data, path, row);
      if forall j | 0 <= j < |oldRows| :: oldRows[j].filePath != path {
        forall id | id != row.id
          ensures Retrieve(files, rows, id) == Retrieve(oldFiles, oldRows, id)
        {
          CreateLeavesOthers(oldFiles, oldRows, data, path, row, id);
        }
      }
    }

    /** `get_recipe(recipe_id)`: reads the table, then at most the one file. */
    method GetRecipe(id: int) returns (r: Result<Option<Record>, Error>)
      ensures r == Retrieve(files, rows, id)
    {
      var i := 0;
      while i < |rows| && rows[i].id != id
        invariant 0 <= i <= |rows|
        invariant forall j | 0 <= j < i :: rows[j].id != id
      {
        i := i + 1;
      }
      if i == |rows| {
        return Ok(None);
      }
      var row := rows[i];
      if row.filePath !in files {
        return Err(FileNotFound(row.filePath));
      }
      match files[row.filePath]
      case Unreadable =>
        r := Err(UnreadableDocument);
      case JsonFile(JObject(doc)) =>
        r := Ok(Some(Merge(doc, row.id, row.createdAt)));
      case JsonFile(_) =>
        r := Err(NoUpdate);
    }
  }
}
