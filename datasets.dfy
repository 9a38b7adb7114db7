// The datasets routes: listing and detail under the visibility rule, the
// admin-only create, update and delete, file upload and removal, and the
// per-submission grouping of a dataset's answers.
module Datasets {
  import opened Common
  import opened Sorting
  import opened Store
  import opened Access

  // ---------------------------------------------------------------------------
  // GET /datasets and GET /datasets/:id

  /** `.order('created_at', { ascending: false })` on datasets. */
  function DatasetNewestFirst(d: Dataset): Key
  {
    Key(d.created_at, 0)
  }

  /** The `.eq('is_published', true)` a plain user's listing adds. */
  function ReadableBy(role: string): Dataset -> bool
  {
    (d: Dataset) => CanRead(role, d)
  }

  /** `GET /datasets`: newest first; a requester whose role is `user` sees
      only published datasets, every other role sees them all. `readOk` is
      whether the query succeeds. */
  function ListDatasets(db: Db, requester: User, readOk: bool): (r: Reply<seq<Dataset>>)
    reads db
    ensures r.Ok? <==> readOk
    ensures r.Fail? ==> r.status == 500
    ensures r.Ok? ==>
      r.status == 200 && SortedDesc(r.value, DatasetNewestFirst)
      && forall d :: d in r.value <==> d in db.datasets && (requester.role == "user" ==> d.is_published)
  {
    if !readOk then Fail(500)
    else
      var shown := Filter(db.datasets, ReadableBy(requester.role));
      SortKeepsRows(shown, DatasetNewestFirst);
      Ok(200, SortDesc(shown, DatasetNewestFirst))
  }

  /** Any role other than `user` is shown every dataset, each once. */
  lemma ListShowsAllToStaff(db: Db, requester: User)
    requires requester.role != "user"
    ensures multiset(ListDatasets(db, requester, true).value) == multiset(db.datasets)
  {
    FilterAll(db.datasets, ReadableBy(requester.role));
  }

  /** `GET /datasets/:id`: 404 unless exactly one dataset has the id, then
      403 when a plain user asks for an unpublished one. */
  function GetDataset(db: Db, requester: User, id: Id): (r: Reply<Dataset>)
    reads db
    ensures r == Fail(404) <==> Single(db.datasets, DatasetIs(id)).None?
    ensures r == Fail(403) <==>
      Single(db.datasets, DatasetIs(id)).Some?
      && requester.role == "user" && !Single(db.datasets, DatasetIs(id)).value.is_published
    ensures r.Fail? ==> r.status in {403, 404}
    ensures r.Ok? ==>
      r.status == 200 && r.value in db.datasets && r.value.id == id && CanRead(requester.role, r.value)
  {
    var d := Single(db.datasets, DatasetIs(id));
    if d.None? then Fail(404)
    else if requester.role == "user" && !d.value.is_published then Fail(403)
    else Ok(200, d.value)
  }

  /** Detail and listing agree: a dataset can be fetched by id exactly when
      it appears in the requester's listing. */
  lemma GetAgreesWithList(db: Db, requester: User, id: Id)
    requires db.Valid()
    ensures GetDataset(db, requester, id).Ok? <==>
      exists d :: d in ListDatasets(db, requester, true).value && d.id == id
  {
    SingleByIdIff(db.datasets, DatasetId, db.nextId, id, DatasetIs(id));
    var listed := ListDatasets(db, requester, true).value;
    if GetDataset(db, requester, id).Ok? {
      assert GetDataset(db, requester, id).value in listed;
    }
    if d :| d in listed && d.id == id {
      var k :| 0 <= k < |db.datasets| && db.datasets[k] == d;
      assert DatasetId(db.datasets[k]) == id;
    }
  }

  // ---------------------------------------------------------------------------
  // POST /datasets

  /** One element of the body's `questions`: `text`, `answerType` and
      `options`, with a falsy `options` read as None. */
  datatype QuestionInput = QuestionInput(text: string, answerType: string, options: Option<seq<string>>)

  /** The body of `POST /datasets`. An empty `name` or `file_type` stands for
      any falsy value; an absent `questions` is the empty list. */
  datatype CreateBody = CreateBody(
    name: string, description: Option<string>, file_type: string,
    questions: seq<QuestionInput>, is_published: Field<bool>)

  /** The rows of the `questions.map(...)` insert: `text` becomes
      `question_text`, `answerType` becomes `answer_type`, `options` is kept,
      and every row belongs to the new dataset. */
  function QuestionRows(dataset: Id, qs: seq<QuestionInput>, firstId: Id, now: nat): (rows: seq<Question>)
    ensures |rows| == |qs|
    ensures forall i :: 0 <= i < |qs| ==>
      rows[i].dataset_id == dataset && rows[i].question_text == qs[i].text
      && rows[i].answer_type == qs[i].answerType && rows[i].options == qs[i].options
      && rows[i].id == firstId + i && rows[i].created_at == now
  {
    seq(|qs|, i requires 0 <= i < |qs| =>
      Question(firstId + i, dataset, qs[i].text, qs[i].answerType, qs[i].options, now))
  }

  /** A dataset appended with a fresh id is the one `.single()` finds by it. */
  lemma AppendedIsFound(rows: seq<Dataset>, d: Dataset)
    requires KeyedBelow(rows, DatasetId, d.id)
    ensures Single(rows + [d], DatasetIs(d.id)) == Some(d)
  {
    KeyedAppend(rows, DatasetId, d.id, d);
    SingleById(rows + [d], DatasetId, d.id + 1, |rows|, DatasetIs(d.id));
  }

  /** The initial questions of a new dataset: skipped when there are none,
      otherwise one insert that adds every row or, when it fails, none. */
  method AddQuestions(db: Db, dataset: Id, qs: seq<QuestionInput>, questionsOk: bool)
    requires db.Valid()
    modifies db`questions, db`nextId, db`clock
    ensures db.Valid()
    ensures db.questions == old(db.questions) +
      (if questionsOk then QuestionRows(dataset, qs, old(db.nextId), old(db.clock)) else [])
  {
    if |qs| > 0 && questionsOk {
      db.InsertQuestions(QuestionRows(dataset, qs, db.nextId, db.clock));
    } else if questionsOk {
      assert QuestionRows(dataset, qs, db.nextId, db.clock) == [];
    }
  }

  /** The checks of `POST /datasets` before anything is written: 403 for a
      non-admin, 400 without a name or a file type, 500 when the store
      refuses the dataset row. */
  function CreateCheck(requester: User, body: CreateBody, insertOk: bool): (g: Gate)
    ensures g == Deny(403) <==> requester.role != "admin"
    ensures g == Deny(400) <==> requester.role == "admin" && (body.name == "" || body.file_type == "")
    ensures g == Deny(500) <==>
      requester.role == "admin" && body.name != "" && body.file_type != "" && !insertOk
    ensures g == Next <==>
      requester.role == "admin" && body.name != "" && body.file_type != "" && insertOk
  {
    if AdminGate(requester) != Next then Deny(403)
    else if body.name == "" || body.file_type == "" then Deny(400)
    else if !insertOk then Deny(500)
    else Next
  }

  /** The writes of an accepted `POST /datasets`: the dataset row, then its
      initial questions. */
  method AddDataset(db: Db, requester: User, body: CreateBody, questionsOk: bool) returns (d: Dataset)
    requires db.Valid() && requester.role == "admin"
    modifies db`datasets, db`questions, db`nextId, db`clock
    ensures db.Valid()
    ensures d == Dataset(old(db.nextId), body.name, body.description, body.file_type, requester.id,
                         Written(body.is_published, false), old(db.clock))
    ensures db.datasets == old(db.datasets) + [d]
    ensures GetDataset(db, requester, d.id) == Ok(200, d)
    ensures db.questions == old(db.questions) +
      (if questionsOk then QuestionRows(d.id, body.questions, d.id + 1, old(db.clock) + 1) else [])
  {
    ghost var before := db.datasets;
    d := db.InsertDataset(body.name, body.description, body.file_type, requester.id,
                          Written(body.is_published, false));
    AppendedIsFound(before, d);
    ghost var after := db.datasets;
    AddQuestions(db, d.id, body.questions, questionsOk);
    assert db.datasets == after;
    assert GetDataset(db, requester, d.id) == Ok(200, d) by {
      assert Single(db.datasets, DatasetIs(d.id)) == Some(d);
    }
  }

  /** `POST /datasets` (admin only). `insertOk` and `questionsOk` are the
      store's answers to the dataset insert and to the one multi-row insert
      of the initial questions, whose failure is only logged. */
  method CreateDataset(db: Db, requester: User, body: CreateBody, insertOk: bool, questionsOk: bool)
    returns (r: Reply<Dataset>)
    requires db.Valid()
    modifies db`datasets, db`questions, db`nextId, db`clock
    ensures db.Valid()
    ensures CreateCheck(requester, body, insertOk) != Next ==>
      r == Fail(CreateCheck(requester, body, insertOk).status)
      && db.datasets == old(db.datasets) && db.questions == old(db.questions)
    ensures CreateCheck(requester, body, insertOk) == Next ==>
      var d := Dataset(old(db.nextId), body.name, body.description, body.file_type, requester.id,
                       Written(body.is_published, false), old(db.clock));
      r == Ok(201, d)
      && db.datasets == old(db.datasets) + [d]
      && GetDataset(db, requester, d.id) == Ok(200, d)
      && db.questions == old(db.questions) +
           (if questionsOk then QuestionRows(d.id, body.questions, d.id + 1, old(db.clock) + 1) else [])
  {
    var g := CreateCheck(requester, body, insertOk);
    if g.Deny? {
      return Fail(g.status);
    }
    var d := AddDataset(db, requester, body, questionsOk);
    r := Ok(201, d);
  }

  // ---------------------------------------------------------------------------
  // PUT /datasets/:id

  /** The `updateData` object: a field is written only when it is not
      `undefined` in the body. */
  datatype DatasetPatch = DatasetPatch(
    name: Field<string>, description: Field<Option<string>>, file_type: Field<string>, is_published: Field<bool>)

  /** A dataset row after `update(updateData)`: each Given field takes its
      new value, every other column keeps the old one. */
  function Patched(d: Dataset, p: DatasetPatch): (r: Dataset)
    ensures r.id == d.id && r.created_by == d.created_by && r.created_at == d.created_at
    ensures p.name.Missing? ==> r.name == d.name
    ensures p.description.Missing? ==> r.description == d.description
    ensures p.file_type.Missing? ==> r.file_type == d.file_type
    ensures p.is_published.Missing? ==> r.is_published == d.is_published
  {
    d.(name := Written(p.name, d.name), description := Written(p.description, d.description),
       file_type := Written(p.file_type, d.file_type), is_published := Written(p.is_published, d.is_published))
  }

  /** The datasets table after `update(p).eq('id', id)`. */
  function PatchAt(rows: seq<Dataset>, id: Id, p: DatasetPatch): (r: seq<Dataset>)
    ensures |r| == |rows|
    ensures forall i :: 0 <= i < |rows| ==> r[i] == if rows[i].id == id then Patched(rows[i], p) else rows[i]
  {
    seq(|rows|, i requires 0 <= i < |rows| => if rows[i].id == id then Patched(rows[i], p) else rows[i])
  }

  /** Whether the patch writes any column. An empty `updateData` makes the
      store return no row, which `.single()` reports as an error. */
  predicate DatasetPatchWrites(p: DatasetPatch)
  {
    p.name.Given? || p.description.Given? || p.file_type.Given? || p.is_published.Given?
  }

  /** `PUT /datasets/:id` (admin only). The update's `.single()` fails, and
      the reply is 500, when no dataset has the id, the body sets no field,
      or the write fails. */
  method UpdateDataset(db: Db, requester: User, id: Id, p: DatasetPatch, writeOk: bool) returns (r: Reply<Dataset>)
    requires db.Valid()
    modifies db`datasets
    ensures db.Valid()
    ensures r == Fail(403) <==> requester.role != "admin"
    ensures r == Fail(500) <==>
      requester.role == "admin"
      && (!writeOk || !DatasetPatchWrites(p) || Single(old(db.datasets), DatasetIs(id)).None?)
    ensures r.Ok? <==>
      requester.role == "admin" && writeOk && DatasetPatchWrites(p)
      && Single(old(db.datasets), DatasetIs(id)).Some?
    ensures r.Fail? ==> r.status in {403, 500} && db.datasets == old(db.datasets)
    ensures r.Ok? ==>
      r.status == 200
      && r.value == Patched(Single(old(db.datasets), DatasetIs(id)).value, p)
      && db.datasets == PatchAt(old(db.datasets), id, p)
      && r.value in db.datasets
  {
    if AdminGate(requester) != Next {
      return Fail(403);
    }
    var row := Single(db.datasets, DatasetIs(id));
    if row.None? || !DatasetPatchWrites(p) || !writeOk {
      return Fail(500);
    }
    var k :| 0 <= k < |db.datasets| && db.datasets[k] == row.value;
    db.UpdateDatasets(PatchAt(db.datasets, id, p));
    assert db.datasets[k] == Patched(row.value, p);
    r := Ok(200, Patched(row.value, p));
  }

  // ---------------------------------------------------------------------------
  // DELETE /datasets/:id

  function AnswerOutside(dataset: Id): Answer -> bool { (a: Answer) => a.dataset_id != dataset }
  function QuestionOutside(dataset: Id): Question -> bool { (q: Question) => q.dataset_id != dataset }
  function FileOutside(dataset: Id): DatasetFile -> bool { (f: DatasetFile) => f.dataset_id != dataset }
  function DatasetOther(id: Id): Dataset -> bool { (d: Dataset) => d.id != id }

  /** The three deletes `DELETE /datasets/:id` makes before removing the
      dataset row; each takes effect exactly when the store accepts it. */
  method DeleteRowsOf(db: Db, id: Id, answersOk: bool, questionsOk: bool, filesOk: bool)
    requires db.Valid()
    modifies db`answers, db`questions, db`files
    ensures db.Valid()
    ensures db.answers == (if answersOk then Filter(old(db.answers), AnswerOutside(id)) else old(db.answers))
    ensures db.questions == (if questionsOk then Filter(old(db.questions), QuestionOutside(id)) else old(db.questions))
    ensures db.files == (if filesOk then Filter(old(db.files), FileOutside(id)) else old(db.files))
  {
    if answersOk {
      db.DeleteAnswers(AnswerOutside(id));
    }
    if questionsOk {
      db.DeleteQuestions(QuestionOutside(id));
    }
    if filesOk {
      db.DeleteFiles(FileOutside(id));
    }
  }

  /** `DELETE /datasets/:id` (admin only): the dataset's answers, questions
      and files are deleted first, each delete's error ignored, then the
      dataset row; only a failure of that last delete gives 500, after the
      earlier deletes have taken effect. Submissions and stored objects are
      not touched. */
  method DeleteDataset(db: Db, requester: User, id: Id,
                       answersOk: bool, questionsOk: bool, filesOk: bool, deleteOk: bool) returns (r: Reply<()>)
    requires db.Valid()
    modifies db`answers, db`questions, db`files, db`datasets
    ensures db.Valid()
    ensures r == Fail(403) <==> requester.role != "admin"
    ensures r == Fail(403) ==>
      db.answers == old(db.answers) && db.questions == old(db.questions)
      && db.files == old(db.files) && db.datasets == old(db.datasets)
    ensures requester.role == "admin" ==>
      (r.Ok? <==> deleteOk) && (r.Fail? ==> r.status == 500)
      && db.answers == (if answersOk then Filter(old(db.answers), AnswerOutside(id)) else old(db.answers))
      && db.questions == (if questionsOk then Filter(old(db.questions), QuestionOutside(id)) else old(db.questions))
      && db.files == (if filesOk then Filter(old(db.files), FileOutside(id)) else old(db.files))
      && db.datasets == (if deleteOk then Filter(old(db.datasets), DatasetOther(id)) else old(db.datasets))
    // when every delete goes through, no row of the dataset is left
    ensures requester.role == "admin" && answersOk && questionsOk && filesOk && deleteOk ==>
      (forall a :: a in db.answers ==> a.dataset_id != id)
      && (forall q :: q in db.questions ==> q.dataset_id != id)
      && (forall f :: f in db.files ==> f.dataset_id != id)
      && (forall d :: d in db.datasets ==> d.id != id)
  {
    if AdminGate(requester) != Next {
      return Fail(403);
    }
    DeleteRowsOf(db, id, answersOk, questionsOk, filesOk);
    if !deleteOk {
      return Fail(500);
    }
    db.DeleteDatasets(DatasetOther(id));
    r := Ok(200, ());
  }

  // ---------------------------------------------------------------------------
  // POST /datasets/:id/files

  /** A file multer parsed from the request. */
  datatype Upload = Upload(originalname: string, mimetype: string, size: nat)

  /** The reply of an upload: the stored file rows and, when there are any,
      the names of the files that failed. */
  datatype UploadReply = UploadReply(files: seq<DatasetFile>, errors: Option<seq<string>>)

  /** The bucket path `datasets/<id>/<ts>-<originalname>`. */
  function ObjectPath(dataset: Id, ts: nat, name: string): string
  {
    "datasets/" + NatDecimal(dataset) + "/" + NatDecimal(ts) + "-" + name
  }

  /** Two uploads at different times never share a path, and the path
      determines the file name: the timestamp's digits end at the first `-`. */
  lemma {:induction false} ObjectPathInjective(dataset: Id, ts1: nat, name1: string, ts2: nat, name2: string)
    requires ObjectPath(dataset, ts1, name1) == ObjectPath(dataset, ts2, name2)
    ensures ts1 == ts2 && name1 == name2
  {
    var prefix := "datasets/" + NatDecimal(dataset) + "/";
    var a, b := NatDecimal(ts1), NatDecimal(ts2);
    var t1, t2 := a + "-" + name1, b + "-" + name2;
    assert ObjectPath(dataset, ts1, name1) == prefix + t1;
    assert ObjectPath(dataset, ts2, name2) == prefix + t2;
    assert t1 == (prefix + t1)[|prefix|..];
    assert t1 == t2;
    assert t2[|a|] == '-' && t1[|b|] == '-';
    assert a == t1[..|a|] && b == t2[..|b|];
    assert name1 == t1[|a| + 1..] && name2 == t2[|b| + 1..];
    NatDecimalRoundTrip(ts1);
    NatDecimalRoundTrip(ts2);
  }

  /** Iteration `i` stores a file row: its upload and its record insert both
      succeed. */
  function Lands(uploadOk: nat -> bool, insertOk: nat -> bool): nat -> bool
  {
    (i: nat) => uploadOk(i) && insertOk(i)
  }

  /** Iteration `i` records an error: its upload or its record insert fails. */
  function Misses(uploadOk: nat -> bool, insertOk: nat -> bool): nat -> bool
  {
    (i: nat) => !(uploadOk(i) && insertOk(i))
  }

  /** The names of the files at the given positions. */
  function NamesAt(files: seq<Upload>, ix: seq<nat>): (r: seq<string>)
    requires forall k :: 0 <= k < |ix| ==> ix[k] < |files|
    ensures |r| == |ix| && forall k :: 0 <= k < |ix| ==> r[k] == files[ix[k]].originalname
  {
    seq(|ix|, k requires 0 <= k < |ix| => files[ix[k]].originalname)
  }

  /** `row` is the record stored for `file` in the dataset: same name, type
      and size, a path under the dataset's folder, and that path's public URL. */
  ghost predicate Records(row: DatasetFile, file: Upload, dataset: Id, publicUrl: string -> string)
  {
    row.dataset_id == dataset && row.file_name == file.originalname
    && row.file_type == file.mimetype && row.file_size == file.size
    && (exists ts :: row.file_path == ObjectPath(dataset, ts, file.originalname))
    && row.file_url == publicUrl(row.file_path)
  }

  /** `rows[k]` is the record of the file at `ix[k]`, for every `k`. */
  ghost predicate RecordsAll(rows: seq<DatasetFile>, files: seq<Upload>, ix: seq<nat>, dataset: Id,
                             publicUrl: string -> string)
  {
    |rows| == |ix|
    && forall k :: 0 <= k < |ix| ==> ix[k] < |files| && Records(rows[k], files[ix[k]], dataset, publicUrl)
  }

  lemma RecordsAllAppend(rows: seq<DatasetFile>, files: seq<Upload>, ix: seq<nat>, dataset: Id,
                         publicUrl: string -> string, row: DatasetFile, i: nat)
    requires RecordsAll(rows, files, ix, dataset, publicUrl)
    requires i < |files| && Records(row, files[i], dataset, publicUrl)
    ensures RecordsAll(rows + [row], files, ix + [i], dataset, publicUrl)
  {
  }

  /** One iteration of the upload loop: the file goes to its path under the
      dataset's folder, and when `uploaded` (the storage's answer, including
      the conflict `upsert: false` reports for an existing path) its record
      is inserted, which takes effect when `inserted`. An object whose record
      insert fails stays in the bucket. */
  method StoreOne(db: Db, dataset: Id, file: Upload, publicUrl: string -> string, uploaded: bool, inserted: bool)
    returns (row: Option<DatasetFile>)
    requires db.Valid()
    modifies db`files, db`objects, db`nextId, db`clock
    ensures db.Valid()
    ensures row.Some? <==> uploaded && inserted
    ensures row.Some? ==>
      Records(row.value, file, dataset, publicUrl) && db.files == old(db.files) + [row.value]
      && row.value.file_path in db.objects
    ensures row.None? ==> db.files == old(db.files)
    ensures row.Some? ==> row.value.file_path == ObjectPath(dataset, old(db.clock), file.originalname)
    // the bucket gains this file's path exactly when the upload succeeds
    ensures db.objects == old(db.objects) +
      (if uploaded then [ObjectPath(dataset, old(db.clock), file.originalname)] else [])
  {
    var ts := db.Now();
    var path := ObjectPath(dataset, ts, file.originalname);
    if !uploaded {
      return None;
    }
    db.objects := db.objects + [path];
    if !inserted {
      return None;
    }
    var f := db.InsertFile(dataset, file.originalname, path, publicUrl(path), file.mimetype, file.size);
    row := Some(f);
  }

  /** `added[k]` is the object uploaded for the file at `ix[k]`: a path
      under the dataset's folder that ends in that file's name. */
  ghost predicate PathsOf(added: seq<string>, files: seq<Upload>, ix: seq<nat>, dataset: Id)
  {
    |added| == |ix|
    && forall k :: 0 <= k < |ix| ==>
      ix[k] < |files| && exists ts :: added[k] == ObjectPath(dataset, ts, files[ix[k]].originalname)
  }

  lemma PathsOfAppend(added: seq<string>, files: seq<Upload>, ix: seq<nat>, dataset: Id, i: nat, ts: nat)
    requires PathsOf(added, files, ix, dataset) && i < |files|
    ensures PathsOf(added + [ObjectPath(dataset, ts, files[i].originalname)], files, ix + [i], dataset)
  {
  }

  lemma NamesAtAppend(files: seq<Upload>, ix: seq<nat>, i: nat)
    requires forall k :: 0 <= k < |ix| ==> ix[k] < |files|
    requires i < |files|
    ensures NamesAt(files, ix + [i]) == NamesAt(files, ix) + [files[i].originalname]
  {
    assert NamesAt(files, ix + [i])[|ix|] == files[i].originalname;
  }

  /** What the upload loop has produced after its first `n` files: the
      records of the files that landed, the names of those that missed, and
      the paths of those that were uploaded. */
  ghost predicate UploadedUpTo(n: nat, files: seq<Upload>, dataset: Id, publicUrl: string -> string,
                               uploadOk: nat -> bool, insertOk: nat -> bool,
                               stored: seq<DatasetFile>, errors: seq<string>, added: seq<string>)
    requires n <= |files|
  {
    RecordsAll(stored, files, Positions(n, Lands(uploadOk, insertOk)), dataset, publicUrl)
    && errors == NamesAt(files, Positions(n, Misses(uploadOk, insertOk)))
    && PathsOf(added, files, Positions(n, uploadOk), dataset)
  }

  /** One pass of the upload loop over file `i`: a stored record is
      appended to `stored`, a failure appends the file's name to `errors`.
      `base` and `objects0` are the records and the objects before the loop. */
  method StoreStep(db: Db, dataset: Id, files: seq<Upload>, publicUrl: string -> string,
                   uploadOk: nat -> bool, insertOk: nat -> bool, i: nat,
                   ghost base: seq<DatasetFile>, ghost objects0: seq<string>,
                   stored: seq<DatasetFile>, errors: seq<string>, ghost added: seq<string>)
    returns (stored': seq<DatasetFile>, errors': seq<string>, ghost added': seq<string>)
    requires i < |files|
    requires db.Valid()
    requires db.files == base + stored && db.objects == objects0 + added
    requires UploadedUpTo(i, files, dataset, publicUrl, uploadOk, insertOk, stored, errors, added)
    modifies db`files, db`objects, db`nextId, db`clock
    ensures db.Valid()
    ensures db.files == base + stored' && db.objects == objects0 + added'
    ensures UploadedUpTo(i + 1, files, dataset, publicUrl, uploadOk, insertOk, stored', errors', added')
  {
    ghost var lx, mx := Positions(i, Lands(uploadOk, insertOk)), Positions(i, Misses(uploadOk, insertOk));
    ghost var px, ts := Positions(i, uploadOk), db.clock;
    var row := StoreOne(db, dataset, files[i], publicUrl, uploadOk(i), insertOk(i));
    if uploadOk(i) {
      assert Positions(i + 1, uploadOk) == px + [i];
      PathsOfAppend(added, files, px, dataset, i, ts);
      added' := added + [ObjectPath(dataset, ts, files[i].originalname)];
    } else {
      assert Positions(i + 1, uploadOk) == px;
      added' := added;
    }
    assert db.objects == objects0 + added';
    assert PathsOf(added', files, Positions(i + 1, uploadOk), dataset);
    stored', errors' := stored, errors;
    if row.Some? {
      assert Positions(i + 1, Misses(uploadOk, insertOk)) == mx;
      assert Positions(i + 1, Lands(uploadOk, insertOk)) == lx + [i];
      RecordsAllAppend(stored, files, lx, dataset, publicUrl, row.value, i);
      assert db.files == base + (stored + [row.value]);
      stored' := stored + [row.value];
    } else {
      assert Positions(i + 1, Misses(uploadOk, insertOk)) == mx + [i];
      assert Positions(i + 1, Lands(uploadOk, insertOk)) == lx;
      NamesAtAppend(files, mx, i);
      errors' := errors + [files[i].originalname];
    }
  }

  /** The per-file loop of `POST /datasets/:id/files`: a failure of either
      step is recorded by the file's name and the loop goes on.
      `uploadOk(i)` and `insertOk(i)` are the answers for file `i`. */
  method StoreFiles(db: Db, dataset: Id, files: seq<Upload>, publicUrl: string -> string,
                    uploadOk: nat -> bool, insertOk: nat -> bool)
    returns (stored: seq<DatasetFile>, errors: seq<string>)
    requires db.Valid()
    modifies db`files, db`objects, db`nextId, db`clock
    ensures db.Valid()
    ensures db.files == old(db.files) + stored
    ensures RecordsAll(stored, files, Positions(|files|, Lands(uploadOk, insertOk)), dataset, publicUrl)
    ensures errors == NamesAt(files, Positions(|files|, Misses(uploadOk, insertOk)))
    ensures old(db.objects) <= db.objects
    ensures PathsOf(db.objects[|old(db.objects)|..], files, Positions(|files|, uploadOk), dataset)
  {
    stored, errors := [], [];
    ghost var added: seq<string> := [];
    var i := 0;
    while i < |files|
      invariant 0 <= i <= |files|
      invariant db.Valid()
      invariant db.files == old(db.files) + stored && db.objects == old(db.objects) + added
      invariant UploadedUpTo(i, files, dataset, publicUrl, uploadOk, insertOk, stored, errors, added)
    {
      stored, errors, added := StoreStep(db, dataset, files, publicUrl, uploadOk, insertOk, i,
                                         old(db.files), old(db.objects), stored, errors, added);
      i := i + 1;
    }
    assert db.objects[|old(db.objects)|..] == added;
  }

  /** Every file ends up in exactly one of the stored records and the
      errors, so their counts add up to the number of files. */
  lemma UploadPartition(files: seq<Upload>, uploadOk: nat -> bool, insertOk: nat -> bool, i: nat)
    requires i < |files|
    ensures |Positions(|files|, Lands(uploadOk, insertOk))| + |Positions(|files|, Misses(uploadOk, insertOk))| == |files|
    ensures i in Positions(|files|, Lands(uploadOk, insertOk)) <==> uploadOk(i) && insertOk(i)
    ensures i in Positions(|files|, Misses(uploadOk, insertOk)) <==> !(uploadOk(i) && insertOk(i))
  {
    PositionsSplit(|files|, Lands(uploadOk, insertOk), Misses(uploadOk, insertOk));
    PositionsFate(|files|, Lands(uploadOk, insertOk), i);
    PositionsFate(|files|, Misses(uploadOk, insertOk), i);
  }

  /** `POST /datasets/:id/files` (admin only): 400 without files, 404 for an
      unknown dataset, otherwise 200 with the stored records and the failed
      names, the latter omitted when there are none. */
  method UploadFiles(db: Db, requester: User, id: Id, files: seq<Upload>, publicUrl: string -> string,
                     uploadOk: nat -> bool, insertOk: nat -> bool) returns (r: Reply<UploadReply>)
    requires db.Valid()
    modifies db`files, db`objects, db`nextId, db`clock
    ensures db.Valid()
    ensures r == Fail(403) <==> requester.role != "admin"
    ensures r == Fail(400) <==> requester.role == "admin" && files == []
    ensures r == Fail(404) <==>
      requester.role == "admin" && files != [] && Single(old(db.datasets), DatasetIs(id)).None?
    ensures r.Ok? <==>
      requester.role == "admin" && files != [] && Single(old(db.datasets), DatasetIs(id)).Some?
    ensures r.Fail? ==> r.status in {400, 403, 404} && db.files == old(db.files) && db.objects == old(db.objects)
    ensures r.Ok? ==>
      var landed := Positions(|files|, Lands(uploadOk, insertOk));
      var missed := Positions(|files|, Misses(uploadOk, insertOk));
      r.status == 200
      && db.files == old(db.files) + r.value.files
      && RecordsAll(r.value.files, files, landed, id, publicUrl)
      && r.value.errors == (if missed == [] then None else Some(NamesAt(files, missed)))
      && old(db.objects) <= db.objects
      && PathsOf(db.objects[|old(db.objects)|..], files, Positions(|files|, uploadOk), id)
  {
    if AdminGate(requester) != Next {
      return Fail(403);
    }
    if files == [] {
      return Fail(400);
    }
    var dataset := Single(db.datasets, DatasetIs(id));
    if dataset.None? {
      return Fail(404);
    }
    var stored, errors := StoreFiles(db, id, files, publicUrl, uploadOk, insertOk);
    r := Ok(200, UploadReply(stored, if errors == [] then None else Some(errors)));
  }

  // ---------------------------------------------------------------------------
  // DELETE /datasets/:id/files/:fileId

  /** `.eq('id', fileId).eq('dataset_id', id)`. */
  function FileIn(dataset: Id, fileId: Id): DatasetFile -> bool
  {
    (f: DatasetFile) => f.id == fileId && f.dataset_id == dataset
  }

  function FileOther(fileId: Id): DatasetFile -> bool { (f: DatasetFile) => f.id != fileId }
  function PathOther(path: string): string -> bool { (p: string) => p != path }

  /** `DELETE /datasets/:id/files/:fileId` (admin only): 404 unless the file
      belongs to the dataset; the object removal's error is ignored, so the
      record is deleted whenever its own delete succeeds. */
  method DeleteFile(db: Db, requester: User, dataset: Id, fileId: Id, removeOk: bool, deleteOk: bool)
    returns (r: Reply<()>)
    requires db.Valid()
    modifies db`files, db`objects
    ensures db.Valid()
    ensures r == Fail(403) <==> requester.role != "admin"
    ensures r == Fail(404) <==> requester.role == "admin" && Single(old(db.files), FileIn(dataset, fileId)).None?
    ensures r.Ok? <==> requester.role == "admin" && Single(old(db.files), FileIn(dataset, fileId)).Some? && deleteOk
    ensures r.Fail? ==> r.status in {403, 404, 500} && db.files == old(db.files)
    ensures r.Fail? && r.status != 500 ==> db.objects == old(db.objects)
    ensures requester.role == "admin" && Single(old(db.files), FileIn(dataset, fileId)).Some? ==>
      var path := Single(old(db.files), FileIn(dataset, fileId)).value.file_path;
      db.objects == (if removeOk then Filter(old(db.objects), PathOther(path)) else old(db.objects))
    ensures r.Ok? ==>
      r.status == 200 && |db.files| == |old(db.files)| - 1
      && forall f :: f in db.files <==> f in old(db.files) && f.id != fileId
  {
    if AdminGate(requester) != Next {
      return Fail(403);
    }
    var file := Single(db.files, FileIn(dataset, fileId));
    if file.None? {
      return Fail(404);
    }
    if removeOk {
      db.objects := Filter(db.objects, PathOther(file.value.file_path));
    }
    if !deleteOk {
      return Fail(500);
    }
    var j :| 0 <= j < |db.files| && db.files[j] == file.value;
    RemoveById(db.files, FileId, db.nextId, j, FileOther(fileId));
    db.DeleteFiles(FileOther(fileId));
    r := Ok(200, ());
  }


  // ---------------------------------------------------------------------------
  // GET /datasets/:id/answers

  /** `.order('submitted_at', { ascending: false })`: PostgreSQL puts null
      (still in progress) first in a descending order. */
  function SubmittedNewestFirst(s: Submission): Key
  {
    if s.submitted_at.None? then Key(1, 0) else Key(0, s.submitted_at.value)
  }

  /** `.order('created_at', { ascending: false })` on answers. */
  function AnswerNewestFirst(a: Answer): Key
  {
    Key(a.created_at, 0)
  }

  function SubmissionIn(dataset: Id): Submission -> bool { (s: Submission) => s.dataset_id == dataset }
  function AnswerIn(dataset: Id): Answer -> bool { (a: Answer) => a.dataset_id == dataset }
  function InSubmission(sid: Id): Answer -> bool { (a: Answer) => a.submission_id == Some(sid) }

  /** One submission with the answers that name it. */
  datatype Group = Group(submission: Submission, answers: seq<Answer>)

  datatype Aggregate = Aggregate(submissions: seq<Group>, total_submissions: nat, total_answers: nat)

  /** `submissions.map(s => ({ ...s, answers: answers.filter(...) }))`: one
      group per submission, in order, holding exactly the answers whose
      `submission_id` is that submission's id. */
  function Grouped(subs: seq<Submission>, answers: seq<Answer>): (g: seq<Group>)
    ensures |g| == |subs|
    ensures forall i :: 0 <= i < |subs| ==> g[i].submission == subs[i]
    ensures forall i, a :: 0 <= i < |subs| ==>
      (a in g[i].answers <==> a in answers && a.submission_id == Some(subs[i].id))
  {
    seq(|subs|, i requires 0 <= i < |subs| => Group(subs[i], Filter(answers, InSubmission(subs[i].id))))
  }

  /** An answer saved outside a batch (null `submission_id`) is in no group. */
  lemma UnsubmittedInNoGroup(subs: seq<Submission>, answers: seq<Answer>, a: Answer, i: nat)
    requires a.submission_id.None? && i < |subs|
    ensures a !in Grouped(subs, answers)[i].answers
  {
  }

  /** With distinct submission ids, an answer is in at most one group, and
      in the group of its own submission when that submission is listed. */
  lemma {:induction false} AnswerInOneGroup(subs: seq<Submission>, answers: seq<Answer>, a: Answer, i: nat, j: nat)
    requires forall x, y :: 0 <= x < y < |subs| ==> subs[x].id != subs[y].id
    requires i < |subs| && j < |subs|
    requires a in Grouped(subs, answers)[i].answers && a in Grouped(subs, answers)[j].answers
    ensures i == j
  {
    var g := Grouped(subs, answers);
    assert a.submission_id == Some(subs[i].id) && a.submission_id == Some(subs[j].id);
  }

  /** The submissions of the groups, in order. */
  function GroupSubmissions(g: seq<Group>): (s: seq<Submission>)
    ensures |s| == |g| && forall i :: 0 <= i < |g| ==> s[i] == g[i].submission
  {
    seq(|g|, i requires 0 <= i < |g| => g[i].submission)
  }

  lemma SubmissionsOf(submissions: seq<Submission>, id: Id, subs: seq<Submission>)
    requires forall x :: x in subs <==> x in Filter(submissions, SubmissionIn(id))
    ensures forall i :: 0 <= i < |subs| ==> subs[i] in submissions && subs[i].dataset_id == id
  {
    forall i | 0 <= i < |subs| ensures subs[i] in submissions && subs[i].dataset_id == id {
      assert subs[i] in Filter(submissions, SubmissionIn(id));
    }
  }

  /** The body of `GET /datasets/:id/answers`: the dataset's submissions,
      null `submitted_at` first and then newest first, each with its
      answers; the totals count every submission and every answer of the
      dataset, grouped or not. */
  function DatasetAggregate(submissions: seq<Submission>, answers: seq<Answer>, id: Id): (r: Aggregate)
    ensures r.total_submissions == |r.submissions| == Count(submissions, SubmissionIn(id))
    ensures r.total_answers == Count(answers, AnswerIn(id))
    ensures forall i :: 0 <= i < |r.submissions| ==>
      r.submissions[i].submission in submissions && r.submissions[i].submission.dataset_id == id
    // every submission of the dataset is listed, exactly as often as it is stored
    ensures multiset(GroupSubmissions(r.submissions)) == multiset(Filter(submissions, SubmissionIn(id)))
    ensures forall i, j :: 0 <= i < j < |r.submissions| ==>
      AtLeast(SubmittedNewestFirst(r.submissions[i].submission), SubmittedNewestFirst(r.submissions[j].submission))
    ensures forall i, a :: 0 <= i < |r.submissions| ==>
      (a in r.submissions[i].answers <==>
         a in answers && a.dataset_id == id && a.submission_id == Some(r.submissions[i].submission.id))
  {
    var subs := SortDesc(Filter(submissions, SubmissionIn(id)), SubmittedNewestFirst);
    var rows := SortDesc(Filter(answers, AnswerIn(id)), AnswerNewestFirst);
    SortKeepsRows(Filter(submissions, SubmissionIn(id)), SubmittedNewestFirst);
    SortKeepsRows(Filter(answers, AnswerIn(id)), AnswerNewestFirst);
    SubmissionsOf(submissions, id, subs);
    assert GroupSubmissions(Grouped(subs, rows)) == subs;
    Aggregate(Grouped(subs, rows), |subs|, |rows|)
  }

  /** The aggregate lists a submission exactly when it is one of the
      dataset's. */
  lemma AggregateListsEverySubmission(submissions: seq<Submission>, answers: seq<Answer>, id: Id, s: Submission)
    ensures var r := DatasetAggregate(submissions, answers, id);
      (exists i :: 0 <= i < |r.submissions| && r.submissions[i].submission == s)
      <==> s in submissions && s.dataset_id == id
  {
    var r := DatasetAggregate(submissions, answers, id);
    var listed := GroupSubmissions(r.submissions);
    assert s in listed <==> s in multiset(listed);
    assert s in Filter(submissions, SubmissionIn(id)) <==> s in multiset(Filter(submissions, SubmissionIn(id)));
    if s in listed {
      var i :| 0 <= i < |listed| && listed[i] == s;
      assert r.submissions[i].submission == s;
    }
  }

  /** `GET /datasets/:id/answers` (admin only). `subsOk` and `answersOk` are
      whether the two queries succeed. */
  function DatasetAnswers(db: Db, requester: User, id: Id, subsOk: bool, answersOk: bool): (r: Reply<Aggregate>)
    reads db
    ensures r == Fail(403) <==> requester.role != "admin"
    ensures r.Ok? <==> requester.role == "admin" && subsOk && answersOk
    ensures r.Fail? ==> r.status in {403, 500}
    ensures r.Ok? ==> r.status == 200 && r.value == DatasetAggregate(db.submissions, db.answers, id)
  {
    if AdminGate(requester) != Next then Fail(403)
    else if !subsOk then Fail(500)
    else if !answersOk then Fail(500)
    else Ok(200, DatasetAggregate(db.submissions, db.answers, id))
  }
}
