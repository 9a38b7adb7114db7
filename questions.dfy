// The questions routes: the list of a dataset's questions, and the
// admin-only create, update and delete (which takes the question's answers
// with it).
module Questions {
  import opened Common
  import opened Sorting
  import opened Store
  import opened Access

  // ---------------------------------------------------------------------------
  // GET /questions/dataset/:datasetId

  /** `.order('created_at', { ascending: true })`. */
  function OldestFirst(q: Question): Key
  {
    Reversed(Key(q.created_at, 0))
  }

  function QuestionIn(dataset: Id): Question -> bool { (q: Question) => q.dataset_id == dataset }

  /** `GET /questions/dataset/:datasetId`: every question of the dataset,
      oldest first, for any authenticated requester (the dataset's
      visibility is not checked). `readOk` is whether the query succeeds. */
  function ListQuestions(db: Db, dataset: Id, readOk: bool): (r: Reply<seq<Question>>)
    reads db
    ensures r.Ok? <==> readOk
    ensures r.Fail? ==> r.status == 500
    ensures r.Ok? ==>
      r.status == 200
      && (forall i, j :: 0 <= i < j < |r.value| ==> r.value[i].created_at <= r.value[j].created_at)
      && (forall q :: q in r.value <==> q in db.questions && q.dataset_id == dataset)
      && |r.value| == Count(db.questions, QuestionIn(dataset))
  {
    if !readOk then Fail(500)
    else
      var mine := Filter(db.questions, QuestionIn(dataset));
      SortKeepsRows(mine, OldestFirst);
      OldestFirstAscends(SortDesc(mine, OldestFirst));
      Ok(200, SortDesc(mine, OldestFirst))
  }

  /** Descending by the reversed key is ascending by `created_at`. */
  lemma OldestFirstAscends(s: seq<Question>)
    requires SortedDesc(s, OldestFirst)
    ensures forall i, j :: 0 <= i < j < |s| ==> s[i].created_at <= s[j].created_at
  {
    forall i, j | 0 <= i < j < |s| ensures s[i].created_at <= s[j].created_at {
      ReversedFlips(Key(s[i].created_at, 0), Key(s[j].created_at, 0));
    }
  }

  // ---------------------------------------------------------------------------
  // POST /questions

  /** The body of `POST /questions`. An empty `question_text` or
      `answer_type` stands for any falsy value; a falsy `options` is None. */
  datatype QuestionBody = QuestionBody(
    dataset_id: Option<Id>, question_text: string, answer_type: string, options: Option<seq<string>>)

  /** The guard of `POST /questions`: dataset, text and answer type are
      required. */
  predicate QuestionBodyComplete(b: QuestionBody)
  {
    b.dataset_id.Some? && b.question_text != "" && b.answer_type != ""
  }

  /** `POST /questions` (admin only). `insertOk` is the store's answer to the
      insert, which also covers a `dataset_id` naming no dataset. */
  method CreateQuestion(db: Db, requester: User, body: QuestionBody, insertOk: bool) returns (r: Reply<Question>)
    requires db.Valid()
    modifies db`questions, db`nextId, db`clock
    ensures db.Valid()
    ensures r == Fail(403) <==> requester.role != "admin"
    ensures r == Fail(400) <==> requester.role == "admin" && !QuestionBodyComplete(body)
    ensures r == Fail(500) <==> requester.role == "admin" && QuestionBodyComplete(body) && !insertOk
    ensures r.Ok? <==> requester.role == "admin" && QuestionBodyComplete(body) && insertOk
    ensures r.Fail? ==> r.status in {400, 403, 500} && db.questions == old(db.questions)
    ensures r.Ok? ==>
      var q := Question(old(db.nextId), body.dataset_id.value, body.question_text, body.answer_type,
                        body.options, old(db.clock));
      r == Ok(201, q) && db.questions == old(db.questions) + [q]
      && q in ListQuestions(db, q.dataset_id, true).value
  {
    if AdminGate(requester) != Next {
      return Fail(403);
    }
    if !QuestionBodyComplete(body) {
      return Fail(400);
    }
    if !insertOk {
      return Fail(500);
    }
    var q := db.InsertQuestion(body.dataset_id.value, body.question_text, body.answer_type, body.options);
    r := Ok(201, q);
  }

  // ---------------------------------------------------------------------------
  // PUT /questions/:id

  /** The `updateData` object: a field is written only when it is not
      `undefined`; a Given `options` may be None (`null`). */
  datatype QuestionPatch = QuestionPatch(
    question_text: Field<string>, answer_type: Field<string>, options: Field<Option<seq<string>>>)

  /** A question row after `update(updateData)`: each Given field takes its
      new value; the id, the dataset and the creation time never change. */
  function PatchedQuestion(q: Question, p: QuestionPatch): (r: Question)
    ensures r.id == q.id && r.dataset_id == q.dataset_id && r.created_at == q.created_at
    ensures p.question_text.Missing? ==> r.question_text == q.question_text
    ensures p.answer_type.Missing? ==> r.answer_type == q.answer_type
    ensures p.options.Missing? ==> r.options == q.options
  {
    q.(question_text := Written(p.question_text, q.question_text),
       answer_type := Written(p.answer_type, q.answer_type),
       options := Written(p.options, q.options))
  }

  /** The questions table after `update(p).eq('id', id)`. */
  function PatchQuestionAt(rows: seq<Question>, id: Id, p: QuestionPatch): (r: seq<Question>)
    ensures |r| == |rows|
    ensures forall i :: 0 <= i < |rows| ==>
      r[i] == if rows[i].id == id then PatchedQuestion(rows[i], p) else rows[i]
  {
    seq(|rows|, i requires 0 <= i < |rows| => if rows[i].id == id then PatchedQuestion(rows[i], p) else rows[i])
  }

  /** Whether the patch writes any column. An empty `updateData` makes the
      store return no row, which `.single()` reports as an error. */
  predicate QuestionPatchWrites(p: QuestionPatch)
  {
    p.question_text.Given? || p.answer_type.Given? || p.options.Given?
  }

  /** `PUT /questions/:id` (admin only): 500 when no question has the id, the
      body sets no field, or the write fails. */
  method UpdateQuestion(db: Db, requester: User, id: Id, p: QuestionPatch, writeOk: bool) returns (r: Reply<Question>)
    requires db.Valid()
    modifies db`questions
    ensures db.Valid()
    ensures r == Fail(403) <==> requester.role != "admin"
    ensures r == Fail(500) <==>
      requester.role == "admin"
      && (!writeOk || !QuestionPatchWrites(p) || Single(old(db.questions), QuestionIs(id)).None?)
    ensures r.Ok? <==>
      requester.role == "admin" && writeOk && QuestionPatchWrites(p)
      && Single(old(db.questions), QuestionIs(id)).Some?
    ensures r.Fail? ==> r.status in {403, 500} && db.questions == old(db.questions)
    ensures r.Ok? ==>
      r.status == 200
      && r.value == PatchedQuestion(Single(old(db.questions), QuestionIs(id)).value, p)
      && db.questions == PatchQuestionAt(old(db.questions), id, p)
      && r.value in db.questions
  {
    if AdminGate(requester) != Next {
      return Fail(403);
    }
    var row := Single(db.questions, QuestionIs(id));
    if row.None? || !QuestionPatchWrites(p) || !writeOk {
      return Fail(500);
    }
    var k :| 0 <= k < |db.questions| && db.questions[k] == row.value;
    db.UpdateQuestions(PatchQuestionAt(db.questions, id, p));
    assert db.questions[k] == PatchedQuestion(row.value, p);
    r := Ok(200, PatchedQuestion(row.value, p));
  }

  // ---------------------------------------------------------------------------
  // DELETE /questions/:id

  function AnswerNotFor(question: Id): Answer -> bool { (a: Answer) => a.question_id != question }
  function QuestionOther(id: Id): Question -> bool { (q: Question) => q.id != id }

  /** `DELETE /questions/:id` (admin only): the question's answers are
      deleted first, that delete's error ignored, then the question row; a
      failure of the latter gives 500 after the answers are gone. */
  method DeleteQuestion(db: Db, requester: User, id: Id, answersOk: bool, deleteOk: bool) returns (r: Reply<()>)
    requires db.Valid()
    modifies db`answers, db`questions
    ensures db.Valid()
    ensures r == Fail(403) <==> requester.role != "admin"
    ensures r == Fail(403) ==> db.answers == old(db.answers) && db.questions == old(db.questions)
    ensures requester.role == "admin" ==>
      (r.Ok? <==> deleteOk) && (r.Fail? ==> r.status == 500)
      && db.answers == (if answersOk then Filter(old(db.answers), AnswerNotFor(id)) else old(db.answers))
      && db.questions == (if deleteOk then Filter(old(db.questions), QuestionOther(id)) else old(db.questions))
    ensures r.Ok? && answersOk ==>
      (forall a :: a in db.answers <==> a in old(db.answers) && a.question_id != id)
      && (forall q :: q in db.questions <==> q in old(db.questions) && q.id != id)
  {
    if AdminGate(requester) != Next {
      return Fail(403);
    }
    if answersOk {
      db.DeleteAnswers(AnswerNotFor(id));
    }
    if !deleteOk {
      return Fail(500);
    }
    db.DeleteQuestions(QuestionOther(id));
    r := Ok(200, ());
  }
}
