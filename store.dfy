// The relational store the routes talk to, held in memory: one table per
// entity (users, datasets, questions, dataset_files, submissions, answers),
// the object paths of the `dataset-files` storage bucket, the id allocator
// and the clock that stamps `created_at`, `started_at` and `submitted_at`.
module Store {
  import opened Common

  datatype User = User(id: Id, username: string, email: string, password: string, role: string, created_at: nat)

  datatype Dataset = Dataset(
    id: Id, name: string, description: Option<string>, file_type: string,
    created_by: Id, is_published: bool, created_at: nat)

  datatype Question = Question(
    id: Id, dataset_id: Id, question_text: string, answer_type: string,
    options: Option<seq<string>>, created_at: nat)

  datatype DatasetFile = DatasetFile(
    id: Id, dataset_id: Id, file_name: string, file_path: string, file_url: string,
    file_type: string, file_size: nat, created_at: nat)

  /** The statuses the code writes; no code path writes `failed`. */
  datatype SubmissionStatus = InProgress | Completed

  datatype Submission = Submission(
    id: Id, user_id: Id, dataset_id: Id, status: SubmissionStatus,
    started_at: nat, submitted_at: Option<nat>)

  /** `submission_id` is None for answers saved one at a time and Some for
      answers saved by a batch. */
  datatype Answer = Answer(
    id: Id, user_id: Id, dataset_id: Id, question_id: Id, file_id: Option<Id>,
    answer_value: JsValue, submission_id: Option<Id>, created_at: nat)

  // Row ids as first-class functions, so that every statement about a
  // table's ids names the same function.
  function UserId(u: User): Id { u.id }
  function DatasetId(d: Dataset): Id { d.id }
  function QuestionId(q: Question): Id { q.id }
  function FileId(f: DatasetFile): Id { f.id }
  function SubmissionId(s: Submission): Id { s.id }
  function AnswerId(a: Answer): Id { a.id }

  // The `.eq('id', x)` filter of each table.
  function UserIs(x: Id): User -> bool { (u: User) => u.id == x }
  function DatasetIs(x: Id): Dataset -> bool { (d: Dataset) => d.id == x }
  function QuestionIs(x: Id): Question -> bool { (q: Question) => q.id == x }
  function SubmissionIs(x: Id): Submission -> bool { (s: Submission) => s.id == x }
  function AnswerIs(x: Id): Answer -> bool { (a: Answer) => a.id == x }

  /** Every row's id is below `next` and no two rows share an id. */
  ghost predicate KeyedBelow<T>(s: seq<T>, id: T -> Id, next: Id)
  {
    (forall i :: 0 <= i < |s| ==> id(s[i]) < next)
    && (forall i, j :: 0 <= i < j < |s| ==> id(s[i]) != id(s[j]))
  }

  /** No two users share an email. */
  ghost predicate EmailsUnique(users: seq<User>)
  {
    forall i, j :: 0 <= i < j < |users| ==> users[i].email != users[j].email
  }

  /** The submissions table after the submission `id` is marked completed
      at time `t`. */
  function Complete(subs: seq<Submission>, id: Id, t: nat): (r: seq<Submission>)
    ensures |r| == |subs|
    ensures forall i :: 0 <= i < |subs| ==>
      r[i] == if subs[i].id == id then subs[i].(status := Completed, submitted_at := Some(t)) else subs[i]
  {
    seq(|subs|, i requires 0 <= i < |subs| =>
      if subs[i].id == id then subs[i].(status := Completed, submitted_at := Some(t)) else subs[i])
  }

  /** Completing the newest submission touches no older one. */
  lemma CompleteLast(subs: seq<Submission>, s: Submission, t: nat)
    requires KeyedBelow(subs, SubmissionId, s.id)
    ensures Complete(subs + [s], s.id, t) == subs + [s.(status := Completed, submitted_at := Some(t))]
  {
  }

  class Db {
    var users: seq<User>
    var datasets: seq<Dataset>
    var questions: seq<Question>
    var files: seq<DatasetFile>
    var submissions: seq<Submission>
    var answers: seq<Answer>
    /** Paths of the objects in the `dataset-files` storage bucket. */
    var objects: seq<string>
    var nextId: Id
    var clock: nat

    ghost predicate Valid()
      reads this
    {
      KeyedBelow(users, UserId, nextId)
      && EmailsUnique(users)
      && KeyedBelow(datasets, DatasetId, nextId)
      && KeyedBelow(questions, QuestionId, nextId)
      && KeyedBelow(files, FileId, nextId)
      && KeyedBelow(submissions, SubmissionId, nextId)
      && KeyedBelow(answers, AnswerId, nextId)
    }

    constructor ()
      ensures Valid()
      ensures users == [] && datasets == [] && questions == [] && files == []
      ensures submissions == [] && answers == [] && objects == []
    {
      users, datasets, questions, files := [], [], [], [];
      submissions, answers, objects := [], [], [];
      nextId, clock := 0, 0;
    }

    // Each insert is an `insert([...]).select().single()`: the database
    // assigns the id and the `created_at` default and returns the new row.

    method InsertUser(username: string, email: string, password: string, role: string) returns (u: User)
      requires Valid() && forall x :: x in users ==> x.email != email
      modifies this`users, this`nextId, this`clock
      ensures Valid()
      ensures u == User(old(nextId), username, email, password, role, old(clock))
      ensures users == old(users) + [u] && nextId == old(nextId) + 1 && clock == old(clock) + 1
    {
      u := User(nextId, username, email, password, role, clock);
      KeyedAppend(users, UserId, nextId, u);
      users := users + [u];
      nextId, clock := nextId + 1, clock + 1;
    }

    method InsertDataset(name: string, description: Option<string>, file_type: string, created_by: Id, is_published: bool)
      returns (d: Dataset)
      requires Valid()
      modifies this`datasets, this`nextId, this`clock
      ensures Valid()
      ensures d == Dataset(old(nextId), name, description, file_type, created_by, is_published, old(clock))
      ensures datasets == old(datasets) + [d] && nextId == old(nextId) + 1 && clock == old(clock) + 1
    {
      d := Dataset(nextId, name, description, file_type, created_by, is_published, clock);
      KeyedAppend(datasets, DatasetId, nextId, d);
      datasets := datasets + [d];
      nextId, clock := nextId + 1, clock + 1;
    }

    method InsertQuestion(dataset_id: Id, question_text: string, answer_type: string, options: Option<seq<string>>)
      returns (q: Question)
      requires Valid()
      modifies this`questions, this`nextId, this`clock
      ensures Valid()
      ensures q == Question(old(nextId), dataset_id, question_text, answer_type, options, old(clock))
      ensures questions == old(questions) + [q] && nextId == old(nextId) + 1 && clock == old(clock) + 1
    {
      q := Question(nextId, dataset_id, question_text, answer_type, options, clock);
      KeyedAppend(questions, QuestionId, nextId, q);
      questions := questions + [q];
      nextId, clock := nextId + 1, clock + 1;
    }

    /** A multi-row `insert(rows)`: one statement, so every row gets the same
        `created_at`, the current time; `rows` already carry the ids the store
        hands out and that time. */
    method InsertQuestions(rows: seq<Question>)
      requires Valid()
      requires forall i :: 0 <= i < |rows| ==> rows[i].id == nextId + i && rows[i].created_at == clock
      modifies this`questions, this`nextId, this`clock
      ensures Valid()
      ensures questions == old(questions) + rows && nextId == old(nextId) + |rows| && clock == old(clock) + 1
    {
      KeyedAppendRun(questions, QuestionId, nextId, rows);
      questions := questions + rows;
      nextId, clock := nextId + |rows|, clock + 1;
    }

    method InsertFile(dataset_id: Id, file_name: string, file_path: string, file_url: string, file_type: string, file_size: nat)
      returns (f: DatasetFile)
      requires Valid()
      modifies this`files, this`nextId, this`clock
      ensures Valid()
      ensures f == DatasetFile(old(nextId), dataset_id, file_name, file_path, file_url, file_type, file_size, old(clock))
      ensures files == old(files) + [f] && nextId == old(nextId) + 1 && clock == old(clock) + 1
    {
      f := DatasetFile(nextId, dataset_id, file_name, file_path, file_url, file_type, file_size, clock);
      KeyedAppend(files, FileId, nextId, f);
      files := files + [f];
      nextId, clock := nextId + 1, clock + 1;
    }

    method InsertSubmission(user_id: Id, dataset_id: Id, started_at: nat) returns (s: Submission)
      requires Valid()
      modifies this`submissions, this`nextId
      ensures Valid()
      ensures s == Submission(old(nextId), user_id, dataset_id, InProgress, started_at, None)
      ensures submissions == old(submissions) + [s] && nextId == old(nextId) + 1
    {
      s := Submission(nextId, user_id, dataset_id, InProgress, started_at, None);
      KeyedAppend(submissions, SubmissionId, nextId, s);
      submissions := submissions + [s];
      nextId := nextId + 1;
    }

    method InsertAnswer(user_id: Id, dataset_id: Id, question_id: Id, file_id: Option<Id>,
                        answer_value: JsValue, submission_id: Option<Id>) returns (a: Answer)
      requires Valid()
      modifies this`answers, this`nextId, this`clock
      ensures Valid()
      ensures a == Answer(old(nextId), user_id, dataset_id, question_id, file_id, answer_value, submission_id, old(clock))
      ensures answers == old(answers) + [a] && nextId == old(nextId) + 1 && clock == old(clock) + 1
    {
      a := Answer(nextId, user_id, dataset_id, question_id, file_id, answer_value, submission_id, clock);
      KeyedAppend(answers, AnswerId, nextId, a);
      answers := answers + [a];
      nextId, clock := nextId + 1, clock + 1;
    }

    /** `update({ status: 'completed', submitted_at: now }).eq('id', id)`. */
    method FinishSubmission(id: Id)
      requires Valid()
      modifies this`submissions, this`clock
      ensures Valid()
      ensures submissions == Complete(old(submissions), id, old(clock)) && clock == old(clock) + 1
    {
      var t := Now();
      KeyedSameIds(submissions, Complete(submissions, id, t), SubmissionId, nextId);
      submissions := Complete(submissions, id, t);
    }

    // `delete().eq(...)` on each table: the rows `keep` rejects go.

    method DeleteAnswers(keep: Answer -> bool)
      requires Valid()
      modifies this`answers
      ensures Valid() && answers == Filter(old(answers), keep)
    {
      KeyedFilter(answers, AnswerId, nextId, keep);
      answers := Filter(answers, keep);
    }

    method DeleteQuestions(keep: Question -> bool)
      requires Valid()
      modifies this`questions
      ensures Valid() && questions == Filter(old(questions), keep)
    {
      KeyedFilter(questions, QuestionId, nextId, keep);
      questions := Filter(questions, keep);
    }

    method DeleteFiles(keep: DatasetFile -> bool)
      requires Valid()
      modifies this`files
      ensures Valid() && files == Filter(old(files), keep)
    {
      KeyedFilter(files, FileId, nextId, keep);
      files := Filter(files, keep);
    }

    method DeleteDatasets(keep: Dataset -> bool)
      requires Valid()
      modifies this`datasets
      ensures Valid() && datasets == Filter(old(datasets), keep)
    {
      KeyedFilter(datasets, DatasetId, nextId, keep);
      datasets := Filter(datasets, keep);
    }

    // `update(...)` on a table: every row keeps its id.

    method UpdateAnswers(rows: seq<Answer>)
      requires Valid()
      requires |rows| == |answers| && forall i :: 0 <= i < |rows| ==> rows[i].id == answers[i].id
      modifies this`answers
      ensures Valid() && answers == rows
    {
      KeyedSameIds(answers, rows, AnswerId, nextId);
      answers := rows;
    }

    method UpdateQuestions(rows: seq<Question>)
      requires Valid()
      requires |rows| == |questions| && forall i :: 0 <= i < |rows| ==> rows[i].id == questions[i].id
      modifies this`questions
      ensures Valid() && questions == rows
    {
      KeyedSameIds(questions, rows, QuestionId, nextId);
      questions := rows;
    }

    method UpdateDatasets(rows: seq<Dataset>)
      requires Valid()
      requires |rows| == |datasets| && forall i :: 0 <= i < |rows| ==> rows[i].id == datasets[i].id
      modifies this`datasets
      ensures Valid() && datasets == rows
    {
      KeyedSameIds(datasets, rows, DatasetId, nextId);
      datasets := rows;
    }

    /** The current time (`Date.now()`, `new Date()`); it only advances. */
    method Now() returns (t: nat)
      modifies this`clock
      ensures t == old(clock) && clock == t + 1
    {
      t := clock;
      clock := clock + 1;
    }
  }

  // ---------------------------------------------------------------------------
  // How table writes keep ids unique.

  /** Appending a row with the next id keeps the table keyed below the next id. */
  lemma KeyedAppend<T>(s: seq<T>, id: T -> Id, next: Id, row: T)
    requires KeyedBelow(s, id, next) && id(row) == next
    ensures KeyedBelow(s + [row], id, next + 1)
  {
  }

  /** Appending rows numbered on from the next id, likewise. */
  lemma KeyedAppendRun<T>(s: seq<T>, id: T -> Id, next: Id, rows: seq<T>)
    requires KeyedBelow(s, id, next)
    requires forall i :: 0 <= i < |rows| ==> id(rows[i]) == next + i
    ensures KeyedBelow(s + rows, id, next + |rows|)
  {
  }

  lemma KeyedGrow<T>(s: seq<T>, id: T -> Id, next: Id, next': Id)
    requires KeyedBelow(s, id, next) && next <= next'
    ensures KeyedBelow(s, id, next')
  {
  }

  /** Deleting rows keeps ids unique. */
  lemma {:induction false} KeyedFilter<T(!new)>(s: seq<T>, id: T -> Id, next: Id, p: T -> bool)
    requires KeyedBelow(s, id, next)
    ensures KeyedBelow(Filter(s, p), id, next)
  {
    if s != [] {
      KeyedFilter(s[1..], id, next, p);
      var rest := Filter(s[1..], p);
      forall j | 0 <= j < |rest| ensures id(s[0]) != id(rest[j]) {
        assert rest[j] in s[1..];
      }
    }
  }

  /** Rewriting rows without touching their ids keeps ids unique. */
  lemma KeyedSameIds<T>(s: seq<T>, s': seq<T>, id: T -> Id, next: Id)
    requires KeyedBelow(s, id, next)
    requires |s'| == |s| && forall i :: 0 <= i < |s| ==> id(s'[i]) == id(s[i])
    ensures KeyedBelow(s', id, next)
  {
  }

  /** In a table with unique ids, the row `.single()` finds by id is the one
      at the position holding that id. */
  lemma {:induction false} SingleById<T(!new)>(s: seq<T>, id: T -> Id, next: Id, k: nat, p: T -> bool)
    requires KeyedBelow(s, id, next) && k < |s|
    requires forall r :: p(r) <==> id(r) == id(s[k])
    ensures Single(s, p) == Some(s[k])
    ensures Filter(s, p) == [s[k]]
  {
    if k == 0 {
      FilterNone(s[1..], p);
      assert Filter(s, p) == [s[0]];
    } else {
      KeyedBelow1(s, id, next);
      SingleById(s[1..], id, next, k - 1, p);
      assert s[1..][k - 1] == s[k];
      assert Filter(s, p) == Filter(s[1..], p);
    }
  }

  lemma KeyedBelow1<T>(s: seq<T>, id: T -> Id, next: Id)
    requires KeyedBelow(s, id, next) && s != []
    ensures KeyedBelow(s[1..], id, next)
  {
  }

  /** In a table with unique ids, `.single()` by id finds a row exactly when
      some row has that id, and then finds that row. */
  lemma SingleByIdIff<T(!new)>(s: seq<T>, id: T -> Id, next: Id, x: Id, p: T -> bool)
    requires KeyedBelow(s, id, next)
    requires forall r :: p(r) <==> id(r) == x
    ensures Single(s, p).Some? <==> exists k :: 0 <= k < |s| && id(s[k]) == x
    ensures forall k :: 0 <= k < |s| && id(s[k]) == x ==> Single(s, p) == Some(s[k])
  {
    if k :| 0 <= k < |s| && id(s[k]) == x {
      SingleById(s, id, next, k, p);
      forall k' | 0 <= k' < |s| && id(s[k']) == x ensures Single(s, p) == Some(s[k']) {
        assert k' == k;
      }
    } else {
      FilterNone(s, p);
    }
  }

  /** The same, stated over the rows of the table: `.single()` by id finds
      nothing exactly when no row has the id, and otherwise finds every row
      with the id, which is therefore the only one. */
  lemma SingleByIdIn<T(!new)>(s: seq<T>, id: T -> Id, next: Id, x: Id, p: T -> bool)
    requires KeyedBelow(s, id, next)
    requires forall r :: p(r) <==> id(r) == x
    ensures Single(s, p).None? <==> forall r :: r in s ==> id(r) != x
    ensures forall r :: r in s && id(r) == x ==> Single(s, p) == Some(r)
  {
    SingleByIdIff(s, id, next, x, p);
  }

  /** Deleting by id from a table with unique ids drops exactly one row. */
  lemma RemoveById<T(!new)>(rows: seq<T>, id: T -> Id, next: Id, j: nat, keep: T -> bool)
    requires KeyedBelow(rows, id, next) && j < |rows|
    requires forall r :: keep(r) <==> id(r) != id(rows[j])
    ensures |Filter(rows, keep)| == |rows| - 1
  {
    FilterDropsOne(rows, keep, j);
  }
}
