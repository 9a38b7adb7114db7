// The answers routes: the single-answer upsert, batch ingestion under a new
// submission, the requester's own answers for a dataset, and deletion by the
// owner or an admin.
module Answers {
  import opened Common
  import opened Store
  import opened Access

  // ---------------------------------------------------------------------------
  // POST /answers — save or update one answer.

  /** The body of `POST /answers`; an id field is None when it is falsy. */
  datatype SubmitBody = SubmitBody(
    dataset_id: Option<Id>, file_id: Option<Id>, question_id: Option<Id>, answer_value: JsValue)

  /** The guard of the single-answer path: dataset and question are required,
      and `answer_value` must not be `undefined` (an empty string is accepted). */
  predicate SubmitBodyComplete(b: SubmitBody)
  {
    b.dataset_id.Some? && b.question_id.Some? && b.answer_value != Undefined
  }

  /** The columns the upsert looks an answer up by; `file_id || null` makes a
      missing file the None key. `submission_id` is not among them. */
  datatype AnswerKey = AnswerKey(user_id: Id, dataset_id: Id, question_id: Id, file_id: Option<Id>)

  function KeyOf(a: Answer): AnswerKey
  {
    AnswerKey(a.user_id, a.dataset_id, a.question_id, a.file_id)
  }

  function HasKey(k: AnswerKey): Answer -> bool
  {
    (a: Answer) => KeyOf(a) == k
  }

  /** `update({ answer_value }).eq('id', id)` on the answers table. */
  function SetValue(rows: seq<Answer>, id: Id, v: JsValue): (r: seq<Answer>)
    ensures |r| == |rows|
    ensures forall i :: 0 <= i < |rows| ==>
      r[i] == if rows[i].id == id then rows[i].(answer_value := v) else rows[i]
  {
    if rows == [] then []
    else [if rows[0].id == id then rows[0].(answer_value := v) else rows[0]] + SetValue(rows[1..], id, v)
  }

  /** The lookup as the route writes it, `.eq('file_id', file_id || null)`:
      PostgREST compares with SQL `=`, which is never true against NULL, so
      a key without a file matches no row. (`.is('file_id', null)` would.) */
  function LookupKey(k: AnswerKey): Answer -> bool
  {
    if k.file_id.Some? then HasKey(k) else (a: Answer) => false
  }

  /** The row a fresh insert under key `k` stores: no submission. */
  function NewAnswer(k: AnswerKey, v: JsValue, newId: Id, now: nat): Answer
  {
    Answer(newId, k.user_id, k.dataset_id, k.question_id, k.file_id, v, None, now)
  }

  /** The answers table after an upsert of `v` under key `k` whose lookup is
      `found`: when exactly one row matches it is updated in place;
      otherwise (none, or several, which `.maybeSingle()` reports as no row)
      a new row is appended. */
  function UpsertBy(rows: seq<Answer>, found: Answer -> bool, k: AnswerKey, v: JsValue, newId: Id, now: nat): seq<Answer>
  {
    var m := Single(rows, found);
    if m.Some? then SetValue(rows, m.value.id, v) else rows + [NewAnswer(k, v, newId, now)]
  }

  /** The upsert `POST /answers` performs, with the lookup as written. */
  function Upserted(rows: seq<Answer>, k: AnswerKey, v: JsValue, newId: Id, now: nat): seq<Answer>
  {
    UpsertBy(rows, LookupKey(k), k, v, newId, now)
  }

  /** The upsert the route evidently intends: a missing file is looked up
      as a NULL `file_id` (`.is('file_id', null)`), so every key is found. */
  function UpsertedIntended(rows: seq<Answer>, k: AnswerKey, v: JsValue, newId: Id, now: nat): seq<Answer>
  {
    UpsertBy(rows, HasKey(k), k, v, newId, now)
  }

  /** Updating a value never changes a row's key, so it commutes with
      selecting the rows of a key. */
  lemma {:induction false} FilterSetValue(rows: seq<Answer>, id: Id, v: JsValue, k: AnswerKey)
    ensures Filter(SetValue(rows, id, v), HasKey(k)) == SetValue(Filter(rows, HasKey(k)), id, v)
  {
    if rows != [] {
      FilterSetValue(rows[1..], id, v, k);
      assert SetValue(rows, id, v)[1..] == SetValue(rows[1..], id, v);
    }
  }

  /** When the body names a file and one row has the key, the upsert changes
      only that row's `answer_value`; every other row, and the length, stay
      the same. */
  lemma UpsertUpdatesInPlace(rows: seq<Answer>, k: AnswerKey, v: JsValue, newId: Id, now: nat, j: nat)
    requires KeyedBelow(rows, AnswerId, newId)
    requires k.file_id.Some?
    requires j < |rows| && KeyOf(rows[j]) == k && Count(rows, HasKey(k)) == 1
    ensures Upserted(rows, k, v, newId, now) == rows[j := rows[j].(answer_value := v)]
  {
    var m := Single(rows, HasKey(k));
    assert m == Some(rows[j]) by {
      assert rows[j] in Filter(rows, HasKey(k));
    }
  }

  /** Without a file, or when the key does not name exactly one row, the
      upsert appends one row carrying the key, the value and no submission. */
  lemma UpsertAppends(rows: seq<Answer>, k: AnswerKey, v: JsValue, newId: Id, now: nat)
    requires k.file_id.None? || Count(rows, HasKey(k)) != 1
    ensures Upserted(rows, k, v, newId, now) == rows + [NewAnswer(k, v, newId, now)]
  {
    if k.file_id.None? {
      FilterNone(rows, LookupKey(k));
    }
  }

  /** From a table with at most one row for the key, the intended upsert
      leaves exactly one row for it, holding the submitted value. */
  lemma IntendedLeavesOneRow(rows: seq<Answer>, k: AnswerKey, v: JsValue, newId: Id, now: nat)
    requires Count(rows, HasKey(k)) <= 1
    ensures var r := UpsertedIntended(rows, k, v, newId, now);
      Count(r, HasKey(k)) == 1 && Single(r, HasKey(k)).value.answer_value == v
  {
    var m := Single(rows, HasKey(k));
    if m.Some? {
      FilterSetValue(rows, m.value.id, v, k);
      assert Filter(rows, HasKey(k)) == [m.value];
    } else {
      var row := NewAnswer(k, v, newId, now);
      FilterAppend(rows, [row], HasKey(k));
      assert Filter([row], HasKey(k)) == [row];
    }
  }

  /** Submitting the same key twice through the intended lookup leaves one
      row for the key, holding the later value, with or without a file. */
  lemma IntendedTwiceKeepsLatest(rows: seq<Answer>, k: AnswerKey, v1: JsValue, v2: JsValue,
                                 id1: Id, id2: Id, t1: nat, t2: nat)
    requires Count(rows, HasKey(k)) <= 1
    ensures var r := UpsertedIntended(UpsertedIntended(rows, k, v1, id1, t1), k, v2, id2, t2);
      Count(r, HasKey(k)) == 1 && Single(r, HasKey(k)).value.answer_value == v2
  {
    IntendedLeavesOneRow(rows, k, v1, id1, t1);
    IntendedLeavesOneRow(UpsertedIntended(rows, k, v1, id1, t1), k, v2, id2, t2);
  }

  /** With a file named, the upsert as written is the intended one, so from
      at most one row for the key it leaves exactly one, holding the value. */
  lemma UpsertLeavesOneRow(rows: seq<Answer>, k: AnswerKey, v: JsValue, newId: Id, now: nat)
    requires k.file_id.Some? && Count(rows, HasKey(k)) <= 1
    ensures var r := Upserted(rows, k, v, newId, now);
      Count(r, HasKey(k)) == 1 && Single(r, HasKey(k)).value.answer_value == v
  {
    assert Upserted(rows, k, v, newId, now) == UpsertedIntended(rows, k, v, newId, now);
    IntendedLeavesOneRow(rows, k, v, newId, now);
  }

  /** With a file named, submitting the same key twice leaves one row for
      the key, holding the later value. */
  lemma UpsertTwiceKeepsLatest(rows: seq<Answer>, k: AnswerKey, v1: JsValue, v2: JsValue,
                               id1: Id, id2: Id, t1: nat, t2: nat)
    requires k.file_id.Some? && Count(rows, HasKey(k)) <= 1
    ensures var r := Upserted(Upserted(rows, k, v1, id1, t1), k, v2, id2, t2);
      Count(r, HasKey(k)) == 1 && Single(r, HasKey(k)).value.answer_value == v2
  {
    UpsertLeavesOneRow(rows, k, v1, id1, t1);
    UpsertLeavesOneRow(Upserted(rows, k, v1, id1, t1), k, v2, id2, t2);
  }

  /** Without a file the lookup as written never finds the earlier answer:
      submitting the same key twice appends two rows, both left in the table. */
  lemma {:induction false} UpsertWithoutFileDuplicates(rows: seq<Answer>, k: AnswerKey, v1: JsValue, v2: JsValue,
                                                       id1: Id, id2: Id, t1: nat, t2: nat)
    requires k.file_id.None?
    ensures Upserted(Upserted(rows, k, v1, id1, t1), k, v2, id2, t2)
            == rows + [NewAnswer(k, v1, id1, t1), NewAnswer(k, v2, id2, t2)]
    ensures Count(Upserted(Upserted(rows, k, v1, id1, t1), k, v2, id2, t2), HasKey(k)) == Count(rows, HasKey(k)) + 2
  {
    var a1, a2 := NewAnswer(k, v1, id1, t1), NewAnswer(k, v2, id2, t2);
    UpsertAppends(rows, k, v1, id1, t1);
    UpsertAppends(rows + [a1], k, v2, id2, t2);
    assert rows + [a1] + [a2] == rows + [a1, a2];
    FilterAppend(rows, [a1, a2], HasKey(k));
    FilterAll([a1, a2], HasKey(k));
  }

  /** The checks `POST /answers` makes before writing: 400 for an incomplete
      body, 404 for an unknown dataset (a failed lookup, `datasetOk` false,
      reads as none), 403 when a plain user answers an unpublished dataset. */
  function SubmitCheck(datasets: seq<Dataset>, requester: User, body: SubmitBody, datasetOk: bool): (g: Gate)
    ensures g == Deny(400) <==> !SubmitBodyComplete(body)
    ensures g == Deny(404) <==>
      SubmitBodyComplete(body) && (!datasetOk || Single(datasets, DatasetIs(body.dataset_id.value)).None?)
    ensures g == Next <==>
      SubmitBodyComplete(body) && datasetOk && Single(datasets, DatasetIs(body.dataset_id.value)).Some?
      && CanRead(requester.role, Single(datasets, DatasetIs(body.dataset_id.value)).value)
    ensures g in {Next, Deny(400), Deny(403), Deny(404)}
  {
    if !SubmitBodyComplete(body) then Deny(400)
    else
      var dataset := if datasetOk then Single(datasets, DatasetIs(body.dataset_id.value)) else None;
      if dataset.None? then Deny(404)
      else if requester.role == "user" && !dataset.value.is_published then Deny(403)
      else Next
  }

  /** `POST /answers` for an authenticated requester. `datasetOk` and
      `lookupOk` are whether the dataset lookup and the existing-answer lookup
      succeed (a failed one yields no row); `writeOk` is whether the store
      accepts the update or insert. */
  method SubmitAnswer(db: Db, requester: User, body: SubmitBody, datasetOk: bool, lookupOk: bool, writeOk: bool)
    returns (r: Reply<Answer>)
    requires db.Valid()
    modifies db`answers, db`nextId, db`clock
    ensures db.Valid()
    ensures SubmitCheck(db.datasets, requester, body, datasetOk) != Next ==>
      r == Fail(SubmitCheck(db.datasets, requester, body, datasetOk).status) && db.answers == old(db.answers)
    ensures SubmitCheck(db.datasets, requester, body, datasetOk) == Next && !writeOk ==>
      r == Fail(500) && db.answers == old(db.answers)
    ensures SubmitCheck(db.datasets, requester, body, datasetOk) == Next && writeOk ==>
      var k := AnswerKey(requester.id, body.dataset_id.value, body.question_id.value, body.file_id);
      r.Ok? && r.status == 200
      && db.answers == (if lookupOk then Upserted(old(db.answers), k, body.answer_value, old(db.nextId), old(db.clock))
                        else old(db.answers) + [NewAnswer(k, body.answer_value, old(db.nextId), old(db.clock))])
      && KeyOf(r.value) == k && r.value.answer_value == body.answer_value && r.value in db.answers
    // without a file the lookup never matches, so every accepted submission
    // appends a row
    ensures SubmitCheck(db.datasets, requester, body, datasetOk) == Next && writeOk && body.file_id.None? ==>
      db.answers == old(db.answers) + [r.value]
  {
    var g := SubmitCheck(db.datasets, requester, body, datasetOk);
    if g.Deny? {
      return Fail(g.status);
    }
    var k := AnswerKey(requester.id, body.dataset_id.value, body.question_id.value, body.file_id);
    var existing := if lookupOk then Single(db.answers, LookupKey(k)) else None;
    if !writeOk {
      return Fail(500);
    }
    if existing.Some? {
      assert k.file_id.Some?;
      var j :| 0 <= j < |db.answers| && db.answers[j] == existing.value;
      UpsertUpdatesInPlace(db.answers, k, body.answer_value, db.nextId, db.clock, j);
      db.UpdateAnswers(SetValue(db.answers, existing.value.id, body.answer_value));
      r := Ok(200, db.answers[j]);
    } else {
      if lookupOk {
        UpsertAppends(db.answers, k, body.answer_value, db.nextId, db.clock);
      }
      var row := db.InsertAnswer(k.user_id, k.dataset_id, k.question_id, k.file_id, body.answer_value, None);
      r := Ok(200, row);
    }
  }

  // ---------------------------------------------------------------------------
  // POST /answers/batch — one submission, many answers.

  /** One element of the `answers` array. `Absent` is a null or undefined
      element, on which destructuring throws. */
  datatype BatchItem = Absent | Item(file_id: Option<Id>, question_id: Option<Id>, answer_value: JsValue)

  /** The items the loop passes over with `continue`: no question, or an
      `answer_value` that is `undefined` or the empty string. */
  predicate Skips(it: BatchItem)
    requires it.Item?
  {
    it.question_id.None? || it.answer_value == Undefined || it.answer_value == Str("")
  }

  /** The items the loop tries to insert. */
  predicate Attempts(it: BatchItem)
  {
    it.Item? && !Skips(it)
  }

  /** How far the loop gets: the position of the first null element, or the
      end of the array. */
  function Reach(items: seq<BatchItem>): (n: nat)
    ensures n <= |items|
    ensures forall i :: 0 <= i < n ==> items[i].Item?
    ensures n < |items| ==> items[n].Absent?
  {
    if items == [] || items[0].Absent? then 0 else 1 + Reach(items[1..])
  }

  predicate Increasing(ix: seq<nat>)
  {
    forall a, b :: 0 <= a < b < |ix| ==> ix[a] < ix[b]
  }

  /** Positions, in input order, of the first `n` items whose insert succeeded
      (`ok(i)` is the store's answer to the insert of item `i`). */
  function StoredAt(items: seq<BatchItem>, ok: nat -> bool, n: nat): (ix: seq<nat>)
    requires n <= |items|
    ensures forall k :: 0 <= k < |ix| ==> ix[k] < n
  {
    if n == 0 then []
    else StoredAt(items, ok, n - 1) + (if Attempts(items[n - 1]) && ok(n - 1) then [n - 1] else [])
  }

  /** Positions, in input order, of the first `n` items whose insert failed. */
  function FailedAt(items: seq<BatchItem>, ok: nat -> bool, n: nat): (ix: seq<nat>)
    requires n <= |items|
    ensures forall k :: 0 <= k < |ix| ==> ix[k] < n
  {
    if n == 0 then []
    else FailedAt(items, ok, n - 1) + (if Attempts(items[n - 1]) && !ok(n - 1) then [n - 1] else [])
  }

  /** The stored positions come in input order and are exactly attempted
      items whose insert succeeded; likewise the failed ones. */
  lemma {:induction false} BatchOrder(items: seq<BatchItem>, ok: nat -> bool, n: nat)
    requires n <= |items|
    ensures var ix := StoredAt(items, ok, n);
      Increasing(ix) && forall k :: 0 <= k < |ix| ==> Attempts(items[ix[k]]) && ok(ix[k])
    ensures var fx := FailedAt(items, ok, n);
      Increasing(fx) && forall k :: 0 <= k < |fx| ==> Attempts(items[fx[k]]) && !ok(fx[k])
  {
    if n > 0 {
      BatchOrder(items, ok, n - 1);
    }
  }

  /** Number of the first `n` items the loop skips. */
  function SkippedUpTo(items: seq<BatchItem>, n: nat): nat
    requires n <= |items|
  {
    if n == 0 then 0
    else SkippedUpTo(items, n - 1) + (if Attempts(items[n - 1]) then 0 else 1)
  }

  /** Every item the loop passes lands in exactly one of `results`, `errors`
      or the skipped ones. */
  lemma {:induction false} BatchPartition(items: seq<BatchItem>, ok: nat -> bool, n: nat)
    requires n <= |items|
    ensures |StoredAt(items, ok, n)| + |FailedAt(items, ok, n)| + SkippedUpTo(items, n) == n
  {
    if n > 0 {
      BatchPartition(items, ok, n - 1);
    }
  }

  /** Item `i` is among the results exactly when the loop attempts it and
      the insert succeeds, and among the errors exactly when the loop
      attempts it and the insert fails; an item is never in both. */
  lemma {:induction false} BatchFate(items: seq<BatchItem>, ok: nat -> bool, n: nat, i: nat)
    requires i < n <= |items|
    ensures i in StoredAt(items, ok, n) <==> Attempts(items[i]) && ok(i)
    ensures i in FailedAt(items, ok, n) <==> Attempts(items[i]) && !ok(i)
  {
    if i < n - 1 {
      BatchFate(items, ok, n - 1, i);
    } else {
      assert i !in StoredAt(items, ok, n - 1) && i !in FailedAt(items, ok, n - 1);
    }
  }

  /** When every insert fails, nothing is stored and every attempted item is
      an error. */
  lemma {:induction false} BatchAllFail(items: seq<BatchItem>, ok: nat -> bool, n: nat)
    requires n <= |items|
    requires forall i :: !ok(i)
    ensures StoredAt(items, ok, n) == []
    ensures |FailedAt(items, ok, n)| + SkippedUpTo(items, n) == n
  {
    if n > 0 {
      BatchAllFail(items, ok, n - 1);
      assert !ok(n - 1);
      assert StoredAt(items, ok, n) == StoredAt(items, ok, n - 1) + [];
    }
  }

  /** When every insert succeeds, there are no errors and every item that is
      not skipped is stored. */
  lemma {:induction false} BatchAllSucceed(items: seq<BatchItem>, ok: nat -> bool, n: nat)
    requires n <= |items|
    requires forall i :: ok(i)
    ensures FailedAt(items, ok, n) == []
    ensures |StoredAt(items, ok, n)| == n - SkippedUpTo(items, n)
  {
    if n > 0 {
      BatchAllSucceed(items, ok, n - 1);
      assert ok(n - 1);
      assert FailedAt(items, ok, n) == FailedAt(items, ok, n - 1) + [];
    }
  }

  /** The items at the given positions. */
  function Pick(items: seq<BatchItem>, ix: seq<nat>): (r: seq<BatchItem>)
    requires forall k :: 0 <= k < |ix| ==> ix[k] < |items|
    ensures |r| == |ix| && forall k :: 0 <= k < |ix| ==> r[k] == items[ix[k]]
  {
    seq(|ix|, k requires 0 <= k < |ix| => items[ix[k]])
  }

  lemma PickAppend(items: seq<BatchItem>, ix: seq<nat>, i: nat)
    requires forall k :: 0 <= k < |ix| ==> ix[k] < |items|
    requires i < |items|
    ensures Pick(items, ix + [i]) == Pick(items, ix) + [items[i]]
  {
    assert Pick(items, ix + [i])[|ix|] == items[i];
  }

  /** The row the batch stores for an item: the submission's id, the
      requester, the dataset, and `String(answer_value)`. */
  predicate Carries(row: Answer, it: BatchItem, submission: Id, user: Id, dataset: Id)
  {
    it.Item? && it.question_id.Some?
    && row.submission_id == Some(submission) && row.user_id == user && row.dataset_id == dataset
    && row.question_id == it.question_id.value && row.file_id == it.file_id
    && row.answer_value == Str(ToText(it.answer_value))
  }

  /** `rows[k]` is the row stored for item `ix[k]`, for every `k`. */
  predicate RowsCarry(rows: seq<Answer>, items: seq<BatchItem>, ix: seq<nat>, submission: Id, user: Id, dataset: Id)
  {
    |rows| == |ix|
    && forall k :: 0 <= k < |ix| ==> ix[k] < |items| && Carries(rows[k], items[ix[k]], submission, user, dataset)
  }

  lemma RowsCarryAppend(rows: seq<Answer>, items: seq<BatchItem>, ix: seq<nat>, submission: Id, user: Id, dataset: Id,
                        row: Answer, i: nat)
    requires RowsCarry(rows, items, ix, submission, user, dataset)
    requires i < |items| && Carries(row, items[i], submission, user, dataset)
    ensures RowsCarry(rows + [row], items, ix + [i], submission, user, dataset)
  {
  }

  /** One pass of the batch loop over item `i`, which is not null: an
      attempted item is inserted under the submission when the store accepts
      it and recorded as an error otherwise; a skipped item changes nothing.
      `base`, `id0` and `clock0` are the table, the id counter and the clock
      before the loop. */
  method InsertItem(db: Db, user: Id, dataset: Id, submission: Id, items: seq<BatchItem>, ok: nat -> bool,
                    i: nat, ghost base: seq<Answer>, ghost id0: nat, ghost clock0: nat,
                    results: seq<Answer>, errors: seq<BatchItem>)
    returns (results': seq<Answer>, errors': seq<BatchItem>)
    requires i < |items| && items[i].Item?
    requires db.Valid()
    requires db.nextId == id0 + |results| && db.clock == clock0 + |results| && db.answers == base + results
    requires RowsCarry(results, items, StoredAt(items, ok, i), submission, user, dataset)
    requires errors == Pick(items, FailedAt(items, ok, i))
    modifies db`answers, db`nextId, db`clock
    ensures db.Valid()
    ensures db.nextId == id0 + |results'| && db.clock == clock0 + |results'| && db.answers == base + results'
    ensures RowsCarry(results', items, StoredAt(items, ok, i + 1), submission, user, dataset)
    ensures errors' == Pick(items, FailedAt(items, ok, i + 1))
  {
    ghost var ix, fx := StoredAt(items, ok, i), FailedAt(items, ok, i);
    var it := items[i];
    results', errors' := results, errors;
    if !Skips(it) && ok(i) {
      var row := db.InsertAnswer(user, dataset, it.question_id.value, it.file_id,
                                 Str(ToText(it.answer_value)), Some(submission));
      assert StoredAt(items, ok, i + 1) == ix + [i];
      assert db.answers == base + (results + [row]);
      RowsCarryAppend(results, items, ix, submission, user, dataset, row, i);
      results' := results + [row];
    } else if !Skips(it) {
      assert FailedAt(items, ok, i + 1) == fx + [i];
      PickAppend(items, fx, i);
      errors' := errors + [it];
    }
  }

  /** The per-item loop of `POST /answers/batch`: each attempted item is
      inserted under the submission or recorded as an error; a null item
      throws and stops the loop (`aborted`). */
  method InsertItems(db: Db, user: Id, dataset: Id, submission: Id, items: seq<BatchItem>, ok: nat -> bool)
    returns (results: seq<Answer>, errors: seq<BatchItem>, aborted: bool)
    requires db.Valid()
    modifies db`answers, db`nextId, db`clock
    ensures db.Valid()
    ensures aborted <==> Reach(items) < |items|
    ensures db.nextId == old(db.nextId) + |results| && db.clock == old(db.clock) + |results|
    ensures var ix := StoredAt(items, ok, Reach(items));
      db.answers == old(db.answers) + results && RowsCarry(results, items, ix, submission, user, dataset)
    ensures errors == Pick(items, FailedAt(items, ok, Reach(items)))
  {
    results, errors, aborted := [], [], false;
    var i := 0;
    while i < |items| && items[i].Item?
      invariant 0 <= i <= Reach(items)
      invariant db.Valid()
      invariant db.nextId == old(db.nextId) + |results| && db.clock == old(db.clock) + |results|
      invariant db.answers == old(db.answers) + results
      invariant RowsCarry(results, items, StoredAt(items, ok, i), submission, user, dataset)
      invariant errors == Pick(items, FailedAt(items, ok, i))
    {
      results, errors := InsertItem(db, user, dataset, submission, items, ok, i,
                                    old(db.answers), old(db.nextId), old(db.clock), results, errors);
      i := i + 1;
    }
    assert i == Reach(items);
    aborted := i < |items|;
  }

  /** The reply of a batch that ran to the end; `errors` is omitted when empty. */
  datatype BatchReply = BatchReply(submission_id: Id, results: seq<Answer>, errors: Option<seq<BatchItem>>)

  /** `POST /answers/batch`. `openOk`, `ok(i)` and `finishOk` are the store's
      answers to the submission insert, the insert of item `i`, and the final
      status update. */
  method SubmitBatch(db: Db, requester: User, dataset_id: Option<Id>, answers: Option<seq<BatchItem>>,
                     openOk: bool, ok: nat -> bool, finishOk: bool) returns (r: Reply<BatchReply>)
    requires db.Valid()
    modifies db`submissions, db`answers, db`nextId, db`clock
    ensures db.Valid()
    ensures r == Fail(400) <==> dataset_id.None? || answers.None? || answers.value == []
    ensures r == Fail(400) || !openOk ==>
      r.Fail? && db.submissions == old(db.submissions) && db.answers == old(db.answers)
    ensures dataset_id.Some? && answers.Some? && answers.value != [] && !openOk ==> r == Fail(500)
    ensures dataset_id.Some? && answers.Some? && answers.value != [] && openOk ==>
      var items := answers.value;
      var n := Reach(items);
      var ix := StoredAt(items, ok, n);
      var fx := FailedAt(items, ok, n);
      var sid := old(db.nextId);
      var begun := Submission(sid, requester.id, dataset_id.value, InProgress, old(db.clock), None);
      // one new submission, owned by the requester; it is completed whenever
      // the loop ran to the end and the update went through, however many
      // items failed
      db.submissions == old(db.submissions) +
        [if n == |items| && finishOk
         then begun.(status := Completed, submitted_at := Some(old(db.clock) + 1 + |ix|))
         else begun]
      // the stored rows, in input order, each carrying the submission
      && |old(db.answers)| <= |db.answers|
      && db.answers[..|old(db.answers)|] == old(db.answers)
      && RowsCarry(db.answers[|old(db.answers)|..], items, ix, sid, requester.id, dataset_id.value)
      // a null item ends the request with 500; otherwise the reply lists the
      // stored rows and, when there are any, the failed items
      && (r.Ok? <==> n == |items|)
      && (r.Fail? ==> r.status == 500)
      && (r.Ok? ==>
            r.status == 200 && r.value.submission_id == sid
            && r.value.results == db.answers[|old(db.answers)|..]
            && r.value.errors == if fx == [] then None else Some(Pick(items, fx)))
  {
    if dataset_id.None? {
      return Fail(400);
    }
    if answers.None? || answers.value == [] {
      return Fail(400);
    }
    if !openOk {
      return Fail(500);
    }
    var items := answers.value;
    var started := db.Now();
    var s := db.InsertSubmission(requester.id, dataset_id.value, started);
    ghost var answersBefore, subs := db.answers, db.submissions;
    assert subs == old(db.submissions) + [s];

    var results, errors, aborted := InsertItems(db, requester.id, dataset_id.value, s.id, items, ok);
    assert db.answers[..|answersBefore|] == answersBefore;
    assert db.answers[|answersBefore|..] == results;
    assert db.submissions == subs;
    assert |results| == |StoredAt(items, ok, Reach(items))|;
    if aborted {
      return Fail(500);
    }
    if finishOk {
      ghost var t := db.clock;
      assert t == old(db.clock) + 1 + |results|;
      db.FinishSubmission(s.id);
      CompleteLast(old(db.submissions), s, t);
      assert db.submissions == old(db.submissions) + [s.(status := Completed, submitted_at := Some(t))];
    }
    r := Ok(200, BatchReply(s.id, results, if errors == [] then None else Some(errors)));
  }

  // ---------------------------------------------------------------------------
  // GET /answers/my-answers/:datasetId and DELETE /answers/:id.

  function OwnedIn(user: Id, dataset: Id): Answer -> bool
  {
    (a: Answer) => a.user_id == user && a.dataset_id == dataset
  }

  /** `GET /answers/my-answers/:datasetId`: the requester's own answers for
      the dataset, in table order; `readOk` is whether the query succeeds. */
  function MyAnswers(db: Db, requester: User, datasetId: Id, readOk: bool): (r: Reply<seq<Answer>>)
    reads db
    ensures r.Ok? <==> readOk
    ensures r.Fail? ==> r.status == 500
    ensures r.Ok? ==>
      (r.status == 200
       && forall a :: a in r.value <==> a in db.answers && a.user_id == requester.id && a.dataset_id == datasetId)
  {
    if !readOk then Fail(500) else Ok(200, Filter(db.answers, OwnedIn(requester.id, datasetId)))
  }

  /** The checks of `DELETE /answers/:id` before the delete: 404 when no
      answer has the id, 403 when the requester is neither an admin nor the
      answer's owner. */
  function DeleteCheck(answers: seq<Answer>, next: Id, requester: User, id: Id): (g: Gate)
    requires KeyedBelow(answers, AnswerId, next)
    ensures g == Deny(404) <==> forall a :: a in answers ==> a.id != id
    ensures g == Deny(403) <==> exists a :: a in answers && a.id == id && !CanDeleteAnswer(requester, a)
    ensures g == Next <==> exists a :: a in answers && a.id == id && CanDeleteAnswer(requester, a)
  {
    SingleByIdIn(answers, AnswerId, next, id, AnswerIs(id));
    var answer := Single(answers, AnswerIs(id));
    if answer.None? then Deny(404)
    else if !CanDeleteAnswer(requester, answer.value) then Deny(403)
    else Next
  }

  /** `DELETE /answers/:id`: after the checks, that row (and only it) is
      removed. `deleteOk` is whether the store accepts the delete. */
  method DeleteAnswer(db: Db, requester: User, id: Id, deleteOk: bool) returns (r: Reply<()>)
    requires db.Valid()
    modifies db`answers
    ensures db.Valid()
    ensures DeleteCheck(old(db.answers), db.nextId, requester, id) != Next ==>
      r == Fail(DeleteCheck(old(db.answers), db.nextId, requester, id).status) && db.answers == old(db.answers)
    ensures DeleteCheck(old(db.answers), db.nextId, requester, id) == Next ==>
      (r.Ok? <==> deleteOk) && (r.Fail? ==> r == Fail(500) && db.answers == old(db.answers))
    ensures r.Ok? ==>
      (r.status == 200 && |db.answers| == |old(db.answers)| - 1
       && forall a :: a in db.answers <==> a in old(db.answers) && a.id != id)
  {
    var g := DeleteCheck(db.answers, db.nextId, requester, id);
    if g.Deny? {
      return Fail(g.status);
    }
    if !deleteOk {
      return Fail(500);
    }
    var keep := (a: Answer) => a.id != id;
    var j :| 0 <= j < |db.answers| && db.answers[j].id == id;
    RemoveById(db.answers, AnswerId, db.nextId, j, keep);
    db.DeleteAnswers(keep);
    r := Ok(200, ());
  }
}
