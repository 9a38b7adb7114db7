# Labeling tool back end — a verified model of its routes

The labeling tool's back end is an Express server over a Supabase database
and storage bucket. Administrators publish datasets, attach files and
questions to them, and collect the answers that annotators submit, one at a
time or as a batch under a submission. This project models, in Dafny, the
request handlers of that server and the authentication middleware in front
of them, over an in-memory store:

- `Store` (store.dfy): the six tables (users, datasets, questions,
  dataset_files, submissions, answers), the object paths of the
  `dataset-files` bucket, an id allocator and a clock, held by the class
  `Db`. `Db.Valid()` keeps every table's ids unique and below the next id,
  and users' emails unique. Every table write a handler makes is a `Db`
  method that keeps `Valid()`; the bucket's list of object paths is
  changed directly by the upload and file-delete handlers, which are its
  only writers.
- `AuthMiddleware` (middleware.dfy) and `Access` (access.dfy):
  `authenticate` and `authorize(...roles)`, plus the visibility and
  ownership rules the routes apply inline.
- `AuthRoutes` (authroutes.dfy): register, login and current user.
- `Datasets`, `Questions`, `Answers`: the three route files.
- `Common`, `Text`, `Sorting`: the JavaScript and query semantics the
  routes rely on. These are truthiness, `String(v)`, `trim()`,
  `toLowerCase()`, `split(' ')`, the `.eq` filters, `.single()`, and the
  `.order(...)` of a query.

Every write that can fail, every query whose rows a handler returns, and
the two lookups of the single-answer upsert can fail through a parameter
of its handler: a boolean for a single call, a function from the loop
index for a call inside a loop. The other lookups always answer; "## Left
out" says what that leaves out.
bcrypt's `hash` and `compare`, jwt's `sign` and `verify`, and the bucket's
`getPublicUrl` are function parameters too. Each handler returns
`Reply<T>`: `Ok(status, body)` or `Fail(status)`.

## Model

| member | source | states |
|---|---|---|
| Common.ToText | routes/answers.js:140 | `String(answer_value)`: a string is kept, a safe integer becomes its decimal numeral, `null` becomes "null" |
| Common.NumTextRoundTrip | routes/answers.js:140 | the text stored for a safe integer reads back as that integer: a minus sign exactly for a negative one, then the digits of its magnitude |
| Common.NatDecimal | routes/datasets.js:212-213 | a number in a template literal prints as digits only, with no leading zero |
| Common.NatDecimalRoundTrip | routes/datasets.js:212-213 | reading the printed digits back gives the number: printing loses nothing |
| Common.Filter | routes/answers.js:186-194 | an `.eq` query returns exactly the rows that match, and only rows of the table |
| Common.Single | routes/datasets.js:47-60 | `.single()` yields a row exactly when one row matches, and then a matching row of the table |
| Common.FilterDropsOne | routes/answers.js:227-230 | a delete whose filter rejects one row removes exactly one row |
| Common.FilterKeepsOne | routes/auth.js:23-27 | a lookup that matches one row yields that row alone |
| Common.PositionsFate | routes/datasets.js:210-263 | a loop position is listed under an outcome exactly when that outcome happened there |
| Common.PositionsSplit | routes/datasets.js:210-263 | the positions of an outcome and of its opposite together count every iteration once |
| Text.TrimShape | routes/auth.js:18-20 | `trim()` returns a slice of its input with only white space cut from either end, and no white space left at either end |
| Text.TrimIdempotent | routes/auth.js:18-20 | trimming twice is trimming once |
| Text.ToLowerIdempotent | routes/auth.js:18 | lower-casing twice is lower-casing once |
| Text.NormalizeEmailIdempotent | routes/auth.js:87-88 | a stored (normalised) email normalises to itself, so register and login use the same key |
| Text.NormalizedEmailShape | routes/auth.js:18 | a normalised email has no upper-case ASCII letter and no white space at either end |
| Text.Split | middleware/auth.js:6 | `split(' ')` yields at least one piece and no piece contains a space |
| Text.SplitJoin | middleware/auth.js:6 | joining the pieces with the separator gives back the header |
| Sorting.InsertSorted | routes/datasets.js:23 | inserting a row into a descending order keeps it descending |
| Sorting.SortDesc | routes/datasets.js:23 | the ordered result is sorted by the key |
| Sorting.SortKeepsRows | routes/datasets.js:23 | ordering a result keeps the same rows, each as often |
| Store.CompleteLast | routes/answers.js:155-161 | completing the newest submission changes only that submission |
| Store.Db.InsertUser | routes/auth.js:38-49 | the new user row gets a fresh id and the current time; the table grows by that row; ids and emails stay unique |
| Store.Db.InsertDataset | routes/datasets.js:83-95 | the new dataset row gets a fresh id and the current time; the table grows by that row |
| Store.Db.InsertQuestion | routes/questions.js:37-48 | the new question row gets a fresh id and the current time; the table grows by that row |
| Store.Db.InsertQuestions | routes/datasets.js:110-112 | a multi-row insert appends all its rows in order, with consecutive fresh ids and one shared current time |
| Store.Db.InsertFile | routes/datasets.js:241-254 | the new file record gets a fresh id; the table grows by that row |
| Store.Db.InsertSubmission | routes/answers.js:99-110 | the new submission is `in_progress` with no `submitted_at`, under a fresh id |
| Store.Db.InsertAnswer | routes/answers.js:57-69 | the new answer row gets a fresh id and the current time; the table grows by that row |
| Store.Db.FinishSubmission | routes/answers.js:155-161 | the submission with the id becomes `completed` at the current time; every other row is unchanged |
| Store.Db.DeleteAnswers | routes/answers.js:227-230 | the answers table keeps exactly the rows the filter keeps; ids stay unique |
| Store.Db.DeleteQuestions | routes/questions.js:96-99 | the questions table keeps exactly the rows the filter keeps |
| Store.Db.DeleteFiles | routes/datasets.js:307-310 | the file table keeps exactly the rows the filter keeps |
| Store.Db.DeleteDatasets | routes/datasets.js:164-167 | the datasets table keeps exactly the rows the filter keeps |
| Store.Db.UpdateAnswers | routes/answers.js:44-49 | an update in place keeps every id, so ids stay unique |
| Store.Db.UpdateQuestions | routes/questions.js:71-76 | an update in place keeps every id |
| Store.Db.UpdateDatasets | routes/datasets.js:137-142 | an update in place keeps every id |
| Store.Db.Now | routes/datasets.js:212 | reading the time returns the clock and advances it |
| Store.KeyedFilter | routes/datasets.js:160-162 | deleting rows keeps the remaining ids unique |
| Store.SingleById | routes/datasets.js:193-197 | in a table with unique ids, `.single()` by id finds the row with that id |
| Store.SingleByIdIff | routes/datasets.js:193-201 | `.single()` by id finds a row exactly when some row has the id |
| Store.SingleByIdIn | routes/answers.js:212-220 | `.single()` by id finds nothing exactly when no row has the id, and otherwise the only row with it |
| Store.RemoveById | routes/answers.js:227-230 | deleting by id from a table with unique ids removes exactly one row |
| Access.Authorize | middleware/auth.js:32-44 | 401 without a user, 403 when the role is not listed, otherwise `next()`, each if and only if |
| Access.AdminGate | middleware/auth.js:32-44 | `authorize('admin')` passes exactly an admin and otherwise answers 403 |
| AuthMiddleware.TokenOf | middleware/auth.js:6-10 | the token, when present, is non-empty and has no space; no header means no token |
| AuthMiddleware.BearerToken | middleware/auth.js:6 | `Bearer <token>` yields the token |
| AuthMiddleware.NoSpaceNoToken | middleware/auth.js:6-10 | a header without a space carries no token |
| AuthMiddleware.DoubleSpaceNoToken | middleware/auth.js:6-10 | a doubled space leaves the second piece empty, so there is no token |
| AuthMiddleware.Authenticated | middleware/auth.js:6-23 | a user is attached exactly when the token is present, verifies, and names exactly one user row |
| AuthMiddleware.Authenticate | middleware/auth.js:4-30 | `next()` exactly when a user is found, and then `req.user` is that user; otherwise 401 and `req.user` is untouched |
| AuthRoutes.Public | routes/auth.js:65-70 | the reply's user carries the row's id, username, email and role, and never the password |
| AuthRoutes.ClampRole | routes/auth.js:45 | the stored role is `admin` exactly when the body's role is the string `admin`, otherwise `user` |
| AuthRoutes.RegisterCheck | routes/auth.js:13-31 | 400 for a missing field or a taken email, 500 for a field `trim()` cannot take, each if and only if |
| AuthRoutes.FreeEmail | routes/auth.js:23-31 | with unique emails, the duplicate check passes exactly when no user has the email |
| AuthRoutes.NewEmailIsFound | routes/auth.js:38-49 | a user added under a free email is the one `.single()` finds by it |
| AuthRoutes.Register | routes/auth.js:9-75 | on success, one user row is added with trimmed username, normalised email, the hash of the trimmed password and the clamped role; the reply is 201 with a token for that id and role; login by that email now finds the user |
| AuthRoutes.Login | routes/auth.js:78-132 | 400, 500 and 200 each if and only if their condition holds; every other failure is 401; a 200 carries a token and the public fields of the one user with the normalised email |
| AuthRoutes.LoginAfterRegister | routes/auth.js:78-110 | a registered user logs in with the same email and password |
| AuthRoutes.Me | routes/auth.js:135-159 | 200 exactly when the token names one user, with that user's profile; otherwise 401 |
| Datasets.ListDatasets | routes/datasets.js:14-40 | newest first; a `user` sees exactly the published datasets, other roles see all; 500 exactly when the query fails |
| Datasets.ListShowsAllToStaff | routes/datasets.js:25-28 | for a role other than `user` the listing is every dataset, each once |
| Datasets.GetDataset | routes/datasets.js:43-71 | 404 exactly when no single dataset has the id, 403 exactly when a `user` asks for an unpublished one, otherwise that dataset |
| Datasets.GetAgreesWithList | routes/datasets.js:14-71 | a dataset can be fetched by id exactly when it is in the requester's listing |
| Datasets.QuestionRows | routes/datasets.js:102-108 | the initial question rows copy `text`, `answerType` and `options` and belong to the new dataset |
| Datasets.AppendedIsFound | routes/datasets.js:83-95 | a dataset added under a fresh id is the one `.single()` finds by it |
| Datasets.AddQuestions | routes/datasets.js:101-117 | the initial questions are all added or, when the insert fails, none |
| Datasets.CreateCheck | routes/datasets.js:74-99 | 403 for a non-admin, 400 without name or file type, 500 when the insert fails, each if and only if |
| Datasets.AddDataset | routes/datasets.js:83-117 | the new dataset row, unpublished unless the body says otherwise, then its questions; the new dataset can be fetched |
| Datasets.CreateDataset | routes/datasets.js:74-123 | on failure nothing is written; on success 201 with the new row, which detail lookup returns, and the questions are added exactly when their insert succeeds |
| Datasets.Patched | routes/datasets.js:131-135 | only the fields present in the body change; id, creator and creation time never do |
| Datasets.UpdateDataset | routes/datasets.js:126-152 | 403 for a non-admin; 500 exactly when no dataset has the id, the body sets no field, or the write fails; 200 in every other case, with only that row patched and returned; a failure leaves the table unchanged |
| Datasets.DeleteRowsOf | routes/datasets.js:159-162 | the dataset's answers, questions and files are removed, each exactly when its own delete succeeds |
| Datasets.DeleteDataset | routes/datasets.js:155-177 | the cascade runs whatever its results; the dataset row goes and the reply is 200 exactly when the last delete succeeds; when all four deletes succeed no answer, question, file or dataset row of the dataset is left, and every row of another dataset is kept |
| Datasets.ObjectPathInjective | routes/datasets.js:212-213 | two uploads at different times never get the same bucket path, and the path determines the file name |
| Datasets.NamesAt | routes/datasets.js:224-259 | an error entry names the file at its position |
| Datasets.StoreOne | routes/datasets.js:211-262 | the bucket gains the file's path `datasets/<id>/<ts>-<name>` exactly when the upload succeeds, and keeps it when the insert then fails; a record with that path is stored exactly when upload and insert both succeed |
| Datasets.StoreStep | routes/datasets.js:210-263 | one iteration appends to the records or to the errors, as that file's outcome says |
| Datasets.StoreFiles | routes/datasets.js:207-263 | the records are those of the files whose two steps succeeded, in order; the errors name exactly the other files, in order; the bucket keeps its objects and gains, in order, one path per uploaded file, under the dataset's folder and ending in that file's name |
| Datasets.UploadPartition | routes/datasets.js:207-265 | every file is either stored or named as an error, never both, and the two counts add up to the number of files |
| Datasets.UploadFiles | routes/datasets.js:180-278 | 403, 400 without files, 404 for an unknown dataset, each if and only if, and no other failure: an admin's files for an existing dataset always get 200, with the stored records, the errors (omitted when empty), and one new object per uploaded file |
| Datasets.DeleteFile | routes/datasets.js:281-320 | 404 unless the file is in that dataset; the object goes exactly when its removal succeeds, whatever the record delete does; 200 exactly when the record delete succeeds, removing that row alone |
| Datasets.Grouped | routes/datasets.js:357-360 | one group per submission, in order, holding exactly the answers that name it |
| Datasets.UnsubmittedInNoGroup | routes/datasets.js:357-360 | an answer saved one at a time is in no group |
| Datasets.AnswerInOneGroup | routes/datasets.js:357-360 | an answer is in at most one group |
| Datasets.SubmissionsOf | routes/datasets.js:328-335 | the listed submissions are submissions of the dataset |
| Datasets.DatasetAggregate | routes/datasets.js:328-366 | every submission of the dataset, each listed once (the listed submissions are a permutation of the dataset's), unfinished first and then newest first, each with its own answers; the totals count all the dataset's submissions and answers |
| Datasets.AggregateListsEverySubmission | routes/datasets.js:328-360 | a submission has a group in the aggregate exactly when it belongs to the dataset |
| Datasets.DatasetAnswers | routes/datasets.js:323-370 | 403 for a non-admin, 500 when a query fails, otherwise the aggregate |
| Questions.ListQuestions | routes/questions.js:8-26 | exactly the dataset's questions, oldest first; 500 exactly when the query fails |
| Questions.OldestFirstAscends | routes/questions.js:16 | descending by the reversed key is ascending by `created_at` |
| Questions.CreateQuestion | routes/questions.js:29-58 | 403, 400 and 500 each if and only if, and no other failure: an admin's complete body with a successful insert always succeeds; on success one row is added, returned with 201, and listed under its dataset |
| Questions.PatchedQuestion | routes/questions.js:66-69 | only the fields present in the body change; id, dataset and creation time never do |
| Questions.PatchQuestionAt | routes/questions.js:71-76 | the update patches the row with the id and no other |
| Questions.UpdateQuestion | routes/questions.js:61-86 | 403 for a non-admin; 500 exactly when no question has the id, the body sets no field, or the write fails; 200 in every other case, with only that row patched and returned; a failure leaves the table unchanged |
| Questions.DeleteQuestion | routes/questions.js:89-109 | the question's answers go exactly when their delete succeeds, whatever follows; the question goes and the reply is 200 exactly when its delete succeeds |
| Answers.SetValue | routes/answers.js:44-49 | only the row with the id gets the new value; everything else is unchanged |
| Answers.FilterSetValue | routes/answers.js:32-49 | changing a value never changes which rows have a key |
| Answers.UpsertUpdatesInPlace | routes/answers.js:32-54 | when the body names a file and one row has the key, only that row's value changes |
| Answers.UpsertAppends | routes/answers.js:32-75 | without a file (the `.eq('file_id', null)` lookup matches no row), or when the key does not name exactly one row, one row is appended, with the key, the value and no submission |
| Answers.UpsertLeavesOneRow | routes/answers.js:32-75 | when the body names a file and at most one row has the key, an upsert leaves exactly one row for it, holding the new value |
| Answers.UpsertTwiceKeepsLatest | routes/answers.js:32-75 | when the body names a file and at most one row has the key (a batch can store several), submitting the key twice leaves one row, holding the later value |
| Answers.UpsertWithoutFileDuplicates | routes/answers.js:38-39 | without a file, submitting the same key twice appends two rows, both kept: the table grows by two rows for the key |
| Answers.IntendedLeavesOneRow | routes/answers.js:32-75 | with the lookup matching a missing file as NULL, an upsert from at most one row for the key leaves exactly one, holding the new value |
| Answers.IntendedTwiceKeepsLatest | routes/answers.js:32-75 | with the lookup matching a missing file as NULL, submitting a key twice leaves one row for it, holding the later value, with or without a file |
| Answers.SubmitCheck | routes/answers.js:12-29 | 400, 404 (unknown dataset or a failed lookup) and `next` each if and only if their condition holds; 403 otherwise |
| Answers.SubmitAnswer | routes/answers.js:8-81 | a check failure or a failed write changes nothing; otherwise the table is the upsert of the value under the requester's key, a plain append when the lookup fails, and always an append when the body names no file; the reply is the row with that key and value |
| Answers.Reach | routes/answers.js:123-124 | the loop gets as far as the first null element |
| Answers.BatchOrder | routes/answers.js:123-152 | stored and failed positions come in input order and are exactly attempted items that succeeded, and failed |
| Answers.BatchPartition | routes/answers.js:123-152 | every item the loop passes is stored, failed or skipped, exactly once |
| Answers.BatchFate | routes/answers.js:126-151 | an item is stored exactly when attempted and its insert succeeds, and failed exactly when attempted and its insert fails |
| Answers.BatchAllFail | routes/answers.js:130-151 | when every insert fails nothing is stored and every attempt is an error |
| Answers.BatchAllSucceed | routes/answers.js:130-151 | when every insert succeeds there are no errors |
| Answers.Pick | routes/answers.js:150 | an error entry is the item at its position |
| Answers.InsertItem | routes/answers.js:124-151 | one iteration appends a stored row or an error, as that item's outcome says |
| Answers.InsertItems | routes/answers.js:119-152 | the stored rows carry the submission, requester, dataset and `String(answer_value)` of the items that succeeded, in order; the errors are the items that failed; a null item stops the loop |
| Answers.SubmitBatch | routes/answers.js:84-179 | 400 exactly for a missing dataset or empty list; 500 with nothing written when the submission cannot be opened; otherwise a new in-progress submission, completed when the loop finished and the update succeeded; stored rows as above; 200 exactly when no null item stopped the loop |
| Answers.MyAnswers | routes/answers.js:182-204 | exactly the requester's answers for the dataset; 500 exactly when the query fails |
| Answers.DeleteCheck | routes/answers.js:211-225 | 404 exactly when no answer has the id, 403 exactly when the requester is neither admin nor owner |
| Answers.DeleteAnswer | routes/answers.js:207-240 | a check failure or a failed delete changes nothing; otherwise exactly that one row is removed |

## Left out

- Password hashing and token signing and verifying are parameters (`hash`, `compare`, `sign`, `verify`). Token expiry and the secret are theirs.
- multer's parsing and its limit of 50 files per request are not modelled; the handler receives the parsed files.
- The storage bucket is a sequence of object paths. Upload, public URL and removal are a per-file success flag and a `publicUrl` function. An upload refused because the path exists (`upsert: false`) is one more upload failure.
- The clock is a counter that advances on every reading, so two uploads never share a timestamp. Two requests in the same millisecond are not modelled.
- Requests run one at a time. The race between the upsert's lookup and its write, and between the batch's inserts, is not modelled.
- Embedded relations in a select (`users:created_by`, `questions (*)`, `dataset_files (*)`) are returned as the plain row; the joined columns are left out.
- Console logging and error messages are left out. A batch error keeps the item, an upload error keeps the file name.
- `answer_value` holds undefined, null, booleans, safe integers (magnitude at most 2^53 - 1) and strings. Floating-point numbers, arrays and objects are left out.
- Common.ToText: covers only the safe integers. Beyond 2^53 - 1, `String` prints the shortest digits that identify the double and pads them with zeros, so 2^60 is stored as "1152921504606847000". From 10^21 on, it uses exponent notation, such as "1e+21". Neither rendering is modelled.
- `toLowerCase()` is modelled for ASCII letters only.
- The `failed` submission status is never written by the code and is not modelled.
- Foreign keys, unique constraints and column types are part of each insert's success flag.
- Lookups other than the upsert's two always answer. Those of the dataset detail, the upload's dataset check, the file and answer deletes, `authenticate`, login and `/me` read an error as "no row": a failure would give the same 404 or 401 as a missing row, and nothing is written.
- AuthRoutes.Register: the duplicate-email lookup always answers. If it failed, the route would go on to the insert, and only a unique constraint on `email` could refuse a taken email.
- Request fields the model types as strings (`name`, `file_type`, `question_text`, `answer_type`) use the empty string for any falsy value. Non-string values are left out.
- `description` is an optional string; a missing one is stored as null.
- Datasets.DatasetAggregate: states the order of the groups, their submissions and contents, but not the order of the answers inside a group.
- An exception thrown by the store client (as opposed to an error it returns) is not modelled, except a null element in the batch, which is.
- Datasets.CreateDataset: takes every element of `questions` to be an object. A null or non-object element makes `questions.map` throw after the dataset insert, which would answer 500 with the dataset row kept; that path is not modelled.

Behaviour of the source that the model keeps as written:

- `POST /answers/batch` checks neither that the dataset exists nor that it is published.
- `GET /questions/dataset/:datasetId` does not check the dataset's visibility.
- Register checks the fields before trimming them, so a username or password of white space only is accepted.
- A null element in the batch ends the request with 500 and leaves the submission `in_progress`; the rows stored before it stay.
- Deleting a dataset leaves its submissions and its stored objects. The cascade deletes take effect even when the final delete fails.
- A file whose record insert fails stays in the bucket.
- Updating a dataset or question that does not exist answers 500, not 404.
- Updating a dataset or question with a body that sets none of the fields answers 500: the empty update returns no row, which `.single()` reports as an error.
- A single answer without a file is appended on every submission (see "## Findings").
- A single answer for a key under which a batch stored several rows is appended, since `.maybeSingle()` reads several rows as none.

## Findings

| source | as written | input that shows it | evidently intended | confidence | as-written member | corrected member |
|---|---|---|---|---|---|---|
| routes/answers.js:38 | the existing-answer lookup filters `.eq('file_id', null)` when the body has no file; SQL `file_id = NULL` is never true, so no row is found and a new one is inserted | two `POST /answers` with the same `dataset_id` and `question_id`, values "a" then "b", no `file_id` | match a missing file with `.is('file_id', null)`, so the second call updates the first row | not executed | Answers.UpsertWithoutFileDuplicates | Answers.IntendedTwiceKeepsLatest |

`Answers.SubmitAnswer` models the route as written (`Answers.Upserted`);
`Answers.UpsertedIntended` is the corrected upsert, and
`Answers.IntendedLeavesOneRow` and `Answers.IntendedTwiceKeepsLatest` prove
one row per key for it, with or without a file.
