# uni_database scoring, helpers and handlers, modelled in Dafny

This project models the part of the uni_database backend that computes
something. That backend shares student publications and tracks the likes and
downloads they receive. The model covers:

- **Scoring and ranking queries** (`storage/postgres/user.go`):
  - per-user scores and the sorted score list,
  - the competition rank,
  - per-user statistics,
  - the top-contributors leaderboard,
  - activity counts.

  Each SQL statement is a pure function over a snapshot of the `users`,
  `publications`, `likes` and `downloads` tables. Its LEFT JOINs follow the
  SQL text literally. Every like row of a publication is therefore repeated
  once per download row, and the reverse. `COUNT(p.id)` counts joined rows,
  not publications. The `for rows.Next()` loops are methods over the rows the
  database returns.
- **Publication queries** (`storage/postgres/publication.go`):
  - the per-publication like/download statistics (scalar sub-selects),
  - the case-insensitive tag filter,
  - the paged, searchable list.
- **SQL-text and value helpers** (`pkg/helper/helper.go`):
  - named and positional placeholder renumbering,
  - IN-list and multi-row VALUES expansion,
  - order-preserving list difference,
  - OTP digits,
  - null wrappers,
  - sort-and-join of tags.
- **File handlers** (`api/handler/upload.go`):
  - `filepath.Ext`,
  - the category map,
  - the Content-Type switch,
  - the upload name rule,
  - the directory-listing filter,
  - the in-memory writer (a class with a `buffer` field).
- **Login and registration decisions** (`api/handler/auth.go`).
- **Validation and status mapping of the user endpoints**
  (`api/handler/user.go`) and **the semester filter of the course list**
  (`api/handler/course.go`).
- **The lazy repository cache** (`storage/postgres/postgres.go`). This is a
  `Store` class whose accessors create each repository once and return it
  afterwards.

External effects are inputs to the model:

- Database failures are a `Fault`, or an optional error message for
  `QueryRow`.
- The rows an `ORDER BY` with ties may return are any permutation of the
  grouped rows that is sorted by the key. A lemma shows that such an answer
  always exists.
- `ROUND` is any function within 1/2 of its argument.
- `uuid.New`, `crypto/rand`, `os.Stat`, `os.ReadDir` and `helper.IsValidUUID`
  are parameters.
- JWT signing is a parameter function.

Files:

- `wrappers.dfy` (module Wrappers): Option and Result
- `text.dfy` (module Text): the parts of Go's `strings`/`strconv` used: Find, Count, Replace, ReplaceAll, ToLower (ASCII), Itoa/Atoi, Join, Split
- `sorting.dfy` (module Sorting): insertion sort by a total preorder: the reference order for `ORDER BY ... DESC` and `sort.Strings`
- `db.dfy` (module Db): table rows, the snapshot, `QueryRow`, the scan loop, scalar sub-selects
- `user_store.dfy` (module UserStore): storage/postgres/user.go
- `publication_store.dfy` (module PublicationStore): storage/postgres/publication.go
- `helper.dfy` (module Helper): pkg/helper/helper.go
- `upload.dfy` (module Upload): api/handler/upload.go
- `auth.dfy` (module Auth): api/handler/auth.go
- `user_handler.dfy` (module UserHandler): api/handler/user.go
- `course_handler.dfy` (module CourseHandler): api/handler/course.go
- `store.dfy` (module Store): storage/postgres/postgres.go

### Notes on the source

- **GetUserRank on an unknown user.** The rank query's target sub-select has
  no GROUP BY, so it always yields one row. An unknown id therefore scores 0
  and is ranked rather than refused (`UserStore.UnknownUserRank`). The code's
  "user not found" branch compares the error with `sql.ErrNoRows`, which pgx
  never returns, so every failed call is worded "failed to get user rank".
- **Activity and publication counts.** These read one row's `count` through a
  scalar sub-select: 0 with no row, the value with one row, and a query
  error with several rows (`Db.ScalarSubquery`).
- **GetUserStatistics on an unknown user.** The grouped query returns no row,
  so the handler answers 500 with the no-rows text. A like or download sum
  with a fractional part cannot be scanned into the `int` fields and is a
  500 as well.

## Model

| member | source | states |
|---|---|---|
| Db.QueryRow | storage/postgres/user.go:443-449 | `QueryRow(...).Scan`: the first row, no-rows for an empty result, or the call's failure |
| Db.ScanRows | storage/postgres/user.go:345-361 | the `for rows.Next()` loop returns every row in order, or the first scan error and nothing collected; a failure while reading ends the loop and the rows read so far are a success, since `rows.Err()` is never checked |
| Db.ScalarSubquery | storage/postgres/user.go:303-304 | a scalar sub-select succeeds iff at most one row matches; it then equals the SUM of the matches (0 for none); otherwise it is the "more than one row" error |
| UserStore.FanOut | storage/postgres/user.go:376-378 | one publication contributes max(1,#likes)×max(1,#downloads) joined rows; its likes are summed max(1,#downloads) times and its downloads max(1,#likes) times |
| UserStore.NoFanOut | storage/postgres/user.go:370-378 | with at most one like and one download row per publication, COUNT(p.id) is the number of publications and the sums are the plain totals |
| UserStore.FanOutExample | storage/postgres/user.go:370-378 | a user whose only publication has two likes (3, 5) and two downloads (1, 1) gets a quotient of 5, while the per-publication total is 10 |
| UserStore.CrossCount | storage/postgres/user.go:376-378 | the like×download product of one publication has #likes·#downloads rows |
| UserStore.AggregatesAppend | storage/postgres/user.go:370-373 | COUNT(p.id) and both SUMs distribute over concatenated row sets |
| UserStore.RowsOfCount | storage/postgres/user.go:372-373 | COUNT(p.id) is at least the number of publications |
| UserStore.ZeroPublicationGuard | storage/postgres/user.go:370-374 | COUNT(p.id) is 0 iff the user has no publication; then the denominator is 1 and the quotient 0 |
| UserStore.ZeroPublicationScore | storage/postgres/user.go:368-374 | a user without publications scores 0, whatever ROUND's tie rule |
| UserStore.ScoreRows | storage/postgres/user.go:368-379 | one score row per user row, in table order, each ROUND(quotient) of that user's joined rows |
| UserStore.ScoresAnswerExists | storage/postgres/user.go:380 | the grouped rows sorted by score are a valid `ORDER BY score DESC` answer |
| UserStore.GetUserScores | storage/postgres/user.go:364-402 | success iff neither the query nor a scan fails; the result is a prefix of the answer, the whole valid sorted answer unless reading failed part-way (then exactly the rows read); the errors are as wrapped by the code |
| UserStore.ScoresPrefix | storage/postgres/user.go:380-401 | a list cut short while reading still holds only grouped score rows, none more often than the full answer, in score order |
| UserStore.ScoresAnswerProperties | storage/postgres/user.go:368-380 | with distinct user ids: exactly one entry per user, each with that user's score, non-increasing by score |
| UserStore.ContributorsAnswerExists | storage/postgres/user.go:325-334 | the contributor rows sorted by count are a valid `ORDER BY publication_count DESC` answer |
| UserStore.GetTopContributors | storage/postgres/user.go:323-362 | success iff no query or scan error; the result is a prefix of the answer, the whole valid sorted answer unless reading failed part-way (then exactly the rows read); errors are returned unwrapped |
| UserStore.ContributorsPrefix | storage/postgres/user.go:334-361 | a list cut short while reading still holds only contributor rows, none more often than the full answer, in count order |
| UserStore.ContributorRowsMembers | storage/postgres/user.go:325-334 | a row is listed iff it belongs to a user with at least one publication and carries that user's exact count |
| UserStore.ContributorsAnswerProperties | storage/postgres/user.go:325-334 | only users with ≥1 publication, each exactly once with their count; a larger count always comes first |
| UserStore.GetUserActivityCounts | storage/postgres/user.go:293-321 | publication_count is the number of the user's publications; like/download counts are scalar sub-selects (0, the one value, or a query error); failures are wrapped |
| UserStore.AboveCount | storage/postgres/user.go:427 | the number of users strictly above a score is at most the number of users |
| UserStore.CountAboveZero | storage/postgres/user.go:427 | no score is above q iff every score is at most q |
| UserStore.GetUserRank | storage/postgres/user.go:404-452 | succeeds iff the call succeeds; user_count is the number of user rows; user_rank is 1 + the users with a strictly greater unrounded score; a failure is always "failed to get user rank: …" because pgx's no-rows error is not `sql.ErrNoRows` |
| UserStore.TargetQuotientOf | storage/postgres/user.go:428-438 | the target's score is that user's quotient, or 0 for an id with no user row (no GROUP BY) |
| UserStore.RankBounds | storage/postgres/user.go:409-427 | for an existing user, 1 ≤ user_rank ≤ user_count |
| UserStore.RankOrder | storage/postgres/user.go:411-427 | competition ranking: a strictly smaller rank iff a strictly greater score; equal ranks iff equal scores |
| UserStore.TopRank | storage/postgres/user.go:411-427 | rank 1 iff no user scores strictly higher |
| UserStore.UnknownUserRank | storage/postgres/user.go:427-440 | an unknown id is ranked as a score of 0 and not refused |
| UserStore.CountAboveMonotone | storage/postgres/user.go:427 | a higher target score never has more scores above it |
| UserStore.CountAboveStrict | storage/postgres/user.go:427 | raising the target past some user's score strictly lowers the count above |
| UserStore.RankAfterTie | storage/postgres/user.go:411-427 | two users tied at the top both rank 1, and the next lower score ranks 3 |
| UserStore.TieScenario | storage/postgres/user.go:409-440 | in any snapshot of two users, where u1 has two publications with 10 likes and 4 downloads and u2 has one with 7 likes, both get rank 1 of 2 |
| UserStore.GetUserStatistics | storage/postgres/user.go:453-489 | fails iff its grouped row is missing or fails, a SUM has a fractional part (it cannot scan into the Go `int` fields of api/models/user.go:83-85), or GetUserRank fails; rank equals GetUserRank's user_rank; the counts are the fanned-out COUNT(p.id) and SUMs |
| PublicationStore.GetPublicationStats | storage/postgres/publication.go:275-299 | each count is a scalar sub-select; success iff the call succeeds and each table has ≤1 row for the publication; any failure is one wrapped error |
| PublicationStore.UnknownPublicationStats | storage/postgres/publication.go:282-298 | a publication with no like or download rows (an unknown id included) gets {0, 0}, not an error |
| PublicationStore.WithTagCounts | storage/postgres/publication.go:303-307 | exactly the publications whose tags contain the tag, ignoring case, each as often as in the table |
| PublicationStore.WithEmptyTag | storage/postgres/publication.go:306 | an empty tag matches every publication |
| PublicationStore.GetPublicationsByTag | storage/postgres/publication.go:300-337 | the matching publications in table order, or the wrapped query error or the bare scan error and no list; a failure while reading returns the matches read so far as a success |
| PublicationStore.ListClauses | storage/postgres/publication.go:125-160 | OFFSET and LIMIT read back as the request value when positive, else 0 and 10; the search clause only for a non-empty search |
| PublicationStore.Page | storage/postgres/publication.go:162 | `OFFSET off LIMIT lim`: at most lim rows, exactly the window starting at off |
| PublicationStore.GetList | storage/postgres/publication.go:123-219 | the page of matching rows in order, cut short at a failure while reading; Count is the pre-paging match count, or 0 when no row was read; errors are returned bare |
| PublicationStore.MatchingEmptySearch | storage/postgres/publication.go:158-160 | without a search every publication matches |
| PublicationStore.MatchingSound | storage/postgres/publication.go:158-160 | every listed publication matches the search in title, tags or status and comes from the table |
| Helper.Named | pkg/helper/helper.go:21-22 | every numbered pair has a non-empty key and is one of the parameters |
| Helper.NamedCounts | pkg/helper/helper.go:21-22 | every pair with a non-empty key is numbered, as often as it occurs; no pair with an empty key is |
| Helper.NamedOrder | pkg/helper/helper.go:21-26 | the numbers follow the iteration order: a smaller number goes to an earlier pair |
| Helper.BoundArgsNamed | pkg/helper/helper.go:24-26 | one argument per non-empty key; the i-th argument is the value of the i-th non-empty key |
| Helper.ReplaceQueryParams | pkg/helper/helper.go:15-31 | the loop replaces every ":key" by "$i" for the i-th non-empty key and collects the values in the same order |
| Helper.BindWithoutNames | pkg/helper/helper.go:15-31 | a query without ':' is left unchanged |
| Helper.PrefixKeyCollision | pkg/helper/helper.go:23 | ReplaceAll of ":k" also rewrites the head of ":k"+suffix, leaving "$n"+suffix |
| Helper.BindPrefixCollision | pkg/helper/helper.go:15-31 | with keys k and k+suffix (message, message_type), processing k first leaves "$1"+suffix: the longer key is never bound although its value is still passed as $2 |
| Helper.ReplaceSQL | pkg/helper/helper.go:33-39 | the loop performs Count(query, pattern) left-most replacements, the m-th by "$m" |
| Helper.ReplaceSQLNumbers | pkg/helper/helper.go:33-39 | for a pattern without '$' or digits, the m-th original occurrence becomes "$m" and the text between occurrences is kept |
| Helper.ReplaceSQLEmptyPattern | pkg/helper/helper.go:33-39 | for an empty pattern the result is "$n…$2$1" prepended, with n = length + 1 |
| Helper.OtpByte | pkg/helper/helper.go:41-53 | a random byte maps to "1234567890"[b mod 10], a decimal digit |
| Helper.GenerateOTP | pkg/helper/helper.go:43-56 | a read error is returned; otherwise the result has `length` characters, the i-th being "1234567890"[buffer[i] mod 10] |
| Helper.MinusCounts | pkg/helper/helper.go:58-70 | a value found in b is dropped entirely; any other value keeps all its copies |
| Helper.MinusAppend | pkg/helper/helper.go:58-70 | the difference distributes over concatenation, so a's order is kept |
| Helper.Difference | pkg/helper/helper.go:58-70 | the map-then-filter loops compute exactly the elements of a not in b, in a's order |
| Helper.Dollars | pkg/helper/helper.go:76-79 | the k-th placeholder is "$k+1" |
| Helper.ValMultipleQuery | pkg/helper/helper.go:72-84 | params equal vals; the text is query + "$1,…,$n" + ")", or query without its last character + ")" when vals is empty; an empty query with no vals is the slicing panic |
| Helper.DollarsRoundTrip | pkg/helper/helper.go:76-83 | splitting the placeholder list at ',' gives the placeholders back |
| Helper.Pairs | pkg/helper/helper.go:90-93 | the k-th row is "($2k+1, $2k+2)" |
| Helper.InterleaveAt | pkg/helper/helper.go:91-92 | params alternate id and vals[k] |
| Helper.InsertMultiple | pkg/helper/helper.go:86-98 | params are [id, v0, id, v1, …] of length 2n; the text gains "($1, $2),…" without a trailing comma |
| Helper.NewNullString | pkg/helper/helper.go:100-108 | valid iff the string is non-empty, carrying the string |
| Helper.NewNullBool | pkg/helper/helper.go:110-118 | valid iff the value is true, carrying the value |
| Helper.LexLePreorder | pkg/helper/helper.go:166 | byte-wise string order is a total preorder |
| Helper.SortAndJoinTags | pkg/helper/helper.go:165-170 | the caller's array is sorted in place, and the result is the sorted tags joined by "," |
| Helper.SortedTagsRoundTrip | pkg/helper/helper.go:165-170 | the sorted tags are a sorted permutation, and without ',' in any tag splitting the joined text gives them back |
| Upload.ExtFrom | api/handler/upload.go:16 | the backwards scan yields a suffix that is empty or a '.' followed by neither '.' nor '/'; empty only when every '.' has a later '/' |
| Upload.Ext | api/handler/upload.go:16 | `filepath.Ext`: the suffix from the last '.' of the final element, or "" |
| Upload.ExtIsSuffix | api/handler/upload.go:16 | a path ends with an extension-shaped e iff e is its extension |
| Upload.ExtLower | api/handler/upload.go:16 | taking the extension and lower-casing commute |
| Upload.CheckType | api/handler/upload.go:15-27 | one of the four categories, "unknown" without an extension |
| Upload.CheckTypeBySuffix | api/handler/upload.go:15-27 | image/video/document iff the lower-cased name ends with one of that list's extensions, else unknown |
| Upload.CheckTypeCaseInsensitive | api/handler/upload.go:16 | the category ignores case |
| Upload.ContentType | api/handler/upload.go:188-205 | a Content-Type only for .jpg .jpeg .png .gif .pdf .docx, compared case-sensitively, always "image/…" |
| Upload.ServedCategory | api/handler/upload.go:188-205 | a served file is an image or a document by CheckType |
| Upload.UpperCaseRefused | api/handler/upload.go:188-205 | "photo.JPG" is an image by CheckType but gets no Content-Type, so 415 |
| Upload.ServeImage | api/handler/upload.go:167-212 | 400 on an empty name; 404 when Stat says not-exist; 415 for an unlisted extension; otherwise the file under the directory with its Content-Type |
| Upload.ServeImageStatusOrder | api/handler/upload.go:178-205 | a missing file is 404 whatever its extension; an existing file with an unlisted extension is 415 |
| Upload.EmptyNameNoStat | api/handler/upload.go:170-174 | an empty file name is refused before the file system is consulted |
| Upload.FileDownload | api/handler/upload.go:276-300 | 400 on an empty name; 404 when missing; otherwise an attachment with application/octet-stream |
| Upload.UploadName | api/handler/upload.go:102 | the stored name starts with the UUID and ends with the original extension |
| Upload.UploadNameKeepsExtension | api/handler/upload.go:102 | with a UUID free of '.' and '/', the stored name has the original's extension and category |
| Upload.UploadFile | api/handler/upload.go:83-121 | 400 without a file; 500 when the directory or the save fails; otherwise the UUID name under the storage directory |
| Upload.ListedNamesMembers | api/handler/upload.go:143-150 | a name is listed iff a non-directory entry carries it with a lower-cased .jpg .jpeg .png .gif .pdf extension |
| Upload.ListedByCategory | api/handler/upload.go:145-147 | the listing keeps exactly the images by CheckType plus PDFs |
| Upload.ListImages | api/handler/upload.go:131-153 | 500 when the directory cannot be read; otherwise the listed names in directory order |
| Upload.ObjectWriter.constructor | api/handler/upload.go:53-58 | a new writer has an empty buffer |
| Upload.ObjectWriter.Write | api/handler/upload.go:61-64 | the buffer becomes the old buffer followed by p; returns len(p) and no error |
| Auth.Login | api/handler/auth.go:27-79 | a login succeeds iff the body parses and either an admin is found with that password, or no admin is found and an active user is found with that password; role and id come from the table that matched |
| Auth.AdminFirst | api/handler/auth.go:39-44 | a found admin decides the outcome; the user table does not matter |
| Auth.InactiveBeforePassword | api/handler/auth.go:47-52 | an inactive user gets 403 whatever the password |
| Auth.LookupFailures | api/handler/auth.go:56-63 | the exact no-rows text is 400 "User does not exist"; any other error is 500 with its text |
| Auth.WrongPassword | api/handler/auth.go:67-70 | a mismatching password for the matched account is 400 |
| Auth.Register | api/handler/auth.go:93-127 | 201 iff the body parses, the password has ≥7 UTF-8 bytes, the email lookup fails with no-rows and the create succeeds; an existing email is 400; data is the re-read row or nil |
| Text.ByteLengthBounds | api/handler/auth.go:103 | `len` of a string is between its character count and four times that, and equals the character count iff the text is ASCII |
| Auth.SevenCharactersAccepted | api/handler/auth.go:103-106 | any password of 7 or more characters passes, a 7-character one included, despite the message asking for more |
| Auth.MultiByteAccepted | api/handler/auth.go:103-106 | "éééé" (4 characters, 8 bytes) passes the byte-length check |
| Auth.ShortPasswordNoLookup | api/handler/auth.go:103-106 | a short password is 400 before any lookup |
| Auth.OtherLookupErrorNoCreate | api/handler/auth.go:116-118 | a lookup error other than no-rows is 500 and nothing is created |
| UserHandler.GetByIdUser | api/handler/user.go:65-94 | a non-UUID id is 400 "invalid id"; a storage error is 500; otherwise 200 with the user |
| UserHandler.UpdateUser | api/handler/user.go:152-188 | 202 iff the id is a UUID, the body parses, the update touched >0 rows and the re-read succeeds |
| UserHandler.DeleteUser | api/handler/user.go:203-219 | non-UUID 400; storage error 500; otherwise 204 |
| UserHandler.NonUuidNoStorage | api/handler/user.go:82-85 | a non-UUID id is refused before storage is called (GetByIdUser, UpdateUser, DeleteUser) |
| UserHandler.NoRowsAffectedNoReread | api/handler/user.go:176-179 | rowsAffected ≤ 0 is 400 and the user is not read back |
| UserHandler.GetUserActivityCounts | api/handler/user.go:233-254 | empty user_id 400; non-UUID 400; 200 iff the repository query succeeds, with its counts; else 500 |
| UserHandler.ActivityCountsStatus | api/handler/user.go:247-253 | at most one like and one download row gives 200 with the publication count; two like rows give 500 |
| UserHandler.GetTopContributors | api/handler/user.go:268-286 | 200 with a prefix of the contributor answer (the whole valid sorted list unless reading failed part-way), or 500 with the repository error |
| UserHandler.GetUserScores | api/handler/user.go:301-316 | 200 with a prefix of the score answer (the whole valid sorted list unless reading failed part-way), or 500 "failed to get user scores" whose data is the repository error text (the wrapped query error or the bare scan error) |
| UserHandler.GetUserRank | api/handler/user.go:331-345 | no validation; 200 iff the query succeeds; on error 404 iff the message contains "user not found", else 500 |
| UserHandler.RankNotFoundOnlyFromFault | api/handler/user.go:335-338 | a failed call whose message mentions "user not found" is a 404 |
| UserHandler.UnknownUserRanked | api/handler/user.go:331-345 | an id with no user row is answered 200 with the rank of score 0 |
| UserHandler.GetUserStatistics | api/handler/user.go:360-376 | only an empty user_id is 400; 200 iff the repository succeeds (the user exists, both sums are whole and nothing fails), with the user's fanned-out publication count, like and download sums and GetUserRank's rank; every 500 carries the repository's error text: a failed query, no rows for an unknown user, a non-integral sum, or a failed rank |
| CourseHandler.InSemesterCounts | api/handler/course.go:266-272 | exactly the courses of the semester are kept, each as often as listed |
| CourseHandler.InSemesterOrder | api/handler/course.go:266-272 | kept courses stay in list order |
| CourseHandler.GetListCoursesBySemesterId | api/handler/course.go:233-280 | empty semester_id 400 and bad offset 400, both before the repository; the request has the caller's offset and search and Limit 100000; a repository error dereferences the nil list; otherwise 200 with the filtered courses |
| Store.Store.constructor | storage/postgres/postgres.go:46-48 | a new store holds the pool and no repository |
| Store.NewConnectionPostgres | storage/postgres/postgres.go:25-49 | a parse or connect error is returned; otherwise a fresh store with every repository field nil |
| Store.Store.Admin | storage/postgres/postgres.go:55-62 | creates the admin repository from the pool on first use, afterwards returns the same one; changes no other field |
| Store.Store.User | storage/postgres/postgres.go:64-71 | the same for the user repository |
| Store.Store.Course | storage/postgres/postgres.go:72-79 | the same for the course repository |
| Store.Store.Semester | storage/postgres/postgres.go:81-88 | the same for the semester repository |
| Store.Store.Like | storage/postgres/postgres.go:89-96 | the same for the like repository |
| Store.Store.Download | storage/postgres/postgres.go:97-104 | the same for the download repository |
| Store.Store.Publication | storage/postgres/postgres.go:105-112 | the same for the publication repository |
| Store.Store.Notification | storage/postgres/postgres.go:114-121 | the same for the notification repository |
| Store.AccessorIdempotent | storage/postgres/postgres.go:64-71 | two calls of an accessor return the same repository |

## Left out

- Database I/O: connections, `Query`/`QueryRow`, cancellation. Queries are functions over an immutable snapshot, and failures are inputs: the query, the scan of one row, or the server part-way through the rows (which the loops take for the end of the rows).
- A list that comes back empty is `[]` in the model where Go returns a nil slice, encoded as JSON `null`.
- User ids are compared as text; whether the `users.id` column's type would refuse a non-UUID id is not part of this model.
- Floating point: `count` columns are exact reals. ROUND is any function within 1/2 of its argument, with no fixed tie rule.
- The exact wording of pgx's scan error for a SUM with a fractional part read into an `int` field is abstract (`UserStore.NonIntegralScan`); only its "failed to get user statistics: " prefix is the code's.
- Tie order of `ORDER BY`: any sorted permutation is accepted. A list query without ORDER BY returns rows in table order.
- SQL injection through the concatenated `search` text, and ILIKE wildcards (`%`, `_`) inside a tag or a search: the patterns are plain substrings.
- Case folding is ASCII only; Unicode lower-casing is not modelled. Outside the password check (which counts UTF-8 bytes, as `len` does), string positions and lengths are counted in characters, which agrees with Go only on ASCII text.
- Concurrency: the lazy accessors are unsynchronised in the source; the model is sequential.
- `store.Close`, `ObjectWriter.Close` (it prints), `ObjectHandle` and its metadata: output only.
- The pool configuration (DSN text, MaxConns): the parse and connect results are inputs.
- JWT generation and its ignored error: the token is `sign(userId, role)`.
- `helper.IsValidUUID`, the handler's `getOffsetQuery`, and the storage GetByID/Create/Update/Delete calls are not part of this model. Their results are inputs.
- The handlers' JSON encoding, and `handlerResponse` beyond its status, description and data.
- Go map iteration order in ReplaceQueryParams: the pairs are taken in the order given.
- Helper.GenerateOTP: requires the random buffer to have `length` bytes and takes `length` as a natural number. A negative length, which panics in `make`, is not modelled.
- Helper.ValMultipleQuery and Helper.InsertMultiple: an empty query with no values, which panics on `query[:len-1]`, is the None result.
- Difference's map is modelled as membership in `b`.
- `filepath.Join` is modelled as `dir + "/" + name`. This is what `Clean` yields for a name without '/', which a UUID and an extension never contain.
- The dead `err` check after `uuid.New()` (it re-tests the MkdirAll error, which is nil there).
- Upload handlers: the file contents and `SaveUploadedFile` are not modelled; only whether the save succeeds.
- Go `int` scans (`publication_count`, `rowsAffected`, and the `likes_count` and `downloads_count` SUMs of GetUserStatistics) are unbounded integers; a value beyond the 64-bit range is not refused.
- ConvertMapToStruct, StructAsMap and the CRUD handlers and repositories outside the files above.
