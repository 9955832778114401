# Broadcast-club request portal: the server route rules in Dafny

This project models the rule logic of the three server routes of a school
broadcast club's request portal, with the document database replaced by plain
values:

- **Song requests** (`app/api/song-request/route.ts`). The store is a map from
  calendar day to that day's bucket of requests, plus the song blacklist.
  - POST rewrites the student number to `yy + "s" + raw`.
  - It then runs five checks in a fixed order: quota of 10, duplicate
    normalised title, number already in today's bucket, blacklisted number,
    duplicate singer. The first check that fires gives the one rejection
    message. Only a valid request is appended, stamped with the server clock.
  - GET shows today's bucket with every student number cut back by
    `slice(3, 8)`.
  - DELETE pulls every entry of today's bucket whose name and prefixed number
    both match. It always answers `{isValid: true, message: ""}`.
- **Suggestions** (`app/api/suggestion-request/route.ts`). A blacklist gate on
  the raw student number, then an append with an empty answer and the caller's
  time. GET returns the list as stored.
- **Applications** (`app/api/submit-application/route.ts`). An operator flag
  document `{isValid, message}` gates an unconditional append.

Files:

- `seqs.dfy`: order-preserving `Filter`. It models `$pull` and the character
  deletions.
- `text.dfy`: the title normalisation `strProcess`, `String(n)` and
  `slice`.
- `common.dfy`: the reply body, blacklist entries, the calendar day and
  the clock.
- `song_request.dfy`, `suggestion_request.dfy`, `submit_application.dfy`: one
  module per route.

The clock is a parameter. `Clock(today, millis)` is one reading of
`new Date()`. `today` is the day that keys the bucket and gives the year of
the prefix; `millis` is the timestamp.

The song route stamps records with the server's `new Date()` and ignores the
`date` query parameter the client sends.

The model also keeps two behaviours that differ between the routes:

- The song route compares the blacklist with the prefixed number. The
  suggestion route compares its own, separate blacklist with the raw number.
- The title check normalises both titles. The singer check is exact and
  case-sensitive.

## Model

| member | source | states |
|---|---|---|
| `Text.ToUpper` | app/api/song-request/route.ts:100 | upper-casing keeps the length, maps each character through the ASCII upper-case map, and leaves no lower-case ASCII letter |
| `Text.TrimStart` | app/api/song-request/route.ts:102 | the front cut of `trim` is the position of the first character that is not JavaScript white space (or the end), and everything before it is white space |
| `Text.TrimEnd` | app/api/song-request/route.ts:102 | the back cut of `trim` is just after the last character that is not JavaScript white space (or the start), and everything after it is white space |
| `Text.Trim` | app/api/song-request/route.ts:102 | the trimmed title is an infix of the input with only JavaScript white space outside it, and it neither starts nor ends with white space; an input whose ends are already not white space is returned unchanged |
| `Text.TrimCount` | app/api/song-request/route.ts:102 | trimming keeps every character that is not white space, as often as it occurs |
| `Text.TrimUnique` | app/api/song-request/route.ts:102 | any infix with only white space outside it and no white space at its ends is the trimmed string, so the cut is unique |
| `Text.TrimAround` | app/api/song-request/route.ts:102 | white space added around a string does not change what `trim` returns |
| `Text.TrimFilterSpace` | app/api/song-request/route.ts:102-104 | deleting every U+0020 and trimming give the same result in either order |
| `Text.Normalize` | app/api/song-request/route.ts:98-104 | a normalised title contains no lower-case ASCII letter, no character of the punctuation class and no space; NormalizeIgnoresPunctuation, NormalizeIgnoresSpace and NormalizeIgnoresEndSpace reduce every title to one that NormalizePlain covers, so together they fix the result for every title |
| `Text.NormalizeKeepsContent` | app/api/song-request/route.ts:98-104 | every character outside the punctuation class and the white space occurs in the normalised title exactly as often as in the upper-cased title, so normalisation deletes nothing else |
| `Text.NormalizePlain` | app/api/song-request/route.ts:98-104 | a title with no punctuation, no U+0020 and no white space at either end normalises to its upper-cased self, character for character and in order, so interior tabs, no-break spaces and the like survive |
| `Text.NormalizeEnds` | app/api/song-request/route.ts:102-104 | a normalised title neither starts nor ends with white space, because the space deletion runs after the trim |
| `Text.NormalizeIdempotent` | app/api/song-request/route.ts:98-104 | normalising twice gives the same result as normalising once |
| `Text.NormalizeIgnoresPunctuation` | app/api/song-request/route.ts:101 | inserting any character of the deleted punctuation class (`TitlePunctuation`, the 32 characters of the regular expression) anywhere in a title does not change its normalised form |
| `Text.NormalizeIgnoresCase` | app/api/song-request/route.ts:100 | a title and its ASCII upper-cased form normalise alike |
| `Text.NormalizeIgnoresSpace` | app/api/song-request/route.ts:103-104 | a U+0020 inserted anywhere in a title is ignored, because `split(" ").join("")` deletes every one and trimming commutes with that deletion |
| `Text.NormalizeIgnoresEndSpace` | app/api/song-request/route.ts:102 | white space of any JavaScript kind before or after a title is ignored, because `trim` cuts it and upper-casing and the punctuation deletion leave it in place |
| `Text.DecimalString` | app/api/song-request/route.ts:36 | `String(n)` for a natural number is a non-empty string of decimal digits that starts with `0` only when it is the single digit `0`; with DecimalRoundTrip this fixes the rendering for every `n` |
| `Text.DecimalRoundTrip` | app/api/song-request/route.ts:36 | the decimal rendering used for `String(year)` denotes exactly the year |
| `Text.DecimalLength` | app/api/song-request/route.ts:36 | a year of at least 1000 renders with at least four characters, so `slice(2, 4)` yields two digits |
| `Text.JsSlice` | app/api/song-request/route.ts:200 | `slice(start, end)` clamps both ends to the length and returns the characters from `start` on |
| `Seqs.Filter` | app/api/song-request/route.ts:211-215 | the filtered sequence is no longer than the input, and each of its elements satisfies the condition and comes from the input |
| `Seqs.FilterCount` | app/api/song-request/route.ts:211-215 | after filtering, each element occurs as often as before if it is kept, and not at all otherwise |
| `Seqs.FilterAppend` | app/api/song-request/route.ts:211-215 | filtering distributes over concatenation, so the survivors keep their order |
| `Seqs.FilterKeepsAll` | app/api/song-request/route.ts:211-215 | filtering with nothing to remove returns the sequence unchanged |
| `Seqs.FilterKeepsDistinct` | app/api/song-request/route.ts:211-215 | removing elements never creates a repeated key |
| `SongRequests.YearDigits` | app/api/song-request/route.ts:36 | `String(year).slice(2, 4)` has exactly as many characters as the year's rendering has beyond the second, at most two (none below year 100, one for 100 to 999, two from 1000 on), and they are the third and fourth characters of that rendering |
| `SongRequests.PrefixStudentNumber` | app/api/song-request/route.ts:35-38 | the stored number is the year digits, then `s`, then the raw number unchanged |
| `SongRequests.DisplayStudentNumber` | app/api/song-request/route.ts:200 | the display number is the stored number's characters from position 3 up to position 8, empty if the stored number has at most three characters |
| `SongRequests.PrefixShape` | app/api/song-request/route.ts:35-38 | from year 1000 on, the stored number is two year digits, `s`, then the raw number |
| `SongRequests.PrefixInjective` | app/api/song-request/route.ts:35-38 | for one year, two stored numbers are equal exactly when the raw numbers are |
| `SongRequests.DisplayUndoesPrefix` | app/api/song-request/route.ts:197-202 | GET's `slice(3, 8)` of a stored number gives back the first five characters of the raw number, hence the raw number itself when it has five characters |
| `SongRequests.CheckValidity` | app/api/song-request/route.ts:113-157 | valid exactly when none of the five checks fires, and exactly when the message is empty; each message appears exactly when its check fires and no earlier one does (quota, title, number, blacklist, singer) |
| `SongRequests.FullBucketCloses` | app/api/song-request/route.ts:142-143 | a bucket of 10 or more rejects any request with the closing message and stores nothing, whatever the title, number, blacklist or singer |
| `SongRequests.DuplicateTitleExample` | app/api/song-request/route.ts:117-120 | against a bucket holding "Hello" by Adele, "hello!" by Drake is rejected as a duplicate song |
| `SongRequests.AddRequest` | app/api/song-request/route.ts:160-187 | POST answers with the check's verdict; a valid request is appended as exactly one record at the end of today's bucket, with the prefixed number and the server timestamp, creating the bucket if needed; an invalid one leaves the store unchanged; the blacklist never changes |
| `SongRequests.GetRequests` | app/api/song-request/route.ts:190-204 | GET lists today's bucket entry for entry, with only the student number cut back to display form |
| `SongRequests.GetShowsNewRequest` | app/api/song-request/route.ts:197-202 | after a successful POST with a five-character raw number, GET shows the earlier entries as before and, last, the new request with the raw number as typed |
| `SongRequests.DeleteRequest` | app/api/song-request/route.ts:206-220 | DELETE always answers `{true, ""}`, creates no bucket and changes no other day; today's bucket becomes the order-preserving filter of the entries that do not match both name and prefixed number |
| `SongRequests.DeleteKeepsOrder` | app/api/song-request/route.ts:208-218 | on a bucket split in two, DELETE leaves what it leaves of the first part followed by what it leaves of the second, so the survivors keep their original order |
| `SongRequests.DeleteRemovesExactlyMatches` | app/api/song-request/route.ts:208-218 | every copy of a matching entry is removed and every other entry keeps its multiplicity |
| `SongRequests.DeleteWithoutMatchIsNoOp` | app/api/song-request/route.ts:206-220 | when nothing matches, DELETE leaves the store unchanged and still reports success |
| `SongRequests.DeleteUndoesAdd` | app/api/song-request/route.ts:160-220 | deleting by the name and raw number of a request that POST just accepted gives back today's bucket as it was |
| `SongRequests.AppendKeepsBucketOk` | app/api/song-request/route.ts:142-153 | appending an accepted request keeps at most 10 entries, distinct normalised titles, numbers and singers, and no blacklisted number |
| `SongRequests.FilterKeepsBucketOk` | app/api/song-request/route.ts:211-215 | pulling entries keeps the bucket invariant |
| `SongRequests.AddKeepsStoreOk` | app/api/song-request/route.ts:163-187 | POST keeps every bucket within the invariant |
| `SongRequests.DeleteKeepsStoreOk` | app/api/song-request/route.ts:206-220 | DELETE keeps every bucket within the invariant |
| `SongRequests.RunKeepsStoreOk` | app/api/song-request/route.ts:160-220 | any sequence of POSTs and DELETEs keeps every bucket within the invariant and leaves the blacklist unchanged |
| `SongRequests.RunFromEmpty` | app/api/song-request/route.ts:142-187 | from no buckets, after any sequence of calls, every day holds at most 10 requests with pairwise distinct normalised titles, student numbers and singers, none of them blacklisted |
| `Suggestions.AddSuggestion` | app/api/suggestion-request/route.ts:22-60 | valid exactly when the raw number is not on the blacklist; a blacklisted number gets the blacklist message and the list is unchanged; otherwise exactly one record is appended, with an empty answer and the caller's time, earlier entries unchanged, and the success message is returned |
| `Suggestions.GateIgnoresAllButNumber` | app/api/suggestion-request/route.ts:31-35 | two submissions with the same student number get the same answer, whatever their names, texts, answers or times |
| `Suggestions.GetSuggestions` | app/api/suggestion-request/route.ts:62-70 | GET returns the stored suggestion list unchanged |
| `Suggestions.GetAfterAdd` | app/api/suggestion-request/route.ts:62-70 | GET after a POST returns the earlier list, followed by the new record exactly when it was accepted |
| `Suggestions.AddAllAppendsAccepted` | app/api/suggestion-request/route.ts:42-56 | after any run of submissions the blacklist is unchanged and the list has grown at its end by exactly the accepted submissions, in arrival order |
| `Applications.SubmitApplication` | app/api/submit-application/route.ts:17-44 | the flag never changes; with the flag off the reply is `{false, flag.message}` and nothing is stored; with it on the reply is `{true, ""}` and exactly one record with the form's four fields and the given time is appended |
| `Applications.SubmitAllByFlag` | app/api/submit-application/route.ts:25-43 | over any run of submissions the flag never changes; with it on, every submission is appended in arrival order; with it off, the store is unchanged |

## Left out

- Database access is not modelled: the connection, `findOne`, `findOneAndUpdate`, upserts and the hard-coded document ids. They are replaced by the map and sequences in the stores. The song blacklist lives in the song collection under the date key `"blacklist"`. It is a separate field here, because no formatted date equals that key.
- The `isValidDB` read at app/api/song-request/route.ts:70-77 is left out: `checkValidity` never consults it.
- The check-then-act race between reading the bucket and the `$push` is concurrency. Requests are modelled as handled one at a time.
- Locale and time-zone date formatting is left out. The day is an explicit `CalendarDate`, and the year of the prefix is that day's year.
- Text.ToUpper: upper-cases ASCII letters only. JavaScript's full Unicode case mapping (including mappings that change the length, such as `ß` to `SS`) is not modelled.
- SongRequests.DisplayUndoesPrefix: proved only for years from 1000 on. Below that, `String(year).slice(2, 4)` is shorter than two characters, and the display slice no longer lines up.
- Years are non-negative. `getFullYear` of a date before year 0 is not modelled.
- Timestamps are integers. The suggestion and application routes take the time from `new Date(Number(date))`, and an invalid date is not modelled.
- A missing suggestion blacklist or application flag document makes POST throw, and a missing suggestion list makes GET throw. This surfaces as a generic failure. The model assumes the documents exist. POST itself upserts the suggestion list, so it does not need that document.
- Strings are sequences of Unicode scalar values. JavaScript measures strings in UTF-16 code units, both in `slice(3, 8)` and in the client's five-character check on the student number. For a character outside the Basic Multilingual Plane the lengths differ, so the model's `|form.studentNumber| == 5` is not the same condition as the client's.
- The `console.log` of the blacklisted numbers in the suggestion route is left out. It is logging only.
- Malformed request bodies are not modelled, for example missing fields stored as `undefined`. The forms have every field.
- The email-verification route, the client pages and components, and the music search are left out. They are mail sending, random codes, UI and a third-party HTTP API.
