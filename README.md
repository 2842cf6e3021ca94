# urban-reports: a Dafny model of the data rules

urban-reports is a Flask application where residents report urban problems.
A user registers, files geotagged reports with photos, votes on reports and
toggles display preferences. Anyone can browse recent reports, search them
and read them as JSON. This project models what `urban-reports/app.py` does
to its tables. SQLAlchemy tables become sequences of plain records with
explicit integer keys, held as fields of one `Store` class. The logged-in
user becomes an explicit `userId` parameter, and the clock becomes an
explicit `now` parameter.

Modules, one concern each:

- `Wrappers`: `Option`, `Min` and `Max`.
- `Text`: ASCII lower-casing and substring occurrence. SQLite's `LIKE '%q%'`
  (what SQLAlchemy's `.contains` compiles to) becomes `LikeContains`, a
  substring test that ignores ASCII case.
- `Uploads`: `allowed_file`, the extension after the last dot, and the
  uploads that pass the check.
- `Records`: the `User`, `Report`, `ReportPhoto` and `Vote` rows, and the key
  SQLite gives a new row. That key is one more than the largest key in the
  table, or 1 when the table is empty. Also here are the two preference flips.
- `Votes`: the `vote_report` toggle as a function on the votes table, with
  lemmas about it.
- `Registration`: the checks and insert of `register`, as a function with
  lemmas.
- `Photos`: the photo rows `new_report` adds, and the per-report photo count.
- `Queries`: the newest-first order, the limited listings of `index`,
  `dashboard` and `api_reports`, `search`, and the `api_reports` projection.
- `App`: class `Store`, which holds the four tables. Its methods are the
  handlers that change them, plus the append loop of `api_reports`. Its
  `Valid()` invariant says:
  - e-mails and usernames are unique;
  - primary keys increase along each table;
  - every report's author exists and every photo's report exists;
  - each (user, report) pair has at most one vote.

Notes on what `app.py` does, which the model follows:

- A new report's status defaults to `"pendente"` (`app.py:69`).
- `new_report` stores an empty title, description or category as given; it
  checks none of them (`app.py:227-241`).
- A vote's type is whatever string the request carries; nothing restricts it
  to up or down (`app.py:291`).
- `vote_report` looks up only the existing vote and never the report itself
  (`app.py:294-297`).
- `vote_report` answers only `{'success': True}` and computes no vote score
  (`app.py:313`), so the model has no score.

## Model

| member | source | states |
|---|---|---|
| Text.ContainsIffOccurs | urban-reports/app.py:339-344 | the substring test behind `.contains` holds exactly when the pattern occurs at some position of the text |
| Uploads.ExtensionIsAfterLastDot | urban-reports/app.py:108 | an extension exists iff the name has a dot; it is preceded by a dot, is the whole rest of the name and contains no dot |
| Uploads.ExtensionAfterDot | urban-reports/app.py:108 | whatever precedes it, a final dot followed by dot-free text yields that text as the extension |
| Uploads.AllowedFileIff | urban-reports/app.py:107-108 | a name is accepted iff some dot in it has no dot after it and the lower-cased text after that dot is png, jpg, jpeg or gif |
| Uploads.AllowedFileExamples | urban-reports/app.py:26 | `photo` is rejected (no dot), `x.PNG` is accepted, `x.png.exe` is rejected and `.gif` is accepted |
| Uploads.AcceptedIsFilter | urban-reports/app.py:249-250 | the accepted uploads are exactly the uploaded names that pass `allowed_file`, each accepted as many times as it was uploaded |
| Records.NextId | urban-reports/app.py:40 | a new row's key is larger than every key in its table; it is 1 for an empty table and otherwise one more than some existing key (the largest) |
| Records.InsertKeepsIdsIncreasing | urban-reports/app.py:176 | inserting a row with the next key keeps primary keys increasing |
| Records.DeleteKeepsIdsIncreasing | urban-reports/app.py:301 | deleting a row keeps primary keys increasing |
| Records.FindUser | urban-reports/app.py:103-105 | the lookup finds a user iff one has the key, and returns the position of the first such user |
| Records.FindUserUnique | urban-reports/app.py:40 | when keys increase, the user found for a key is the only one with that key |
| Records.FlipDarkMode | urban-reports/app.py:318 | the dark-mode flag is negated and every other field is unchanged |
| Records.FlipNotifications | urban-reports/app.py:325 | the notifications flag is negated and every other field is unchanged |
| Records.FlipsAreInvolutions | urban-reports/app.py:315-327 | toggling either preference twice restores the user; each toggle leaves the other flag alone |
| Votes.FindVote | urban-reports/app.py:294-297 | the lookup returns a row of the (user, report) pair with no row of that pair before it, or none when the pair has no row |
| Votes.AtMostOneRowPerPair | urban-reports/app.py:293-310 | under the one-vote invariant every pair has at most one row |
| Votes.PairCountMatchesVoteOf | urban-reports/app.py:299 | a pair has no vote exactly when it has no row |
| Votes.ToggleVoteState | urban-reports/app.py:299-310 | no vote becomes the requested type; a vote of the same type is withdrawn; a vote of another type becomes the requested type |
| Votes.ToggleVoteRows | urban-reports/app.py:299-310 | no vote: one row is appended with a fresh key. Same type: exactly that row is removed. Other type: the same row, in the same place and with the same key, gets the new type, and every other row is unchanged |
| Votes.ToggleVoteFrame | urban-reports/app.py:290-312 | the rows of every other (user, report) pair are unchanged and in the same order |
| Votes.OtherPairsKeepVoteOf | urban-reports/app.py:294-297 | another pair's vote can be read off the rows of the other pairs alone |
| Votes.ToggleVoteKeepsOtherVotes | urban-reports/app.py:290-312 | no other pair's vote changes |
| Votes.ToggleVoteKeepsOnePerPair | urban-reports/app.py:293-310 | at most one vote per (user, report) pair is preserved |
| Votes.ToggleVoteKeepsIdsIncreasing | urban-reports/app.py:303-310 | vote keys stay increasing: a new row gets the next key and a changed row keeps its key |
| Votes.ToggleVoteTwiceUndoes | urban-reports/app.py:299-310 | from no vote, voting the same type twice leaves the table exactly as it was |
| Votes.ToggleVoteSwitch | urban-reports/app.py:299-310 | from no vote, voting one type and then a different one leaves exactly one row for the pair, of the second type |
| Registration.RegisterOutcomes | urban-reports/app.py:150-177 | a taken e-mail is rejected whatever the username, and this check comes first. A free e-mail with a taken username is rejected. A rejection leaves the users table unchanged. Otherwise exactly one user is appended, with the form's e-mail and username, a fresh key, dark mode off and notifications on |
| Registration.RegisterKeepsUnique | urban-reports/app.py:41-42 | registration keeps e-mails and usernames unique, and user keys increasing |
| Photos.PhotoCountOfUnreferenced | urban-reports/app.py:378 | a report that no photo row points to has photo count 0 |
| Photos.AddPhotosRows | urban-reports/app.py:248-258 | existing photo rows stay in front, unchanged; behind them is one row per accepted upload, in upload order, naming that upload and belonging to the report |
| Photos.AddPhotosCount | urban-reports/app.py:248-258 | the report gains exactly as many photos as there were accepted uploads |
| Photos.AddPhotosKeepsOtherCounts | urban-reports/app.py:254-258 | no other report gains a photo |
| Photos.AddPhotosKeepsIdsIncreasing | urban-reports/app.py:254-258 | photo keys stay increasing |
| Queries.NewestFirstSorts | urban-reports/app.py:349 | the newest-first order is a permutation of the reports, ordered by creation time, newest first |
| Queries.RecentIsNewestPrefix | urban-reports/app.py:113 | a limited listing holds min(limit, number of reports) reports, is a prefix of the full newest-first order, and lists only reports of the table |
| Queries.RecentOmitsOnlyOlder | urban-reports/app.py:113-363 | every report a limited listing leaves out is no newer than any report it lists |
| Queries.ListingLimits | urban-reports/app.py:113-363 | the index, dashboard and API lists hold at most 10, 20 and 50 reports, each a prefix of the newest-first order; with 50 or more reports the API lists exactly 50 |
| Queries.UserReportsAreOwn | urban-reports/app.py:187 | the dashboard's own list holds exactly the user's reports, each as many times as it occurs in the table, newest first |
| Queries.SearchSoundAndComplete | urban-reports/app.py:331-349 | every result passes every non-empty filter: the text is in the title or the description, the city is in the address (a report without an address fails), and the category is equal. Every matching report is returned, as often as it occurs. Results are newest first |
| Queries.SearchWithoutFilters | urban-reports/app.py:337-349 | with all filters empty, search returns every report in newest-first order |
| Queries.SummaryShape | urban-reports/app.py:370 | the ellipsis is always appended: a description of at most 100 characters is kept whole, and a longer one is cut to its first 100 |
| Queries.RecentAuthorsKnown | urban-reports/app.py:377 | every report in a limited listing has an author in the users table |
| Queries.ApiPayloadShape | urban-reports/app.py:361-381 | the API answer has one element per listed report, at most 50, newest first. Each element carries its report's key, title, timestamp, category, latitude, longitude, address and status, the summary of its description, the username of the user whose key is the report's author key, and the number of photos belonging to the report |
| App.Store.constructor | urban-reports/app.py:384-385 | an empty database satisfies the invariants |
| App.Store.AuthorsStayKnown | urban-reports/app.py:57 | a users table that keeps every key keeps every report's author present |
| App.Store.Register | urban-reports/app.py:134-182 | the outcome and the new users table are those of the registration rules; the invariants hold; no other table changes |
| App.Store.NewReport | urban-reports/app.py:223-264 | one report is appended with the next key, the given fields, status "pendente" and the caller's id. The photo table gains the accepted uploads, so the new report's photo count equals the number of accepted files. The invariants hold |
| App.Store.PhotosOfNewReport | urban-reports/app.py:247-258 | the new report's photos point to it, and it has exactly one photo per accepted upload |
| App.Store.AuthorsOfNewReport | urban-reports/app.py:241 | a report by a user present in the table keeps every author present |
| App.Store.VoteReport | urban-reports/app.py:288-313 | the votes table follows the toggle. The pair's vote becomes none if it was the requested type, and the requested type otherwise. Other pairs' rows are unchanged. The invariants hold, including one vote per pair |
| App.Store.ToggleDarkMode | urban-reports/app.py:315-320 | only the logged-in user's dark-mode flag is negated, and its new value is returned |
| App.Store.ToggleNotifications | urban-reports/app.py:322-327 | only the logged-in user's notifications flag is negated, and its new value is returned |
| App.Store.ApiReports | urban-reports/app.py:361-381 | the append loop builds exactly the API answer for the 50 newest reports |

## Left out

- Flask routing, templates, `flash`, `redirect`, `jsonify` and form parsing are left out. Each handler's form fields are method parameters, and its JSON answer is a return value.
- The SQLAlchemy session is left out. So are `commit` (each method is one committed request), lazy relationships, `get_or_404`, the login manager and `current_user`. The logged-in user is a `userId` parameter, and a method's `HasUser` precondition stands for `login_required`.
- Password hashing is left out. The hash is a parameter of `Register`.
- Float parsing of latitude and longitude is left out. A coordinate is an opaque optional text.
- `strptime` parsing of the birth date is left out. It is an optional integer supplied by the caller.
- `created_at` and `isoformat` are left out as clock values. Timestamps are integers supplied by the caller.
- `secure_filename`, `file.save` and `os.makedirs` are left out. A photo row keeps the uploaded name, not the timestamped name the server stores.
- App.Store.NewReport: models a photo upload only by its file name. An upload without a name is never accepted, because `allowed_file` rejects the empty name.
- Text.ContainsIffOccurs: `.contains` is SQL `LIKE`, where `%` and `_` inside the search text act as wildcards. The model treats them as ordinary characters.
- Uploads.AllowedFileIff: models lower-casing as ASCII only. Python's `str.lower` also folds non-ASCII letters, but none of those lower-cases to text that would change the outcome for png, jpg, jpeg or gif.
- Queries.NewestFirstSorts: SQL does not fix the order of reports with equal `created_at`. The model keeps such reports in table order.
- `add_comment`, `edit_profile`, `login`, `logout`, `profile` and `report_detail` are not part of this model. They are form plumbing, or rely on a database constraint at commit time (`edit_profile` changes the e-mail without a uniqueness check).
- A race between two concurrent `vote_report` requests for the same pair is left out. The handler reads and then writes without a transaction; the model runs requests one after another.
- App.Store.Register: a form without an e-mail, username, password, name or surname is left out, and so is `Registration.Register` for it. A missing password makes `generate_password_hash` fail (app.py:165) before anything is inserted. A missing e-mail, username, name or surname is NULL in a NOT NULL column (app.py:41-45), so the commit at app.py:177 fails and no user is written. The model's form fields and password hash are always strings, so it always appends the user once the uniqueness checks pass.
- App.Store.NewReport: a form without a title, description or category is left out. The missing field is NULL in a NOT NULL column (app.py:63-65), so the commit at app.py:245 fails and neither the report nor any photo is written. The model's fields are always strings.
- App.Store.VoteReport: a request without a vote type (app.py:291) is left out. The insert or the update puts NULL in the NOT NULL type column (app.py:92), so the commit at app.py:312 fails and the votes table is unchanged. The model's vote type is always a string.
- `static/js/script.js` is not part of this model. It is browser UI: previews, geolocation, dialogs, polling, the markdown preview and date formatting.
