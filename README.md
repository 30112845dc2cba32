# puzzle-pause core, modelled in Dafny

puzzle-pause is a small C web server for daily word puzzles ("ladders" with
blanks and multiple-choice questions), friend leagues with leaderboards, and
passwordless login by emailed magic link or short code. This project models
its logic, not its HTTP, HTML or SQLite plumbing, and proves properties of
that model:

- the score of a solve and the time label the result page shows;
- answer normalization (an in-place rewrite of a C string) and answer checking
  against `|`-separated alternatives;
- the ladder and multiple-choice question parsers, which fill fixed arrays;
- the per-(user, puzzle) attempt record, covering guesses, hints and solves;
- the credential lifecycle of `auth_tokens`, `users` and `sessions`, the
  short-code alphabet and the admin-list match;
- the per-IP login rate limiter and the session-cookie scanner;
- leagues: invite codes, create, join, leave with ownership transfer,
  delete, leaderboard ranks and display names;
- the hex, HTML and JSON encoders with their truncation rules.

Files and modules:

| file | module | models |
|---|---|---|
| common.dfy | Common | Option, bytes, ASCII case, C-string truncation, `strtok`-style splitting, filters |
| score.dfy | PuzzleScore, ResultPage | `puzzle_calculate_score`; the result page's base score and label |
| answer.dfy | PuzzleAnswer | `puzzle_normalize_answer` (in place on an array), `check_answer` |
| parse.dfy | PuzzleParse | `puzzle_parse_ladder`, `puzzle_parse_choice` |
| attempts.dfy | PuzzleAttempts | `ensure_attempt_exists`, `puzzle_submit_guess`, `puzzle_reveal_hint` over a map from (user, puzzle) to the attempt row |
| encoders.dfy | Encoders | hex step of `generate_token_hex`, `html_escape`, `json_escape` |
| authcodes.dfy | AuthCodes | `generate_short_code`, the short-code comparison, `auth_is_admin` |
| auth.dfy | Auth | the `auth_*` functions over the three tables, held in a class |
| ratelimit.dfy | RateLimit | `rate_limit_check` over a 1000-entry array |
| cookie.dfy | Cookie | `get_session_cookie` |
| league.dfy | League | `league.c`: codes, create/join/leave/delete, ranks, leaderboard entries |

Conventions used throughout the model:

- Tables are sequences of rows in insertion order, held in class fields, so
  AUTOINCREMENT ids grow along them.
- The clock is an integer parameter `now`, in seconds.
- Random bytes are parameters.
- A C `NULL` argument is `None` of an `Option`.
- A C string is a NUL-free `string`, and a fixed buffer of N bytes keeps its
  first N-1 characters (`Truncate`).

Each imperative C function is a method with a loop and its invariants,
proved against a function that states what the loop computes. The
properties the code promises are lemmas about those functions.

## Model

| member | source | states |
|---|---|---|
| PuzzleScore.ElapsedMinutes | src/puzzle.c:399-403 | elapsed whole minutes since release, truncated; 0 for a solve before release |
| PuzzleScore.BaseScore | src/puzzle.c:405-419 | the base score is at most 100 and a multiple of 5; it is 100 iff the solve took at most 10 minutes, and at least 70 up to 180 minutes |
| PuzzleScore.Penalty | src/puzzle.c:421-424 | a multiple of 5, at least 5 per wrong guess, and 0 iff there was no wrong guess and no hint |
| PuzzleScore.RawScore | src/puzzle.c:399-424 | a multiple of 5, at most 100 less 5 per wrong guess, and at most 90 once a hint was used |
| PuzzleScore.CalculateScore | src/puzzle.c:383-430 | the score is never below 10, exactly 10 when the date does not parse, and otherwise the raw score unless the floor applies |
| PuzzleScore.BaseScoreBrackets | src/puzzle.c:405-419 | the base score is 100/90/80/75/70 for at most 10/30/60/120/180 minutes, then 70 - 5*floor((m-180)/60) |
| PuzzleScore.BaseScoreNonIncreasing | src/puzzle.c:405-419 | a later bracket never has a higher base score |
| PuzzleScore.ElapsedMinutesMonotone | src/puzzle.c:399-403 | a later solve never counts fewer minutes |
| PuzzleScore.ScoreNonIncreasing | src/puzzle.c:399-429 | a later solve, more wrong guesses or a hint never raise the score |
| PuzzleScore.ScoreExamples | src/test_puzzle.c:79-254 | the pinned scores: 5/15/45/90/150/240 min give 100/90/80/75/70/65; 3 wrong give 85; a hint gives 90; 2 wrong plus a hint at 15 min give 70; the floor of 10; an early solve scores 100; a bad date scores 10 |
| ResultPage.ReconstructionBounds | src/main.c:718-720 | adding the penalties back never gives less than the true base score, and gives exactly it iff the floor was not applied |
| ResultPage.ReconstructedBase | src/main.c:718-720 | never below the stored score, and equal to it iff there were no wrong guesses and no hint |
| ResultPage.TimeLabel | src/main.c:722-728 | "within 10 min" iff the base is at least 100, "2-3 hours" iff it is 70 to 74, "3+ hours" iff it is below 70 |
| ResultPage.LabelMatchesBracket | src/main.c:718-728 | without the floor, the label names the real time bracket, except from three to four hours |
| ResultPage.LabelBetweenThreeAndFourHours | src/main.c:722-728 | as written, a solve 3h30m after release is labelled "2-3 hours" |
| ResultPage.FlooredScoreShowsFasterBracket | src/main.c:718-728 | as written, a floored score (45 min, 20 wrong, hint) is labelled "within 10 min" |
| ResultPage.SolveTimeLabel | src/main.c:722-728 | the corrected label is always the thresholds' label of the true base score, except from three to four hours |
| ResultPage.SolveTimeLabelAgrees | src/main.c:718-728 | with d the seconds from release to the solve, the corrected label is "within 10 min" iff d < 660, "10-30 min" iff 660 <= d < 1860, "30-60 min" iff 1860 <= d < 3660, "1-2 hours" iff 3660 <= d < 7260, "2-3 hours" iff 7260 <= d < 10860 and "3+ hours" iff d >= 10860; when the floor of 10 is not applied and the solve is not between three and four hours, it equals the page's label |
| PuzzleAnswer.SkipSpace | src/puzzle.c:328-329 | a suffix of the input that does not start with whitespace |
| PuzzleAnswer.CollapseShape | src/puzzle.c:331-349 | the main loop's output has no uppercase letter, separator or non-space whitespace, no double space, never exceeds the input, and can start with a space only for a leading gap |
| PuzzleAnswer.Normalize | src/puzzle.c:321-356 | the normalized answer is never longer than the input |
| PuzzleAnswer.NormalizeShape | src/puzzle.c:321-356 | a normalized answer has no uppercase letter, no `,` `-` `>`, only single spaces and no trailing space; it is never longer than the input; a leading space comes only from a separator |
| PuzzleAnswer.NormalizeFixedPoint | src/puzzle.c:321-356 | a canonical string without spaces at its ends normalizes to itself |
| PuzzleAnswer.NormalizeIdempotentWithoutLeadingSpace | src/puzzle.c:321-356 | normalizing twice equals normalizing once unless the result starts with a space |
| PuzzleAnswer.NormalizeCanonical | src/puzzle.c:321-356 | on a canonical string without a trailing space, normalizing removes at most a leading space |
| PuzzleAnswer.NormalizeTwiceIsStable | src/puzzle.c:321-356 | from the second pass on, normalization changes nothing |
| PuzzleAnswer.NormalizeNotIdempotent | src/puzzle.c:338-351 | a separator followed by a word normalizes to " word", and a second pass drops that space |
| PuzzleAnswer.CollapseAppend | src/puzzle.c:331-349 | the main loop is compositional: the output for a + b is the output for a followed by the output for b, given a's final state |
| PuzzleAnswer.NormalizeBlank | src/test_puzzle.c:19-74 | an all-space answer normalizes to "" |
| PuzzleAnswer.NormalizeOneWord | src/test_puzzle.c:19-74 | padding around one word is dropped and the word is lower-cased |
| PuzzleAnswer.NormalizeTwoWords | src/test_puzzle.c:19-74 | two words separated by any run of whitespace or separators become "w1 w2" in lower case ("  HELLO   WORLD  " gives "hello world") |
| PuzzleAnswer.NormalizeSeparatorWord | src/puzzle.c:338-343 | a leading separator leaves one leading space |
| PuzzleAnswer.NormalizeSpaceWord | src/puzzle.c:328-329 | leading whitespace is skipped |
| PuzzleAnswer.NormalizeIgnoresCase | src/puzzle.c:345 | strings equal up to ASCII case normalize to the same string |
| PuzzleAnswer.SkipLeadingSpace | src/puzzle.c:325-329 | the read position stops at the first non-whitespace, matching SkipSpace |
| PuzzleAnswer.CollapseInPlace | src/puzzle.c:331-349 | the read/write loop writes exactly Collapse of the text after the leading space, from the start of the buffer, and leaves the NUL and beyond alone |
| PuzzleAnswer.CollapseRead | src/puzzle.c:331-349 | one read of the loop writes at most one character and keeps the written prefix plus Collapse of the unread text equal to Collapse of the whole |
| PuzzleAnswer.TrimAndTerminate | src/puzzle.c:351-354 | drops one trailing space and writes the NUL |
| PuzzleAnswer.NormalizeInPlace | src/puzzle.c:321-356 | the buffer holds Normalize of its old contents, NUL-terminated, and nothing past the old NUL changes |
| PuzzleAnswer.AnyMatchesIff | src/puzzle.c:370-379 | the alternative loop matches iff some alternative's normalized form equals the guess's |
| PuzzleAnswer.AnyMatchesAppend | src/puzzle.c:370-379 | the alternatives of a + b match iff those of a or those of b do |
| PuzzleAnswer.CheckAnswer | src/puzzle.c:358-381 | an empty answer matches nothing, and a match means some alternative normalizes to the same key as the guess |
| PuzzleAnswer.CheckAnswerIff | src/puzzle.c:358-381 | `check_answer` holds iff the normalized, truncated guess equals the normalized form of some non-empty `|` field of the truncated answer |
| PuzzleAnswer.CheckAnswerSingle | src/puzzle.c:358-381 | with one alternative, the guess matches iff the normalized forms agree |
| PuzzleAnswer.CheckAnswerAlternatives | src/puzzle.c:364-379 | a guess matches "a\|b" iff it matches a or b |
| PuzzleAnswer.CheckAnswerIgnoresPaddingAndCase | src/test_puzzle.c:294-351 | a word padded with spaces and in another case matches a one-word answer, as "  TESTANSWER  " matches "testanswer" |
| PuzzleParse.FindSep | src/puzzle.c:21 | the first ", " at or after a position, or none |
| PuzzleParse.StepOf | src/puzzle.c:39-48 | exactly "____" is a blank; any other word is truncated to 31 characters |
| PuzzleParse.StepsOf | src/puzzle.c:39-48 | a blank step has no word; any other step has a word of 1 to 31 characters |
| PuzzleParse.Ladder | src/puzzle.c:10-58 | at most one step per segment, each blank without a word or with a word of 1 to 31 characters |
| PuzzleParse.ScanSegment | src/puzzle.c:18-37 | one round of the loop consumes one segment and the steps it yields, leaving the rest of the ladder |
| PuzzleParse.StoreStep | src/puzzle.c:39-50 | a non-empty trimmed segment appends its step; others append nothing |
| PuzzleParse.ParseLadder | src/puzzle.c:10-59 | for NULL or max_steps <= 0 the count is 0; otherwise steps[..count] is the first max_steps steps of the ladder, and entries beyond count are untouched |
| PuzzleParse.LadderShape | src/puzzle.c:39-48 | every parsed word is under 32 characters and a blank has no word |
| PuzzleParse.LadderJoin | src/puzzle.c:21-55 | the steps of "a, b" are the steps of a followed by those of b |
| PuzzleParse.LadderOfWords | src/test_puzzle.c:442-481 | plain words joined by ", " parse back to their steps one for one ("Dawn, ____, Dark, ____, Dusk" gives five steps) |
| PuzzleParse.LadderBlank | src/puzzle.c:17-19 | an all-space question has no steps; the empty question has none either |
| PuzzleParse.LadderSkipSpaces | src/puzzle.c:18 | leading spaces of a segment do not change the ladder |
| PuzzleParse.LadderWord | src/puzzle.c:39-48 | a word without ", " and without surrounding spaces is a ladder of exactly its own step |
| PuzzleParse.SplitCommaAppend | src/puzzle.c:21-55 | splitting a + ", " + b gives the fields of a followed by those of b |
| PuzzleParse.ChoicePuzzle.constructor | src/puzzle.c:65 | a zeroed ChoicePuzzle |
| PuzzleParse.OptionsOf | src/puzzle.c:86-95 | options are non-empty and truncated to 127 characters, at most one per field |
| PuzzleParse.ChoiceOptions | src/puzzle.c:77-101 | at most five options and at most one per field, each non-empty and at most 127 characters |
| PuzzleParse.NextField | src/puzzle.c:79-84 | the next `\|` bounds the current field |
| PuzzleParse.StoreOption | src/puzzle.c:91-95 | appends the truncated field and bumps num_options |
| PuzzleParse.ScanOption | src/puzzle.c:78-100 | one round of the option loop keeps options + pending fields equal to the whole |
| PuzzleParse.FillOptions | src/puzzle.c:77-101 | the options are the first five non-empty fields after the first `\|` |
| PuzzleParse.ParseChoice | src/puzzle.c:61-107 | NULL returns -1 unchanged; no `\|` returns -1 with a zeroed result; otherwise the prompt is the text before the first `\|` cut to 511 characters, the options are the first five non-empty fields after it, and the result is 0 iff there are at least two |
| PuzzleParse.SplitJoin | src/puzzle.c:77-101 | splitting pipe-free fields joined by `\|` gives them back |
| PuzzleParse.OptionsOfPlain | src/puzzle.c:86-95 | non-empty options short enough for the buffer are kept as they are |
| PuzzleParse.ChoiceRoundTrip | src/test_puzzle.c:483-505 | "prompt\|o1\|...\|on" with 1 to 5 fitting options parses back to that prompt and those options |
| PuzzleAttempts.GuessKeepsWellFormed | src/puzzle.c:473-515 | a guess keeps a well-formed attempt well-formed, with the same id and hint flag |
| PuzzleAttempts.GuessEffect | src/puzzle.c:473-515 | a solved attempt does not change; a wrong guess adds exactly one incorrect guess and nothing else; a right guess sets solved, the score from the current counters and the completion time |
| PuzzleAttempts.HintEffect | src/puzzle.c:554-561 | a hint sets hint_used and nothing else, and a second hint changes nothing |
| PuzzleAttempts.SolvedIsFinal | src/puzzle.c:473-476 | after the solve, no sequence of guesses changes the attempt |
| PuzzleAttempts.ReplayAllWrong | src/puzzle.c:503-515 | n wrong guesses add exactly n incorrect guesses |
| PuzzleAttempts.ReplayFirstCorrect | src/puzzle.c:473-502 | after guesses up to the first correct one, the attempt is solved with the score for the wrong guesses before it, whatever follows |
| PuzzleAttempts.HintAfterSolveShowsFasterBracket | src/puzzle.c:554-561 | as written, a hint after the solve sets hint_used and the result page then reports a faster bracket |
| PuzzleAttempts.UpdateKeepsValid | src/puzzle.c:487-499 | an update of one row keeps ids and well-formedness |
| PuzzleAttempts.AttemptStore.constructor | src/db.c:43-53 | an empty attempts table |
| PuzzleAttempts.AttemptStore.EnsureAttempt | src/puzzle.c:294-319 | returns the existing row's id; for a user that exists, inserts a zeroed row with the next id; for an unknown user the insert breaks the foreign key to `users` (db.c:45, 91), so it returns -1 and nothing changes |
| PuzzleAttempts.AttemptStore.ApplyGuess | src/puzzle.c:473-515 | the row becomes Guessed of itself; solved is returned with the stored score |
| PuzzleAttempts.AttemptStore.SubmitGuess | src/puzzle.c:432-516 | NULL guess, unknown puzzle, or no row and an unknown user (puzzle.c:465-467): fails with nothing changed; otherwise the (user, puzzle) row is Guessed of the current one with a match of the truncated answer, and the result reports solved iff the row is solved |
| PuzzleAttempts.AttemptStore.RevealHint | src/puzzle.c:518-564 | an empty buffer, a missing puzzle or a NULL or empty hint fail with no row created; otherwise the hint comes back truncated; with no row and an unknown user (puzzle.c:550-552) it then fails with nothing changed, and otherwise the row has hint_used set, created if needed |
| Encoders.Hex | src/util.c:31-32 | two characters per byte |
| Encoders.HexAt | src/util.c:31-32 | byte i is written as characters 2i and 2i+1, high nibble first, lowercase digits |
| Encoders.HexIsLowercaseHex | src/util.c:32 | every character is a lowercase hex digit |
| Encoders.HexRoundTrip | src/util.c:31-32 | decoding the hex gives the bytes back |
| Encoders.HexDigitTable | src/util.c:32 | the digit table is "0123456789abcdef" |
| Encoders.HexValueOfDigit | src/util.c:32 | each digit decodes to its own value |
| Encoders.GenerateTokenHex | src/util.c:20-36 | fails, changing nothing, iff out_size < 2n+1, n > 64 or n = 0; otherwise writes the hex of the bytes and a NUL and nothing further |
| Encoders.HtmlEscape | src/util.c:51-77 | dst_size 0 returns 0 and writes nothing; NULL src gives ""; otherwise the output is the escape of a prefix of src, stopped only where the next piece does not fit; j < dst_size and dst[j] is NUL |
| Encoders.HtmlRoundTrip | src/util.c:59-73 | unescaping the entities gives the source back, so no entity is partial |
| Encoders.HtmlEscapedIsInert | src/util.c:59-73 | escaped text holds no `<`, `>`, `"` or `'` |
| Encoders.JsonEscape | src/util.c:79-99 | the same truncation discipline as HtmlEscape, for the JSON escape |
| Encoders.JsonEscapedIsStringBody | src/util.c:84-96 | the output is a valid JSON string body under section 7 of RFC 8259 |
| Encoders.JsonRoundTrip | src/util.c:84-96 | unescaping gives the source back |
| AuthCodes.CodeChar | src/auth.c:11-12 | a symbol of the 32-character alphabet, never I, O, 0 or 1 |
| AuthCodes.CodeCharTable | src/auth.c:11 | the symbol table is "ABCDEFGHJKLMNPQRSTUVWXYZ23456789" |
| AuthCodes.CodeCharInjective | src/auth.c:11-12 | distinct indices give distinct symbols |
| AuthCodes.ShortCode | src/auth.c:21-22 | one symbol per byte, each an uppercase letter or a digit 2-9, never I, O, 0 or 1 |
| AuthCodes.ShortCodeAt | src/auth.c:21-22 | character i is the symbol for byte i mod 32 |
| AuthCodes.GenerateShortCode | src/auth.c:10-26 | fails, changing nothing, iff out_size < AUTH_CODE_LEN + 1; otherwise writes the code and a NUL |
| AuthCodes.CodesMatch | src/auth.c:228-238 | the early-exit loop matches iff CodeMatches |
| AuthCodes.CodeMatches | src/auth.c:228-238 | a match needs a positive AUTH_CODE_LEN, an input of exactly that length and a stored code at least that long |
| AuthCodes.CodeMatchesIsCaseEqual | src/auth.c:228-238 | a match is a non-empty stored code, an input of exactly AUTH_CODE_LEN characters and ASCII case-insensitive equality |
| AuthCodes.GeneratedCodeMatches | src/auth.c:10-26 | a generated code matches itself and its lowercase form, and only inputs of its length match it |
| AuthCodes.AnyListedIff | src/auth.c:397-407 | the list matches iff some non-empty entry, trimmed of spaces, equals the email ignoring ASCII case |
| AuthCodes.AdminFields | src/auth.c:393-395 | at least one entry, none holding a comma, and joined by commas they give back the list cut to 1023 characters |
| AuthCodes.TrimToken | src/auth.c:399-401 | the trimmed token is the entry without surrounding spaces |
| AuthCodes.ScanEntry | src/auth.c:397-406 | one round of the token loop decides or moves to the next entry |
| AuthCodes.FieldListed | src/auth.c:399-404 | one entry matches iff it is non-empty and, trimmed, equals the email ignoring ASCII case |
| AuthCodes.IsAdmin | src/auth.c:384-410 | false for a NULL or empty email and for an unset or empty list; otherwise true iff an entry of the list (first 1023 characters) matches |
| Auth.FindLink | src/auth.c:97-111 | a row with this exact token, unused and with expiry after now, or none |
| Auth.NewestCode | src/auth.c:186-203 | the last usable code row for the email; no later row qualifies |
| Auth.NewestCodeHasLargestId | src/auth.c:186-191 | the chosen row has the highest id of the qualifying rows |
| Auth.FindSession | src/auth.c:314-330 | a session with this token and expiry after now, or none |
| Auth.UsedLinkIsDead | src/auth.c:142-148 | once its row is marked used, a token is never found again |
| Auth.LogoutEndsSession | src/auth.c:346-362 | after logout no lookup of that token succeeds, at any time |
| Auth.SweepKeepsLiveCredentials | src/auth.c:412-417 | the sweep never removes a credential a lookup could still find; rows expiring exactly now stay, yet are no longer usable |
| Auth.SweepKeepsLiveSessions | src/auth.c:419-421 | the sweep never removes a session a lookup could still find |
| Auth.DeletionsKeepValid | src/auth.c:346-421 | deletions keep the table invariants |
| Auth.AppendUserKeepsOwners | src/auth.c:126-140 | a new user becomes the owner of their email and keeps every row's owner |
| Auth.FreshCredentialUsable | src/auth.c:62-86 | a new credential is found by its token and is the newest code for its email |
| Auth.FreshSessionFound | src/auth.c:157-172 | a new session is found by its token until it expires |
| Auth.RepeatedLinkLogin | src/test_auth.c:269-283 | two magic-link logins for the same new email both succeed, give the same user id, who owns the email, and different sessions |
| Auth.AuthStore.constructor | src/db.c:7-30 | empty `users`, `auth_tokens` and `sessions` tables, with AUTH_CODE_LEN (positive, as auth.c:14-23 and 229-238 use it) and AUTH_MAX_CODE_ATTEMPTS (auth.c:217) as parameters |
| Auth.AuthStore.CreateMagicLink | src/auth.c:28-87 | fails, writing nothing, for NULL, empty or over-254-character emails and for a token already stored (UNIQUE); otherwise appends one row with the hex token, the code, the existing user's id or NULL, expiry now + 900, unused, 0 attempts |
| Auth.AuthStore.InsertUser | src/auth.c:127-140 | fails iff the email already has a user (UNIQUE); otherwise appends the user with the next id |
| Auth.OwnerIdPositive | src/db.c:7-12 | the owner of an email in a valid users table has a positive id |
| Auth.AuthStore.Register | src/auth.c:125-138 | fails iff the credential has no user and the email already has one; otherwise a credential's user is kept, or a new user with the next id is appended, who then owns the email |
| Auth.AuthStore.UpdateToken | src/auth.c:217-259 | rewrites only the used flag and attempt count of one row, keeping the invariants |
| Auth.UpdateTokenKeepsValid | src/auth.c:217-259 | changing only used and attempts keeps the token table valid |
| Auth.AuthStore.OpenSession | src/auth.c:150-175 | appends a session of now + 30 days for the user, failing only on a duplicate token |
| Auth.AuthStore.ValidateMagicLink | src/auth.c:89-176 | fails, changing nothing, unless the token is usable; when the credential has no user but the email does, it fails with everything unchanged; otherwise the row is marked used, a user-less credential's email gets a new user with the next id, the result is 0 iff the session token is new, and then that user's session is appended and the token is dead for ever |
| Auth.AuthStore.ValidateCode | src/auth.c:178-206 | fails, changing nothing, for a NULL email or code or without a usable code row; otherwise acts on the newest usable code row as AttemptCode does, with the same outcomes for the tables |
| Auth.AuthStore.AttemptCode | src/auth.c:208-309 | at the attempt limit it burns the row and fails; a mismatch adds one attempt and fails; a match burns the row, registers a user-less email with the next id (failing if the email has meanwhile gained a user), and succeeds iff the session token is new, opening a session for the email's owner |
| Auth.AuthStore.RedeemCode | src/auth.c:257-309 | burns the matched row, then registers or keeps the user and opens the session; the result is 0 iff the user step works and the session token is new |
| Auth.AuthStore.UserFromSession | src/auth.c:305-344 | succeeds iff a live session has the token, returning its user's id, email and display name truncated to 255; otherwise a zeroed user |
| Auth.AuthStore.Logout | src/auth.c:346-362 | -1 only for a NULL token; otherwise deletes every session with the token and returns 0, even for an unknown token |
| Auth.AuthStore.CleanupExpired | src/auth.c:412-422 | keeps exactly the tokens and sessions whose expiry is not before now |
| RateLimit.Charge | src/main.c:30-39 | past the window: reset to 1 and allowed; within it: allowed iff attempts < 5, counting the request; a refusal changes nothing |
| RateLimit.ChargeKeepsOk | src/main.c:31-39 | attempts stay between 1 and 5 |
| RateLimit.WindowBound | src/main.c:29-39 | within one window at most 5 requests from an IP are allowed |
| RateLimit.RefusedUntilWindowEnds | src/main.c:36-37 | once the limit is hit, every request in the window is refused |
| RateLimit.FirstMatch | src/main.c:29-30 | the first entry with the IP, or none |
| RateLimit.RateLimiter.constructor | src/main.c:22-23 | an empty 1000-entry table |
| RateLimit.RateLimiter.Check | src/main.c:26-52 | a known IP has only its entry charged; an unseen IP is appended with attempts 1 while there is room; a full table allows without recording (fails open); the count never exceeds 1000 |
| Cookie.SessionCookie | src/main.c:223-254 | a session value found in a header holds no space and no `;` |
| Cookie.SessionInAppend | src/main.c:233-251 | fields before the first session field do not change the answer |
| Cookie.RoundTrip | src/main.c:233-248 | for any prefix without `;` and leading space, its value is found alone or after other fields |
| Cookie.SessionCookieRoundTrip | src/main.c:233-248 | a session value after other cookies, or alone, is found |
| Cookie.SkipSeparators | src/main.c:234 | skips spaces and `;` without changing the answer |
| Cookie.SkipField | src/main.c:250 | skips a field that is not the session field |
| Cookie.ValueAt | src/main.c:236-240 | a field starting with the prefix yields the text up to `;` or space |
| Cookie.ScanField | src/main.c:233-251 | one round of the scan finds the value or moves past a field |
| Cookie.CopyValue | src/main.c:242-246 | copies the value truncated to buf_size - 1 and writes a NUL |
| Cookie.GetSessionCookie | src/main.c:223-254 | returns 1 iff there is a header with a session field; then the buffer holds its value truncated to buf_size - 1 and a NUL; otherwise the buffer is unchanged |
| League.InviteCode | src/league.c:13-17 | six characters for three bytes |
| League.InviteCodeIsUpperHex | src/league.c:13-17 | the code is the uppercased hex of the bytes |
| League.InviteCodeChars | src/league.c:13-17 | every character is 0-9 or A-F |
| League.GenerateInviteCode | src/league.c:9-20 | fails iff out_size < 7, changing nothing; otherwise writes the code and a NUL |
| League.NormalizeCode | src/league.c:163-167 | uppercases at most the first six characters of the input |
| League.CodeKey | src/league.c:163-167 | at most six characters, exactly six for an input of six or more, and no lowercase letter |
| League.CodeKeyOfGenerated | src/league.c:163-167 | a generated code, typed in either case and followed by anything, looks up as itself |
| League.CodeKeyIgnoresCase | src/league.c:163-167 | inputs equal up to ASCII case in their first six characters give the same key |
| League.NewEntry | src/league.c:457-476 | rank 0; names and emails truncated to 255 |
| League.ShownNameNeverBlank | src/league.c:463-467 | the shown name is the display name if non-empty, otherwise the email, and is never blank for a non-empty email |
| League.RunStartIsRunStart | src/league.c:450-453 | scores from the run start up to i all equal score i, and the score before the run differs |
| League.Rank | src/league.c:444-455 | between 1 and position + 1; the scores from rank - 1 to the position all equal the entry's, and the score just before differs |
| League.AssignRanks | src/league.c:444-455 | entry i gets Rank of the scores at i and nothing else changes; entries from count on are untouched |
| League.RankNext | src/league.c:451-453 | an entry keeps its predecessor's rank on a tie and otherwise gets its position plus one |
| League.RanksNonDecreasing | src/league.c:444-455 | ranks start at 1, never go down and never exceed position + 1 |
| League.CompetitionRanking | src/league.c:444-455 | on descending scores, the rank is one plus the number of strictly higher scores |
| League.TiedScoresShareRank | src/test_league.c:463-500 | 100, 100, 80 get ranks 1, 1, 3 |
| League.FindLeague | src/league.c:198-207 | the row with this id, or none |
| League.InfoOf | src/league.c:100-123 | the row's id and creator; name and code as copied into their buffers, unchanged when short enough; member count 0 iff the league has no membership |
| League.FindCode | src/league.c:37-44 | the row with this invite code, or none |
| League.FirstOther | src/league.c:246-263 | the earliest-joined member of the league other than the leaver |
| League.FreeDraw | src/league.c:31-49 | the first draw whose code no league has, every earlier draw taken; none when all ten are taken |
| League.FreeDrawStays | src/league.c:32-46 | once a draw is free, the loop stops on it |
| League.CreateKeepsTables | src/league.c:51-97 | the two inserts keep increasing ids, unique codes, unique memberships and every creator a member |
| League.CreatorSoleMember | src/league.c:69-92 | the new league's only member is its creator |
| League.DropNewLeague | src/league.c:72-91 | the clean-up delete restores the leagues table exactly |
| League.JoinKeepsTables | src/league.c:210-222 | a new membership of an existing league keeps the invariants and adds one to the count |
| League.DeleteKeepsTables | src/league.c:310-333 | removing a league with all its memberships keeps the invariants |
| League.ReassignKeepsTables | src/league.c:266-278 | handing a league to one of its members keeps the invariants |
| League.RemoveMemberKeepsTables | src/league.c:281-292 | removing a membership that is not the creator's keeps the invariants |
| League.MemberCountPositive | src/league.c:120-123 | a league with a membership counts at least one member |
| League.SoleMemberIsCreator | src/league.c:241-242 | the one member of a league is its creator, so the delete succeeds |
| League.OtherMemberExists | src/league.c:245-263 | a league with more than one member has a member other than the leaver |
| League.ReassignedCreator | src/league.c:266-278 | after the reassignment the chosen member is the creator |
| League.TryCode | src/league.c:33-44 | one draw: its code and whether a league has it |
| League.DrawCode | src/league.c:30-49 | the do-while finds the first free draw of at most ten, or reports all taken |
| League.LeagueStore.constructor | src/db.c:55-69 | empty `leagues` and `league_members` tables |
| League.LeagueStore.Create | src/league.c:22-98 | succeeds iff the name is given, some draw is free, the creator exists and the membership insert works; then appends the league with the next id and the creator as its sole member; on failure both tables are unchanged |
| League.LeagueStore.Insert | src/league.c:51-97 | with a free code, inserts the league with the next id and its creator's membership, or removes the league again, returning -1 with both tables unchanged |
| League.LeagueStore.Get | src/league.c:100-152 | finds the league by id with its name and code as copied and its member count |
| League.LeagueStore.GetByCode | src/league.c:154-187 | finds the league whose code equals the normalized input |
| League.LeagueStore.Join | src/league.c:189-223 | succeeds iff the league exists, the user is not yet a member and the user exists; then adds exactly that membership |
| League.LeagueStore.IsMember | src/league.c:336-355 | whether the pair is a membership |
| League.LeagueStore.Delete | src/league.c:295-334 | succeeds iff the user is the creator; removes all memberships and then the league |
| League.LeagueStore.Leave | src/league.c:225-293 | fails, changing nothing, for a non-member; the sole member deletes the league; a leaving creator hands over to the earliest-joined other member; then only that membership goes |
| League.LeagueStore.Depart | src/league.c:244-292 | the leaver's membership goes, after a hand-over if they created the league |
| League.LeagueStore.HandOver | src/league.c:244-279 | the creator becomes the leaver's successor |

## Left out

- HTTP, HTML rendering, routing, `main`, and sending email (`popen` of curl).
- SQLite mechanics: prepare, step and finalize failures. The constraints the
  logic relies on are kept: UNIQUE email, token, session token and
  (league_id, user_id). The foreign keys to `users` (enforced, db.c:91)
  are kept as a `users` parameter, a set of ids, for attempts and league
  memberships, and as the invariants that every session's user exists and that a
  credential's user owns the credential's email, for the auth tables. A failed store
  is modelled only for the league membership insert (`memberInsertOk`),
  because `league_create` cleans up after it.
- Random bytes (`generate_random_bytes`) are parameters, and so is the clock.
  DATETIME texts are integer seconds, and `timegm`/`sscanf` of the puzzle
  date is an `Option<int>` release instant (`None` when the date does not
  parse).
- The aggregations computed in SQL: user stats, leaderboard queries, tags and
  `league_get_user_leagues`. `LEAGUE_SELECT`'s member-count subquery is
  modelled, as `MemberCount`.
- `ORDER BY joined_at` ties are broken by insertion order, because joined_at
  has one-second resolution.
- The `users` table as a foreign-key target in league.c is the `users`
  parameter (a set of ids).
- `AUTH_CODE_LEN` and `AUTH_MAX_CODE_ATTEMPTS` are not defined in the headers
  that are part of this model. They are constructor parameters of AuthStore.
  auth.h:19 declares a two-argument `auth_create_magic_link`; the model
  follows the three-argument definition at auth.c:28.
- puzzle_normalize_answer is not idempotent: ",abc" becomes " abc" and then
  "abc". The model follows the code and proves both that and the
  second-pass stability.
- RateLimit.RateLimiter.Check: models the fail-open full table as written,
  with no eviction.
- Auth.AuthStore.UserFromSession: the user is a returned value, so the model
  does not capture that a NULL token leaves the caller's struct untouched.
- League.LeagueStore.GetByCode: the league is a returned value, so the model
  does not capture that a NULL code returns -1 before the `memset` and leaves
  the caller's struct untouched (league.c:158-161); it returns the zeroed
  league, `NoLeague`, instead.
- Auth.AuthStore.ValidateMagicLink: when the credential's `user_id` is NULL
  but the email has since gained a user, the user insert fails on UNIQUE
  email. That credential can then never log in. The model states this
  behaviour rather than changing it.
- The session table's own id column is not modelled: nothing reads it.
- Cookie.GetSessionCookie: requires buf_size > 0. For buf_size 0 the C code
  would overrun the buffer: the copy length `buf_size - 1` wraps to
  `SIZE_MAX` (main.c:242-245). Every caller passes a fixed non-empty buffer.
- League.AssignRanks: count is a nat. The C function writes entries[0] for
  a negative count.
- League.LeagueStore.Create: a failed read of the random source is not
  modelled. `generate_invite_code` passes its size test (8 >= 7, league.c:9-10)
  but fails with `generate_token_hex` (league.c:13-14) when `/dev/urandom`
  cannot be opened or gives fewer bytes than asked (util.c:10-17), and
  `league_create` then returns -1 (league.c:33-34). The model assumes every
  draw succeeds.
- League.LeagueStore.Leave: a failed `league_get` inside `league_leave` cannot
  happen, because every membership's league exists, so it is left out.
- Auth.AuthStore.CreateMagicLink: a failed read of the random source for the
  token or the short code (auth.c:18, 39, 42) is not modelled; the model
  assumes the draw succeeds.
- Auth.AuthStore.ValidateMagicLink: a failed read of the random source for the
  session token (auth.c:150-151) is not modelled. In the C code it comes after
  the credential is marked used and any new user is inserted, so the user is
  left with a used link and no session; the model's result and tables assume
  the draw succeeds.
- Auth.AuthStore.RedeemCode: the same failed session-token draw (auth.c:277),
  after the code row is burnt and any new user is inserted, is not modelled;
  the results of Auth.AuthStore.ValidateCode and Auth.AuthStore.AttemptCode,
  which reach it, likewise assume the draw succeeds.
- League.LeagueStore.Get: `member_count` is an unbounded count, not a C int.
- Integer widths: scores, ids and counters are unbounded integers, since none
  of them comes near 2^31 here.
- `format_datetime`, `get_puzzle_date`, and the functions declared without a
  body (`puzzle_create`, `puzzle_update`, `puzzle_delete`,
  `auth_update_display_name`, `puzzle_get_number`).

## Findings

| source | as written | input that shows it | evidently intended | confidence | as-written member | corrected member |
|---|---|---|---|---|---|---|
| src/main.c:718-728 | the label is rebuilt from score + penalties, which overstates the base score once the floor of 10 applies | solved 45 minutes after release with 20 wrong guesses and a hint: score 10, rebuilt base 120, label "within 10 min" | the label of the real solve time, "30-60 min" | not executed; high | ResultPage.FlooredScoreShowsFasterBracket | ResultPage.SolveTimeLabel |
| src/main.c:722-728 | base score 70 covers minutes 121 to 239, so every solve from 3 to 4 hours is labelled "2-3 hours" | solved 210 minutes after release, no penalties | "3+ hours" | not executed; medium | ResultPage.LabelBetweenThreeAndFourHours | ResultPage.SolveTimeLabel |
| src/puzzle.c:554-561 | a hint revealed after the solve still sets hint_used, and the result page then adds 10 back | solved at 15 minutes with no penalties (label "10-30 min"), then a hint is revealed: label "within 10 min" | the label of the recorded solve time, which a later hint does not change | not executed; medium | PuzzleAttempts.HintAfterSolveShowsFasterBracket | ResultPage.SolveTimeLabel |
