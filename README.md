# Pet-owner survey: answer pipeline

This project models the part of the survey web application that handles the
answers themselves. The model is written in Dafny, and the properties below
are proved about it.

- **Write path.** A signed-in user submits an eleven-question form. The
  checked boxes of the multi-select questions are joined with `", "`. The
  free text typed next to an "Others" choice is appended to the stored
  answer when that answer contains `"Others"` and the text is not empty.
- **Read path.** The admin dashboard reads every stored answer. For each
  question it:
  - splits the answers on `", "` into tokens;
  - lower-cases the tokens of questions 8 and 9;
  - counts each distinct token, largest count first (pandas
    `value_counts`);
  - for the bar charts, attaches a percentage and a label `count (pct%)`,
    computed over all tokens;
  - drops the "Others" row where the question says so;
  - shows the number of stored answers as the response count.
- **Sign-up.** A new user gets the id `"UID"` followed by a number padded to
  three digits: one more than the number in the latest id, or `UID001` for
  the first user. The latest id is the greatest one in text order. Storing
  an id that is already taken fails, because the user id is the key of the
  users table.

Modules, one per file:

- `Wrappers`: `Option`/`Result`.
- `Text`: `", "` split and join, substring test, ASCII lower-casing.
- `Decimal`: decimal digits, `str(n)`, zero padding.
- `Survey`: the stored record, the form and the "Others" merge.
- `Tally`: tokens, counting, percentages, labels and the "Others" filter.
- `Dashboard`: the per-question policy table and the eleven charts.
- `Signup`: next user id.

Behaviour the model follows because the code does it:

- An empty stored answer yields one empty token, since `"".split(", ")` is
  `[""]`. An empty answer still counts as a response.
- Percentages are computed before the "Others" row is removed, over a total
  that includes it. The retained percentages can therefore add up to less
  than 100.
- Questions 1 and 3 show the sum of their counts as the response count. The
  other questions show the number of stored answers. These are equal for
  unsplit questions.
- The order of rows with equal counts is not fixed by pandas. The model
  keeps the order of first appearance among equal counts. It proves that any
  two orders allowed by `value_counts` hold exactly the same rows.

## Model

| member | source | states |
|---|---|---|
| Text.Join | app.py:174 | `", ".join(parts)` begins with the first part, followed by `", "` when there is a second part, and is at least two characters longer per further part; `Text.SplitJoin` shows the split gives the parts back |
| Text.Contains | app.py:191 | `pat in s` is never true for a pattern longer than `s` |
| Text.ContainsIffOccurs | app.py:191 | `pat in s` holds exactly when `pat` is the slice of `s` at some position |
| Text.Split | app.py:304 | `str.split(", ")` gives at least one piece, and the empty answer gives the single piece `""` |
| Text.SplitJoinsBack | app.py:304 | joining the pieces with `", "` gives the answer back, for every answer |
| Text.SplitPiecesClean | app.py:304 | no piece contains `", "` |
| Text.HasSepIsContains | app.py:304 | the delimiter test used by the split agrees with the substring test |
| Text.SplitJoin | app.py:174-187 | splitting a multi-select answer `", ".join(ts)` gives back `ts` when `ts` is non-empty and no checked value contains `", "` |
| Text.SplitAround | app.py:191-192 | splitting `x + ", " + y` gives the pieces of `x` followed by the pieces of `y`, for every `x` and `y` |
| Text.SplitWithoutSep | app.py:304 | an answer without `", "` splits into itself alone |
| Text.ContainsJoin | app.py:191 | if a checked value contains a pattern, the joined answer does too |
| Text.Lower | app.py:428 | `str.lower()` keeps the length and leaves no upper-case ASCII letter |
| Text.LowerEqualIffCaseVariant | app.py:428 | two strings lower-case to the same string exactly when they have equal length and differ only in letter case, position by position |
| Text.LowerIdempotent | app.py:452 | lower-casing twice is lower-casing once |
| Decimal.Show | app.py:314 | `str(n)` for a count: digits only, no leading zero, denotes `n` |
| Decimal.ShowInjective | app.py:314 | different counts print differently |
| Decimal.ZeroPad | app.py:120 | padding keeps the digits-only form and the number, and gives exactly the width, or the original length when that is larger |
| Survey.WithOthers | app.py:191-207 | the merged answer begins with the original answer, and differs from it exactly when the answer contains `"Others"` and the free text is non-empty |
| Survey.AppendOther | app.py:191-192 | one `if "Others" in answer and other: answer += ", " + other` step computes exactly `WithOthers` |
| Survey.Column | app.py:65-81 | the column of question `q` has one entry per stored record, that record's answer to `q` |
| Survey.Submit | app.py:173-207 | the stored record holds answers 1, 3, 8 and 9 as given; 2, 5 and 10 as the checked values joined with `", "`; 2, 4, 5, 6, 7 and 11 with `", " + text` appended exactly when the answer contains `"Others"` and the text is non-empty; the same, question by question, for exactly the questions with an "Others" text field (the list the dashboard's policy relies on) |
| Survey.MergedTokens | app.py:191-207 | a merged answer splits into the pieces of the original answer followed by the pieces of the free text; an unmerged answer splits as before |
| Survey.CheckedOthersRoundTrip | app.py:174-192 | when "Others" is among the checked values, the stored answer reads back as the checked values followed by the pieces of the free text, or as the checked values alone when the text is empty |
| Tally.AllTokens | app.py:302-304 | flattening yields at least one token per stored answer |
| Tally.CollectTokens | app.py:302-304 | the loop that extends the token list answer by answer produces exactly the flattened tokens |
| Tally.EmptyAnswersGiveEmptyTokens | app.py:303-304 | every empty stored answer contributes an empty token |
| Tally.LowerAll | app.py:428 | lower-casing the token column keeps its length and lower-cases each token in place |
| Tally.CaseVariantsShareRow | app.py:428-429 | after lower-casing, two spellings of one word that differ only in case are counted together: the lower-cased word occurs at least as often as both spellings, and exactly as often when no third spelling occurs |
| Tally.Bump | app.py:307 | counting one more token adds one to the total, and adds a row exactly when the token is new |
| Tally.BumpRows | app.py:307 | counting a token changes only that token's row (one more) or appends a row for it with count 1 |
| Tally.CountInOrder | app.py:307 | the counts add up to the number of tokens |
| Tally.CountInOrderCounts | app.py:307 | one row per distinct token, each with its number of occurrences, and no row for anything that is not a token |
| Tally.Insert | app.py:307 | inserting a row into sorted rows adds exactly that row and keeps the total |
| Tally.InsertKeepsOrder | app.py:307 | inserting into rows in non-increasing count order keeps that order |
| Tally.SortByCount | app.py:307 | sorting by count is a permutation of the rows and keeps the total |
| Tally.SortByCountOrders | app.py:307 | sorted rows are in non-increasing count order, and distinct categories stay distinct |
| Tally.ValueCounts | app.py:307 | `value_counts`: distinct categories, non-increasing counts, each count the exact number of occurrences and at least 1, every token has a row, counts add up to the number of tokens |
| Tally.TalliesAgreeUpToTies | app.py:307 | any two results allowed by `value_counts` for the same tokens hold the same rows, differing at most in the order of equal counts |
| Tally.TallyRowFor | app.py:307-308 | every token value has the row (value, number of occurrences) |
| Tally.RoundTenths | app.py:313 | `round(count/total*100, 1)` in tenths: within half a tenth of the exact share, ties to an even tenth, never above 100.0% for a part of the total |
| Tally.Label | app.py:314-315 | the label ends in the tenths digit of the percentage, written with one decimal place, followed by `%)` |
| Tally.LabelInjective | app.py:314-315 | the label `"{count} ({pct}%)"` determines both the count and the percentage |
| Tally.Shared | app.py:313-315 | a row keeps its category and count and gets a percentage within half a tenth of its exact share of the total |
| Tally.Annotate | app.py:313-315 | every row gets its rounded share of the given total and the matching label |
| Tally.WithShares | app.py:312-315 | every row keeps its category and count and gets its share of the sum of all counts, within half a tenth of the exact share, and the matching label |
| Tally.SharesAddUpToHundred | app.py:312-313 | before any row is dropped, the percentages add up to 100.0 within half a tenth per row |
| Tally.ExcludeOthers | app.py:316-317 | no row is "Others"; every other row is kept unchanged, in the same relative order; the counts lost are exactly those of "Others" rows |
| Tally.ExcludeOthersKeepsOrder | app.py:316-317 | the kept rows stay in non-increasing count order |
| Tally.ExcludeOthersKeepsDistinct | app.py:316-317 | the kept rows still have distinct categories |
| Tally.TallyCategoryTotal | app.py:307-316 | in a tally, the rows for a category add up to its number of occurrences, so the filter removes exactly the "Others" tokens |
| Dashboard.PolicyOf | app.py:291-509 | the per-question table is consistent: only split questions fold case or drop "Others"; folded questions keep every row; exactly the bar charts carry labels; exactly the folded questions are vertical bars; every question with an "Others" text field is split and cleared of "Others" |
| Dashboard.Tokens | app.py:422-428 | a question counts at least as many tokens as it has stored answers |
| Dashboard.Analyse | app.py:299-300 | a chart is of the kind its policy names, and shows the number of stored answers as its response count, never more than the tokens counted |
| Dashboard.AnalyseColumn | app.py:299-317 | one question's block, with the token loop, computes exactly `Analyse` |
| Dashboard.SharesKeepSummary | app.py:312-315 | adding percentages keeps categories, counts and order, and each share is over the full token total |
| Dashboard.RowsSummarise | app.py:307-317 | the rows computed from a question's tokens under a policy: distinct, non-increasing, exact counts; no "Others" row where dropped; shares over all tokens exactly where the policy has labels; every kept token has its row; the counts add up to the tokens less the dropped "Others" tokens |
| Dashboard.AnalyseRows | app.py:299-317 | a chart's rows are distinct and non-increasing, with exact counts; no "Others" row where dropped; a share over all tokens ("Others" included) exactly where the policy has labels; every kept token has its row; the counts shown equal the tokens less the dropped "Others" tokens |
| Dashboard.UnsplitCountsAddUp | app.py:291-292 | for questions 1 and 3 the counts add up to the response count |
| Dashboard.FoldedSpellingsShareRow | app.py:428-429 | on questions 8 and 9, two spellings that differ only in case land in one row whose count covers both, and equals their sum when no third spelling occurs |
| Dashboard.Charts | app.py:288-509 | eleven charts, question `i + 1` at position `i`, each showing the number of stored records as its response count |
| Dashboard.AdminDashboard | app.py:288-291 | the page as written fails, on the missing `question1` column, exactly when no answer is stored; otherwise it shows the eleven charts |
| Dashboard.ChartsOfNoRecords | app.py:288-291 | with no stored answer every chart has zero responses and no rows |
| Signup.StrLessTrans | app.py:111 | the text order used to pick the latest id is transitive |
| Signup.StrLessTotal | app.py:111 | any two different ids are ordered one way or the other |
| Signup.LatestUserId | app.py:111 | the latest id is one of the ids, at or above every other in text order; there is none exactly when there are no users |
| Signup.LatestIsUnique | app.py:111 | an id at or above every other id in text order is the one `LatestUserId` finds, so the latest id is determined by the ids alone |
| Signup.StripUid | app.py:119 | `replace("UID", "")` never lengthens the id; `Signup.UidRoundTrip` shows it leaves exactly the number of an id built by `Uid` |
| Signup.ParseInt | app.py:119 | `int(s)` succeeds exactly on one or more ASCII digits, optionally after one sign, and gives a non-negative number without a minus sign |
| Signup.Format03 | app.py:120 | `:03d` writes at least three characters, and for a non-negative number only digits that denote it |
| Signup.Uid | app.py:120 | an id is `"UID"` followed by at least three characters |
| Signup.ParseFormat03 | app.py:119-120 | `int` reads back what `:03d` wrote, for every integer |
| Signup.UidRoundTrip | app.py:119-120 | stripping `"UID"` from an id and parsing what remains gives its number back |
| Signup.UidInjective | app.py:120 | different numbers give different ids |
| Signup.FirstUid | app.py:123 | the first id, `UID001`, is the id of number 1 |
| Signup.NextUserId | app.py:118-123 | no latest user gives `UID001`; a latest id gives an error exactly when its remainder after removing `"UID"` is not a number, and the error names that id |
| Signup.NextAfterUid | app.py:118-120 | after the id of `n` comes the id of `n + 1` |
| Signup.UidOrder | app.py:111 | for numbers 0 to 999 the ids sort in text order exactly as their numbers do |
| Signup.ThreeDigitOrder | app.py:111 | on three-digit strings, text order is numeric order |
| Signup.LatestIsMax | app.py:111 | while every number is at most 999, the id that sorts last reads back to the greatest number |
| Signup.NextUserIdBelowThousand | app.py:111-120 | while every number is at most 999, the next id as written equals the number-based next id |
| Signup.RepeatedIdAfterThousand | app.py:111-120 | with `UID999` and `UID1000` in use, the next id as written is `UID1000`, which is taken |
| Signup.NextFreeUserId | app.py:118-123 | the number-based next id: `UID001` when there is no user; it is produced exactly when every id reads as a number, and an error names an id in use that does not |
| Signup.ParseUids | app.py:118-119 | a list of ids built from numbers reads back, id by id, to those numbers |
| Signup.ParseIdsAt | app.py:118-119 | when a list of ids reads back to numbers, each id reads back to the number at its own position |
| Signup.NextFreeUserIdIsFresh | app.py:118-120 | for any list of ids, a number-based next id that is produced is never in use, whatever the number of digits |
| Signup.NumberedIdsHaveNext | app.py:118-120 | when every id is built from a number, a next id is always produced |
| Signup.SignUp | app.py:108-136 | as written: an email already registered, and only that, sends the user to sign in; otherwise the id after the latest one in text order is used: a created account's id is never one in use, a taken id makes the insert fail, and a latest id that is not a number is the error; `UID001` for the first user |
| Signup.SignUpFailsAfterThousand | app.py:111-136 | with `UID999` and `UID1000` in use, a new email gets no account: the insert of `UID1000` fails |
| Signup.SignUpByNumber | app.py:108-136 | the corrected sign-up: the same outcome for a registered email, and otherwise the number-based next id |
| Signup.SignUpByNumberGivesFreshId | app.py:108-136 | the corrected sign-up never gives an id in use and never fails on a taken id, for any list of ids |
| Signup.SignUpByNumberCreatesForNewEmail | app.py:108-136 | when every id is built from a number, the corrected sign-up creates an account exactly when the email is new |
| Signup.SignUpsAgreeBelowThousand | app.py:108-136 | while every id holds a number from 0 to 999, the sign-up as written and the corrected one give the same outcome |

## Left out

- Flask routes, sessions, log-in and log-out, the no-cache headers, the admin check and password hashing. They are web and authentication plumbing.
- Persistence. The stored answers, user ids and emails are input sequences, and the database-assigned record id is a parameter of `Survey.Submit`. Apart from the taken user id at sign-up (`Signup.SignUp`), failures of a commit and the rollback are not modelled.
- Column widths (`String(50)` and so on). Whatever the database does with a longer value is not modelled.
- Plotly figures, layout, titles, sizes and HTML export. Only the chart kind is kept. The `categoryorder: total ascending` re-sorting of the horizontal bars happens in Plotly and is not modelled.
- Answers that are `None`, from a single-choice field missing from the form. All answers are modelled as strings. In the code the effect depends on the question:
  - A missing answer 4, 6, 7 or 11 makes the substring test of the write path raise (app.py:194-207).
  - A missing answer 8 or 9 is stored, and the dashboard then raises at its split (app.py:425, 449).
  - A missing answer 1 or 3 is stored and skipped by `value_counts()`, so those charts show fewer responses than there are records (app.py:291-292, 330-331).
- The front-end script that shows and hides inputs and checks that a box is ticked. It is user-interface behaviour.
- Tally.RoundTenths: rounds the exact rational, ties to even. pandas rounds a binary double, so at an exact decimal tie the shown digit can differ.
- Text.Lower: lower-cases ASCII letters only. Python's `str.lower` also maps other scripts.
- Signup.ParseInt does not accept surrounding whitespace, `_` between digits or non-ASCII digits, which Python's `int` does accept. Ids never contain them.
- Signup.SignUpByNumber reads every id as a number and fails on the first one that is not. The code as written reads only the latest id, so with ids `ADMIN` and `UID005` it gives `UID006` where the corrected sign-up fails.
- Signup.SignUp: the failed insert of a taken id is the outcome `Failed(DuplicateId(id))`; the exception page and the rollback are not modelled. The insert also fails when the phone number is already registered (the column is unique); that failure is not modelled, since phone numbers are not part of the model.
- Signup.StrLess: the database's collation is taken to be plain character order.
- Tally.ValueCounts fixes the order of equal counts as order of first appearance. pandas leaves that order open, and `Tally.TalliesAgreeUpToTies` shows that nothing else depends on it.

## Findings

| source | as written | input that shows it | evidently intended | confidence | as-written member | corrected member |
|---|---|---|---|---|---|---|
| app.py:111-136 | the latest user is the greatest id in text order, and the next id is one more than its number | ids `UID999` and `UID1000`: `UID999` sorts last, so the next id is `UID1000`, which is taken and the insert fails | one more than the greatest number in use | not executed | Signup.SignUpFailsAfterThousand | Signup.SignUpByNumberGivesFreshId |
| app.py:288-291 | the answers become a table whose columns are the record's keys, then `df['question1']` is read | no stored answer: the table has no columns and the lookup raises `KeyError` | a dashboard of eleven empty charts with zero responses | not executed | Dashboard.AdminDashboard | Dashboard.ChartsOfNoRecords |

While every id in use holds a number from 0 to 999, the corrected id agrees with the code (`Signup.NextUserIdBelowThousand`, `Signup.SignUpsAgreeBelowThousand`). This bounds the numbers in the ids, not the number of users. `Signup.SignUp` models the code as written; `Signup.SignUpByNumber` is the corrected sign-up.
