# Message triage for a customer-service dashboard

The dashboard sorts incoming customer messages for a small lending business. The
model covers its decision logic in two variants.

**Display classifier** (`utils.py`):
- it scores each message for urgency against a weighted keyword table, with a boost
  for access problems;
- it maps the score to a priority tier (low / medium / high);
- it assigns a category by first-match over ordered keyword lists;
- it extracts phone numbers, amounts and dates with fixed regular expressions;
- it filters the message table;
- it renders elapsed time and badge colours.

**Import variant** (`database.py`, inside `init_database`):
- it has its own, smaller keyword table;
- its tiers are low / normal / high;
- its category chain is an `if`/`elif` chain;
- it skips rows without a user id;
- it derives sample customer profiles from the first twenty distinct user ids.

Modules:

- `Wrappers`: `Option`.
- `Text`: ASCII lower-casing, `in` on strings, and decimal text (`str(n)`, `zfill`, and
  reading digits back).
- `Records`: the stored entities (`CustomerMessage`, `CustomerProfile`) and the
  priority, category, status and repayment labels.
- `Keywords`: the two shapes both classifiers are built from, with their general
  properties:
  - a weighted keyword table, scored by presence;
  - an ordered rule list, decided by the first rule that fires.
- `Urgency`: `calculate_urgency_score` and `categorize_message`, as loops proved against
  the table and rule functions.
- `Patterns`: each regular expression of `extract_customer_info` as a deterministic
  scanner, plus `re.findall` (leftmost, non-overlapping, returning the capture group
  when there is one). Each pattern is deterministic under greedy matching: when a
  greedy run is cut short, the next character is of the wrong class, so backtracking
  can never produce a different match. This is why each scanner only needs the longest
  run.
- `Extraction`: `extract_customer_info` as a method:
  - phones: the first phone pattern with a match wins;
  - amounts: matches from every pattern are joined, on the lower-cased text;
  - dates: matches from every pattern are joined.
- `Dashboard`: `filter_messages`, `format_timestamp`, `get_priority_color` and
  `get_status_color`.
- `Ingestion`: the per-row loop and the profile loop of `init_database`.

Where the two variants differ, the model keeps both:
- both mid-tier labels, `medium` and `normal`, are kept as they are in the code, and
  both have colours in `get_priority_color`;
- there are two tables, two rule lists and two sets of thresholds.

Points where the code does something easily overlooked, modelled as written:
- `'CRB'` is an upper-case keyword tested against lower-cased text, so it never
  scores. It also never decides a category in the import chain.
- The `Ksh` amount pattern is run on `message.lower()`, so it never matches.
- The body column is converted with `astype(str)` before the missing-value test. With
  a pandas version whose `astype(str)` turns a missing value into the text `"nan"`, a
  row with an empty body is imported with the body `"nan"`; the model follows that
  behaviour as written. Only a missing user id then skips a row.
- `"number"` appears both in the clearance list and in the account-update list of the
  import chain, so the account-update entry for it is never reached.
- `"clearance"` contains `"clear"`, which the payment test of the import chain checks
  first. So the clearance category is reached only through `"batch"` or `"number"`.

## Model

| member | source | states |
|---|---|---|
| Text.LowerIsLowered | utils.py:17 | a lower-cased message holds no upper-case letter |
| Text.LowerIdempotent | utils.py:167 | lower-casing a label twice is the same as once |
| Text.ContainedInLowered | utils.py:21 | any keyword found in a lower-cased text is itself lower-case |
| Text.UpperWordNeverInLowered | utils.py:11-21 | a keyword with an upper-case letter is never found in `message.lower()` |
| Text.NothingInEmpty | utils.py:21 | no non-empty keyword occurs in the empty message |
| Text.NatString | database.py:175 | `str(n)` of a natural number is a non-empty digit string; it is one digit exactly when n < 10; it starts with `0` only for n = 0 |
| Text.LeadingDigitPositive | database.py:175 | a digit string without a leading zero has a positive value |
| Text.NatStringCanonical | database.py:175-177 | every digit string without a leading zero that reads as n is `str(n)`: the rendering is the canonical one |
| Text.NatStringRoundTrip | database.py:175-177 | reading back the digits of `str(n)` gives n |
| Text.LeadingZeros | database.py:177 | zero padding from `zfill` does not change the number the digits denote |
| Keywords.TableScoreBounds | utils.py:18-22 | with non-negative weights, a table score lies between 0 and the sum of the weights |
| Keywords.TableScoreWithAbsentEntry | utils.py:20-22 | an absent keyword takes its weight off the largest reachable score |
| Keywords.TableScorePresenceOnly | utils.py:20-22 | the score depends only on which keywords are present, not on how often they occur |
| Keywords.TableScoreMonotone | utils.py:20-22 | holding every keyword another text holds scores at least as much; an extra positive-weight keyword scores strictly more |
| Keywords.TableScoreOfEmptyText | utils.py:18-22 | the empty text scores 0 |
| Keywords.FirstMatchSpec | utils.py:52-56 | the result is `other` exactly when no rule fires; otherwise it is the category of a firing rule with no firing rule before it |
| Keywords.FirstMatchAt | utils.py:52-54 | a firing rule with no earlier firing rule decides the category |
| Keywords.FirstMatchLabels | utils.py:52-56 | the result is `other` or the category of one of the rules |
| Urgency.PriorityFor | utils.py:28-34 | high iff score >= 12, medium iff 7 <= score < 12, low iff score < 7 |
| Urgency.CalculateUrgencyScore | utils.py:6-36 | the loop's score is the table score of the lower-cased message plus 3 when a boost phrase occurs; the priority is the tier of that score |
| Urgency.UrgencyTableWeights | utils.py:8-15 | every weight is non-negative and no keyword is empty |
| Urgency.CrbNeverScores | utils.py:11-21 | the `'CRB'` entry never adds points |
| Urgency.UrgencyScoreBounds | utils.py:8-26 | scores lie between 0 and the table total minus the `'CRB'` weight plus the boost |
| Urgency.EmptyMessageScore | utils.py:17-34 | the empty message scores 0 and is low priority |
| Urgency.UrgencyScorePresenceOnly | utils.py:20-26 | messages holding the same keywords and boost phrases score the same |
| Urgency.UrgencyScoreMonotone | utils.py:20-26 | adding keywords never lowers the score; adding a missing positive-weight keyword raises it |
| Urgency.PriorityMonotone | utils.py:29-34 | a higher score never gives a lower priority tier |
| Urgency.CategorizeMessage | utils.py:38-56 | the loop returns the category of the first rule (in the dictionary's order) whose keywords occur in the lower-cased message, else `other` |
| Urgency.CategorizeFirstMatch | utils.py:42-56 | `other` exactly when no category keyword occurs; otherwise a matching category with no earlier matching category |
| Urgency.CategorizeRange | utils.py:42-56 | only the seven listed categories and `other` are produced |
| Urgency.LoanKeywordWins | utils.py:43-54 | any loan keyword makes the message `loan_application`, whatever else it contains |
| Patterns.RunEndIsRun | utils.py:64-98 | the greedy run of a character class covers only characters of the class and ends at the first character outside it, or at the end of the text |
| Patterns.RunEndAt | utils.py:64-98 | a stretch of the class that stops at a character outside it, or at the end, is the run found |
| Patterns.RunEndCovers | utils.py:64-98 | any stretch of the class from the same start lies within the run found |
| Patterns.GroupedEnd | utils.py:77-80 | the greedy `\d+(?:,\d+)*` match is a grouped number and cannot be extended |
| Patterns.GroupedEndLongest | utils.py:77-80 | the greedy grouped-number run is the longest prefix from i that is a grouped number: no longer prefix is one |
| Patterns.AmountEnd | utils.py:79 | the greedy `\d+(?:,\d+)*(?:\.\d+)?` match is a grouped number with an optional fraction |
| Patterns.NoAmountPast | utils.py:79 | no prefix from i longer than the greedy amount match is an amount |
| Patterns.AmountEndLongest | utils.py:79 | the greedy amount match is the longest prefix from i that is an amount |
| Patterns.MatchPrefixedDigits | utils.py:64-66 | a phone pattern matches at i exactly when the prefix and the required number of digits follow |
| Patterns.MatchMarkerThenNumber | utils.py:77-79 | soundness: a match starts with the currency marker, and its group is a grouped number (with an optional fraction for `$`) |
| Patterns.MatchMarkerThenNumberSound | utils.py:77-79 | a match is a fitting split (marker, white space, number) whose number is the longest one after the white space |
| Patterns.MatchMarkerThenNumberComplete | utils.py:77-79 | whenever the text at i fits marker, white space and number, the scanner matches |
| Patterns.MatchMarkerThenNumberSpec | utils.py:77-79 | a match exists exactly when the text at i fits the pattern; the group is the longest number after the marker and its white space |
| Patterns.MatchNumberThenShillings | utils.py:80 | soundness: the group of a match is a grouped number, and the match ends right after a `ksh` or a `shillings` |
| Patterns.GroupedEndAt | utils.py:80 | a grouped number followed by neither a digit nor a comma is the greedy one |
| Patterns.ShillingsSplitIsGreedy | utils.py:80 | in any fitting split, the number is the greedy grouped number and the white space the maximal run |
| Patterns.MatchNumberThenShillingsSound | utils.py:80 | a match is a fitting split, its group is the longest grouped number at i, and it ends after `ksh` (w+3) when that follows the white space at w, otherwise after `shillings` (w+9) |
| Patterns.MatchNumberThenShillingsComplete | utils.py:80 | whenever the text at i fits number, white space, `ksh` or `shillings`, the scanner matches |
| Patterns.MatchNumberThenShillingsSpec | utils.py:80 | a match exists exactly when the text at i fits the pattern; the group is the longest grouped number at i; the match ends at w+3 after `ksh` or else at w+9 after `shillings`, where the scan resumes |
| Patterns.ShortNumberEnd | utils.py:91-93 | `\d{1,2}` takes one or two digits, and stops early only at the end of the text or at a non-digit |
| Patterns.MatchNumericDate | utils.py:91-92 | soundness: a match is d{1,2}, separator, d{1,2}, separator, d{4} |
| Patterns.MatchNumericDateComplete | utils.py:91-92 | any numeric date starting at i is exactly the match the scanner reports |
| Patterns.MatchNumericDateSpec | utils.py:91-92 | a match exists exactly when a numeric date starts at i, and it is the only one starting there |
| Patterns.MatchMonthDateSound | utils.py:93 | soundness: a match is day, white space, month name, lower-case letters, white space, four-digit year |
| Patterns.MonthDateRuns | utils.py:93 | in a month-name date, each greedy run the scanner takes ends where that part of the date ends |
| Patterns.MatchMonthDateComplete | utils.py:93 | any month-name date starting at i is exactly the match the scanner reports |
| Patterns.MatchMonthDateSpec | utils.py:93 | a match exists exactly when a month-name date starts at i, and it is the only one starting there |
| Patterns.MatchAt | utils.py:64-93 | soundness: every match is non-empty and lies in its pattern's language |
| Patterns.MatchAtSpec | utils.py:64-93 | for each of the ten patterns, the scanner matches at i exactly when the text at i fits the regular expression |
| Patterns.FindAllFromSound | utils.py:70 | everything `findall` reports lies in the pattern's language |
| Patterns.FindAllFromEmpty | utils.py:70-71 | `findall` is empty exactly when the pattern matches at no position |
| Patterns.FindAllSound | utils.py:70 | everything `findall` reports lies in the pattern's language |
| Patterns.FindAllEmpty | utils.py:70-71 | `findall` is empty exactly when the pattern matches at no position |
| Patterns.TitleKshNeverMatchesLowered | utils.py:77-85 | the case-sensitive `Ksh` pattern finds nothing in a lower-cased message |
| Patterns.FindAllOfEmpty | utils.py:70 | no pattern reports anything on the empty message |
| Patterns.FindAllFromLeftmost | utils.py:70 | the scan reports the leftmost match first, then resumes at its end |
| Patterns.FindAllEmptyIffNoFit | utils.py:70-71 | `findall` reports nothing exactly when the text fits the pattern at no position |
| Patterns.FindAllFirstFit | utils.py:70 | the first report of `findall` comes from the leftmost position where the text fits the pattern |
| Extraction.FirstNonEmptySpec | utils.py:69-73 | the short-circuit yields nothing exactly when every list is empty; otherwise it yields the first non-empty list |
| Extraction.FlattenSpec | utils.py:83-87 | joining yields nothing exactly when every list is empty, and yields nothing not in some list |
| Extraction.FirstFound | utils.py:69-73 | the phone loop returns the first non-empty pattern result, or nothing |
| Extraction.AllFound | utils.py:83-85 | the amount and date loops return every pattern's results joined in pattern order |
| Extraction.ExtractCustomerInfo | utils.py:58-102 | each key is present exactly when its matches are non-empty; phones are the first non-empty phone result; amounts (lower-cased text) and dates are all results joined in pattern order |
| Extraction.PhoneNumbersShortCircuit | utils.py:69-73 | no phones exactly when no phone pattern matches; otherwise all matches of the first pattern that matches |
| Extraction.PhoneNumbersWellFormed | utils.py:63-67 | each phone is `07`+8 digits, `+2547`+8 digits or `0`+9 digits |
| Extraction.AmountsWithoutTitleKsh | utils.py:76-87 | the amounts are what the other three patterns find; the `Ksh` pattern contributes nothing |
| Extraction.AmountsWellFormed | utils.py:76-87 | each amount is a grouped number with an optional fraction |
| Extraction.PhoneNumbersFoundIff | utils.py:63-73 | phone numbers are reported exactly when one of the three phone patterns fits somewhere in the message |
| Extraction.AmountsFoundIff | utils.py:76-88 | amounts are reported exactly when `ksh`, `$` or the shillings suffix pattern fits somewhere in the lower-cased message |
| Extraction.DatesFoundIff | utils.py:90-100 | dates are reported exactly when one of the three date patterns fits somewhere in the message |
| Extraction.KshAmountExample | utils.py:78 | on "ksh 5,000" the pattern reports the group "5,000", without the marker |
| Extraction.ShillingsAmountExample | utils.py:80 | `findall` of the shillings pattern on "12 ksh" is ["12"]: the scan resumes after `ksh`, so the `2` is not reported again |
| Extraction.DatesWellFormed | utils.py:90-100 | each date is a slash date, a dash date or a month-name date |
| Extraction.EmptyMessageExtractsNothing | utils.py:58-102 | the empty message yields no phones, amounts or dates |
| Dashboard.WhereAllSubsequence | utils.py:110-118 | boolean masking keeps an order-preserving sub-sequence of the rows |
| Dashboard.WhereAllMembers | utils.py:110-118 | a row is kept exactly when it is in the input and passes every criterion |
| Dashboard.WhereAfterWhereAll | utils.py:118-130 | one more mask after the earlier ones is one more conjunct |
| Dashboard.WhereAllNone | utils.py:110 | with no criterion every row is kept |
| Dashboard.FilterMessagesSpec | utils.py:104-132 | successive masks equal one mask with the conjunction of the active filters; the result is an order-preserving sub-sequence holding exactly the input rows that pass them |
| Dashboard.FilterMessagesDefaults | utils.py:104-108 | with the default arguments nothing is removed |
| Dashboard.WhereMembers | utils.py:118 | a row passes one mask exactly when it is in the input and satisfies it |
| Dashboard.FilterMessagesKeepsMatching | utils.py:112-130 | every kept row is an input row that satisfies each active filter |
| Dashboard.FormatTimestampBuckets | utils.py:134-157 | the bucket as a function of elapsed seconds: under a minute, minutes 1-59, hours 1-23, yesterday, days 2-6 (negative for future timestamps), and the calendar date from a week on |
| Dashboard.LabelTextReadsBack | utils.py:145-155 | the counted texts are a decimal count plus `m ago`, `h ago` or `d ago`, and the count is the elapsed minutes, hours or days |
| Dashboard.PriorityColorIgnoresCase | utils.py:159-167 | the colour does not depend on case, and is the default exactly for labels outside the four tiers |
| Dashboard.PriorityColorsOfTiers | utils.py:161-167 | every stored priority has its own non-default colour |
| Dashboard.StatusColorExact | utils.py:169-176 | only the three exact lower-case statuses have a colour (`Pending` gets the default) |
| Dashboard.StatusColorsOfStatuses | utils.py:171-176 | every stored status has its own non-default colour |
| Ingestion.IngestPriority | database.py:95-100 | high iff score >= 10, normal iff 5 <= score < 10, low iff score < 5 |
| Ingestion.IngestCategoryChain | database.py:102-113 | the `if`/`elif` chain equals first-match over the five ordered keyword lists |
| Ingestion.IngestMessages | database.py:83-123 | the loop yields one message per row with a user id, in row order, each scored, tiered and categorised by the import tables |
| Ingestion.IngestAllLength | database.py:84-86 | a row adds one message when it has a user id and none when it lacks one |
| Ingestion.IngestAllCount | database.py:84-86 | at most one message per row, and as many messages as rows exactly when every row has a user id |
| Ingestion.IngestAllConcat | database.py:84-123 | importing two batches in a row gives the first batch's messages followed by the second's |
| Ingestion.MissingBodyImported | database.py:72-86 | a row with an empty body cell is not skipped; its message body is `"nan"` (pandas' `astype(str)` rendering of a missing value, as written) |
| Ingestion.IngestedConsistent | database.py:76-123 | each message's score lies between 0 and the table total minus `'CRB'`; its priority is the tier of its score (never `medium`); its category is an import category; its status is `pending` and it has no agent |
| Ingestion.CrbIgnored | database.py:79-109 | `'CRB'` never scores; a `clearance` message contains "batch" or "number" (a body with "clearance" contains "clear" and is a payment) |
| Ingestion.ClearanceIsPayment | database.py:106-109 | a lower-cased body containing "clearance" contains "clear", so the payment branch takes it before the clearance branch |
| Ingestion.NumberNeverAccountUpdate | database.py:108-113 | a body containing "number" is never `account_update` |
| Ingestion.FirstIndex | database.py:170 | the index found holds the id and no earlier index does |
| Ingestion.FirstIndexAt | database.py:170 | a position holding an id with no earlier occurrence is its first index |
| Ingestion.UniqueSpec | database.py:170 | `unique` keeps each id once, loses none, and lists them in order of first appearance |
| Ingestion.ProfilesOf | database.py:172-185 | one profile per id, in order, each carrying its id |
| Ingestion.ProfilesOfAt | database.py:172-185 | the profile at each position is the one derived from the id at that position |
| Ingestion.CreateProfiles | database.py:169-185 | the profiles are those of the distinct ids in first-appearance order, cut to the first twenty: exactly min(20, number of distinct ids) of them |
| Ingestion.ProfilesDistinct | database.py:170-185 | at most twenty profiles, with distinct user ids, each of which occurs in the input |
| Ingestion.ProfilesFirstToAppear | database.py:170-185 | an id that first appears before a profiled id is profiled ahead of it, so the profiled ids are the first ones to appear |
| Ingestion.ProfileFields | database.py:178-183 | loan amount 5000, 10000 or 15000 exactly when the id is 0, 1 or 2 mod 3; repayment good, fair or poor exactly when the id is 0, 1 or 2-3 mod 4; 1-10 loans; 8000 repaid per loan; credit score 650-740, equal to 640 + 10 × loans |
| Ingestion.PaddedId | database.py:177 | `str(id).zfill(8)` of a non-negative id has at least eight digits that read back as the id, exactly eight below 10^8 |
| Ingestion.ProfilePhone | database.py:177 | for a non-negative id the phone (`PhoneFor`) is `07` followed by at least eight digits that read back as the id; it has ten characters for ids below 10^8 |
| Ingestion.NatStringLength | database.py:177 | ids below 10^8 have at most eight digits |

## Left out

- Unicode: lower-casing, `\d`, `\s` and `[a-z]` are modelled on ASCII only. Python's
  Unicode-aware `str.lower` and `re` classes also cover non-ASCII letters and digits.
- Patterns.FindAllFrom: `re.findall` is modelled only for the ten fixed patterns of
  `extract_customer_info`. There is no general regular-expression engine. Each
  pattern's language is written out as a predicate (`Fits`, `InLanguage`). The
  scanners are proved to match exactly where the text fits, to report the longest
  or the only match, and to end it where `findall` resumes. No backtracking matcher
  is modelled for comparison.
- Dashboard.FilterMessages: `str.contains` treats the search query as a regular
  expression. The model treats it as a literal case-insensitive substring. A query
  with regex metacharacters therefore differs.
- Dashboard.FilterMessages: pandas index labels of the kept rows are not modelled.
  Only the rows and their order are.
- Dashboard.FormatTimestamp: `datetime.now()` and `pd.to_datetime` are replaced by a
  parameter, the whole seconds elapsed, rounded down. Sub-second precision is not
  modelled.
- Dashboard.LabelText: the `strftime("%b %d, %Y")` rendering for timestamps a week or
  more old is a parameter.
- CSV reading, the SQLite engine and session, `session.add_all`, `commit`, the printed
  summary and the canned responses are I/O or fixed data.
- The auto-increment message id is assigned by the database, so it is not modelled.
- Ingestion.IngestMessages: `to_numeric` conversion of the user id, and its truncation
  by `int()`, are assumed done. A row's user id is either an integer or missing.
- Ingestion.IngestMessages: timestamps are opaque integers. An unparseable timestamp
  (`NaT`) is not modelled.
- Ingestion.CreateProfiles: profiles are built from integer ids, read from the raw
  `User ID` column. Three cases of that column are not modelled:
  - a missing or non-numeric id among the first twenty makes `int(user_id)` raise, which
    aborts the import (database.py:174);
  - a fractional id is truncated by `int()` in `user_id`, but not in the other fields;
  - one missing value anywhere in the column makes pandas store it as floats. Then the
    name, e-mail and phone print the id with `.0`, e.g. the phone `07000123.0`
    (database.py:175-177).
- A non-string message makes `.lower()` or `in` raise in the source. Every operation
  here takes a typed `string`, so such a call cannot be written.
- Scores, categories and extractions of particular example messages are mostly not
  evaluated. Only the empty-message cases and two amounts (`ksh 5,000` and `12 ksh`)
  are proved concretely. The rest follows from the general lemmas above.
