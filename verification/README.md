# Study planner core, modelled in Dafny

The model covers the deterministic core of a study-planner assistant, made of three parts.

- **Rule-based weekly scheduler** (`PlannerTool.create_schedule`, module `Planner`).
  - A student profile's priorities are normalised into weights.
  - Each weight becomes an allocation of hours, with a half-hour floor.
  - Each allocation is cut into blocks of about an hour and a half. Block start times run round-robin from 09:00.
  - Every day of the week gets the same block list.
  - When a memory bank is attached, the schedule is also appended to the user's history.
- **Agent memory** (`SessionMemory` and `MemoryBank`, module `Memory`).
  - A per-session key/value store.
  - An append-only, per-user history of time-stamped records.
- **Text helpers of the web front end** (`app.py`).
  - `Sanitize`: `sanitize_text`, which deletes tag-like markup, escapes stray angle brackets and strips whitespace.
  - `MarkdownHtml`: `convert_markdown_table_to_html`, which turns the plan's markdown tables, headings, list items and paragraphs into HTML.
  - `PlanSplit`: `pretty_split_plan`, which cuts the plan into weekly, daily and tips sections.
  - `Timetable`: the row list of `generate_smart_timetable`, 21 day and slot rows handing out subjects round-robin.
  - `Dashboard`: the dashboard's table parser, which sums the study hours per subject out of the plan's markdown table, with a fixed fallback.

Supporting modules:
- `Common`: options, sums of reals, slicing.
- `Rounding`: Python's `round`, half to even, on exact reals.
- `Text`: `strip`, `split`, `splitlines`, `find`, `lower`, `replace`.
- `Dicts`: insertion-ordered dictionaries as a key list plus a map.
- `Clock`: `HH:MM` times as minutes since midnight.

Every operation is a pure function. A method with a loop is given where the source iterates:
- `MarkdownHtml.ConvertMarkdownTableToHtml`
- `Timetable.BuildRows` and `Timetable.BuildDay`, the two nested loops that `Timetable.GenerateSmartTimetable` runs
- `Dashboard.ParseDashboardHours`

Each of these methods is proved equal to its functional definition.

Side effects the program gets from its environment are parameters:
- The clock: `now`, an ISO time stamp.
- The calendar helper `week_days()`: the list `days`.
- The optional memory bank: an `Option`.

Some behaviour of the code is easy to miss, and the model follows the code there:
- There is no profile validation. An empty subject list gives an empty day plan rather than an error. Negative priorities and hours are accepted.
- When the raw priorities sum to zero or less, the code divides by the number of subjects instead of falling back to uniform weights. With all-zero priorities every weight is 0; see `Planner.AllZeroPrioritiesGiveZeroWeights`.
- The history key is `"anon"` only when the profile has no `name` entry. An empty name is kept.
- A repeated subject collapses into one dictionary entry, not one allocation per occurrence.
- Each distinct subject appears every day, in first-occurrence order. A duplicated name does not get a block list per occurrence.
- Every subject's first block starts at 09:00, because the block index restarts at 0 for each subject. On a day with more than one subject the subjects' blocks overlap in time; see `Planner.EverySubjectStartsAtNine`.
- A list line made only of dashes, pipes and whitespace after `- ` (such as `- -`) matches the separator pattern and is dropped rather than shown as an item; see `MarkdownHtml.ListItemLine`.

## Model

| member | source | states |
|---|---|---|
| Memory.NewSession | agent/memory.py:8-10 | a new session store holds no key and records its creation time |
| Memory.Get | agent/memory.py:15-16 | `get` returns the stored value, or the default when the key is absent |
| Memory.Set | agent/memory.py:12-13 | after `set` the key reads as the new value; every other key and the creation time are unchanged |
| Memory.Delete | agent/memory.py:18-20 | after `delete` the key is absent and every other key is unchanged; deleting an absent key changes nothing |
| Memory.SetOverwrites | agent/memory.py:12-13 | a second `set` on a key overrides the first |
| Memory.ReplayIsLastWrite | agent/memory.py:12-20 | after any sequence of `set`/`delete` calls, each key holds what the last call touching it left (or its earlier value) |
| Memory.ReplayKeepsCreation | agent/memory.py:10-20 | no `set` or `delete` changes the creation time |
| Memory.NewMemoryBank | agent/memory.py:26-27 | a new bank has an empty history for every user |
| Memory.Add | agent/memory.py:29-30 | `add` appends one entry (time stamp, record) to that user's history; every other history is untouched |
| Memory.PerformBank | agent/memory.py:29-33 | `query` returns the user's history and leaves the bank unchanged; `add` is the append |
| Memory.RunBankHistory | agent/memory.py:29-33 | after any calls, a user's history is the earlier history followed by the records added for that user, in call order |
| Memory.QueryFromNewBank | agent/memory.py:26-33 | from a new bank, `query` returns exactly the entries added for that user, in call order, and `[]` for a user never added to |
| Memory.HistoryOnlyGrows | agent/memory.py:29-33 | no call removes or reorders a user's earlier entries |
| Memory.QueryCreatesNoBucket | agent/memory.py:32-33 | `query` never creates a bucket for a user; only `add` does |
| Rounding.RoundHalfEven | agent/tools.py:32 | `round(x)` is within one half of `x`, and on a tie it is even |
| Rounding.RoundHalfEvenNearest | agent/tools.py:32 | any integer strictly closer than one half to `x` is `round(x)` |
| Rounding.RoundTo | agent/tools.py:25 | `round(x, n)` is within half a unit of the n-th decimal of `x` |
| Rounding.Round1 | agent/tools.py:25 | `round(x, 1)` is a whole number of tenths within 0.05 of `x`, an even number of tenths when `x` lies halfway |
| Rounding.Round2 | agent/tools.py:36 | `round(x, 2)` is a whole number of hundredths within 0.005 of `x`, an even number of hundredths when `x` lies halfway |
| Planner.HistoryKey | agent/tools.py:40 | the history key is the `name` entry, and `"anon"` only when there is none |
| Planner.RawWeights | agent/tools.py:20 | one raw weight per subject position: the subject's priority when it has one, otherwise 1/N |
| Planner.Divisor | agent/tools.py:21 | the divisor is the raw sum or the number of subjects, never below the raw sum, and positive whenever there are subjects |
| Planner.Weights | agent/tools.py:20-22 | one weight per subject position, each being its raw weight divided by the one common divisor |
| Planner.WeightsProportional | agent/tools.py:20-22 | with a positive raw sum, each weight is its raw weight's share of that sum |
| Planner.MissingPriorityDefault | agent/tools.py:20 | a subject without a priority gets the raw weight 1/N |
| Planner.WeightsSumToOne | agent/tools.py:20-22 | with a positive raw sum the normalised weights sum to exactly 1 |
| Planner.NonPositiveSumDividesByCount | agent/tools.py:21-22 | with a raw sum of zero or less, each weight is its raw weight divided by N |
| Planner.AllZeroPrioritiesGiveZeroWeights | agent/tools.py:20-22 | when every priority is 0, every weight is 0 and they sum to 0, not 1 |
| Planner.SameSubjectSameWeight | agent/tools.py:20-22 | two positions holding the same subject carry the same weight |
| Planner.AllocatedHours | agent/tools.py:25 | `max(0.5, round(w*h, 1))` is at least 0.5 hours and within 0.05 of `max(0.5, w*h)` for every input; within 0.05 of `w*h` from 0.55 up, and exactly 0.5 below 0.55 |
| Planner.AllocatedHoursInTenths | agent/tools.py:25 | every allocation is a whole number of tenths of an hour |
| Planner.HoursPerSubject | agent/tools.py:25 | one entry per distinct subject, in first-occurrence order, each at least the floor |
| Planner.HoursOfEveryOccurrence | agent/tools.py:25 | a repeated subject's single entry equals the allocation at each of its positions |
| Planner.ProfileHours | agent/tools.py:16-25 | the profile's hours table is keyed by its distinct subjects, every value at least the floor |
| Planner.FloorCanExceedBudget | agent/tools.py:25 | the half-hour floor can make the allocations sum to more than `weekly_hours` (1.0 + 0.5 + 0.5 for a 1-hour budget) |
| Planner.SingleSubjectHours | agent/tools.py:16-25 | one subject, no priorities and 10 weekly hours: the subject gets weight 1 and all 10 hours |
| Planner.BlockCount | agent/tools.py:32 | a subject has at least one block, exactly one up to 0.75 hours, and from 0.75 hours up the 1.5-hour blocks cover its hours to within 0.75 |
| Planner.StartMinutes | agent/tools.py:34 | block `bi` starts on the hour, between 09:00 and 16:00 |
| Planner.StartsRepeat | agent/tools.py:34 | start times repeat with period 8 |
| Planner.DurationMinutes | agent/tools.py:35 | a block lasts between 30 and 120 minutes |
| Planner.DurationExact | agent/tools.py:25-35 | for an allocation from line 25, `min(2, hrs)` hours is a whole number of minutes, so nothing is truncated |
| Planner.MakeBlock | agent/tools.py:33-36 | a block carries its subject and hours within 0.005 of the allocation divided by the block count |
| Planner.MakeBlockTiming | agent/tools.py:34-36 | a block's `start` and `end` read back as its slot's start and that start plus its duration, and it is well timed |
| Planner.SubjectBlocks | agent/tools.py:32-36 | a subject gets `BlockCount(hrs)` blocks, all for that subject |
| Planner.SubjectBlockTiming | agent/tools.py:33-36 | block `bi` of a subject starts in slot `bi mod 8`, lasts `min(2, hrs)` hours and ends by 18:00 |
| Planner.SubjectBlockHours | agent/tools.py:36 | each block's `hours` is within 0.005 of the allocation divided by the block count |
| Planner.SubjectBlockPeriod | agent/tools.py:34 | blocks `bi` and `bi + 8` of a subject start at the same time |
| Planner.TenHourBlocks | agent/tools.py:32-36 | ten hours make seven blocks of 1.43 hours, the first from 09:00 to 11:00 |
| Planner.BlocksForWellTimed | agent/tools.py:30-36 | every block of a day is well timed |
| Planner.BlocksForSubjects | agent/tools.py:30-36 | a day's subjects, each taken once, are the hours table's keys in order, and each subject's blocks stand together with no other subject between them |
| Planner.DayBlocks | agent/tools.py:29-36 | a day's block list names each subject of the hours table once in key order, keeps each subject's blocks together, and holds only well-timed blocks |
| Planner.DayBlocksRuns | agent/tools.py:29-36 | on a day, the blocks of each subject `k` are exactly `SubjectBlocks(k, hours[k])`: `max(1, round(hrs/1.5))` blocks of `round(hrs/blocks, 2)` hours, with the block index counting from 0 for every subject |
| Planner.BlocksForOfSubject | agent/tools.py:30-36 | in the blocks built for distinct keys, a listed subject's blocks are exactly its own block list and an unlisted subject has none |
| Planner.EverySubjectStartsAtNine | agent/tools.py:33-34 | every subject's first block of the day starts at 09:00 |
| Planner.BlockSubjects | agent/tools.py:36 | the subject of each block, position by position |
| Planner.BuildSchedule | agent/tools.py:28-37 | the schedule has one entry per distinct day name, each holding the given day blocks |
| Planner.CreateSchedule | agent/tools.py:14-43 | every day gets the day blocks of the profile's hours; with a memory bank, exactly one record holding the schedule is appended to the user's history and no other history changes; without one nothing is recorded |
| Planner.EveryDayIdentical | agent/tools.py:28-37 | any two days of the week get the identical block list |
| Planner.NoSubjectsNoBlocks | agent/tools.py:16-37 | with no subjects every day's block list is empty, not an error |
| Planner.ScheduleWellTimed | agent/tools.py:28-37 | every block of every day starts on the hour from 09:00 to 16:00, lasts 30 to 120 minutes and ends by 18:00 |
| Planner.DaySubjectsFollowProfile | agent/tools.py:25-37 | each day lists exactly the profile's distinct subjects, in first-occurrence order, each subject's blocks together |
| Clock.TwoDigits | agent/tools.py:36 | `%02d` writes a number below 100 as two digits that read back as it |
| Clock.FormatClock | agent/tools.py:36 | `strftime("%H:%M")` of a time of day reads back as that time |
| Clock.ParseThenFormat | agent/tools.py:36 | every text that reads as a time is the formatting of that time |
| Sanitize.TagEnd | app.py:62 | a tag match ends at the first `>` after its second character |
| Sanitize.StripTags | app.py:62 | deleting tags keeps only characters of the input and never lengthens it |
| Sanitize.StripTagsKeepsPlainPrefix | app.py:62 | text before the first `<` is kept unchanged in front of the rest's result |
| Sanitize.StripTagsPlainHead | app.py:62 | a first character other than `<` is kept |
| Sanitize.StripTagsKeepsLetterTag | app.py:62 | a `<` followed by a letter or `/` is kept, and the scan resumes right after it |
| Sanitize.StripTagsDeletesTag | app.py:62 | `<`, a character neither a letter nor `/`, text without `>`, then `>`: that whole piece is deleted and the scan resumes after it |
| Sanitize.StripTagsLeavesNoTag | app.py:62 | no match of the tag pattern remains after the deletion |
| Sanitize.StripTagsFixesTagFree | app.py:62 | text without a tag match is left unchanged |
| Sanitize.StripTagsIdempotent | app.py:62 | deleting tags twice is the same as once |
| Sanitize.ReplaceAllRemovesPair | app.py:63 | replacing `< ` by `&lt; ` leaves no `<` followed by a space |
| Sanitize.ReplaceAllKeepsNoPair | app.py:63 | replacing ` >` by ` &gt;` does not bring back a `<` followed by a space |
| Sanitize.StripKeepsNoPair | app.py:64 | stripping whitespace brings back no such pair |
| Sanitize.SanitizeText | app.py:60-64 | the result has no leading or trailing whitespace, no `<` followed by a space nor a space followed by `>`, and no tag match: no `<` followed by a character other than a letter or `/` with a `>` later on |
| Sanitize.ReplaceAllKeepsNoTag | app.py:63 | replacing `< ` or ` >` by an escape that holds no `<` or `>` leaves no tag match behind in a text that had none |
| Sanitize.StripKeepsNoTag | app.py:64 | stripping whitespace leaves no tag match behind in a text that had none |
| Sanitize.SanitizeKeepsPlainText | app.py:60-64 | text without angle brackets or surrounding whitespace comes back unchanged |
| MarkdownHtml.RenderAppend | app.py:71-100 | the HTML of consecutive pieces is the concatenation of their HTML |
| MarkdownHtml.RowCells | app.py:79 | a pipe row has one cell per pair of neighbouring pipes; each cell is stripped and holds no pipe |
| MarkdownHtml.RowCellAt | app.py:79 | cell `k` is the stripped piece after the `k`-th pipe |
| MarkdownHtml.RowCellsOfJoin | app.py:78-79 | stripped, pipe-free cells written between pipes are read back exactly |
| MarkdownHtml.Block | app.py:91-98 | a non-blank line outside a table gives exactly one heading, item or paragraph; a blank line gives nothing (the HTML of each case is stated by the four line lemmas below) |
| MarkdownHtml.Heading3Line | app.py:87-92 | a line whose stripped text is `### x` gives `<h3>x</h3>`, preceded by `</tbody></table><br>` when a table was open |
| MarkdownHtml.Heading2Line | app.py:87-94 | a line whose stripped text is `## x` gives `<h2>x</h2>`, after closing an open table |
| MarkdownHtml.ListItemLine | app.py:76-96 | a line `- x` gives `<li>x</li>` after closing an open table, except that a line of only dashes, pipes and whitespace is a separator row and gives nothing |
| MarkdownHtml.ParagraphLine | app.py:87-98 | any other non-blank line that is not a table row gives `<p>t</p>` of its stripped text, after closing an open table |
| MarkdownHtml.Classify | app.py:74-79 | a whitespace-only line is blank; other text is kept stripped; a pipe row's cells hold no pipe |
| MarkdownHtml.ConvertMarkdown | app.py:66-101 | empty input gives empty output; otherwise the HTML renders pieces whose tables are balanced and that hold one content piece per non-blank, non-separator line |
| MarkdownHtml.ConvertMarkdownTableToHtml | app.py:66-101 | the loop's output is the rendering of the line-by-line translation; empty input gives empty output |
| MarkdownHtml.ConvertNested | app.py:80-100 | tables are properly nested: a header opens one, rows occur only inside, headings, items and paragraphs only outside, and none is left open |
| MarkdownHtml.EveryContentLineRendered | app.py:73-98 | every non-blank, non-separator line yields exactly one header, row, heading, item or paragraph; other lines yield none |
| MarkdownHtml.SeparatorIgnored | app.py:76-77 | inserting a separator row anywhere changes nothing |
| MarkdownHtml.BlankLine | app.py:87-98 | a blank line closes an open table (with a line break) and otherwise adds nothing |
| MarkdownHtml.ClassifyBlank | app.py:74-76 | a line of only whitespace is blank |
| MarkdownHtml.ClassifyUnpadded | app.py:74-78 | a line without surrounding whitespace is a separator, a pipe row or other text by its own characters |
| MarkdownHtml.SmallTable | app.py:76-100 | a header, a separator and a body row give one complete table |
| MarkdownHtml.SeparatorExample | app.py:76 | `|---|---|` is a separator row |
| PlanSplit.ThreeGroups | app.py:126-130 | the three line groups reassemble the lines in order; the first is non-empty when there are lines; with `n >= 3` lines the first has `n // 3` lines and the others `n // 3` or one more |
| PlanSplit.KeywordSplit | app.py:112-123 | cutting at a found keyword makes the weekly section a prefix and the tips section a suffix of the plan; a missing keyword leaves its section empty |
| PlanSplit.SplitPlan | app.py:103-134 | an empty plan gives three empty sections; when a keyword is found, the weekly section is a prefix and the tips section a suffix of the plan |
| PlanSplit.EmptyPlanSections | app.py:105-106 | an empty plan gives three empty sections |
| PlanSplit.KeywordSplitReassembles | app.py:109-123 | when one keyword is found, or both with `daily` first, the sections concatenate back to the plan |
| PlanSplit.KeywordPiecesJoin | app.py:113-123 | cutting at the found positions, `daily` not after `tips`, gives three consecutive pieces of the plan |
| PlanSplit.TipsBeforeDaily | app.py:112-115 | when `tips` precedes `daily`, the daily section is empty and the weekly and tips sections overlap |
| PlanSplit.TipsBeforeDailyExample | app.py:112-115 | `"Tips, then daily"` gives weekly `"Tips, then "`, daily empty, tips the whole plan |
| PlanSplit.FallbackReassembles | app.py:124-133 | without either keyword, a plan of three or more lines whose only line break is `\n` is its three sections joined by `\n` |
| PlanSplit.WeeklyHasNoDaily | app.py:110-123 | when a keyword is found, the weekly section holds no `daily` in any letter case |
| PlanSplit.DailyStartsWithKeyword | app.py:110-119 | a non-empty daily section from a found `daily` starts with that word |
| PlanSplit.TipsStartsWithKeyword | app.py:111-123 | the tips section from a found `tips` starts with that word |
| Timetable.SubjectsOrDefault | app.py:161-162 | the subject list is never empty; a non-empty list is kept |
| Timetable.WeightTable | app.py:163 | one weight `1 + 0.1 * progress` per distinct subject, in first-occurrence order |
| Timetable.TotalWeight | app.py:164 | the weight total, with 1 in place of a zero total, so it is never zero |
| Timetable.SubjectHours | app.py:165 | one entry per distinct subject, each within 0.005 of its proportional share of the weekly hours |
| Timetable.SlotHours | app.py:171 | a listed subject's slot gets a third of its hours to within 0.005; an unlisted one the weekly hours over 21 to within 0.01 |
| Timetable.RowAt | app.py:168-172 | every row names a day, a slot and one of the subjects, and a listed subject's row carries a third of its hours to within 0.005 |
| Timetable.Repeat | app.py:167 | `list(subjects) * 10` has ten times the length |
| Timetable.RepeatAt | app.py:167-171 | position `i` of the repeated list is subject `i mod N` |
| Timetable.GenerateSmartTimetable | app.py:158-178 | 21 rows, row `3d + s` being day `d`, slot `s`, subject `k mod N` with its slot hours; the subject hours and summary as computed |
| Timetable.BuildRows | app.py:166-174 | the nested loops produce the 21 rows in closed form |
| Timetable.BuildDay | app.py:170-174 | the inner loop over the three slots extends the rows of the earlier days by the three rows of day `d` |
| Timetable.EachDaySlotOnce | app.py:169-173 | every (day, slot) pair has exactly one row |
| Timetable.RoundRobin | app.py:167-173 | rows `k` and `k + N` have the same subject and hours |
| Timetable.EverySubjectScheduled | app.py:167-173 | with at most 21 subjects, every subject gets a row |
| Timetable.SlotHoursAreThirds | app.py:165-172 | every row's subject has an entry, so a slot's hours are within 0.005 of a third of that subject's hours; the fallback branch never runs |
| Timetable.Shares | app.py:165 | the unrounded shares are the weights over their total, times the weekly hours |
| Timetable.SharesSumToWeekly | app.py:163-165 | with a nonzero weight sum, the unrounded shares add up to the weekly hours |
| Timetable.WeightsPositive | app.py:163-164 | with non-negative progress the weights sum to at least 1, so the `or 1` never applies |
| Timetable.UnitWeightsTotal | app.py:163-164 | without progress the total weight is the number of distinct subjects |
| Timetable.NoProgressEqualSplit | app.py:163-165 | without progress every subject gets the weekly hours over the number of distinct subjects, to within 0.005 |
| Timetable.EmptySubjectsGeneral | app.py:161-173 | with no subjects every row is `General`, whose hours are the weekly hours to within 0.005 |
| Dashboard.FallbackHours | app.py:375-377 | the fallback is Math, DBMS and AI with 6 hours each |
| Dashboard.NonBlankStripped | app.py:354 | blank parts are dropped and the rest stripped, so no cell is empty |
| Dashboard.NonBlankStrippedKeepsAll | app.py:354 | when no part is blank, every part is kept, stripped, in order |
| Dashboard.DigitsValueConcat | app.py:370 | digits after other digits shift them left by one decimal place each |
| Dashboard.PointSplit | app.py:365 | a numeral is its whole digits, its single point if any, and its fraction digits |
| Dashboard.DigitsAroundPoint | app.py:365 | the text before and after the first point of a numeral is digits, and together it is the numeral with that point removed |
| Dashboard.NumeralChars | app.py:365 | a numeral has only digits and at most one `.` |
| Dashboard.ParseFloat | app.py:370 | the hours read from a numeral are non-negative |
| Dashboard.ParseFloatDecimal | app.py:370 | the value read is the whole part plus the fraction digits over 10 to the number of fraction digits |
| Dashboard.ParseWholeNumber | app.py:370 | a numeral without a point is read as the integer its digits spell |
| Dashboard.ParseFloatExample | app.py:370 | `float("2.5")` is 2.5 |
| Dashboard.ParseRow | app.py:347-370 | a line counts only if it has a pipe, and then its subject is non-empty and its hours are non-negative |
| Dashboard.NonNumericThirdCellSkipped | app.py:365-366 | a row whose third cell holds a character other than a digit or `.` is skipped |
| Dashboard.TableLineCells | app.py:354 | `| a | b | c |` splits into the cells `a`, `b`, `c` |
| Dashboard.DataRowRead | app.py:354-370 | a three-cell row with a numeral third cell gives that subject and hours |
| Dashboard.HeaderRowSkipped | app.py:357-366 | a header row such as `| Day | Subject | Hours |` is skipped |
| Dashboard.EntriesEmpty | app.py:347-370 | there are no entries exactly when no line counts |
| Dashboard.EntriesPrefix | app.py:347-370 | one more line adds its entry, if any, at the end |
| Dashboard.EntriesContain | app.py:347-370 | the entry of every line that counts is among the entries |
| Dashboard.TotalsSnoc | app.py:372 | one more entry adds its hours to its subject |
| Dashboard.TotalsStep | app.py:372 | adding one entry keeps the totals keyed by the subjects seen, in first-seen order, each holding the sum of its hours |
| Dashboard.TotalsAreSums | app.py:345-372 | the totals hold each subject seen, once, in first-seen order, with the sum of all its rows' hours |
| Dashboard.FallbackWhenNoRow | app.py:375-377 | when no line counts, the fallback is shown |
| Dashboard.TotalsWhenSomeRow | app.py:345-377 | when some line counts, the sums are shown and include that line's subject |
| Dashboard.EmptyPlanFallback | app.py:289-291 | the empty plan text left by a failed request does not stop the parser; it gives the fallback |
| Dashboard.EntriesNonNegative | app.py:347-370 | every counted row has non-negative hours |
| Dashboard.TotalsNonNegative | app.py:372 | summing non-negative hours gives non-negative totals |
| Dashboard.DashboardHours | app.py:345-377 | the dashboard always charts at least one subject, and no subject with negative hours |
| Dashboard.ParseDashboardHours | app.py:345-377 | the loop computes the per-subject sums, or the fallback when there are none |
| Dashboard.AccumulateHours | app.py:347-372 | the loop's dictionary is the totals of the lines' entries |
| Dicts.DedupFirstOccurrenceOrder | app.py:163 | deduplication keeps first occurrences in their order, as a dict comprehension's keys do |
| Dicts.FromPairsLastWins | agent/tools.py:25 | in a dict built from pairs, a repeated key holds its last pair's value |
| Text.Strip | app.py:64 | `strip()` cuts a piece of the text whose removed prefix and suffix are all whitespace, and the piece neither starts nor ends with whitespace |
| Text.SplitLinesJoin | app.py:126-133 | the lines of text whose only line break is `\n`, joined with `\n` (plus a final `\n` if the text ended with one), are the text |
| Text.SplitLinesHaveNoBreaks | app.py:347 | no line of `splitlines` holds a line break character |
| Text.SplitJoin | app.py:354 | splitting pieces without the separator, joined by it, gives the pieces back |
| Text.JoinSplit | app.py:354 | joining the pieces of a split with the separator gives the text back |
| Text.RemoveFirstAt | app.py:365 | `replace(".", "", 1)` deletes exactly the first point |

## Left out

- The Streamlit user interface is not modelled: page layout, CSS, plan cards, PDF export, charts, `st.info`/`st.warning` messages. It is presentation only.
- The pandas `DataFrame` and `pivot` of `generate_smart_timetable` are not modelled. They only reshape the 21 rows, which are modelled.
- `agent/main_agent.py` (the OpenAI-backed agent), `agent/observability.py` (logging) and `agent.utils` are not part of this model. They are foreign calls, and logging has no effect on results.
- `week_days()` and `datetime.utcnow()` become the parameters `days` and `now`. They read the environment.
- Floating point is not modelled: sums, quotients and `round` work on exact reals. Results can differ from the program's doubles in the last bits, and on ties that binary floats do not represent exactly.
- Rounding.RoundTo: for a general number of digits only the distance bound is stated. The whole-step and tie-to-even rules are stated for `Round1` and `Round2`, the two precisions the program uses.
- The dashboard input is modelled as a string. When no plan has been generated, `last_plan_raw` is `None` (app.py:27, app.py:246); the `if not raw:` branch at app.py:339 does not return, so the program fails at `raw.splitlines()` (app.py:347). That crash is not modelled.
- `str.lower` and `str.isdigit` are modelled on ASCII only: non-ASCII capitals are not lowered and non-ASCII digits do not count as digits. `str.strip` and `str.splitlines` use Python's full sets of whitespace and line-break characters.
- Timetable.GenerateSmartTimetable: the `deadline` and `intensity` arguments are not modelled, because the code never reads them.
- Timetable.EverySubjectScheduled: requires at most 21 subjects, because with more, the subjects beyond the 21st get no row.
- Planner.WeightsSumToOne: requires a positive raw sum. Otherwise the weights need not sum to 1, as `Planner.AllZeroPrioritiesGiveZeroWeights` shows.
- PlanSplit.WeeklyHasNoDaily: only covers the case where a keyword is found. In the line fallback there is no `daily` anywhere, so the statement is immediate there.
- The `deadlines` entry of the profile is not modelled. The scheduler never reads it.
- `SessionMemory` and `MemoryBank` are mutable objects in the program. Here each call returns a new value, and sequences of calls are replayed with `ReplaySession` and `RunBank`.
