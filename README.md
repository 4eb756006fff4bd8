# wechat-rss-feed scripts, modelled in Dafny

The repository watches WeChat public accounts through an RSS feed, using four Python scripts. This project models their logic and proves properties of it.

- `scripts/process_biz.py` expands every account identifier ("biz") of `biz.txt` into all spellings that swap the look-alike symbols `0`, `O` and `o`. It writes the registry `processed_biz.json`.
- `scripts/check_updates.py` flattens that registry into a list of valid spellings. It loads the instant stored in `last_update.json`, creating the file on the first run. It reports an update when the newest feed entry is strictly later, and then stores that entry's instant.
- `scripts/article_parser.py` reads a publication time such as `2025年03月27日 15:34` and renders it as `%Y-%m-%d %H:%M:%S`.
- `scripts/process_issue.py` takes the text after the heading `## 原文内容` out of an issue body. It puts a summary in front of the body and relabels the issue.

Modules:

- `Text` (`text.dfy`) holds the Python string built-ins the scripts use: `strip()`, `find`, `in` and `replace(c, '')`.
- `Lists` (`lists.dfy`) holds `list(set)`.
- `Wrappers` (`wrappers.dfy`) holds `Option`.
- `Biz` (`biz.dfy`) models `process_biz.py`. It is imperative: methods with loops, proved against the reference function `AllVariants`.
  - When no line yields a key, the script writes a placeholder registry (scripts/process_biz.py:71-72); `Biz.ProcessBizFile` has that branch.
  - Every BOM in a line is deleted, after the line is stripped (scripts/process_biz.py:59); `Biz.CleanLine` does the same.
- `UpdateCheck` (`updatecheck.dfy`) models `check_updates.py`. The persisted file is the field of the class `UpdateTracker`. Its methods are proved against the pure decision `CheckOutcome`.
  - The script compares publication instants only (scripts/check_updates.py:81-89) and keeps no record of titles or links; neither does the model.
- `DateParse` (`dateparse.dfy`) models `article_parser.py` with pure functions.
- `IssueBody` (`issuebody.dfy`) models `process_issue.py` with pure functions.

## Model

| member | source | states |
|---|---|---|
| Text.Strip | scripts/process_biz.py:51 | `str.strip()` leaves no whitespace at either end of its result |
| Text.StripSlice | scripts/process_issue.py:24 | what `strip()` keeps is one contiguous slice of the input, and everything it drops on either side is whitespace |
| Text.StripTrimmed | scripts/article_parser.py:32 | a string with no whitespace at its ends is left unchanged by `strip()` |
| Text.StripIdempotent | scripts/process_biz.py:59 | stripping an already stripped line (the second `strip()` of the registry loop) changes nothing |
| Text.Find | scripts/process_issue.py:20 | `find` returns -1 exactly when the substring does not occur; otherwise it returns an occurrence with none before it |
| Text.RemoveChar | scripts/process_biz.py:59 | `replace('﻿', '')` leaves no BOM, keeps every other character, is the identity on BOM-free text and never lengthens |
| Text.RemoveCharSingle | scripts/process_biz.py:59 | a single character is deleted exactly when it is the BOM |
| Text.RemoveCharAppend | scripts/process_biz.py:59 | deleting from a concatenation is deleting from each part, so the kept characters stay in order and keep their multiplicity |
| Lists.ListOf | scripts/check_updates.py:17 | `list(set)` holds every element of the set exactly once |
| Biz.Alternatives | scripts/process_biz.py:25-33 | at a position holding one of `0`, `O`, `o`, the two symbols written are the other two members of the triple, distinct from it and from each other |
| Biz.ConfusablePositions | scripts/process_biz.py:15-18 | the positions collected are exactly the indices holding `0`, `O` or `o`, in increasing order |
| Biz.SubstituteStep | scripts/process_biz.py:24-33 | substituting a look-alike at an unhandled confusable position turns a spelling handled on `done` into one handled on `done + {pos}` |
| Biz.ExpandStep | scripts/process_biz.py:21-34 | after one round of the outer loop, the set holds exactly the spellings that may differ from the identifier at the positions handled so far |
| Biz.ValidateAndFixBiz | scripts/process_biz.py:5-36 | the returned list holds every spelling of `biz` (the reference product `AllVariants`), each exactly once; it has 3^k entries for k look-alike positions and contains `biz` itself |
| Biz.AllVariantsMembers | scripts/process_biz.py:5-36 | the reference product holds exactly the strings of the same length that agree with `biz` off its look-alike positions and hold one of `0`, `O`, `o` on them |
| Biz.AllVariantsCard | scripts/process_biz.py:21-34 | an identifier with k look-alike positions has exactly 3^k spellings |
| Biz.ExpansionClosed | scripts/process_biz.py:5-36 | expanding any returned spelling gives back the same set of spellings |
| Biz.NoConfusableExpandsToItself | scripts/process_biz.py:12 | an identifier without `0`, `O` or `o` expands to itself alone |
| Biz.ExampleAB0CD | scripts/process_biz.py:5-36 | `AB0CD` expands to exactly `AB0CD`, `ABOCD` and `ABoCD` |
| Biz.CleanLine | scripts/process_biz.py:59 | the key a line contributes holds no BOM |
| Biz.NonBlank | scripts/process_biz.py:51 | the comprehension keeps at most one entry per line, and every entry is non-empty with no whitespace at either end |
| Biz.NonBlankEmpty | scripts/process_biz.py:51-53 | the stripped line list is empty exactly when every line of the file is blank |
| Biz.NonBlankTrimmed | scripts/process_biz.py:51 | every kept line is non-empty and has no whitespace at either end |
| Biz.RegistryKeysComplete | scripts/process_biz.py:57-68 | every line whose stripped, BOM-free form is non-empty becomes a key |
| Biz.RegistryKeysSound | scripts/process_biz.py:57-68 | every key is the non-empty stripped, BOM-free form of some line |
| Biz.RegistryKeysOfLines | scripts/process_biz.py:51-61 | filtering the blank lines first and cleaning each kept line again yields exactly the keys of the raw lines |
| Biz.CollectKeysStep | scripts/process_biz.py:57-61 | one turn of the registry loop adds the key of its line, if that key is non-empty |
| Biz.AllValidPut | scripts/process_biz.py:68 | storing all spellings of a key keeps every entry of the registry complete |
| Biz.AddEntry | scripts/process_biz.py:58-68 | one turn of the loop adds the cleaned line as a key, unless it is empty; the entries under other keys are left as they were; every entry still lists all spellings of its key |
| Biz.CollectVariants | scripts/process_biz.py:56-69 | the loop builds one entry per non-empty cleaned line, each listing all spellings of its key exactly once |
| Biz.ProcessBizFile | scripts/process_biz.py:51-85 | blank file: `{}`; non-blank lines of which none leaves a key: the placeholder registry; otherwise the keys are exactly the cleaned non-empty lines and each maps to all its spellings |
| Biz.BomBeforeSpaceKeepsSpace | scripts/process_biz.py:59 | stripping runs before the BOM is deleted, so a BOM followed by a space leaves the space in the key |
| DateParse.Value | scripts/article_parser.py:13 | `int()` of n digits is below 10^n |
| DateParse.SpaceRun | scripts/article_parser.py:10 | the greedy `\s*` run from a position is all whitespace and is followed by a non-space or the end |
| DateParse.RunIsMaximal | scripts/article_parser.py:10 | since a digit follows `\s+`, the whitespace of any match is the whole greedy run |
| DateParse.MatchDate | scripts/article_parser.py:10-11 | `re.match` succeeds exactly when the pattern matches a prefix, and its groups are those of every match |
| DateParse.DaysInMonth | scripts/article_parser.py:16 | a month has 28 to 31 days |
| DateParse.ParseDatetime | scripts/article_parser.py:7-17 | the result is None exactly when nothing matches, and a failure exactly when the groups are not a real date or fall on a day `localize` cannot place (1 January of year 1, 31 December 9999); otherwise it is a valid time equal to the groups |
| DateParse.ExtractArticleInfo | scripts/article_parser.py:24-41 | the call fails exactly when `parse_datetime` raises on the stripped time text; the title is the stripped heading text; the time is present exactly when that text parses, and it is then the parsed time rendered as `%Y-%m-%d %H:%M:%S` |
| DateParse.Format | scripts/article_parser.py:37 | `strftime('%Y-%m-%d %H:%M:%S')` of a valid time is 19 characters: four digits reading back as the year, then two each for month, day, hour and minute, between `-`, `-`, ` `, `:`, `:`, and `00` for the seconds |
| DateParse.ValuePad2 | scripts/article_parser.py:37 | `%m`, `%d`, `%H`, `%M` write two digits that read back as the number |
| DateParse.ValuePad4 | scripts/article_parser.py:37 | `%Y` writes four digits that read back as the year |
| DateParse.PadValue2 | scripts/article_parser.py:37 | two ASCII digits, read and written back, are unchanged |
| DateParse.PadValue4 | scripts/article_parser.py:37 | four ASCII digits, read and written back, are unchanged |
| DateParse.FormatKeepsDigits | scripts/article_parser.py:37 | a matched time with ASCII digits renders as its own digit fields, re-punctuated, with `:00` seconds |
| DateParse.JoinMatches | scripts/article_parser.py:10 | digit fields of the right widths, laid out with a whitespace run, match the pattern, and each group is its field |
| DateParse.ParseJoin | scripts/article_parser.py:10-16 | such a text parses to the values of its fields, or fails when they are not a real date or fall on a day `localize` cannot place |
| DateParse.ParseLayout | scripts/article_parser.py:7-17 | every valid time, laid out as the page writes it, parses back to itself, except on the two days `localize` cannot place, where it fails |
| DateParse.TrailingIgnored | scripts/article_parser.py:11 | characters after the matched prefix do not change the result |
| DateParse.ExampleParse | scripts/article_parser.py:9 | the example `2025年03月27日 15:34` parses to 27 March 2025, 15:34 |
| DateParse.ExampleFormat | scripts/article_parser.py:37 | that time renders as `2025-03-27 15:34:00` |
| DateParse.ExampleExtract | scripts/article_parser.py:24-38 | the article record for that example has the stripped title and the rendered time |
| DateParse.OneDigitMonthNoMatch | scripts/article_parser.py:10-17 | a one-digit month does not match `\d{2}`, so the result is None |
| DateParse.February30Invalid | scripts/article_parser.py:16 | 30 February matches the pattern, but `datetime` rejects it |
| DateParse.February30Fails | scripts/article_parser.py:39-41 | that rejection makes the whole extraction return None |
| DateParse.FirstDayInvalid | scripts/article_parser.py:15-16 | 1 January of year 1 is a real date, but `localize` overflows on it, so `parse_datetime` raises |
| UpdateCheck.GetValidBizList | scripts/check_updates.py:8-23 | the list holds each variant listed under any key exactly once; it is empty when the registry file is missing or unreadable |
| UpdateCheck.Baseline | scripts/check_updates.py:25-35 | the loaded instant is the stored one, or now when there is no file; an unreadable file yields none |
| UpdateCheck.Compare | scripts/check_updates.py:81-89 | the newest entry is an update exactly when it has a publication instant strictly later than the loaded one, which then replaces it |
| UpdateCheck.CheckOutcome | scripts/check_updates.py:42-97 | an update is reported exactly when the feed is non-empty, the file is readable and the newest entry is strictly later; an empty feed or an unreadable file leaves the file untouched; the stored instant never moves backwards |
| UpdateCheck.StoredIsMax | scripts/check_updates.py:87-89 | after a run the stored instant is the larger of the loaded instant and the newest entry's instant |
| UpdateCheck.RerunReportsNothing | scripts/check_updates.py:42-97 | a second run on the same feed reports no update and leaves the stored instant where the first run put it, whatever the clock says |
| UpdateCheck.EmptyFeedChangesNothing | scripts/check_updates.py:53-55 | an empty feed is no update and does not even create a missing file |
| UpdateCheck.NoPublicationTimeNoUpdate | scripts/check_updates.py:66-93 | a newest entry without a publication instant is never an update; the only change is the initial file the load writes |
| UpdateCheck.UpdateTracker.SaveLastUpdate | scripts/check_updates.py:37-40 | the file now holds the given instant |
| UpdateCheck.UpdateTracker.LoadLastUpdate | scripts/check_updates.py:25-35 | returns the baseline instant; a missing file is created holding now; otherwise the file is unchanged |
| UpdateCheck.UpdateTracker.CheckUpdates | scripts/check_updates.py:42-97 | with its biz-matching loop as written, the reported result and the new file contents are those of `CheckOutcome`, whatever the registry and the description hold |
| IssueBody.ExtractContent | scripts/process_issue.py:16-28 | None exactly when the body lacks the marker; otherwise a text with no whitespace at its ends |
| IssueBody.ExtractContentAt | scripts/process_issue.py:20-25 | the content is the stripped text after the first occurrence of the marker |
| IssueBody.ComposeBody | scripts/process_issue.py:36-40 | the new body ends with the original body unchanged and holds the summary right after the heading |
| IssueBody.ProcessIssue | scripts/process_issue.py:73-87 | no request when there is no marker or only whitespace after it; otherwise the body is the summariser's answer for the content in front of the original body, with the labels `rss-update` and `processed` |
| IssueBody.MarkerAtEndIsEmpty | scripts/process_issue.py:24 | a body whose first marker ends it has empty content, so it is not summarised |
| IssueBody.NoMarkerBeforeOriginal | scripts/process_issue.py:36-40 | when the summary lacks the marker, no marker starts in the composed body before the original body |
| IssueBody.FirstOccurrence | scripts/process_issue.py:20 | an occurrence with none before it is what `find` returns |
| IssueBody.FindAfterPrefix | scripts/process_issue.py:20 | after a prefix in which no marker starts, the first marker is the first marker of the rest, shifted by the prefix |
| IssueBody.ExtractAfterPrefix | scripts/process_issue.py:20-24 | such a prefix does not change the extracted content |
| IssueBody.ExtractComposed | scripts/process_issue.py:16-40 | when the summary lacks the marker, the composed body yields the same content as the original body |
| IssueBody.ReprocessFindsSameContent | scripts/process_issue.py:59-89 | reprocessing an updated issue finds the same content, as long as the summary does not quote the marker |

## Left out

- File and network I/O are not modelled. This covers reading `biz.txt`, reading and writing the JSON files, fetching the feed, parsing HTML, the GitHub API request and `GITHUB_OUTPUT`. Their contents are parameters: the lines of `biz.txt`, the registry as `Option<map<string, seq<string>>>` (`None` for a missing or unreadable file), the stored instant as `Stored`, the feed as a list of `Entry`, and the title and time texts of the page. `print` calls are left out.
- Clocks and time zones are not modelled. Instants are integers, and "now" is a parameter. `mktime`, UTC conversion and the ISO round trip through `last_update.json` are not modelled. Of `pytz`'s `localize`, only its failure is modelled: it looks up the zone one day either side of the time, which overflows on 1 January of year 1 and on 31 December 9999. The zone offset it attaches is not modelled, because the rendered text does not show it. A stored value that does not read back as an instant is `Unreadable`.
- The AI service is a stub in the source, so it is a function parameter `summarize`. The PATCH request and its status code are not modelled. `ProcessIssue` yields the body and labels the request would send.
- Exceptions are modelled as their outcomes, not as control flow:
  - `process_biz_file` returns `{}` without writing when all lines are blank;
  - an unreadable `last_update.json` makes `check_updates` return false;
  - a `ValueError` from `datetime`, or an `OverflowError` from `localize`, makes `extract_article_info` return None.
- Python's other failure paths depend on the file system or on non-string inputs, and are not modelled. Examples are a missing `biz.txt`, a failed write, and a registry whose values are not lists of strings.
- The order of the lists from `validate_and_fix_biz` and `get_valid_biz_list` is Python's set iteration order. The model leaves that order open. `ValidateAndFixBiz` and `GetValidBizList` state the elements and that each occurs once, not the order.
- `isinstance(variants, list)` at `scripts/process_biz.py:65-66` always holds, so its fallback branch is not modelled.
- DateParse.IsDigit: `\d` and `int()` accept every Unicode decimal digit. The model accepts ASCII digits and the fullwidth digits U+FF10 to U+FF19 only, so texts using other scripts' digits do not match in the model.
- DateParse.Format: `%Y` is rendered as four zero-padded digits. C libraries that print years below 1000 without padding differ there.
- DateParse.ExtractArticleInfo: the page is taken as already searched. Whether the heading and the time element exist, and their texts, are the inputs.
- UpdateCheck.GetValidBizList: each registry value is taken as a list of strings. With a string value, `set.update` would add its characters; that is not modelled.
