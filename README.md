# NECTA-API core, modelled in Dafny

NECTA-API scrapes the results pages of the National Examinations Council of Tanzania. It has two
functions.

- `schools(year, exam_type)` lists every school and centre that sat CSEE or ACSEE in a year. It reads
  the list from the anchors of a roster page.
- `students(year, exam_type, school_number)` lists the result of every candidate of one school or
  centre. It reads them from one table of that school's summary page. One cell of each row packs
  all the candidate's subjects and grades into a single string.

This project models the decision logic and the scrapers behind those two calls:

- the request identity, in module `Model`:
  - the pydantic validators of `NectaBase` and `StudentsModel`;
  - the roster URL table `get_school_url`;
  - the results-table number `index`;
  - the summary URL table `get_summary_url`.
- the roster scraper `schools`, in module `Schools`:
  - the URL and skip table;
  - the nested anchor loop that builds a record per anchor;
  - the `[skip:]` slice;
  - the result dictionary.
- the student scraper, in module `Students`:
  - the `splitAfter` character scanner and its dictionary updates;
  - the `scrapStudents` row loop;
  - the parts of `students` outside the summary module: the `None` short-circuit, the refusal of a
    URL without a scheme, the status check and the lower-casing.

Module `Text` provides the Python string operations the code relies on: `lower`, `upper`,
`strip(chars)`, `strip()`, `split(sep)`, `join` and `str(int)`. Module `Outcome` holds:

- the error kinds, one per raise site;
- `Result` and `Option`;
- `AllOk`, which combines a sequence of results and keeps the first failure;
- the response a page fetch returns.

Python's behaviour is followed exactly where it matters:

- `split('-')` keeps empty tokens;
- `strip()` removes the characters `str.isspace` accepts, at both ends;
- a `dict.update` of an existing key keeps the key's position and takes the new value;
- `range(0, len(text) - 1)` leaves the last character out of the scan;
- `s[k:]` past the end is empty.

Every raise becomes an `Err` result rather than a precondition:

- the pydantic `ValidationError` that lists the failing fields;
- an unknown exam type;
- a status other than 200: with the URL for a roster page, with the status alone for a summary page;
- a summary URL that names no scheme, which `requests.get` refuses before sending anything;
- a table index past the last table;
- a row of fewer than five cells;
- a subject entry without a hyphen.

The imperative parts are methods with loops, each proved equal to a specification function:

- `Schools.BuildRecord` and `Schools.ExtractRecords`;
- `Students.ScanEntries`, `Students.SplitAfter`, `Students.CleanRow` and `Students.ScrapStudents`.

The entry points `Schools.Schools` and `Students.GetStudents` are methods without loops of their own.
They call the loop methods, and each is proved equal to a specification function.

The properties are then proved about those functions.

Behaviour of the code that a reader may not expect, kept as written:

- A year of 2005 is accepted (`year < 2005` is refused).
- The exam type is accepted in any letter case and is not normalised. A capitalised `"CSEE"` therefore
  matches no branch of the URL tables (`Model.CapitalisedExamType`). Its summary URL is the empty
  string, which `requests.get` refuses, so `students` always raises for it
  (`Students.CapitalisedExamTypeRaises`).
- Under ACSEE only a lower-case `p` selects the centre table (`Model.IndexPrefixCase`).
- A trailing subject entry not followed by a space is dropped (`Students.TrailingEntryDropped`).
- In the wholly quoted form `'MATH - A'`, the subject keeps its opening quote
  (`Students.WhollyQuotedEntry`). The form the code handles cleanly is `MATH - 'A'`.
- A short row fails at the `row[4]` index, not with a dedicated layout error (`Error.RowTooShort`
  stands for that IndexError).
- `students` does not look the school up in the roster. Its `school_name` and `number_of_students`
  come from the summary module.

The one departure from the code is the registration-number validation. Its regex lets one trailing
newline through, and the model uses the corrected validation instead (see "## Findings").

## Model

| member | source | states |
|---|---|---|
| Model.ValidateYear | nectaapi/model.py:14-17 | a year is accepted exactly when it is at least 2005, and is returned unchanged |
| Model.ValidateExamType | nectaapi/model.py:20-23 | accepted exactly when the lower-cased value is `acsee` or `csee`; returned without normalisation |
| Model.ValidateSchoolNumberAsWritten | nectaapi/model.py:66-70 | the regex as written: a registration number, or one followed by a single trailing newline, which Python's `$` lets through |
| Model.ValidateSchoolNumber | nectaapi/model.py:66-70 | as intended: accepted exactly when the whole value is `s`/`S`/`p`/`P` and four digits, five characters |
| Model.SchoolNumberTrailingNewline | nectaapi/model.py:67-68 | `"s1234\n"` passes the validation as written and fails the intended one; `"s1234"` passes both |
| Model.MakeNectaBase | nectaapi/model.py:7-23 | construction succeeds exactly when both validators accept; otherwise each failing field, and only those, is reported |
| Model.MakeStudentsModel | nectaapi/model.py:62-70 | construction succeeds exactly when all three validators accept; otherwise each failing field, and only those, is reported |
| Model.GetSchoolUrl | nectaapi/model.py:34-59 | a roster URL exists exactly for the exam types `csee` and `acsee`; any other raises the unknown-exam-type error |
| Model.SchoolUrlNeedsLowerCase | nectaapi/model.py:39-58 | a validated exam type reaches a roster URL exactly when it is already lower case |
| Model.CseeSchoolUrlYear | nectaapi/model.py:39-45 | every CSEE roster URL, the 2022 literal included, is filed under the requested year on the onlinesys host |
| Model.AcseeSchoolUrlYear | nectaapi/model.py:47-55 | every ACSEE roster URL, the 2023 and 2014 literals included, is filed under the requested year; only 2023 lives on matokeo |
| Model.SchoolUrlYear | nectaapi/model.py:39-55 | any roster URL reads back the requested year; it is on matokeo exactly for ACSEE 2023 |
| Model.RosterPageName | nectaapi/model.py:39-59 | the page each roster URL names: `index.htm` for CSEE 2016 and 2022 and for ACSEE after 2019, nothing after the `acsee/` directory for ACSEE 2014, `csee.htm` or `acsee.htm` otherwise. The path ends in `/<year>/<exam type>/<page>`, the fixed 2014, 2022 and 2023 URLs included. Every roster URL but ACSEE 2023's is on the onlinesys host |
| Model.SchoolUrlInjective | nectaapi/model.py:39-55 | two requests with the same roster URL ask for the same year |
| Model.Index | nectaapi/model.py:72-87 | the table number is at most 2; it is 0 exactly up to the layout year (2019 for CSEE, 2018 otherwise); above that it is 1 for a centre: a `p` in either case under CSEE, a lower-case `p` otherwise |
| Model.IndexPrefixCase | nectaapi/model.py:74-87 | after the layout change `P1234` gets table 1 under CSEE and table 2 under ACSEE, while `p1234` gets 1 under both |
| Model.CseeIndexIgnoresCase | nectaapi/model.py:74-79 | under CSEE the table number does not depend on the letter case of the registration number |
| Model.GetSummaryUrl | nectaapi/model.py:89-119 | there is no summary page exactly for ACSEE 2008 and ACSEE at or below 2005 or from 2024; an exam type that is neither lower-case value gives the empty URL |
| Model.AcseeSummaryUrlReadsBack | nectaapi/model.py:104-112 | an ACSEE summary URL is filed under its year and ends with the registration number plus `.html` on the tetea archive (2006 to 2014, not 2008), `.htm` elsewhere |
| Model.CseeSummaryUrlReadsBack | nectaapi/model.py:114-118 | a CSEE summary URL is filed under its year and ends with the registration number plus `.htm` |
| Model.SummaryUrlHost | nectaapi/model.py:104-119 | a summary URL is on matokeo exactly for ACSEE 2023, on the tetea archive exactly in the archived ACSEE years, and on onlinesys otherwise |
| Model.SummaryUrlDirectory | nectaapi/model.py:104-119 | the page sits in `acsee/results/` for ACSEE on the NECTA hosts, in `csee/results/` for CSEE after 2014, in `csee/` for CSEE up to 2014, and in the `ACSEE<year>/` directory on the archive |
| Model.SummaryUrlReadsBack | nectaapi/model.py:98-119 | every summary URL gives back its year and its registration number |
| Model.SummaryUrlInjective | nectaapi/model.py:98-119 | two validated requests with the same summary URL name the same year and registration number |
| Model.CapitalisedExamType | nectaapi/model.py:39-119 | `"CSEE"` is validated but yields no roster URL, an empty summary URL and the ACSEE layout year for the table number |
| Schools.RosterTarget | nectaapi/schools.py:31-63 | after lower-casing, an exam type other than `csee`/`acsee` raises with the lower-cased value; the skip is 28 for CSEE after 2014, 27 for ACSEE after 2015, and 0 otherwise |
| Schools.RosterUrlAgrees | nectaapi/schools.py:36-57 | the roster URL chosen here is `get_school_url`'s for the lower-cased exam type, and the choice ignores letter case |
| Schools.RecordRoundTrip | nectaapi/schools.py:75-82 | number plus name rebuild the anchor text with line breaks stripped; the number is the text before the first space; the name is empty exactly when there is no space, and otherwise starts with one |
| Schools.BuildRecord | nectaapi/schools.py:75-82 | the loop that accumulates the name token by token builds the record of the anchor text |
| Schools.ExtractRecords | nectaapi/schools.py:70-82 | the nested loop gives exactly one record per anchor, in document order |
| Schools.RecordsOfAt | nectaapi/schools.py:70-82 | the records list has one record per anchor and the `i`-th is built from the `i`-th anchor text |
| Schools.DroppedRecords | nectaapi/schools.py:82-85 | after the slice, the `i`-th school is the record of anchor `skip + i` |
| Schools.Drop | nectaapi/schools.py:85 | `s[k:]`: the elements after the first `k`, none when `k` is past the end |
| Schools.Schools | nectaapi/schools.py:21-99 | `schools` returns or raises what the roster model gives for the fetched page |
| Schools.RosterContents | nectaapi/schools.py:85-93 | the result holds the records of the anchors after the first `skip`, in order, never cut at the end; their count is `max(0, n - skip)` and equals `number_of_schools`; the exam type is lower case and known |
| Schools.UnknownExamTypeBeforeFetch | nectaapi/schools.py:61-65 | an unknown exam type raises whatever the fetcher would return |
| Schools.RemoteFailureRaised | nectaapi/schools.py:65-99 | a status other than 200 raises with the URL and the status |
| Text.Split | nectaapi/students.py:106 | `str.split` with one separator: at least one token, no token holds the separator, and there are two or more exactly when the separator occurs |
| Text.JoinSplit | nectaapi/schools.py:76 | joining the tokens of a split with the separator gives back the text |
| Students.LookupPut | nectaapi/students.py:109 | after `update({k: v})` the keys stay distinct, `k` reads `v` and every other key reads what it read before |
| Students.CollectKeys | nectaapi/students.py:105-109 | the keys of the built dict are the subjects, each once, in order of first appearance |
| Students.LastWriteWins | nectaapi/students.py:109 | every subject reads the grade written last for it |
| Students.FlushFromSpec | nectaapi/students.py:99-103 | the position the scan stops at is the first quote at or after the start that a space follows; when the scan finds none there is none |
| Students.EntriesCover | nectaapi/students.py:99-103 | the collected entries put together are a prefix of the cell, and no quote after that prefix is followed by a space |
| Students.EntryShape | nectaapi/students.py:99-103 | every entry ends with a quote, the next character of the cell is a space, and no quote inside the entry is followed by a space |
| Students.ShortCellNoEntries | nectaapi/students.py:99 | a cell of at most one character yields no entry |
| Students.ScanEntries | nectaapi/students.py:97-103 | the first loop of `splitAfter` collects exactly the entries of the cell |
| Students.ParseEntry | nectaapi/students.py:106-108 | an entry fails exactly when it holds no hyphen, and the error names it |
| Students.ParseEntryParts | nectaapi/students.py:106-108 | the subject is the text before the first hyphen, whitespace stripped; the grade is the text up to the next hyphen, whitespace and then quotes stripped |
| Students.ParsePairsOk | nectaapi/students.py:105-108 | the entries parse exactly when each holds a hyphen |
| Students.ParsePairsValues | nectaapi/students.py:105-108 | when every entry parses, there is one pair per entry, in order, each the entry's own parse |
| Students.FirstEntryWithoutHyphen | nectaapi/students.py:105-108 | otherwise the first entry without a hyphen raises |
| Students.DecodedSubjects | nectaapi/students.py:95-111 | a cell decodes exactly when every entry has a hyphen; its keys are then the subjects, each once, in order of first appearance, each with the grade of its last entry |
| Students.SplitAfter | nectaapi/students.py:95-111 | `splitAfter` returns or raises what the cell decoding gives |
| Students.CellEntries | nectaapi/students.py:99-103 | a cell written as `SUBJ - 'G' ` entries is cut exactly into those entries; a tail with no quote followed by a space adds nothing |
| Students.CellRoundTrip | nectaapi/students.py:95-111 | a cell written from clean subject/grade pairs decodes to the dict those pairs build in turn |
| Students.TrailingEntryDropped | nectaapi/students.py:99-103 | a final entry with no space after its quote is not read |
| Students.WhollyQuotedEntry | nectaapi/students.py:106-108 | an entry quoted as a whole keeps its opening quote in the subject |
| Students.TwoSubjectCell | nectaapi/students.py:95-111 | `"CIV - 'C' HIST - 'D' "` decodes to CIV: C, then HIST: D |
| Students.RepeatedSubjectCell | nectaapi/students.py:99-109 | a repeated CIV keeps its first position and takes its last grade; in `"CIV - 'C' HIST - 'D'"` only CIV is read |
| Students.CleanCells | nectaapi/students.py:76-78 | each cell is stripped of line feeds only, at both ends |
| Students.CleanRow | nectaapi/students.py:76-78 | the cell loop builds the stripped row |
| Students.DataRows | nectaapi/students.py:75 | every row but the header, in order |
| Students.ScrapStudents | nectaapi/students.py:71-91 | `scrapStudents` returns or raises what the table decoding gives |
| Students.DecodeTableRows | nectaapi/students.py:71-91 | an index past the last table raises; otherwise the table decodes exactly when every data row does, giving one record per data row in order, `max(0, rows - 1)` of them |
| Students.FirstFailingRow | nectaapi/students.py:75-89 | the first data row that fails decides the error |
| Students.StudentColumns | nectaapi/students.py:78-87 | columns 0 to 4 are the examination number, gender, points, division and subjects; cells past the fifth play no part |
| Students.ShortRowRaises | nectaapi/students.py:80 | a row of fewer than five cells raises and never gives a partly filled record |
| Students.GetStudents | nectaapi/students.py:27-68 | `students` returns or raises what `Students.StudentsOf` gives: nothing is fetched without a summary URL, a URL without a scheme is refused before any fetch, and a status other than 200 raises with the status alone |
| Students.SummaryUrlHasScheme | nectaapi/students.py:42-47 | every summary URL of a lower-case exam type starts with `https:`, so it names a scheme and `requests.get` sends it |
| Students.CapitalisedExamTypeRaises | nectaapi/students.py:42-47 | a validated exam type that is not lower case gets the empty URL, and `students` raises for it whatever the fetcher serves |
| Students.ResultNeedsLowerCase | nectaapi/students.py:36-68 | a result is returned only for the exam types `csee` and `acsee` written in lower case |
| Students.NoPageNoFetch | nectaapi/students.py:41-45 | where there is no summary URL the result is `None`, whatever the fetcher returns |
| Students.StudentsResultFields | nectaapi/students.py:36-66 | a result carries the lower-cased registration number and exam type, the validated year and the decoded rows of the table `index` selects |
| Students.CseeNumberCaseNormalised | nectaapi/students.py:36-65 | under CSEE, when both spellings are served the same response, `S1234` and `s1234` give the same result or the same error |

## Left out

- HTTP: `requests.get` is the parameter `fetch`, a function from URL to status and parsed page. Transport failures and timeouts are not modelled.
- BeautifulSoup: a roster page is given as the anchor texts of each `<font>`. A summary page is given as the cell texts of each row of each `<table>`.
- `summary.summary`, which gives `school_name` and `number_of_students` in `students`: nectaapi/summary.py is not part of this model. `StudentsResult` has no such fields, and the second fetch it makes is not modelled.
- pydantic: only the validators and the field values they return are modelled. The year is taken as an integer, so the `Union[int, str]` conversion `int(value)` of a string is not modelled.
- `urlparse(url).geturl()` is taken as the identity on these URLs. The registration numbers that reach it here hold no tab, carriage return or line feed, the characters it removes.
- Model.MakeStudentsModel: uses the corrected validation `Model.ValidateSchoolNumber`, not the regex as written. So `"s1234\n"`, which the code accepts, is refused here and in `Students.StudentsOf`. The behaviour as written is `Model.ValidateSchoolNumberAsWritten` (see "## Findings").
- Students.GetStudents: refuses `"s1234\n"` with a validation error for the same reason. Where the code accepts it, the URL fetched and the `school_number` returned are not modelled.
- `requests.get` refusing a URL is modelled only for URLs without a scheme. These are the only URLs the core can pass it that it refuses.
- Exception message texts and Python exception classes: each raise is an `Error` constructor carrying the values that decide it.
- `students` builds the soup before the status check. That has no effect on the result and is not modelled.
- Text.Lower: ASCII letters only, because the exam types and registration numbers compared are ASCII.
- Text.Upper: ASCII letters only, for the same reason.

## Findings

| source | as written | input that shows it | evidently intended | confidence | as-written member | corrected member |
|---|---|---|---|---|---|---|
| nectaapi/model.py:67-68 | both alternatives of the pattern end with `$`, which in Python also matches just before a final newline | `"s1234\n"` is accepted as a registration number and then used in the summary URL | accept exactly five characters: a prefix letter and four digits | not executed | Model.ValidateSchoolNumberAsWritten, Model.SchoolNumberTrailingNewline | Model.ValidateSchoolNumber |
