# Team information collector — a Dafny model

The team information collector reads the comments of one GitHub issue in which
hackathon teams submit a filled-in template. It turns each comment into at most
one team submission: a team name, a member table, the team's GitHub account,
its repository URL and a submission time. It then keeps the submissions in
comment order, validates them (missing information, repeated team names,
repository URLs outside github.com, member counts outside a range), and
exports them. The export is either a fourteen-column table or a JSON document.

The model covers the part of `src/team_info_collector.py` that holds this
logic:

- **`seqs.dfy`** (`Seqs`): the order-preserving filter-map that the member loop,
  the comment loop and the validation lists all perform, and its lemmas.
- **`text.dfy`** (`Text`): Python's `str.strip` over the characters `str.isspace`
  accepts, substring search (`in`), `startswith`, and decimal rendering of
  integers.
- **`patterns.dfy`** (`Patterns`): the two regular expressions of the parser.
  - The row pattern `\|([^|]+)\|([^|]+)\|([^|]+)\|` is modelled under `re.findall`
    as a left-to-right scan.
  - The field pattern `\*\*<label>[：:]\*\*\s*(.+)` is modelled under
    `re.search`, including how the greedy `\s*` backtracks.
- **`teams.dfy`** (`Teams`): the two dataclasses and an issue comment.
- **`parser.dfy`** (`Parser`): `parse_team_info`, both as a function and as the
  method with the source's member loop.
- **`template.dfy`** (`Template`): the submission template. It proves that a
  filled-in template is read back field for field.
- **`sample.dfy`** (`Sample`): the parser test's sample comment, read back to
  the values the test expects and then validated.
- **`collector.dfy`** (`Collector`): `collect_team_info`, with the comments given
  as a sequence.
- **`validator.dfy`** (`Validator`): `validate_teams` with its default bounds 1
  and 5.
- **`validation_sample.dfy`** (`ValidationSample`): the validation test's three
  submissions, checked against the exact issue lists.
- **`export.dfy`** (`Export`): the header and rows that `export_to_csv` writes,
  and the data dictionary that `export_to_json` dumps.

Two behaviours of the regular expressions are modelled as the code has them:

- When a label is followed by a blank value, `\s*` runs over the line break.
  `(.+)` then takes the next non-blank line.
- A blank-only member cell still matches `[^|]+`. It then strips to nothing,
  so the row is dropped.

## Model

| member | source | states |
|---|---|---|
| Parser.TeamInfoOf | src/team_info_collector.py:83-142 | a body that mentions neither marker phrase yields nothing; a returned submission carries the comment's id and author |
| Parser.ParseTeamInfo | src/team_info_collector.py:83-142 | the parser with the source's early returns and member loop computes exactly `TeamInfoOf` |
| Parser.KeptMembers | src/team_info_collector.py:102-114 | the member loop keeps, in row order, the stripped cells of every scanned row that is not a header or separator row and has no empty cell |
| Parser.RowMember | src/team_info_collector.py:103-114 | a member built from a row has three non-empty stripped cells and passes the header/separator filter |
| Parser.FieldOrEmpty | src/team_info_collector.py:116-126 | an optional field's value is always stripped |
| Parser.ParseAccepts | src/team_info_collector.py:86-137 | a submission is returned iff the team-name label is found, its value strips to something, and some table row survives the filter |
| Parser.ParseResult | src/team_info_collector.py:128-137 | a returned submission has a non-empty stripped name, at least one member, only valid members, stripped optional fields that are "" when their label is missing, and the comment's id and author |
| Parser.MembersInRowOrder | src/team_info_collector.py:98-114 | the members are exactly the rows that survive the filter, each once, in body order |
| Parser.NoTableNoTeam | src/team_info_collector.py:99-128 | a body with no `\|` has no table rows and never yields a submission |
| Patterns.ScanRows | src/team_info_collector.py:99-100 | every scanned row has three non-empty bar-free cells; there are at most `\|s\|/7` rows |
| Patterns.ScanRowsTable | src/team_info_collector.py:99-100 | a table of well-formed rows, one per line, is scanned to exactly its rows, in order, followed by what the rest yields |
| Patterns.ScanRowsOccur | src/team_info_collector.py:99-100 | every scanned row occurs literally in the body |
| Patterns.ScanRowsNoBar | src/team_info_collector.py:99-100 | text without a bar yields no rows |
| Patterns.SearchField | src/team_info_collector.py:92 | a found field value is non-empty and lies on one line |
| Patterns.SearchFieldLeftmost | src/team_info_collector.py:92 | when the pattern matches at a position and at no earlier one, the search returns that match: `re.search` takes the leftmost match |
| Patterns.FieldLine | src/team_info_collector.py:92 | after `**<label>：**` or `**<label>:**`, blanks and a value that starts with a non-blank, the pattern yields the value up to the end of its line |
| Patterns.FieldAtBlankTail | src/team_info_collector.py:92 | after a label, text made only of whitespace yields a whitespace-only value, and yields nothing iff it holds only line breaks |
| Patterns.SearchFieldSkip | src/team_info_collector.py:92 | text without `*` in front of the body never changes what the search finds |
| Patterns.SearchFieldOtherLabel | src/team_info_collector.py:117-126 | a line labelled with another label is passed over |
| Patterns.SearchFieldLabelled | src/team_info_collector.py:92 | the search finds a field only where its label occurs |
| Text.StripUnique | src/team_info_collector.py:103-105 | stripping whitespace off both ends of a stripped text gives that text |
| Text.StripEmpty | src/team_info_collector.py:113 | a text strips to "" iff it is all whitespace |
| Text.StripInfix | src/team_info_collector.py:95 | the stripped text occurs in the original with only whitespace before and after it |
| Text.StripIdempotent | src/team_info_collector.py:95 | stripping twice is stripping once |
| Text.ContainsIff | src/team_info_collector.py:87 | the substring test holds iff the substring occurs at some position |
| Text.NotContainsFirst | src/team_info_collector.py:110 | a text that lacks the first character of a non-empty pattern does not contain the pattern, as in the `'---' in name` condition |
| Text.DecimalRoundTrip | src/team_info_collector.py:237 | the decimal rendering of a count reads back to the count |
| Template.TemplateParses | src/team_info_collector.py:83-142 | a comment filled in from the template, with any non-empty list of acceptable member rows, is parsed to its stripped name, the members of its rows in order (one per row), its stripped account, repository and time, and the comment's id and author |
| Sample.SampleSubmissionParses | tests/test_team_info_collector.py:31-71 | the test's sample comment is parsed to Team Alpha, its three members in table order, the account "team-alpha", the repository and the date |
| Sample.SampleValidates | src/team_info_collector.py:214-245 | the parsed sample submission passes validation with the default bounds 1 and 5: all four issue lists are empty |
| Collector.CollectTeamInfo | src/team_info_collector.py:144-163 | the comment loop returns exactly the parser's results, in comment order |
| Collector.CollectedExactly | src/team_info_collector.py:151-159 | the collected submissions are exactly those of the comments the parser accepts, each once, in comment order, never more than the comments |
| Collector.CollectedProvenance | src/team_info_collector.py:151-159 | every collected submission is the parse of some comment and carries that comment's id and author |
| Collector.NothingCollected | src/team_info_collector.py:151-163 | nothing is collected iff the parser accepts no comment |
| Collector.UnmarkedCommentSkipped | src/team_info_collector.py:86-88 | a comment without a marker phrase adds nothing to the collection |
| Validator.ValidateTeams | src/team_info_collector.py:214-245 | the validation pass, with its seen-name set, returns the four issue lists of `Validation` |
| Validator.NamesIff | src/team_info_collector.py:223-229 | the seen-name set holds exactly the names of the submissions seen so far |
| Validator.RepeatsMultiplicity | src/team_info_collector.py:226-229 | every name appears in the duplicate list one time fewer than among the submissions, so the first occurrence is never listed |
| Validator.NoRepeatsIffDistinct | src/team_info_collector.py:226-229 | the duplicate list is empty iff all team names differ |
| Validator.MissingInfoExactly | src/team_info_collector.py:231-233 | the missing-information list has one message per submission with an empty name or no members, in input order, and no others |
| Validator.MemberCountExactly | src/team_info_collector.py:235-239 | the member-count list has one message per submission outside `[min, max]`, too-few checked first, in input order, and no others |
| Validator.InvalidUrlsExactly | src/team_info_collector.py:241-243 | the URL list has one message per submission whose non-empty repository URL does not start with `https://github.com/`, in input order, and no others |
| Validator.ValidationEmpty | src/team_info_collector.py:214-245 | validation reports nothing iff every submission is named, has members, has an allowed member count and no foreign repository URL, and all names differ |
| ValidationSample.TestValidation | tests/test_team_info_collector.py:91-128 | with bounds 1 and 3, the test's submissions yield exactly: the unnamed one as incomplete and as too small, the second "Team Alpha" as a repeat, and its URL as invalid |
| Export.CsvRow | src/team_info_collector.py:179-195 | the row loop over three member slots builds exactly `CsvRowOf` |
| Export.CsvExport | src/team_info_collector.py:171-197 | the export writes the header and then one row per submission, in order |
| Export.CsvRowLayout | src/team_info_collector.py:180-195 | a row has as many cells as the 14-column header: the name, each of the first three members or three blanks, then account, repository, time and author |
| Export.CsvRowDropsExtra | src/team_info_collector.py:182-188 | members after the third leave no trace in the row |
| Export.CsvRowRoundTrip | src/team_info_collector.py:180-195 | reading the row back gives the name, the first three members (when members have names), the account, the repository, the time and the author |
| Export.CsvTableLayout | src/team_info_collector.py:171-197 | the table is the header followed by one row per submission, in input order |
| Export.MemberRoundTrip | src/team_info_collector.py:206 | a member's dictionary decodes back to the member |
| Export.TeamRoundTrip | src/team_info_collector.py:206 | a submission's dictionary, with its seven keys, decodes back to the submission |
| Export.ListRoundTrip | src/team_info_collector.py:206 | a list of encoded items decodes back to the items when each item does |
| Export.ExportRoundTrip | src/team_info_collector.py:203-207 | the document decodes to the export time, a `total_teams` equal to the number of submissions, and every submission in order |

## Left out

- Fetching the comments (`get_issue_comments`) is HTTP paging and is not part
  of this model. The collector takes the comments as a sequence.
- The command-line entry point and its file names are not part of this model.
- All printing is left out.
- Writing files is not modelled, for both exports: CSV quoting, the file
  encoding, and `json.dump` with its indentation. The model stops at the
  values written.
- The export time comes from the clock. It is a parameter of `ExportData`.
- The parser's `try`/`except` is left out. Nothing in the modelled code raises
  on a string body.
- The JSON document holds only `export_time`, `total_teams` and `teams`.
  `main` prints the member total (src/team_info_collector.py:330) but does not
  write it.
- Sorting teams, the HTML views and team-size statistics are exercised by
  tests/test_team_sorting.py, tests/test_html_multiple_views.py and
  tests/test_default_view.py. They are not in src/team_info_collector.py.
- Validator.ValidateTeams: the result is a four-field datatype rather than a
  dictionary keyed by the four names. The key order is kept in the field
  order.
- Export.CsvRowRoundTrip: the decoding assumes every member has a non-empty
  name, which every parsed member has. Otherwise a blank slot could not be
  told from a nameless member.
