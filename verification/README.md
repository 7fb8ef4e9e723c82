# Config-Guardians agent-system: a Dafny model of the deterministic core

The agent system watches configuration files (Terraform, Spring
`application.properties`). It validates each file against a Rego policy with
conftest. A language model proposes a patched file. A compliance report then
goes out for approval.

The language-model agents, the LangGraph workflow and the HTTP and GitHub
integrations sit around a small deterministic core, and that core is what
this project models:

- **Policy selection** (`retrieve_policy`). A file name, and for Terraform
  files the file's text, selects one of three policies. Anything else is an
  error.
- **The properties bridge** (`prop2json`, `json2prop`, `convert`, and the
  `with_filetype_conversion` wrapper). A `key=value` file is read into an
  ordered dictionary. The dictionary is written out as JSON, and a JSON
  object is printed back as properties text. The repository carries three
  copies of this logic. It is modelled once (`PropFormat`), and each copy is
  a thin function over it, with lemmas showing that the copies agree.
- **The prompt** built by `run_agents`. Its partner is the filename
  recovery of `get_filename_from_state`, and the model proves the round
  trip: the name put into the prompt is the name read back.
- **The remediation node**, minus the model call. It recovers the file
  name from the newest message that names one, saves the stripped answer as
  `<stem>_patched<ext>`, and replaces the answer with a summary message.
- **The report builder** (`generate_report`, `analyze_changes`,
  `parse_validation_output`), minus the clock and the HTTP post. It
  partitions the conversation, finds the first tool call's arguments, reads
  the original and patched files, and diffs their lines. It parses conftest's
  summary line, ANSI colours included, counts the `FAIL` markers, and
  extracts the violated rule names.

Python's string operations are modelled explicitly in `Strings`:

- `strip` over ASCII whitespace;
- `split` and `join`;
- `count`, `replace` and `in`;
- `rfind`;
- `os.path.splitext` with POSIX rules;
- `int` and `str` on naturals.

A Python `dict` is a sequence of pairs with unique keys (`Json`), where
assignment keeps an existing key's position. The scratch directory `tmp/` is
a map from path to text (`Workspace.Dir`). Python exceptions and
`sys.exit(1)` become the failure side of a `Result`.

Modules, one per file: `Results`, `Strings`, `Json`, `Workspace`,
`Messages`, `PropFormat`, `Filetype`, `Properties`, `Prop2JsonScript`,
`Policy`, `ChangeAnalysis`, `ValidationOutput`, `Reporting`, `Remediation`,
`Prompt`.

The model follows the code in these details, which are easy to misread:

- The compliance status is decided by the substring `FAIL` anywhere in the
  first tool output (`"FAIL" in ...`), not by counting failure lines.
- The value of a properties line may contain `=`, because the line is split
  at its first `=`. Only keys are barred from holding `=`.
- The first tool call of the first AI message supplies the file name and
  the policy path. The scan is not newest first.
- `app.properties` has no policy. Only the exact name
  `application.properties` selects the properties policy.

## Model

| member | source | states |
|---|---|---|
| Strings.Strip | agents/reporting.py:19-20 | the result has no leading or trailing whitespace, and an already stripped text is returned unchanged |
| Strings.StripSlice | agents/reporting.py:19-20 | `strip` removes only whitespace, from the two ends: the result is a slice whose outside is all whitespace |
| Strings.StripDropFront | utils/filetype.py:39 | leading whitespace does not change what `strip` keeps |
| Strings.StripDropLast | utils/filetype.py:39 | one trailing whitespace character does not change what `strip` keeps |
| Strings.StripDropBack | utils/filetype.py:39 | trailing whitespace does not change what `strip` keeps |
| Strings.StripKeepsFirst | utils/filetype.py:39-40 | a text starting with a non-space character still starts with it after `strip` |
| Strings.StripAroundMark | utils/filetype.py:39-43 | stripping a text around a non-space mark such as `=` keeps the mark, a tail of the text before it and a head of the text after it, dropping only whitespace |
| Strings.Split | agents/reporting.py:19-20 | `split` gives at least one piece, no piece holds the separator, and joining the pieces with the separator gives the text back |
| Strings.SplitJoin | agents/reporting.py:103 | splitting a join of separator-free pieces gives the pieces back |
| Strings.SplitAppend | agents/reporting.py:103 | splitting `a + sep + b` splits `a` and `b` separately and concatenates the pieces |
| Strings.JoinSnoc | utils/filetype.py:75 | joining one more piece appends the separator and that piece |
| Strings.JoinChars | utils/filetype.py:75 | a character occurs in a join exactly when it occurs in some piece, or in the separator when there are two pieces or more |
| Strings.FindFrom | tests/unit-tests.py:145 | the first occurrence of a text at or after a position, and none exactly when it does not occur there |
| Strings.SplitOn | tests/unit-tests.py:145 | `split(" - ")` gives at least one piece, a single piece exactly when the separator is absent, pieces that do not hold the separator, and the text back when joined; each cut is at the leftmost occurrence, since no piece but the last, followed by all but the last character of the separator, holds one |
| Strings.FirstCutClean | tests/unit-tests.py:145 | the text before the first occurrence holds no occurrence, not even one overlapping the first |
| Strings.SplitOnJoin | tests/unit-tests.py:145 | splitting a join of pieces that lack the separator's first character gives the pieces back |
| Strings.LastSplit | agents/reporting.py:103 | the piece after the last separator holds no separator and ends the text; it is the whole text exactly when the separator is absent, and otherwise a separator precedes it |
| Strings.CountPositiveIffContains | agents/reporting.py:102 | `count(w) > 0` exactly when `w in s` |
| Strings.Count | agents/reporting.py:102 | the occurrences `count` finds do not overlap: their number times the target's length is at most the text's length |
| Strings.CountSkip | agents/reporting.py:102 | a text with no occurrence before an index counts what its tail from that index counts |
| Strings.CountIsSplitOn | agents/reporting.py:102 | `s.count(w)` is one less than the number of pieces of `s.split(w)`: both find the same non-overlapping occurrences, left to right |
| Strings.Replace | agents/reporting.py:120 | each replaced occurrence changes the length by the difference between the replacement's and the target's lengths |
| Strings.ReplaceAbsent | agents/reporting.py:120 | `replace` leaves a text without the target unchanged |
| Strings.ReplaceBySelf | agents/reporting.py:120 | replacing a text by itself changes nothing |
| Strings.ReplaceNoMatch | agents/reporting.py:120 | where the target does not start the text, the first character is kept |
| Strings.ReplaceSkip | agents/reporting.py:120 | a text with no occurrence before an index keeps its text up to that index |
| Strings.ReplaceIsJoinSplitOn | agents/reporting.py:120 | `s.replace(w, u)` equals `u.join(s.split(w))` for a non-empty `w`: every occurrence the split cuts at, and only those, is replaced |
| Strings.RFind | agents/remediation.py:55-56 | `rfind` gives the last index of the character, or -1 when it is absent |
| Strings.RFindText | agents/reporting.py:103 | the last occurrence of a text at or below a bound: it occurs there, and nowhere later up to the bound |
| Strings.SplitExt | agents/remediation.py:55-56 | `splitext` cuts the name into stem and extension that concatenate back; the extension is empty or a `.` plus characters other than `.` and `/`, after a stem whose last component is not all dots |
| Strings.SplitExtEmpty | agents/remediation.py:55-56 | the extension is empty exactly when the last `.` does not follow the last `/`, or only dots precede it in the last component |
| Strings.SplitExtOfJoin | agents/reporting.py:83-85 | a proper stem followed by a well-formed extension is split back into exactly those two parts |
| Strings.DecimalValueOfNatToString | agents/reporting.py:58-62 | `int(str(n)) == n` for every natural number |
| Strings.UniversalNewlines | utils/filetype.py:37-38 | reading in text mode leaves no `\r`, never lengthens the text, and leaves text without `\r` unchanged |
| Strings.UniversalNewlinesPlain | utils/filetype.py:37-38 | text without `\r` passes through unchanged whatever follows it |
| Strings.UniversalNewlinesLineEnd | utils/filetype.py:37-38 | `\r\n`, `\n` and a lone `\r` not followed by `\n` each read as one `\n` |
| Strings.UniversalNewlinesJoin | utils/filetype.py:37-38 | lines joined with `\r\n`, `\r` or `\n` read back as the same lines joined with `\n` |
| Json.Find | utils/filetype.py:44 | gives the first position of a key, or none exactly when the key is absent |
| Json.Get | utils/filetype.py:44 | a lookup is empty exactly when the key is absent, and otherwise gives that key's value |
| Json.Set | utils/filetype.py:44 | after `d[k] = v` the key maps to `v`; an existing key keeps its position; a new key goes to the end; keys stay unique |
| Json.SetOther | utils/filetype.py:44 | `d[k] = v` leaves every other key's value unchanged |
| Json.SetPairs | utils/filetype.py:44 | `d[k] = v` adds no pair other than `(k, v)` |
| Workspace.PatchedName | agents/remediation.py:55-57 | splitting the patched name gives the original stem with `_patched` appended and the original extension |
| Workspace.SplitExtOfInsert | agents/remediation.py:55-57 | inserting a suffix without `.` or `/` between stem and extension keeps the extension and extends the stem |
| Workspace.AppendKeepsNoExtension | agents/remediation.py:55-57 | a name without an extension still has none after such a suffix is appended |
| Workspace.PatchedNameOfJoin | agents/reporting.py:83-85 | the patched name of `stem + ext` is `stem + "_patched" + ext` |
| Workspace.PatchedNameRecoversOriginal | agents/remediation.py:55-57 | dropping `_patched` from the patched stem and re-attaching the extension gives the original name |
| PropFormat.ParseLine | utils/filetype.py:39-44 | a line gives nothing exactly when, after trimming, it is blank, a `#` comment or has no `=`; otherwise it gives a trimmed key and a trimmed value |
| PropFormat.TextLines | utils/filetype.py:37-38 | the lines `for line in f` yields hold no line break of either kind, and a text without `\r` is split at its `\n`s |
| PropFormat.TextLinesOfJoin | utils/filetype.py:37-38 | lines written with `\n`, `\r\n` or `\r` line ends are read back as the same lines |
| PropFormat.Parse | utils/filetype.py:36-44 | the dictionary read from a file has unique keys, and a key is present exactly when some line of the file assigns it |
| PropFormat.ParsedKeyHasNoEquals | utils/filetype.py:43 | a parsed key holds no `=` |
| PropFormat.ParseLineCut | utils/filetype.py:39-44 | any line `before=after` whose `before` holds no `=` gives the key `before.strip()` and the value `after.strip()`, whatever the whitespace around them and whatever `=` the value holds, unless the trimmed key starts with `#` |
| PropFormat.ParseLineOfEntry | utils/filetype.py:39-44 | the line `k=v` reads back as `(k, v)` for a trimmed key without `=` or leading `#`, whatever `=` the value holds |
| PropFormat.Assign | utils/filetype.py:44 | one loop step keeps the dictionary's keys unique |
| PropFormat.ParseLines | utils/filetype.py:38-44 | the parsed dictionary has unique keys |
| PropFormat.ParseLinesSnoc | utils/filetype.py:38-44 | the loop over one more line is one more step on the loop's result |
| PropFormat.ParseLinesHasKey | utils/filetype.py:38-44 | a key is present exactly when some line assigns it |
| PropFormat.LastAssignmentWins | utils/filetype.py:44 | the last line that assigns a key decides its value |
| PropFormat.SkippedLineContributesNothing | utils/filetype.py:40-41 | a blank, comment or `=`-less line can be removed from anywhere without changing the result |
| PropFormat.KeysInFirstAssignmentOrder | utils/filetype.py:36-44 | the dictionary's keys are the assigned keys in order of first assignment |
| PropFormat.Dotted | utils/filetype.py:69-71 | a nested member prints one `key.sub=value` pair per field, in order |
| PropFormat.Entries | utils/filetype.py:67-73 | an object of strings prints one pair per member, in order, each with the member's key and text |
| PropFormat.Lines | utils/filetype.py:68-73 | one `key=value` line per pair, in order |
| PropFormat.Emit | utils/filetype.py:67-75 | no pairs print as the empty text; otherwise, when no printed line holds a newline, splitting the text at newlines gives the printed lines back |
| PropFormat.ToObject | utils/filetype.py:36-46 | the JSON object holds the dictionary's pairs in order, every value a string |
| PropFormat.EntriesOfToObject | utils/filetype.py:68-73 | printing an object of strings gives exactly its pairs back |
| PropFormat.ParsedPairIsSafe | utils/filetype.py:39-44 | every pair a line yields can be printed and read again |
| PropFormat.ParseLinesPortable | utils/filetype.py:38-44 | whatever the lines, the parsed dictionary is one the format can carry |
| PropFormat.ParsedIsPortable | utils/filetype.py:29-51 | whatever the file, the parsed dictionary is one the format can carry |
| PropFormat.ParseLinesOfLines | utils/filetype.py:68-75 | parsing the printed lines of a portable dictionary gives it back |
| PropFormat.EmitThenParse | utils/filetype.py:29-79 | round trip: printing a portable dictionary as properties text and parsing it gives the same dictionary, order included |
| PropFormat.NestedComesBackFlat | utils/filetype.py:69-71 | nesting does not survive the trip: a nested member comes back as dotted flat keys |
| PropFormat.ParseIsStable | utils/filetype.py:29-79 | parsing normalises: a parsed file, printed and parsed again, is unchanged |
| Filetype.Prop2Json | utils/filetype.py:29-51 | fails with exit exactly when the source file is missing; otherwise writes and returns the JSON of the parsed file, and changes only the destination entry |
| Filetype.Json2Prop | utils/filetype.py:53-79 | fails on a missing file, then on invalid JSON, and succeeds whenever the file exists and parses; writes and returns the printed properties text |
| Filetype.ConversionRoundTrip | utils/filetype.py:29-79 | properties to JSON and back keeps every key and value when `json.load` inverts `json.dumps` |
| Filetype.PrepareCall | utils/filetype.py:8-18 | a non-properties file passes through untouched; a properties file fails exactly when it is missing, and otherwise `<stem>.json` receives the JSON of the parsed file, is the only entry that changes, and is what the wrapped call gets |
| Filetype.ConvertBack | utils/filetype.py:20-26 | for a properties file, `<stem>_patched.json` is printed back and saved as the patched properties file, failing exactly when it is missing or not JSON; otherwise nothing happens |
| Filetype.ConvertBackReadsPatchedFile | utils/filetype.py:23 | the JSON file converted back is the patched name of the converted `<stem>.json`, so it is the file the remediation step writes |
| Properties.Prop2Json | utils/properties.py:5-25 | fails exactly when the source is missing; otherwise the destination holds the JSON of the parsed file and every other file is unchanged |
| Properties.Json2Prop | utils/properties.py:28-51 | fails exactly when the source is missing or not JSON; otherwise the destination holds the printed properties text |
| Properties.Prop2JsonAgrees | utils/properties.py:5-25 | this copy fails on the same inputs with the same error as `utils/filetype.py`'s, and otherwise leaves the same directory |
| Properties.Json2PropAgrees | utils/properties.py:28-51 | the same agreement for `json2prop` |
| Prop2JsonScript.Convert | utils/prop2json.py:5-25 | fails exactly when the source is missing; otherwise the destination holds the JSON of the parsed file |
| Prop2JsonScript.ConvertAgrees | utils/prop2json.py:5-25 | `convert` agrees with `utils/filetype.py`'s `prop2json` on failure, error and resulting directory |
| Policy.RetrievePolicy | utils/policy.py:1-15 | a result is one of the three policies, and it is the properties policy exactly when the name is `application.properties` |
| Policy.FirstMatch | utils/policy.py:5-15 | a policy is found exactly when some rule applies, and it is the policy of the first rule that applies |
| Policy.RetrievePolicyIsFirstMatch | utils/policy.py:5-15 | whenever the file can be read, `retrieve_policy` is the first-match lookup in the rule table (name, then content marker) |
| Policy.ApplicationPropertiesIgnoresContent | utils/policy.py:6-7 | `application.properties` gets its policy whatever the directory holds |
| Policy.S3RuleComesFirst | utils/policy.py:11-14 | a Terraform file mentioning both an S3 bucket and an ECR repository gets the S3 policy |
| Policy.OtherNamesHaveNoPolicy | utils/policy.py:5-15 | any other name that does not end in `.tf` is refused |
| Policy.NearMissesHaveNoPolicy | utils/policy.py:6-7 | `app.properties` and a path ending in `/application.properties` are refused |
| ChangeAnalysis.Normalize | agents/reporting.py:19-20 | every kept line is non-empty and stripped |
| ChangeAnalysis.NormalizeMembers | agents/reporting.py:19-20 | a text is kept exactly when it is non-empty and the strip of some input line |
| ChangeAnalysis.NormalizedLines | agents/reporting.py:19-20 | at most one line per line of the text, each non-empty, stripped and free of newlines |
| ChangeAnalysis.Missing | agents/reporting.py:23-38 | each entry has the loop's kind, a content from the first list that the second lacks, and the description `Added: `/`Removed: ` plus the content |
| ChangeAnalysis.AnalyzeChanges | agents/reporting.py:9-43 | `total_changes` is the number of entries, every ADDED entry precedes every REMOVED entry, and each entry's content is a non-empty stripped line described by its label |
| ChangeAnalysis.Without | agents/reporting.py:23-24 | the filter keeps exactly the elements of the first list that the second lacks |
| ChangeAnalysis.MissingContents | agents/reporting.py:23-29 | the contents of the entries one loop builds are that filter, in order |
| ChangeAnalysis.ChangesAreLineDifferences | agents/reporting.py:19-38 | ADDED lists the patched lines the original lacks, in patched order, and REMOVED the reverse |
| ChangeAnalysis.AntiSymmetry | agents/reporting.py:9-43 | swapping the two files swaps ADDED and REMOVED |
| ChangeAnalysis.MissingEmpty | agents/reporting.py:23-38 | a loop adds nothing exactly when every line of the first list is in the second |
| ChangeAnalysis.NoChangesIffSameLines | agents/reporting.py:9-43 | there are no changes exactly when both files have the same set of non-blank stripped lines |
| ChangeAnalysis.NormalizedLinesMembers | agents/reporting.py:19-20 | a normalised line of a text is a non-empty stripped line of it, and conversely |
| ChangeAnalysis.ReportedLines | agents/reporting.py:19-38 | a text is reported ADDED exactly when it is a non-empty stripped line of the patched file and not of the original, and REMOVED the reverse |
| ValidationOutput.ParamLen | agents/reporting.py:52 | the leading run of `[0-9;]`, which the escape pattern's parameter part matches |
| ValidationOutput.StripAnsi | agents/reporting.py:52 | the substitution only removes: the result is no longer than the line and every character it keeps comes from the line |
| ValidationOutput.StripAnsiNoEscape | agents/reporting.py:52 | a line without an escape character is unchanged by the substitution |
| ValidationOutput.StripAnsiKeepsPlainPrefix | agents/reporting.py:52 | an escape-free prefix is kept as it is |
| ValidationOutput.StripAnsiDropsSgr | agents/reporting.py:52 | a complete colour sequence `ESC [ code m` is removed |
| ValidationOutput.DigitRunLen | agents/reporting.py:54 | the leading maximal run of digits |
| ValidationOutput.DigitRuns | agents/reporting.py:54 | `findall(r'\d+')` gives at most one number per character, and none exactly when the line holds no digit |
| ValidationOutput.NumberThenWords | agents/reporting.py:54 | a number followed by digit-free words yields exactly that number |
| ValidationOutput.DigitRunsAppend | agents/reporting.py:54 | a non-digit boundary separates the numbers of two texts |
| ValidationOutput.SummaryOfLine | agents/reporting.py:54-63 | a candidate line with at least five numbers gives its first five as the counts, in order; with fewer it leaves all counts zero |
| ValidationOutput.ScanLines | agents/reporting.py:50-66 | with no candidate line the summary is all zero; otherwise the first line holding both `tests,` and `passed` alone decides it |
| ValidationOutput.ParseValidationOutput | agents/reporting.py:45-66 | when no line of the stripped output holds both `tests,` and `passed` the counts are all zero; otherwise the first such line decides them |
| ValidationOutput.LaterLinesIgnored | agents/reporting.py:50-64 | lines after the first candidate are never read, because the loop breaks there |
| ValidationOutput.FormatSummaryRuns | agents/reporting.py:53-54 | the five counts of a summary line in the unit tests' format are its five numbers, in order |
| ValidationOutput.FormatSummaryStripped | agents/reporting.py:47 | a summary line has no outer whitespace |
| ValidationOutput.FormatSummaryIsCandidate | agents/reporting.py:51 | a summary line passes the loop's filter |
| ValidationOutput.SummaryOfFormat | agents/reporting.py:51-63 | the counts read from a summary line are the ones printed |
| ValidationOutput.FormatThenParse | agents/reporting.py:45-66 | round trip: parsing a summary line in the unit tests' format gives back its counts |
| ValidationOutput.ColourIsIgnored | agents/reporting.py:51-52 | colouring a line changes neither whether it is the candidate nor the counts read from it |
| ValidationOutput.ColouredThenParse | agents/reporting.py:45-66 | the coloured summary line parses like the plain one |
| Reporting.AiMessages | agents/reporting.py:70-77 | the AI messages in order: only AI messages, and every one of them |
| Reporting.ToolMessages | agents/reporting.py:70-77 | the tool messages in order: only tool messages, and every one of them |
| Reporting.AiMessagesAppend | agents/reporting.py:73-77 | the AI messages of two conversations one after the other are those of the first, then those of the second |
| Reporting.ToolMessagesAppend | agents/reporting.py:73-77 | the same for the tool messages |
| Reporting.FirstAiMessage | agents/reporting.py:79 | `ai_messages[0]` is the earliest AI message of the conversation |
| Reporting.FirstToolMessage | agents/reporting.py:96 | `tool_messages[0]` is the earliest tool message of the conversation |
| Reporting.LastToolMessage | agents/reporting.py:97 | `tool_messages[-1]` is the latest tool message of the conversation |
| Reporting.PartitionCounts | agents/reporting.py:73-77 | each message lands in at most one list, and no AI or tool message is lost |
| Reporting.ViolationsDetected | agents/reporting.py:102 | the violation count is the number of non-overlapping `FAIL` occurrences, whichever branch of the conditional is taken, and it is positive exactly when `FAIL` occurs |
| Reporting.StatusOf | agents/reporting.py:115 | the status is `FAILED` exactly when violations were detected |
| Reporting.LastDashPiece | agents/reporting.py:103 | `line.split("-")[-1]` holds no `-` and ends the line; it is the whole line when there is no `-`, and otherwise a `-` precedes it |
| Reporting.SpecificRules | agents/reporting.py:103 | as written: the last three lines of the output are dropped, and every other line gives, in order, its piece after the last `-` |
| Reporting.LastDashPieceOf | agents/reporting.py:103 | a line `x-y` whose `y` holds no `-` gives `y` |
| Reporting.RuleNameTruncated | agents/reporting.py:103 | as written, conftest's failure line for the rule `deny-s3-bucket-public-read` yields only `read` |
| Reporting.FailureRule | tests/unit-tests.py:142-147 | a line yields a rule exactly when it starts with `FAIL -` and splits at ` - ` into at least three fields; the rule is the last field stripped, so it has no outer whitespace and holds no ` - ` |
| Reporting.FailureRuleOf | tests/unit-tests.py:142-147 | a line `FAIL - f - ... - n` of space-free fields yields its last field `n` whole |
| Reporting.RuleNameKept | tests/unit-tests.py:135-152 | the failure line for the rule `deny-s3-bucket-public-read` yields the whole name |
| Reporting.AsWrittenPiece | agents/reporting.py:103 | as written, a conftest line whose last field has no `-` yields that field with the space in front of it |
| Reporting.DashFreeRuleAgrees | agents/reporting.py:103 | where the rule name has no `-`, the unit test's rule is the code's piece stripped |
| Reporting.FailureRules | tests/unit-tests.py:140-147 | at most one rule per line, each stripped and free of ` - ` |
| Reporting.FailureRulesMembers | tests/unit-tests.py:140-147 | a rule is collected exactly when some line yields it |
| Reporting.TestRules | tests/unit-tests.py:139-147 | the rules the unit test collects from conftest's output: at most one per line, each stripped and free of ` - ` |
| Reporting.Argument | agents/reporting.py:80-81 | `args[key]` fails exactly when the key is absent, and otherwise gives the value of a pair with that key |
| Reporting.FirstToolArgs | agents/reporting.py:79 | fails without an AI message, or when the first one has no tool call; otherwise succeeds with the arguments of the first tool call of the first AI message |
| Reporting.GenerateReport | agents/reporting.py:68-131 | succeeds exactly when the first AI message has a tool call with both arguments, both files exist and there is a tool message; otherwise fails with the error of the first lookup that fails, in the code's order. A report takes file name and policy from that tool call's arguments, the contents from the patched file, and diffs the two files. Status, `FAIL` count, before-summary and the as-written `specific_rules` come from the first tool output; both validation texts of the original are that output with the local file name replaced by the remote one. The after-summary and patched validation come from the last tool output |
| Reporting.SingleToolMessageSameSummaries | agents/reporting.py:96-100 | with a single tool message the before and after summaries agree |
| Reporting.RawViolationsVerbatim | agents/reporting.py:120 | output that never mentions the local file name is reported verbatim |
| Remediation.QuoteFreeRun | agents/remediation.py:37 | `[^"]+` matches the longest quote-free run: it stops at a `"` or at the end |
| Remediation.FileGroup | agents/remediation.py:37 | the search finds nothing exactly when no position matches, and a group it finds is non-empty and holds no `"` |
| Remediation.GroupAt | agents/remediation.py:37-39 | a match's group is non-empty, quote-free, and sits between the phrase and a closing `"` |
| Remediation.SearchFrom | agents/remediation.py:37 | `re.search` finds nothing exactly when no position matches; otherwise it gives the group of the leftmost match |
| Remediation.FileGroupIsLeftmost | agents/remediation.py:37-39 | the group of a search is the group at its leftmost match |
| Remediation.Naming | agents/remediation.py:34-38 | flags exactly the messages holding the marker sentence and a match |
| Remediation.LastBelow | agents/remediation.py:34 | the reverse scan finds the newest flagged message below a bound, or none exactly when none is flagged |
| Remediation.GetFilenameFromState | agents/remediation.py:32-40 | fails with the "could not extract" error exactly when no message holds both the marker and a match |
| Remediation.FilenameSource | agents/remediation.py:34-39 | the name is the group of the newest message that names a file |
| Remediation.FilenameShape | agents/remediation.py:37-39 | the recovered name is non-empty and holds no `"` |
| Remediation.LaterMessagesIgnored | agents/remediation.py:34-39 | messages appended after the naming one, and naming nothing, do not change the result |
| Remediation.SkipFalse | agents/remediation.py:34-36 | messages that name nothing are passed over by the reverse scan |
| Remediation.Summary | agents/remediation.py:68-72 | the summary holds the line `Original file: <name>` and ends with the line `Patched file: <patched name>` |
| Remediation.SummaryIsJoin | agents/remediation.py:68-72 | the summary is its five lines joined by newlines |
| Remediation.SummaryLinesRoundTrip | agents/remediation.py:68-72 | names without newlines can be read back from the summary's lines |
| Remediation.ApplyPatch | agents/remediation.py:52-78 | the last message is replaced by the summary from `remediation`, the rest stay. When the write succeeds, the stripped answer is saved under the patched name; otherwise the directory is unchanged |
| Remediation.RemediationNode | agents/remediation.py:43-83 | fails when no file name can be recovered, or when the agent returns no message, and succeeds otherwise, applying the patch for the recovered name |
| Remediation.OtherFilesUntouched | agents/remediation.py:60-62 | only the patched file's entry of the directory can change |
| Remediation.SavedPatchAndSummary | agents/remediation.py:52-72 | the saved patch has no outer whitespace, and the summary names both the original and the patched file |
| Prompt.BuildPrompt | main.py:35-37 | the prompt starts with the introduction and the contents, names the file between the phrase `for this file "` and a closing `"`, and ends with the policy path and `?` |
| Prompt.PromptNamesFile | main.py:35-37 | round trip: the file name put into the prompt is the name the remediation node recovers, for a non-empty quote-free name and contents without the phrase |
| Prompt.NamedAfter | main.py:35-37 | the same round trip for any text of the prompt's shape |
| Prompt.NoEarlierPhrase | main.py:35-37 | the phrase `for this file "` occurs in the prompt only at the place the builder put it |
| Prompt.GroupAfterPhrase | main.py:37 | after the phrase come the name and a `"`, so the pattern matches there with the name as its group |
| Prompt.ConversationNamesFile | main.py:35-40 | the name is recovered from a whole conversation that starts with the prompt and whose later messages name no file |

## Left out

- The language-model agents (`remediation_agent.invoke`), the LangGraph workflow, the router `get_next_node` and its `goto`: these are external reasoning and orchestration code. The agent's answer is a parameter of `Remediation.RemediationNode`.
- Remediation.RemediationNode: the file write's success is a parameter (`saved`), because the exception path depends on the file system. The `print` calls are not modelled.
- `json.dumps` and `json.load` are function parameters (`dumps`, `loads`). The JSON text format is not modelled.
- Filetype.Json2Prop: values are strings or one-level objects of strings. Numbers, booleans, `null`, lists and deeper nesting are not modelled, because the properties files the bridge serves hold only text values.
- Reporting.GenerateReport: the timing fields (`datetime.now`, the duration) are left out because they read the clock. The `HACHIWARE_ENDPOINT` lookup and the HTTP POST are also left out, because they are environment and network I/O.
- Strings.Strip: whitespace is the ASCII part of Python's `str.isspace`, and digits are ASCII. Unicode whitespace and digits are not modelled.
- Policy.RetrievePolicy: the Terraform file is searched as stored, without the universal-newline translation of text-mode reading. The markers hold no line-break character, so the translation cannot change whether they occur; this is not proved.
- Filetype.Prop2Json, Properties.Prop2Json, Prop2JsonScript.Convert: `os.path.isfile` is modelled as membership in the directory map. Directories and permissions are not modelled.
- ValidationOutput.StripAnsiDropsSgr: only complete `ESC [ params m` sequences are stated as removed. A truncated sequence is kept, which the function does, but no lemma is stated for it.
- agents/command.py, agents/monitoring.py and utils/github_pr.py are not part of this model. They are tool wrappers and integrations around conftest, retrieval and GitHub.

## Findings

| source | as written | input that shows it | evidently intended | confidence | as-written member | corrected member |
|---|---|---|---|---|---|---|
| agents/reporting.py:103 | `line.split("-")[-1]` keeps only what follows the last `-` of each conftest line | the line `FAIL - policy/deny-s3.rego - deny-s3-bucket-public-read` gives `read` | the rule name after the last ` - `, stripped, `deny-s3-bucket-public-read`, as tests/unit-tests.py:140-152 extracts and expects it (`Reporting.FailureRule`) | medium; not executed | Reporting.RuleNameTruncated | Reporting.RuleNameKept |

The report itself keeps the code's extraction: `Reporting.GenerateReport`
fills `specific_rules` with `Reporting.SpecificRules`. The unit test's
extraction is `Reporting.TestRules`, and `Reporting.DashFreeRuleAgrees`
states where the two agree.
