# ELB access logs to OpenSearch: a Dafny model of the line parser

`elb-logs-to-opensearch.py` is a Lambda handler. For each S3 event record it
fetches an Elastic Load Balancer access-log object and splits the object into
lines. For each line it decodes the bytes as UTF-8, parses the text with one
33-group regular expression (`ELB_LOG_PATTERN`) and posts the result to an
OpenSearch index. The result is a dictionary from the 33 names of
`ELB_LOG_FIELDS` to the captured strings.

The project models:

- **the pattern** (`pattern.dfy`, module `Pattern`):
  - 33 slots, each a delimiter followed by one capture group, closed by the literal `" `;
  - `Derives` and `Woven`, which say declaratively when a text is an instance of it.
- **`re.search` for this pattern** (`regex.dfy`, module `Regex`):
  - `MatchAt` is a backtracking matcher that tries capture lengths in the order Python's engine does: greedy repetitions longest first, the lazy `+?` shortest first, and an alternation its left branch first;
  - `Search` tries start positions 0, 1, … in turn;
  - both are proved sound, complete and leftmost with respect to `Derives`/`Woven`.
- **the log format** (`elb_format.dfy`, module `ElbFormat`): the slots of `ELB_LOG_PATTERN` after its four raw strings are joined, the field table, and `IsRecord`. `IsRecord` describes a well-formed record: the delimiters and the 33 captures interleaved, followed by the tail.
- **`parse`** (`elb_parser.dfy`, module `ElbParser`):
  - `ParseLine` is `parse` as a value;
  - `Parse` is the loop that fills the dictionary;
  - the lemmas cover all-or-nothing acceptance, the payload's keys and values, the round trip to the matched text, and leftmost matching.
- **per-field character classes** (`elb_fields.dfy`, module `ElbFields`): what every field of a successful parse may contain, and how the `target_ip[:-]target_port` token splits.
- **`save_log`** (`ingest.dfy`, module `Ingest`):
  - the nested loops over event records and lines, with `bytes.splitlines` modelled on bytes;
  - S3 is a map from locations to bodies, UTF-8 decoding is a parameter that may fail, and each post appends to the sequence of posted documents;
  - nothing is caught, so the first failure ends the invocation.

Two points of the code are easy to miss:

- The code has 33 capture groups and 33 field names, not 32.
- The code has no `try`/`except`. A missing object, an undecodable line or a line without a record (the `group` call on `None` raises) ends the whole invocation. No outcome is recorded and no later line is processed.

## Model

| member | source | states |
|---|---|---|
| Pattern.DerivesIffWoven | elb-logs-to-opensearch.py:20-23 | The slot-by-slot derivation of a text and the whole-text description agree: the text is the delimiters and captures interleaved, then the tail, and every delimiter and capture fits its slot |
| Pattern.WeaveSplit | elb-logs-to-opensearch.py:20-23 | Interleaving delimiters and captures splits at any group boundary: the text of groups before `i` followed by the text of groups from `i` on |
| Pattern.WeaveWindow | elb-logs-to-opensearch.py:20-23 | The text of three consecutive groups `i`, `i + 1`, `i + 2` sits between the text of the earlier groups and that of the later ones |
| Regex.Candidates | elb-logs-to-opensearch.py:20-23 | Every capture length the engine tries stays inside the line |
| Regex.LeadAt | elb-logs-to-opensearch.py:20-23 | A delimiter the matcher recognises is present in the text at that position and fits its slot |
| Regex.MatchAt | elb-logs-to-opensearch.py:75 | An anchored match ends inside the line and has one delimiter and one capture per group |
| Regex.TryCands | elb-logs-to-opensearch.py:75 | Backtracking over the first group: the capture lengths are tried in the engine's order and the first that lets the remaining groups match wins; a result ends inside the line with one delimiter and capture per group. Its meaning is stated by `TryCandsSound` and `TryCandsFinds` |
| Regex.SearchFrom | elb-logs-to-opensearch.py:75 | Start positions `from`, `from + 1`, … are tried in turn; a match starts at or after `from`, ends inside the line and has one capture per group. Soundness, completeness and leftmostness are stated by `SearchFromSpec` |
| Regex.Search | elb-logs-to-opensearch.py:75 | `re.search`: the scan from position 0; a match lies inside the line and has one capture per group. Its meaning is stated by `SearchSpec` and `SearchFindsLeftmost` |
| Regex.RunMaximal | elb-logs-to-opensearch.py:20-23 | A character-class run is maximal: all its characters are in the set, and the next one is not |
| Regex.CandidatesSound | elb-logs-to-opensearch.py:20-23 | Every length the engine tries for a group yields a capture in the group's language |
| Regex.CandidatesAllSound | elb-logs-to-opensearch.py:20-23 | The same for all tried lengths at once: each stays inside the line and yields a capture in the group's language |
| Regex.CandidatesComplete | elb-logs-to-opensearch.py:20-23 | Every capture in the group's language at that position is among the lengths tried (under `*`, `+`, the lazy `+?`, and the alternation with a fixed left branch) |
| Regex.LeadAtFinds | elb-logs-to-opensearch.py:20-23 | A delimiter present in the text (a literal, or one `[:-]` character) is recognised |
| Regex.MatchAtSound | elb-logs-to-opensearch.py:75 | Whatever the anchored backtracking matcher returns is a derivation of the pattern at that position |
| Regex.TryCandsSound | elb-logs-to-opensearch.py:75 | Trying the capture lengths of the first group in order returns only derivations |
| Regex.TryCandsFinds | elb-logs-to-opensearch.py:75 | If some tried length lets the rest of the pattern match, trying the lengths in order succeeds |
| Regex.MatchAtFinds | elb-logs-to-opensearch.py:75 | A fitting delimiter and capture in front of a match of the remaining slots give a match of the whole pattern |
| Regex.MatchAtComplete | elb-logs-to-opensearch.py:75 | Backtracking never misses: whenever a derivation exists at a position, the matcher succeeds there |
| Regex.DerivableMatches | elb-logs-to-opensearch.py:75 | The matcher succeeds at a position exactly when some instance of the pattern starts there |
| Regex.SearchFromSpec | elb-logs-to-opensearch.py:75 | Scanning from `from`, the match returned is a derivation and no instance starts between `from` and it; no match means no instance from `from` on |
| Regex.SearchSpec | elb-logs-to-opensearch.py:75 | `re.search` fails exactly when no instance occurs anywhere; otherwise it returns the leftmost instance |
| Regex.SearchFindsLeftmost | elb-logs-to-opensearch.py:75 | The same, stated over the text: the result spells delimiters and captures followed by `" `, and none starts further left |
| ElbFormat.Delimiters | elb-logs-to-opensearch.py:20-23 | One delimiter per capture group |
| ElbFormat.FieldTable | elb-logs-to-opensearch.py:20-59 | There are exactly 33 capture groups and 33 field names, and no name repeats |
| ElbFormat.OnlySepIsSet | elb-logs-to-opensearch.py:20 | The `[:-]` before `target_port` is the only delimiter that is a character set; every other one is literal |
| ElbFormat.LeadsAreDelimiters | elb-logs-to-opensearch.py:20-23 | Any fitting choice of delimiters is the fixed delimiter text with some `:`/`-` as the separator, so records differ only in their fields and that character |
| ElbFormat.DelimitersFit | elb-logs-to-opensearch.py:20 | The delimiters built from a separator fit the pattern if and only if the separator is `:` or `-` |
| ElbFormat.RecordEndsWithTail | elb-logs-to-opensearch.py:23 | Every record ends with the closing quote and the space after it |
| ElbFormat.TargetNames | elb-logs-to-opensearch.py:31-32 | Field names 6 and 7 are `target_ip` and `target_port` |
| ElbFormat.TargetDelimiters | elb-logs-to-opensearch.py:20 | The delimiters around `target_ip` and `target_port` are a space, the `[:-]` separator and a space |
| ElbFormat.TargetTokenInRecord | elb-logs-to-opensearch.py:20 | Every record contains the token ` ip<sep>port ` built from its 6th and 7th captures, between the first five groups and the rest of the record |
| ElbParser.Parse | elb-logs-to-opensearch.py:74-81 | The dictionary-filling loop returns exactly `ParseLine(line)`: nothing when the pattern does not match, otherwise name i mapped to group i + 1, later assignments overriding earlier ones |
| ElbParser.ParseLine | elb-logs-to-opensearch.py:74-81 | `parse` as a value: nothing when `re.search` finds no match (where `matches.group` raises), otherwise the dictionary filled from the captures; a result has exactly the field names as keys. Its meaning is stated by `PayloadShape`, `ParseFailsIffNoRecord` and `ParseYieldsLeftmostRecord` |
| ElbParser.Fill | elb-logs-to-opensearch.py:77-79 | The dictionary after assigning name `k` to value `k` for each `k` in turn; its keys are exactly the names. Its values are stated by `FillLookup` and `FillStep` |
| ElbParser.Values | elb-logs-to-opensearch.py:78-79 | Reading a payload back in field order gives 33 values |
| ElbParser.FillStep | elb-logs-to-opensearch.py:78-79 | One more loop iteration extends the filled prefix by one assignment; the full prefix is the whole table |
| ElbParser.FillLookup | elb-logs-to-opensearch.py:78-79 | With distinct names, the filled dictionary has exactly those keys, each mapped to its own value |
| ElbParser.PayloadShape | elb-logs-to-opensearch.py:78-79 | On success the payload has exactly the 33 field names as keys, name i maps to capture group i + 1 (a string, never missing), and the values in field order are the captures |
| ElbParser.WovenIsRecord | elb-logs-to-opensearch.py:20-23 | A text instance of the pattern is a well-formed record with its `[:-]` delimiter as separator |
| ElbParser.OccursIsRecordAt | elb-logs-to-opensearch.py:20-23 | The pattern occurs at a position exactly when a record starts there |
| ElbParser.ParseFailsIffNoRecord | elb-logs-to-opensearch.py:75-81 | All or nothing: parsing fails exactly when no record starts anywhere in the line |
| ElbParser.SearchIsLeftmostRecord | elb-logs-to-opensearch.py:75 | The matched text is a record whose fields are the captures, and no record starts further left |
| ElbParser.ParseYieldsLeftmostRecord | elb-logs-to-opensearch.py:74-81 | Round trip: on success, the payload's values in field order, interleaved with the delimiters and followed by `" `, spell a substring of the line, and no record starts further left |
| ElbParser.RecordIsAccepted | elb-logs-to-opensearch.py:75 | Unanchored search: a record is accepted whatever text precedes or follows it |
| ElbFields.ParsedIsTyped | elb-logs-to-opensearch.py:20-23 | Every field of a parsed payload is present and in the language of its capture group |
| ElbFields.PortFields | elb-logs-to-opensearch.py:20 | `client_port` and `target_port` contain only digits |
| ElbFields.TimingFields | elb-logs-to-opensearch.py:20-22 | The three processing times and `matched_rule_priority` contain only `-`, `.` and digits |
| ElbFields.CountFields | elb-logs-to-opensearch.py:20-21 | `elb_status_code`, `target_status_code`, `received_bytes` and `sent_bytes` contain only `-` and digits |
| ElbFields.TlsFields | elb-logs-to-opensearch.py:21-22 | `ssl_cipher` is non-empty over `[A-Z0-9-]`; `ssl_protocol` is over `[A-Za-z0-9.-]` |
| ElbFields.ListFields | elb-logs-to-opensearch.py:23 | `target_port_list` and `target_status_code_list` are non-empty and contain no whitespace |
| ElbFields.ReasonFields | elb-logs-to-opensearch.py:23 | `lambda_error_reason`, `classification` and `classification_reason` contain no space |
| ElbFields.QuotedFields | elb-logs-to-opensearch.py:21-23 | `user_agent`, `trace_id`, `domain_name`, `chosen_cert_arn`, `actions_executed` and `redirect_url` never contain `"` |
| ElbFields.HeadTokenFields | elb-logs-to-opensearch.py:20 | `type`, `timestamp`, `elb`, `client_ip` and `target_ip` contain no space |
| ElbFields.RequestFields | elb-logs-to-opensearch.py:21-22 | `request_verb`, `target_group_arn` and `request_creation_time` contain no space; `request_url` contains no newline; `request_proto` is `- ` or a space-free token |
| ElbFields.SeparatorIsLast | elb-logs-to-opensearch.py:20 | In the target token, only digits follow the separator |
| ElbFields.TargetSplitUnique | elb-logs-to-opensearch.py:20 | The target token splits into address, `:`/`-` and digit port in one way only |
| ElbFields.TargetExamples | elb-logs-to-opensearch.py:20 | `10.0.0.1:80` splits into `10.0.0.1` and `80`; the no-target form `-` gives two empty fields |
| ElbFields.TargetToken | elb-logs-to-opensearch.py:20 | On a line that parses, the line contains ` <target_ip><sep><target_port> ` built from the payload's two fields, with `sep` being `:` or `-` |
| ElbFields.ParsedTargetExamples | elb-logs-to-opensearch.py:20 | For a parsed payload: when its target token reads `10.0.0.1:80`, `target_ip` is `10.0.0.1` and `target_port` is `80`; when it reads `-`, both fields are empty |
| Ingest.LineEnd | elb-logs-to-opensearch.py:94 | The end of the current line lies between its start and the end of the body |
| Ingest.NextLine | elb-logs-to-opensearch.py:94 | The next line starts after the break (after both bytes of `\r\n`) |
| Ingest.LineEndIsFirstBreak | elb-logs-to-opensearch.py:94 | A line ends at the first `\n` or `\r`, or at the end of the body |
| Ingest.LineEndIs | elb-logs-to-opensearch.py:94 | A position with no break before it and a break (or the end) at it is where the line ends |
| Ingest.SplitLines | elb-logs-to-opensearch.py:94 | `bytes.splitlines`: the lines of a body without their breaks; there are no more lines than bytes and none exactly for the empty body. Its meaning is stated by `SplitLinesHaveNoBreaks` and `SplitJoin` |
| Ingest.SplitLinesHaveNoBreaks | elb-logs-to-opensearch.py:94 | No split line contains a line break |
| Ingest.SplitJoin | elb-logs-to-opensearch.py:94 | Splitting undoes joining: break-free lines, each ended by its own `\n`, `\r` or `\r\n`, followed by an optional break-free last line without a terminator, split back into exactly those lines (a lone `\r` must not be followed by an empty line ended by `\n`, which would read as one `\r\n`) |
| Ingest.SplitFirst | elb-logs-to-opensearch.py:94 | In joined lines the first split line is the first line, and the rest splits as the join of the other lines |
| Ingest.WellTerminatedTail | elb-logs-to-opensearch.py:94 | Dropping the first line keeps lines break-free and terminators well-formed |
| Ingest.NextStartsWithoutLf | elb-logs-to-opensearch.py:94 | Lines joined under that side condition never start with a `\n` that would merge with a preceding `\r` |
| Ingest.FirstLineOf | elb-logs-to-opensearch.py:94 | A break-free line followed by a terminator is split off exactly, with `\r\n` taken as one break, provided a lone `\r` is not followed by `\n` |
| Ingest.Documents | elb-logs-to-opensearch.py:96-97 | Each line yields one result |
| Ingest.Document | elb-logs-to-opensearch.py:96-97 | One line: undecodable bytes fail as such; otherwise the line yields a document exactly when it decodes and parses, and a document has exactly the field names as keys |
| Ingest.RunDocs | elb-logs-to-opensearch.py:96-99 | The lines of one file from `k` on: a clean run posts one document per remaining line; a failing run posts fewer and names a failing line at or after `k`, in this file. Its meaning is stated by `StopsAtFirstFailure` and `CleanFile` |
| Ingest.RunRecords | elb-logs-to-opensearch.py:85-99 | The records from `j` on: a failure names one of those records, and a fetch failure names a location missing from the store. Its meaning is stated by `CleanRun` |
| Ingest.SaveLog | elb-logs-to-opensearch.py:84-107 | The nested record and line loops post exactly what the specification `RunRecords` says: records in order, each record's lines in order, stopping at the first fetch, decode or parse failure |
| Ingest.PostLines | elb-logs-to-opensearch.py:95-99 | The inner loop posts exactly what `RunDocs` says for the file's lines: in order, stopping at the first line that does not decode or parse |
| Ingest.PrependTwice | elb-logs-to-opensearch.py:99 | Posting `a` and then `b` is posting `a + b` |
| Ingest.StopHere | elb-logs-to-opensearch.py:96-97 | A failure after some posts keeps those posts and ends the run |
| Ingest.RecordStep | elb-logs-to-opensearch.py:85-94 | A missing object ends the run with a fetch failure; otherwise its lines run first, then the remaining records |
| Ingest.FileStep | elb-logs-to-opensearch.py:85-99 | After a file's lines have run: a failure ends the whole run there with the posts so far; otherwise the run continues with the next record |
| Ingest.StopsAtFirstFailure | elb-logs-to-opensearch.py:96-99 | Lines `k` to `m - 1` are posted in file order, one post per line; the run stops at the first failing line `m`, and nothing after it is posted |
| Ingest.FirstFault | elb-logs-to-opensearch.py:96-97 | The index of the first line that yields no document: all earlier lines do |
| Ingest.CleanFile | elb-logs-to-opensearch.py:96-99 | A file runs without failure exactly when every line yields a document, and then it posts one document per line |
| Ingest.CleanRun | elb-logs-to-opensearch.py:85-99 | An invocation ends without failure exactly when every object exists and every line decodes and parses; it then posts one document per line of all the files |

## Left out

- Reading the environment and building the document URL (lines 11-17): configuration that the logic does not depend on.
- boto3 credentials, `AWS4Auth` signing and the S3 client (lines 61-67, 91-93): foreign AWS calls. The object store is a map from (bucket, key) to body, and a missing key is a failing fetch. Access errors and transient errors are not distinguished.
- `requests.post` (line 99): network I/O. A post appends its payload to the posted sequence. Network exceptions (which would also end the run) and the response body are not modelled.
- `logging.info` (lines 101-107): telemetry only.
- UTF-8 decoding (line 97): a parameter that may fail, with no codec internals.
- The shape of the event dictionary (lines 85-88): the records arrive as a sequence of (bucket, key) pairs. A missing key in the event, which would raise, is not modelled.
- The matcher covers only the constructs this one pattern uses, not Python's whole `re` engine. Time and recursion limits of the engine are not modelled.
