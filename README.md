# Access-log anomaly detector, modelled in Dafny

This project models the core of a small web-server log analyser (`app.py`).
The core has two parts:

- **`parse_log`** reads an access log line by line. It matches each line against the
  combined-log pattern
  `^(\S+) (\S+) (\S+) \[([^]]+)\] "(\S+) (\S+) (\S+)" (\d+) (\d+)`.
  For each line that matches it keeps a record of seven of the nine groups: ip,
  timestamp, method, path, protocol, status and size. Lines that do not match are
  dropped.
- **`detect_anomalies`** runs four rules over the records and appends their
  findings to one list, in rule order:
  - *High Frequency*: requests per ip, reported above 1000.
  - *High Error Rate*: statuses beginning with `4` or `5`, per ip, reported above 50.
  - *Suspicious Path*: a case-insensitive path pattern, counted per (ip, path)
    pair; every pair is reported.
  - *Failed Logins*: `/login` anywhere in the path, case-insensitively, with
    status exactly `401`, per ip, reported above 5.

The modules follow the program:

- `Text` is the character classes and string searches the regular expressions perform.
- `Grouping` is the group-and-count of `value_counts` and `groupby(...).size()`.
- `LogParser` is `parse_log`:
  - the pattern reading: a scanner that matches the line group by group;
  - a declarative layout of a match, and proofs that the two agree;
  - the per-line filter-map;
  - the reading loop, as a method.
- `AnomalyDetector` is `detect_anomalies`:
  - the rules as functions;
  - the appending loops and the whole pass as methods, each proved equal to those
    functions;
  - lemmas relating each rule to an independent reference count per ip or per
    (ip, path) pair.
- `Scenarios` is worked cases: a repeated line, the rule thresholds at their
  boundaries, and single paths.
- `Wrappers` is the `Option` type.

Three details of what `parse_log` and `detect_anomalies` actually do, which
the model keeps:

- The pattern is anchored only at the start of the line (`re.match`). Text after
  the last group is ignored, and the size group takes just the digits that begin
  the last field.
- `\.env$` also matches before a final line feed. A parsed path is a run of
  non-space characters and never ends in a line feed, so on the records this
  alternative means `.env` at the very end (`ParsedPathNoLineFeed`).
- The protocol group is the whole non-space run before the next space, less its
  closing quote.

## Model

| member | source | states |
|---|---|---|
| Text.ToLowerAppend | app.py:66 | case folding works character by character, so it distributes over concatenation |
| Text.ContainsAt | app.py:65-66 | the unanchored search of the path pattern finds a literal exactly when the literal occurs at some position |
| Grouping.Tally | app.py:44-45 | `value_counts` and `groupby(...).size()`, also at app.py:55, 67 and 81: each distinct key with its number of occurrences; its properties are `TallyContents`, `TallyTotal` and `TallyRepeat` |
| Grouping.TallyContents | app.py:44 | grouping lists every distinct key exactly once, each with its exact number of occurrences, and no key that does not occur |
| Grouping.TallyTotal | app.py:67 | the group sizes add up to the number of keys grouped |
| Grouping.TallyRepeat | app.py:67 | grouping `n` copies of one key gives that key once with count `n` |
| LogParser.Span | app.py:18 | `cls+` is greedy: the span is the longest prefix of the class; the character after it is outside the class |
| LogParser.Field | app.py:18 | a group found is a non-empty run of its class, and the line is the group, then the literal, then the rest |
| LogParser.FieldOfRun | app.py:18 | a run followed by a literal that starts outside its class is always found as that group |
| LogParser.ScanPrefix | app.py:18 | groups 1-4 found are runs of their classes and lay out the front of the line with their spaces and brackets |
| LogParser.ScanRequest | app.py:18 | groups 5-7 found are non-space runs and lay out the quoted request |
| LogParser.ScanTail | app.py:18 | groups 8-9 found are digit runs; the unmatched tail does not start with a digit |
| LogParser.Scan | app.py:18 | a match found fits the pattern, its size group is greedy, and its layout is exactly the line |
| LogParser.ScanPrefixText | app.py:18 | the front of any line laid out from well-formed groups 1-4 is recovered exactly |
| LogParser.ScanRequestText | app.py:18 | any request laid out from non-space groups 5-7 is recovered exactly |
| LogParser.ScanTailText | app.py:18 | any tail laid out from digit groups 8-9 and a non-digit remainder is recovered exactly |
| LogParser.ScanLayout | app.py:18 | the scanner recovers every match that fits the pattern with a greedy size group |
| LogParser.ParseLine | app.py:23-33 | a record produced has all seven groups well formed |
| LogParser.ParseLineOfGreedy | app.py:23-33 | a line laid out from well-formed groups, with a tail that does not begin with a digit, yields exactly those groups |
| LogParser.ParseLineOfLayout | app.py:18-33 | any line the pattern can be laid over is accepted; its size group takes the leading digits of the tail as well |
| LogParser.LineAcceptance | app.py:18-33 | a line yields a record iff the pattern fits it; the record is exactly the groups of the greedy match |
| LogParser.ParseLineWithTail | app.py:22-33 | text after a complete line that does not start with a digit (such as the line feed each line keeps) leaves the record unchanged |
| LogParser.MissingBracket | app.py:18-24 | a line without a closing bracket yields no record |
| LogParser.ParseAll | app.py:22-33 | the records of a file: each line's match, in file order, lines that do not match skipped; its properties are `Collect`, `CollectAppend`, `CollectMembers` and `ParseAllWellFormed` |
| LogParser.Collect | app.py:22-33 | the records kept are never more than the lines read |
| LogParser.CollectAppend | app.py:22-33 | parsing two files one after the other gives the records of the first then those of the second (an order-preserving filter-map) |
| LogParser.CollectSingle | app.py:22-33 | a one-line file yields that line's record, or nothing |
| LogParser.CollectMembers | app.py:22-33 | a record comes out exactly when some line of the file yields it |
| LogParser.CollectUniform | app.py:22-33 | a file whose every line yields the same record gives that record once per line |
| LogParser.ParseAllWellFormed | app.py:22-33 | every record kept is well formed and comes from a line of the file |
| LogParser.ParseLog | app.py:15-37 | the reading loop returns the records of the matching lines in line order; an unreadable file gives no records |
| AnomalyDetector.ReportIpsSound | app.py:45-51 | every per-ip finding is a tallied ip above the threshold, with its tallied count and its rule's message |
| AnomalyDetector.ReportIpsComplete | app.py:45-51 | every tallied ip above the threshold is reported |
| AnomalyDetector.ReportIpsDistinct | app.py:45-51 | no ip is reported twice when the tally lists no ip twice |
| AnomalyDetector.ReportIpsContents | app.py:45-51 | the three facts above for one rule's report |
| AnomalyDetector.ReportPairsContents | app.py:68-74 | the suspicious-path report is the grouped pairs, one finding per pair, in order, with each pair's count |
| AnomalyDetector.AppendIpFindings | app.py:45-51 | a per-ip rule's loop appends exactly the rule's report to the list so far (also the loops at app.py:56-62 and app.py:82-88) |
| AnomalyDetector.AppendPairFindings | app.py:68-74 | the suspicious-path loop appends exactly one finding per grouped pair |
| AnomalyDetector.Detect | app.py:39-90 | the whole pass returns the four rules' findings in rule order |
| AnomalyDetector.SelectedAll | app.py:44 | the High Frequency rule counts every record |
| AnomalyDetector.SelectedIpCount | app.py:54-55 | counting the selected ips gives the reference count of records from that ip passing the rule's mask |
| AnomalyDetector.SelectedPairCount | app.py:66-67 | counting the selected (ip, path) pairs gives the reference count for that pair |
| AnomalyDetector.IpRule | app.py:43-62 | a per-ip rule reports an ip iff its reference count is above the threshold, with that exact count, and no ip twice (also app.py:76-88) |
| AnomalyDetector.SuspiciousPathAt | app.py:66-74 | the j-th suspicious-path finding is the j-th grouped pair with its reference count, and no pair is grouped twice |
| AnomalyDetector.SuspiciousPathSound | app.py:64-74 | every suspicious-path finding names a suspicious path, with the exact positive number of requests for that ip and path |
| AnomalyDetector.SuspiciousPathComplete | app.py:64-74 | every request for a suspicious path is covered by a finding for its ip and path |
| AnomalyDetector.SuspiciousPathDistinct | app.py:67-74 | no (ip, path) pair is reported twice |
| AnomalyDetector.ReportPairsTotal | app.py:67-74 | the counts the suspicious-path findings carry add up to the grouped counts |
| AnomalyDetector.SuspiciousPathTotal | app.py:64-74 | the counts of the suspicious-path findings add up to the number of requests for a suspicious path |
| AnomalyDetector.SuspiciousPathRule | app.py:64-74 | the four suspicious-path facts together: one finding per distinct matching pair, exact counts, nothing else |
| AnomalyDetector.CountPairPositive | app.py:66-67 | a pair has a positive count exactly when one of its requests is for a suspicious path |
| AnomalyDetector.CountForPositive | app.py:54-55 | an ip has a positive count for a rule exactly when one of its records passes the rule's mask |
| AnomalyDetector.CountBounds | app.py:54-55 | per ip: failed logins <= error responses <= requests (also app.py:77-81 and app.py:44) |
| AnomalyDetector.NonContributing | app.py:77-81 | a record the rule's mask rejects leaves that rule's findings unchanged |
| AnomalyDetector.BlockOfOneKind | app.py:46-47 | every finding a rule appends carries that rule's type |
| AnomalyDetector.BlockIps | app.py:44-88 | every finding of a rule names an ip that sent a request the rule selects |
| AnomalyDetector.OfKindBlocks | app.py:41-90 | four blocks each of its own rule's type, appended in rule order and filtered by type, give back each block |
| AnomalyDetector.AnomaliesOfKind | app.py:41-90 | filtered by type, the findings list is exactly that rule's findings |
| AnomalyDetector.AnomaliesOrdered | app.py:41-90 | the findings list is in rule order |
| AnomalyDetector.AnomaliesIps | app.py:41-90 | every ip the findings list names occurs in the records |
| AnomalyDetector.AnomaliesStructure | app.py:41-90 | the three facts above together |
| AnomalyDetector.IsErrorStatus | app.py:54 | a status is an error when it starts with `4` or `5`; used by `CountFor`, `IpRule` and `CountBounds` |
| AnomalyDetector.SuspiciousPattern | app.py:65 | the six alternatives of the suspicious-path pattern, searched anywhere in the path with `^` and `$` anchoring three of them; see `ConfigPattern` and `ParsedPathNoLineFeed` |
| AnomalyDetector.IsSuspiciousPath | app.py:65-66 | the pattern searched without regard to case; see `SuspiciousIgnoresCase`, `ConfigDirectory`, `EnvFile` and `UpperCaseAdmin` |
| AnomalyDetector.ParsedPathNoLineFeed | app.py:65-66 | a parsed path, a `\S+` group of the line pattern, never ends in a line feed, so on the records the path test is the six literal alternatives with `.env` at the very end |
| AnomalyDetector.IsFailedLogin | app.py:77-80 | `/login` anywhere in the path without regard to case, and status exactly `401`; see `LoginRecordFails` and `ForbiddenLoginNeverCounts` |
| AnomalyDetector.Block | app.py:43-88 | one rule's findings; its properties are `IpRule`, `SuspiciousPathRule`, `BlockOfOneKind`, `BlockIps` and `NonContributing` |
| AnomalyDetector.Anomalies | app.py:41-90 | the four rules' findings appended in rule order; its properties are `AnomaliesStructure` and `Detect` |
| AnomalyDetector.SuspiciousIgnoresCase | app.py:65-66 | the path test gives the same verdict on a path and on its upper-case form |
| Scenarios.ParseAllRepeat | app.py:22-33 | a file of `n` copies of a matching line yields `n` copies of its record |
| Scenarios.RepeatedRecord | app.py:43-88 | `n` identical records give a per-ip finding iff the rule selects them and `n` is above the threshold |
| Scenarios.RepeatedSuspicious | app.py:64-74 | `n` identical requests for a suspicious path give one finding with count `n`; any other path gives none |
| Scenarios.WpLineText | app.py:18 | the layout of the /wp-admin match is the line `10.0.0.1 - - [01/Jan/2024:00:00:00 +0000] "GET /wp-admin HTTP/1.1" 200 100` |
| Scenarios.WpLineParses | app.py:18-33 | that line, as the last line of a file, yields its seven groups |
| Scenarios.WpLineFeedParses | app.py:22-33 | the same line followed by its line feed, as `for line in f` delivers it, yields the same record |
| Scenarios.WpRecordRules | app.py:54-79 | that request is for a suspicious path, is not an error, and is not a failed login |
| Scenarios.RepeatedSuspiciousRecords | app.py:39-90 | up to 1000 copies of a successful, non-login request for a suspicious path give exactly one finding, for that pair, counting every copy |
| Scenarios.RepeatedSuspiciousLine | app.py:15-90 | the same, starting from a file of copies of one line |
| Scenarios.WpAdminScenario | app.py:15-90 | a file of three copies of the /wp-admin line, each with its line feed, gives exactly one Suspicious Path finding for 10.0.0.1, path /wp-admin, count 3 |
| Scenarios.LoginRecordFails | app.py:77-80 | any request whose path contains `/login` at any position and whose status is exactly `401` is a failed login |
| Scenarios.FailedLoginBoundary | app.py:81-82 | a log of six copies of any failed login (and nothing else) is reported with count 6; five copies are not (the general iff for any log is `IpRule`) |
| Scenarios.ForbiddenLoginNeverCounts | app.py:77-80 | requests with any status other than `401` (a 403 on /login, say), in any number and added to any log, leave the failed-login findings as they were, and a log of only such requests has none |
| Scenarios.HighFrequencyBoundary | app.py:44-45 | a log of 1001 copies of one request (and nothing else) is reported with count 1001; 1000 copies are not (the general iff for any log is `IpRule`) |
| Scenarios.HighErrorRateBoundary | app.py:54-56 | a log of 51 copies of one error response (and nothing else) is reported with count 51; 50 copies are not (the general iff for any log is `IpRule`) |
| Scenarios.UpperCaseAdmin | app.py:65-66 | `/ADMIN` is suspicious (the search ignores case) |
| Scenarios.ConfigWithoutSlash | app.py:65-66 | `/config` without its trailing slash is not suspicious |
| Scenarios.ConfigPattern | app.py:65 | no alternative of the pattern matches `/config` |
| Scenarios.ConfigHasNoPart | app.py:65 | `/config` contains none of `/config/`, `/.git` and `/.svn` |
| Scenarios.ConfigDirectory | app.py:65-66 | any path with `/config/` anywhere in it is suspicious |
| Scenarios.EnvFile | app.py:65-66 | any path ending in `.env` is suspicious |

## Left out

- The Flask application (app.py:1-13, app.py:92-124) is not part of this model:
  the upload and results routes, the fixed upload folder and file name, the
  directory creation and the templates.
- Reading the file is left out. `ParseLog` takes the file's lines. `None` stands
  for a file that cannot be opened or read; the parser prints a message and
  returns an empty frame, and the model returns an empty sequence.
- The console messages (app.py:36) and the formatted message text
  are left out. A finding's message is kept as the values it is formatted from
  (`Excessive`, `ErrorRate`, `Accessed`, `FailedAttempts`).
- Character classes cover ASCII only:
  - `\S` is "not ASCII whitespace"; Python's Unicode whitespace outside ASCII is
    not modelled.
  - `\d` is `0`-`9`; other Unicode digits are not modelled.
  - Case-insensitive matching folds the ASCII letters only; Python's further
    Unicode case equivalences (such as the Kelvin sign with `k`) are not modelled.
- Line splitting is left out. The lines are given as `for line in f` delivers
  them: every line but the last ends in a single line feed, because text mode
  turns `\r\n` and a lone `\r` into `\n`. How the file is split into those lines
  is not modelled.
- Row order inside one rule's block is not modelled. `value_counts` lists ips by
  descending count and `groupby` by sorted key; the model lists keys in order of
  first occurrence. All the rule lemmas speak of membership, counts and
  distinctness, which do not depend on that order.
- `detect_anomalies` on a frame with no columns is left out. That call raises a
  `KeyError`, but its only caller never makes it: it redirects when the frame is
  empty (app.py:114-115). The model's `Detect` on no records returns no findings.
- `AppendIpFindings`: the three per-ip loops of the source (app.py:45-51,
  app.py:56-62, app.py:82-88) are one method, parameterised by the rule.
- The synthetic log generator (`log_genrator.py`) is not part of this model.
