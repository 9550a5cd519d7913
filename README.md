# Grafana data-source scanner and Infinity proxy, modelled in Dafny

Two small Python tools turn a Grafana instance into a network oracle.

* `grafana_mssql_health_mapper.py` repeatedly points one MSSQL data source at
  `host:port` and asks Grafana for the data source's health. It turns the
  answer and its latency into a port verdict (`open`, `closed`, `filtered`,
  `unknown`) and writes one `host:port/verdict` line per target. The session
  cookie is rotated every ten probes.
* `grafana_infinity_proxy_poc.py` is an HTTP proxy. It finds the Infinity data
  source called `prxoyds`, rewrites that data source's record so that its
  custom health check fetches the requested URL, and answers with what the
  query returns.

The model covers the logic of both tools. Every HTTP exchange with Grafana is
an input: a value or a function from what is sent to what comes back.

Modules:

* `PyText`: the Python string built-ins used, namely `str.split(sep)`,
  `str.split()`, `int()`, `str(n)`, substring `in`, and string order.
  `Strip` models the surrounding whitespace that `int()` tolerates. The
  modelled functions never call `str.strip()`; `read_targets`, which does, is
  left out.
* `Sorting`: `sorted(set(xs))`, generic over a strict total order.
* `TargetExpansion`: `parse_ports` and `parse_hosts`, written as loops that
  extend a list.
* `TargetUrl`: `extract_base_url_and_uid` as `re.search` with its pattern.
  This includes `$` matching before a final newline.
* `SessionRotation`: the decision in `rotate_grafana_session`.
* `VerdictClassifier`: the analysis in `check_datasource_health`. It holds the
  code as written, a corrected version, and the gap between them.
* `ScanDriver`: the nested loop of `main`. It is a method proved against a
  specification of the targets visited, the cookie in force for each probe,
  and the lines written.
* `JsonValue` and `InfinityProxy`:
  * the data-source lookup, a loop that returns early;
  * the record rewrite, an in-place update of a dictionary, modelled as a
    class;
  * the query-string parsing of `do_GET`, including Python's `dict()` errors;
  * the handler itself.

Three details of the code are worth stating up front:

* For a "failed to connect to server" answer that takes between 1 and 2
  seconds, the code returns nothing. A transport error in the same band gives
  `unknown` (`grafana_mssql_health_mapper.py:246-251`); see Findings.
* `main` increments a version counter (`grafana_mssql_health_mapper.py:318`),
  but the payload line that would carry it is commented out (`:158`), so it is
  never sent. `ScanDriver.Scan` counts it, and `UpdateRequest` does not carry
  it.
* The host-range pattern (`grafana_mssql_health_mapper.py:30`) is anchored
  only at the start, and its last group takes only the digits after the dash.
  So a range written with a full address on both sides, `10.0.0.1-10.0.0.3`,
  yields the ten hosts `10.0.0.1` to `10.0.0.10`
  (`TargetExpansion.FullAddressRange`).

## Model

| member | source | states |
|---|---|---|
| TargetExpansion.ExpandDefined | grafana_mssql_health_mapper.py:14-19 | The token loop completes exactly when every token expands: one bad token makes the whole parse fail. |
| TargetExpansion.ExpandMembers | grafana_mssql_health_mapper.py:14-20 | A value is in the set the loop collects exactly when some token expands to it. |
| TargetExpansion.Range | grafana_mssql_health_mapper.py:17 | `range(lo, hi)` holds exactly the integers `lo <= i < hi`, and `hi - lo` of them (none when `hi <= lo`). |
| TargetExpansion.ElemsRangeList | grafana_mssql_health_mapper.py:17 | The list from `range` and the set from `range` hold the same numbers. |
| TargetExpansion.TokenPortsMeaning | grafana_mssql_health_mapper.py:15-19 | A port token contributes ports exactly when it parses. It then contributes its one port, or every port from the lower to the upper bound. |
| TargetExpansion.ParsePortToken | grafana_mssql_health_mapper.py:15-19 | A token with a dash can only be a span and one without only a single port. A single port is what `int()` reads from the whole token. A span is two dash-free texts joined by one dash, each read by `int()`. A dash-free token parses exactly when `int()` accepts it. |
| TargetExpansion.SpanOfBounds | grafana_mssql_health_mapper.py:15-17 | Conversely, any two dash-free texts that `int()` accepts, joined by one dash, parse as the span between their values. |
| TargetExpansion.ParsePorts | grafana_mssql_health_mapper.py:11-20 | The loop succeeds exactly when every comma-separated token parses. Its result holds exactly the ports of all tokens, strictly ascending, so each port appears once. |
| TargetExpansion.PortsOfMeaning | grafana_mssql_health_mapper.py:14-20 | A port list parses exactly when each of its comma-separated tokens does. A port is then in it exactly when some token covers it. |
| TargetExpansion.SinglePortRoundTrip | grafana_mssql_health_mapper.py:19 | The decimal text of a number is read back as that one port. |
| TargetExpansion.SpanRoundTrip | grafana_mssql_health_mapper.py:15-17 | `A-B` is read as the span from A to B. A span with `A > B` adds no ports. |
| TargetExpansion.ParseIntEmpty | grafana_mssql_health_mapper.py:16 | `int("")` raises, so a token with an empty side of its dash fails. |
| TargetExpansion.PortTokenTooManyDashes | grafana_mssql_health_mapper.py:16 | A token with two or more dashes fails: `start, end = ...` cannot unpack three values. |
| TargetExpansion.PortTokenLeadingDash | grafana_mssql_health_mapper.py:15-16 | A negative-looking port such as `-5` fails: its dash is a range separator with an empty start. |
| TargetExpansion.PortTokenNotANumber | grafana_mssql_health_mapper.py:19 | A dash-free token without a digit fails. |
| TargetExpansion.DigitsThen | grafana_mssql_health_mapper.py:30 | A `\d+` followed by a separator: a non-empty run of digits, then the separator, then the rest of the text. |
| TargetExpansion.MatchOctetRange | grafana_mssql_health_mapper.py:30-32 | A match means the token starts with five runs of digits shaped `W.X.Y.A-B`, and the last run is not followed by a digit. The match yields the prefix `W.X.Y` and the values of `A` and `B`. |
| TargetExpansion.DigitsThenOf | grafana_mssql_health_mapper.py:30 | A digit run followed by the separator is taken whole. |
| TargetExpansion.OctetRangePieces | grafana_mssql_health_mapper.py:30-32 | On a token cut into its pieces, the range pattern yields the prefix `W.X.Y` and the numeric values of both bounds. |
| TargetExpansion.OctetRangeRoundTrip | grafana_mssql_health_mapper.py:30-32 | `W.X.Y.A-B`, followed by anything that does not start with a digit, is matched as prefix `W.X.Y` and bounds A and B. |
| TargetExpansion.RangeHostsOfMatch | grafana_mssql_health_mapper.py:29-33 | A token with a dash and no slash that the pattern matches stands for the hosts of its range. |
| TargetExpansion.RangeTokenHosts | grafana_mssql_health_mapper.py:29-33 | A range token yields exactly `W.X.Y.i` for each i from A to B. |
| TargetExpansion.ElemsRangeHostList | grafana_mssql_health_mapper.py:33 | The generator over the range yields exactly the hosts of the range. |
| TargetExpansion.RangeHostsDistinct | grafana_mssql_health_mapper.py:33 | Different numbers in a range give different host names. |
| TargetExpansion.DashedHostDropped | grafana_mssql_health_mapper.py:29-31 | Any token with a dash and no slash that the `W.X.Y.A-B` pattern does not match silently adds nothing, and is not an error. |
| TargetExpansion.DashedNameDropped | grafana_mssql_health_mapper.py:29-31 | In particular every dashed host name that does not start with a digit, such as `my-host`, adds nothing. |
| TargetExpansion.PlainHostKept | grafana_mssql_health_mapper.py:34-35 | A token with neither a slash nor a dash is kept as one host, verbatim. |
| TargetExpansion.ClassifyHostToken | grafana_mssql_health_mapper.py:26-35 | The first test that holds decides. A slash makes the token a network block. Otherwise a dash makes it a range when the pattern matches, with the match's prefix and bounds, and nothing when it does not. Otherwise the token is a host as written. |
| TargetExpansion.FullAddressRange | grafana_mssql_health_mapper.py:30-33 | The token `10.0.0.1-10.0.0.3` is read as `10.0.0.1-10` followed by ignored text, so it yields the ten hosts `10.0.0.1` to `10.0.0.10`. |
| TargetExpansion.ParseHosts | grafana_mssql_health_mapper.py:22-36 | The loop fails exactly when some CIDR block fails to expand. Its result holds exactly the hosts of all tokens, strictly ascending in string order. |
| TargetExpansion.HostsOfMeaning | grafana_mssql_health_mapper.py:25-35 | A host list parses exactly when each of its words does. A host is then in it exactly when some word yields it. |
| TargetExpansion.HostOrderIsTextual | grafana_mssql_health_mapper.py:36 | Hosts sort as text, not as addresses: `10.0.0.10` comes before `10.0.0.9`. |
| Sorting.ElemsConcat | grafana_mssql_health_mapper.py:17 | Extending a list adds exactly the new elements to its set. |
| Sorting.ElemsEmpty | grafana_mssql_health_mapper.py:13 | A list is empty exactly when its set is. |
| Sorting.NatLessIsStrictTotalOrder | grafana_mssql_health_mapper.py:20 | `<` on integers is a strict total order. |
| Sorting.StringOrderIsStrictTotalOrder | grafana_mssql_health_mapper.py:36 | `<` on strings is a strict total order. |
| Sorting.Insert | grafana_mssql_health_mapper.py:20 | Inserting into an ascending list keeps it ascending, and adds exactly the new element to its set. |
| Sorting.SortedSet | grafana_mssql_health_mapper.py:20 | `sorted(set(xs))` is ascending and duplicate-free, and has exactly the elements of `xs`. |
| Sorting.AscendingUnique | grafana_mssql_health_mapper.py:20 | Two strictly ascending lists with the same elements are equal, so the result does not depend on the input order. |
| PyText.Split | grafana_mssql_health_mapper.py:14 | `s.split(sep)` gives at least one piece, and no piece contains the separator. Joining the pieces with it gives back `s`. Without a separator the result is `[s]`. |
| PyText.SplitJoin | grafana_mssql_health_mapper.py:14 | Splitting the join of separator-free pieces gives those pieces back. |
| PyText.SplitAfterPiece | grafana_mssql_health_mapper.py:16 | A separator-free piece followed by the separator comes out as the first piece. |
| PyText.JoinConcat | grafana_infinity_proxy_poc.py:121 | Joining two lists of pieces is joining each and putting one separator between them. |
| PyText.SplitConcat | grafana_infinity_proxy_poc.py:121 | Splitting `a + sep + b` gives the pieces of `a` followed by the pieces of `b`. |
| PyText.SplitPieces | grafana_infinity_proxy_poc.py:121 | A string splits into more than one piece exactly when it contains the separator. |
| PyText.Words | grafana_mssql_health_mapper.py:25 | `s.split()` gives non-empty words without whitespace. A text starting with a non-space starts with its first word. |
| PyText.WordsOfSpaced | grafana_mssql_health_mapper.py:25 | A word followed by whitespace is the first word of the text. |
| PyText.WordsUnwords | grafana_mssql_health_mapper.py:25 | Words joined by spaces split back into the same words. |
| PyText.TrimLeft | grafana_mssql_health_mapper.py:19 | `lstrip()` removes exactly the leading whitespace. |
| PyText.TrimRight | grafana_mssql_health_mapper.py:19 | `rstrip()` removes exactly the trailing whitespace. |
| PyText.Strip | grafana_mssql_health_mapper.py:19 | `strip()` returns a slice of its argument, and a whitespace-free text unchanged. |
| PyText.ParseInt | grafana_mssql_health_mapper.py:19 | `int(s)` gives a non-negative value whenever the text holds no minus sign. |
| PyText.AllDigitsIsNumeral | grafana_mssql_health_mapper.py:19 | A non-empty run of digits is a numeral `int()` accepts. |
| PyText.NotNumeral | grafana_mssql_health_mapper.py:19 | A text that does not start with a digit is not a numeral. |
| PyText.ParseIntNeedsDigit | grafana_mssql_health_mapper.py:19 | `int()` of a text without a digit raises. |
| PyText.NatToString | grafana_mssql_health_mapper.py:142 | `str(n)` is a non-empty run of digits, with no leading zero unless n is 0. |
| PyText.NumeralValueOfNatToString | grafana_mssql_health_mapper.py:33 | The numeral `str(n)` has the value n. |
| PyText.ParseIntNatToString | grafana_mssql_health_mapper.py:19 | `int(str(n)) == n`. |
| PyText.NatToStringInjective | grafana_mssql_health_mapper.py:33 | `str` is one-to-one on non-negative integers. |
| PyText.LexLessIrreflexive | grafana_mssql_health_mapper.py:36 | No string sorts before itself. |
| PyText.LexLessTransitive | grafana_mssql_health_mapper.py:36 | String order is transitive. |
| PyText.LexLessTotal | grafana_mssql_health_mapper.py:36 | Of two different strings, one sorts before the other. |
| PyText.LeadingRun | grafana_mssql_health_mapper.py:45 | A greedy `[...]+` takes the longest prefix in the class: all of it is in the class, and the next character is not. |
| PyText.LeadingRunOf | grafana_mssql_health_mapper.py:45 | A run in the class, followed by a character outside it, is taken whole. |
| TargetUrl.MatchScheme | grafana_mssql_health_mapper.py:45 | `https?://` matches `https://` or `http://` at the start of the text, and nothing else. |
| TargetUrl.SchemeThen | grafana_mssql_health_mapper.py:45 | Each scheme is matched as itself. |
| TargetUrl.MatchHostAndPath | grafana_mssql_health_mapper.py:45 | `[^/]+` followed by the edit path: a non-empty host without a slash, then the path. |
| TargetUrl.HostAndPathOf | grafana_mssql_health_mapper.py:45 | Every non-empty slash-free host followed by the edit path is matched. |
| TargetUrl.MatchUidAtEnd | grafana_mssql_health_mapper.py:45 | `[a-zA-Z0-9]+$`: a non-empty alphanumeric uid, then the end of the text or a single final newline. |
| TargetUrl.UidAtEndOf | grafana_mssql_health_mapper.py:45 | Every such uid at the end, or before a final newline, is matched. |
| TargetUrl.MatchAt | grafana_mssql_health_mapper.py:45 | An anchored match has a well-formed base URL and uid, and the text is base + edit path + uid, with an optional final newline. |
| TargetUrl.MatchAtOf | grafana_mssql_health_mapper.py:45 | Conversely, every such text is matched, with exactly those groups. |
| TargetUrl.SearchFrom | grafana_mssql_health_mapper.py:45 | `re.search` finds a match exactly when one exists at some position, and returns the one at the first such position. |
| TargetUrl.ExtractBaseUrlAndUid | grafana_mssql_health_mapper.py:43-50 | Extraction succeeds exactly when the pattern matches somewhere. It returns that match's two groups, and otherwise fails with the invalid-format message. |
| TargetUrl.ExtractLeftmost | grafana_mssql_health_mapper.py:45 | The groups come from the leftmost match. |
| TargetUrl.SuffixFrom | grafana_mssql_health_mapper.py:45 | A slice running to the end is a suffix, and shares the last character. |
| TargetUrl.EndsWithMatch | grafana_mssql_health_mapper.py:45 | A text in which a match runs to the end ends in a letter, a digit or a newline. |
| TargetUrl.ExtractShape | grafana_mssql_health_mapper.py:45-49 | A successful extraction gives a well-formed base URL and uid that, with the edit path, end the URL (or come before its final newline). |
| TargetUrl.ExtractRoundTrip | grafana_mssql_health_mapper.py:43-50 | The edit-page URL built from a base URL and a uid, with or without a final newline, yields that base URL and uid. |
| TargetUrl.TrailingCharacterRejected | grafana_mssql_health_mapper.py:45-48 | A URL ending in anything but a letter, a digit or a newline (for example a slash) is rejected. |
| TargetUrl.NoMatchWithoutScheme | grafana_mssql_health_mapper.py:45 | No match starts at a character other than `h`. |
| TargetUrl.LeadingTextSkipped | grafana_mssql_health_mapper.py:45 | The search is not anchored: a leading character that cannot start a scheme is skipped. |
| SessionRotation.RotateSession | grafana_mssql_health_mapper.py:97-108 | Rotation yields a cookie exactly when the status is 200 and the answer sets a non-empty `grafana_session`, and it yields that cookie. Every other answer is an error that stops the scan. |
| VerdictClassifier.VerdictName | grafana_mssql_health_mapper.py:313 | Every verdict is written as one of `open`, `closed`, `filtered`, `unknown`. |
| VerdictClassifier.VerdictNameInjective | grafana_mssql_health_mapper.py:313 | Distinct verdicts are written as distinct words. |
| VerdictClassifier.ClassifyAsWritten | grafana_mssql_health_mapper.py:234-251 | The code as written returns no verdict exactly for an answer that names the connection failure (and not the packet-size error) after 1 up to 2 seconds. |
| VerdictClassifier.Classify | grafana_mssql_health_mapper.py:234-251 | `open` iff the answer names the packet-size error. `closed` iff a connection failure took under 1 s. `filtered` iff it took 2 s or more. `unknown` iff the answer names neither marker, or a failure took 1 up to 2 s. |
| VerdictClassifier.ClassifyRefinesAsWritten | grafana_mssql_health_mapper.py:234-251 | The corrected classification agrees with the code wherever the code gives a verdict, and says `unknown` where it gives none. |
| VerdictClassifier.AsWrittenGap | grafana_mssql_health_mapper.py:237-241 | The answer "failed to connect to server" after 1.5 s gets no verdict from the code, and `unknown` from the correction. |
| VerdictClassifier.PacketMarkerFirst | grafana_mssql_health_mapper.py:235-237 | An answer naming both errors is `open`, whatever the timing. |
| VerdictClassifier.ClassifyMonotone | grafana_mssql_health_mapper.py:238-251 | A later failure is never closed where an earlier one was filtered: filtered stays filtered for longer times, and closed stays closed for shorter ones. |
| ScanDriver.ProbeTarget | grafana_mssql_health_mapper.py:306-317 | One probe sends an update for `host:port` with the current cookie. When the update answered 200 with a JSON body, it writes the corrected verdict of the health check (`Classify`). Otherwise it writes `skipped`: another status, a body that does not parse, or a transport error (lines 187-194). |
| ScanDriver.Scan | grafana_mssql_health_mapper.py:296-319 | After the scan, probe k has used the cookie in force for probe k, sent the update for target k and written target k's line. Rotation r sent the cookie in force before it. The version has advanced once per probe. The scan finishes every target, or stops just before a probe whose number is a multiple of ten, with that rotation's error. |
| ScanDriver.ScanNext | grafana_mssql_health_mapper.py:300-318 | One turn of the inner loop extends that record by one probe, or stops on a failed rotation and leaves it unchanged. |
| ScanDriver.CookieStep | grafana_mssql_health_mapper.py:301-303 | The next probe keeps the cookie unless its number is a multiple of ten. In that case it takes whatever the rotation returns. |
| ScanDriver.RotationCount | grafana_mssql_health_mapper.py:301-302 | One more probe adds a rotation exactly when its number is a multiple of ten. |
| ScanDriver.ProbesStep | grafana_mssql_health_mapper.py:306-317 | Recording one more probe keeps the records of the earlier ones. |
| ScanDriver.RotationsStep | grafana_mssql_health_mapper.py:302-303 | Recording one more rotation keeps the records of the earlier ones. |
| ScanDriver.ScanStep | grafana_mssql_health_mapper.py:300-318 | A probe's update and line, and on a multiple of ten the rotated-away cookie, extend the record of the scan. |
| ScanDriver.TargetsLength | grafana_mssql_health_mapper.py:299-300 | The scan visits as many targets as the number of ports times the number of hosts. |
| ScanDriver.RowMembers | grafana_mssql_health_mapper.py:300 | One pass of the inner loop pairs its port with exactly the listed hosts. |
| ScanDriver.TargetsCrossProduct | grafana_mssql_health_mapper.py:299-300 | The targets visited are exactly the pairs of a listed port and a listed host. |
| ScanDriver.CookieBefore | grafana_mssql_health_mapper.py:301-303 | Probes 1 to 9 use the start cookie. An error can only come from a rotation, so none appears before probe 10. |
| ScanDriver.TargetsPrefix | grafana_mssql_health_mapper.py:299-300 | Each port adds one row after the targets of the ports before it. |
| ScanDriver.TargetsPrefixOf | grafana_mssql_health_mapper.py:299-300 | The targets of the first ports come first. |
| ScanDriver.TargetAtPosition | grafana_mssql_health_mapper.py:299-300 | Host h of port p comes right after all the targets of the earlier ports. |
| ScanDriver.TargetsAt | grafana_mssql_health_mapper.py:299-300 | Ports are the outer loop and hosts the inner one: the position of host h on port p is p times the number of hosts, plus h. |
| ScanDriver.CookieErrorPersists | grafana_mssql_health_mapper.py:106-108 | Once a rotation has failed, the failure stands for every later probe: the script has exited. |
| ScanDriver.CookieChangesOnlyOnRotation | grafana_mssql_health_mapper.py:302-303 | Only probes numbered by a multiple of ten change the cookie. |
| ScanDriver.CookieBetweenRotations | grafana_mssql_health_mapper.py:301-303 | The cookie for probe i is the one in force at the last multiple of ten up to i. |
| ScanDriver.ProbeLine | grafana_mssql_health_mapper.py:306-317 | Every line is `host:port/` followed by one of the four verdict words or `skipped`. It is `skipped` exactly when the update failed: a transport error, a status other than 200, or a body that is not JSON (lines 187-194). |
| InfinityProxy.Inspect | grafana_infinity_proxy_poc.py:27-30 | An entry is chosen iff it is an object with the Infinity type, the name `prxoyds`, a uid and an id, and its uid and id are returned. It is skipped iff it has a type and either the type differs or the name is present and differs. Everything else raises. |
| InfinityProxy.Decision | grafana_infinity_proxy_poc.py:28-34 | Only a matching entry gives a result, its uid and id. Every other outcome is an error that carries the lookup-failure prefix. When no entry matched, the error says the data source was not found. |
| InfinityProxy.DecidesUnique | grafana_infinity_proxy_poc.py:27-30 | At most one entry is the first one the loop does not skip. |
| InfinityProxy.CheckInfinityDatasource | grafana_infinity_proxy_poc.py:22-34 | A failed request exits with its error. Otherwise the first entry not skipped decides: its uid and id, or its exception. Failing that the lookup exits with "not found". A result is the uid and id of an entry preceded only by skipped ones. |
| InfinityProxy.Rewritten | grafana_infinity_proxy_poc.py:48-51 | The rewrite succeeds iff `jsonData` is an object. It then adds or sets `url`, and sets the health-check flag, URL and params inside `jsonData`; every other key, outside and inside, is unchanged. |
| InfinityProxy.RewriteOverwrites | grafana_infinity_proxy_poc.py:48-51 | Rewriting a rewritten record equals rewriting the original once, so each request fully replaces the previous one's settings. |
| InfinityProxy.DatasourceRecord.constructor | grafana_infinity_proxy_poc.py:45 | The record starts as the fetched JSON object. |
| InfinityProxy.DatasourceRecord.Rewrite | grafana_infinity_proxy_poc.py:48-51 | The in-place assignments leave the rewritten record. When `jsonData` is not an object they raise, and leave the record with only `url` changed. |
| InfinityProxy.UpdateInfinityDatasource | grafana_infinity_proxy_poc.py:40-62 | A record is sent back exactly when the fetch succeeded with an object whose `jsonData` is an object, and it is the rewritten record. Every failure is only reported. |
| InfinityProxy.SentRecord | grafana_infinity_proxy_poc.py:40-55 | A record is sent back exactly when the fetched one is an object whose `jsonData` is an object. It is then the rewritten record. |
| InfinityProxy.KeyValuePieces | grafana_infinity_proxy_poc.py:121 | The `if "=" in param` filter keeps exactly the pieces holding `=`. |
| InfinityProxy.KeyValuePiecesConcat | grafana_infinity_proxy_poc.py:121 | The filter works piece by piece, in order. |
| InfinityProxy.Dict | grafana_infinity_proxy_poc.py:121 | `dict()` succeeds exactly when every element has length 2. |
| InfinityProxy.DictFirstError | grafana_infinity_proxy_poc.py:121 | Otherwise it raises Python's message naming the first element that is not a pair, with its length. |
| InfinityProxy.DictAppend | grafana_infinity_proxy_poc.py:121 | A further pair updates the dictionary built so far. Anything else raises unless an earlier element already did. |
| InfinityProxy.DictKeys | grafana_infinity_proxy_poc.py:121 | The keys are exactly the first items of the pairs. |
| InfinityProxy.DictLastWins | grafana_infinity_proxy_poc.py:121 | Each key holds the value of its last pair. |
| InfinityProxy.SplitPairsConcat | grafana_infinity_proxy_poc.py:121 | Splitting on `=` works piece by piece, in order. |
| InfinityProxy.ParseQuery | grafana_infinity_proxy_poc.py:121 | Parsing fails exactly when some `&`-piece holds two or more `=`. Otherwise the keys are exactly the parts before `=` of the pieces that hold one. |
| InfinityProxy.PairsFail | grafana_infinity_proxy_poc.py:121 | For any list of pieces, `dict()` of the pairs fails exactly when some piece holds two or more `=`. |
| InfinityProxy.PairsKeys | grafana_infinity_proxy_poc.py:121 | For any list of pieces, the keys of the pairs are exactly the parts before `=` of the pieces that hold one. |
| InfinityProxy.KeyValuePiece | grafana_infinity_proxy_poc.py:121 | A plain `key=value` is one piece, is kept, and splits into the key and the value. |
| InfinityProxy.ParseQuerySingle | grafana_infinity_proxy_poc.py:121 | `key=value` parses to that single pair. |
| InfinityProxy.ParseQueryAppend | grafana_infinity_proxy_poc.py:121 | Appending `&key=value` sets that key, overriding any earlier value. An earlier error stays. |
| InfinityProxy.ParseQueryIgnoresBarePiece | grafana_infinity_proxy_poc.py:121 | Appending a piece without `=` changes nothing. |
| InfinityProxy.ParseQueryKeepsSlash | grafana_infinity_proxy_poc.py:120-121 | The whole path is parsed, so `/key=value` gives the key `/key`: the leading slash is not removed. |
| InfinityProxy.ParseQueryTwoEquals | grafana_infinity_proxy_poc.py:121 | `k=m=v` is rejected: element #0 has length 3 where 2 is required. |
| InfinityProxy.HandleGet | grafana_infinity_proxy_poc.py:117-148 | A malformed query answers 500 with `{"error": ...}` and sends nothing to Grafana. Otherwise the rewritten record is sent, and the answer is 200 with the extracted data, or 500 with the error when that data could not be obtained. |

## Left out

- HTTP, cookie jars, headers and the constant payload fields of both tools are
  left out. Every exchange is an input: `ScanDriver.Network` for the scanner,
  and `Result` values for the proxy's fetches.
- Clocks are left out. The elapsed time of a health check is part of the
  probe's input.
- `ipaddress.ip_network(...).hosts()` is a parameter, `cidr`. It maps a block
  to its usable hosts, or fails where `ip_network` raises.
- `argparse`, `read_targets` (the `--list` file), opening and flushing the
  output file, and every debug print are I/O and are left out. So is the
  proxy's server start-up, which reads the arguments and runs the lookup once
  at import.
- `query_infinity_datasource` and the nested lookup of
  `["results"]["A"]["frames"][0]...["data"]` are left out. Together they are
  the `queried` input of `InfinityProxy.HandleGet`. A failing `str.encode`
  after the 200 status line has been sent is treated like a failure before it.
- InfinityProxy.CheckInfinityDatasource: for a list response that is not a
  JSON list, only the exit is stated, not the wording of the Python exception.
- InfinityProxy.Inspect: for an entry that is not an object, the wording of
  the `TypeError` is not modelled, only that the lookup raises.
- JSON floats are not modelled. Numbers are integers, which is all the
  records carry.
- Nested dictionaries are values: the aliasing between `datasource` and its
  `jsonData` member is not observable in the code and is not modelled.
- Non-ASCII text is left out: `int()` and the regular expression's `\d` also
  accept non-ASCII digits, and `int()` and `str.split()` also accept Unicode
  whitespace. `PyText.ParseInt`, `PyText.Words` and
  `TargetExpansion.MatchOctetRange` take only the ASCII ones.
- ScanDriver.Updated: with versions of `requests` older than 2.27, the decoding
  error of a 200 answer whose body is not JSON is not caught (line 192 catches
  only `RequestException`) and ends the program. The model treats that answer
  as a failed update, as newer versions do.
- ScanDriver.ProbeTarget: writes the corrected verdict. For a "failed to
  connect to server" answer after 1 up to 2 seconds it writes `unknown`,
  where the code as written raises at the unpacking on line 310 (see Findings).
- ScanDriver.Scan: writes each line with the corrected `Classify`. The code
  as written would crash on an unpacking error in the gap described under
  Findings.

## Findings

| source | as written | input that shows it | evidently intended | confidence | as-written member | corrected member |
|---|---|---|---|---|---|---|
| grafana_mssql_health_mapper.py:237-241 | For an answer naming "failed to connect to server", only `elapsed < 1` and `elapsed >= 2` return. From 1 up to 2 seconds the function falls off the end and returns `None`, and `status, response = ...` in `main` then raises. | Grafana answers "failed to connect to server" after 1.5 s | `unknown`, as for a transport error in the same time band (lines 246-251) | not executed | VerdictClassifier.ClassifyAsWritten, VerdictClassifier.AsWrittenGap | VerdictClassifier.Classify |
