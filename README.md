# porkbun_api_client: nameserver propagation and DNS-record scripts in Dafny

This project models three parts of the porkbun_api_client scripts and proves properties of them.

**The propagation monitor** (`15_verify_name_server_propagation.py`). Each cycle:
- asks every primary public resolver for the domain's NS records, and
  groups the results by region;
- for every region where no primary resolver gave an answer, asks one
  backup resolver drawn from that region's list;
- sorts all results by (region, server name);
- shows a dashboard. The dashboard gives each result one status: ERROR,
  NO DATA, CLOUDFLARE or OLD NS. It counts responsive and propagated
  resolvers, draws a 50-cell bar and buckets a completion estimate.

The main loop repeats the cycle until no interval was given, or until at
least one resolver responded and every responsive resolver shows a target
nameserver. It then prints one of three verdicts.

**The `KEY=value` record file.** The create, delete and check scripts all
read the test record from it with `load_record_config`:
- the delete and check scripts split each line at its first `=`;
- the create script matches each line against a regular expression;
- each script then checks its own list of required keys.

**Record selection and request building.**
- Delete script: pick the unique record whose content matches, then build
  the lookup path and the delete path.
- Check script: scan for the test record by bare or full name and by type.
- Create script: build the create request.

Modules follow the program. Shared pieces:
- `Wrappers`: Option and Result.
- `Text`: the Python string operations the scripts use. These are
  `strip`, `rstrip('.')`, ASCII `lower`, `find`, `split`, `join` and
  `replace`.
- `Registrar`: the view of the registrar's replies and paths.
- `ConfigFile`: the line loop shared by all three `load_record_config`
  functions.

Script 15:
- `Resolvers`: the two region tables and the region and backup lookups.
- `DigQuery`: the shaping done by `run_dig_command`.
- `Nameservers`: `is_cloudflare_nameserver`.
- `ResultOrder`: the result sort.
- `Propagation`: `verify_nameserver_propagation`.
- `Dashboard`: `display_nameserver_dashboard`.
- `Monitor`: the main block.

Scripts 09, 11 and 12: `SplitConfig` and `RegexConfig` are the two line
parsers. `CreateRecord`, `DeleteRecord` and `CheckRecord` are the three
scripts.

A step-by-step Python loop is modelled as a `method` with a loop. That
method's `ensures` ties its result to a recursive specification function,
and lemmas about that function carry the properties. The loops modelled
this way are:
- the config reading loop;
- the primary-server gathering;
- the grouping;
- the backup selection;
- both dashboard counting loops;
- the record filter and the presence scan;
- the monitoring loop.

Expressions over `next`/`any` generators and f-strings are modelled as
functions.

The monitoring loop has no `while True`. It runs over a given sequence of
cycles, each with its own `dig` outcome per resolver. When that sequence
runs out before the stop rule holds, the user pressed Ctrl+C.

Inputs that replace the outside world:
- **`dig` queries:** each query's outcome is an input. It is a finished
  process with return code, stdout and stderr, a `TimeoutExpired`, or
  another exception with its text.
- **`random.choice`:** Dafny's `:|` picks some element of the region's
  backup list.
- **Target nameservers:** the list is a parameter. The script's
  `CLOUDFLARE_NS` is `Nameservers.CloudflareNs`.
- **Registrar replies:** a reply is an input value. It is either the
  decoded JSON (status, records, message) or the failure of the call.
- **Record file:** given as its sequence of lines.

Four details of the code that the model keeps:
- **Timeout message:** a timed-out query has the error text "Timeout
  querying DNS server".
- **Target normalisation:** targets are only lower-cased. Trailing dots are
  stripped from the returned nameserver, not from the targets.
- **Order of results:** `executor.map` returns results in input order.
- **Success:** `success` is the return code being 0. Answers are kept even
  when the return code is not 0.

## Model

| member | source | states |
|---|---|---|
| Nameservers.Normalize | 15_verify_name_server_propagation.py:240 | (definition) The answer lower-cased, then every trailing dot removed |
| Nameservers.IsCloudflareNameserver | 15_verify_name_server_propagation.py:238-241 | (definition) Some lower-cased target equals the normalised answer |
| Nameservers.MatchIff | 15_verify_name_server_propagation.py:238-241 | A nameserver matches iff, lower-cased, it is some lower-cased target that does not end with a dot, followed by any run of dots |
| Nameservers.CaseNeverMatters | 15_verify_name_server_propagation.py:240-241 | Two nameservers with the same lower-case form get the same verdict |
| Nameservers.TrailingDotsNeverMatter | 15_verify_name_server_propagation.py:240 | Appending any number of dots never changes the verdict |
| Nameservers.DottedTargetNeverMatches | 15_verify_name_server_propagation.py:241 | A target that ends with a dot matches no nameserver, because targets are lower-cased but not dot-stripped |
| Nameservers.TargetRecognised | 15_verify_name_server_propagation.py:238-241 | A target that does not end with a dot is recognised, with any number of trailing dots added |
| Text.Strip | 15_verify_name_server_propagation.py:124 | `str.strip()`: a slice of the text with only whitespace before and after it; empty iff the text is all whitespace, otherwise starting and ending with a non-space |
| Text.RStripChar | 15_verify_name_server_propagation.py:240 | `rstrip('.')`: the longest prefix not ending in a dot, with only dots removed after it |
| Text.Lower | 15_verify_name_server_propagation.py:240 | `lower()` keeps the length and lower-cases character by character |
| Text.JoinSplit | 15_verify_name_server_propagation.py:129 | Joining the pieces of `s.split(sep)` with `sep` gives `s` back |
| Text.SplitPiecesFree | 15_verify_name_server_propagation.py:129 | No piece of `s.split(sep)` contains `sep` |
| Text.SplitJoin | 15_verify_name_server_propagation.py:129 | Splitting a join of separator-free pieces gives the pieces back |
| Text.StripSlice | 15_verify_name_server_propagation.py:124 | The text between the leading and the trailing whitespace is empty iff the text is all whitespace, and otherwise starts and ends with a non-space |
| Text.Find | 11_delete_dns_check_record.py:36 | The index of the first occurrence of the pattern, or None iff it does not occur |
| Resolvers.RegionOf | 15_verify_name_server_propagation.py:137-140 | (definition) The first primary region listing the IP, else the first backup region listing it, else "Unknown" |
| Resolvers.IsBackup | 15_verify_name_server_propagation.py:144 | (definition) No primary region lists the IP |
| Resolvers.FirstRegionListing | 15_verify_name_server_propagation.py:137-140 | None iff no table entry lists the IP; otherwise the region of an entry that lists it with no earlier entry listing it |
| Resolvers.PrimaryServerRegion | 15_verify_name_server_propagation.py:137-144 | A primary server gets the region of the first primary entry listing it and is not a backup |
| Resolvers.BackupServerRegion | 15_verify_name_server_propagation.py:137-144 | A server only in the backup table gets the first backup region listing it |
| Resolvers.UnlistedServer | 15_verify_name_server_propagation.py:137-144 | An IP in neither table is in region "Unknown" and flagged as backup |
| Resolvers.BackupsOf | 15_verify_name_server_propagation.py:219 | The servers of the region's first entry, and empty when the table has no such region |
| Resolvers.Flatten | 15_verify_name_server_propagation.py:195-197 | A server is in the flattened table iff some region lists it |
| Resolvers.AllPrimaryServers | 15_verify_name_server_propagation.py:195-197 | The extend loop yields every primary server, region by region in table order |
| Resolvers.EveryRegionHasBackups | 15_verify_name_server_propagation.py:73-98 | Every region of the script's backup table has a non-empty backup list |
| DigQuery.RunDig | 15_verify_name_server_propagation.py:113-172 | Server, IP, region and backup flag come from the directory. Success iff the process finished with code 0. Timeout and exception give no answers and their own error text. A finished process gives the answers of its stdout and the stripped stderr as error when stderr is non-empty |
| DigQuery.Answers | 15_verify_name_server_propagation.py:124-132 | (definition) No answers when the stripped output is empty, otherwise its pieces split at newlines |
| DigQuery.AnswersShape | 15_verify_name_server_propagation.py:124-132 | No answers iff the stripped output is empty; otherwise the answers joined with newlines are the stripped output, and no answer holds a newline |
| DigQuery.AnswersOfLines | 15_verify_name_server_propagation.py:128-130 | The answers of a stripped multi-line output are exactly its lines, in order |
| DigQuery.FailedQueryIsNotUsable | 15_verify_name_server_propagation.py:147-172 | A query that timed out or raised is unsuccessful with no answers |
| DigQuery.QueryAll | 15_verify_name_server_propagation.py:199-204 | One result per server, in server order |
| Propagation.Regions | 15_verify_name_server_propagation.py:207-212 | The keys of the grouping dictionary: each region of the results, once |
| Propagation.RegionsInFirstAppearanceOrder | 15_verify_name_server_propagation.py:207-212 | The keys come in order of first appearance: every result of a later key comes after some result of each earlier key |
| Propagation.Group | 15_verify_name_server_propagation.py:207-212 | The results of one region, exactly those |
| Propagation.GroupMapIsGrouping | 15_verify_name_server_propagation.py:207-212 | The dictionary has exactly the regions of the results as keys, each mapped to its group |
| Propagation.GroupsPartition | 15_verify_name_server_propagation.py:207-212 | Every result is in the group of its own region and in no other |
| Propagation.GroupByRegion | 15_verify_name_server_propagation.py:207-212 | The grouping loop builds exactly those keys and groups |
| Propagation.Usable | 15_verify_name_server_propagation.py:218 | (definition) Some result of the group succeeded with a non-empty answer list |
| Propagation.NeedyOf | 15_verify_name_server_propagation.py:215-221 | At most one backup per region of the dictionary |
| Propagation.NeedyOfMembers | 15_verify_name_server_propagation.py:216-219 | A region gets a backup iff it is a key, no result in it is usable, and its backup list is non-empty |
| Propagation.NeedyRegions | 15_verify_name_server_propagation.py:207-219 | (definition) The regions the backup loop visits and keeps, computed from the grouping of the primary results |
| Propagation.NeedyRegionsIff | 15_verify_name_server_propagation.py:207-221 | A region gets a backup query iff some primary result is in it, none of them succeeded with an answer, and it has a non-empty backup list |
| Propagation.NeedyDistinct | 15_verify_name_server_propagation.py:216-221 | No region gets two backup queries |
| Propagation.ChooseBackups | 15_verify_name_server_propagation.py:215-221 | Exactly one backup for each region needing one, in dictionary order, each drawn from that region's own list |
| Propagation.CycleSize | 15_verify_name_server_propagation.py:233-234 | The merged list has one result per primary server plus one per backup, and there are no more backups than regions |
| Propagation.CycleOf | 15_verify_name_server_propagation.py:182-236 | (definition) A cycle's results are sorted and are a permutation of the primary results followed by one backup result for each needy region, each backup from that region's list |
| Propagation.VerifyPropagation | 15_verify_name_server_propagation.py:182-236 | The returned list is sorted by (region, server) and is a permutation of the primary results followed by the results of the chosen backups |
| ResultOrder.StrLeTotal | 15_verify_name_server_propagation.py:234 | String order is total |
| ResultOrder.StrLeTransitive | 15_verify_name_server_propagation.py:234 | String order is transitive |
| ResultOrder.StrLeAntisymmetric | 15_verify_name_server_propagation.py:234 | String order is antisymmetric |
| ResultOrder.KeyLeTotal | 15_verify_name_server_propagation.py:234 | The (region, server) key order is total |
| ResultOrder.KeyLeTransitive | 15_verify_name_server_propagation.py:234 | The (region, server) key order is transitive |
| ResultOrder.Insert | 15_verify_name_server_propagation.py:234 | Insertion adds exactly the element |
| ResultOrder.InsertSorted | 15_verify_name_server_propagation.py:234 | Inserting into a sorted list keeps it sorted |
| ResultOrder.SortResults | 15_verify_name_server_propagation.py:233-234 | The sorted list is a permutation of its input |
| ResultOrder.SortResultsSorted | 15_verify_name_server_propagation.py:234 | The sorted list is ordered by (region, server) |
| Dashboard.Classify | 15_verify_name_server_propagation.py:287-306 | (definition) ERROR when unsuccessful, NO DATA when there are no answers, CLOUDFLARE when some answer matches, OLD NS otherwise |
| Dashboard.ClassifyIff | 15_verify_name_server_propagation.py:287-306 | ERROR iff not successful; NO DATA iff successful with no answers; CLOUDFLARE iff successful with a matching answer; OLD NS iff successful, with answers, none matching |
| Dashboard.CloudflareStatusIff | 15_verify_name_server_propagation.py:296-302 | CLOUDFLARE iff successful and some answer, lower-cased, is a lower-cased target followed only by dots |
| Dashboard.CountWhere | 15_verify_name_server_propagation.py:274-299 | A counter never exceeds the number of results |
| Dashboard.PropagatedAtMostResponsive | 15_verify_name_server_propagation.py:283-299 | Never more propagated than responsive resolvers |
| Dashboard.AllPropagatedIff | 15_verify_name_server_propagation.py:283-299 | The two counters are equal iff every responsive result is CLOUDFLARE |
| Dashboard.NoneResponsiveIff | 15_verify_name_server_propagation.py:283-284 | No responsive resolver iff every query failed |
| Dashboard.GroupSnoc | 15_verify_name_server_propagation.py:266-271 | One more result is appended to its own region's group only |
| Dashboard.SumGroupsSnoc | 15_verify_name_server_propagation.py:278-299 | Over distinct regions, one more result adds to the region-by-region sum only through its own region |
| Dashboard.GroupedCountsAreCounts | 15_verify_name_server_propagation.py:266-299 | Counting region by region over the dictionary counts every result exactly once |
| Dashboard.CountRegion | 15_verify_name_server_propagation.py:281-306 | The inner loop's counters are the propagated and responsive counts of the region's results |
| Dashboard.DashboardCounts | 15_verify_name_server_propagation.py:266-364 | The returned pair is (number of CLOUDFLARE results, number of successful results) over all results |
| Dashboard.FilledCells | 15_verify_name_server_propagation.py:326-333 | Zero when nobody responded; otherwise the whole number of 50ths the propagated share covers |
| Dashboard.FilledCellsBounds | 15_verify_name_server_propagation.py:326-334 | Never more than 50 cells; exactly 50 iff some resolver responded and all responsive ones propagated |
| Dashboard.FilledCellsMonotone | 15_verify_name_server_propagation.py:333 | More propagated resolvers never fill fewer cells |
| Dashboard.Bar | 15_verify_name_server_propagation.py:332-334 | Exactly 50 cells with the filled ones first, then the empty ones |
| Dashboard.EstimateOf | 15_verify_name_server_propagation.py:341-356 | (definition) The hour bucket for a share strictly between 0 and 100 percent (below 30, 60 and 90 percent), complete at 100 percent, nothing detected otherwise |
| Dashboard.EstimateAgreesWithBar | 15_verify_name_server_propagation.py:341-356 | The estimate says complete iff the bar is full, and nothing-detected iff no resolver propagated |
| Dashboard.EstimateMonotone | 15_verify_name_server_propagation.py:341-350 | With the same responsive count, more propagated resolvers never give a longer estimate |
| Dashboard.ShowsNote | 15_verify_name_server_propagation.py:359 | (definition) The share is below 100 percent, which includes nobody responding |
| Dashboard.NoteIffIncomplete | 15_verify_name_server_propagation.py:359 | The propagation note is shown iff the estimate is not complete |
| Monitor.ShouldStop | 15_verify_name_server_propagation.py:415 | (definition) No positive interval, or at least one resolver responded and all responsive ones propagated |
| Monitor.VerdictOf | 15_verify_name_server_propagation.py:431-438 | (definition) Success when all of at least one responsive resolver propagated, in progress when some propagated, not started otherwise |
| Monitor.CountsRecordedAt | 15_verify_name_server_propagation.py:408-410 | Every history entry is the dashboard's counts of that cycle's results |
| Monitor.StoppedAtFirstSnoc | 15_verify_name_server_propagation.py:414-416 | After a cycle that did not stop the loop, the next cycle stops it exactly when its counts meet the stop rule |
| Monitor.NoIntervalChecksOnce | 15_verify_name_server_propagation.py:415-416 | Without a positive interval the script runs one cycle and stops |
| Monitor.StopMeansFullyPropagated | 15_verify_name_server_propagation.py:415-432 | With an interval, a loop that stopped by itself ends in the success verdict, and every responsive resolver of the last cycle shows a target |
| Monitor.VerdictIff | 15_verify_name_server_propagation.py:431-438 | On dashboard counts: full iff some responded and all propagated; partial iff 0 < propagated < responsive; not started iff none propagated |
| Monitor.VerdictAgreesWithEstimate | 15_verify_name_server_propagation.py:431-438 | The verdict is success iff the estimate is complete, not started iff it is nothing-detected, and partial iff it gives hours |
| Monitor.FinalVerdictAsWritten | 15_verify_name_server_propagation.py:427-438 | (definition) The verdict of the last counts, or a NameError when no cycle completed |
| Monitor.InterruptedFirstCycleCrashes | 15_verify_name_server_propagation.py:427-431 | Ctrl+C before the first cycle's counts exist ends in a NameError as written |
| Monitor.FinalVerdict | 15_verify_name_server_propagation.py:427-438 | Agrees with the message as written whenever a cycle completed, and says not started otherwise |
| Monitor.LastCounts | 15_verify_name_server_propagation.py:408-431 | None iff no cycle completed, otherwise the counts of the last one |
| Monitor.RunCycle | 15_verify_name_server_propagation.py:403-410 | One full propagation check and the dashboard's counts of its results |
| Monitor.Run | 15_verify_name_server_propagation.py:396-438 | Every completed cycle is a full check with its counts; the loop stops at the first cycle meeting the stop rule, or runs every supplied cycle; the verdict is read from the last cycle |
| ConfigFile.EntryOf | 11_delete_dns_check_record.py:31-45 | (definition) Nothing for a blank or `#` line after stripping, otherwise the script's parse of the stripped line |
| ConfigFile.Fold | 11_delete_dns_check_record.py:30-45 | (definition) The dictionary built line by line, each accepted entry overwriting its key |
| ConfigFile.LoadEntries | 11_delete_dns_check_record.py:27-47 | The reading loop yields the fold of the lines: blank and `#` lines skipped, each accepted line overwriting its key |
| ConfigFile.CheckRequired | 11_delete_dns_check_record.py:55-58 | Accepted iff every required key is present; an accepted config is unchanged; the error names the required keys |
| ConfigFile.LoadRecordConfig | 11_delete_dns_check_record.py:25-59 | Accepted iff every required key is in the loaded config, which is then returned |
| ConfigFile.SkippedLineAddsNothing | 11_delete_dns_check_record.py:31-33 | A line that is blank after stripping, or a `#` comment, leaves the config unchanged |
| ConfigFile.AcceptedLineOverwrites | 11_delete_dns_check_record.py:45 | An accepted line sets its key to its value and leaves every other key as it was |
| ConfigFile.OtherLineKeeps | 11_delete_dns_check_record.py:45 | A line without the key leaves that key's presence and value unchanged |
| ConfigFile.KeyPresentIffSomeLine | 11_delete_dns_check_record.py:30-45 | A key is in the config iff some line gives it |
| ConfigFile.LastLineWins | 11_delete_dns_check_record.py:45 | A key's value is the one on the last line that gives that key |
| SplitConfig.Unescape | 11_delete_dns_check_record.py:44 | (definition) Every backslash-quote replaced by a quote |
| SplitConfig.ParseLine | 11_delete_dns_check_record.py:36-45 | (definition) None without `=`, otherwise the stripped key before the first `=` and the stripped, unquoted, unescaped value after it |
| SplitConfig.Unquote | 11_delete_dns_check_record.py:41-42 | The value changes only when it starts and ends with `"`, and then exactly one outer pair of quotes goes |
| SplitConfig.UnquoteQuoted | 11_delete_dns_check_record.py:41-42 | Unquoting a quoted text gives the text back, inner quotes included |
| SplitConfig.UnescapeReplacesEachOccurrence | 11_delete_dns_check_record.py:44 | The value is its escape-free stretches joined by the escape. Each escape becomes one quote. A value without the escape is unchanged |
| SplitConfig.ParseLineSplitsAtFirstEquals | 11_delete_dns_check_record.py:36-45 | A line is split at its first `=`: stripped key, then the stripped, unquoted, unescaped value |
| SplitConfig.ParseLineNeedsEquals | 11_delete_dns_check_record.py:36-47 | A line is accepted iff it contains `=` |
| SplitConfig.ParsedKeyHasNoEquals | 11_delete_dns_check_record.py:36-38 | An accepted line's key has no `=` |
| SplitConfig.ConfigKeysHaveNoEquals | 12_check_delete_dns_check_record.py:30-45 | No key of a loaded config contains `=` |
| RegexConfig.QuotedValue | 09_create_dns_check_record.py:34 | (definition) The value group of the pattern: an optional leading quote, a quote-free body, an optional trailing quote |
| RegexConfig.Captured | 09_create_dns_check_record.py:38-41 | (definition) The backslash-quote replacement applied to RECORD_CONTENT only |
| RegexConfig.ParseLine | 09_create_dns_check_record.py:34-42 | (definition) The non-empty key before the first `=` and the value group of the rest, after the RECORD_CONTENT replacement; None when the key is empty or the rest does not match |
| RegexConfig.QuotedValueHasNoQuote | 09_create_dns_check_record.py:34-36 | A captured value never contains `"` |
| RegexConfig.ContentReplaceIsIdentity | 09_create_dns_check_record.py:38-41 | So the backslash-quote replacement on RECORD_CONTENT leaves a captured value unchanged |
| RegexConfig.QuotedValueShape | 09_create_dns_check_record.py:34 | An accepted value part is the value with an optional leading and an optional trailing quote |
| RegexConfig.ShapeGivesQuotedValue | 09_create_dns_check_record.py:34 | Every quote-free value with optional leading and trailing quotes is captured as exactly that value |
| RegexConfig.ParseLineKey | 09_create_dns_check_record.py:34-36 | The key is the non-empty, unstripped text before the first `=` |
| RegexConfig.ParseLineSound | 09_create_dns_check_record.py:34-42 | Every accepted line has the shape of the pattern, with the two groups as key and value |
| RegexConfig.ParseLineComplete | 09_create_dns_check_record.py:34-42 | Every line of that shape is accepted with exactly those groups |
| RegexConfig.InnerQuoteRejected | 09_create_dns_check_record.py:34-44 | A quote in the value part other than its first or last character makes the line malformed |
| RegexConfig.EscapedContentRejected | 09_create_dns_check_record.py:37-41 | The escaped form the replacement is written for, `RECORD_CONTENT="\"hi\""`, is skipped as malformed |
| RegexConfig.ConfigEntriesMatchPattern | 09_create_dns_check_record.py:30-42 | Every loaded key is non-empty without `=`, and every value is quote-free |
| Registrar.RetrievedRecords | 11_delete_dns_check_record.py:86 | Records iff the reply has status SUCCESS and a records field, and they are that field |
| Registrar.FullName | 11_delete_dns_check_record.py:80 | The domain when the name is empty, otherwise name, a dot, then the domain |
| Registrar.FullNameInjective | 11_delete_dns_check_record.py:80 | Within one domain, different names give different full names |
| Registrar.PathSegments | 11_delete_dns_check_record.py:82 | A path of `/`-free segments splits back into them |
| Registrar.PathInjective | 11_delete_dns_check_record.py:82 | Two paths of `/`-free segments are equal only when the segments are |
| DeleteRecord.LoadRecordConfig | 11_delete_dns_check_record.py:25-59 | Accepted iff RECORD_NAME, RECORD_TYPE and RECORD_CONTENT are all present |
| DeleteRecord.LookupEndpoint | 11_delete_dns_check_record.py:82 | (definition) The path of the segments dns, retrieveByNameType, domain, type and name |
| DeleteRecord.LookupEndpointText | 11_delete_dns_check_record.py:82 | The lookup path is `/dns/retrieveByNameType/{domain}/{type}/{name}` |
| DeleteRecord.LookupEndpointInjective | 11_delete_dns_check_record.py:82 | Different domain, type or name give different lookup paths |
| DeleteRecord.DeleteEndpoint | 11_delete_dns_check_record.py:128 | (definition) The path of the segments dns, delete, domain and id |
| DeleteRecord.DeleteEndpointText | 11_delete_dns_check_record.py:128 | The delete path is `/dns/delete/{domain}/{id}` |
| DeleteRecord.DeleteEndpointInjective | 11_delete_dns_check_record.py:128 | Different domain or id give different delete paths |
| DeleteRecord.ContentMatches | 11_delete_dns_check_record.py:90 | (definition) No filter, or the record's content equals it |
| DeleteRecord.Matching | 11_delete_dns_check_record.py:87-91 | The kept records are exactly those passing the content filter |
| DeleteRecord.MatchingWithoutFilter | 11_delete_dns_check_record.py:90 | A None filter keeps every record |
| DeleteRecord.SingleMatch | 11_delete_dns_check_record.py:93-96 | One kept record: it is at some index and no other record passes the filter |
| DeleteRecord.SeveralMatches | 11_delete_dns_check_record.py:97-99 | Two or more kept iff two different records pass the filter |
| DeleteRecord.GetDnsRecordId | 11_delete_dns_check_record.py:66-115 | A returned id is the id of the one record passing the filter; None when the lookup failed or zero or several records pass |
| DeleteRecord.DeletionTarget | 11_delete_dns_check_record.py:164-165 | A delete path iff the id is present and non-empty, and then it is that id's path |
| DeleteRecord.Run | 11_delete_dns_check_record.py:138-165 | A config error iff a required key is missing. The lookup is by the configured type and name. Deletion happens iff exactly one record has the configured content and a non-empty id, through that id's path |
| CheckRecord.LoadRecordConfig | 12_check_delete_dns_check_record.py:25-59 | Accepted iff RECORD_NAME and RECORD_TYPE are present |
| CheckRecord.ContentNotRequired | 12_check_delete_dns_check_record.py:55-58 | A RECORD_CONTENT line never changes whether the config is accepted |
| CheckRecord.RetrieveEndpoint | 12_check_delete_dns_check_record.py:80 | (definition) The path of the segments dns, retrieve and domain |
| CheckRecord.RetrieveEndpointText | 12_check_delete_dns_check_record.py:80 | The listing path is `/dns/retrieve/{domain}` |
| CheckRecord.RetrieveEndpointInjective | 12_check_delete_dns_check_record.py:80 | Different domains give different listing paths |
| CheckRecord.IsTestRecord | 12_check_delete_dns_check_record.py:113-114 | (definition) The record's name is the bare or the full name, and its type is the configured one |
| CheckRecord.TestRecords | 12_check_delete_dns_check_record.py:110-120 | The reported records are exactly the records of the configured type whose name is the bare or the full name |
| CheckRecord.TestRecordsEmpty | 12_check_delete_dns_check_record.py:109-123 | Nothing is reported iff no record matches |
| CheckRecord.TestRecordsKeepsDuplicates | 12_check_delete_dns_check_record.py:116-120 | Two duplicate matches are both reported |
| CheckRecord.FindTestRecord | 12_check_delete_dns_check_record.py:109-122 | The flag is set iff some record matches; every match is reported in order, without stopping at the first |
| CheckRecord.Run | 12_check_delete_dns_check_record.py:90-131 | A config error iff name or type is missing. API error iff the listing failed. Found iff some listed record matches the name or full name and the type, with all matches reported |
| CreateRecord.LoadRecordConfig | 09_create_dns_check_record.py:24-58 | Accepted iff RECORD_NAME, RECORD_TYPE, RECORD_CONTENT and RECORD_TTL are all present |
| CreateRecord.CreateDnsRecord | 09_create_dns_check_record.py:65-91 | Endpoint `/dns/create/{domain}`; payload with exactly the keys name, type, content and ttl, holding the arguments |
| CreateRecord.DefaultTtl | 09_create_dns_check_record.py:65 | Without a TTL the payload's ttl is "600" |
| CreateRecord.CreateEndpointInjective | 09_create_dns_check_record.py:84 | Different domains give different create paths |
| CreateRecord.Run | 09_create_dns_check_record.py:100-125 | A config error iff a required key is missing; otherwise the create request carries the four configured values, none containing `"` |

## Left out

- Running `dig`, `check_command_exists` (`which`) and the `+time` option are left out: they are an external process. Each query's outcome is an input.
- `ThreadPoolExecutor` and its worker counts are left out, because they are concurrency. `executor.map` keeps input order, so it is modelled as a sequential map.
- `random.choice` is not modelled as a uniform draw: any element of the region's backup list may be chosen.
- Terminal output is not modelled: printing, ANSI colours, status icons, screen clearing, timestamps, elapsed times and the "next check" time.
- `time.sleep` and the clock are not modelled. Ctrl+C is modelled only as the supplied cycles running out between cycles or during one, not as a signal.
- Command-line parsing is not modelled: `sys.argv`, `int()` of interval and timeout, the usage message and `sys.exit`. The interval is a parameter.
- Dashboard.FilledCells: computes `floor(50 * propagated / responsive)` exactly and leaves out the float rounding of Python's `int(50 * (m / t * 100) / 100)`, which can be one cell lower. The `:.1f` formatting of the percentage is left out too.
- ResultOrder.SortResults: proved to sort by (region, server) and to permute its input, but stability is not proved. The source's `list.sort` keeps equal keys in primary-then-backup order.
- Text.Lower: lower-cases ASCII letters only; Unicode case mapping is left out.
- File opening, `FileNotFoundError`, read errors, the warning print for malformed lines and `sys.exit` in `load_record_config` are left out. The file is its sequence of lines, and a missing required key is an error value.
- `porkbun_api.py` is not part of this model: the HTTP POST via `requests`, `.env` loading and API keys. Each API call is an input reply.
- `06_try_ping_endpoint.py`, `07_list_all_domains.py` and `14_change_name_servers_to_cloudflare.py` are not part of this model: they are single forwarded API calls.
- The distinct messages in `get_dns_record_id` are left out, because they are printing only. Those cases are no records, several records, API error, and exceptions. All of them return None, as modelled.
- The success and error printing after the delete and create calls is left out, because it reads only the reply's status.
- Monitor.Run: states the per-cycle facts through the recursive predicates `CyclesChecked` and `CountsRecorded`. The pointwise form is proved for the counts (`CountsRecordedAt`) but not for the cycles.

## Findings

| source | as written | input that shows it | evidently intended | confidence | as-written member | corrected member |
|---|---|---|---|---|---|---|
| 15_verify_name_server_propagation.py:427-431 | The final message reads `cloudflare_count` and `total_count`, which are first bound after the first cycle's dashboard | Ctrl+C while the first cycle's queries run, for any interval: the `except KeyboardInterrupt` path reaches line 431 with both names unbound, and a NameError replaces the summary | With no completed cycle, print the "not started" verdict, as the best-effort summary of the last completed cycle | not executed | Monitor.FinalVerdictAsWritten (exhibited by Monitor.InterruptedFirstCycleCrashes) | Monitor.FinalVerdict |
