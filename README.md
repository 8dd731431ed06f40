# pc-pinger: a Dafny model of `pingList.py`

`pingList.py` reads a list of host names from a text file, pings every host,
records for each host the weekday and whether it answered, merges those
records into a JSON log keyed by host, and writes a report that tells, for
each host, on which working days it was online. This project models the data
logic of that script and proves what it does:

- **Host list** (`hostlist.dfy`, with the `str` operations in `text.dfy`):
  every line is stripped, blank lines are dropped, and the order is kept.
- **Probe** (`probe.dfy`): a probe outcome becomes a record. Exit status 0 is
  `online` and any other status is `offline`, both tagged with the clock's
  day. An exception gives `error: <message>` on day `unknown`. Probing all
  hosts keeps host-list order.
- **Store** (`store.dfy`, `merge_laws.dfy`, with Python's insertion-ordered
  `dict` in `dicts.dfy`):
  - the records are grouped into a host-to-entries mapping, with hosts in
    order of first appearance and each host's entries in record order;
  - the merge then combines that batch with a prior mapping, first write
    wins per weekday;
  - a host new to the prior mapping gets its batch entries as they are;
  - a known host keeps its entries as a prefix and gets, in batch order,
    the batch entries whose day it did not have before.
- **Report** (`report.dfy`): each host's cell is the comma-join of the
  distinct abbreviations of its online days, in Python string order (so a
  full week reads `F,M,T,Th,W`). The first online entry whose day has no
  abbreviation raises `KeyError` and aborts the report.
- **Pipeline** (`pipeline.dfy`): the `__main__` block. An empty host list
  gives no run. Otherwise the script probes, groups, merges, saves, and
  builds the report from what it saved.

`Results.Result` stands for "returns a value or raises". `Results.Option`
stands for a file that is present or missing.

The merge and the report loop are methods whose loops work on the mapping
step by step. Each is proved equal to a recursive fold, `Store.MergeSpec`
and `Report.ReportSpec`. The source's promises are then proved about those
folds as lemmas.

Behaviour of the code worth knowing, all of it modelled as the code does it:

- **The status filter runs before the day lookup** (`pingList.py:81`). An
  error record's day `unknown` is never looked up, and neither is an offline
  Saturday or Sunday (`Report.ErrorEntryIgnored`, `Report.WeekendEntries`).
  Only an *online* entry whose day is Saturday or Sunday raises `KeyError`.
  So an error record does not break the report, and a weekend entry is not
  silently dropped when it is online.
- **The day set is stale** (`pingList.py:55`). It is computed once per host
  and is not refreshed while entries are appended. A batch that brings the
  same new day twice for one host, which happens when a host is listed twice
  in the host file, appends both entries (`MergeLaws.StaleDaysKeepBatchDuplicates`).
  One entry per day is kept, host by host, only when that host's batch list
  itself has one entry per day (`MergeLaws.MergeOnePerDayAt`, and
  `MergeLaws.MergeOnePerDay` for the whole mapping). Because the prior
  mapping is always `{}` (next item), a host listed twice is always new, and
  line 52 stores both of its same-day entries as they are, with no filtering
  at all.
- **The prior log is always discarded** (`pingList.py:45`). The emptiness
  test `f.read()` consumes the file. `json.load` then reads nothing and
  raises `JSONDecodeError`, and the handler starts from `{}`. The merge is
  modelled with the prior mapping as a parameter. The pipeline passes it
  `{}`, and what it saves is this run's grouping alone
  (`MergeLaws.MergeIntoEmpty`, `Pipeline.PingComputers`).

## Model

| member | source | states |
|---|---|---|
| Text.Strip | pingList.py:12 | `strip()` gives a string with no whitespace at either end; it is empty exactly when the line is all whitespace |
| Text.StripRemovesOnlySpace | pingList.py:12 | what `strip()` removes is whitespace at the two ends only; the result is a contiguous slice of the line |
| Text.StripStripped | pingList.py:12 | stripping an already stripped string changes nothing |
| Text.Join | pingList.py:82 | `sep.join(parts)` of at least one part has at least one character per separator between the parts; `Text.SplitJoin` and `Text.JoinEmpty` give its full meaning |
| Text.SplitJoin | pingList.py:82 | splitting a join of comma-free parts at the separator gives the parts back |
| Text.JoinEmpty | pingList.py:82 | a join of non-empty parts is `""` exactly when there are no parts |
| Text.Less | pingList.py:81 | Python's `<` on strings, the order `sorted()` uses, never relates a string to itself |
| Text.LessAsymmetric | pingList.py:81 | of two strings at most one is below the other |
| Text.LessTransitive | pingList.py:81 | that order is transitive |
| Text.LessTotal | pingList.py:81 | of two different strings one is below the other |
| HostList.CleanLines | pingList.py:12 | no host is empty and every host is already stripped; there are at most as many hosts as lines |
| HostList.CleanLinesMembers | pingList.py:12 | a host is listed exactly when it is non-empty and some line strips to it |
| HostList.CleanLinesAppend | pingList.py:12 | cleaning works line by line in place, so the hosts keep the order of their lines |
| HostList.CleanLinesIdempotent | pingList.py:12 | cleaning the cleaned list again changes nothing |
| Probe.Classify | pingList.py:19-27 | the record names the host; status is `online` exactly for exit status 0 and `offline` exactly for any other exit status, both on the clock's day; an exception gives `error: ` followed by its message on day `unknown` |
| Pipeline.ReadComputerList | pingList.py:9-15 | a missing host file gives no hosts; every host read is non-empty and stripped |
| Probe.ProbeAll | pingList.py:36 | one record per host, in host-list order, record i classifying host i's outcome |
| Dicts.Put | pingList.py:52 | `d[k] = v` maps k to v and leaves other keys alone; a new key goes last in iteration order and an existing key keeps its place |
| Dicts.PutTwice | pingList.py:58 | the model writes line 58's in-place `.append` on a host's list as a second assignment of the grown list to the same key; that assignment overrides the first and keeps the key's place |
| Dicts.DistinctPairwise | pingList.py:39-40 | a list with no repeated key has no two equal positions |
| Store.EntryOfClassify | pingList.py:40 | the entry stored for a probe keeps its day (the clock's day, or `unknown` when the probe raised) and its status (online exactly for exit status 0, an error exactly when the probe raised) |
| Store.FirstSeen | pingList.py:39-40 | the hosts of the records, each once, and exactly the hosts some record names |
| Store.AppendTo | pingList.py:40 | `results[c].append(e)` on a `defaultdict(list)`: host c's list gains e at its end, starting from `[]` when c was missing; no other host changes |
| Store.GroupByHost | pingList.py:39-40 | the loop builds the grouping `Store.Group` of the records |
| Store.GroupContents | pingList.py:39-40 | hosts come in order of first appearance; a host has a list exactly when some record names it; that list holds one entry per record of that host, in record order, and is never empty |
| Store.MentionedMembers | pingList.py:39-40 | a host is mentioned exactly when some record names it |
| Store.LogsForEmpty | pingList.py:39-40 | a host's list is empty exactly when no record names it |
| Store.LogsForAt | pingList.py:39-40 | when no host is named twice, a host's list is exactly the entry of its one record |
| Store.FirstSeenDistinct | pingList.py:39-40 | when no host is named twice, the grouped hosts are the record hosts in record order |
| Store.DistinctRecords | pingList.py:39-40 | records naming the hosts of a list with no repeats, one each, name no host twice and are grouped in that list's order |
| Store.GroupDistinctAt | pingList.py:39-40 | when no host is named twice, each record's host is grouped with exactly that record's entry |
| Store.DaysMembers | pingList.py:55 | `existing_days` holds exactly the days of the host's prior entries |
| Store.KeepUnseen | pingList.py:56-58 | the entries appended are never more than the batch entries; `Store.KeepUnseenMembers` says which they are |
| Store.KeepUnseenMembers | pingList.py:56-58 | the appended entries are exactly the batch entries whose day is not in `existing_days` |
| Store.KeepUnseenAppend | pingList.py:56-58 | the entries are filtered one by one in batch order |
| Store.NewHosts | pingList.py:51-52 | the batch hosts that are added are exactly those missing from the prior mapping |
| Store.MergeOne | pingList.py:51-58 | one batch host: the mapping gains that host and no other host changes |
| Store.AppendUnseen | pingList.py:54-58 | the inner loop appends to a known host's list, in batch order, each entry whose day was not among the host's days before the loop |
| Store.Merge | pingList.py:50-58 | the merge loop's result is the fold `Store.MergeSpec` over the batch hosts in batch order |
| Store.MergeOneKeys | pingList.py:51-52 | a host new to the mapping goes last in iteration order; a known host keeps its place |
| Store.MergeKeysDomain | pingList.py:50-52 | after merging some batch hosts, the mapping holds exactly the prior hosts and those batch hosts |
| Store.MergeKeysAt | pingList.py:50-58 | host by host, a merged list depends only on that host's prior list and its batch entries |
| Store.MergeKeysOrder | pingList.py:50-52 | prior hosts keep their order and the new hosts follow in batch order |
| Store.MergeAt | pingList.py:50-58 | a host is in the merge exactly when it was prior or in the batch; a host not in the batch is unchanged, a new host gets exactly its batch entries, and a known host gets its prior entries followed by the unseen batch entries |
| Store.MergeDomain | pingList.py:50-52 | the merged key set is the union of the prior and the batch key sets |
| Store.MergeOrder | pingList.py:50-52 | iteration order after the merge: prior hosts first, then the new hosts in batch order |
| Store.MergeProperties | pingList.py:50-58 | the key union, the iteration order and every host's merged list, together |
| Store.MergedLogsCases | pingList.py:53-58 | for a known host the prior entries are an unchanged prefix, and the entries after it are, as members, exactly the batch entries with days not among the prior days; `Store.MergeAt` gives the exact list, in batch order |
| MergeLaws.NewHostsNone | pingList.py:51-52 | against an empty prior mapping every batch host is new |
| MergeLaws.MergeIntoEmpty | pingList.py:45-58 | merging into `{}`, which line 45 always loads, gives back the batch unchanged |
| MergeLaws.DaysAppend | pingList.py:55 | the days of two lists put together are the union of their days |
| MergeLaws.KeepUnseenAllSeen | pingList.py:56-58 | a batch whose every day is already present appends nothing |
| MergeLaws.MergedCoversBatch | pingList.py:50-58 | after a merge, every batch entry's day is among the host's days |
| MergeLaws.MergeAgainAt | pingList.py:50-58 | merging the same batch again leaves each host's list as it is |
| MergeLaws.MergeIdempotent | pingList.py:50-58 | merging the same batch into the result of merging it once changes nothing |
| MergeLaws.OnePerDayConcat | pingList.py:53-58 | two lists with one entry per day and no day in common join into one with one entry per day |
| MergeLaws.KeepUnseenOnePerDay | pingList.py:56-58 | filtering a list with one entry per day keeps one per day, and keeps only days outside `existing_days` |
| MergeLaws.MergeOnePerDayAt | pingList.py:50-58 | per host: if the host's prior list and its batch list each have one entry per day, so does its merged list, whatever the other hosts hold |
| MergeLaws.MergeOnePerDay | pingList.py:50-58 | if all prior lists and all batch lists have one entry per day, so do all merged lists |
| MergeLaws.StaleDaysKeepBatchDuplicates | pingList.py:55-58 | a concrete batch with two Tuesday entries for a host that had only Monday gets both appended, so the merged list is not one per day |
| Report.AbbreviationsListed | pingList.py:75-78 | each abbreviation is one of `F`, `M`, `T`, `Th`, `W`, is non-empty and has no comma |
| Report.OnlineAbbreviations | pingList.py:81 | a `KeyError` from the comprehension carries a day that has no abbreviation; the lemmas below give its full meaning |
| Report.OnlineAbbreviationsSucceeds | pingList.py:81 | the set comprehension succeeds exactly when every online entry's day is Monday to Friday |
| Report.OnlineAbbreviationsMembers | pingList.py:81 | on success the set holds exactly the abbreviations of the online entries' days |
| Report.OnlineAbbreviationsFailure | pingList.py:81 | on failure the `KeyError` carries the day of the first online entry that is not a working day |
| Report.OnlineAbbreviationsKnown | pingList.py:75-81 | every member of the set is one of the five abbreviations |
| Report.OnlineAbbreviationsEmpty | pingList.py:81 | the set is empty exactly when no entry is online |
| Report.InOrderMembers | pingList.py:81 | keeping the members of a set in a fixed order keeps exactly the members that are in the order |
| Report.InOrderIncreasing | pingList.py:81 | keeping some members of an increasing listing keeps it increasing |
| Report.AbbreviationOrderIncreasing | pingList.py:81 | `F < M < T < Th < W` in Python's string order |
| Report.SortedAbbreviations | pingList.py:81 | the listing has at most five entries, one per abbreviation at most |
| Report.SortedAbbreviationsMeaning | pingList.py:81 | the listing is strictly increasing in Python's string order and holds exactly the abbreviations of the set |
| Report.SortedAbbreviationsUnique | pingList.py:81 | any increasing listing of the same set equals it, so it is what `sorted()` returns |
| Report.DaysConnected | pingList.py:81-82 | a cell fails exactly when the set comprehension fails, and then with a day that has no abbreviation |
| Report.DaysConnectedSucceeds | pingList.py:81-82 | a host's cell fails exactly when one of its online entries has a day outside Monday to Friday |
| Report.DaysConnectedSorted | pingList.py:81-82 | a successful cell is the comma-join of an increasing listing of exactly the abbreviations of the host's online days, and splitting it at commas gives that listing back |
| Report.DaysConnectedEmpty | pingList.py:81-82 | a successful cell is `""` exactly when the host has no online entry |
| Report.OnlyOnlineEntriesMatter | pingList.py:81 | the filter runs before the lookup, so only the online entries decide the result |
| Report.OnlineEntriesAppend | pingList.py:81 | the online filter works entry by entry in order |
| Report.ErrorEntryIgnored | pingList.py:81 | an error record's day `unknown` has no abbreviation, yet adding such an entry anywhere in a host's list leaves its cell unchanged |
| Report.JoinAbbreviationOrder | pingList.py:82 | the five abbreviations join to `F,M,T,Th,W` |
| Report.WeekendEntries | pingList.py:81 | an online Saturday entry makes the cell raise `KeyError('Saturday')`, while an offline Sunday entry is skipped |
| Report.WholeWeekCell | pingList.py:81-82 | a host online on all five working days, whose online entries are all on working days, gets the cell `F,M,T,Th,W` |
| Report.Cells | pingList.py:80-82 | there is one cell per host of the data |
| Report.ReportKeysFailureStays | pingList.py:80-82 | a `KeyError` among the first hosts aborts the whole report with that error |
| Report.ReportKeysSucceeds | pingList.py:80-82 | the report succeeds exactly when every host's cell does |
| Report.ReportKeysRow | pingList.py:80-82 | on success the rows follow the hosts' order, there is one row per host and no other, and each row holds that host's cell |
| Report.ReportKeysFirstFailure | pingList.py:80-82 | on failure the report carries the error of the first host, in order, whose cell fails |
| Report.ReportRows | pingList.py:74-82 | every host of the loaded data gets a row, in the data's order, holding its cell; the report fails exactly when some cell fails, with the first such host's error |
| Report.BuildReport | pingList.py:74-82 | the loop fills `pc_days_map` host by host and equals `Report.ReportSpec`, stopping at the first `KeyError` |
| Pipeline.PingComputers | pingList.py:30-58 | with the prior data loaded as `{}`, what is saved is exactly the grouping of this run's probe records |
| Pipeline.RunOnce | pingList.py:91-100 | an empty host list does nothing; otherwise the saved mapping is the grouping of the probes of the hosts, and the report is built from that mapping |
| Pipeline.SingleEntryCell | pingList.py:81-82 | a one-entry list gives `""` when not online, the day's abbreviation when online on a working day, and `KeyError` on that day otherwise |
| Pipeline.SingleRunSaved | pingList.py:18-58 | one run with no repeated host: the hosts are saved in host-file order, each with the single entry of its own probe |
| Pipeline.SingleRunContents | pingList.py:18-82 | one run with no repeated host: each host's cell is `Pipeline.SingleProbeCell` of its own probe |

## Left out

- Reading `computers.txt` (`pingList.py:10-15`): the file's lines are a parameter, and `None` stands for a missing file, which gives no hosts.
- The ping command and the clock (`pingList.py:20-21, 32`): each probe's exit status or raised exception, and the weekday name the clock gives, are a parameter `Probe.Observation`, one per host. The unused `current_day` at line 32 is not modelled.
- The thread pool (`pingList.py:35-36`): `executor.map` is modelled as a sequential map. Only its result order matters, and that is host-list order.
- JSON load and save (`pingList.py:43-47, 61-62`, and the reload at `68-72`): the saved mapping goes to the report unchanged, keys in insertion order. The failed load at line 45 is modelled by its effect, an empty prior mapping. `generate_excel_report`'s early return when the file is missing or malformed cannot happen right after a save, so it is not modelled.
- The Excel file and the console messages (`pingList.py:64, 85-88`): foreign-library output.
- Any exception other than the `KeyError` at line 81 is not modelled. This includes a failing `str(e)` and a record missing a `day` or `status` key in hand-edited JSON.
- List aliasing at `pingList.py:52`: `previous_data[computer] = new_logs` shares the list with `results`. The model copies values instead. Each batch host is visited once, so the difference cannot be observed.
- Report.SortedAbbreviations: models `sorted()` only for sets of the five abbreviations. Those are the only sets the comprehension can produce (`Report.OnlineAbbreviationsKnown`).
- Pipeline.RunOnce: requires one observation per host. This is how the environment is supplied, not a demand of the script.
