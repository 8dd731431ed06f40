/** The result store: probe records are grouped by host, then merged into the
    previously persisted log, first write wins per weekday. */
module Store {
  import opened Dicts
  import opened Probe

  /** The persisted mapping: host to its ordered `{day, status}` entries. */
  type Log = Dict<seq<Entry>>

  function EntryOf(r: ProbeRecord): Entry {
    Entry(r.day, r.status)
  }

  /** The persisted entry of a probe keeps the probe's day and status: online
      exactly for exit status 0, an error exactly when the probe raised, and day
      "unknown" for an error. */
  lemma EntryOfClassify(computer: string, obs: Observation)
    ensures EntryOf(Classify(computer, obs)).day == if obs.outcome.Exited? then obs.today else UNKNOWN_DAY
    ensures EntryOf(Classify(computer, obs)).status == ONLINE <==> obs.outcome == Exited(0)
    ensures IsError(EntryOf(Classify(computer, obs)).status) <==> obs.outcome.Raised?
  {
  }

  // ---------------------------------------------------------------------------
  // Grouping
  // ---------------------------------------------------------------------------

  /** The hosts that some record names. */
  ghost function Mentioned(records: seq<ProbeRecord>): set<string> {
    if records == [] then {} else Mentioned(records[..|records| - 1]) + {records[|records| - 1].computer}
  }

  lemma {:induction false} MentionedMembers(records: seq<ProbeRecord>, host: string)
    ensures host in Mentioned(records) <==> exists i :: 0 <= i < |records| && records[i].computer == host
  {
    if records != [] {
      var init := records[..|records| - 1];
      MentionedMembers(init, host);
      if exists i :: 0 <= i < |records| && records[i].computer == host {
        var i :| 0 <= i < |records| && records[i].computer == host;
        if i < |init| {
          assert init[i] == records[i];
        }
      }
      if exists i :: 0 <= i < |init| && init[i].computer == host {
        var i :| 0 <= i < |init| && init[i].computer == host;
        assert records[i] == init[i];
      }
    }
  }

  /** The entries of `host`'s records, one per record and in record order. */
  function LogsFor(records: seq<ProbeRecord>, host: string): (logs: seq<Entry>)
    ensures |logs| <= |records|
  {
    if records == [] then []
    else
      var r := records[|records| - 1];
      LogsFor(records[..|records| - 1], host) + (if r.computer == host then [EntryOf(r)] else [])
  }

  /** A host has entries exactly when some record names it. */
  lemma {:induction false} LogsForEmpty(records: seq<ProbeRecord>, host: string)
    ensures LogsFor(records, host) == [] <==> host !in Mentioned(records)
  {
    if records != [] {
      LogsForEmpty(records[..|records| - 1], host);
    }
  }

  /** The hosts of `records`, each once, in order of first appearance. */
  function FirstSeen(records: seq<ProbeRecord>): (hosts: seq<string>)
    ensures Distinct(hosts)
    ensures KeySet(hosts) == Mentioned(records)
  {
    if records == [] then []
    else
      var rest := FirstSeen(records[..|records| - 1]);
      var c := records[|records| - 1].computer;
      KeySetMembers(rest, c);
      if c in rest then rest
      else
        DistinctAppend(rest, c);
        KeySetAppend(rest, c);
        rest + [c]
  }

  /** `d[host].append(e)` on a `defaultdict(list)`: a missing host starts from `[]`. */
  function AppendTo(d: Log, host: string, e: Entry): (r: Log)
    requires Valid(d)
    ensures Valid(r)
    ensures r.values.Keys == d.values.Keys + {host}
    ensures r.values[host] == (if host in d.values then d.values[host] else []) + [e]
    ensures forall h :: h in d.values && h != host ==> r.values[h] == d.values[h]
    ensures r.keys == if host in d.values then d.keys else d.keys + [host]
  {
    var logs := if host in d.values then d.values[host] else [];
    Put(d, host, logs + [e])
  }

  /** The `results` dictionary the grouping loop builds: every record, in order,
      appended to its host's list. */
  ghost function Group(records: seq<ProbeRecord>): (results: Log)
    ensures Valid(results)
  {
    if records == [] then Empty()
    else
      var r := records[|records| - 1];
      AppendTo(Group(records[..|records| - 1]), r.computer, EntryOf(r))
  }

  /** Each probe record is appended, as a `{day, status}` entry, to the list of
      its host in a `defaultdict(list)`. */
  method GroupByHost(records: seq<ProbeRecord>) returns (results: Log)
    ensures results == Group(records)
  {
    results := Empty();
    assert records[..0] == [];
    for i := 0 to |records|
      invariant results == Group(records[..i])
    {
      var r := records[i];
      assert records[..i + 1][..i] == records[..i];
      results := AppendTo(results, r.computer, EntryOf(r));
    }
    assert records[..|records|] == records;
  }

  /** Grouping keeps every record and nothing else: the hosts are ordered by
      first appearance, each named host has a list, and that list holds one
      entry per record of the host, in record order. */
  lemma {:induction false} GroupContents(records: seq<ProbeRecord>, host: string)
    ensures Group(records).keys == FirstSeen(records)
    ensures host in Group(records).values <==> host in Mentioned(records)
    ensures host in Group(records).values ==> Group(records).values[host] == LogsFor(records, host) != []
  {
    LogsForEmpty(records, host);
    if records != [] {
      var init := records[..|records| - 1];
      GroupContents(init, host);
      var c := records[|records| - 1].computer;
      GroupContents(init, c);
      LogsForEmpty(init, c);
      KeySetMembers(FirstSeen(init), c);
    }
  }

  /** No host is named by two records. */
  ghost predicate HostsDistinct(records: seq<ProbeRecord>) {
    forall i, j :: 0 <= i < j < |records| ==> records[i].computer != records[j].computer
  }

  /** When no host is named twice, a host's list is the entry of its one record. */
  lemma {:induction false} LogsForAt(records: seq<ProbeRecord>, i: nat)
    requires HostsDistinct(records) && i < |records|
    ensures LogsFor(records, records[i].computer) == [EntryOf(records[i])]
  {
    var init, r := records[..|records| - 1], records[|records| - 1];
    var c := records[i].computer;
    assert HostsDistinct(init) by {
      forall a, b | 0 <= a < b < |init|
        ensures init[a].computer != init[b].computer
      {
        assert init[a] == records[a] && init[b] == records[b];
      }
    }
    if i == |records| - 1 {
      MentionedMembers(init, c);
      forall k | 0 <= k < |init|
        ensures init[k].computer != c
      {
        assert init[k] == records[k];
      }
      LogsForEmpty(init, c);
      assert LogsFor(records, c) == [] + [EntryOf(r)];
    } else {
      assert init[i] == records[i];
      LogsForAt(init, i);
      assert LogsFor(records, c) == [EntryOf(records[i])] + [];
    }
  }

  /** When no host is named twice, the hosts keep the order of their records. */
  lemma {:induction false} FirstSeenDistinct(records: seq<ProbeRecord>)
    requires HostsDistinct(records)
    ensures |FirstSeen(records)| == |records|
    ensures forall i :: 0 <= i < |records| ==> FirstSeen(records)[i] == records[i].computer
  {
    if records != [] {
      var init, c := records[..|records| - 1], records[|records| - 1].computer;
      assert HostsDistinct(init) by {
        forall a, b | 0 <= a < b < |init|
          ensures init[a].computer != init[b].computer
        {
          assert init[a] == records[a] && init[b] == records[b];
        }
      }
      FirstSeenDistinct(init);
      var rest := FirstSeen(init);
      KeySetMembers(rest, c);
      MentionedMembers(init, c);
      forall k | 0 <= k < |init|
        ensures init[k].computer != c
      {
        assert init[k] == records[k];
      }
      assert FirstSeen(records) == rest + [c];
    }
  }

  /** Records naming distinct hosts, one per host of a list, are first seen in
      that list's order. */
  lemma DistinctRecords(records: seq<ProbeRecord>, computers: seq<string>)
    requires |records| == |computers| && Distinct(computers)
    requires forall i :: 0 <= i < |records| ==> records[i].computer == computers[i]
    ensures HostsDistinct(records)
    ensures FirstSeen(records) == computers
  {
    DistinctPairwise(computers);
    FirstSeenDistinct(records);
  }

  /** When no host is named twice, each record's host has exactly that record's
      entry as its list. */
  lemma GroupDistinctAt(records: seq<ProbeRecord>, i: nat)
    requires HostsDistinct(records) && i < |records|
    ensures records[i].computer in Group(records).values
    ensures Group(records).values[records[i].computer] == [EntryOf(records[i])]
  {
    var c := records[i].computer;
    MentionedMembers(records, c);
    GroupContents(records, c);
    LogsForAt(records, i);
  }

  // ---------------------------------------------------------------------------
  // Merge
  // ---------------------------------------------------------------------------

  /** `{entry['day'] for entry in logs}`: the weekday names a host's entries carry. */
  function Days(logs: seq<Entry>): (days: set<string>)
  {
    if logs == [] then {} else Days(logs[..|logs| - 1]) + {logs[|logs| - 1].day}
  }

  lemma {:induction false} DaysMembers(logs: seq<Entry>, d: string)
    ensures d in Days(logs) <==> exists i :: 0 <= i < |logs| && logs[i].day == d
  {
    if logs != [] {
      var init := logs[..|logs| - 1];
      DaysMembers(init, d);
      if exists i :: 0 <= i < |logs| && logs[i].day == d {
        var i :| 0 <= i < |logs| && logs[i].day == d;
        if i < |init| {
          assert init[i] == logs[i];
        }
      }
      if exists i :: 0 <= i < |init| && init[i].day == d {
        var i :| 0 <= i < |init| && init[i].day == d;
        assert logs[i] == init[i];
      }
    }
  }

  /** The entries of `logs`, in order, whose day is not in `seen`. */
  function KeepUnseen(logs: seq<Entry>, seen: set<string>): (kept: seq<Entry>)
    ensures |kept| <= |logs|
  {
    if logs == [] then []
    else
      var e := logs[|logs| - 1];
      KeepUnseen(logs[..|logs| - 1], seen) + (if e.day in seen then [] else [e])
  }

  /** The filter keeps exactly the entries whose day is unseen. */
  lemma {:induction false} KeepUnseenMembers(logs: seq<Entry>, seen: set<string>, e: Entry)
    ensures e in KeepUnseen(logs, seen) <==> e in logs && e.day !in seen
  {
    if logs != [] {
      var init := logs[..|logs| - 1];
      KeepUnseenMembers(init, seen, e);
      assert logs == init + [logs[|logs| - 1]];
    }
  }

  /** Filtering keeps batch order: it commutes with concatenation. */
  lemma {:induction false} KeepUnseenAppend(a: seq<Entry>, b: seq<Entry>, seen: set<string>)
    ensures KeepUnseen(a + b, seen) == KeepUnseen(a, seen) + KeepUnseen(b, seen)
    decreases |b|
  {
    if b == [] {
      assert a + b == a;
    } else {
      var b' := b[..|b| - 1];
      assert (a + b)[..|a + b| - 1] == a + b';
      assert (a + b)[|a + b| - 1] == b[|b| - 1];
      KeepUnseenAppend(a, b', seen);
    }
  }

  lemma KeepUnseenStep(logs: seq<Entry>, j: nat, seen: set<string>)
    requires j < |logs|
    ensures KeepUnseen(logs[..j + 1], seen) == KeepUnseen(logs[..j], seen) + (if logs[j].day in seen then [] else [logs[j]])
  {
    assert logs[..j + 1][..j] == logs[..j];
  }

  /** The batch hosts, in batch order, that the prior mapping does not have. */
  function NewHosts(keys: seq<string>, prior: map<string, seq<Entry>>): (added: seq<string>)
    ensures KeySet(added) == KeySet(keys) - prior.Keys
  {
    if keys == [] then []
    else
      var k := keys[|keys| - 1];
      var rest := NewHosts(keys[..|keys| - 1], prior);
      if k in prior then rest
      else
        KeySetAppend(rest, k);
        rest + [k]
  }

  /** What the loop body does for one batch host: a host new to the mapping is
      added with its logs as they are; a known host gets, appended in order, the
      logs whose day its entries did not carry before the loop body began. */
  function MergeOne(merged: Log, computer: string, newLogs: seq<Entry>): (r: Log)
    requires Valid(merged)
    ensures Valid(r)
    ensures r.values.Keys == merged.values.Keys + {computer}
    ensures forall h :: h in merged.values && h != computer ==> r.values[h] == merged.values[h]
  {
    if computer !in merged.values then Put(merged, computer, newLogs)
    else Put(merged, computer, merged.values[computer] + KeepUnseen(newLogs, Days(merged.values[computer])))
  }

  /** A host new to the mapping goes last in its order; a known host keeps its place. */
  lemma MergeOneKeys(merged: Log, computer: string, newLogs: seq<Entry>)
    requires Valid(merged)
    ensures MergeOne(merged, computer, newLogs).keys ==
      if computer in merged.values then merged.keys else merged.keys + [computer]
  {
  }

  /** The mapping left after merging the batch hosts `keys`, in order, with
      their logs from `values`. */
  ghost function MergeKeys(previous: Log, keys: seq<string>, values: map<string, seq<Entry>>): (merged: Log)
    requires Valid(previous) && KeySet(keys) <= values.Keys
    ensures Valid(merged)
  {
    if keys == [] then previous
    else
      var k := keys[|keys| - 1];
      MergeOne(MergeKeys(previous, keys[..|keys| - 1], values), k, values[k])
  }

  /** The mapping the merge leaves behind: every batch host, in batch order,
      merged into the prior mapping. */
  ghost function MergeSpec(previous: Log, results: Log): (merged: Log)
    requires Valid(previous) && Valid(results)
    ensures Valid(merged)
  {
    MergeKeys(previous, results.keys, results.values)
  }

  /** What the merge leaves as the list of host `h`. */
  ghost function MergedLogs(previous: Log, results: Log, h: string): seq<Entry>
    requires h in previous.values || h in results.values
  {
    if h !in results.values then previous.values[h]
    else if h !in previous.values then results.values[h]
    else previous.values[h] + KeepUnseen(results.values[h], Days(previous.values[h]))
  }

  /** The merged hosts are the prior hosts and the batch hosts. */
  lemma {:induction false} MergeKeysDomain(previous: Log, keys: seq<string>, values: map<string, seq<Entry>>, h: string)
    requires Valid(previous) && KeySet(keys) <= values.Keys
    ensures h in MergeKeys(previous, keys, values).values <==> h in previous.values || h in KeySet(keys)
  {
    if keys != [] {
      MergeKeysDomain(previous, keys[..|keys| - 1], values, h);
    }
  }

  /** Host by host: with each batch host listed once, a merged host's list
      depends only on its prior list and its own batch logs. */
  lemma {:induction false} MergeKeysAt(previous: Log, keys: seq<string>, values: map<string, seq<Entry>>, h: string)
    requires Valid(previous) && KeySet(keys) <= values.Keys && Distinct(keys)
    ensures h in MergeKeys(previous, keys, values).values <==> h in previous.values || h in KeySet(keys)
    ensures h in MergeKeys(previous, keys, values).values ==>
      MergeKeys(previous, keys, values).values[h] ==
        if h !in KeySet(keys) then previous.values[h]
        else if h !in previous.values then values[h]
        else previous.values[h] + KeepUnseen(values[h], Days(previous.values[h]))
  {
    if keys != [] {
      var init := keys[..|keys| - 1];
      MergeKeysAt(previous, init, values, h);
    }
  }

  /** With each batch host listed once, prior hosts keep their order and the
      new ones follow in batch order. */
  lemma {:induction false} MergeKeysOrder(previous: Log, keys: seq<string>, values: map<string, seq<Entry>>)
    requires Valid(previous) && KeySet(keys) <= values.Keys && Distinct(keys)
    ensures MergeKeys(previous, keys, values).keys == previous.keys + NewHosts(keys, previous.values)
  {
    if keys != [] {
      var init, k := keys[..|keys| - 1], keys[|keys| - 1];
      var m := MergeKeys(previous, init, values);
      var added := NewHosts(init, previous.values);
      assert Distinct(init) && k !in KeySet(init);
      MergeKeysOrder(previous, init, values);
      assert (k in m.values) == (k in previous.values) by {
        MergeKeysDomain(previous, init, values, k);
      }
      assert MergeKeys(previous, keys, values).keys == if k in m.values then m.keys else m.keys + [k] by {
        MergeOneKeys(m, k, values[k]);
      }
      if k in previous.values {
        assert NewHosts(keys, previous.values) == added;
      } else {
        assert NewHosts(keys, previous.values) == added + [k];
        assert previous.keys + added + [k] == previous.keys + (added + [k]);
      }
    }
  }

  /** A host is in the merged mapping exactly when it was in the prior mapping
      or in the batch, and its list is as the merge loop leaves it. */
  lemma MergeAt(previous: Log, results: Log, h: string)
    requires Valid(previous) && Valid(results)
    ensures h in MergeSpec(previous, results).values <==> h in previous.values || h in results.values
    ensures h in MergeSpec(previous, results).values ==> MergeSpec(previous, results).values[h] == MergedLogs(previous, results, h)
  {
    MergeKeysAt(previous, results.keys, results.values, h);
  }

  /** The key set after the merge is the union of the two key sets. */
  lemma MergeDomain(previous: Log, results: Log)
    requires Valid(previous) && Valid(results)
    ensures MergeSpec(previous, results).values.Keys == previous.values.Keys + results.values.Keys
  {
    forall h
      ensures h in MergeSpec(previous, results).values <==> h in previous.values || h in results.values
    {
      MergeAt(previous, results, h);
    }
  }

  /** Prior hosts keep their place and the new ones follow in batch order. */
  lemma MergeOrder(previous: Log, results: Log)
    requires Valid(previous) && Valid(results)
    ensures MergeSpec(previous, results).keys == previous.keys + NewHosts(results.keys, previous.values)
  {
    MergeKeysOrder(previous, results.keys, results.values);
  }

  /** What the merge promises, all at once. */
  lemma MergeProperties(previous: Log, results: Log)
    requires Valid(previous) && Valid(results)
    ensures var merged := MergeSpec(previous, results);
      && merged.values.Keys == previous.values.Keys + results.values.Keys
      && merged.keys == previous.keys + NewHosts(results.keys, previous.values)
      && (forall h :: h in merged.values ==> merged.values[h] == MergedLogs(previous, results, h))
  {
    MergeDomain(previous, results);
    MergeOrder(previous, results);
    forall h | h in MergeSpec(previous, results).values
      ensures MergeSpec(previous, results).values[h] == MergedLogs(previous, results, h)
    {
      MergeAt(previous, results, h);
    }
  }

  /** The three cases of a host's merged list. */
  lemma MergedLogsCases(previous: Log, results: Log, h: string)
    requires h in previous.values || h in results.values
    ensures h !in results.values ==> MergedLogs(previous, results, h) == previous.values[h]
    ensures h !in previous.values ==> MergedLogs(previous, results, h) == results.values[h]
    ensures h in previous.values && h in results.values ==>
      var m, p := MergedLogs(previous, results, h), previous.values[h];
      && |p| <= |m|
      && m[..|p|] == p
      && (forall e :: e in m[|p|..] <==> e in results.values[h] && e.day !in Days(p))
  {
    if h in previous.values && h in results.values {
      var p, k := previous.values[h], KeepUnseen(results.values[h], Days(previous.values[h]));
      assert (p + k)[..|p|] == p && (p + k)[|p|..] == k;
      forall e
        ensures e in k <==> e in results.values[h] && e.day !in Days(p)
      {
        KeepUnseenMembers(results.values[h], Days(p), e);
      }
    }
  }

  /** Appending the new logs of one known host. The day set is computed once,
      before the loop, and is not refreshed as entries are appended. */
  method AppendUnseen(merged: Log, computer: string, newLogs: seq<Entry>) returns (r: Log)
    requires Valid(merged) && computer in merged.values
    ensures r == MergeOne(merged, computer, newLogs)
  {
    var prior := merged.values[computer];
    var existingDays := Days(prior);
    r := merged;
    assert newLogs[..0] == [] && prior + [] == prior;
    PutSame(merged, computer);
    for j := 0 to |newLogs|
      invariant r == Put(merged, computer, prior + KeepUnseen(newLogs[..j], existingDays))
    {
      var log := newLogs[j];
      ghost var kept := KeepUnseen(newLogs[..j], existingDays);
      KeepUnseenStep(newLogs, j, existingDays);
      if log.day !in existingDays {
        PutTwice(merged, computer, prior + kept, prior + kept + [log]);
        assert prior + kept + [log] == prior + (kept + [log]);
        r := Put(r, computer, r.values[computer] + [log]);
      } else {
        assert kept + [] == kept;
      }
    }
    assert newLogs[..|newLogs|] == newLogs;
  }

  /** The merge, on a prior mapping that is a parameter: for each batch host in
      order, a host new to the prior mapping gets its new logs as they are; for
      a known host each new log whose day the host does not have yet is appended. */
  method Merge(previous: Log, results: Log) returns (merged: Log)
    requires Valid(previous) && Valid(results)
    ensures merged == MergeSpec(previous, results)
  {
    merged := previous;
    assert results.keys[..0] == [];
    for i := 0 to |results.keys|
      invariant KeySet(results.keys[..i]) <= results.values.Keys
      invariant merged == MergeKeys(previous, results.keys[..i], results.values)
    {
      var computer := results.keys[i];
      KeySetMembers(results.keys, computer);
      KeySetPrefix(results.keys, i + 1);
      assert results.keys[..i + 1][..i] == results.keys[..i];
      var newLogs := results.values[computer];
      if computer !in merged.values {
        merged := Put(merged, computer, newLogs);
      } else {
        merged := AppendUnseen(merged, computer, newLogs);
      }
    }
    assert results.keys[..|results.keys|] == results.keys;
  }
}
