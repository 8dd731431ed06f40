/** The script's entry point: read the host list, probe every host, store the
    grouped results, then build the report from what was stored. */
module Pipeline {
  import opened Results
  import opened Text
  import opened Dicts
  import opened Probe
  import opened HostList
  import opened Store
  import opened MergeLaws
  import opened Report

  /** `read_computer_list`: the host file's lines, or `None` when the file does
      not exist, which gives no hosts. */
  function ReadComputerList(file: Option<seq<string>>): (hosts: seq<string>)
    ensures file.None? ==> hosts == []
    ensures forall k :: 0 <= k < |hosts| ==> hosts[k] != "" && Stripped(hosts[k])
  {
    match file
    case None => []
    case Some(lines) => CleanLines(lines)
  }

  /** What one run of the script leaves behind: nothing when the host list is
      empty, otherwise the mapping written to the results file and the report
      built from it (or the `KeyError` that aborted the report). */
  datatype Run = Skipped | Ran(saved: Log, report: Result<Dict<string>, string>)

  /** `ping_computers_multithreaded`. The previously saved data always loads as
      `{}`: the emptiness test reads the whole file, so `json.load` then sees
      nothing and raises, and the handler starts from `{}`. The merge therefore
      runs against an empty mapping and what is saved is the grouping of this
      run's records alone. */
  method PingComputers(computers: seq<string>, observations: seq<Observation>) returns (saved: Log)
    requires |observations| == |computers|
    ensures saved == Group(ProbeAll(computers, observations))
  {
    var records := ProbeAll(computers, observations);
    var results := GroupByHost(records);
    var previousData: Log := Empty();
    saved := Merge(previousData, results);
    MergeIntoEmpty(results);
  }

  /** The `__main__` block: probing and the report happen only when the host
      list is not empty. The report reads back exactly what was saved. */
  method RunOnce(file: Option<seq<string>>, observations: seq<Observation>) returns (run: Run)
    requires |observations| == |ReadComputerList(file)|
    ensures ReadComputerList(file) == [] ==> run == Skipped
    ensures ReadComputerList(file) != [] ==>
      && run.Ran?
      && run.saved == Group(ProbeAll(ReadComputerList(file), observations))
      && run.report == ReportSpec(run.saved)
  {
    var computers := ReadComputerList(file);
    if computers == [] {
      return Skipped;
    }
    var saved := PingComputers(computers, observations);
    var report := BuildReport(saved);
    run := Ran(saved, report);
  }

  /** The cell a host gets from a single probe: its abbreviation when it answered
      on a working day, a `KeyError` on that day when it answered on a weekend,
      and an empty cell when it did not answer or the probe raised. */
  function SingleProbeCell(obs: Observation): Result<string, string> {
    if obs.outcome != Exited(0) then Success("")
    else if obs.today in DAY_ABBREVIATIONS then Success(DAY_ABBREVIATIONS[obs.today])
    else Failure(obs.today)
  }

  lemma SingleEntryCell(e: Entry)
    ensures DaysConnected([e]) == if !IsOnline(e) then Success("")
      else if e.day in DAY_ABBREVIATIONS then Success(DAY_ABBREVIATIONS[e.day])
      else Failure(e.day)
  {
    assert [e][1..] == [];
    if IsOnline(e) && e.day in DAY_ABBREVIATIONS {
      var a := DAY_ABBREVIATIONS[e.day];
      assert OnlineAbbreviations([e]) == Success({a} + {});
      assert {a} + {} == {a};
      SortedAbbreviationsMeaning({a});
      var parts := SortedAbbreviations({a});
      assert a in parts;
      AbbreviationsListed(e.day);
      assert parts == [a] by {
        SortedAbbreviationsUnique({a}, [a]);
      }
    } else if !IsOnline(e) {
      assert OnlineAbbreviations([e]) == Success({});
      assert SortedAbbreviations({}) == [] by {
        SortedAbbreviationsMeaning({});
        HeadMember(SortedAbbreviations({}));
      }
    }
  }

  /** Distinct host names make distinct probe records, listed in host-file
      order. */
  lemma DistinctHosts(computers: seq<string>, observations: seq<Observation>)
    requires |observations| == |computers| && Distinct(computers)
    ensures HostsDistinct(ProbeAll(computers, observations))
    ensures FirstSeen(ProbeAll(computers, observations)) == computers
  {
    ProbeAllHosts(computers, observations);
    DistinctRecords(ProbeAll(computers, observations), computers);
  }

  /** One run with distinct hosts: the saved mapping lists the hosts in host-file
      order, each with the single entry of its own probe. */
  lemma SingleRunSaved(computers: seq<string>, observations: seq<Observation>, i: nat)
    requires |observations| == |computers| && Distinct(computers) && i < |computers|
    ensures Group(ProbeAll(computers, observations)).keys == computers
    ensures computers[i] in Group(ProbeAll(computers, observations)).values
    ensures Group(ProbeAll(computers, observations)).values[computers[i]]
      == [EntryOf(Classify(computers[i], observations[i]))]
  {
    var records := ProbeAll(computers, observations);
    DistinctHosts(computers, observations);
    GroupDistinctAt(records, i);
    GroupContents(records, computers[i]);
  }

  /** One run with distinct hosts, as far as the report: each host's cell is
      `SingleProbeCell` of its own probe. */
  lemma SingleRunContents(computers: seq<string>, observations: seq<Observation>, i: nat)
    requires |observations| == |computers| && Distinct(computers) && i < |computers|
    ensures computers[i] in Group(ProbeAll(computers, observations)).values
    ensures DaysConnected(Group(ProbeAll(computers, observations)).values[computers[i]])
      == SingleProbeCell(observations[i])
  {
    SingleRunSaved(computers, observations, i);
    SingleEntryCell(EntryOf(Classify(computers[i], observations[i])));
  }
}
