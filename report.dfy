/** The report: for each host, the weekday abbreviations of the days it was
    online, sorted the way Python sorts strings and joined with commas. */
module Report {
  import opened Results
  import opened Text
  import opened Dicts
  import opened Probe
  import opened Store

  /** `day_abbreviations`: the five working days. Saturday, Sunday and the
      error day "unknown" have no abbreviation. */
  const DAY_ABBREVIATIONS: map<string, string> :=
    map["Monday" := "M", "Tuesday" := "T", "Wednesday" := "W", "Thursday" := "Th", "Friday" := "F"]

  /** The five abbreviations in increasing string order. */
  const ABBREVIATION_ORDER: seq<string> := ["F", "M", "T", "Th", "W"]

  lemma AbbreviationsListed(d: string)
    requires d in DAY_ABBREVIATIONS
    ensures DAY_ABBREVIATIONS[d] in ABBREVIATION_ORDER
    ensures DAY_ABBREVIATIONS[d] != "" && ',' !in DAY_ABBREVIATIONS[d]
  {
  }

  predicate IsOnline(e: Entry) {
    e.status == ONLINE
  }

  /** The entries of `logs` whose status is online, in order. */
  function OnlineEntries(logs: seq<Entry>): seq<Entry> {
    if logs == [] then []
    else (if IsOnline(logs[0]) then [logs[0]] else []) + OnlineEntries(logs[1..])
  }

  /** The set comprehension of the report: the abbreviation of the day of every
      online entry. The status filter runs first, so only online entries are
      looked up. The first online entry whose day has no abbreviation raises a
      `KeyError`; the failure carries that day. */
  function OnlineAbbreviations(logs: seq<Entry>): (r: Result<set<string>, string>)
    ensures r.Failure? ==> r.error !in DAY_ABBREVIATIONS
  {
    if logs == [] then Success({})
    else
      var e := logs[0];
      if !IsOnline(e) then OnlineAbbreviations(logs[1..])
      else if e.day !in DAY_ABBREVIATIONS then Failure(e.day)
      else
        match OnlineAbbreviations(logs[1..])
        case Failure(d) => Failure(d)
        case Success(s) => Success({DAY_ABBREVIATIONS[e.day]} + s)
  }

  /** The comprehension succeeds exactly when every online entry's day has an
      abbreviation. */
  lemma {:induction false} OnlineAbbreviationsSucceeds(logs: seq<Entry>)
    ensures OnlineAbbreviations(logs).Success? <==>
      forall i :: 0 <= i < |logs| && IsOnline(logs[i]) ==> logs[i].day in DAY_ABBREVIATIONS
  {
    if logs != [] {
      var rest := logs[1..];
      OnlineAbbreviationsSucceeds(rest);
      assert forall i :: 0 < i < |logs| ==> logs[i] == rest[i - 1];
    }
  }

  /** On success the set holds the abbreviations of the online days and nothing else. */
  lemma {:induction false} OnlineAbbreviationsMembers(logs: seq<Entry>, a: string)
    requires OnlineAbbreviations(logs).Success?
    ensures a in OnlineAbbreviations(logs).value <==>
      exists i :: 0 <= i < |logs| && IsOnline(logs[i]) && logs[i].day in DAY_ABBREVIATIONS && DAY_ABBREVIATIONS[logs[i].day] == a
  {
    if logs != [] {
      var rest := logs[1..];
      OnlineAbbreviationsMembers(rest, a);
      if exists i :: 0 <= i < |logs| && IsOnline(logs[i]) && logs[i].day in DAY_ABBREVIATIONS && DAY_ABBREVIATIONS[logs[i].day] == a {
        var i :| 0 <= i < |logs| && IsOnline(logs[i]) && logs[i].day in DAY_ABBREVIATIONS && DAY_ABBREVIATIONS[logs[i].day] == a;
        if i > 0 {
          assert rest[i - 1] == logs[i];
        }
      }
      if a in OnlineAbbreviations(rest).value {
        var i :| 0 <= i < |rest| && IsOnline(rest[i]) && rest[i].day in DAY_ABBREVIATIONS && DAY_ABBREVIATIONS[rest[i].day] == a;
        assert logs[i + 1] == rest[i];
      }
    }
  }

  /** On failure the comprehension carries the day of the first online entry
      that has no abbreviation. */
  lemma {:induction false} OnlineAbbreviationsFailure(logs: seq<Entry>)
    requires OnlineAbbreviations(logs).Failure?
    ensures exists i ::
      && 0 <= i < |logs| && IsOnline(logs[i]) && logs[i].day !in DAY_ABBREVIATIONS
      && OnlineAbbreviations(logs).error == logs[i].day
      && forall j :: 0 <= j < i && IsOnline(logs[j]) ==> logs[j].day in DAY_ABBREVIATIONS
  {
    var rest := logs[1..];
    if !(IsOnline(logs[0]) && logs[0].day !in DAY_ABBREVIATIONS) {
      OnlineAbbreviationsFailure(rest);
      var i :| 0 <= i < |rest| && IsOnline(rest[i]) && rest[i].day !in DAY_ABBREVIATIONS
        && OnlineAbbreviations(rest).error == rest[i].day
        && forall j :: 0 <= j < i && IsOnline(rest[j]) ==> rest[j].day in DAY_ABBREVIATIONS;
      assert logs[i + 1] == rest[i];
      assert forall j :: 0 < j < i + 1 ==> logs[j] == rest[j - 1];
    }
  }

  /** The members of `s`, in the order of `order`. */
  function InOrder(order: seq<string>, s: set<string>): (r: seq<string>)
    ensures |r| <= |order|
  {
    if order == [] then []
    else (if order[0] in s then [order[0]] else []) + InOrder(order[1..], s)
  }

  lemma {:induction false} InOrderMembers(order: seq<string>, s: set<string>)
    ensures forall x :: x in InOrder(order, s) <==> x in order && x in s
  {
    if order != [] {
      InOrderMembers(order[1..], s);
      assert order == [order[0]] + order[1..];
    }
  }

  /** Keeping some members of an increasing sequence keeps it increasing. */
  lemma {:induction false} InOrderIncreasing(order: seq<string>, s: set<string>)
    requires Increasing(order)
    ensures Increasing(InOrder(order, s))
  {
    if order != [] {
      var rest := order[1..];
      assert Increasing(rest) by {
        forall i, j | 0 <= i < j < |rest|
          ensures Less(rest[i], rest[j])
        {
          assert rest[i] == order[i + 1] && rest[j] == order[j + 1];
        }
      }
      InOrderIncreasing(rest, s);
      InOrderMembers(rest, s);
      var tail := InOrder(rest, s);
      if order[0] in s {
        forall j | 0 <= j < |tail|
          ensures Less(order[0], tail[j])
        {
          assert tail[j] in rest;
          var k :| 0 <= k < |rest| && rest[k] == tail[j];
          assert order[k + 1] == rest[k];
        }
        var r := [order[0]] + tail;
        forall i, j | 0 <= i < j < |r|
          ensures Less(r[i], r[j])
        {
          if i > 0 {
            assert r[i] == tail[i - 1] && r[j] == tail[j - 1];
          } else {
            assert r[j] == tail[j - 1];
          }
        }
      }
    }
  }

  lemma AbbreviationOrderIncreasing()
    ensures Increasing(ABBREVIATION_ORDER)
  {
    var o := ABBREVIATION_ORDER;
    assert Less(o[0], o[1]) && Less(o[1], o[2]) && Less(o[2], o[3]) && Less(o[3], o[4]);
    forall i, j | 0 <= i < j < |o|
      ensures Less(o[i], o[j])
    {
      if j > i + 1 {
        LessTransitive(o[i], o[i + 1], o[j]);
      }
    }
  }

  /** `sorted()` of a set of abbreviations: the five abbreviations in
      increasing order, keeping those in `s`. */
  function SortedAbbreviations(s: set<string>): (r: seq<string>)
    ensures |r| <= |ABBREVIATION_ORDER|
  {
    InOrder(ABBREVIATION_ORDER, s)
  }

  /** The listing is increasing; for a set of abbreviations it holds exactly
      the members of the set. */
  lemma SortedAbbreviationsMeaning(s: set<string>)
    ensures Increasing(SortedAbbreviations(s))
    ensures forall x :: x in SortedAbbreviations(s) <==> x in ABBREVIATION_ORDER && x in s
  {
    AbbreviationOrderIncreasing();
    InOrderIncreasing(ABBREVIATION_ORDER, s);
    InOrderMembers(ABBREVIATION_ORDER, s);
  }

  /** Whatever lists the same abbreviations in increasing order is what
      `SortedAbbreviations` returns, so it is `sorted()`'s result. */
  lemma SortedAbbreviationsUnique(s: set<string>, listing: seq<string>)
    requires forall x :: x in s ==> x in ABBREVIATION_ORDER
    requires Increasing(listing) && forall x :: x in listing <==> x in s
    ensures listing == SortedAbbreviations(s)
  {
    SortedAbbreviationsMeaning(s);
    IncreasingUnique(listing, SortedAbbreviations(s));
  }

  lemma {:induction false} OnlineAbbreviationsKnown(logs: seq<Entry>)
    requires OnlineAbbreviations(logs).Success?
    ensures forall x :: x in OnlineAbbreviations(logs).value ==> x in ABBREVIATION_ORDER
  {
    if logs != [] {
      OnlineAbbreviationsKnown(logs[1..]);
      if IsOnline(logs[0]) {
        AbbreviationsListed(logs[0].day);
      }
    }
  }

  /** `','.join(sorted({...}))`: the report cell of one host. */
  function DaysConnected(logs: seq<Entry>): (r: Result<string, string>)
    ensures r.Failure? ==> r.error !in DAY_ABBREVIATIONS
    ensures r.Failure? <==> OnlineAbbreviations(logs).Failure?
  {
    match OnlineAbbreviations(logs)
    case Failure(d) => Failure(d)
    case Success(s) => Success(Join(SortedAbbreviations(s), ','))
  }

  /** A report cell fails exactly when an online entry has a day outside
      Monday to Friday. */
  lemma DaysConnectedSucceeds(logs: seq<Entry>)
    ensures DaysConnected(logs).Success? <==> forall i :: 0 <= i < |logs| && IsOnline(logs[i]) ==> logs[i].day in DAY_ABBREVIATIONS
  {
    OnlineAbbreviationsSucceeds(logs);
  }

  /** A report cell that does not fail is the comma-join of the distinct
      abbreviations of the online days in increasing string order, and the
      join splits back into those abbreviations. */
  lemma DaysConnectedSorted(logs: seq<Entry>)
    requires DaysConnected(logs).Success?
    ensures exists parts ::
      && Increasing(parts)
      && (forall a :: a in parts <==> exists i :: 0 <= i < |logs| && IsOnline(logs[i]) && logs[i].day in DAY_ABBREVIATIONS && DAY_ABBREVIATIONS[logs[i].day] == a)
      && DaysConnected(logs).value == Join(parts, ',')
      && (parts != [] ==> Split(Join(parts, ','), ',') == parts)
  {
    var r := OnlineAbbreviations(logs);
    OnlineAbbreviationsKnown(logs);
    var parts := SortedAbbreviations(r.value);
    SortedAbbreviationsMeaning(r.value);
    forall a
      ensures a in parts <==> exists i :: 0 <= i < |logs| && IsOnline(logs[i]) && logs[i].day in DAY_ABBREVIATIONS && DAY_ABBREVIATIONS[logs[i].day] == a
    {
      OnlineAbbreviationsMembers(logs, a);
    }
    forall i | 0 <= i < |parts|
      ensures ',' !in parts[i]
    {
      assert parts[i] in r.value;
      assert parts[i] in ABBREVIATION_ORDER;
    }
    if parts != [] {
      SplitJoin(parts, ',');
    }
  }

  /** The comprehension is empty exactly when no entry is online. */
  lemma {:induction false} OnlineAbbreviationsEmpty(logs: seq<Entry>)
    requires OnlineAbbreviations(logs).Success?
    ensures OnlineAbbreviations(logs).value == {} <==> forall i :: 0 <= i < |logs| ==> !IsOnline(logs[i])
  {
    if logs != [] {
      var rest := logs[1..];
      if !IsOnline(logs[0]) {
        OnlineAbbreviationsEmpty(rest);
        assert forall i :: 0 < i < |logs| ==> logs[i] == rest[i - 1];
      }
    }
  }

  /** The joined listing of a set of abbreviations is empty exactly when the set is. */
  lemma SortedJoinEmpty(s: set<string>)
    requires forall x :: x in s ==> x in ABBREVIATION_ORDER
    ensures Join(SortedAbbreviations(s), ',') == "" <==> s == {}
  {
    var parts := SortedAbbreviations(s);
    SortedAbbreviationsMeaning(s);
    forall i | 0 <= i < |parts|
      ensures parts[i] != ""
    {
      assert parts[i] in ABBREVIATION_ORDER;
    }
    JoinEmpty(parts, ',');
    HeadMember(parts);
    if s != {} {
      var x :| x in s;
      assert x in parts;
    }
  }

  /** A report cell that does not fail is empty exactly when no entry is online. */
  lemma DaysConnectedEmpty(logs: seq<Entry>)
    requires DaysConnected(logs).Success?
    ensures DaysConnected(logs).value == "" <==> forall i :: 0 <= i < |logs| ==> !IsOnline(logs[i])
  {
    OnlineAbbreviationsKnown(logs);
    SortedJoinEmpty(OnlineAbbreviations(logs).value);
    OnlineAbbreviationsEmpty(logs);
  }

  /** Entries that are not online never reach the lookup: only the online
      entries matter. */
  lemma {:induction false} OnlyOnlineEntriesMatter(logs: seq<Entry>)
    ensures OnlineAbbreviations(logs) == OnlineAbbreviations(OnlineEntries(logs))
  {
    if logs != [] {
      OnlyOnlineEntriesMatter(logs[1..]);
      var rest := OnlineEntries(logs[1..]);
      if IsOnline(logs[0]) {
        var o := [logs[0]] + rest;
        assert OnlineEntries(logs) == o;
        assert o[0] == logs[0] && o[1..] == rest;
      } else {
        assert OnlineEntries(logs) == [] + rest == rest;
      }
    }
  }

  lemma {:induction false} OnlineEntriesAppend(a: seq<Entry>, b: seq<Entry>)
    ensures OnlineEntries(a + b) == OnlineEntries(a) + OnlineEntries(b)
  {
    if a == [] {
      assert a + b == b;
    } else {
      assert (a + b)[0] == a[0] && (a + b)[1..] == a[1..] + b;
      OnlineEntriesAppend(a[1..], b);
      var h := if IsOnline(a[0]) then [a[0]] else [];
      var x, y := OnlineEntries(a[1..]), OnlineEntries(b);
      assert OnlineEntries(a + b) == h + (x + y);
      assert h + (x + y) == (h + x) + y;
    }
  }

  /** A probe that raised records day "unknown", which has no abbreviation, yet
      such an entry, wherever it sits in a host's list, changes nothing in the
      report cell, because its status is not online. */
  lemma ErrorEntryIgnored(before: seq<Entry>, after: seq<Entry>, computer: string, obs: Observation)
    requires obs.outcome.Raised?
    ensures EntryOf(Classify(computer, obs)).day !in DAY_ABBREVIATIONS
    ensures DaysConnected(before + [EntryOf(Classify(computer, obs))] + after) == DaysConnected(before + after)
  {
    var e := EntryOf(Classify(computer, obs));
    assert !IsOnline(e);
    OnlineEntriesAppend(before + [e], after);
    OnlineEntriesAppend(before, [e]);
    OnlineEntriesAppend(before, after);
    assert [e][1..] == [];
    assert OnlineEntries([e]) == [];
    assert OnlineEntries(before) + [] == OnlineEntries(before);
    OnlyOnlineEntriesMatter(before + [e] + after);
    OnlyOnlineEntriesMatter(before + after);
  }

  /** `','.join` of the five abbreviations in increasing order. */
  lemma JoinAbbreviationOrder()
    ensures Join(ABBREVIATION_ORDER, ',') == "F,M,T,Th,W"
  {
    var o := ABBREVIATION_ORDER;
    assert o[1..][1..][1..][1..] == ["W"];
    assert Join(o[1..][1..][1..], ',') == "Th,W";
    assert Join(o[1..][1..], ',') == "T,Th,W";
    assert Join(o[1..], ',') == "M,T,Th,W";
  }

  /** An online entry on a weekend day makes the lookup fail, while a weekend
      entry that is offline is skipped. */
  lemma WeekendEntries()
    ensures DaysConnected([Entry("Monday", ONLINE), Entry("Saturday", ONLINE)]) == Failure("Saturday")
    ensures DaysConnected([Entry("Monday", ONLINE), Entry("Sunday", OFFLINE)]) == Success("M")
  {
    var a := [Entry("Monday", ONLINE), Entry("Saturday", ONLINE)];
    assert a[1..] == [Entry("Saturday", ONLINE)];
    assert OnlineAbbreviations(a[1..]) == Failure("Saturday");
    var b := [Entry("Monday", ONLINE), Entry("Sunday", OFFLINE)];
    assert b[1..] == [Entry("Sunday", OFFLINE)] && b[1..][1..] == [];
    assert OnlineAbbreviations(b[1..]) == Success({});
    assert DAY_ABBREVIATIONS["Monday"] == "M";
    assert {"M"} + {} == {"M"};
    assert OnlineAbbreviations(b) == Success({"M"});
    var o := ABBREVIATION_ORDER;
    assert o[1..][1..][1..][1..][1..] == [];
    assert InOrder(o[1..][1..][1..][1..], {"M"}) == [];
    assert InOrder(o[1..][1..][1..], {"M"}) == [];
    assert InOrder(o[1..][1..], {"M"}) == [];
    assert InOrder(o[1..], {"M"}) == ["M"];
    assert InOrder(o, {"M"}) == ["M"];
  }

  /** A host online on every working day gets the cell "F,M,T,Th,W": string
      order, not weekday order. */
  lemma WholeWeekCell(logs: seq<Entry>)
    requires forall i :: 0 <= i < |logs| && IsOnline(logs[i]) ==> logs[i].day in DAY_ABBREVIATIONS
    requires forall d :: d in DAY_ABBREVIATIONS ==> Entry(d, ONLINE) in logs
    ensures DaysConnected(logs) == Success("F,M,T,Th,W")
  {
    OnlineAbbreviationsSucceeds(logs);
    var s := OnlineAbbreviations(logs).value;
    forall d | d in DAY_ABBREVIATIONS
      ensures DAY_ABBREVIATIONS[d] in s
    {
      var i :| 0 <= i < |logs| && logs[i] == Entry(d, ONLINE);
      OnlineAbbreviationsMembers(logs, DAY_ABBREVIATIONS[d]);
    }
    OnlineAbbreviationsKnown(logs);
    assert DAY_ABBREVIATIONS["Monday"] in s && DAY_ABBREVIATIONS["Tuesday"] in s && DAY_ABBREVIATIONS["Wednesday"] in s;
    assert DAY_ABBREVIATIONS["Thursday"] in s && DAY_ABBREVIATIONS["Friday"] in s;
    AbbreviationOrderIncreasing();
    SortedAbbreviationsUnique(s, ABBREVIATION_ORDER);
    JoinAbbreviationOrder();
  }

  // ---------------------------------------------------------------------------
  // The report mapping
  // ---------------------------------------------------------------------------

  /** The report cell of every host of `data`. */
  ghost function Cells(data: map<string, seq<Entry>>): (cells: map<string, Result<string, string>>)
    ensures cells.Keys == data.Keys
  {
    map h | h in data :: DaysConnected(data[h])
  }

  /** The report rows for hosts `keys`, in order, given each host's cell; the
      first failing cell aborts the whole report. */
  ghost function ReportKeys(keys: seq<string>, cells: map<string, Result<string, string>>): (r: Result<Dict<string>, string>)
    requires KeySet(keys) <= cells.Keys
    ensures r.Success? ==> Valid(r.value)
  {
    if keys == [] then Success(Empty())
    else
      var k := keys[|keys| - 1];
      match ReportKeys(keys[..|keys| - 1], cells)
      case Failure(d) => Failure(d)
      case Success(m) =>
        match cells[k]
        case Failure(d) => Failure(d)
        case Success(cell) => Success(Put(m, k, cell))
  }

  /** `pc_days_map`, or the `KeyError` that aborts building it. */
  ghost function ReportSpec(data: Log): Result<Dict<string>, string>
    requires Valid(data)
  {
    ReportKeys(data.keys, Cells(data.values))
  }

  /** A failure in the first `n` hosts is the failure of the whole report. */
  lemma {:induction false} ReportKeysFailureStays(keys: seq<string>, cells: map<string, Result<string, string>>, n: nat)
    requires KeySet(keys) <= cells.Keys && n <= |keys|
    requires KeySet(keys[..n]) <= cells.Keys
    requires ReportKeys(keys[..n], cells).Failure?
    ensures ReportKeys(keys, cells) == ReportKeys(keys[..n], cells)
    decreases |keys| - n
  {
    if n < |keys| {
      var init := keys[..|keys| - 1];
      assert init[..n] == keys[..n];
      KeySetPrefix(keys, |keys| - 1);
      ReportKeysFailureStays(init, cells, n);
    } else {
      assert keys[..n] == keys;
    }
  }

  /** The report for hosts `keys` succeeds exactly when every host's cell does. */
  lemma {:induction false} ReportKeysSucceeds(keys: seq<string>, cells: map<string, Result<string, string>>)
    requires KeySet(keys) <= cells.Keys
    ensures ReportKeys(keys, cells).Success? <==>
      forall i :: 0 <= i < |keys| ==> keys[i] in cells && cells[keys[i]].Success?
  {
    if keys != [] {
      var init, k := keys[..|keys| - 1], keys[|keys| - 1];
      ReportKeysSucceeds(init, cells);
      var ok := ReportKeys(init, cells).Success? && cells[k].Success?;
      assert ReportKeys(keys, cells).Success? == ok;
      if ok {
        forall i | 0 <= i < |keys|
          ensures keys[i] in cells && cells[keys[i]].Success?
        {
          if i < |init| {
            assert keys[i] == init[i];
          }
        }
      } else if ReportKeys(init, cells).Failure? {
        var i :| 0 <= i < |init| && !(init[i] in cells && cells[init[i]].Success?);
        assert keys[i] == init[i];
      }
    }
  }

  /** On success each host of `keys` has a row, in the order of `keys`,
      holding its cell, and there is no other row. */
  lemma {:induction false} ReportKeysRow(keys: seq<string>, cells: map<string, Result<string, string>>, h: string)
    requires KeySet(keys) <= cells.Keys && Distinct(keys)
    requires ReportKeys(keys, cells).Success?
    ensures ReportKeys(keys, cells).value.keys == keys
    ensures h in ReportKeys(keys, cells).value.values <==> h in KeySet(keys)
    ensures h in KeySet(keys) ==>
      && cells[h].Success?
      && ReportKeys(keys, cells).value.values[h] == cells[h].value
  {
    if keys != [] {
      var init := keys[..|keys| - 1];
      ReportKeysRow(init, cells, h);
    }
  }

  /** On failure the report carries the failure of the first failing host. */
  lemma {:induction false} ReportKeysFirstFailure(keys: seq<string>, cells: map<string, Result<string, string>>)
    requires KeySet(keys) <= cells.Keys
    requires ReportKeys(keys, cells).Failure?
    ensures exists i ::
      && 0 <= i < |keys| && keys[i] in cells && cells[keys[i]] == Failure(ReportKeys(keys, cells).error)
      && forall j :: 0 <= j < i ==> keys[j] in cells && cells[keys[j]].Success?
  {
    var init, k := keys[..|keys| - 1], keys[|keys| - 1];
    var e := ReportKeys(keys, cells).error;
    if ReportKeys(init, cells).Failure? {
      ReportKeysFirstFailure(init, cells);
      assert ReportKeys(init, cells).error == e;
      var i :| && 0 <= i < |init| && init[i] in cells && cells[init[i]] == Failure(e)
               && forall j :: 0 <= j < i ==> init[j] in cells && cells[init[j]].Success?;
      assert keys[i] == init[i];
      assert forall j :: 0 <= j < i ==> keys[j] == init[j];
    } else {
      ReportKeysSucceeds(init, cells);
      assert cells[k] == Failure(e);
      var i := |keys| - 1;
      assert keys[i] == k;
      assert forall j :: 0 <= j < i ==> keys[j] == init[j];
    }
  }

  /** Every host of the data gets a row, in the data's order, holding its cell;
      the report fails exactly when some host's cell fails, with the first such
      host's failure. */
  lemma ReportRows(data: Log)
    requires Valid(data)
    ensures ReportSpec(data).Success? <==> forall h :: h in data.values ==> DaysConnected(data.values[h]).Success?
    ensures ReportSpec(data).Success? ==>
      && ReportSpec(data).value.keys == data.keys
      && ReportSpec(data).value.values.Keys == data.values.Keys
      && forall h :: h in data.values ==> ReportSpec(data).value.values[h] == DaysConnected(data.values[h]).value
    ensures ReportSpec(data).Failure? ==>
      exists i ::
        && 0 <= i < |data.keys| && data.keys[i] in data.values
        && DaysConnected(data.values[data.keys[i]]) == Failure(ReportSpec(data).error)
        && forall j :: 0 <= j < i ==> data.keys[j] in data.values && DaysConnected(data.values[data.keys[j]]).Success?
  {
    var cells := Cells(data.values);
    ReportKeysSucceeds(data.keys, cells);
    forall h | h in data.values
      ensures exists i :: 0 <= i < |data.keys| && data.keys[i] == h
    {
      KeySetMembers(data.keys, h);
    }
    if ReportSpec(data).Success? {
      forall h
        ensures h in ReportSpec(data).value.values <==> h in data.values
        ensures h in data.values ==> ReportSpec(data).value.values[h] == DaysConnected(data.values[h]).value
      {
        ReportKeysRow(data.keys, cells, h);
      }
      ReportKeysRow(data.keys, cells, "");
    } else {
      ReportKeysFirstFailure(data.keys, cells);
    }
  }

  /** `generate_excel_report` on loaded data: each host's cell is computed in
      the data's order and stored in `pc_days_map`; a `KeyError` aborts. */
  method BuildReport(data: Log) returns (r: Result<Dict<string>, string>)
    requires Valid(data)
    ensures r == ReportSpec(data)
  {
    var pcDaysMap := Empty();
    ghost var cells := Cells(data.values);
    assert data.keys[..0] == [];
    for i := 0 to |data.keys|
      invariant KeySet(data.keys[..i]) <= data.values.Keys
      invariant ReportKeys(data.keys[..i], cells) == Success(pcDaysMap)
    {
      var computer := data.keys[i];
      KeySetMembers(data.keys, computer);
      KeySetPrefix(data.keys, i + 1);
      assert data.keys[..i + 1][..i] == data.keys[..i];
      var cell := DaysConnected(data.values[computer]);
      assert cell == cells[computer];
      if cell.Failure? {
        ReportKeysFailureStays(data.keys, cells, i + 1);
        return Failure(cell.error);
      }
      pcDaysMap := Put(pcDaysMap, computer, cell.value);
    }
    assert data.keys[..|data.keys|] == data.keys;
    r := Success(pcDaysMap);
  }
}
