/** Laws of the merge that relate several runs or several hosts: merging into
    an empty mapping, merging the same batch twice, and when the
    one-entry-per-day promise holds. */
module MergeLaws {
  import opened Dicts
  import opened Probe
  import opened Store

  /** Against an empty prior mapping, every batch host is new. */
  lemma {:induction false} NewHostsNone(keys: seq<string>)
    ensures NewHosts(keys, map[]) == keys
  {
    if keys != [] {
      NewHostsNone(keys[..|keys| - 1]);
      assert keys == keys[..|keys| - 1] + [keys[|keys| - 1]];
    }
  }

  /** Merging into an empty mapping gives the batch back unchanged. */
  lemma MergeIntoEmpty(results: Log)
    requires Valid(results)
    ensures MergeSpec(Empty(), results) == results
  {
    var m := MergeSpec(Empty(), results);
    MergeDomain(Empty(), results);
    MergeOrder(Empty(), results);
    NewHostsNone(results.keys);
    assert m.keys == results.keys;
    forall h | h in m.values
      ensures m.values[h] == results.values[h]
    {
      MergeAt(Empty(), results, h);
    }
    assert m.values == results.values;
  }

  /** `Days` of a concatenation is the union. */
  lemma {:induction false} DaysAppend(a: seq<Entry>, b: seq<Entry>)
    ensures Days(a + b) == Days(a) + Days(b)
    decreases |b|
  {
    if b != [] {
      var b' := b[..|b| - 1];
      assert (a + b)[..|a + b| - 1] == a + b';
      assert (a + b)[|a + b| - 1] == b[|b| - 1];
      DaysAppend(a, b');
    } else {
      assert a + b == a;
    }
  }

  /** A filter whose every day is already seen keeps nothing. */
  lemma {:induction false} KeepUnseenAllSeen(logs: seq<Entry>, seen: set<string>)
    requires forall i :: 0 <= i < |logs| ==> logs[i].day in seen
    ensures KeepUnseen(logs, seen) == []
  {
    if logs != [] {
      KeepUnseenAllSeen(logs[..|logs| - 1], seen);
    }
  }

  /** After a merge, every day of a host's batch logs is among that host's days. */
  lemma MergedCoversBatch(previous: Log, results: Log, h: string, i: nat)
    requires Valid(previous) && Valid(results)
    requires h in results.values && i < |results.values[h]|
    ensures h in MergeSpec(previous, results).values
    ensures results.values[h][i].day in Days(MergeSpec(previous, results).values[h])
  {
    MergeAt(previous, results, h);
    var m := MergeSpec(previous, results).values[h];
    var e := results.values[h][i];
    DaysMembers(results.values[h], e.day);
    if h in previous.values {
      var p := previous.values[h];
      var k := KeepUnseen(results.values[h], Days(p));
      DaysAppend(p, k);
      if e.day !in Days(p) {
        KeepUnseenMembers(results.values[h], Days(p), e);
        var j :| 0 <= j < |k| && k[j] == e;
        DaysMembers(k, e.day);
      }
    }
  }

  /** A second merge of the same batch leaves each host's list as it is. */
  lemma MergeAgainAt(previous: Log, results: Log, h: string)
    requires Valid(previous) && Valid(results)
    requires h in MergeSpec(previous, results).values
    ensures h in MergeSpec(MergeSpec(previous, results), results).values
    ensures MergeSpec(MergeSpec(previous, results), results).values[h] == MergeSpec(previous, results).values[h]
  {
    var m := MergeSpec(previous, results);
    MergeAt(m, results, h);
    if h in results.values {
      forall i | 0 <= i < |results.values[h]|
        ensures results.values[h][i].day in Days(m.values[h])
      {
        MergedCoversBatch(previous, results, h, i);
      }
      KeepUnseenAllSeen(results.values[h], Days(m.values[h]));
      assert m.values[h] + [] == m.values[h];
    }
  }

  /** Merging the same batch a second time changes nothing: every day a batch
      brings is already present after the first merge. */
  lemma MergeIdempotent(previous: Log, results: Log)
    requires Valid(previous) && Valid(results)
    ensures MergeSpec(MergeSpec(previous, results), results) == MergeSpec(previous, results)
  {
    var m := MergeSpec(previous, results);
    var m2 := MergeSpec(m, results);
    MergeDomain(previous, results);
    MergeDomain(m, results);
    MergeOrder(m, results);
    KeySetEmpty(NewHosts(results.keys, m.values));
    assert m2.keys == m.keys;
    forall h | h in m2.values
      ensures m2.values[h] == m.values[h]
    {
      MergeAgainAt(previous, results, h);
    }
    assert m2.values == m.values;
  }

  /** A host's entries carry each weekday at most once. */
  ghost predicate OnePerDay(logs: seq<Entry>) {
    forall i, j :: 0 <= i < j < |logs| ==> logs[i].day != logs[j].day
  }

  /** Every list of the mapping carries each weekday at most once. */
  ghost predicate AllOnePerDay(d: Log) {
    forall h :: h in d.values ==> OnePerDay(d.values[h])
  }

  /** Two lists with no day in common, each with one entry per day, concatenate
      to a list with one entry per day. */
  lemma OnePerDayConcat(a: seq<Entry>, b: seq<Entry>)
    requires OnePerDay(a) && OnePerDay(b)
    requires forall j :: 0 <= j < |b| ==> b[j].day !in Days(a)
    ensures OnePerDay(a + b)
  {
    forall i, j | 0 <= i < j < |a + b|
      ensures (a + b)[i].day != (a + b)[j].day
    {
      if i < |a| && j >= |a| {
        DaysMembers(a, a[i].day);
        assert (a + b)[j] == b[j - |a|];
      } else if i >= |a| {
        assert (a + b)[i] == b[i - |a|] && (a + b)[j] == b[j - |a|];
      }
    }
  }

  /** The filter keeps one entry per day and only unseen days. */
  lemma {:induction false} KeepUnseenOnePerDay(logs: seq<Entry>, seen: set<string>)
    requires OnePerDay(logs)
    ensures OnePerDay(KeepUnseen(logs, seen))
    ensures forall j :: 0 <= j < |KeepUnseen(logs, seen)| ==> KeepUnseen(logs, seen)[j].day !in seen
  {
    if logs != [] {
      var init, last := logs[..|logs| - 1], logs[|logs| - 1];
      assert OnePerDay(init) by {
        forall i, j | 0 <= i < j < |init|
          ensures init[i].day != init[j].day
        {
          assert init[i] == logs[i] && init[j] == logs[j];
        }
      }
      KeepUnseenOnePerDay(init, seen);
      var k := KeepUnseen(init, seen);
      if last.day !in seen {
        forall x | 0 <= x < |k|
          ensures k[x].day != last.day
        {
          KeepUnseenMembers(init, seen, k[x]);
          var y :| 0 <= y < |init| && init[y] == k[x];
          assert logs[y] == init[y];
        }
        DaysMembers(k, last.day);
        OnePerDayConcat(k, [last]);
      }
    }
  }

  /** First write wins per weekday, host by host: when a host's prior list and
      its batch list each have one entry per day, so does its merged list,
      whatever the other hosts' lists hold. */
  lemma MergeOnePerDayAt(previous: Log, results: Log, h: string)
    requires Valid(previous) && Valid(results)
    requires h in previous.values || h in results.values
    requires h in previous.values ==> OnePerDay(previous.values[h])
    requires h in results.values ==> OnePerDay(results.values[h])
    ensures h in MergeSpec(previous, results).values
    ensures OnePerDay(MergeSpec(previous, results).values[h])
  {
    MergeAt(previous, results, h);
    if h in previous.values && h in results.values {
      var p := previous.values[h];
      KeepUnseenOnePerDay(results.values[h], Days(p));
      OnePerDayConcat(p, KeepUnseen(results.values[h], Days(p)));
    }
  }

  /** A merge of mappings whose lists all have one entry per day leaves lists
      with one entry per day. */
  lemma MergeOnePerDay(previous: Log, results: Log)
    requires Valid(previous) && Valid(results)
    requires AllOnePerDay(previous) && AllOnePerDay(results)
    ensures AllOnePerDay(MergeSpec(previous, results))
  {
    var m := MergeSpec(previous, results);
    forall h | h in m.values
      ensures OnePerDay(m.values[h])
    {
      MergeAt(previous, results, h);
      MergeOnePerDayAt(previous, results, h);
    }
  }

  /** The day set is read once per host and not refreshed, so a batch that
      brings the same new day twice for one host (a host listed twice in the
      host file) gets both entries appended. */
  lemma StaleDaysKeepBatchDuplicates()
    ensures var previous := Dict(["pc1"], map["pc1" := [Entry("Monday", ONLINE)]]);
            var results := Dict(["pc1"], map["pc1" := [Entry("Tuesday", OFFLINE), Entry("Tuesday", ONLINE)]]);
            && Valid(previous) && Valid(results)
            && AllOnePerDay(previous)
            && MergeSpec(previous, results).values["pc1"]
               == [Entry("Monday", ONLINE), Entry("Tuesday", OFFLINE), Entry("Tuesday", ONLINE)]
            && !OnePerDay(MergeSpec(previous, results).values["pc1"])
  {
    var previous := Dict(["pc1"], map["pc1" := [Entry("Monday", ONLINE)]]);
    var results := Dict(["pc1"], map["pc1" := [Entry("Tuesday", OFFLINE), Entry("Tuesday", ONLINE)]]);
    var batch := results.values["pc1"];
    assert Valid(previous) && Valid(results);
    MergeAt(previous, results, "pc1");
    assert Days([Entry("Monday", ONLINE)]) == {"Monday"};
    assert batch[..1] == [Entry("Tuesday", OFFLINE)];
    assert KeepUnseen(batch, {"Monday"}) == batch;
    var m := MergeSpec(previous, results).values["pc1"];
    assert m[1].day == m[2].day;
  }
}
