/** Python's `dict` with string keys. Besides the key-to-value mapping it keeps
    the order in which keys were first inserted, which is the order that
    iteration, `json.dump` and the report's rows follow. */
module Dicts {

  datatype Dict<V> = Dict(keys: seq<string>, values: map<string, V>)

  /** The keys listed in `s`. */
  ghost function KeySet(s: seq<string>): set<string> {
    if s == [] then {} else KeySet(s[..|s| - 1]) + {s[|s| - 1]}
  }

  lemma {:induction false} KeySetMembers(s: seq<string>, k: string)
    ensures k in KeySet(s) <==> k in s
  {
    if s != [] {
      var init := s[..|s| - 1];
      KeySetMembers(init, k);
      assert s == init + [s[|s| - 1]];
    }
  }

  lemma KeySetEmpty(s: seq<string>)
    ensures KeySet(s) == {} <==> s == []
  {
  }

  lemma KeySetAppend(s: seq<string>, k: string)
    ensures KeySet(s + [k]) == KeySet(s) + {k}
  {
  }

  lemma {:induction false} KeySetPrefix(s: seq<string>, n: nat)
    requires n <= |s|
    ensures KeySet(s[..n]) <= KeySet(s)
    decreases |s| - n
  {
    if n < |s| {
      var init := s[..|s| - 1];
      assert init[..n] == s[..n];
      KeySetPrefix(init, n);
    } else {
      assert s[..n] == s;
    }
  }

  /** No key occurs twice. Stated key by key from the end, the way keys are added. */
  ghost predicate Distinct(s: seq<string>) {
    s == [] || (s[|s| - 1] !in KeySet(s[..|s| - 1]) && Distinct(s[..|s| - 1]))
  }

  lemma DistinctAppend(s: seq<string>, k: string)
    requires Distinct(s) && k !in KeySet(s)
    ensures Distinct(s + [k])
  {
  }

  /** Distinct keys, stated pairwise. */
  lemma {:induction false} DistinctPairwise(s: seq<string>)
    requires Distinct(s)
    ensures forall i, j :: 0 <= i < j < |s| ==> s[i] != s[j]
  {
    if s != [] {
      var init := s[..|s| - 1];
      DistinctPairwise(init);
      KeySetMembers(init, s[|s| - 1]);
      forall i, j | 0 <= i < j < |s|
        ensures s[i] != s[j]
      {
        assert s[i] == init[i];
        if j < |init| {
          assert s[j] == init[j];
        }
      }
    }
  }

  /** The order lists every key once and nothing else. */
  ghost predicate Valid<V>(d: Dict<V>) {
    Distinct(d.keys) && KeySet(d.keys) == d.values.Keys
  }

  /** `{}` */
  function Empty<V>(): (d: Dict<V>)
    ensures Valid(d) && d.keys == [] && d.values == map[]
  {
    Dict([], map[])
  }

  /** `d[k] = v`: a new key goes to the end of the order, an existing key keeps its place. */
  function Put<V>(d: Dict<V>, k: string, v: V): (r: Dict<V>)
    requires Valid(d)
    ensures Valid(r)
    ensures r.values == d.values[k := v]
    ensures r.keys == if k in d.values then d.keys else d.keys + [k]
  {
    if k in d.values then Dict(d.keys, d.values[k := v])
    else
      DistinctAppend(d.keys, k);
      KeySetAppend(d.keys, k);
      Dict(d.keys + [k], d.values[k := v])
  }

  /** A second assignment to the same key overrides the first and keeps its place. */
  lemma PutTwice<V>(d: Dict<V>, k: string, v: V, w: V)
    requires Valid(d)
    ensures Put(Put(d, k, v), k, w) == Put(d, k, w)
  {
  }

  /** Assigning a key the value it already has changes nothing. */
  lemma PutSame<V>(d: Dict<V>, k: string)
    requires Valid(d) && k in d.values
    ensures Put(d, k, d.values[k]) == d
  {
  }
}
