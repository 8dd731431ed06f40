/** The host-list loader: the lines of the host file become the host names. */
module HostList {
  import opened Text

  /** `[line.strip() for line in lines if line.strip()]`: each line stripped,
      blank lines dropped, order kept. */
  function CleanLines(lines: seq<string>): (hosts: seq<string>)
    ensures |hosts| <= |lines|
    ensures forall k :: 0 <= k < |hosts| ==> hosts[k] != "" && Stripped(hosts[k])
  {
    if lines == [] then []
    else
      var host := Strip(lines[0]);
      (if host == "" then [] else [host]) + CleanLines(lines[1..])
  }

  /** A host comes from a line exactly when that line strips to it and is not blank. */
  lemma {:induction false} CleanLinesMembers(lines: seq<string>, host: string)
    ensures host in CleanLines(lines) <==> host != "" && exists i :: 0 <= i < |lines| && Strip(lines[i]) == host
  {
    if lines != [] {
      CleanLinesMembers(lines[1..], host);
      if exists i :: 0 <= i < |lines| && Strip(lines[i]) == host {
        var i :| 0 <= i < |lines| && Strip(lines[i]) == host;
        if i > 0 {
          assert lines[1..][i - 1] == lines[i];
        }
      }
      if exists i :: 0 <= i < |lines[1..]| && Strip(lines[1..][i]) == host {
        var i :| 0 <= i < |lines[1..]| && Strip(lines[1..][i]) == host;
        assert lines[i + 1] == lines[1..][i];
      }
    }
  }

  /** Each line is cleaned on its own and in place: cleaning commutes with
      concatenation, so the hosts keep the order of their lines. */
  lemma {:induction false} CleanLinesAppend(a: seq<string>, b: seq<string>)
    ensures CleanLines(a + b) == CleanLines(a) + CleanLines(b)
  {
    if a == [] {
      assert a + b == b;
    } else {
      assert (a + b)[0] == a[0];
      assert (a + b)[1..] == a[1..] + b;
      CleanLinesAppend(a[1..], b);
    }
  }

  /** Cleaning an already cleaned list changes nothing. */
  lemma {:induction false} CleanLinesIdempotent(lines: seq<string>)
    ensures CleanLines(CleanLines(lines)) == CleanLines(lines)
  {
    if lines != [] {
      var rest := CleanLines(lines[1..]);
      CleanLinesIdempotent(lines[1..]);
      var host := Strip(lines[0]);
      if host != "" {
        var hosts := [host] + rest;
        assert CleanLines(lines) == hosts;
        StripStripped(host);
        assert hosts[1..] == rest;
        assert CleanLines(hosts) == [host] + CleanLines(rest);
        assert CleanLines(rest) == rest;
        assert CleanLines(CleanLines(lines)) == CleanLines(lines);
      } else {
        assert CleanLines(lines) == rest;
      }
    }
  }
}
