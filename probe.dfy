/** The probe runner: one reachability probe per host, turned into a record. */
module Probe {

  const ONLINE := "online"
  const OFFLINE := "offline"
  const ERROR_PREFIX := "error: "
  /** The day recorded when the probe itself raised. */
  const UNKNOWN_DAY := "unknown"

  /** What a probe of one host produced: the return value of the ping command,
      or the message of the exception raised while running it or reading the clock. */
  datatype Outcome = Exited(code: int) | Raised(message: string)

  /** A probe's outcome together with the weekday name the clock gave for it
      (the `%A` format, such as "Monday"); the clock is read per probe. */
  datatype Observation = Observation(outcome: Outcome, today: string)

  /** The record a probe returns. */
  datatype ProbeRecord = ProbeRecord(computer: string, day: string, status: string)

  /** One persisted `{day, status}` entry of a host's log. */
  datatype Entry = Entry(day: string, status: string)

  predicate IsError(status: string) {
    |ERROR_PREFIX| <= |status| && status[..|ERROR_PREFIX|] == ERROR_PREFIX
  }

  /** `ping_single_computer`: a zero return value is online, any other value offline,
      both tagged with the clock's day; an exception gives an error status and day "unknown". */
  function Classify(computer: string, obs: Observation): (r: ProbeRecord)
    ensures r.computer == computer
    ensures r.status == ONLINE <==> obs.outcome == Exited(0)
    ensures r.status == OFFLINE <==> obs.outcome.Exited? && obs.outcome.code != 0
    ensures IsError(r.status) <==> obs.outcome.Raised?
    ensures obs.outcome.Raised? ==> r.status[|ERROR_PREFIX|..] == obs.outcome.message
    ensures r.day == if obs.outcome.Exited? then obs.today else UNKNOWN_DAY
  {
    match obs.outcome
    case Exited(code) =>
      if code == 0 then ProbeRecord(computer, obs.today, ONLINE)
      else
        assert OFFLINE[..|ERROR_PREFIX|][0] != ERROR_PREFIX[0];
        ProbeRecord(computer, obs.today, OFFLINE)
    case Raised(message) =>
      var status := ERROR_PREFIX + message;
      assert status[0] != OFFLINE[0] && status[0] != ONLINE[0];
      ProbeRecord(computer, UNKNOWN_DAY, status)
  }

  /** `executor.map(ping_single_computer, computer_list)`: one record per host,
      in host-list order, whatever order the probes finish in. */
  function ProbeAll(computers: seq<string>, observations: seq<Observation>): (records: seq<ProbeRecord>)
    requires |observations| == |computers|
    ensures |records| == |computers|
    ensures forall i :: 0 <= i < |records| ==> records[i] == Classify(computers[i], observations[i])
  {
    seq(|computers|, i requires 0 <= i < |computers| => Classify(computers[i], observations[i]))
  }

  /** Every record names the host it probed, in host-file order. */
  lemma ProbeAllHosts(computers: seq<string>, observations: seq<Observation>)
    requires |observations| == |computers|
    ensures forall i :: 0 <= i < |computers| ==> ProbeAll(computers, observations)[i].computer == computers[i]
  {
  }
}
