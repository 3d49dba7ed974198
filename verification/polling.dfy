/**
 Startup and the polling loop (`main` in src/main.rs).

 At startup the meter address comes from the command line or, failing that,
 from discovery; without one the program ends. It then fetches the meter's
 data URL forever. Each round is a success, a failed fetch or a failed
 decode, and that alone decides what is logged and how long to sleep.

 The HTTP request and the JSON decoding are external: a round is given as an
 `Attempt` saying how far it got. A decoded measurement is represented by the
 row the log writer would append for it (timestamp and five counters), which
 is opaque here.
 */
module Polling {
  import opened Optional
  import Discovery
  import LogFile

  const Scheme: string := "http://"
  const DataPath: string := "/api/v1/data"

  /** The log file the loop writes, relative to the working directory. */
  const LogPath: LogFile.Path := "measurement.csv"

  /** Seconds to sleep after a successful round (five minutes). */
  const SuccessDelay: nat := 60 * 5
  /** Seconds to sleep after a failed fetch or decode. */
  const FailureDelay: nat := 5

  /** The URL the loop fetches for a meter address. */
  function DataUrl(ip: Discovery.Address): (url: string)
    ensures AddressOf(url) == Some(ip)
  {
    UrlRoundTrip(ip);
    Scheme + ip + DataPath
  }

  /** Reads the meter address back out of a data URL, if it is one. */
  function AddressOf(url: string): (ip: Option<Discovery.Address>)
    ensures ip.Some? ==> |url| == |Scheme| + |ip.value| + |DataPath|
  {
    if |url| >= |Scheme| + |DataPath|
       && url[..|Scheme|] == Scheme
       && url[|url| - |DataPath|..] == DataPath
    then Some(url[|Scheme|..|url| - |DataPath|])
    else None
  }

  /** The data URL is exactly the scheme, the address and the fixed path:
      the address can be read back from it. */
  lemma UrlRoundTrip(ip: Discovery.Address)
    ensures AddressOf(Scheme + ip + DataPath) == Some(ip)
  {
    var url := Scheme + ip + DataPath;
    assert url[..|Scheme|] == Scheme;
    assert url[|url| - |DataPath|..] == DataPath;
    assert url[|Scheme|..|url| - |DataPath|] == ip;
  }

  /** Conversely, every URL that reads back as an address is that address's
      data URL. */
  lemma UrlOfAddress(url: string, ip: Discovery.Address)
    requires AddressOf(url) == Some(ip)
    ensures DataUrl(ip) == url
  {
    assert url == url[..|Scheme|] + url[|Scheme|..|url| - |DataPath|] + url[|url| - |DataPath|..];
  }

  /** Where startup leaves the program. */
  datatype Startup = Polling(url: string) | Terminated

  /** Lines 107-118 of `main`: a supplied address is used as it is;
      otherwise discovery runs over the browse events, and finding nothing
      ends the program. */
  function Start(supplied: Option<Discovery.Address>, events: seq<Discovery.Event>): (s: Startup)
    ensures s.Terminated? <==> supplied.None? && Discovery.Locate(events).None?
    ensures s.Polling? ==>
      && AddressOf(s.url).Some?
      && AddressOf(s.url) == (if supplied.Some? then supplied else Discovery.Locate(events))
  {
    var ip := if supplied.Some? then supplied else Discovery.Locate(events);
    match ip
    case None => Terminated
    case Some(address) => Polling(DataUrl(address))
  }

  /** A supplied address bypasses discovery: the browse events do not
      matter. */
  lemma SuppliedAddressSkipsDiscovery(ip: Discovery.Address, e1: seq<Discovery.Event>, e2: seq<Discovery.Event>)
    ensures Start(Some(ip), e1) == Start(Some(ip), e2) == Polling(DataUrl(ip))
  {
    UrlOfAddress(Start(Some(ip), e1).url, ip);
    UrlOfAddress(Start(Some(ip), e2).url, ip);
  }

  /** How one round went. */
  datatype Outcome = Success | FetchFailure | ParseFailure

  /** What the HTTP request and the decoder produced in one round: no
      response, or a response whose body did or did not decode to a
      measurement (given as the row it is logged as). */
  datatype Attempt = FetchFailed | Fetched(decoded: Option<LogFile.Line>)

  /** Lines 124-143: the round succeeds only when both the request and the
      decoding do; a failed request is reported before any decoding. */
  function Classify(a: Attempt): (o: Outcome)
    ensures o.Success? <==> a.Fetched? && a.decoded.Some?
    ensures o.FetchFailure? <==> a.FetchFailed?
  {
    match a
    case FetchFailed => FetchFailure
    case Fetched(None) => ParseFailure
    case Fetched(Some(_)) => Success
  }

  /** The sleep after a round, in seconds. */
  function Delay(o: Outcome): (seconds: nat)
    ensures seconds == 300 <==> o == Success
    ensures seconds == 5 <==> o == FetchFailure || o == ParseFailure
  {
    if o.Success? then SuccessDelay else FailureDelay
  }

  /** The state one round leaves behind: the file system and the sleep. */
  datatype Round = Round(fs: LogFile.FileSystem, delay: nat)

  /** One round of the loop: log the measurement if there is one, then
      choose the sleep. */
  function Iterate(fs: LogFile.FileSystem, a: Attempt): (r: Round)
    ensures r.delay == Delay(Classify(a))
    ensures Classify(a) == Success ==> r.fs == LogFile.WriteToFile(fs, LogPath, a.decoded.value)
    ensures Classify(a) != Success ==> r.fs == fs
  {
    match a
    case Fetched(Some(row)) => Round(LogFile.WriteToFile(fs, LogPath, row), SuccessDelay)
    case Fetched(None) => Round(fs, FailureDelay)
    case FetchFailed => Round(fs, FailureDelay)
  }

  /** What a finite stretch of the endless loop leaves: the file system and
      the sleep chosen after each round. */
  datatype Trace = Trace(fs: LogFile.FileSystem, delays: seq<nat>)

  function Poll(fs: LogFile.FileSystem, attempts: seq<Attempt>): (t: Trace)
    ensures |t.delays| == |attempts|
    decreases |attempts|
  {
    if |attempts| == 0 then Trace(fs, [])
    else
      var r := Iterate(fs, attempts[0]);
      var rest := Poll(r.fs, attempts[1..]);
      Trace(rest.fs, [r.delay] + rest.delays)
  }

  /** The rows of the rounds that succeeded, in order. */
  function Logged(attempts: seq<Attempt>): (rows: seq<LogFile.Line>)
    ensures |rows| <= |attempts|
  {
    if |attempts| == 0 then []
    else if Classify(attempts[0]) == Success then [attempts[0].decoded.value] + Logged(attempts[1..])
    else Logged(attempts[1..])
  }

  /** The loop's file effects are the log writer's: each successful round
      appends its row, and a failed round writes nothing. */
  lemma {:induction false} PollWritesLoggedRows(fs: LogFile.FileSystem, attempts: seq<Attempt>)
    ensures Poll(fs, attempts).fs == LogFile.WriteRows(fs, LogPath, Logged(attempts))
    decreases |attempts|
  {
    if |attempts| > 0 {
      var r := Iterate(fs, attempts[0]);
      PollWritesLoggedRows(r.fs, attempts[1..]);
      if Classify(attempts[0]) == Success {
        var rows := Logged(attempts);
        assert rows[0] == attempts[0].decoded.value && rows[1..] == Logged(attempts[1..]);
      }
    }
  }

  /** One sleep per round, of 300 seconds exactly after the successful
      rounds and 5 seconds after the failed ones. */
  lemma {:induction false} PollDelays(fs: LogFile.FileSystem, attempts: seq<Attempt>)
    ensures var delays := Poll(fs, attempts).delays;
      && |delays| == |attempts|
      && forall i | 0 <= i < |attempts| ::
           delays[i] == (if Classify(attempts[i]) == Success then 300 else 5)
    decreases |attempts|
  {
    if |attempts| > 0 {
      var r := Iterate(fs, attempts[0]);
      PollDelays(r.fs, attempts[1..]);
      var delays := Poll(fs, attempts).delays;
      forall i | 0 < i < |attempts|
        ensures delays[i] == (if Classify(attempts[i]) == Success then 300 else 5)
      {
        assert delays[i] == Poll(r.fs, attempts[1..]).delays[i - 1];
        assert attempts[i] == attempts[1..][i - 1];
      }
    }
  }

  /** Started on a file system without the log, a stretch of rounds with at
      least one success leaves a log holding the header once followed by
      the rows of the successful rounds, and touches no other file; without
      a success nothing changes. */
  lemma PollFromFreshLog(fs: LogFile.FileSystem, attempts: seq<Attempt>)
    requires LogPath !in fs
    ensures var fs' := Poll(fs, attempts).fs;
      if |Logged(attempts)| == 0 then fs' == fs
      else
        && LogFile.OnlyTouches(fs, fs', LogPath)
        && fs'[LogPath] == [LogFile.Header] + Logged(attempts)
  {
    PollWritesLoggedRows(fs, attempts);
    if |Logged(attempts)| > 0 {
      LogFile.WriteRowsAppends(fs, LogPath, Logged(attempts));
    }
  }

  /** A worked run: an address given on the command line, one round whose
      response decodes, and a log that did not exist yet. */
  lemma SuppliedAddressScenario(fs: LogFile.FileSystem, row: LogFile.Line)
    requires LogPath !in fs
    ensures Start(Some("10.0.0.5"), []) == Polling("http://10.0.0.5/api/v1/data")
    ensures Poll(fs, [Fetched(Some(row))]) == Trace(fs[LogPath := [LogFile.Header, row]], [300])
  {
    ScenarioUrl();
    var attempts := [Fetched(Some(row))];
    var r := Iterate(fs, attempts[0]);
    assert r == Round(fs[LogPath := [LogFile.Header, row]], 300);
    assert attempts[1..] == [];
    assert Poll(r.fs, attempts[1..]) == Trace(r.fs, []);
  }

  lemma ScenarioUrl()
    ensures DataUrl("10.0.0.5") == "http://10.0.0.5/api/v1/data"
  {
  }
}
