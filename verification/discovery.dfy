/**
 Meter discovery (`find_meter` in src/main.rs).

 The program browses for the `_hwenergy._tcp.local.` service and reads the
 browse events one at a time. It stops at the first of:
 - a resolved service, whose first address is the answer;
 - the fifth "search started" event, which means the search is exhausted;
 - the event channel closing.

 The browse channel is modelled as the finite sequence of events it delivers,
 in arrival order; the end of the sequence is the channel closing, after which
 every receive fails. The mDNS daemon itself is not modelled.
 */
module Discovery {
  import opened Optional

  /** A meter address as the resolver renders it (an IP address string). */
  type Address = string

  /** One browse event. A resolved service carries its addresses in the
      order in which the resolver's address set is iterated. */
  datatype Event =
    | ServiceResolved(addresses: seq<Address>)
    | SearchStarted
    | OtherEvent

  /** The browse gives up when this many searches have started. */
  const MaxSearchAttempts: nat := 5

  /** The loop's state between two events: still listening after a number of
      started searches, or finished with a result. */
  datatype State = Listening(attempts: nat) | Finished(result: Option<Address>)

  /** What discovery ends with, and how many events it took off the channel. */
  datatype Discovered = Discovered(result: Option<Address>, consumed: nat)

  /** How many "search started" events a stretch of the stream holds. */
  function Searches(events: seq<Event>): nat
  {
    if |events| == 0 then 0
    else (if events[0].SearchStarted? then 1 else 0) + Searches(events[1..])
  }

  predicate NoResolution(events: seq<Event>)
  {
    forall j | 0 <= j < |events| :: !events[j].ServiceResolved?
  }

  /** A stretch of events after which discovery, having already counted
      `prior` started searches, is still listening: nothing was resolved and
      the attempt bound was not reached. */
  predicate Quiet(prior: nat, events: seq<Event>)
  {
    NoResolution(events) && prior + Searches(events) < MaxSearchAttempts
  }

  /** The answer an event gives when it is the one that ends discovery: the
      first address of a resolved service, and nothing otherwise (an
      exhausted search, or a resolved service without any address). */
  function Verdict(e: Event): Option<Address>
  {
    if e.ServiceResolved? && |e.addresses| > 0 then Some(e.addresses[0]) else None
  }

  /** Declarative description of discovery: if the whole stream is quiet the
      channel closes first and nothing is found; otherwise discovery consumes
      exactly the shortest prefix that is not quiet, and its last event gives
      the verdict. */
  predicate Discovers(prior: nat, events: seq<Event>, result: Option<Address>, consumed: nat)
  {
    if Quiet(prior, events) then
      result == None && consumed == |events|
    else
      && 0 < consumed <= |events|
      && Quiet(prior, events[..consumed - 1])
      && !Quiet(prior, events[..consumed])
      && result == Verdict(events[consumed - 1])
  }

  /** One event of the browse loop, from a listening state. */
  function Step(attempts: nat, e: Event): (s: State)
    requires attempts < MaxSearchAttempts
    ensures s.Listening? <==> Quiet(attempts, [e])
    ensures s.Listening? ==> s.attempts == attempts + Searches([e])
    ensures s.Finished? ==> s.result == Verdict(e)
  {
    SearchesSingle(e);
    match e
    case ServiceResolved(addresses) =>
      Finished(if |addresses| == 0 then None else Some(addresses[0]))
    case SearchStarted =>
      if attempts + 1 == MaxSearchAttempts then Finished(None) else Listening(attempts + 1)
    case OtherEvent =>
      Listening(attempts)
  }

  /** Folds `Step` over the stream until discovery finishes or the channel
      closes. */
  function Run(prior: nat, events: seq<Event>): (d: Discovered)
    requires prior < MaxSearchAttempts
    ensures Discovers(prior, events, d.result, d.consumed)
    decreases |events|
  {
    if |events| == 0 then Discovered(None, 0)
    else
      match Step(prior, events[0])
      case Finished(r) =>
        QuietPrefix(prior, events, 1);
        Discovered(r, 1)
      case Listening(n) =>
        var d := Run(n, events[1..]);
        SearchesSingle(events[0]);
        QuietShift(prior, events, |events| - 1);
        assert events[..|events|] == events && events[1..][..|events| - 1] == events[1..];
        if Quiet(n, events[1..]) then Discovered(d.result, d.consumed + 1)
        else
          QuietShift(prior, events, d.consumed - 1);
          QuietShift(prior, events, d.consumed);
          Discovered(d.result, d.consumed + 1)
  }

  /** The address `find_meter` returns for a given event stream. */
  function Locate(events: seq<Event>): Option<Address>
  {
    Run(0, events).result
  }

  lemma SearchesSingle(e: Event)
    ensures Searches([e]) == (if e.SearchStarted? then 1 else 0)
  {
    assert [e][1..] == [];
  }

  lemma {:induction false} SearchesAppend(events: seq<Event>, e: Event)
    ensures Searches(events + [e]) == Searches(events) + (if e.SearchStarted? then 1 else 0)
    decreases |events|
  {
    if |events| == 0 {
      assert events + [e] == [e];
    } else {
      assert (events + [e])[1..] == events[1..] + [e];
      SearchesAppend(events[1..], e);
    }
  }

  lemma {:induction false} SearchesPrefix(events: seq<Event>, k: nat)
    requires k <= |events|
    ensures Searches(events[..k]) <= Searches(events)
    decreases |events|
  {
    if k > 0 {
      assert events[..k][1..] == events[1..][..k - 1];
      SearchesPrefix(events[1..], k - 1);
    }
  }

  /** Once discovery stops listening it never resumes: every prefix of a
      quiet stretch is quiet. */
  lemma QuietPrefix(prior: nat, events: seq<Event>, k: nat)
    requires k <= |events|
    ensures Quiet(prior, events) ==> Quiet(prior, events[..k])
  {
    SearchesPrefix(events, k);
    if Quiet(prior, events) {
      forall j | 0 <= j < k
        ensures !events[..k][j].ServiceResolved?
      {
        assert events[..k][j] == events[j];
      }
    }
  }

  /** Quietness of a prefix of `events`, seen from the state after its
      first event. */
  lemma QuietShift(prior: nat, events: seq<Event>, k: nat)
    requires 0 < |events| && k < |events|
    requires !events[0].ServiceResolved?
    ensures Quiet(prior, events[..k + 1])
        <==> prior + Searches([events[0]]) < MaxSearchAttempts
             && Quiet(prior + Searches([events[0]]), events[1..][..k])
  {
    var p := events[..k + 1];
    assert p[1..] == events[1..][..k];
    assert Searches([events[0]]) == (if events[0].SearchStarted? then 1 else 0);
    if NoResolution(events[1..][..k]) {
      forall j | 0 <= j < |p|
        ensures !p[j].ServiceResolved?
      {
        if j > 0 {
          assert p[j] == events[1..][..k][j - 1];
        }
      }
    }
    if NoResolution(p) {
      forall j | 0 <= j < k
        ensures !events[1..][..k][j].ServiceResolved?
      {
        assert events[1..][..k][j] == p[j + 1];
      }
    }
  }

  /** The declarative description pins the outcome down: at most one result
      and one consumption count fit a stream. */
  lemma DiscoversUnique(prior: nat, events: seq<Event>, r1: Option<Address>, c1: nat, r2: Option<Address>, c2: nat)
    requires Discovers(prior, events, r1, c1)
    requires Discovers(prior, events, r2, c2)
    ensures r1 == r2 && c1 == c2
  {
    if !Quiet(prior, events) && c1 != c2 {
      if c1 < c2 {
        assert events[..c2 - 1][..c1] == events[..c1];
        QuietPrefix(prior, events[..c2 - 1], c1);
      } else {
        assert events[..c1 - 1][..c2] == events[..c2];
        QuietPrefix(prior, events[..c1 - 1], c2);
      }
    }
  }

  /** The run is the one outcome the declarative description allows. */
  lemma RunIsTheDiscovery(prior: nat, events: seq<Event>, result: Option<Address>, consumed: nat)
    requires prior < MaxSearchAttempts
    requires Discovers(prior, events, result, consumed)
    ensures Run(prior, events) == Discovered(result, consumed)
  {
    var d := Run(prior, events);
    DiscoversUnique(prior, events, d.result, d.consumed, result, consumed);
  }

  /** The browse loop as the program writes it: a `finished` flag, a search
      counter and a result, with the two early `None` returns of the `?`
      operator (a failed receive, a resolved service without an address). */
  method FindMeter(events: seq<Event>) returns (ret: Option<Address>, consumed: nat)
    ensures Discovers(0, events, ret, consumed)
    ensures Run(0, events) == Discovered(ret, consumed)
  {
    var count := 0;
    var finished := false;
    ret := None;
    consumed := 0;
    while !finished
      invariant consumed <= |events|
      invariant !finished ==> ret == None && count == Searches(events[..consumed]) && Quiet(0, events[..consumed])
      invariant finished ==>
        && 0 < consumed
        && Quiet(0, events[..consumed - 1])
        && !Quiet(0, events[..consumed])
        && ret == Verdict(events[consumed - 1])
      decreases |events| - consumed
    {
      if consumed == |events| {
        // the receive fails: the channel is closed
        assert events[..consumed] == events;
        RunIsTheDiscovery(0, events, None, consumed);
        return None, consumed;
      }
      var event := events[consumed];
      assert events[..consumed + 1] == events[..consumed] + [event];
      SearchesAppend(events[..consumed], event);
      assert events[..consumed + 1][..consumed] == events[..consumed];
      assert events[..consumed + 1][consumed] == event;
      consumed := consumed + 1;
      match event
      case ServiceResolved(addresses) =>
        if |addresses| == 0 {
          // `ip?` on an empty address iterator
          QuietPrefix(0, events, consumed);
          RunIsTheDiscovery(0, events, None, consumed);
          return None, consumed;
        }
        ret := Some(addresses[0]);
        finished := true;
      case SearchStarted =>
        count := count + 1;
        if count == MaxSearchAttempts {
          finished := true;
        }
      case OtherEvent =>
    }
    QuietPrefix(0, events, consumed);
    RunIsTheDiscovery(0, events, ret, consumed);
  }

  /** A resolved service that reaches the loop while it is still listening
      ends discovery with its first address, and no later event is read. */
  lemma FirstResolutionWins(events: seq<Event>, i: nat)
    requires i < |events|
    requires events[i].ServiceResolved? && |events[i].addresses| > 0
    requires Quiet(0, events[..i])
    ensures Run(0, events) == Discovered(Some(events[i].addresses[0]), i + 1)
  {
    assert events[..i + 1][i] == events[i];
    QuietPrefix(0, events, i + 1);
    RunIsTheDiscovery(0, events, Some(events[i].addresses[0]), i + 1);
  }

  /** With no resolution, discovery gives up at exactly the fifth started
      search: it has read every event up to that one and none after. */
  lemma GivesUpAtFifthSearch(events: seq<Event>, i: nat)
    requires i < |events|
    requires events[i].SearchStarted?
    requires Quiet(0, events[..i]) && Searches(events[..i]) == MaxSearchAttempts - 1
    ensures Run(0, events) == Discovered(None, i + 1)
  {
    assert events[..i + 1] == events[..i] + [events[i]];
    SearchesAppend(events[..i], events[i]);
    QuietPrefix(0, events, i + 1);
    RunIsTheDiscovery(0, events, None, i + 1);
  }

  /** A resolved service without any address ends discovery at once with no
      result, even though the browse could have gone on. */
  lemma EmptyResolutionFails(events: seq<Event>, i: nat)
    requires i < |events|
    requires events[i] == ServiceResolved([])
    requires Quiet(0, events[..i])
    ensures Run(0, events) == Discovered(None, i + 1)
  {
    assert events[..i + 1][i] == events[i];
    QuietPrefix(0, events, i + 1);
    RunIsTheDiscovery(0, events, None, i + 1);
  }

  /** If the channel closes before any resolution and before the fifth
      search, every event is read and nothing is found. */
  lemma ClosedChannelFindsNothing(events: seq<Event>)
    requires NoResolution(events) && Searches(events) < MaxSearchAttempts
    ensures Run(0, events) == Discovered(None, |events|)
  {
    RunIsTheDiscovery(0, events, None, |events|);
  }

  /** A found address is never made up: it is the first address of the last
      event read, which is a resolved service. */
  lemma FoundAddressWasResolved(events: seq<Event>)
    ensures Locate(events).Some? ==>
      var d := Run(0, events);
      && 0 < d.consumed <= |events|
      && events[d.consumed - 1].ServiceResolved?
      && Locate(events).value == events[d.consumed - 1].addresses[0]
  {
  }

  /** The stream with every event other than a resolution or a started
      search removed. */
  function Relevant(events: seq<Event>): (r: seq<Event>)
    ensures |r| <= |events|
    ensures forall j | 0 <= j < |r| :: !r[j].OtherEvent?
    ensures forall j | 0 <= j < |events| && events[j].ServiceResolved? :: events[j] in r
    ensures Searches(r) == Searches(events)
    decreases |events|
  {
    if |events| == 0 then []
    else if events[0].OtherEvent? then Relevant(events[1..])
    else [events[0]] + Relevant(events[1..])
  }

  /** Other events change neither the counter nor the result: discovery
      finds the same thing on the stream without them. */
  lemma {:induction false} OtherEventsIgnored(prior: nat, events: seq<Event>)
    requires prior < MaxSearchAttempts
    ensures Run(prior, events).result == Run(prior, Relevant(events)).result
    decreases |events|
  {
    if |events| > 0 {
      var rest := events[1..];
      if events[0].OtherEvent? {
        OtherEventsIgnored(prior, rest);
      } else {
        var r := Relevant(events);
        assert r[0] == events[0] && r[1..] == Relevant(rest);
        match Step(prior, events[0])
        case Finished(_) =>
        case Listening(n) =>
          OtherEventsIgnored(n, rest);
      }
    }
  }

  /** Once discovery has stopped on an event, what follows it on the channel
      does not matter. */
  lemma {:induction false} LaterEventsIgnored(prior: nat, events: seq<Event>, later: seq<Event>)
    requires prior < MaxSearchAttempts
    requires !Quiet(prior, events)
    ensures Run(prior, events[..Run(prior, events).consumed] + later) == Run(prior, events)
    decreases |events|
  {
    var d := Run(prior, events);
    var s := events[..d.consumed] + later;
    assert s[0] == events[0];
    match Step(prior, events[0])
    case Finished(_) =>
    case Listening(n) =>
      var rest := events[1..];
      var dr := Run(n, rest);
      QuietShift(prior, events, |events| - 1);
      SearchesSingle(events[0]);
      assert events[..|events|] == events && rest[..|rest|] == rest;
      LaterEventsIgnored(n, rest, later);
      assert s[1..] == rest[..dr.consumed] + later;
  }
}
