# energylogger — a Dafny model of meter discovery, polling and logging

The program finds a home energy meter (service `_hwenergy._tcp.local.`) on the local network
through mDNS service discovery (unless an address is given on the command
line). It then polls the meter's `/api/v1/data` endpoint forever and appends
each decoded measurement as one CSV row to `measurement.csv`. The file gets a
header line the first time it is created.

This project models the three pieces of decision logic in `src/main.rs`:

- `discovery.dfy` (module `Discovery`) covers `find_meter`. The browse channel
  is a finite `seq<Event>` and its end means the channel has closed. `Step` is
  one pass of the `while !finished` loop. `Run` folds `Step` over the stream
  and reports the result together with the number of events read. `FindMeter`
  is the loop as the program writes it: a `finished` flag, a counter, a result
  and the two early `?` returns. The predicate `Discovers` describes the
  outcome independently: discovery reads the shortest prefix of the stream
  after which it can no longer be listening, and the last event of that prefix
  decides the result. Both `Run` and `FindMeter` meet this description, and
  `DiscoversUnique` shows that it fixes the outcome.
- `logfile.dfy` (module `LogFile`) covers `create_file_if_not_existing` and
  `write_to_file`. The file system is a `map<string, seq<string>>` from path to
  lines.
- `polling.dfy` (module `Polling`) covers `main`. It models the choice of
  address, the data URL, the classification of each round and the sleep that
  follows, and a finite stretch of the endless loop.
- `optional.dfy` holds the `Option` type.

Notes on the model:
- The mDNS library hands back a resolved service's addresses as a hash set.
  The "first" address is the first one that set's iterator yields. The model
  takes the addresses as a sequence in that iteration order.
- A receive only fails once the channel is disconnected, and every receive
  fails after that. So the end of the event sequence stands for every failed
  receive.
- The search counter never passes 5, so the Rust integer width does not
  matter.
- A decoded measurement is represented by the row the writer appends for it.
  The timestamp and the float formatting are not modelled.
- The daemon is not shut down on the two early `None` returns (lines 39
  and 50).
- The program ignores write errors on the header and on the row (lines 73
  and 83).
- The header names five columns, while each data row starts with an extra
  timestamp column. `LogFile.Header` is the program's header.

## Model

| member | source | states |
|---|---|---|
| Discovery.Step | src/main.rs:41-63 | Discovery keeps listening after an event exactly when that single event neither resolves a service nor is the fifth started search. While listening, the counter grows only on a started search. When an event ends discovery, the result is that event's first address, or nothing. |
| Discovery.Run | src/main.rs:38-64 | Folding the step over the stream gives the outcome that `Discovers` describes. If the whole stream leaves discovery listening, nothing is found and every event is read. Otherwise exactly the shortest prefix that ends listening is read, and its last event gives the result. |
| Discovery.FindMeter | src/main.rs:29-69 | The loop with its flag, counter and early `?` returns meets the same description and returns exactly what `Run` returns, including the number of events read. |
| Discovery.DiscoversUnique | src/main.rs:38-64 | At most one result and one count of events read fit a given stream, so the loop's outcome is determined by the events alone. |
| Discovery.FirstResolutionWins | src/main.rs:42-52 | Take a resolved service with at least one address that arrives while discovery is still listening. The result is its first address, never a later one, and no event after it is read. |
| Discovery.GivesUpAtFifthSearch | src/main.rs:53-58 | With no resolution, discovery returns nothing right after the fifth started search. All earlier events are read and none after it. |
| Discovery.EmptyResolutionFails | src/main.rs:49-50 | A resolved service with no addresses ends discovery at once with no result. |
| Discovery.ClosedChannelFindsNothing | src/main.rs:39 | If the channel closes before any resolution and before the fifth search, the result is nothing, after every event has been read. |
| Discovery.FoundAddressWasResolved | src/main.rs:49-50 | Any address found is the first address of the last event read, and that event is a resolved service. No address is made up. |
| Discovery.Relevant | src/main.rs:60-62 | Dropping the events the loop ignores leaves no such event, keeps every resolved service and keeps the number of started searches. |
| Discovery.OtherEventsIgnored | src/main.rs:60-62 | Events that are neither a resolution nor a started search change neither the counter nor the result. Removing them from the stream gives the same result. |
| Discovery.LaterEventsIgnored | src/main.rs:38-58 | Once discovery has stopped on an event, replacing everything after that event leaves the outcome unchanged. |
| LogFile.CreateIfAbsent | src/main.rs:71-75 | If the path is absent, the file is created holding only the header `dal,normaal,terug dal,terug normaal,gas`. An existing file, even an empty one, is left unchanged. No other file changes. |
| LogFile.CreateIdempotent | src/main.rs:71-75 | Running the header step twice gives the same result as running it once. |
| LogFile.WriteToFile | src/main.rs:77-92 | A write keeps the file's previous lines as a prefix and appends exactly one row. On an absent path the file becomes the header followed by the row. No other file changes. |
| LogFile.WriteRowsAppends | src/main.rs:77-92 | N writes append exactly the N rows in order after the previous content, or after a single header on a fresh path. Every other file is left alone. |
| LogFile.KeepsEarlierLines | src/main.rs:81-83 | The log is append-only. A file's content before any number of writes is a prefix of its content afterwards. |
| LogFile.HeaderOnceOnFreshPath | src/main.rs:71-92 | From a fresh path, N writes give N+1 lines: the header once, first, followed by the N rows. |
| Polling.DataUrl | src/main.rs:118 | The URL built for an address reads back as exactly that address: it is the scheme, the address and the fixed data path, with nothing else. |
| Polling.UrlRoundTrip | src/main.rs:118 | The data URL consists exactly of `http://`, the address and `/api/v1/data`. The address can be read back from it. |
| Polling.UrlOfAddress | src/main.rs:118 | Any URL that reads back as an address is exactly that address's data URL. |
| Polling.Start | src/main.rs:107-118 | The program stops exactly when no address was supplied and discovery finds nothing. Otherwise it polls the data URL of the supplied address, or of the discovered one when none was supplied. |
| Polling.SuppliedAddressSkipsDiscovery | src/main.rs:107-110 | A supplied address bypasses discovery. The browse events make no difference, and the loop polls that address's data URL. |
| Polling.Classify | src/main.rs:124-143 | A round succeeds exactly when the request and the decoding both succeed. It is a fetch failure exactly when the request fails. Otherwise it is a parse failure. |
| Polling.Delay | src/main.rs:135-142 | The sleep is 300 seconds exactly after a success and 5 seconds exactly after a fetch or parse failure. |
| Polling.Iterate | src/main.rs:121-145 | A successful round appends its row to `measurement.csv` through the log writer. A failed round leaves the file system unchanged. The round's outcome alone fixes the sleep. |
| Polling.Poll | src/main.rs:121-146 | A stretch of rounds of the loop yields exactly one chosen sleep per round. |
| Polling.PollWritesLoggedRows | src/main.rs:121-146 | Over any stretch of rounds, the loop's effect on files is the log writer appending the successful rounds' rows, in order. |
| Polling.PollDelays | src/main.rs:121-146 | There is one sleep per round: 300 seconds after each success and 5 seconds after each failure. |
| Polling.PollFromFreshLog | src/main.rs:121-146 | Starting without the log file, rounds with at least one success leave a log holding the header once followed by the successful rows. No other file changes. Without a success, nothing changes. |
| Polling.SuppliedAddressScenario | src/main.rs:107-135 | Worked case: the supplied address `10.0.0.5` gives the URL `http://10.0.0.5/api/v1/data`. One decoded round on a fresh path writes the header and the row and sleeps 300 seconds. |

## Left out

- The mDNS daemon (`ServiceDaemon::new`, `browse`, `shutdown`, lines 31-33 and 66) is a foreign library. It is replaced by the event sequence. The model does not record that `shutdown` is skipped on the early returns at lines 39 and 50.
- The HTTP agent and its 5-second read and write timeouts (lines 102-105, 124) are replaced by the `Attempt` value. So is the serde decoding into `Measurement` (lines 11-18, 125).
- Measurement values, their float formatting and the `Local::now()` timestamp (lines 83-92) are floats and wall-clock time. A row is an opaque string.
- The real file system is not modelled. This covers the `unwrap` panic when the append-open fails (line 81) and the ignored write results (lines 73 and 83): in the model every write lands.
- LogFile.WriteToFile: every existing file is taken to hold whole, newline-terminated lines. If a file's last line has no trailing newline, the program's `writeln!` after the append-open (lines 81-83) joins the row onto that line; that case is not modelled.
- `thread::sleep`, `env_logger`, the log macros and clap argument parsing are I/O or configuration. The sleep appears only as the chosen number of seconds.
- The endless loop is modelled over finite stretches of rounds (`Polling.Poll`). The real loop never ends.
