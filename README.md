# deciders.rs in Dafny

A model of the decider library `deciders.rs`. A decider is a pure state machine with four operations:

- `decide`: (command, state) → events;
- `evolve`: (state, event) → state;
- `initial_state`;
- `is_terminal`.

The library's point is a set of combinators that build new deciders out of existing ones. The model covers:

- `utilities.dfy`:
  - module `Utilities` has `Either`, the fallible and infallible converters, Rust's `Option` and `u64`, and the sequence helpers the combinators use (`Lefts`/`Rights`, `WrapLeft`/`WrapRight`, `MapSeq`, `FilterMap`).
  - module `InMemory` has `InMemoryRunner`, a class whose `state` field `Command` updates in a loop. The loop is proved against the left fold `Deciders.Fold`.
- `deciders.dfy`, module `Deciders`:
  - the decider contract, as a record of four function values;
  - the six combinators `Composed`, `Many`, `Adapted`, `Mapped`, `Map2` and `Applied`, each a function from deciders to a decider.

  Every combinator's contract states its routing, tagging, concatenation and "nothing else changes" laws. For `Composed` (`ComposedFold`), `Many` (`ManyFold`, `ManyFoldKeys`) and `Adapted` followed by `Mapped` (`AdaptedMappedFold`), lemmas lift these laws to whole event histories.
- `integrations.dfy`:
  - the bulb, cat and cat-light machines of the integration tests;
  - the neutral decider and `run_decider`;
  - the scenario tests, restated as lemmas. General lemmas stand behind them, such as: "running a composed decider is running one side on its own events".
- `update_server.dfy`:
  - module `UpdateServer` covers version parsing (`str::split`, `str::trim`, `u64` parsing), the version order, and the `get_available_updates` loop.
  - module `UpdateDecider` covers the update-server decider and the properties of a client session.

## How Rust behaviour is modelled

- A Rust decider is a type with four associated functions and no `self`. Here it is a value of `Decider<C, E, So, Si>`, and the `PhantomData` type parameters become ordinary generic parameters.
- `decide` is a partial arrow (`-->`). A leaf decider that panics on some command/state pair, such as fitting a bulb twice, leaves that pair outside its precondition. The combinators carry the precondition through.
- `HashMap<String, S>` is `map<string, S>`.
- `split_version_string` panics on malformed input. Here it returns `None` instead, and `compare_versions` requires both of its arguments to parse.

## Model

| member | source | states |
|---|---|---|
| Utilities.Lefts | src/utilities.rs:9-14 | the `Left` payloads of a sequence of `Either` values are at most as many as the values |
| Utilities.Rights | src/utilities.rs:9-14 | the `Right` payloads are at most as many as the values |
| Utilities.WrapLeft | src/utilities.rs:9-14 | tagging every element `Left` keeps the length, and `Lefts` gives the elements back with no `Right` payloads |
| Utilities.WrapRight | src/utilities.rs:9-14 | tagging every element `Right` keeps the length, and `Rights` gives the elements back with no `Left` payloads |
| Utilities.AllLeftIsWrapped | src/utilities.rs:9-14 | a sequence made only of `Left` values is the `Left` wrapping of its own payloads |
| Utilities.AllRightIsWrapped | src/utilities.rs:9-14 | a sequence made only of `Right` values is the `Right` wrapping of its own payloads |
| Utilities.MapSeq | src/deciders.rs:192-198 | mapping an infallible converter over events keeps their number and order and converts each one |
| Utilities.FilterMap | src/deciders.rs:201-206 | the events a fallible converter accepts are at most as many as the events given |
| InMemory.InMemoryRunner.constructor | src/utilities.rs:57-64 | a new runner starts at the decider's initial state |
| InMemory.InMemoryRunner.WithState | src/utilities.rs:67-74 | a runner built with a state starts exactly at that state |
| InMemory.InMemoryRunner.Default | src/utilities.rs:94-101 | the default runner is the new runner: it starts at the initial state |
| InMemory.InMemoryRunner.Command | src/utilities.rs:80-86 | returns exactly the events decided against the state before the call; the new state is the left fold of `evolve` over those events from the old state; no events leave the state unchanged |
| InMemory.InMemoryRunner.GetState | src/utilities.rs:89-91 | returns the current state and changes nothing |
| Deciders.Fold | src/utilities.rs:82-84 | the left fold of `evolve` over events, first event first; `FoldAppend` states how it splits over a concatenation, and `InMemoryRunner.Command` is proved against it |
| Deciders.FoldAppend | src/utilities.rs:81-84 | folding two batches of events one after the other is folding their concatenation |
| Deciders.Composed | src/deciders.rs:51-86 | a `Left(c)` command yields exactly the first decider's events for `c` on the first state, all wrapped in `Left`, and a `Right` command does the same for the second decider; a `Left` event changes only the first state and a `Right` event only the second; the initial state is the pair of initial states; terminal iff both sides are terminal |
| Deciders.ComposedFold | src/deciders.rs:72-77 | folding a mixed history gives the pair of the first decider's fold over the `Left` events and the second decider's fold over the `Right` events |
| Deciders.EventsFor | src/deciders.rs:111-120 | selecting one instance's events never yields more events than the history has |
| Deciders.Tag | src/deciders.rs:111-120 | tagging events with a name keeps their number and order, every element carries the name, and selecting that name gives the events back |
| Deciders.AllNamedIsTagged | src/deciders.rs:111-120 | a history whose elements all carry one name is the tagging of its own events with that name |
| Deciders.Many | src/deciders.rs:105-140 | a command for `id` yields the decider's events for the stored state of `id`, or the initial state when `id` is absent, each tagged `id` in order; `evolve` keeps the input's keys plus `id`, sets `id` to the evolved state and leaves every other key unchanged; the initial state is the empty map; terminal iff every stored state is terminal |
| Deciders.ManyEvolveLookup | src/deciders.rs:122-131 | one `evolve` step on `id` moves instance `id` only; every other instance, stored or fresh, looks the same |
| Deciders.NamesCons | src/deciders.rs:122-131 | the names of a non-empty history are its first name plus the names of the rest |
| Deciders.ManyFold | src/deciders.rs:122-131 | after a named history, instance `id` is in the state its own events alone produce from its starting state, whatever the other instances' events are |
| Deciders.ManyFoldKeys | src/deciders.rs:122-131 | after a named history, the tracked names are those tracked before plus `Names(history)`, the set of names the history carries |
| Deciders.Adapted | src/deciders.rs:182-215 | a command the command converter rejects yields no events; otherwise the wrapped decider's events for the converted command and state come out converted one by one, with the same length and order; an event the event converter rejects leaves the converted state unchanged; otherwise the wrapped `evolve` applies; the initial state and terminality are the wrapped decider's |
| Deciders.Mapped | src/deciders.rs:236-256 | `decide` and `is_terminal` are the wrapped decider's own; `evolve` and the initial state are the wrapped ones passed through the state converter |
| Deciders.AdaptedMappedFold | src/deciders.rs:191-206 | when the output converter is undone by the input state converter, folding new events into an adapted and mapped decider matches the wrapped decider's fold over only the events that convert |
| Deciders.Map2 | src/deciders.rs:283-310 | `decide` is the first decider's events followed by the second's on the same input; `evolve` and the initial state combine both; terminal iff both are terminal |
| Deciders.Applied | src/deciders.rs:328-353 | `decide` is the function decider's events followed by the other decider's; `evolve` and the initial state apply the function decider's state to the other's; terminal iff both are terminal |
| Deciders.Map2IsApplied | src/deciders.rs:283-353 | `Map2` behaves like `Applied` over a mapped first decider whose state is the curried combiner, in all four operations |
| Bulb.Decide | tests/integrations.rs:59-89 | fitting an unfitted bulb yields exactly `Fitted` with the same use count; switching on an off bulb yields `SwitchedOn` while uses remain and `Blew` at zero; switching off an on bulb yields `SwitchedOff`; every other admitted pair yields nothing |
| Bulb.Evolve | tests/integrations.rs:91-108 | `Fitted` on an unfitted bulb makes it working and off with that count; `SwitchedOn` turns it on and uses one; `SwitchedOff` turns it off; `Blew` on a working bulb blows it; every other pair leaves the state unchanged |
| Bulb.IsTerminal | tests/integrations.rs:114-116 | terminal iff the bulb is blown |
| Bulb.DecideDefined | tests/integrations.rs:59-66 | the decider's `decide` is defined on every pair except fitting an already fitted bulb |
| Bulb.DecidedEventsNeverUnderflow | tests/integrations.rs:67-100 | no decided event decrements a zero use count |
| Bulb.DecideThenEvolve | tests/integrations.rs:59-108 | the state each decided command leads to: fitted and off, on with one use fewer, blown, or off; with no events the state is unchanged |
| Bulb.SwitchingIsIdempotent | tests/integrations.rs:67-108 | repeating a switch command after its events are folded in yields nothing |
| Bulb.BlownIsAbsorbing | tests/integrations.rs:87-116 | a blown bulb decides nothing, no event changes it, and it is terminal |
| Cat.Decide | tests/integrations.rs:145-151 | no events exactly when the cat is already in the state the command asks for; otherwise the single matching event |
| Cat.Evolve | tests/integrations.rs:153-159 | `GotToSleep` leaves the cat asleep and `WokeUp` leaves it awake |
| Cat.IsTerminal | tests/integrations.rs:165-167 | never terminal |
| Cat.CommandReachesTarget | tests/integrations.rs:145-159 | from any state, folding a command's events puts the cat in the state the command asks for |
| Cat.CommandsAreIdempotent | tests/integrations.rs:342-362 | a command repeated after its own events are folded in yields nothing |
| CatLight.Evolve | tests/integrations.rs:194-199 | the new state is `WakingUp` exactly when the event is `SwitchedOn` |
| CatLight.Resume | tests/integrations.rs:201-206 | yields `[WakeUp]` exactly when the state is `WakingUp`, and nothing otherwise |
| CatLight.React | tests/integrations.rs:208-215 | yields `[WakeUp]` exactly for `SwitchedOn` in `WakingUp`, and nothing otherwise |
| CatLight.InitialState | tests/integrations.rs:217-219 | the initial state is terminal and resumes no command |
| CatLight.IsTerminal | tests/integrations.rs:221-223 | terminal iff idle |
| CatLight.EvolveIgnoresState | tests/integrations.rs:194-199 | the state an event leads to does not depend on the state before it |
| CatLight.SwitchOnThenWake | tests/integrations.rs:194-223 | after `SwitchedOn` the process wants the cat woken and is not done; after `WokeUp` it is done and wants nothing |
| Integrations.NeutralTest | tests/integrations.rs:237-244 | the neutral decider's initial state is unit and terminal; it decides nothing and evolves to unit |
| Integrations.RunDecider | tests/integrations.rs:227-235 | replays events from the initial state and decides against the result; `ComposedRunLeft`, `ComposedRunRight` and `ManyRun` state what it gives for the combinators, and the scenario lemmas what it gives for each test |
| Integrations.ComposedRunLeft | tests/integrations.rs:227-235 | running a composed decider on a `Left` command after a mixed history is running the first decider on the history's `Left` events, with the result wrapped in `Left` |
| Integrations.ComposedRunRight | tests/integrations.rs:227-235 | the same for a `Right` command and the second decider |
| Integrations.ManyRun | tests/integrations.rs:227-235 | running the many-decider on a command for `id` is running the decider on `id`'s own events, with every resulting event named `id` |
| Integrations.BulbTest1 | tests/integrations.rs:246-255 | with no history, fitting with 5 uses yields `Fitted{5}` |
| Integrations.BulbTest2 | tests/integrations.rs:257-266 | after `Fitted{5}`, switching on yields `SwitchedOn` |
| Integrations.BulbTest3 | tests/integrations.rs:268-277 | after `Fitted{5}, SwitchedOn`, a second switch-on yields nothing |
| Integrations.BulbTest4 | tests/integrations.rs:279-288 | after `Fitted{5}, SwitchedOn`, switching off yields `SwitchedOff` |
| Integrations.BulbTest5 | tests/integrations.rs:290-303 | after `Fitted{5}, SwitchedOn, SwitchedOff`, switching off yields nothing |
| Integrations.BulbTest6 | tests/integrations.rs:305-318 | after `Fitted{1}, SwitchedOn, SwitchedOff`, switching on yields `Blew` |
| Integrations.CatTests | tests/integrations.rs:320-362 | the four cat scenarios: fall asleep, wake up, asleep twice gives nothing, awake twice gives nothing |
| Integrations.ComposeTest | tests/integrations.rs:364-396 | a cat and a bulb side by side: a `Left` cat command yields the cat's event tagged `Left`, and a `Right` bulb command yields the bulb's event tagged `Right` |
| Integrations.ManyTest | tests/integrations.rs:397-424 | Floof falls asleep from no history, and after Floof's history `GotToSleep, WokeUp` Shadow still falls asleep; the general fact for every history is `ManyRun` |
| Integrations.AdaptedMappedTest | tests/integrations.rs:426-539 | the cat behind new command, event and state types: sleep, wake and sleep again yield the converted events |
| Integrations.ProcessTest | tests/integrations.rs:540-568 | the cat-light process table: every `evolve`, `resume` and `react` case, the initial state and terminality |
| UpdateServer.Split | examples/update_server.rs:16 | splitting on a character always yields at least one piece |
| UpdateServer.SplitJoinsBack | examples/update_server.rs:16 | no piece contains the separator, and joining the pieces with it gives the string back |
| UpdateServer.SplitWithout | examples/update_server.rs:16 | a string without the separator is a single piece |
| UpdateServer.SplitFront | examples/update_server.rs:16 | a piece without the separator, followed by it, comes off the front of the split |
| UpdateServer.SplitJoin | examples/update_server.rs:16 | splitting undoes joining when no piece contains the separator |
| UpdateServer.TrimStartSpec | examples/update_server.rs:16 | trimming the start drops a prefix made only of white space, up to the first other character |
| UpdateServer.TrimEndSpec | examples/update_server.rs:16 | trimming the end drops a suffix made only of white space, back to the last other character |
| UpdateServer.Trim | examples/update_server.rs:16 | `str::trim`: `TrimStartSpec` and `TrimEndSpec` state exactly what each half drops, and `TrimAround` that padding made of white space is removed and nothing else |
| UpdateServer.TrimUnchanged | examples/update_server.rs:16 | a string that neither starts nor ends with white space is left alone |
| UpdateServer.TrimStartSkips | examples/update_server.rs:16 | leading white space makes no difference to trimming the start |
| UpdateServer.TrimEndSkips | examples/update_server.rs:16 | trailing white space makes no difference to trimming the end |
| UpdateServer.TrimAround | examples/update_server.rs:16 | trimming takes off exactly the white space around the text |
| UpdateServer.ParseU64 | examples/update_server.rs:18-20 | `str::parse::<u64>`: `ParseRejects` states the malformed strings it refuses, `ParseRefusesTooLarge` that it refuses the decimal form, with or without '+', of every number above `u64::MAX`, and `ParseFormat` that it reads back every number's decimal form |
| UpdateServer.ParseRefusesTooLarge | examples/update_server.rs:18-20 | the decimal form, with or without a leading '+', of every number N above `u64::MAX` is refused, and the version "N.0.0" does not parse |
| UpdateServer.ParseRejects | examples/update_server.rs:18-20 | `u64` parsing rejects the empty string, a lone '+' and a '-' sign; any accepted string is digits with at most a leading '+' |
| UpdateServer.FormatNat | examples/update_server.rs:18-20 | the decimal form of a number is non-empty digits, has no leading zero and denotes the number |
| UpdateServer.ParseFormat | examples/update_server.rs:18-20 | parsing the decimal form of a `u64`, with or without a leading '+', gives the number back |
| UpdateServer.SplitVersion | examples/update_server.rs:15-22 | `split_version_string`, with `None` for its panics: `SplitVersionOf` and `SplitVersionParsed` state together that it succeeds exactly when there are three pieces that each read as a `u64` after trimming, `SplitFormat` and `SplitPadded` give its round trips, `WrongPieceCountRejected`, `NegativePieceRejected` and `EmptyPieceRejected` that a wrong piece count, a piece starting with '-' and an empty piece are each rejected |
| UpdateServer.SplitVersionOf | examples/update_server.rs:15-22 | three pieces whose trimmed texts parse as numbers give exactly those numbers |
| UpdateServer.SplitVersionParsed | examples/update_server.rs:15-22 | a version that parses has exactly three pieces, and each trimmed piece reads as the corresponding number of the result |
| UpdateServer.FormatIsPlain | examples/update_server.rs:15-22 | a number's decimal form contains no '.' and nothing for trimming to take off |
| UpdateServer.SplitFormat | examples/update_server.rs:15-22 | parsing the canonical "major.minor.patch" form of a version gives the version back |
| UpdateServer.PaddedPiece | examples/update_server.rs:16-20 | a number padded with white space on both sides contains no '.' and parses as that number |
| UpdateServer.SplitPadded | examples/update_server.rs:15-22 | white space around each of the three numbers does not change the parsed version |
| UpdateServer.WrongPieceCountRejected | examples/update_server.rs:17 | every version that does not split into exactly three pieces on '.' is rejected |
| UpdateServer.NegativePieceRejected | examples/update_server.rs:18-20 | every three-piece version with a piece that starts with '-' after trimming is rejected |
| UpdateServer.EmptyPieceRejected | examples/update_server.rs:18-20 | every three-piece version with a piece that is empty after trimming is rejected |
| UpdateServer.WrongPieceCount | examples/update_server.rs:17 | "1.2" and "1.2.3.4" are rejected |
| UpdateServer.NegativeNumber | examples/update_server.rs:18-20 | "1.-2.3" is rejected |
| UpdateServer.MissingNumber | examples/update_server.rs:18-20 | "1..2" is rejected |
| UpdateServer.MulLess | examples/update_server.rs:24-38 | multiplication by a positive base keeps two integers at least one base apart |
| UpdateServer.PairRank | examples/update_server.rs:24-38 | with digits below the base, `hi * base + lo` orders pairs lexicographically |
| UpdateServer.RankOrder | examples/update_server.rs:24-38 | versions rank in lexicographic order of (major, minor, patch), and equal rank means the same version |
| UpdateServer.CompareVersions | examples/update_server.rs:24-38 | true exactly when the second version ranks above the first, i.e. is strictly lexicographically greater |
| UpdateServer.CompareIsStrictOrder | examples/update_server.rs:24-38 | no version is newer than itself, newer-than is asymmetric, and it is transitive |
| UpdateServer.CompareIsTotal | examples/update_server.rs:24-38 | of two parsed versions, one is newer than the other unless both denote the same numbers |
| UpdateServer.DropUntil | examples/update_server.rs:40-46 | skipping leading elements never lengthens the sequence |
| UpdateServer.DropUntilSpec | examples/update_server.rs:40-46 | what is kept is a suffix whose first element passes the test, and no dropped element passes it |
| UpdateServer.DropUntilKeeps | examples/update_server.rs:40-46 | when the test stays true along the sequence once it holds, exactly the passing elements are kept |
| UpdateServer.DropUntilAt | examples/update_server.rs:40-46 | when the test holds exactly from index `k` on, the suffix from `k` is kept |
| UpdateServer.NewerThanStays | examples/update_server.rs:40-46 | along an ascending list, once a version is newer than the current one, so are all later versions |
| UpdateServer.VersionsParse | examples/update_server.rs:5-13 | there are six published versions and six downloads, and every published version parses to the numbers it spells |
| UpdateServer.NumbersAscending | examples/update_server.rs:5 | the published version numbers rank in increasing order |
| UpdateServer.VersionsAscending | examples/update_server.rs:5 | the published versions are listed oldest first, without repeats |
| UpdateServer.AvailableUpdates | examples/update_server.rs:40-46 | the result is a suffix of the published versions; when it is non-empty its first version is newer than the current one, and no dropped version is newer |
| UpdateServer.AvailableUpdatesAreNewer | examples/update_server.rs:40-46 | the available updates are exactly the published versions newer than the current one |
| UpdateServer.GetAvailableUpdates | examples/update_server.rs:40-46 | the loop returns the suffix of the published versions from the first newer one on, and it holds exactly the published versions newer than the current one |
| UpdateDecider.FirstIndex | examples/update_server.rs:103-107 | the index found holds the value and no earlier index does; nothing is found iff the value is absent |
| UpdateDecider.Decide | examples/update_server.rs:79-117 | every command decides at most one event; `QueryUnknown`, `QueryUpToDate`, `QueryOffers`, `DownloadOffered`, `DownloadRefused` and `OtherPairsDecideNothing` state each branch |
| UpdateDecider.Evolve | examples/update_server.rs:119-142 | a new connection becomes an offer on `UpdateAvailable`, an unknown version on `UnknownVersionQueried` and no-new-update on `AlreadyUpToDate`; an offer becomes download-ready with the data on `GotUpdateData` and download-unavailable on `InvalidVersion`; every other event leaves these two states unchanged, and every other state is never changed |
| UpdateDecider.IsTerminal | examples/update_server.rs:148-153 | terminal iff no new update, download ready or download unavailable; an unknown version is not terminal |
| UpdateDecider.QueryUnknown | examples/update_server.rs:81-86 | a query for a version that is not published yields `UnknownVersionQueried` with that version |
| UpdateDecider.QueryUpToDate | examples/update_server.rs:87-89 | a query for a published version yields `AlreadyUpToDate` iff no published version is newer |
| UpdateDecider.QueryOffers | examples/update_server.rs:87-94 | otherwise the query yields one `UpdateAvailable` whose list is a non-empty suffix of the published versions and holds exactly the newer ones |
| UpdateDecider.VersionsDistinct | examples/update_server.rs:5 | the published versions are pairwise different |
| UpdateDecider.DownloadOffered | examples/update_server.rs:96-111 | downloading an offered published version yields that version's data, at the same index |
| UpdateDecider.DownloadRefused | examples/update_server.rs:100-112 | downloading a version that was not offered, or is not published, yields `InvalidVersion` |
| UpdateDecider.OtherPairsDecideNothing | examples/update_server.rs:115 | every other state/command pair yields no events |
| UpdateDecider.TerminalIsFinal | examples/update_server.rs:115-153 | a terminal state decides nothing and no event changes it |
| UpdateDecider.UnknownVersionIsStuck | examples/update_server.rs:115-153 | after an unknown version the session decides nothing and never changes, yet is not terminal |
| UpdateDecider.StepByOne | examples/update_server.rs:79-142 | a step is no change when nothing is decided, and otherwise one `evolve` by the single decided event |
| UpdateDecider.QueryKnownStep | examples/update_server.rs:81-131 | a query for a published version leads to no-new-update or to an offer of the available updates |
| UpdateDecider.OfferConsistent | examples/update_server.rs:87-94 | an offer made for a published version is non-empty and lists published versions only |
| UpdateDecider.DecideKeepsConsistent | examples/update_server.rs:79-142 | deciding any command and folding its events in keeps every offer non-empty and made of published versions |
| UpdateDecider.OfferedVersionDownloads | examples/update_server.rs:96-111 | in a consistent offer, downloading any offered version yields exactly `UPDATE_DATA` at that version's index in `VERSIONS` |
| UpdateDecider.DownloadDelivers | examples/update_server.rs:96-136 | downloading an offered, published version leaves the session download-ready with that version's data |
| UpdateDecider.DownloadSettles | examples/update_server.rs:96-139 | a download request on an offer always ends the session in a terminal state |
| UpdateDecider.QueryThenDownload | examples/update_server.rs:79-153 | a query followed by a download ends terminal, or stuck on the unknown version queried |
| UpdateDecider.NewerThanPublished | examples/update_server.rs:24-38 | a published version is older than exactly the versions listed after it |
| UpdateDecider.AvailableUpdatesOfPublished | examples/update_server.rs:40-46 | the updates offered to a client on a published version are the versions listed after it |
| UpdateDecider.ExampleSession | examples/update_server.rs:79-114 | a client on 1.1.0 is offered 1.1.1, 1.2.0 and 2.0.0, and downloading 2.0.0 yields its data |
| UpdateDecider.ExampleQueries | examples/update_server.rs:81-95 | a client on 2.0.0 is up to date, and one on 3.0.0 is on an unknown version |

## Left out

- The `processes` module (`Process`, `AdaptedProcess`, `CombinedProcessDecider`, `collect_fold`) is not part of this model. `CatLight`'s own functions are modelled, but the rule that combines a process with a decider is not. The `compose_process` test (tests/integrations.rs:570-657) depends on that rule, so it is left out too.
- `main` in examples/update_server.rs (lines 157-203) is console prompting and flushing, so it is I/O and left out.
- The `Debug` implementation of `InMemoryRunner` (src/utilities.rs:103-113) only formats, so it is left out.
- `PhantomData` fields and the `Copy + Clone` bounds exist only at compile time. They become generic type parameters.
- Deciders.Applied: the function decider's state is a Dafny arrow `Sd -> So`, which admits closures. Rust's `AppliedDecider` admits only `fn` pointers, which cannot capture values. So `Deciders.Map2IsApplied` holds in the model but has no Rust counterpart.
- Panics become preconditions or `None` results, never behaviour:
  - fitting an already fitted bulb;
  - `assert_eq!` and `expect` in `split_version_string`;
  - `compare_versions` on an unparsable version.
- Bulb.Evolve: `remaining_uses - 1` at zero aborts in a checked build and wraps in an unchecked one. The model wraps. `Bulb.DecidedEventsNeverUnderflow` shows that decided events never reach that case.
- Deciders.Composed, Deciders.Many, Deciders.Adapted, Deciders.Map2, Deciders.Applied: each contract says the combined `decide` is defined wherever the constituents' `decide` is. It does not say the converse, that the combination panics exactly where a constituent panics.
- UpdateServer.ParseU64 covers only Rust's `u64` decimal parsing. Other radixes and integer widths are not modelled.
- The in-place slice reassignment in `get_available_updates` is modelled on `seq` values. The slice is a view into the constant array, so nothing is shared or mutated.
