# ws-throttle bridge, modelled in Dafny

ws-throttle connects WebSocket clients to a JMRI model-railway server that speaks the
WiThrottle line protocol. The bridge holds one throttle, at the fixed address `S67`, and
the layout clock. It does three jobs:

- It cuts what JMRI sends into lines and decodes each line into an update: a function
  switched on or off, a velocity, a direction, or a clock reading. It applies the update
  to its state and announces it to the clients as JSON.
- It turns the JSON updates clients send into `MTA` throttle commands for JMRI.
- It answers a client's `update` request with the whole throttle.

Three generations of the code exist, and this model covers all three:

- the current server: `common/` and `server/`;
- the `lib/` crate: its line decoder and its upstream connection;
- the legacy binary in `src/`. Its decoder also reads clock lines. Its WebSocket tasks
  handle errors differently. Its writer takes a separate queue.

The current server imports its upstream connection from `common::jmri`
(server/src/main.rs:11). That file is not part of this model; the `lib/` crate's
lib/src/jmri.rs stands in for it. So `Relay.SessionOnTheWire`, for one, runs the server's
session lines through the `lib/` writer, `Upstream.WriteLoop`.

The modules follow the program's structure:

| module | what it holds |
|---|---|
| `Results` | `Option`, `Result`, and `Fallible` (a value, or the panic of an `unwrap`) |
| `Text` | integer `Display` and `FromStr`, `trim` and `split` as Rust's standard library defines them |
| `Patterns` | the four line patterns as leftmost-first matchers with their capture groups |
| `Dcc` | throttle state, the velocity clamp, the direction token, the clock |
| `Parse` | the three line decoders and the priority order of their rules |
| `Request` | `make_jmri_request`, and the proof that a command decodes back to its update |
| `Store` | the map of throttles plus the clock, and what an update does to them |
| `Bus` | broadcast-channel events and the generic writing loop |
| `Upstream` | the JMRI connection's message type, read loop and write loops, after lib/src/jmri.rs and src/jmri.rs; lib/src/jmri.rs also stands in for the server's `common::jmri` |
| `Gateway` | each WebSocket connection's send and receive tasks |
| `Relay` | the server's upstream loop and client loop, and the legacy listener |

Each loop is a function of the sequence of events it is handed. Its result is what it
wrote or published, together with how it stands afterwards:

- still running;
- returned `Ok(())`;
- returned an error: a read error, a write error, `Interrupted`, or a panic.

A socket whose write fails is modelled by a budget of writes it accepts. serde_json is a
parameter (`Relay.Serde`); the round-trip lemmas assume only that it reads back what it
writes (`Relay.Faithful`).

## Model

| member | source | states |
|---|---|---|
| `Text.NatToString` | server/src/main.rs:178-181 | `Display` of a number is non-empty and all digits, has no leading zero, and reads back as the number |
| `Text.NatToStringLength` | common/src/parse.rs:22 | a number below 10^k prints in at most k digits, so a function number of at most 99 fits the pattern's two digits |
| `Text.ParseInteger` | common/src/parse.rs:31 | `FromStr` succeeds only inside the type's range; on digits in range it gives their value |
| `Text.ParseIntegerNegative` | common/src/parse.rs:36 | a `-` followed by digits reads as the negated value for a signed type |
| `Text.IntToString` | server/src/main.rs:182-185 | `Display` of an `i16`: a leading `-` exactly for a negative value, then digits whose value is the magnitude; ParseIntegerOfIntToString is its inverse |
| `Text.ParseIntegerOfIntToString` | server/src/main.rs:182-185 | `FromStr` reads back what `Display` printed, for every value in range |
| `Text.Trim` | lib/src/jmri.rs:52-53 | the trimmed text is an infix of the text with only whitespace before and after it, has no whitespace at either end, and is empty exactly when the text is all whitespace |
| `Text.TrimOfTrimmed` | lib/src/jmri.rs:52-53 | trimming already trimmed text changes nothing |
| `Text.Split` | lib/src/jmri.rs:51-52 | splitting gives at least one piece, and no piece holds the separator |
| `Text.JoinSplit` | lib/src/jmri.rs:51-52 | joining the pieces with the separator gives back the original text |
| `Text.SplitJoin` | lib/src/jmri.rs:51-52 | splitting undoes joining when no piece holds the separator |
| `Patterns.DigitRun` | common/src/parse.rs:22-26 | the run found is all digits and is followed by the end of the text or a non-digit |
| `Patterns.Leftmost` | common/src/parse.rs:29 | the position found matches, and no earlier position does |
| `Patterns.MatchShape` | common/src/parse.rs:22-26 | a match starts with its pattern's lead character and captures well-shaped groups of the pattern's own kind |
| `Patterns.FunctionAtShape` | common/src/parse.rs:22 | a function match is `F`, a flag digit, a digit, and then a second digit when one follows |
| `Patterns.VelocityAtShape` | common/src/parse.rs:23 | a velocity match takes the `-` only when a digit follows it, and then as many digits as there are, up to three |
| `Patterns.VelocityAtRun` | common/src/parse.rs:23 | at a `V` with an optional sign and a run of one to three digits that ends there, the match captures the sign and the whole run |
| `Patterns.VelocityLeftmostAt` | common/src/parse.rs:23 | with no `V` before it, that match is the leftmost one |
| `Patterns.DirectionAtShape` | common/src/parse.rs:24 | a direction match is `R` and a flag digit, and captures that two-character token |
| `Patterns.ClockAtShape` | common/src/parse.rs:25-26 | a clock match captures the whole digit run after `PFT` as the timestamp |
| `Patterns.CapturesLeftmost` | common/src/parse.rs:29 | when there is a match at j and none before it, `captures` reports the match at j |
| `Patterns.CapturesIffOccurs` | common/src/parse.rs:29 | `captures` finds groups exactly when the pattern matches somewhere in the line |
| `Patterns.NoLeadNoMatch` | common/src/parse.rs:22-24 | a stretch without the pattern's lead character holds no match |
| `Patterns.NoLeadNoCaptures` | common/src/parse.rs:22-24 | a line without the pattern's lead character has no captures |
| `Patterns.DigitRunIs` | common/src/parse.rs:22-26 | a digit run that ends at a non-digit or at the end of the text is measured exactly |
| `Patterns.FunctionNumFits` | common/src/parse.rs:31 | a captured function number is at most 99, so `FunctionNum::from_str(..).unwrap()` cannot panic |
| `Patterns.VelocityTextFits` | common/src/parse.rs:36 | a captured velocity lies in -999..999, so `VelocityValue::from_str(..).unwrap()` cannot panic |
| `Dcc.UpdateTime` | common/src/dcc.rs:30-33 | a clock update overwrites both the timestamp and the scale |
| `Dcc.ParseDirection` | common/src/dcc.rs:114-123 | only `R0` reads as reverse; every other text reads as forward, so parsing never fails |
| `Dcc.DirectionRoundTrip` | common/src/dcc.rs:104-123 | the direction token parses back to the direction, and the two tokens differ |
| `Dcc.SetVelocity` | common/src/dcc.rs:53-55 | a velocity write lands in -1..129: values inside are kept and values outside go to the nearer bound |
| `Dcc.VelocityFromStr` | common/src/dcc.rs:71-90 | fails with the message naming the text exactly when no velocity occurs; otherwise the value is `i16::from_str` of the `v` group of the leftmost match, with no clamp |
| `Dcc.LegacyVelocityFromStr` | src/dcc.rs:45-60 | reads the same value as the current `from_str`, and fails exactly when no velocity occurs, with the message `Unable to ` |
| `Parse.VelocityFromStrValue` | common/src/dcc.rs:74-89 | the value read is that of the leftmost `V`: the negated digits after a `-`, otherwise the digits after the `V`, at most three, with no clamp |
| `Parse.VelocityFromStrAgreesWithDecode` | common/src/dcc.rs:74-89 | on a line without a function match, `from_str` succeeds exactly when the decoder yields a velocity, and then with the same value |
| `Dcc.VelocityFromStrDoesNotClamp` | common/src/dcc.rs:74-89 | `V200` reads as 200, past the clamp; `V-1` reads as -1; text without a velocity fails |
| `Dcc.VelocityFromStrPastClamp` | common/src/dcc.rs:74-89 | `V200` reads as 200, a value the clamp would cut to 129 |
| `Dcc.VelocityFromStrEmergency` | common/src/dcc.rs:74-89 | `V-1` reads as -1, the emergency value |
| `Dcc.SetVel` | common/src/dcc.rs:153-155 | sets the clamped velocity and leaves the address, direction and functions alone |
| `Dcc.SetDir` | common/src/dcc.rs:161-163 | sets the direction and leaves the address, velocity and functions alone |
| `Dcc.SetFunc` | common/src/dcc.rs:169-175 | sets the one function number to the given state and leaves every other function, the velocity and the direction alone |
| `Dcc.NewThrottleState` | common/src/dcc.rs:136-147 | a new throttle keeps its address, stands still facing forward, has every function off, and is not in emergency |
| `Dcc.EmergencyAfterSetVel` | common/src/dcc.rs:145-155 | after a velocity write the throttle is in emergency exactly when a negative value was written, and then its velocity is -1 |
| `Dcc.SetFuncIdempotent` | common/src/dcc.rs:169-175 | writing the same function state twice is the same as writing it once |
| `Dcc.SetFuncCommutes` | common/src/dcc.rs:169-175 | writes to different function numbers commute |
| `Parse.FirstMatchingRuleDecides` | common/src/parse.rs:28-46 | the first rule with captures decides the result, and later rules are never consulted |
| `Parse.NoRuleMatches` | common/src/parse.rs:45 | when no rule has captures the result is no update, and no panic |
| `Parse.DecodeWithAppend` | src/jmri/parse.rs:42-70 | appending a rule keeps every answer the earlier rules give, and hands the lines they leave alone to the new rule |
| `Parse.ConvertWellShaped` | common/src/parse.rs:29-43 | captured groups always convert without a panic, except a clock timestamp beyond `u64::MAX` |
| `Parse.CapturesShape` | common/src/parse.rs:22-26 | captured groups are well shaped and of the pattern's own kind |
| `Parse.ThreeRulesTotal` | common/src/parse.rs:28-46 | the three-rule decoder never panics and never yields a clock update, and yields nothing exactly when no pattern occurs |
| `Parse.Decode` | common/src/parse.rs:28-46 | the current decoder yields nothing exactly when none of the three patterns occurs; it never yields a clock update; a function number is at most 99 and a velocity within -999..999 |
| `Parse.LibDecode` | lib/src/parse.rs:21-59 | the `lib` decoder with its `Regexes` set decodes every line exactly as the current decoder does |
| `Parse.LegacyDecode` | src/jmri/parse.rs:42-70 | the legacy decoder agrees with the current one wherever that one has an answer; otherwise it yields a clock update, panics exactly when the timestamp overflows `u64`, and yields nothing exactly when no pattern occurs |
| `Parse.CapturesAtLeftmost` | common/src/parse.rs:29 | the groups reported are those of the leftmost match |
| `Parse.FunctionRuleDecides` | common/src/parse.rs:29-33 | a line where the function pattern occurs decodes to a function update whatever else it holds: on exactly when the flag is `1`, with the one- or two-digit number that follows |
| `Parse.FunctionMatchValue` | common/src/parse.rs:29-33 | a function match converts to a function update that is on exactly when the flag is `1`, with the number its one or two digits spell |
| `Parse.FunctionRuleReached` | common/src/parse.rs:29-33 | the function rule decides every line where the function pattern occurs |
| `Parse.VelocityRuleReached` | common/src/parse.rs:35-38 | the velocity rule decides every line the function rule leaves alone |
| `Parse.VelocityGroupsValue` | common/src/parse.rs:36 | a captured velocity converts to the value of its digits, negated after a `-` |
| `Parse.VelocityMatchValue` | common/src/parse.rs:35-38 | a velocity match converts to the digits after the `-` negated when a `-` follows the `V`, and to the digits after the `V` otherwise |
| `Parse.VelocityRuleDecides` | common/src/parse.rs:35-38 | a line without a function match but with a velocity match decodes to that signed velocity, at most three digits of it |
| `Parse.DirectionRuleReached` | common/src/parse.rs:40-43 | the direction rule decides every line the first two rules leave alone |
| `Parse.DirectionRuleDecides` | common/src/parse.rs:40-43 | such a line decodes to reverse after `R0` and to forward after `R1` |
| `Parse.ClockRuleReached` | src/jmri/parse.rs:59-67 | in the legacy decoder the clock rule decides every line the other three rules leave alone |
| `Parse.ClockRuleDecides` | src/jmri/parse.rs:59-69 | a clock line the other rules leave alone decodes to nothing in the current decoder; the legacy decoder reads its whole timestamp or panics when the timestamp overflows |
| `Parse.DecodeFunctionExample` | common/src/parse.rs:29-33 | `F112` switches function 12 on |
| `Parse.DecodeVelocityExample` | common/src/parse.rs:35-38 | `V-1` is the emergency velocity |
| `Parse.DecodeDirectionExamples` | common/src/parse.rs:40-43 | `R0` is reverse and `R1` is forward |
| `Parse.ClockExampleHasNoOtherMatch` | src/jmri/parse.rs:43-57 | in `PFT100<;>2.0` the `F` of `PFT` starts no function match, and no other pattern matches |
| `Parse.ClockExampleCaptures` | src/jmri/parse.rs:59-60 | the clock pattern captures timestamp `100` and scale `2.0` |
| `Parse.DecodeClockExample` | src/jmri/parse.rs:59-67 | the current decoder ignores a clock line; the legacy one reads timestamp 100 at scale 2.0 |
| `Parse.ConvertClockExample` | src/jmri/parse.rs:61-65 | the clock groups convert to timestamp 100 with the scale text `2.0` |
| `Request.CommandHead` | server/src/main.rs:179-188 | every command starts with `MTA`, the address and `<;>` |
| `Request.MakeJmriRequest` | server/src/main.rs:176-194 | exactly a clock update has no command; every other update becomes a `Send` that starts with the command head and has more after it |
| `Request.MakeJmriRequestExample` | server/src/main.rs:178-181 | switching function 12 on at `S67` is the command `MTAS67<;>F112` |
| `Request.TestAddressInert` | server/src/main.rs:20 | the served address holds no pattern lead and no line terminator |
| `Request.HeadIsInert` | server/src/main.rs:176-194 | the command head of such an address holds no `F`, `V`, `R` or line terminator |
| `Request.FunctionLineShape` | server/src/main.rs:178-181 | in a function command the leftmost function match is the `F` after the head, and it captures the flag and all the digits |
| `Request.FunctionTextOf` | server/src/main.rs:178-181 | a function number up to 99 prints as one or two digits |
| `Request.FunctionCommandDecodes` | server/src/main.rs:178-181 | a function command for a number up to 99 decodes back to the function update, when no digit follows it |
| `Request.DigitsInert` | server/src/main.rs:178-181 | printed digits hold no pattern lead and no line terminator |
| `Request.VelocityTextOf` | server/src/main.rs:182-185 | a velocity within -999..999 prints as an optional `-` and one to three digits |
| `Request.VelocityTextInert` | server/src/main.rs:182-185 | a printed velocity holds no pattern lead and no line terminator |
| `Request.VelocityLineShape` | server/src/main.rs:182-185 | in a velocity command the leftmost velocity match is the `V` after the head, and it captures the whole printed value |
| `Request.VelocityLineHasNoF` | server/src/main.rs:182-185 | a velocity command line holds no function match |
| `Request.VelocityCommandDecodes` | server/src/main.rs:182-185 | a velocity command for a value within -999..999 decodes back to the velocity update when no `F` and no further digit follows |
| `Request.DirectionCommandDecodes` | server/src/main.rs:186-189 | after a head without `F`, `V` or `R`, a direction token decodes back to the direction update when no `F` or `V` follows |
| `Request.QueryLinesDecodeToNothing` | server/src/main.rs:184-188 | the `qV` and `vR` query lines decode to nothing |
| `Request.QueryHasNoLeads` | server/src/main.rs:184-188 | after its terminator a query line holds no `F` and no further terminator, and a `V` only in `qV` |
| `Request.RequestRoundTrip` | server/src/main.rs:176-194 | for a function number up to 99 and a velocity within -999..999, both the whole command and its setting line decode back to the update; a function command is one line, and the others are two lines whose second decodes to nothing |
| `Request.FunctionRequestRoundTrip` | server/src/main.rs:178-181 | a function command is one line, and it decodes back to its update |
| `Request.VelocityRequestRoundTrip` | server/src/main.rs:182-185 | a velocity command splits into the `V` setting line and the `qV` query line; the whole text and the setting line decode back to the velocity, the query line to nothing |
| `Request.DirectionRequestRoundTrip` | server/src/main.rs:186-189 | a direction command splits into the direction setting line and the `vR` query line; the whole text and the setting line decode back to the direction, the query line to nothing |
| `Request.SplitCommand` | server/src/main.rs:183-188 | the setting line and the query line split back apart at their one terminator |
| `Store.InitialStore` | server/src/main.rs:31-35 | the current server starts with exactly the served address, holding a new throttle, and the clock at 0 with scale 1.0 |
| `Store.LegacyInitialStore` | src/main.rs:29-33 | the legacy binary starts with the same throttle and the clock at 0 with scale 0.0 |
| `Store.Served` | server/src/main.rs:78-80 | the throttle lookup succeeds exactly when the address is in the map, and panics otherwise |
| `Store.Apply` | server/src/main.rs:78-88 | an update panics exactly when the address is missing; it never changes the key set or another address; a clock update changes only the clock, and any other update changes only the named part of the throttle |
| `Store.ApplyAllKeepsValid` | src/main.rs:58-69 | a store holding the served address never panics under any sequence of updates, and keeps exactly that key |
| `Store.ApplyAllKeepsClock` | server/src/main.rs:82-88 | updates without a clock update leave the clock as it was |
| `Store.ClockAfterAppend` | src/dcc.rs:24-27 | the clock after two batches of updates is the clock after the second batch, started from the clock after the first |
| `Store.ApplyAllClock` | src/main.rs:61-69 | after any sequence of updates the clock holds the values of the last clock update, or the clock it started with |
| `Store.ApplyPair` | src/main.rs:61-69 | two updates in a row are the second applied to the result of the first |
| `Store.FunctionUpdatesCommute` | common/src/dcc.rs:169-175 | on the store, updates to different function numbers can be applied in either order |
| `Bus.Open` | common/src/server.rs:84-87 | the events before the close: a prefix of the input with no close inside, followed by a close when it is shorter |
| `Bus.SendLoop` | common/src/server.rs:68-98 | a writing loop fails only when it propagates write errors, and then with a write error; it returns `Ok(())` exactly when the channel closed and no write failed |
| `Bus.SendLoopHealthy` | lib/src/jmri.rs:66-87 | with a healthy socket the loop writes exactly the wanted frames, in order, and returns `Ok(())` exactly when the channel closed |
| `Bus.SendLoopFailing` | lib/src/jmri.rs:81-83 | a socket that takes k writes gets the first k wanted frames, and a propagating loop fails exactly when more were wanted |
| `Bus.SendLoopIgnoring` | src/server.rs:84 | a loop that ignores write errors loses the frames beyond k but never fails, and ends exactly when the channel closes |
| `Bus.Published` | server/src/main.rs:45-53 | messages handed over one after another, with no lag or close between them, in order |
| `Bus.SendLoopFirst` | common/src/server.rs:73-94 | a healthy writing loop writes what its first event asks for, then carries on with the rest |
| `Bus.SendLoopAppend` | lib/src/jmri.rs:66-87 | a healthy writing loop writes the frames of the events before a close and then carries on with the rest |
| `Bus.OpenEndsAtClose` | common/src/server.rs:84-87 | the channel closes within the input exactly when the input holds a close |
| `Bus.MessagesAppend` | common/src/server.rs:74-87 | the messages of two stretches of input are those of the first, then those of the second |
| `Bus.PickedAppend` | common/src/server.rs:74-82 | the frames chosen from two stretches of messages are those of the first, then those of the second |
| `Bus.MessagesOfPublished` | lib/src/jmri.rs:73-78 | the messages of a published sequence are that sequence |
| `Upstream.Show` | lib/src/jmri.rs:21-28 | the display is `Send: ` followed by the text for a command and `Receive: ` followed by the text for a received line |
| `Upstream.ShowInjective` | lib/src/jmri.rs:21-28 | two messages that display the same are the same message |
| `Upstream.Clean` | lib/src/jmri.rs:52-54 | keeps only non-empty trimmed pieces, and adds no terminator |
| `Upstream.Fragments` | lib/src/jmri.rs:51-54 | every line published from a buffer is non-empty, trimmed, and holds no terminator |
| `Upstream.Frame` | lib/src/jmri.rs:81-83 | framed commands end with the terminator |
| `Upstream.SplitAfterLine` | lib/src/jmri.rs:51 | a line, the terminator and the rest split into the line and the pieces of the rest |
| `Upstream.FrameIsJoin` | lib/src/jmri.rs:81-83 | framing is joining the commands and one empty piece with the terminator |
| `Upstream.SplitFrame` | lib/src/jmri.rs:51 | framed lines without terminators split back into the lines and one empty piece |
| `Upstream.CleanOfCleanLines` | lib/src/jmri.rs:52-54 | clean lines pass through the cleaning unchanged |
| `Upstream.FragmentsOfFrame` | lib/src/jmri.rs:49-54 | reading back what the writer framed gives exactly the clean commands it framed |
| `Upstream.ReadLoop` | lib/src/jmri.rs:46-63 | the read loop publishes only clean lines, publishes nothing without a subscriber, and never returns `Ok(())` |
| `Upstream.ReadsBeforeFailure` | src/jmri.rs:33-36 | the buffers read before the first failed read, and that read failed when there is one |
| `Upstream.ReadLoopSubscribed` | src/jmri.rs:30-50 | with a subscriber the loop publishes every fragment of every buffer read before the first failure, in order, and ends with that read's error |
| `Upstream.ReadLoopUnsubscribed` | src/jmri.rs:42-46 | without a subscriber the loop ends with `Interrupted` at the first buffer that holds a line, unless a read fails first |
| `Upstream.Terminated` | src/jmri.rs:58-61 | each line followed by the terminator, in order |
| `Upstream.DataReads` | lib/src/jmri.rs:49 | one successful read per buffer, in order |
| `Upstream.FragmentsOfLine` | lib/src/jmri.rs:49-54 | a clean command followed by the terminator reads as the command alone |
| `Upstream.ReadLoopOfFramedLines` | lib/src/jmri.rs:46-63 | line-at-a-time reads of framed commands publish the commands unchanged |
| `Upstream.FragmentsIgnoreTerminator` | lib/src/jmri.rs:51-54 | the terminator the writer appends does not change how a text is read |
| `Upstream.SplitAppendReturn` | lib/src/jmri.rs:51 | appending a terminator adds one empty piece after the last |
| `Upstream.FragmentsAppendEmpty` | lib/src/jmri.rs:52-54 | an empty last piece adds no line |
| `Upstream.PickCommand` | lib/src/jmri.rs:69-72 | the writer writes exactly the `Send` messages and skips every `Receive` |
| `Upstream.WriteLoop` | lib/src/jmri.rs:66-87 | the writer fails only with a write error |
| `Upstream.Sends` | lib/src/jmri.rs:69-70 | one `Send` per command, in order |
| `Upstream.WriteLoopHealthy` | lib/src/jmri.rs:66-87 | on a healthy socket the writer sends each command once, in order, with its terminator, and a reader cuts the bytes back into exactly those commands |
| `Upstream.PickedCommands` | lib/src/jmri.rs:81-83 | given commands only, the writer writes each with its terminator |
| `Upstream.WriteLoopBytes` | lib/src/jmri.rs:69-83 | the writer's bytes for any traffic are the framed `Send` texts, with nothing for a `Receive` |
| `Upstream.ConcatTerminated` | lib/src/jmri.rs:81-83 | the terminated writes, one after another, are the framed commands |
| `Upstream.PickQueued` | src/jmri.rs:58-61 | the legacy writer writes every queued string |
| `Upstream.LegacyWriteLoop` | src/jmri.rs:56-65 | the legacy writer fails only with a write error |
| `Upstream.LegacyWriteLoopHealthy` | src/jmri.rs:56-65 | on a healthy socket the legacy writer writes every queued string with one more terminator, in order, and returns `Ok(())` exactly when the queue closed |
| `Upstream.PickedQueued` | src/jmri.rs:58-61 | every queued string is written followed by the terminator |
| `Upstream.SessionLinesDoubled` | src/jmri.rs:53-54 | each session line goes out with a second terminator |
| `Upstream.LegacySessionWrites` | src/jmri.rs:53-61 | the legacy writer's first two writes are the session lines, each followed by an empty line |
| `Upstream.SessionFrame` | src/jmri.rs:53-61 | the session bytes are the framed session lines with an empty line after each |
| `Upstream.CleanSession` | src/jmri.rs:38-41 | cleaning the session pieces keeps the two session lines |
| `Upstream.CleanLinesAndBlanks` | src/jmri.rs:38-41 | two trimmed lines, each followed by an empty piece, clean to the two lines |
| `Upstream.CleanKeepsLine` | lib/src/jmri.rs:52-54 | a first piece that is already a trimmed line is kept unchanged |
| `Upstream.CleanDropsEmpty` | lib/src/jmri.rs:52-54 | an empty first piece is dropped |
| `Upstream.CleanFirst` | lib/src/jmri.rs:52-54 | cleaning keeps the first piece, trimmed, unless trimming leaves nothing |
| `Upstream.LegacySessionRead` | src/jmri.rs:38-41 | a reader drops the empty lines the doubled terminators make and sees the two session lines |
| `Gateway.PickOutbound` | common/src/server.rs:75-83 | exactly a `Send` to the served address is written, and its text is the frame |
| `Gateway.PickedForClient` | common/src/server.rs:75-83 | the send task's filter picks exactly the client's frames, in order |
| `Gateway.OutboundHealthy` | common/src/server.rs:68-98 | with a healthy connection both generations write exactly the frames due, in order, and end exactly when the bus closes |
| `Gateway.OutboundFailing` | common/src/server.rs:88-96 | a connection that takes k more frames gets the first k frames due, and the current task returns the write error exactly when more were due |
| `Gateway.LegacyOutboundIgnoresFailures` | src/server.rs:66-86 | the legacy task loses the frames beyond k but never fails, and still ends exactly when the bus closes |
| `Gateway.Wrap` | common/src/server.rs:114-117 | a client's text reaches the bus as a `Receive` from the served address |
| `Gateway.Inbound` | common/src/server.rs:100-122 | the receive task publishes only `Receive`s from the served address, and can only end by returning `Ok(())` |
| `Gateway.LegacyInbound` | src/server.rs:89-111 | the legacy receive task publishes only `Receive`s from the served address, and can only end by returning |
| `Gateway.Texts` | common/src/server.rs:103-112 | the texts of the text frames before the end of the stream |
| `Gateway.InboundPublishesTexts` | common/src/server.rs:100-122 | the current task publishes the client's texts, in order, and nothing else, and ends exactly when the stream does |
| `Gateway.LegacyInboundAgrees` | src/server.rs:89-111 | on a stream without errors the legacy task publishes what the current one does; on a broken stream it stops, having published a prefix of it |
| `Gateway.NoEcho` | common/src/server.rs:75-83 | no client is sent a message a client published |
| `Gateway.InboundNotEchoed` | common/src/server.rs:75-122 | nothing the receive tasks publish is sent back to a client |
| `Relay.Session` | server/src/main.rs:45-53 | the start-up sends three commands, the first carrying the hardware id |
| `Relay.SessionOnTheWire` | server/src/main.rs:45-53 | the session lines are the first three writes on the wire, each with its terminator, whatever follows |
| `Relay.PickedSession` | server/src/main.rs:45-53 | the write loop writes each session command with its terminator |
| `Relay.Announce` | server/src/main.rs:89-93 | an update is announced as a `Send` to the served address carrying the update's JSON |
| `Relay.UpstreamStep` | server/src/main.rs:62-93 | a command on the bus changes nothing; a line from JMRI panics exactly when the served address is missing; the clock and key set never change; at most one announcement per line |
| `Relay.UpstreamLoop` | server/src/main.rs:60-96 | the upstream loop can fail only by panicking |
| `Relay.Announcements` | server/src/main.rs:89-93 | one announcement per update, in order |
| `Relay.UpstreamLoopRelays` | server/src/main.rs:60-96 | on a valid store the loop never panics; it applies and announces, in order, exactly the updates decoded from JMRI's lines before the close; it keeps the store valid and the clock unchanged, and ends exactly when the bus closes |
| `Relay.UpstreamLoopSkipsCommand` | server/src/main.rs:64 | one command of the server's own on the bus is skipped |
| `Relay.UpstreamLoopSkipsCommands` | server/src/main.rs:62-66 | the server's own commands on the bus change nothing and are not announced |
| `Relay.SessionNotRelayed` | server/src/main.rs:45-66 | session lines on the bus would be skipped; they never reach the loop, which subscribes after they are published |
| `Relay.ClientsLearnUpdates` | server/src/main.rs:82-93 | clients are sent one frame per decoded update, and with a faithful serde_json each frame reads back as its update |
| `Relay.AnnouncementsForClient` | common/src/server.rs:75-83 | the clients receive the JSON of every announced update, in order |
| `Relay.ClientStep` | server/src/main.rs:105-165 | announcements are skipped; `update` answers with the throttle's JSON or panics exactly when the address is missing; `test-update` announces the three fixed updates; any other text sends JMRI one command exactly when it is the JSON of a non-clock update |
| `Relay.ClientCommandRoundTrip` | server/src/main.rs:161-165 | a client that sends the JSON of a function, velocity or direction update has JMRI sent one command that decodes back to that update |
| `Relay.ClientLoop` | server/src/main.rs:102-167 | the client loop can fail only by panicking; ClientLoopServes characterises it in full |
| `Relay.ClientLoopServes` | server/src/main.rs:104-166 | on a valid store the loop never panics, publishes the `ClientStep` reactions to the messages before the close in order, and returns `Ok(())` exactly when a close occurs |
| `Relay.ClientLoopSkipsAnnouncements` | server/src/main.rs:105-108 | the client loop skips every announcement, so no line from JMRI is echoed back to JMRI |
| `Relay.LegacyListen` | src/main.rs:43-71 | the legacy listener can fail only by panicking |
| `Relay.AnyOverflowCons` | src/jmri/parse.rs:61 | a list of lines overflows exactly when its first line or the rest does |
| `Relay.ApplyAhead` | src/main.rs:61-69 | one update applied ahead of the rest keeps the store valid |
| `Relay.LegacyListenApplies` | src/main.rs:43-71 | on a valid store the listener panics exactly when a line before the close has an overflowing timestamp; otherwise it applies the legacy decoder's updates in order, keeps the store valid, and ends exactly when the bus closes |
| `Relay.LegacyListenClock` | src/main.rs:61-69 | without an overflow the listener's clock holds the last clock line it decoded, or the clock it started with |
| `Relay.LegacyAgreesOnCurrentLines` | src/main.rs:58-69 | on a line the current decoder understands, the legacy listener leaves the same store as the current upstream loop |

## Left out

- Digits are ASCII only. The regex crate's `\d` also matches other Unicode decimal digits, and the model treats every such line as holding no digit.
- Parse.ThreeRulesTotal: "never panics" holds for ASCII digits only. On a line such as `F1١` the regex captures `١` as the function number, and `FunctionNum::from_str(..).unwrap()` (common/src/parse.rs:31) panics in the real decoder; the model reports no function match there instead.
- Upstream.ReadLoop: whether anyone is subscribed is fixed for the whole run, so a subscriber that appears or goes away mid-run is not represented. In the legacy binary the receiver made in `new` is dropped when `new` returns (src/jmri.rs:28) and no one subscribes until src/main.rs:40. In `lib/` the only early subscriber is the writer, which goes away when the write task fails (lib/src/jmri.rs:65, 83).
- The channels' capacities (10 and 32) are not modelled, and neither is which messages a lagging receiver loses. A lag is one `Lagged` event, and the model does not say which messages it stands for.
- Each `broadcast::Sender::send(..).unwrap()` in the server loops would panic when no task is subscribed. The model assumes a subscriber is always there.
- TCP, tokio and warp are not modelled: the route table, `/health`, the bind to 0.0.0.0:8080, the WebSocket upgrade and the task spawning. A loop sees its events as a sequence.
- The `Mutex`es are not modelled. The client loop (`Relay.ClientLoop`) reads a store that does not change while it runs, so its interleaving with the upstream loop is left out.
- serde_json is not modelled: it is the `Relay.Serde` parameter. Only its read-back property `Relay.Faithful` is assumed.
- The clock scale, an `f32`, is kept as the decimal text the clock pattern captured. Parsing it never fails on that text, and rounding is not modelled.
- server/src/config.rs, the UUID sent in the session, and logging are not part of this model.
- The `HashSet` capacity of a new throttle has no observable effect and is not modelled.
- At end of stream `read_line` returns zero bytes and the read loops spin. The model represents this as `Data("")` events that publish nothing.
- src/dcc.rs is modelled by the same `Dcc` members as common/src/dcc.rs, except where the two differ: the legacy `DccTime::new()` takes no arguments and starts the scale at 0.0 (`Dcc.LegacyNewTime`), the legacy `Velocity::from_str` fails with `Unable to ` (`Dcc.LegacyVelocityFromStr`), and `Direction` derives `Clone` only in the current file. The error types (`ParseError` and `VelocityParseError`) are both modelled as their message text.
- The legacy writer's queue never reports `Lagged`. It reuses the broadcast event type, in which `Lagged` is harmless.
- Request.RequestRoundTrip: proved only for function numbers up to 99 and velocities within -999..999. `make_jmri_request` prints any `u8` and `i16`, but the decoder's patterns read at most two and three digits: function 100 goes out as `F1100`, which decodes as function 10 on.
- Request.RequestRoundTrip: proved for addresses without `F`, `V`, `R` or a line terminator, `S67` among them, because the decoder would read a pattern inside such an address first.
- Relay.ClientCommandRoundTrip: carries the same number bounds, and excludes updates whose JSON is the request word `update` or `test-update`.
