# VLC scrubber: a verified model

The VLC scrubber turns a Phidgets linear-touch sensor into a seek bar for
the VLC media player. `VLCScrubber.main` reads `--host`, `--port` and
`--password` from the command line. `LinearTouchPhidgetManager` then
connects to VLC's telnet interface and sends the password. It reads VLC's
greeting and registers for device attach and detach notifications. After
that it turns touch and position events into the telnet commands `pause`,
`play` and `seek N.0%`.

This project models the three pieces of sequential logic in that code as
pure Dafny functions and proves properties about them:

- `Cli` models the argument loop of `main` as a left fold over the
  arguments (`ScanTo`, `Parse`). Its result is a `Config` or one of two
  errors. `Usage` covers a flag in the last position and a flag value
  containing `--`. `BadNumber` is the `NumberFormatException` that nothing
  catches. The lemmas describe the result with reference predicates that
  do not depend on the fold. The first argument that throws decides the
  outcome. Otherwise `--` in any flag value gives `Usage`. Otherwise each
  setting comes from the last occurrence of its flag that assigns it, or
  keeps its default.
- `JavaInts` models `Integer.parseInt`, the decimal rendering of an `int`
  and Java's truncating `/`. It proves parse-after-render round trips.
- `Handshake` models the password exchange. The socket becomes the finite
  sequence of lines the server sends before it closes the stream.
- `PhidgetManager` models the four listeners as a step function on
  `(count, active, handles, seekTo, out)`, plus a fold over event
  sequences. `Run` composes the handshake with the handlers to give every
  line written to the telnet connection.
- `Common` holds the `Option` and `Result` types.

Some behaviour of the code differs from what its own comments and
messages suggest. The model follows the code:

- A second linear-touch attach replaces the device handle. The class
  comment at `LinearTouchPhidgetManager.java:33-35` says the manager
  handles only one LinearTouch Phidget, and line 206 has the message
  "Only one Phidget is supported.". But `attached` opens and subscribes
  the new handle at lines 193-196, before the capacity check at line 203.
  That check throws a `PhidgetException`, and the catch at line 208 only
  prints its stack trace. The old handle is never closed, so both stay
  subscribed (`SecondAttachReplaces`).
- `detached` does not clear the handle. It only decrements the counter,
  with no lower bound.
- The seek percentage is `v / 10` truncated toward zero. The division at
  line 238 is Java `int` division, so the `Math.round` around it has
  nothing left to round. The value is held in a `double`, so `v = 455`
  prints as `seek 45.0%`.
- Any flag value containing `--` is rejected, not only flag names. A
  flag's value is also examined again as an argument of its own, so
  `--host --port abc` ends with the number error, not the usage error
  (`ValueIsNotSkipped`).

## Model

| member | source | states |
|---|---|---|
| JavaInts.ParseInt | src/com/paulusworld/vlcscrubber/VLCScrubber.java:44 | `Integer.parseInt` accepts only text made of an optional `-` or `+` and at least one digit, and every value it yields fits in a 32-bit `int` and is negative only after a `-` |
| JavaInts.ParseIntToString | src/com/paulusworld/vlcscrubber/VLCScrubber.java:44 | the decimal text of every `int` parses back to that `int` |
| JavaInts.ParseIntUnsigned | src/com/paulusworld/vlcscrubber/VLCScrubber.java:44 | unsigned digit text, leading zeros allowed, yields its value exactly when that value is at most 2147483647, and is rejected otherwise |
| JavaInts.ParseIntPlus | src/com/paulusworld/vlcscrubber/VLCScrubber.java:44 | a leading `+` before digits gives the same result as the digits alone |
| JavaInts.ParseIntMinus | src/com/paulusworld/vlcscrubber/VLCScrubber.java:44 | a leading `-` before digits yields their negated value exactly when it is at least -2147483648, and is rejected otherwise |
| JavaInts.ParseIntRejectsOutOfRange | src/com/paulusworld/vlcscrubber/VLCScrubber.java:44 | well-formed decimal text of a number outside the `int` range is rejected, not wrapped |
| JavaInts.NatToString | src/com/paulusworld/vlcscrubber/LinearTouchPhidgetManager.java:239 | the rendering of a number is a non-empty digit string whose value is that number, one digit long exactly below 10, and starting with `0` only for zero |
| JavaInts.IntToString | src/com/paulusworld/vlcscrubber/LinearTouchPhidgetManager.java:239 | Java's decimal rendering of an `int` starts with `-` exactly for negative numbers, and the digits after the sign have the number's magnitude as their value, with no leading zero, and zero renders as exactly `0` |
| JavaInts.TruncDiv | src/com/paulusworld/vlcscrubber/LinearTouchPhidgetManager.java:238 | Java integer division by a positive divisor gives the quotient truncated toward zero: q*b <= a < q*b+b for a >= 0 and q*b-b < a <= q*b for a < 0 |
| JavaInts.TruncDivMonotone | src/com/paulusworld/vlcscrubber/LinearTouchPhidgetManager.java:238 | truncating division by a positive number never decreases as the dividend grows |
| Cli.Step | src/com/paulusworld/vlcscrubber/VLCScrubber.java:33-57 | one loop iteration: a non-flag argument changes nothing; it throws exactly when the flag is last or its clean port value is not an `int`; it sets invalid exactly on a `--` value; otherwise it assigns only the setting its flag names |
| Cli.Parse | src/com/paulusworld/vlcscrubber/VLCScrubber.java:26-66 | with no arguments the configuration is `localhost`, `4212`, `password` |
| Cli.ScanTo | src/com/paulusworld/vlcscrubber/VLCScrubber.java:33-61 | the loop over the first k arguments succeeds only when none of them throws, and a failure carries the error of an argument that throws |
| Cli.ScanToFailure | src/com/paulusworld/vlcscrubber/VLCScrubber.java:33-61 | the loop over the first k arguments fails exactly when one of them throws, and with the error of the first one that does |
| Cli.ScanToInvalid | src/com/paulusworld/vlcscrubber/VLCScrubber.java:33-57 | after the loop `invalidArguments` is set exactly when some flag was followed by a value containing `--` |
| Cli.ScanToText | src/com/paulusworld/vlcscrubber/VLCScrubber.java:33-57 | host and password equal the value of the last occurrence of their flag that assigns them, or their default when there is none |
| Cli.ScanToPort | src/com/paulusworld/vlcscrubber/VLCScrubber.java:42-48 | the port is the parsed value of the last assigning `--port`, or 4212 when there is none |
| Cli.ParseFirstFailureWins | src/com/paulusworld/vlcscrubber/VLCScrubber.java:32-61 | processing runs left to right, so the first argument that throws decides the error, whatever follows and whatever the invalid flag says |
| Cli.ParseWithoutAborts | src/com/paulusworld/vlcscrubber/VLCScrubber.java:33-66 | when nothing throws, the arguments are rejected exactly when some flag value contains `--`, and the rejection is the usage error |
| Cli.ParseTrailingFlag | src/com/paulusworld/vlcscrubber/VLCScrubber.java:58-61 | a flag in the last position, with nothing thrown before it, reads past the end and gives the usage error |
| Cli.ParseDoubleDashValue | src/com/paulusworld/vlcscrubber/VLCScrubber.java:33-66 | a flag value containing `--` anywhere makes the result an error, and the usage error when no argument throws |
| Cli.ParseLastOccurrenceWins | src/com/paulusworld/vlcscrubber/VLCScrubber.java:33-57 | an accepted command line has no throwing argument and no `--` value, and each setting comes from the last assigning occurrence of its flag, or is its default |
| Cli.ParseUnmentionedDefaults | src/com/paulusworld/vlcscrubber/VLCScrubber.java:26-28 | a flag that never appears keeps its default in an accepted configuration |
| Cli.ParsePortValue | src/com/paulusworld/vlcscrubber/VLCScrubber.java:42-48 | `--port` with a value that parses sets the port to it; a value that does not parse is the number error, not the usage path |
| Cli.ParsePortNumber | src/com/paulusworld/vlcscrubber/VLCScrubber.java:44 | `--port` followed by the decimal text of any `int` is accepted with that port |
| Cli.ValueIsNotSkipped | src/com/paulusworld/vlcscrubber/VLCScrubber.java:33-48 | a flag's value is processed again as an argument: `--host --port abc` ends with the number error for `abc` |
| Handshake.ReadGreeting | src/com/paulusworld/vlcscrubber/LinearTouchPhidgetManager.java:112-127 | the read stops on rejection exactly when `Wrong password` occurs; the logged lines are a prefix of the input, all of it when not rejected, and up to and including the first `Wrong password` when rejected |
| Handshake.Connect | src/com/paulusworld/vlcscrubber/LinearTouchPhidgetManager.java:106-131 | the password is the only text written (one `println`); authentication, listener registration and an open socket all hold exactly when no line equals `Wrong password` |
| Handshake.LoggedUpToFirstRejection | src/com/paulusworld/vlcscrubber/LinearTouchPhidgetManager.java:113-126 | whatever follows the first `Wrong password` is neither read nor logged |
| Handshake.GreetingExamples | src/com/paulusworld/vlcscrubber/LinearTouchPhidgetManager.java:113-131 | a greeting of ordinary lines authenticates; `Wrong password` right after the password rejects, with only that line logged |
| PhidgetManager.SeekPercent | src/com/paulusworld/vlcscrubber/LinearTouchPhidgetManager.java:238 | the percentage is the raw value divided by 10 truncated toward zero; it lies in [0,100] for raw values in [0,1000] |
| PhidgetManager.SeekCommand | src/com/paulusworld/vlcscrubber/LinearTouchPhidgetManager.java:239 | the seek line starts with `seek ` and ends with `.0%`, and its number is negative exactly when the raw value is -10 or below |
| PhidgetManager.Emit | src/com/paulusworld/vlcscrubber/LinearTouchPhidgetManager.java:168-241 | an event writes at most one line, and writes one exactly for touch input 0 or a position change: `pause` when pressed, `play` when released, a `seek ` line for a position |
| PhidgetManager.Step | src/com/paulusworld/vlcscrubber/LinearTouchPhidgetManager.java:168-241 | each handler appends at most one line and never removes one; attach and detach append nothing and leave the seek percentage alone; only attach and detach change the counter; only a linear-touch attach changes the handle; only a position change changes the seek percentage |
| PhidgetManager.Replay | src/com/paulusworld/vlcscrubber/LinearTouchPhidgetManager.java:168-241 | handling a sequence of events only extends the output and the subscribed handles, by at most one entry per event, and moves the counter by at most one per event |
| PhidgetManager.InputCommands | src/com/paulusworld/vlcscrubber/LinearTouchPhidgetManager.java:216-234 | input 0 pressed appends exactly `pause`, input 0 released appends exactly `play`, any other input changes nothing, and only the output ever changes |
| PhidgetManager.SensorCommand | src/com/paulusworld/vlcscrubber/LinearTouchPhidgetManager.java:237-241 | a position change records its percentage, appends its seek line and changes nothing else |
| PhidgetManager.SeekCommandDecodes | src/com/paulusworld/vlcscrubber/LinearTouchPhidgetManager.java:237-241 | the seek line is `seek `, a decimal integer and `.0%`, and that integer parses back to the percentage |
| PhidgetManager.SeekMonotone | src/com/paulusworld/vlcscrubber/LinearTouchPhidgetManager.java:238 | a larger raw position never seeks to a smaller percentage |
| PhidgetManager.SeekExamples | src/com/paulusworld/vlcscrubber/LinearTouchPhidgetManager.java:238-239 | 455 gives `seek 45.0%`, 1000 gives `seek 100.0%`, -15 gives `seek -1.0%`, and -9 and 9 both give `seek 0.0%` |
| PhidgetManager.AttachThenDetach | src/com/paulusworld/vlcscrubber/LinearTouchPhidgetManager.java:168-188 | attach adds one to the counter for every device type, and a non-linear-touch attach changes nothing else; detach subtracts one unguarded and changes nothing else; an attach then a detach restores the counter and writes nothing |
| PhidgetManager.AttachSetsHandle | src/com/paulusworld/vlcscrubber/LinearTouchPhidgetManager.java:187-213 | another device type leaves the handle alone; a linear-touch sensor becomes the handle and is subscribed whatever the counter says; detach never clears the handle |
| PhidgetManager.SecondAttachReplaces | src/com/paulusworld/vlcscrubber/LinearTouchPhidgetManager.java:187-207 | after two linear-touch attaches the second is the handle, both are subscribed and the counter reads 2 |
| PhidgetManager.ReplayCount | src/com/paulusworld/vlcscrubber/LinearTouchPhidgetManager.java:168-188 | over any event sequence the counter moves by attaches minus detaches, with no lower bound |
| PhidgetManager.ReplayHandles | src/com/paulusworld/vlcscrubber/LinearTouchPhidgetManager.java:187-213 | over any event sequence the handle is the last linear-touch sensor attached, or unchanged if none was, and every such sensor's handle stays subscribed, in attach order |
| PhidgetManager.ReplayHandleList | src/com/paulusworld/vlcscrubber/LinearTouchPhidgetManager.java:192-196 | over any event sequence every linear-touch sensor attached gets a subscribed handle, in attach order, and none is removed |
| PhidgetManager.ReplayActive | src/com/paulusworld/vlcscrubber/LinearTouchPhidgetManager.java:187-213 | over any event sequence the handle is the last linear-touch sensor attached, or unchanged if none was |
| PhidgetManager.ReplayOutput | src/com/paulusworld/vlcscrubber/LinearTouchPhidgetManager.java:168-241 | the lines written are the events' own lines, in event order, whatever the device state |
| PhidgetManager.CommandsCount | src/com/paulusworld/vlcscrubber/LinearTouchPhidgetManager.java:216-241 | exactly one line is written per input-0 or position event, and never more lines than events |
| PhidgetManager.RunWire | src/com/paulusworld/vlcscrubber/LinearTouchPhidgetManager.java:106-131 | the password is the first line on the wire; a rejected password leaves no manager and nothing else on the wire; an accepted one is followed by exactly the events' lines, with the counter at attaches minus detaches |
| PhidgetManager.Run | src/com/paulusworld/vlcscrubber/LinearTouchPhidgetManager.java:106-131 | the password is the first line written; a manager exists exactly when no greeting line is `Wrong password`; without one nothing else is written, with one the rest of the output is the manager's |

## Left out

- Socket, `PrintWriter` and `BufferedReader` I/O and `closeAll`. The server's greeting is the finite sequence of lines read before the server closes the stream. Connection and I/O failures (`UnknownHostException`, `IOException`) are not modelled, and neither is VLC's reply to the commands.
- Line breaks inside written text. Each element of `sent`, `out` and `wire` is the argument of one `println`, not one line on the wire. A password containing `\n` or `\r` reaches the server as several lines, and the model keeps it as one element.
- Logging, `FileHandler` setup and the `System.out`/`System.err` messages are side effects only. The one logging fact kept is which server lines the handshake logs.
- The 5-second `Thread.sleep` before `play`. Timing and concurrency are out of scope. Events are handled one at a time in delivery order, and a release only leads to `play` being written.
- The Phidget library calls (`open`, `addInputChangeListener`, `getDeviceID`, `Manager.open`). A device is its serial number and an `isLinearTouch` flag. A failing `open` of a new handle is not modelled.
- Input and position events are accepted in any state. The handlers never look at the device state, and the library only delivers them once a handle is subscribed.
- The stdin `quit` loop, `System.exit`, `printHelp`, and the `InetSocketAddress` port-range check that runs after argument parsing.
- JavaInts.ParseInt: accepts only ASCII digits. `Character.digit` also accepts digits from other Unicode scripts.
- PhidgetManager.Step: raw positions of magnitude 10^8 or more are excluded (`Renderable`). From a percentage of 10^7 on, `Double.toString` prints it in scientific notation, which the model does not render.
- PhidgetManager.SeekCommand: the same `Renderable` restriction on raw positions as `PhidgetManager.Step`.
- PhidgetManager.Emit: the same `Renderable` restriction on raw positions as `PhidgetManager.Step`.
- PhidgetManager.Replay: the same `Renderable` restriction on raw positions as `PhidgetManager.Step`.
- PhidgetManager.Run: the same `Renderable` restriction on raw positions as `PhidgetManager.Step`.
- PhidgetManager.RunWire: the same `Renderable` restriction on raw positions as `PhidgetManager.Step`.
- PhidgetManager.SensorCommand: the same `Renderable` restriction on raw positions as `PhidgetManager.Step`.
- PhidgetManager.SeekCommandDecodes: the same `Renderable` restriction on raw positions as `PhidgetManager.Step`.
- PhidgetManager.ReplayCount: the counter is an unbounded integer. Java's `int` would only wrap after 2^31 attaches.
