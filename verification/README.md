# TiVo bridge plugin — a Dafny model

This project models the deterministic core of the TiVo plugin of a home
automation proxy (`proxy/plugins/tivo.js`). The plugin turns three HTTP
requests into timed key presses sent over one TCP connection to a TiVo set-top
box:

- "watch Netflix" walks the TiVo menu to the Netflix tile;
- "watch football" switches to live TV and tunes to channel 1038 once the box
  reports `LIVETV_READY`;
- "search" types a text into the search field.

The plugin also reads status lines back from the box.

Timers are modelled as values rather than real time. A macro expands into a
`Plan`: the commands it sends synchronously (`now`) and the timers it
registers (`timers`, a `seq<Timer>` of relative delay in ms and action), in
the order the source registers them. The plugin's state is a `Session`: the
socket (only whether it is writable matters), the `locked` flag and the
`tvready` flag. `Tivo.Step` applies one event to a session: a macro invoked,
a timer firing, inbound data, or the socket changing. It returns the new
session, the lines written to the socket and the timers registered. `Tivo.Run`
folds `Step` over a sequence of events, which plays the role of a virtual clock.

Modules:

- `Wrappers`: `Option`.
- `Text`: JavaScript's `indexOf`, ASCII upper-casing and decimal rendering.
- `Framing`: `split(/\r?\n/)` and its inverse, `Join`.
- `Wire`: the `KEYBOARD` and `SETCH` command text, and readers that parse it back.
- `Macros`: `watchnetflix`, `watchfootball`, `search`, and the decoding of keystrokes back into typed text.
- `Tivo`: `write`, `command`, `read`, the data handler, one `changeChannel` step, the `init` guard, and the event model.

Three details of the code are modelled as written:

- Inbound framing splits only on LF or CR LF. A bare CR stays inside the line.
- The channel change always sends the digits 1, 0, 3, 8, whatever its `number`
  argument is.
- `write` refuses only the empty command. Whitespace is not checked.

## Model

| member | source | states |
|---|---|---|
| Text.IndexOf | proxy/plugins/tivo.js:182 | `indexOf` is -1 exactly when the word occurs nowhere; otherwise the word occurs at the result and at no earlier index |
| Text.Upper | proxy/plugins/tivo.js:156 | `toUpperCase` on one character: a–z map to A–Z at the same alphabet position; every other character is unchanged |
| Text.Decimal | proxy/plugins/tivo.js:61 | `number.toString()` of a non-negative integer is a non-empty digit string with no leading zero |
| Text.DecimalRoundTrip | proxy/plugins/tivo.js:61 | reading the decimal text of a number back gives the number |
| Wire.KeyRoundTrip | proxy/plugins/tivo.js:56-58 | the `KEYBOARD <key>\r` command parses back to its key, and a command parses to a key exactly when it is that key's command |
| Wire.SetChannel | proxy/plugins/tivo.js:60-62 | the `channel` command is `SETCH `, then at least one digit, then CR |
| Wire.ChannelRoundTrip | proxy/plugins/tivo.js:60-62 | the `SETCH <number>\r` command parses back to its channel number |
| Framing.Split | proxy/plugins/tivo.js:110 | `split(/\r?\n/)` always yields at least one piece, even for empty input |
| Framing.SplitCount | proxy/plugins/tivo.js:110 | `split(/\r?\n/)` yields exactly one piece more than the input has line feeds |
| Framing.PiecesHaveNoNewline | proxy/plugins/tivo.js:110 | no piece contains a line feed |
| Framing.SplitJoin | proxy/plugins/tivo.js:110 | the pieces joined with the removed separators ("\n" or "\r\n") give back the input exactly |
| Framing.BareCarriageReturnDoesNotSplit | proxy/plugins/tivo.js:110 | input without a line feed is one piece, whatever carriage returns it holds |
| Framing.ContainsAfterLineEnd | proxy/plugins/tivo.js:109-113 | when the first part ends with a line feed, a word without LF occurs in the joined text exactly when it occurs in one of the parts |
| Framing.CompleteAppend | proxy/plugins/tivo.js:109-113 | the complete lines of `s + b` are those of `s` followed by those that `s`'s unfinished line followed by `b` completes: appending never re-opens a finished line |
| Framing.UnfinishedAppend | proxy/plugins/tivo.js:109-113 | the unfinished line of `s + b` is that of `s`'s unfinished line followed by `b`, so a buffer need carry only the unfinished line between chunks |
| Framing.ContainsAcrossUnfinished | proxy/plugins/tivo.js:109-113 | a word without LF occurs in `s + b` exactly when it occurs in `s` or in `s`'s unfinished line followed by `b` |
| Framing.EndsAfterAcrossUnfinished | proxy/plugins/tivo.js:109-113 | a word without LF ends after index `n` of `s + b` exactly when it does so within `s`, or ends inside `b` within `s`'s unfinished line followed by `b` |
| Text.ContainsWindow | proxy/plugins/tivo.js:109-113 | reading from `\|w\| - 1` characters before index `n` finds `w` exactly when some occurrence of `w` ends after `n` |
| Framing.ContainsAcrossFirstLine | proxy/plugins/tivo.js:110 | a word without CR or LF occurs in the input exactly when it occurs in the first framed line or in the rest |
| Tivo.Write | proxy/plugins/tivo.js:192-201 | `write` sends something exactly when the socket exists and is writable and the command is non-empty, and then it sends exactly `cmd + "\n"` |
| Tivo.Command | proxy/plugins/tivo.js:120-123 | `command` sends nothing when locked and otherwise sends what `write` sends |
| Tivo.Commands | proxy/plugins/tivo.js:164-167 | nothing is written when locked or unwritable; on a connected, unlocked session, when every command is non-empty, consecutive `command` calls write each command as one line, in order |
| Tivo.LockNeverSet | proxy/plugins/tivo.js:120-123 | `locked` starts false (line 81) and no event sets it, so on every reachable session `command` behaves as `write` |
| Tivo.Read | proxy/plugins/tivo.js:179-186 | `read` leaves `tvready` set exactly when it was set or the line contains `LIVETV_READY`; an empty line changes nothing; the flag is never cleared |
| Tivo.ReceiveData | proxy/plugins/tivo.js:109-113 | the `data` handler leaves `tvready` set exactly when it was set or the chunk contains `LIVETV_READY` |
| Tivo.ReceiveSeesSentinel | proxy/plugins/tivo.js:110-112 | reading the framed pieces of a chunk one by one sees the sentinel exactly when the whole chunk contains it: framing neither cuts nor invents it |
| Tivo.SplitSentinelIsMissed | proxy/plugins/tivo.js:109-113 | a sentinel delivered as the chunks `LIVETV_` and `READY\n` is in the stream, yet the handler as written leaves `tvready` down |
| Tivo.BufferedReceive | proxy/plugins/tivo.js:109-113 | the buffered handler reads the chunk, preceded by the last `\|Sentinel\| - 1` carried-over characters, as the source reads a chunk: it is ready exactly when it was ready or a sentinel ends inside the new chunk; it keeps only the stream's unfinished line, which has no line feed |
| Tivo.BufferedAgreesOnOneChunk | proxy/plugins/tivo.js:109-113 | with nothing carried over, the buffered handler sets `tvready` exactly as the handler as written does for the same chunk, whether or not the chunk ends with a line feed |
| Tivo.ReadSentinelIsNotReread | proxy/plugins/tivo.js:109-113 | like the source, which reads each piece once, the buffered handler never raises a cleared flag again from a sentinel carried over: a chunk holding none of the sentinel's characters leaves it down, whatever is pending |
| Tivo.ChunkingDoesNotMatter | proxy/plugins/tivo.js:109-113 | with buffering, receiving two chunks in turn ends in the same state as receiving them as one chunk |
| Tivo.AnyChunkingIsOneChunk | proxy/plugins/tivo.js:109-113 | with buffering, from any state with no line feed pending, any sequence of chunks ends in the same state as their concatenation received at once |
| Tivo.SplitSentinelIsSeen | proxy/plugins/tivo.js:109-113 | with buffering, a sentinel cut anywhere across two chunks is seen once both have arrived, however the lines end |
| Tivo.ChangeChannelStep | proxy/plugins/tivo.js:161-174 | when ready: the four IRCODE commands are sent and `tvready` is cleared, with no timer; when not ready: nothing is sent, the session is unchanged, and one recheck is registered after 250 ms |
| Tivo.ChannelDigitsIgnoreNumber | proxy/plugins/tivo.js:161-168 | when the TV is ready, the step's outcome does not depend on `number`; the four IRCODE commands spell the football channel 1038 digit by digit |
| Tivo.ReadinessConsumedOnce | proxy/plugins/tivo.js:161-174 | right after sending the digits, the next step finds the TV not ready, sends nothing and reschedules |
| Tivo.PollsWhileNotReady | proxy/plugins/tivo.js:170-173 | while readiness never arrives, any number of checks write nothing, leave the session unchanged and register one recheck each |
| Tivo.InitDecision | proxy/plugins/tivo.js:87-94 | `init` does nothing when the address or port is missing, does nothing when the socket is writable, and otherwise connects, destroying an existing socket first |
| Tivo.FireAction | proxy/plugins/tivo.js:56-174 | a firing keystroke timer (`keyboardkey`, lines 56-58) writes at most its own command line and changes nothing else; a firing channel change (`changeChannel`, lines 161-174) writes at most the four digits, may only clear `tvready`, and registers at most one recheck of the same channel after 250 ms |
| Tivo.Step | proxy/plugins/tivo.js:161-186 | no event changes `locked`; inbound data sets `tvready` exactly when it holds the sentinel; `tvready` rises only on such data and falls only in a channel-change step |
| Tivo.Run | proxy/plugins/tivo.js:81-201 | no run changes `locked`, and a run without socket changes keeps the same socket |
| Tivo.ReadyOnlyFromSentinel | proxy/plugins/tivo.js:179-186 | over any run, an unready TV becomes ready only if some inbound chunk contained `LIVETV_READY` |
| Tivo.NothingWrittenWhileDisconnected | proxy/plugins/tivo.js:192-196 | without a writable socket, no sequence of macros, timers or inbound data writes anything |
| Tivo.WrittenCommandIsOneLine | proxy/plugins/tivo.js:198-200 | a written command, framed by the plugin's own line rule, is exactly one line (minus a final CR) and an empty remainder |
| Tivo.KeystrokeIsCrlfLine | proxy/plugins/tivo.js:56-58 | a keystroke reaches the socket as `KEYBOARD <key>` ended by CR LF |
| Tivo.NetflixOnTheWire | proxy/plugins/tivo.js:125-135 | on a connected session, `watchnetflix` and its fired timers write `TELEPORT TIVO` and the eight keystroke lines, in order |
| Tivo.FootballScenario | proxy/plugins/tivo.js:137-174 | `watchfootball`: the first check finds the TV not ready and reschedules; a chunk with the sentinel arrives; the next check writes NUM1, NUM0, NUM3, NUM8 and clears the flag |
| Macros.CharKeys | proxy/plugins/tivo.js:150-158 | the loop from `start` to `bound` registers `bound - start` keystrokes (none if `bound <= start`); the j-th presses the key for `text[start + j]` at 3000 + 50·(start + j) ms |
| Macros.Search | proxy/plugins/tivo.js:142-159 | `search` sends `TELEPORT TIVO` at once, registers the five navigation keystrokes, then one keystroke for each character but the last, the i-th for `text[i]` |
| Macros.SearchAll | proxy/plugins/tivo.js:150-158 | with the loop over every character, `search` registers the five navigation keystrokes and then one keystroke for every character of the text |
| Macros.SearchSchedule | proxy/plugins/tivo.js:143-158 | `search` sends `TELEPORT TIVO` at once; then come DOWN@1000, DOWN@1500, DOWN@2000, RIGHT@2500 and SELECT@3000 for any text; then max(\|text\|-1, 0) keystrokes, the i-th at 3000 + 50·i ms |
| Macros.KeyForCharacter | proxy/plugins/tivo.js:151-156 | a space is pressed as `KEYBOARD SPACE\r`; any other character as `KEYBOARD <upper-cased char>\r` |
| Macros.SearchTypesAllButLast | proxy/plugins/tivo.js:150-158 | decoding `search`'s per-character keystrokes gives the text without its last character, upper-cased |
| Macros.SearchDropsLastCharacter | proxy/plugins/tivo.js:150 | for any non-empty text, `search` as written types exactly \|text\| - 1 characters, so it never types the whole text |
| Macros.SearchExamples | proxy/plugins/tivo.js:150-158 | `search("ab")` types only "A"; `search("A B")` presses A@3000 and SPACE@3050 and nothing for the final B |
| Macros.SearchAllTypesEveryCharacter | proxy/plugins/tivo.js:150-158 | with the loop over every character, decoding the keystrokes gives the whole text upper-cased |
| Macros.SearchInFiringOrder | proxy/plugins/tivo.js:144-158 | `search`'s timers have non-decreasing delays of at least 1000 ms, so they fire in registration order, after the immediate teleport |
| Macros.WatchNetflix | proxy/plugins/tivo.js:125-135 | `watchnetflix` sends `TELEPORT TIVO` at once and registers eight keystrokes at 1000, 1250, 1500, 2000, 2250, 2500, 2750 and 3250 ms |
| Macros.WatchNetflixSchedule | proxy/plugins/tivo.js:125-135 | `watchnetflix` sends `TELEPORT TIVO` at once, then registers exactly DOWN@1000, DOWN@1250, DOWN@1500, RIGHT@2000, DOWN@2250, DOWN@2500, DOWN@2750, SELECT@3250 |
| Macros.WatchNetflixKeys | proxy/plugins/tivo.js:127-134 | each of the eight timers parses back to its key: DOWN ×3, RIGHT, DOWN ×3, SELECT |
| Macros.WatchNetflixInFiringOrder | proxy/plugins/tivo.js:127-134 | the eight keystroke delays are strictly increasing |
| Macros.WatchFootball | proxy/plugins/tivo.js:137-140 | `watchfootball` sends `TELEPORT LIVETV` at once and registers exactly one check for channel 1038 after 250 ms |

## Left out

- Express routes and HTTP responses (lines 32-54): web framework plumbing. Macros are invoked directly as `Plan`s.
- Socket creation, `connect`, `destroy` and the error/close handlers that re-run `init` after 4000 ms (lines 96-117). These are network I/O and real timers. Only `init`'s decision (lines 88-94) is modelled; a socket change is the `Link` event.
- Real timer semantics. Timers are values in registration order; `Run` fires what it is given, in order. Unbounded 250 ms polling is modelled as single steps, plus a lemma for any finite number of them.
- `sleep` (lines 64-70): a wall-clock busy-wait that nothing calls.
- `logger`, `console.log`, `nconf` lookups and `module.exports`: these are logging, configuration and module plumbing. The configuration is a `Config` parameter.
- Text.Upper: upper-cases only the ASCII letters a–z. JavaScript's `toUpperCase` also maps other Unicode letters, and can lengthen a string ("ß" becomes "SS").
- Strings are sequences of Dafny characters (Unicode scalar values). JavaScript's `length` and `slice` count UTF-16 code units, so characters outside the Basic Multilingual Plane are not modelled as the source splits them.
- Socket writes are `string`s. The UTF-8 encoding done by `device.write` and by `data.toString('utf8')` is not modelled.
- Tivo.Step: models the `data` handler as written, so each chunk is framed on its own and a line split across two chunks is read as two lines. The buffered handler (`Tivo.BufferedReceive`) is modelled beside it and is not wired into `Step`.
- Text.Decimal: numbers are unbounded `nat`s. JavaScript numbers are doubles: integers above 2^53 are not exact, and `toString` switches to exponent form from 10^21 (`1e+21`), where `Decimal` still gives plain digits. `channel` (line 60), its only user, is never called in the source.
- Wire.KeyboardKey: carries no contract of its own; its meaning is stated by `Wire.KeyRoundTrip`.
- Tivo.InitDecision: treats a configuration value as truthy when it is present and is a non-empty address or non-zero port. Other JavaScript falsy values (`null`, `NaN`, `false`) are folded into "absent".

## Findings

| source | as written | input that shows it | evidently intended | confidence | as-written member | corrected member |
|---|---|---|---|---|---|---|
| proxy/plugins/tivo.js:150 | the loop runs while `i < cmd.toString().length - 1`, so the last character is never typed | `search("ab")` types only "A" | type every character of the search text | medium; not executed | Macros.SearchDropsLastCharacter | Macros.SearchAllTypesEveryCharacter |
| proxy/plugins/tivo.js:109-113 | each `data` chunk is split and read on its own, with no buffer for an unfinished line | the chunks `LIVETV_` then `READY\n` leave `tvready` down, and `changeChannel` keeps polling until a later chunk holds the whole sentinel | see each sentinel exactly once, in the chunk where it ends, however TCP cuts the stream | medium; not executed | Tivo.SplitSentinelIsMissed | Tivo.ChunkingDoesNotMatter |
