/** The TiVo plugin's session: the socket, the `locked` and `tvready` flags,
    and what each event (a macro invoked, a timer firing, data arriving, the
    socket changing) does to them and sends on the wire. */
module Tivo {
  import opened Wrappers
  import opened Text
  import opened Framing
  import opened Wire
  import opened Macros

  /** The socket as the plugin sees it: only whether it is writable matters. */
  datatype Socket = Socket(writable: bool)

  datatype Session = Session(device: Option<Socket>, locked: bool, tvready: bool)

  /** The state the plugin starts in: no socket, not locked, TV not ready. */
  const Initial := Session(None, false, false)

  /** The substring of an inbound line that announces live TV is ready. */
  const Sentinel := "LIVETV_READY"

  /** The commands `changeChannel` sends once the TV is ready. */
  const ChannelDigits := ["IRCODE NUM1\r", "IRCODE NUM0\r", "IRCODE NUM3\r", "IRCODE NUM8\r"]

  /** How long `changeChannel` waits before checking readiness again. */
  const RecheckDelay := 250

  predicate Writable(s: Session)
  {
    s.device.Some? && s.device.value.writable
  }

  /** `write(cmd)`: the bytes handed to the socket, as a list of at most one
      write. Nothing goes out without a writable socket or for an empty command. */
  function Write(s: Session, cmd: string): (out: seq<string>)
    ensures out == [] || out == [cmd + "\n"]
    ensures out != [] <==> Writable(s) && cmd != ""
  {
    if !Writable(s) then []
    else if |cmd| == 0 then []
    else [cmd + "\n"]
  }

  /** `command(cmd)`: `write`, unless the session is locked. */
  function Command(s: Session, cmd: string): (out: seq<string>)
    ensures s.locked ==> out == []
    ensures out != [] <==> !s.locked && Writable(s) && cmd != ""
    ensures out != [] ==> out == [cmd + "\n"]
  {
    if s.locked then [] else Write(s, cmd)
  }

  /** Several `command` calls in a row: what they write, in order. */
  function Commands(s: Session, cmds: seq<string>): (out: seq<string>)
    ensures s.locked || !Writable(s) ==> out == []
    ensures !s.locked && Writable(s) && (forall i :: 0 <= i < |cmds| ==> cmds[i] != "") ==>
      |out| == |cmds| && forall i :: 0 <= i < |cmds| ==> out[i] == cmds[i] + "\n"
  {
    if |cmds| == 0 then [] else Command(s, cmds[0]) + Commands(s, cmds[1..])
  }

  /** `read(line)`: the new `tvready` flag after one framed inbound line. */
  function Read(ready: bool, line: string): (r: bool)
    ensures r == (ready || Contains(line, Sentinel))
    ensures |line| == 0 ==> r == ready
  {
    if |line| == 0 then ready
    else if IndexOf(line, Sentinel) > -1 then true
    else ready
  }

  /** `read` applied to each line in turn. */
  function ReadAll(ready: bool, lines: seq<string>): bool
    decreases |lines|
  {
    if |lines| == 0 then ready else ReadAll(Read(ready, lines[0]), lines[1..])
  }

  /** The `data` handler: frame the chunk into lines and read each one. A
      chunk leaves the TV ready exactly when it was ready already or the chunk
      holds the sentinel. */
  function ReceiveData(ready: bool, data: string): (r: bool)
    ensures r == (ready || Contains(data, Sentinel))
  {
    ReceiveSeesSentinel(ready, data);
    ReadAll(ready, Split(data))
  }

  /** Reading the framed lines of a chunk one by one sees the sentinel exactly
      when the chunk holds it: the framing never cuts the sentinel apart and
      never invents one. */
  lemma {:induction false} ReceiveSeesSentinel(ready: bool, data: string)
    ensures ReadAll(ready, Split(data)) == (ready || Contains(data, Sentinel))
    decreases |data|
  {
    var k := IndexOf(data, "\n");
    if k >= 0 {
      FirstNewline(data, k);
      var head, rest := StripCR(data[..k]), data[k + 1..];
      assert Split(data) == [head] + Split(rest);
      ReadAllCons(ready, head, Split(rest));
      ReceiveSeesSentinel(Read(ready, head), rest);
      ContainsAcrossFirstLine(data, k, Sentinel);
    } else {
      ReceiveOneLine(ready, data);
    }
  }

  /** A chunk without a line feed is read as a single line. */
  lemma ReceiveOneLine(ready: bool, data: string)
    requires IndexOf(data, "\n") < 0
    ensures ReadAll(ready, Split(data)) == Read(ready, data)
  {
    assert Split(data) == [data] + [];
    ReadAllCons(ready, data, []);
  }

  /** Reading a first line and then the others. */
  lemma ReadAllCons(ready: bool, line: string, lines: seq<string>)
    ensures ReadAll(ready, [line] + lines) == ReadAll(Read(ready, line), lines)
  {
    assert ([line] + lines)[1..] == lines;
  }

  /** As written, the `data` handler frames each chunk on its own, so a
      sentinel that TCP delivers in two chunks is never seen: the flag stays
      down although the stream holds the sentinel, and `changeChannel` keeps
      rescheduling itself. */
  lemma SplitSentinelIsMissed(s: Session)
    requires !s.tvready
    ensures Contains("LIVETV_" + "READY\n", Sentinel)
    ensures !Run(s, [Receive("LIVETV_"), Receive("READY\n")]).session.tvready
  {
    assert OccursAt("LIVETV_" + "READY\n", Sentinel, 0);
    var first := Step(s, Receive("LIVETV_"));
    assert !first.session.tvready;
    assert [Receive("LIVETV_"), Receive("READY\n")][1..] == [Receive("READY\n")];
  }

  /** The state of a line-buffering `data` handler: the `tvready` flag and the
      unfinished line carried over to the next chunk. */
  datatype Inbound = Inbound(ready: bool, pending: string)

  /** A `data` handler that buffers across chunks. It frames and reads, as the
      source reads a chunk, the new chunk preceded by just enough of what was
      carried over to complete a sentinel cut by the chunk boundary (the last
      `|Sentinel| - 1` characters), so each sentinel is read once: in the chunk
      where it ends. It keeps the stream's unfinished line for later. */
  function BufferedReceive(st: Inbound, data: string): (r: Inbound)
    ensures r.ready == (st.ready || EndsAfter(st.pending + data, Sentinel, |st.pending|))
    ensures r.pending == Unfinished(st.pending + data) && '\n' !in r.pending
  {
    var stream := st.pending + data;
    ContainsWindow(stream, Sentinel, |st.pending|);
    Inbound(ReceiveData(st.ready, stream[WindowStart(|st.pending|, Sentinel)..]), Unfinished(stream))
  }

  /** With nothing carried over, the buffering handler sees exactly what the
      handler as written sees in the same chunk, so buffering changes nothing
      for a chunk the source already reads correctly. */
  lemma BufferedAgreesOnOneChunk(ready: bool, data: string)
    ensures BufferedReceive(Inbound(ready, ""), data).ready == ReceiveData(ready, data)
  {
  }

  /** A sentinel already read is not read again: when the new chunk holds
      none of the sentinel's characters, the flag stays down, whatever was
      carried over. */
  lemma ReadSentinelIsNotReread(pending: string, data: string)
    requires forall i :: 0 <= i < |data| ==> data[i] !in Sentinel
    ensures !BufferedReceive(Inbound(false, pending), data).ready
  {
    var stream := pending + data;
    if EndsAfter(stream, Sentinel, |pending|) {
      var j :| OccursAt(stream, Sentinel, j) && |pending| < j + |Sentinel|;
      var last := j + |Sentinel| - 1;
      assert stream[last] == data[last - |pending|];
      OccurrenceAvoids(stream, Sentinel, j, last);
      assert false;
    }
  }

  /** With buffering, how TCP cuts the stream into two chunks does not matter:
      receiving `a` and then `b` ends exactly as receiving `a + b` at once. */
  lemma ChunkingDoesNotMatter(st: Inbound, a: string, b: string)
    ensures BufferedReceive(BufferedReceive(st, a), b) == BufferedReceive(st, a + b)
  {
    var s1 := st.pending + a;
    assert st.pending + (a + b) == s1 + b;
    UnfinishedAppend(s1, b);
    assert '\n' !in Sentinel;
    EndsAfterAcrossUnfinished(s1, b, Sentinel, |st.pending|);
  }

  /** The buffering handler applied to each chunk in turn. */
  function ReceiveChunks(st: Inbound, chunks: seq<string>): Inbound
    decreases |chunks|
  {
    if |chunks| == 0 then st else ReceiveChunks(BufferedReceive(st, chunks[0]), chunks[1..])
  }

  /** The chunks joined into one stream. */
  function Concat(chunks: seq<string>): string
    decreases |chunks|
  {
    if |chunks| == 0 then "" else chunks[0] + Concat(chunks[1..])
  }

  /** An empty chunk changes nothing while no line feed is pending. */
  lemma EmptyChunk(st: Inbound)
    requires '\n' !in st.pending
    ensures BufferedReceive(st, "") == st
  {
    assert st.pending + "" == st.pending;
    NoCompleteLine(st.pending);
  }

  /** Whatever the chunking, the buffering handler ends as if the whole stream
      had arrived as one chunk. */
  lemma {:induction false} AnyChunkingIsOneChunk(st: Inbound, chunks: seq<string>)
    requires '\n' !in st.pending
    ensures ReceiveChunks(st, chunks) == BufferedReceive(st, Concat(chunks))
    decreases |chunks|
  {
    if |chunks| == 0 {
      EmptyChunk(st);
    } else {
      var next := BufferedReceive(st, chunks[0]);
      var rest := chunks[1..];
      assert ReceiveChunks(st, chunks) == ReceiveChunks(next, rest);
      assert Concat(chunks) == chunks[0] + Concat(rest);
      AnyChunkingIsOneChunk(next, rest);
      ChunkingDoesNotMatter(st, chunks[0], Concat(rest));
    }
  }

  /** A sentinel cut across two chunks, wherever the cut falls and however
      the lines end, is seen by the buffering handler once both chunks have
      arrived. */
  lemma SplitSentinelIsSeen(st: Inbound, a: string, b: string)
    requires Contains(a + b, Sentinel)
    ensures BufferedReceive(BufferedReceive(st, a), b).ready
  {
    var j :| OccursAt(a + b, Sentinel, j);
    assert EndsAfter(a + b, Sentinel, 0);
    EndsAfterShift(st.pending, a + b, Sentinel, 0);
    ChunkingDoesNotMatter(st, a, b);
  }

  /** Result of one event: the new session, what was written to the socket,
      and the timers registered, in order. */
  datatype Effect = Effect(session: Session, wire: seq<string>, timers: seq<Timer>)

  /** One run of `changeChannel(number)`: when the TV is ready, send the four
      digits and clear the flag; otherwise send nothing and check again later. */
  function ChangeChannelStep(s: Session, number: string): (r: Effect)
    ensures s.tvready ==> r.session == s.(tvready := false) && r.wire == Commands(s, ChannelDigits) && r.timers == []
    ensures !s.tvready ==> r.session == s && r.wire == [] && r.timers == [Timer(RecheckDelay, ChangeChannel(number))]
  {
    if s.tvready then Effect(s.(tvready := false), Commands(s, ChannelDigits), [])
    else Effect(s, [], [Timer(RecheckDelay, ChangeChannel(number))])
  }

  /** The digits sent are those of the football channel, 1 0 3 8, whatever
      number the step was asked for. */
  lemma ChannelDigitsIgnoreNumber(s: Session, a: string, b: string)
    requires s.tvready
    ensures ChangeChannelStep(s, a) == ChangeChannelStep(s, b)
    ensures forall i :: 0 <= i < |FootballChannel| ==>
      ChannelDigits[i] == "IRCODE NUM" + [FootballChannel[i]] + "\r"
    ensures |ChannelDigits| == |FootballChannel|
  {
  }

  /** Readiness is consumed once: right after sending the digits, the next
      step finds the TV not ready, sends nothing and reschedules. */
  lemma ReadinessConsumedOnce(s: Session, number: string)
    requires s.tvready
    ensures var first := ChangeChannelStep(s, number);
      var second := ChangeChannelStep(first.session, number);
      !first.session.tvready && second.wire == [] &&
      second.timers == [Timer(RecheckDelay, ChangeChannel(number))]
  {
  }

  /** Configuration entries `tivo:address` and `tivo:port`, absent or present. */
  datatype Config = Config(address: Option<string>, port: Option<int>)

  /** Both entries are set to something truthy: a non-empty address and a non-zero port. */
  predicate Configured(cfg: Config)
  {
    && cfg.address.Some? && cfg.address.value != ""
    && cfg.port.Some? && cfg.port.value != 0
  }

  /** What `init` decides to do before touching the network. */
  datatype InitAction =
    | MissingConfig           // settings absent: log a notice, do nothing, no retry
    | AlreadyConnected        // the socket is writable: nothing to do
    | Connect(destroyStale: bool)  // open a new socket, destroying the old one first if any

  function InitDecision(cfg: Config, device: Option<Socket>): (a: InitAction)
    ensures a == MissingConfig <==> !Configured(cfg)
    ensures a == AlreadyConnected <==> Configured(cfg) && device.Some? && device.value.writable
    ensures a.Connect? ==> (a.destroyStale <==> device.Some?)
  {
    if !Configured(cfg) then MissingConfig
    else if device.Some? && device.value.writable then AlreadyConnected
    else Connect(device.Some?)
  }

  /** Things that happen to the plugin. `Link` is the socket layer changing
      the socket (connected, errored, closed, replaced by `init`). */
  datatype Event =
    | Invoke(plan: Plan)
    | Fire(action: Action)
    | Receive(data: string)
    | Link(device: Option<Socket>)

  /** What a firing timer does: a keystroke timer writes at most its own
      command as one line and changes nothing else; a channel-change timer
      writes at most the four digits, may only clear `tvready`, and registers
      at most a recheck of the same channel after 250 ms. */
  function FireAction(s: Session, a: Action): (r: Effect)
    ensures a.Command? ==> r.session == s && r.timers == [] && (r.wire == [] || r.wire == [a.cmd + "\n"])
    ensures a.ChangeChannel? ==> r.session == s || r.session == s.(tvready := false)
    ensures a.ChangeChannel? ==> r.timers == [] || r.timers == [Timer(RecheckDelay, a)]
    ensures a.ChangeChannel? ==> |r.wire| <= |ChannelDigits|
  {
    match a
    case Command(cmd) => Effect(s, Command(s, cmd), [])
    case ChangeChannel(number) => ChangeChannelStep(s, number)
  }

  /** One event. No event sets `locked`; only inbound data holding the
      sentinel raises `tvready`, and only a channel-change step lowers it. */
  function Step(s: Session, e: Event): (r: Effect)
    ensures r.session.locked == s.locked
    ensures !e.Link? ==> r.session.device == s.device
    ensures e.Receive? ==> r.session.tvready == (s.tvready || Contains(e.data, Sentinel))
    ensures !s.tvready && r.session.tvready ==> e.Receive? && Contains(e.data, Sentinel)
    ensures s.tvready && !r.session.tvready ==> e.Fire? && e.action.ChangeChannel?
  {
    match e
    case Invoke(plan) => Effect(s, Commands(s, plan.now), plan.timers)
    case Fire(a) => FireAction(s, a)
    case Receive(data) =>
      Effect(s.(tvready := ReceiveData(s.tvready, data)), [], [])
    case Link(device) => Effect(s.(device := device), [], [])
  }

  /** A sequence of events, in order: the final session, everything written,
      and every timer registered. */
  function Run(s: Session, events: seq<Event>): (r: Effect)
    decreases |events|
    ensures r.session.locked == s.locked
    ensures (forall i :: 0 <= i < |events| ==> !events[i].Link?) ==> r.session.device == s.device
  {
    if |events| == 0 then Effect(s, [], [])
    else
      var first := Step(s, events[0]);
      var rest := Run(first.session, events[1..]);
      Effect(rest.session, first.wire + rest.wire, first.timers + rest.timers)
  }

  /** Over any run, the TV becomes ready only if some inbound chunk held the
      sentinel. */
  lemma {:induction false} ReadyOnlyFromSentinel(s: Session, events: seq<Event>)
    requires !s.tvready && Run(s, events).session.tvready
    ensures exists i :: 0 <= i < |events| && events[i].Receive? && Contains(events[i].data, Sentinel)
    decreases |events|
  {
    var first := Step(s, events[0]);
    if first.session.tvready {
      assert events[0].Receive? && Contains(events[0].data, Sentinel);
    } else {
      ReadyOnlyFromSentinel(first.session, events[1..]);
      var i :| 0 <= i < |events| - 1 && events[1..][i].Receive? && Contains(events[1..][i].data, Sentinel);
      assert events[i + 1] == events[1..][i];
    }
  }

  /** `locked` starts false and no event sets it, so `command` is always `write`. */
  lemma LockNeverSet(events: seq<Event>)
    ensures !Run(Initial, events).session.locked
    ensures forall cmd :: Command(Run(Initial, events).session, cmd) == Write(Run(Initial, events).session, cmd)
  {
  }

  /** Without a writable socket, nothing reaches the wire, whatever is invoked
      or fires, until the socket changes. */
  lemma {:induction false} NothingWrittenWhileDisconnected(s: Session, events: seq<Event>)
    requires !Writable(s)
    requires forall i :: 0 <= i < |events| ==> !events[i].Link?
    ensures Run(s, events).wire == []
    decreases |events|
  {
    if |events| > 0 {
      var first := Step(s, events[0]);
      assert first.wire == [] by {
        if events[0].Fire? && events[0].action.ChangeChannel? {
          assert first.wire == Commands(s, ChannelDigits) || first.wire == [];
        }
      }
      NothingWrittenWhileDisconnected(first.session, events[1..]);
    }
  }

  /** `n` copies of the same value. */
  function Repeat<T>(x: T, n: nat): (r: seq<T>)
    ensures |r| == n && forall i :: 0 <= i < n ==> r[i] == x
  {
    if n == 0 then [] else [x] + Repeat(x, n - 1)
  }

  /** While readiness never arrives, every check sends nothing, leaves the
      session as it was and registers exactly one more check 250 ms on. */
  lemma {:induction false} PollsWhileNotReady(s: Session, number: string, n: nat)
    requires !s.tvready
    ensures Run(s, Repeat(Fire(ChangeChannel(number)), n)) ==
      Effect(s, [], Repeat(Timer(RecheckDelay, ChangeChannel(number)), n))
  {
    if n > 0 {
      var events := Repeat(Fire(ChangeChannel(number)), n);
      assert events[1..] == Repeat(Fire(ChangeChannel(number)), n - 1);
      PollsWhileNotReady(s, number, n - 1);
      assert Repeat(Timer(RecheckDelay, ChangeChannel(number)), n) ==
        [Timer(RecheckDelay, ChangeChannel(number))] + Repeat(Timer(RecheckDelay, ChangeChannel(number)), n - 1);
    }
  }

  /** Every command written is a single line to the device: framed with the
      same rule the plugin reads with, it is the command (less a final
      carriage return) followed by an empty remainder. */
  lemma WrittenCommandIsOneLine(s: Session, cmd: string)
    requires Writable(s) && cmd != "" && '\n' !in cmd
    ensures |Write(s, cmd)| == 1
    ensures Split(Write(s, cmd)[0]) == [StripCR(cmd), ""]
  {
    var line := cmd + "\n";
    var k := IndexOf(line, "\n");
    assert OccursAt(line, "\n", |cmd|);
    FirstNewline(line, k);
    assert line[..k] == cmd;
    assert line[k + 1..] == "";
  }

  /** Each keystroke reaches the device as `KEYBOARD <key>` ended by CR LF. */
  lemma KeystrokeIsCrlfLine(s: Session, key: string)
    requires Writable(s) && '\n' !in key
    ensures Write(s, KeyboardKey(key)) == [KeyboardPrefix + key + "\r\n"]
    ensures Split(Write(s, KeyboardKey(key))[0]) == [KeyboardPrefix + key, ""]
  {
    var cmd := KeyboardKey(key);
    assert '\n' !in cmd by {
      assert cmd == KeyboardPrefix + key + "\r";
    }
    WrittenCommandIsOneLine(s, cmd);
    assert cmd + "\n" == KeyboardPrefix + key + "\r\n";
    assert cmd[..|cmd| - 1] == KeyboardPrefix + key;
  }

  /** The events of every timer in `timers` firing, in order. */
  function Firings(timers: seq<Timer>): (events: seq<Event>)
    ensures |events| == |timers|
    ensures forall i :: 0 <= i < |timers| ==> events[i] == Fire(timers[i].action)
  {
    if |timers| == 0 then [] else [Fire(timers[0].action)] + Firings(timers[1..])
  }

  /** Running one event and then the rest. */
  lemma RunCons(s: Session, e: Event, events: seq<Event>)
    ensures var first := Step(s, e);
      var rest := Run(first.session, events);
      Run(s, [e] + events) == Effect(rest.session, first.wire + rest.wire, first.timers + rest.timers)
  {
    assert ([e] + events)[1..] == events;
  }

  /** On a connected, unlocked session, keystroke timers firing in order put
      their commands on the wire in the same order, one line each. */
  lemma {:induction false} FiredCommandsReachWire(s: Session, timers: seq<Timer>)
    requires Writable(s) && !s.locked
    requires forall i :: 0 <= i < |timers| ==> timers[i].action.Command? && timers[i].action.cmd != ""
    ensures Run(s, Firings(timers)).session == s
    ensures |Run(s, Firings(timers)).wire| == |timers|
    ensures forall i :: 0 <= i < |timers| ==> Run(s, Firings(timers)).wire[i] == timers[i].action.cmd + "\n"
    decreases |timers|
  {
    if |timers| > 0 {
      var events := Firings(timers);
      assert events == [Fire(timers[0].action)] + Firings(timers[1..]);
      RunCons(s, Fire(timers[0].action), Firings(timers[1..]));
      FiredCommandsReachWire(s, timers[1..]);
    }
  }

  /** Keystroke timers fired in order on a connected session reach the wire
      as `KEYBOARD <key>` lines ended by CR LF, in the same order. */
  lemma KeystrokesOnTheWire(s: Session, timers: seq<Timer>, keys: seq<string>)
    requires Writable(s) && !s.locked
    requires |timers| == |keys|
    requires forall i :: 0 <= i < |timers| ==> timers[i].action == Action.Command(KeyboardKey(keys[i]))
    ensures Run(s, Firings(timers)).session == s
    ensures |Run(s, Firings(timers)).wire| == |keys|
    ensures forall i :: 0 <= i < |keys| ==> Run(s, Firings(timers)).wire[i] == "KEYBOARD " + keys[i] + "\r\n"
  {
    FiredCommandsReachWire(s, timers);
    forall i | 0 <= i < |keys|
      ensures Run(s, Firings(timers)).wire[i] == "KEYBOARD " + keys[i] + "\r\n"
    {
      KeystrokeLine(keys[i]);
    }
  }

  /** The keystroke lines that `watchnetflix` puts on the wire. */
  lemma NetflixKeyLines()
    ensures forall i :: 0 <= i < |NetflixKeys| ==>
      "KEYBOARD " + NetflixKeys[i] + "\r\n" ==
      ["KEYBOARD DOWN\r\n", "KEYBOARD DOWN\r\n", "KEYBOARD DOWN\r\n", "KEYBOARD RIGHT\r\n",
       "KEYBOARD DOWN\r\n", "KEYBOARD DOWN\r\n", "KEYBOARD DOWN\r\n", "KEYBOARD SELECT\r\n"][i]
  {
    assert "KEYBOARD " + "DOWN" + "\r\n" == "KEYBOARD DOWN\r\n";
    assert "KEYBOARD " + "RIGHT" + "\r\n" == "KEYBOARD RIGHT\r\n";
    assert "KEYBOARD " + "SELECT" + "\r\n" == "KEYBOARD SELECT\r\n";
  }

  /** The eight keystroke timers of `watchnetflix`, fired in order on a
      connected session, put the eight keystroke lines on the wire. */
  lemma NetflixKeystrokesOnTheWire(s: Session)
    requires Writable(s) && !s.locked
    ensures Run(s, Firings(Keystrokes(NetflixKeys, NetflixDelays))).wire ==
      ["KEYBOARD DOWN\r\n", "KEYBOARD DOWN\r\n", "KEYBOARD DOWN\r\n", "KEYBOARD RIGHT\r\n",
       "KEYBOARD DOWN\r\n", "KEYBOARD DOWN\r\n", "KEYBOARD DOWN\r\n", "KEYBOARD SELECT\r\n"]
  {
    KeystrokesOnTheWire(s, Keystrokes(NetflixKeys, NetflixDelays), NetflixKeys);
    NetflixKeyLines();
  }

  /** `watchnetflix` on a connected session, with all its timers fired, puts
      nine lines on the wire: the teleport and the eight keystrokes. */
  lemma NetflixOnTheWire(s: Session)
    requires Writable(s) && !s.locked
    ensures Run(s, [Invoke(WatchNetflix())] + Firings(WatchNetflix().timers)).wire ==
      ["TELEPORT TIVO\r\n", "KEYBOARD DOWN\r\n", "KEYBOARD DOWN\r\n", "KEYBOARD DOWN\r\n",
       "KEYBOARD RIGHT\r\n", "KEYBOARD DOWN\r\n", "KEYBOARD DOWN\r\n", "KEYBOARD DOWN\r\n",
       "KEYBOARD SELECT\r\n"]
  {
    var plan := WatchNetflix();
    var teleport := Step(s, Invoke(plan)).wire;
    var keystrokes := Run(s, Firings(plan.timers)).wire;
    assert Run(s, [Invoke(plan)] + Firings(plan.timers)).wire == teleport + keystrokes by {
      RunCons(s, Invoke(plan), Firings(plan.timers));
    }
    assert teleport == ["TELEPORT TIVO\r\n"] by {
      OneCommand(s, TeleportTivo);
      assert TeleportTivo + "\n" == "TELEPORT TIVO\r\n";
    }
    assert keystrokes ==
      ["KEYBOARD DOWN\r\n", "KEYBOARD DOWN\r\n", "KEYBOARD DOWN\r\n", "KEYBOARD RIGHT\r\n",
       "KEYBOARD DOWN\r\n", "KEYBOARD DOWN\r\n", "KEYBOARD DOWN\r\n", "KEYBOARD SELECT\r\n"] by {
      assert plan.timers == Keystrokes(NetflixKeys, NetflixDelays);
      NetflixKeystrokesOnTheWire(s);
    }
    NetflixLines(teleport, keystrokes);
  }

  /** The teleport line followed by the eight keystroke lines. */
  lemma NetflixLines(teleport: seq<string>, keystrokes: seq<string>)
    requires teleport == ["TELEPORT TIVO\r\n"]
    requires keystrokes ==
      ["KEYBOARD DOWN\r\n", "KEYBOARD DOWN\r\n", "KEYBOARD DOWN\r\n", "KEYBOARD RIGHT\r\n",
       "KEYBOARD DOWN\r\n", "KEYBOARD DOWN\r\n", "KEYBOARD DOWN\r\n", "KEYBOARD SELECT\r\n"]
    ensures teleport + keystrokes ==
      ["TELEPORT TIVO\r\n", "KEYBOARD DOWN\r\n", "KEYBOARD DOWN\r\n", "KEYBOARD DOWN\r\n",
       "KEYBOARD RIGHT\r\n", "KEYBOARD DOWN\r\n", "KEYBOARD DOWN\r\n", "KEYBOARD DOWN\r\n",
       "KEYBOARD SELECT\r\n"]
  {
  }

  /** A single command on a connected, unlocked session is written as one line. */
  lemma OneCommand(s: Session, cmd: string)
    requires Writable(s) && !s.locked && cmd != ""
    ensures Commands(s, [cmd]) == [cmd + "\n"]
  {
    assert [cmd][1..] == [];
  }

  /** The line a keystroke command becomes on the wire. */
  lemma KeystrokeLine(key: string)
    ensures KeyboardKey(key) + "\n" == "KEYBOARD " + key + "\r\n"
  {
  }

  /** Once the TV is ready, a connected session sends the digits 1 0 3 8 as
      four IRCODE lines. */
  lemma DigitsOnTheWire(s: Session)
    requires Writable(s) && !s.locked
    ensures Commands(s, ChannelDigits) ==
      ["IRCODE NUM1\r\n", "IRCODE NUM0\r\n", "IRCODE NUM3\r\n", "IRCODE NUM8\r\n"]
  {
    assert forall i :: 0 <= i < |ChannelDigits| ==> ChannelDigits[i] != "" by {
      forall i | 0 <= i < |ChannelDigits|
        ensures ChannelDigits[i] != ""
      {
        assert |ChannelDigits[i]| == 12;
      }
    }
    var out := Commands(s, ChannelDigits);
    assert |out| == 4;
    assert out[0] == "IRCODE NUM1\r" + "\n" == "IRCODE NUM1\r\n";
    assert out[1] == "IRCODE NUM0\r" + "\n" == "IRCODE NUM0\r\n";
    assert out[2] == "IRCODE NUM3\r" + "\n" == "IRCODE NUM3\r\n";
    assert out[3] == "IRCODE NUM8\r" + "\n" == "IRCODE NUM8\r\n";
  }

  /** The four steps of the football scenario, one by one. */
  lemma FootballSteps(s: Session, data: string)
    requires !s.tvready && Contains(data, Sentinel)
    ensures Step(s, Invoke(WatchFootball())) ==
      Effect(s, Commands(s, [TeleportLiveTv]), [Timer(RecheckDelay, ChangeChannel(FootballChannel))])
    ensures Step(s, Fire(ChangeChannel(FootballChannel))) ==
      Effect(s, [], [Timer(RecheckDelay, ChangeChannel(FootballChannel))])
    ensures Step(s, Receive(data)) == Effect(s.(tvready := true), [], [])
    ensures Step(s.(tvready := true), Fire(ChangeChannel(FootballChannel))) ==
      Effect(s, Commands(s.(tvready := true), ChannelDigits), [])
  {
  }

  /** The football scenario over a session in any state of connection. */
  lemma FootballRun(s: Session, data: string)
    requires !s.tvready && Contains(data, Sentinel)
    ensures var check := Fire(ChangeChannel(FootballChannel));
      var recheck := Timer(RecheckDelay, ChangeChannel(FootballChannel));
      Run(s, [Invoke(WatchFootball()), check, Receive(data), check]) ==
      Effect(s, Commands(s, [TeleportLiveTv]) + Commands(s.(tvready := true), ChannelDigits), [recheck, recheck])
  {
    var check := Fire(ChangeChannel(FootballChannel));
    var recheck := Timer(RecheckDelay, ChangeChannel(FootballChannel));
    var ready := s.(tvready := true);
    var digits := Commands(ready, ChannelDigits);
    FootballSteps(s, data);
    assert Run(ready, [check]) == Effect(s, digits, []) by {
      RunCons(ready, check, []);
      assert [check] + [] == [check];
    }
    assert Run(s, [Receive(data), check]) == Effect(s, digits, []) by {
      RunCons(s, Receive(data), [check]);
    }
    assert Run(s, [check, Receive(data), check]) == Effect(s, digits, [recheck]) by {
      RunCons(s, check, [Receive(data), check]);
    }
    RunCons(s, Invoke(WatchFootball()), [check, Receive(data), check]);
  }

  /** `watchfootball` on a connected session: the first check finds the TV not
      ready and reschedules; a chunk holding the sentinel arrives; the next
      check sends the four digits and clears the flag. */
  lemma FootballScenario(s: Session, data: string)
    requires Writable(s) && !s.locked && !s.tvready
    requires Contains(data, Sentinel)
    ensures var r := Run(s, [Invoke(WatchFootball()), Fire(ChangeChannel(FootballChannel)),
                             Receive(data), Fire(ChangeChannel(FootballChannel))]);
      && r.wire == ["TELEPORT LIVETV\r\n", "IRCODE NUM1\r\n", "IRCODE NUM0\r\n", "IRCODE NUM3\r\n", "IRCODE NUM8\r\n"]
      && r.timers == [Timer(250, ChangeChannel("1038")), Timer(250, ChangeChannel("1038"))]
      && r.session == s
  {
    FootballRun(s, data);
    OneCommand(s, TeleportLiveTv);
    assert TeleportLiveTv + "\n" == "TELEPORT LIVETV\r\n";
    DigitsOnTheWire(s.(tvready := true));
  }
}
