/** What holds in every state that the library and the firmware can reach, in any order of their steps. */
module ScopeAgreement {
  import opened Memory
  import opened Options
  import opened ScopeProtocol

  /**
   * The firmware holds what the library has set; of the glitch length the low eight bits, of the clock
   * divider the low three, and of the gains all that were ever set.
   */
  predicate Agrees(d: Device, t: Settings) {
    && (t.samples.Some? ==> d.samples == t.samples.value)
    && (t.bits12.Some? ==> d.bits12 == t.bits12.value)
    && (t.delay.Some? ==> d.delay == t.delay.value)
    && (t.pulses.Some? ==> d.pulses == t.pulses.value)
    && (t.glitch.Some? ==> d.glitch == t.glitch.value % 256)
    && (t.power.Some? ==> d.power == t.power.value)
    && (t.clock.Some? ==> d.clock == t.clock.value % 8)
    && (t.bias.Some? ==> d.bias == t.bias.value)
    && d.gain == t.gain
  }

  /** Fetches of zero samples, which the library does not wait for. */
  function Idles(n: nat): (s: seq<Octet>)
    ensures |s| == n && forall i | 0 <= i < n :: s[i] == FETCH
  {
    seq(n, i => FETCH)
  }

  /** What the firmware still has to send before it takes the next command or waits for the trigger. */
  function Unsent(pc: DevicePc): seq<Octet> {
    if pc.Put? then pc.out else []
  }

  /** The firmware is between commands or on its way back there. */
  predicate Returning(pc: DevicePc) {
    pc.Idle? || (pc.Put? && pc.next.Loop?)
  }

  /**
   * Nothing is under way: the channel to the library is empty, and the channel to the firmware too,
   * but for fetches of zero samples while the firmware has zero samples to send.
   */
  predicate Quiet(s: System, t: Settings) {
    && s.dev.pc.Idle? && s.toClient == [] && Agrees(s.dev, t)
    && s.toDev == Idles(|s.toDev|) && (s.toDev != [] ==> s.dev.samples == 0)
  }

  /** A command of the library is partly in the channel and partly taken, and nothing has been answered. */
  predicate Asking(s: System, bytes: seq<Octet>, t: Settings) {
    && s.toClient == [] && Agrees(s.dev, t) && |bytes| > 0
    && match s.dev.pc
       case Idle => |s.toDev| >= |bytes| && s.toDev == Idles(|s.toDev| - |bytes|) + bytes && (|s.toDev| > |bytes| ==> s.dev.samples == 0)
       case Need(cmd, got) => cmd == bytes[0] && |got| + 1 < |bytes| && got == bytes[1..1 + |got|] && s.toDev == bytes[1 + |got|..]
       case _ => false
  }

  predicate Accepted(c: Call) {
    c.SetSamples? ==> c.n <= BUFFER
  }

  /** The answer to a setting is partly sent and partly in the channel; a refused one has changed nothing. */
  predicate Answering(s: System, c: Call, before: Settings) {
    && s.toDev == [] && Returning(s.dev.pc)
    && s.toClient + Unsent(s.dev.pc) == (if Accepted(c) then [DONE] else TOO_BIG)
    && Agrees(s.dev, if Accepted(c) then Set(before, c) else before)
  }

  /** The firmware has been armed; the bytes of unread are what the library has yet to read before the verdict. */
  predicate Triggering(s: System, cmd: Octet, unread: seq<Octet>, t: Settings) {
    && s.toDev == [] && Agrees(s.dev, t)
    && match s.dev.pc
       case Put(out, bulk, next) =>
         if next.Trigger? then next.cmd == cmd && out == unread && s.toClient == [] && !bulk
         else out == [Verdict(cmd, s.dev.timedOut)] && s.toClient == unread && !bulk
       case Waiting(c) => c == cmd && s.toClient == unread
       case Idle => s.toClient == unread + [Verdict(cmd, s.dev.timedOut)]
       case _ => false
  }

  /** The samples are partly with the library, partly in the channel and partly to be sent. */
  predicate Delivering(s: System, got: seq<Octet>, t: Settings)
    requires s.dev.Valid()
  {
    && s.toDev == [] && Returning(s.dev.pc) && Agrees(s.dev, t)
    && got + s.toClient + Unsent(s.dev.pc) == s.dev.buf[..s.dev.samples]
  }

  /** What every reachable state keeps. */
  predicate Inv(s: System) {
    && s.dev.Valid()
    && (s.client.pc.Ready? || s.client.pc.Failed? || (s.client.returned.None? && s.client.completed.None?))
    && match s.client.pc
       case Ready =>
         && Quiet(s, s.client.settings)
         && (s.client.returned.Some? ==> s.client.returned.value == s.dev.buf[..s.dev.samples])
         && (s.client.completed.Some? ==> s.client.completed.value == !s.dev.timedOut)
       case Setting(call, before) =>
         && Allowed(call) && s.client.settings == Set(before, call)
         && (Asking(s, Bytes(call), before) || Answering(s, call, before))
       case Arming(cmd) =>
         && (cmd == ARM || cmd == GLITCH)
         && (Asking(s, [cmd], s.client.settings) || Triggering(s, cmd, [READY], s.client.settings))
       case Armed(cmd) => (cmd == ARM || cmd == GLITCH) && Triggering(s, cmd, [], s.client.settings)
       case Completing(cmd) => (cmd == ARM || cmd == GLITCH) && Triggering(s, cmd, [], s.client.settings)
       case Collecting(got) =>
         && s.client.settings.samples.Some? && |got| < s.client.settings.samples.value
         && ((got == [] && Asking(s, [FETCH], s.client.settings)) || Delivering(s, got, s.client.settings))
       case Failed => true
  }

  lemma {:induction false} StartHolds()
    ensures Inv(Start())
  {
  }

  // ---- The library's steps ----

  lemma {:induction false} IdlesGrow(toDev: seq<Octet>, bytes: seq<Octet>)
    requires toDev == Idles(|toDev|)
    ensures toDev + bytes == Idles(|toDev + bytes| - |bytes|) + bytes
  {
    assert |toDev + bytes| - |bytes| == |toDev|;
  }

  lemma {:induction false} CallHolds(s: System, e: Event)
    requires Inv(s) && Enabled(s, e) && (e.Asks? || e.Arms? || e.Awaits? || e.Fetches?)
    ensures Inv(Step(s, e))
  {
    match e
    case Asks(call) => IdlesGrow(s.toDev, Bytes(call));
    case Arms(cmd) => IdlesGrow(s.toDev, [cmd]);
    case Awaits =>
    case Fetches =>
      IdlesGrow(s.toDev, [FETCH]);
      if s.client.settings.samples.value == 0 {
        assert s.toDev + [FETCH] == Idles(|s.toDev| + 1);
      }
  }

  lemma {:induction false} ClientReadsHolds(s: System)
    requires Inv(s) && Enabled(s, ClientReads)
    ensures Inv(Step(s, ClientReads))
  {
    var b := s.toClient[0];
    match s.client.pc
    case Setting(call, before) =>
      assert (s.toClient + Unsent(s.dev.pc))[0] == b;
      if b == DONE {
        assert |s.toClient + Unsent(s.dev.pc)| == 1;
        assert s.toClient[1..] == Idles(0);
      }
    case Arming(cmd) =>
      assert [READY] == [READY] + [];
      if s.dev.pc.Idle? {
        assert s.toClient[1..] == [Verdict(cmd, s.dev.timedOut)];
      }
    case Completing(cmd) => assert s.toClient == [Verdict(cmd, s.dev.timedOut)];
    case Collecting(got) => assert got + [b] + s.toClient[1..] == got + s.toClient;
    case _ =>
  }

  // ---- The firmware's steps ----

  /** A fetch of zero samples leaves the firmware as it was. */
  lemma {:induction false} IdleTaken(d: Device)
    requires d.Valid() && d.pc.Idle? && d.samples == 0
    ensures Receive(d, FETCH) == d
  {
    assert d.buf[..0] == [];
  }

  /** A setting takes effect in the firmware as the library means it, or is answered as too big and has none. */
  lemma {:induction false} SettingTaken(d: Device, call: Call, before: Settings)
    requires d.Valid() && Allowed(call) && Agrees(d, before)
    ensures var r := Execute(d, Bytes(call)[0], Bytes(call)[1..]);
      && r.pc == Put(if Accepted(call) then [DONE] else TOO_BIG, false, Loop)
      && Agrees(r, if Accepted(call) then Set(before, call) else before)
  {
    hide AddGain, Short;
    var args := Bytes(call)[1..];
    match call
    case SetSamples(n) => ShortOf(n, args);
    case SetDelay(n) => ShortOf(n, args);
    case SetBias(n) => ShortOf(n, args);
    case SetGlitchLength(n) => ShortOf(n, args);
    case _ =>
  }

  lemma {:induction false} ShortOf(n: nat, args: seq<Octet>)
    requires n < 65536 && args == [n / 256, n % 256]
    ensures Short(args) == n
  {
  }

  lemma {:induction false} OneMore(bytes: seq<Octet>, a: nat, b: nat)
    requires a <= b < |bytes|
    ensures bytes[a..b] + [bytes[b]] == bytes[a..b + 1]
  {
  }

  /** A fetch of zero samples before the command is taken. */
  lemma {:induction false} EarlierTaken(s: System, bytes: seq<Octet>, t: Settings)
    requires s.dev.Valid() && Asking(s, bytes, t) && s.dev.pc.Idle? && |s.toDev| > |bytes|
    ensures Enabled(s, DeviceReads)
    ensures var r := Step(s, DeviceReads); Asking(r, bytes, t) && r.dev == s.dev
  {
    hide Execute, Receive;
    assert s.toDev[0] == FETCH;
    IdleTaken(s.dev);
    assert s.toDev[1..] == Idles(|s.toDev| - 1 - |bytes|) + bytes;
  }

  /** One byte of a command is taken: either it is still being taken, or this was its last byte. */
  lemma {:induction false} ByteTaken(s: System, bytes: seq<Octet>, t: Settings)
    requires s.dev.Valid() && Asking(s, bytes, t) && |bytes| == 1 + Arguments(bytes[0])
    ensures Enabled(s, DeviceReads)
    ensures var r := Step(s, DeviceReads);
      || (Asking(r, bytes, t) && r.dev == s.dev.(pc := r.dev.pc))
      || (r.toDev == [] && r.toClient == [] && r.dev == Execute(s.dev, bytes[0], bytes[1..]))
  {
    hide Execute;
    if s.dev.pc.Idle? && |s.toDev| > |bytes| {
      EarlierTaken(s, bytes, t);
    } else if s.dev.pc.Idle? {
      FirstTaken(s, bytes, t);
    } else {
      ArgumentTaken(s, bytes, t);
    }
  }

  lemma {:induction false} FirstTaken(s: System, bytes: seq<Octet>, t: Settings)
    requires s.dev.Valid() && Asking(s, bytes, t) && |bytes| == 1 + Arguments(bytes[0]) && s.dev.pc.Idle? && |s.toDev| == |bytes|
    ensures Enabled(s, DeviceReads)
    ensures var r := Step(s, DeviceReads);
      || (Asking(r, bytes, t) && r.dev == s.dev.(pc := r.dev.pc))
      || (r.toDev == [] && r.toClient == [] && r.dev == Execute(s.dev, bytes[0], bytes[1..]))
  {
    hide Execute, Arguments;
    assert s.toDev == bytes;
    if |bytes| == 1 {
      assert bytes[1..] == [];
    } else {
      assert [] == bytes[1..1];
    }
  }

  lemma {:induction false} ArgumentTaken(s: System, bytes: seq<Octet>, t: Settings)
    requires s.dev.Valid() && Asking(s, bytes, t) && |bytes| == 1 + Arguments(bytes[0]) && s.dev.pc.Need?
    ensures Enabled(s, DeviceReads)
    ensures var r := Step(s, DeviceReads);
      || (Asking(r, bytes, t) && r.dev == s.dev.(pc := r.dev.pc))
      || (r.toDev == [] && r.toClient == [] && r.dev == Execute(s.dev, bytes[0], bytes[1..]))
  {
    hide Execute, Arguments;
    var got := s.dev.pc.got;
    assert s.toDev[0] == bytes[1 + |got|];
    OneMore(bytes, 1, 1 + |got|);
    assert s.toDev[1..] == bytes[2 + |got|..];
    if 2 + |got| == |bytes| {
      assert bytes[1..2 + |got|] == bytes[1..];
    }
  }

  lemma {:induction false} SettingReads(s: System)
    requires Inv(s) && Enabled(s, DeviceReads) && s.client.pc.Setting?
    ensures Inv(Step(s, DeviceReads))
  {
    hide Execute, Agrees, Bytes, Step;
    var call, before := s.client.pc.call, s.client.pc.before;
    ByteTaken(s, Bytes(call), before);
    SettingTaken(s.dev, call, before);
    StepFrame(s);
    var r := Step(s, DeviceReads);
    if !Asking(r, Bytes(call), before) {
      assert [] + Unsent(r.dev.pc) == Unsent(r.dev.pc);
    }
  }

  /** Reading changes the firmware and its channel only. */
  lemma {:induction false} StepFrame(s: System)
    requires Enabled(s, DeviceReads)
    ensures Step(s, DeviceReads).client == s.client
  {
  }

  lemma {:induction false} ArmingReads(s: System)
    requires Inv(s) && Enabled(s, DeviceReads) && s.client.pc.Arming?
    ensures Inv(Step(s, DeviceReads))
  {
    hide Step, Adjust;
    ByteTaken(s, [s.client.pc.cmd], s.client.settings);
    StepFrame(s);
  }

  lemma {:induction false} CollectingReads(s: System)
    requires Inv(s) && Enabled(s, DeviceReads) && s.client.pc.Collecting?
    ensures Inv(Step(s, DeviceReads))
  {
    hide Step, Adjust;
    ByteTaken(s, [FETCH], s.client.settings);
    StepFrame(s);
    var out := s.dev.buf[..s.dev.samples];
    assert [] + [] + out == out;
  }

  lemma {:induction false} ReadyReads(s: System)
    requires Inv(s) && Enabled(s, DeviceReads) && s.client.pc.Ready?
    ensures Inv(Step(s, DeviceReads))
  {
    hide Execute, Receive;
    IdleTaken(s.dev);
    assert s.toDev[1..] == Idles(|s.toDev| - 1);
  }

  lemma {:induction false} DeviceReadsHolds(s: System)
    requires Inv(s) && Enabled(s, DeviceReads)
    ensures Inv(Step(s, DeviceReads))
  {
    match s.client.pc
    case Ready => ReadyReads(s);
    case Setting(_, _) => SettingReads(s);
    case Arming(_) => ArmingReads(s);
    case Collecting(_) => CollectingReads(s);
    case _ => hide Execute;
  }

  /** Sending moves bytes to the channel and changes nothing else; an answer of one byte is sent at once. */
  lemma {:induction false} SendMoves(s: System)
    requires Enabled(s, DeviceSends)
    ensures var r := Step(s, DeviceSends);
      && r.toClient + Unsent(r.dev.pc) == s.toClient + Unsent(s.dev.pc)
      && r == s.(dev := s.dev.(pc := r.dev.pc), toClient := r.toClient)
      && (r.dev.pc.Put? ==> r.dev.pc.next == s.dev.pc.next && r.dev.pc.bulk == s.dev.pc.bulk)
      && (!r.dev.pc.Put? ==> r.dev.pc == if s.dev.pc.next.Loop? then Idle else Waiting(s.dev.pc.next.cmd))
      && (|s.dev.pc.out| == 1 ==> !r.dev.pc.Put? && r.toClient == s.toClient + s.dev.pc.out)
  {
    var out, k := s.dev.pc.out, SendSize(s.dev.pc);
    assert out[..k] + out[k..] == out;
    assert s.toClient + out[..k] + out[k..] == s.toClient + (out[..k] + out[k..]);
    if |out| == 1 {
      assert out[..k] == out && out[k..] == [];
    }
  }

  lemma {:induction false} DeviceSendsHolds(s: System)
    requires Inv(s) && Enabled(s, DeviceSends)
    ensures Inv(Step(s, DeviceSends))
  {
    hide Step, Send, SendSize, Verdict;
    var r := Step(s, DeviceSends);
    SendMoves(s);
    match s.client.pc
    case Collecting(got) =>
      assert got + r.toClient + Unsent(r.dev.pc) == got + (r.toClient + Unsent(r.dev.pc));
      assert got + s.toClient + Unsent(s.dev.pc) == got + (s.toClient + Unsent(s.dev.pc));
    case Arming(cmd) => assert [] + s.dev.pc.out == s.dev.pc.out;
    case _ =>
  }

  lemma {:induction false} FiresHolds(s: System, e: Event)
    requires Inv(s) && e.Fires? && Enabled(s, e)
    ensures Inv(Step(s, e))
  {
  }

  /** Every step keeps the invariant. */
  lemma {:induction false} StepHolds(s: System, e: Event)
    requires Inv(s) && Enabled(s, e)
    ensures Inv(Step(s, e))
  {
    hide Inv, Step, Enabled;
    match e
    case ClientReads => ClientReadsHolds(s);
    case ClientGivesUp => GivesUpHolds(s);
    case DeviceReads => DeviceReadsHolds(s);
    case DeviceSends => DeviceSendsHolds(s);
    case Fires(_, _) => FiresHolds(s, e);
    case _ => CallHolds(s, e);
  }

  lemma {:induction false} GivesUpHolds(s: System)
    requires Inv(s) && Enabled(s, ClientGivesUp)
    ensures Inv(Step(s, ClientGivesUp))
  {
  }

  lemma {:induction false} RunHolds(s: System, es: seq<Event>)
    requires Inv(s) && Possible(s, es)
    ensures Inv(Run(s, es))
    decreases |es|
  {
    hide Inv, Step, Enabled;
    if es != [] {
      StepHolds(s, es[0]);
      RunHolds(Step(s, es[0]), es[1..]);
    }
  }

  // ---- What follows for the library ----

  /**
   * After any run from power-on, whenever the library is between calls: nothing is on its way to it,
   * nothing is on its way to the firmware unless the sample count is zero, the firmware holds the
   * sample count, the resolution and the delay that the library last set, the count does not exceed
   * the buffer, and the samples and the verdict last returned are those of the firmware.
   */
  lemma {:induction false} BetweenCalls(es: seq<Event>)
    requires Possible(Start(), es) && Run(Start(), es).client.pc.Ready?
    ensures var s := Run(Start(), es);
      && s.toClient == [] && s.dev.pc.Idle? && Agrees(s.dev, s.client.settings) && s.dev.samples <= BUFFER == |s.dev.buf|
      && (s.toDev == [] || (s.dev.samples == 0 && forall b | b in s.toDev :: b == FETCH))
      && (s.client.returned.Some? ==> s.client.returned.value == s.dev.buf[..s.dev.samples])
      && (s.client.completed.Some? ==> s.client.completed.value == !s.dev.timedOut)
  {
    hide Run, Possible, Start;
    StartHolds();
    RunHolds(Start(), es);
  }

  lemma {:induction false} RunStep(s: System, e: Event, es: seq<Event>)
    requires Enabled(s, e) && Possible(Step(s, e), es)
    ensures Possible(s, [e] + es) && Run(s, [e] + es) == Run(Step(s, e), es)
  {
    assert ([e] + es)[1..] == es;
  }

  /** The events of a library that sets zero samples, is answered, and fetches them. */
  function ZeroFetch(): seq<Event> {
    [Asks(SetSamples(0))] + ([DeviceReads] + ([DeviceReads] + ([DeviceReads] + ([DeviceSends] + ([ClientReads] + ([Fetches] + []))))))
  }

  lemma {:induction false} ZeroTaken(s: System)
    requires s.dev.Valid() && s.dev.pc.Idle? && s.toDev == [Ascii('n'), 0, 0]
    ensures Enabled(s, DeviceReads)
    ensures var a := Step(s, DeviceReads);
      && Enabled(a, DeviceReads) && Enabled(Step(a, DeviceReads), DeviceReads)
      && Step(Step(a, DeviceReads), DeviceReads) == s.(dev := s.dev.(samples := 0, pc := Put([DONE], false, Loop)), toDev := [])
  {
    var a := Step(s, DeviceReads);
    assert a.toDev == [0, 0] && a.dev.pc == Need(Ascii('n'), []);
    var b := Step(a, DeviceReads);
    assert b.toDev == [0] && b.dev.pc == Need(Ascii('n'), [0]);
    assert Step(b, DeviceReads).toDev == [];
  }

  lemma {:induction false} ZeroAnswered(s: System)
    requires s.dev.Valid() && s.dev.pc == Put([DONE], false, Loop) && s.toDev == [] && s.toClient == []
    requires s.client.pc.Setting? && s.client.settings.samples == Some(0)
    ensures var es := [DeviceSends] + ([ClientReads] + ([Fetches] + []));
      Possible(s, es) && Run(s, es).client.pc.Ready? && Run(s, es).toDev == [FETCH]
  {
    hide Run, Possible;
    var a := Step(s, DeviceSends);
    assert a.toClient == [DONE];
    var b := Step(a, ClientReads);
    var c := Step(b, Fetches);
    assert c.toDev == [FETCH];
    RunEmpty(c);
    RunStep(b, Fetches, []);
    RunStep(a, ClientReads, [Fetches] + []);
    RunStep(s, DeviceSends, [ClientReads] + ([Fetches] + []));
  }

  /** A fetch of zero samples returns before the firmware has taken the command: the channel need not be empty then. */
  lemma {:induction false} ZeroFetchLingers()
    ensures Possible(Start(), ZeroFetch()) && Run(Start(), ZeroFetch()).client.pc.Ready? && Run(Start(), ZeroFetch()).toDev == [FETCH]
  {
    hide Run, Possible, Receive;
    var s0 := Start();
    var s1 := Step(s0, Asks(SetSamples(0)));
    assert s1.toDev == [Ascii('n'), 0, 0];
    ZeroTaken(s1);
    var s2 := Step(s1, DeviceReads);
    var s3 := Step(s2, DeviceReads);
    var s4 := Step(s3, DeviceReads);
    var es := [DeviceSends] + ([ClientReads] + ([Fetches] + []));
    ZeroAnswered(s4);
    hide Step, Enabled, Start;
    RunStep(s3, DeviceReads, es);
    RunStep(s2, DeviceReads, [DeviceReads] + es);
    RunStep(s1, DeviceReads, [DeviceReads] + ([DeviceReads] + es));
    RunStep(s0, Asks(SetSamples(0)), [DeviceReads] + ([DeviceReads] + ([DeviceReads] + es)));
  }

  lemma {:induction false} RunEmpty(s: System)
    ensures Possible(s, []) && Run(s, []) == s
  {
  }

  /** A setting is confirmed exactly when its sample count, if it is one, fits the buffer; if it does not, the firmware keeps the old one. */
  lemma {:induction false} SettingOutcome(s: System)
    requires Inv(s) && s.client.pc.Setting? && Enabled(s, ClientReads)
    ensures Step(s, ClientReads).client.pc == if Accepted(s.client.pc.call) then Ready else Failed
    ensures !Accepted(s.client.pc.call) ==> Agrees(Step(s, ClientReads).dev, s.client.pc.before)
  {
    assert (s.toClient + Unsent(s.dev.pc))[0] == s.toClient[0];
  }

  /** The library is never given anything but what it waits for: arming succeeds, and the verdict is the firmware's. */
  lemma {:induction false} ArmingOutcome(s: System)
    requires Inv(s) && Enabled(s, ClientReads)
    ensures s.client.pc.Arming? ==> Step(s, ClientReads).client.pc == Armed(s.client.pc.cmd)
    ensures s.client.pc.Completing? ==>
      Step(s, ClientReads).client.pc == Ready && Step(s, ClientReads).client.completed == Some(!s.dev.timedOut)
  {
    match s.client.pc
    case Arming(cmd) => assert s.toClient[0] == ([READY] + [Verdict(cmd, s.dev.timedOut)])[0];
    case Completing(cmd) => assert s.toClient == [Verdict(cmd, s.dev.timedOut)];
    case _ =>
  }

  /** While the library waits, something can happen other than giving up: there is no deadlock. */
  lemma {:induction false} NoDeadlock(s: System)
    requires Inv(s) && ClientWaits(s.client.pc)
    ensures Enabled(s, ClientReads) || Enabled(s, DeviceReads) || Enabled(s, DeviceSends) || Enabled(s, Fires(false, s.dev.buf[..s.dev.samples]))
  {
    match s.client.pc
    case Setting(call, before) =>
      if Asking(s, Bytes(call), before) {
        ByteTaken(s, Bytes(call), before);
      } else {
        assert |s.toClient + Unsent(s.dev.pc)| > 0;
      }
    case Arming(cmd) =>
      if Asking(s, [cmd], s.client.settings) {
        ByteTaken(s, [cmd], s.client.settings);
      }
    case Collecting(got) =>
      if Asking(s, [FETCH], s.client.settings) {
        ByteTaken(s, [FETCH], s.client.settings);
      } else {
        assert |got + s.toClient + Unsent(s.dev.pc)| == s.dev.samples;
      }
    case _ =>
  }

  /** What is left to do before both sides rest. */
  function Work(s: System): nat {
    10000 * |s.toDev| + |s.toClient|
    + match s.dev.pc
      case Put(out, _, next) => 2 * |out| + (if next.Loop? then 0 else 4)
      case Waiting(_) => 3
      case _ => 0
  }

  /** Every step that is not a new call uses up work, so every exchange comes to an end. */
  lemma {:induction false} WorkDecreases(s: System, e: Event)
    requires Enabled(s, e) && (e.ClientReads? || e.DeviceReads? || e.DeviceSends? || e.Fires?)
    ensures Work(Step(s, e)) < Work(s)
  {
    match e
    case DeviceReads =>
      hide Execute;
      assert |s.toDev[1..]| == |s.toDev| - 1;
    case DeviceSends =>
      var out, k := s.dev.pc.out, SendSize(s.dev.pc);
      assert |s.toClient + out[..k]| == |s.toClient| + k;
    case _ =>
  }
}
