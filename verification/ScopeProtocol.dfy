/**
 * The command protocol between the host library and the oscilloscope firmware: two processes that
 * take steps in any order, and a byte channel in either direction.
 */
module ScopeProtocol {
  import opened Memory
  import opened Options

  const BUFFER: nat := 3584
  /** The firmware sends the sample buffer in pieces of one byte less than an endpoint. */
  const CHUNK: nat := 63

  function Ascii(c: char): Octet
    requires c < 128 as char
  {
    c as int
  }

  const DONE: Octet := 'd' as int
  const READY: Octet := 'r' as int
  const EXPIRED: Octet := 'e' as int
  const FETCH: Octet := 's' as int
  const ARM: Octet := 'd' as int
  const GLITCH: Octet := 'h' as int
  const FAULT: Octet := 'f' as int

  /** The text "Buffer too big" and a line end. */
  const TOO_BIG: seq<Octet> :=
    [0x42, 0x75, 0x66, 0x66, 0x65, 0x72, 0x20, 0x74, 0x6F, 0x6F, 0x20, 0x62, 0x69, 0x67, 0x0D, 0x0A]

  /** The text "Invalid command:". */
  const INVALID: seq<Octet> :=
    [0x49, 0x6E, 0x76, 0x61, 0x6C, 0x69, 0x64, 0x20, 0x63, 0x6F, 0x6D, 0x6D, 0x61, 0x6E, 0x64, 0x3A]

  // ---- The firmware ----

  /** What the firmware does once its answer is out. */
  datatype Next = Loop | Trigger(cmd: Octet)

  /** Waiting for a command, for its arguments, for room to send, or for the trigger. */
  datatype DevicePc = Idle | Need(cmd: Octet, got: seq<Octet>) | Put(out: seq<Octet>, bulk: bool, next: Next) | Waiting(cmd: Octet)

  datatype Device = Device(pc: DevicePc, samples: nat, delay: nat, bits12: bool, pulses: nat, timeout: nat, glitch: nat,
                           power: bool, clock: nat, bias: nat, gain: nat, buf: seq<Octet>, timedOut: bool) {
    predicate Valid() {
      && samples <= BUFFER && |buf| == BUFFER
      && (pc.Need? ==> |pc.got| < Arguments(pc.cmd))
      && (pc.Put? ==> 0 < |pc.out| <= BUFFER)
    }

    /** The answer to send, and what follows it. */
    function Finish(out: seq<Octet>, bulk: bool, next: Next): (r: Device)
      requires Valid() && |out| <= BUFFER
      ensures r.Valid() && r == this.(pc := r.pc)
    {
      this.(pc := After(out, bulk, next))
    }
  }

  function After(out: seq<Octet>, bulk: bool, next: Next): DevicePc {
    if out != [] then Put(out, bulk, next) else if next.Loop? then Idle else Waiting(next.cmd)
  }

  /** The number of argument bytes of a command. */
  function Arguments(cmd: Octet): nat {
    var c := cmd as char;
    if c == 'n' || c == 'b' || c == 'w' || c == 'l' || c == 'e' then 2
    else if c == 'g' || c == 'c' || c == '8' || c == 'p' then 1
    else 0
  }

  function Short(args: seq<Octet>): nat
    requires |args| == 2
  {
    var high: int, low: int := args[0], args[1];
    256 * high + low
  }

  /** A gain is OR-ed into the bits above the lowest two of the channel register, which is never cleared. */
  function AddGain(register: nat, gain: nat): (r: nat)
    ensures r < 256
  {
    assert Power2(8) == 256;
    Or(register, gain * 4 % 256, 8)
  }

  /** The settings of the firmware and of its converter. */
  function Adjust(d: Device, cmd: Octet, args: seq<Octet>): (r: Device)
    requires d.Valid() && |args| == Arguments(cmd) && (cmd == Ascii('n') ==> Short(args) <= BUFFER)
    ensures r.Valid() && r.pc == d.pc
  {
    var c := cmd as char;
    if c == 'n' then d.(samples := Short(args))
    else if c == '8' then d.(bits12 := args[0] as int % 2 == 1)
    else if c == 'w' then d.(delay := Short(args))
    else if c == 'l' then d.(glitch := Short(args) % 256)
    else if c == 'e' then d.(timeout := Short(args))
    else if c == 'p' then d.(pulses := args[0])
    else if c == 'x' || c == 'y' then d.(power := c == 'y')
    else if c == 'c' then d.(clock := args[0] as int % 8)
    else if c == 'b' then d.(bias := Short(args))
    else if c == 'g' then d.(gain := AddGain(d.gain, args[0]))
    else d
  }

  /** A command with all its arguments. */
  function Execute(d: Device, cmd: Octet, args: seq<Octet>): (r: Device)
    requires d.Valid() && |args| == Arguments(cmd)
    ensures r.Valid()
  {
    var c := cmd as char;
    if c == 'T' || c == 't' then d.Finish([Ascii('T')], false, Loop)
    else if cmd == ARM then d.(buf := seq(BUFFER, i => 0)).Finish([READY], false, Trigger(cmd))
    else if cmd == FAULT || cmd == GLITCH then d.Finish([READY], false, Trigger(cmd))
    else if cmd == FETCH then d.Finish(d.buf[..d.samples], true, Loop)
    else if Arguments(cmd) > 0 || c == 'x' || c == 'y' then
      if c == 'n' && Short(args) > BUFFER then d.Finish(TOO_BIG, false, Loop)
      else Adjust(d, cmd, args).Finish([DONE], false, Loop)
    else d.Finish(INVALID + [cmd] + [0x0D, 0x0A], false, Loop)
  }

  /** A byte from the host. */
  function Receive(d: Device, b: Octet): (r: Device)
    requires d.Valid() && (d.pc.Idle? || d.pc.Need?)
    ensures r.Valid()
  {
    var cmd := if d.pc.Idle? then b else d.pc.cmd;
    var args := if d.pc.Idle? then [] else d.pc.got + [b];
    if |args| == Arguments(cmd) then Execute(d, cmd, args) else d.(pc := Need(cmd, args))
  }

  /** How much of its answer the firmware sends at once. */
  function SendSize(pc: DevicePc): (k: nat)
    requires pc.Put? && |pc.out| > 0
    ensures 0 < k <= |pc.out|
  {
    if !pc.bulk then 1 else if |pc.out| < CHUNK then |pc.out| else CHUNK
  }

  function Send(d: Device): (r: Device)
    requires d.Valid() && d.pc.Put?
    ensures r.Valid()
  {
    d.Finish(d.pc.out[SendSize(d.pc)..], d.pc.bulk, d.pc.next)
  }

  function Verdict(cmd: Octet, timedOut: bool): Octet {
    if timedOut == (cmd == FAULT) then DONE else EXPIRED
  }

  /** The trigger comes or times out; an armed scope then samples. */
  function Fire(d: Device, timedOut: bool, sampled: seq<Octet>): (r: Device)
    requires d.Valid() && d.pc.Waiting? && |sampled| == d.samples
    ensures r.Valid()
  {
    var e := if d.pc.cmd == ARM then d.(buf := sampled + d.buf[d.samples..]) else d;
    e.(timedOut := timedOut).Finish([Verdict(d.pc.cmd, timedOut)], false, Loop)
  }

  // ---- The host library ----

  /** The settings the library has made; none before its first call of the kind. Of the gains, all of them together. */
  datatype Settings = Settings(samples: Option<nat>, bits12: Option<bool>, delay: Option<nat>, pulses: Option<nat>,
                               glitch: Option<nat>, power: Option<bool>, clock: Option<nat>, bias: Option<nat>, gain: nat)

  datatype Call =
    | SetSamples(n: nat) | Set12Bits(on: bool) | SetDelay(n: nat) | SetBias(n: nat) | SetSpeed(n: nat) | SetGain(n: nat)
    | SetPulses(n: nat) | SetGlitchLength(n: nat) | PowerOn | PowerOff

  /** The ranges the library asserts. */
  predicate Allowed(c: Call) {
    match c
    case SetSamples(n) => n <= 0xFFFF
    case SetDelay(n) => n <= 0xFFFF
    case SetBias(n) => n <= 0xFFFF
    case SetSpeed(n) => n <= 0xFF
    case SetGain(n) => n <= 0xFF
    case SetPulses(n) => n < 0xFF
    case SetGlitchLength(n) => n < 0xFFFF
    case _ => true
  }

  function Bytes(c: Call): (s: seq<Octet>)
    requires Allowed(c)
    ensures |s| > 0 && |s| == 1 + Arguments(s[0])
  {
    match c
    case SetSamples(n) => [Ascii('n'), n / 256, n % 256]
    case Set12Bits(on) => [Ascii('8'), if on then 1 else 0]
    case SetDelay(n) => [Ascii('w'), n / 256, n % 256]
    case SetBias(n) => [Ascii('b'), n / 256, n % 256]
    case SetSpeed(n) => [Ascii('c'), n]
    case SetGain(n) => [Ascii('g'), n]
    case SetPulses(n) => [Ascii('p'), n]
    case SetGlitchLength(n) => [Ascii('l'), n / 256, n % 256]
    case PowerOn => [Ascii('y')]
    case PowerOff => [Ascii('x')]
  }

  function Set(t: Settings, c: Call): Settings {
    match c
    case SetSamples(n) => t.(samples := Some(n))
    case Set12Bits(on) => t.(bits12 := Some(on))
    case SetDelay(n) => t.(delay := Some(n))
    case SetPulses(n) => t.(pulses := Some(n))
    case SetGlitchLength(n) => t.(glitch := Some(n))
    case PowerOn => t.(power := Some(true))
    case PowerOff => t.(power := Some(false))
    case SetSpeed(n) => t.(clock := Some(n))
    case SetBias(n) => t.(bias := Some(n))
    case SetGain(n) => t.(gain := AddGain(t.gain, n))
  }

  /**
   * Between calls; waiting for the answer to a setting; waiting to be told that the scope or the
   * glitcher is armed; armed; waiting for its verdict; collecting samples; or given up.
   */
  datatype ClientPc = Ready | Setting(call: Call, before: Settings) | Arming(cmd: Octet) | Armed(cmd: Octet) | Completing(cmd: Octet)
                    | Collecting(got: seq<Octet>) | Failed

  /** The library, with the samples and the verdict its last call returned. */
  datatype Client = Client(pc: ClientPc, settings: Settings, returned: Option<seq<Octet>>, completed: Option<bool>)

  /** A byte from the firmware. */
  function Take(c: Client, b: Octet): Client
    requires c.pc.Collecting? ==> c.settings.samples.Some?
  {
    match c.pc
    case Setting(_, _) => c.(pc := if b == DONE then Ready else Failed)
    case Arming(cmd) => c.(pc := if b == READY then Armed(cmd) else Failed)
    case Completing(_) => if b == DONE || b == EXPIRED then c.(pc := Ready, completed := Some(b == DONE)) else c.(pc := Failed)
    case Collecting(got) =>
      if |got| + 1 == c.settings.samples.value then c.(pc := Ready, returned := Some(got + [b])) else c.(pc := Collecting(got + [b]))
    case _ => c
  }

  // ---- Both, with the channels ----

  datatype System = System(dev: Device, client: Client, toDev: seq<Octet>, toClient: seq<Octet>)

  datatype Event =
    | Asks(call: Call) | Arms(cmd: Octet) | Awaits | Fetches
    | ClientReads | ClientGivesUp | DeviceReads | DeviceSends | Fires(timedOut: bool, sampled: seq<Octet>)

  predicate ClientWaits(pc: ClientPc) {
    pc.Setting? || pc.Arming? || pc.Completing? || pc.Collecting?
  }

  predicate Enabled(s: System, e: Event) {
    s.dev.Valid() &&
    match e
    case Asks(call) => s.client.pc.Ready? && Allowed(call)
    case Arms(cmd) => s.client.pc.Ready? && (cmd == ARM || cmd == GLITCH)
    case Awaits => s.client.pc.Armed?
    case Fetches => s.client.pc.Ready? && s.client.settings.samples.Some?
    case ClientReads => ClientWaits(s.client.pc) && s.toClient != [] && (s.client.pc.Collecting? ==> s.client.settings.samples.Some?)
    case ClientGivesUp => ClientWaits(s.client.pc)
    case DeviceReads => (s.dev.pc.Idle? || s.dev.pc.Need?) && s.toDev != []
    case DeviceSends => s.dev.pc.Put?
    case Fires(_, sampled) => s.dev.pc.Waiting? && |sampled| == s.dev.samples
  }

  /** A call starts with nothing returned. */
  function Called(c: Client, pc: ClientPc): Client {
    c.(pc := pc, returned := None, completed := None)
  }

  function Step(s: System, e: Event): (r: System)
    requires Enabled(s, e)
    ensures r.dev.Valid()
  {
    match e
    case Asks(call) =>
      s.(client := Called(s.client, Setting(call, s.client.settings)).(settings := Set(s.client.settings, call)), toDev := s.toDev + Bytes(call))
    case Arms(cmd) => s.(client := Called(s.client, Arming(cmd)), toDev := s.toDev + [cmd])
    case Awaits => s.(client := Called(s.client, Completing(s.client.pc.cmd)))
    case Fetches =>
      var c := if s.client.settings.samples.value == 0 then Called(s.client, Ready).(returned := Some([])) else Called(s.client, Collecting([]));
      s.(client := c, toDev := s.toDev + [FETCH])
    case ClientReads => s.(client := Take(s.client, s.toClient[0]), toClient := s.toClient[1..])
    case ClientGivesUp => s.(client := s.client.(pc := Failed))
    case DeviceReads => s.(dev := Receive(s.dev, s.toDev[0]), toDev := s.toDev[1..])
    case DeviceSends => s.(dev := Send(s.dev), toClient := s.toClient + s.dev.pc.out[..SendSize(s.dev.pc)])
    case Fires(timedOut, sampled) => s.(dev := Fire(s.dev, timedOut, sampled))
  }

  predicate Possible(s: System, es: seq<Event>)
    decreases |es|
  {
    es == [] || (Enabled(s, es[0]) && Possible(Step(s, es[0]), es[1..]))
  }

  function Run(s: System, es: seq<Event>): System
    requires Possible(s, es)
    decreases |es|
  {
    if es == [] then s else Run(Step(s, es[0]), es[1..])
  }

  /** Power-on: the firmware's defaults, and a library that has set nothing yet. */
  function Start(): System {
    System(Device(Idle, BUFFER, 0, true, 1, 40000, 0, true, 0, 0, 0, seq(BUFFER, i => Ascii('U')), false),
           Client(Ready, Settings(None, None, None, None, None, None, None, None, 0), None, None), [], [])
  }
}
