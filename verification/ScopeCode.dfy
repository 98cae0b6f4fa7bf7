/** The firmware's command loop as it runs, one command at a time, and how it refines the small steps of the protocol. */
module ScopeCode {
  import opened Memory
  import opened ScopeProtocol

  /** The rest of a command once it has been read: its answer, and for an armed scope the trigger and the verdict. */
  function Complete(d: Device, timedOut: bool, sampled: seq<Octet>): (r: (Device, seq<Octet>))
    requires d.Valid() && !d.pc.Need? && !d.pc.Waiting? && |sampled| == BUFFER
    ensures r.0.Valid() && r.0.pc.Idle?
  {
    if d.pc.Idle? then (d, [])
    else if d.pc.next.Loop? then (d.(pc := Idle), d.pc.out)
    else
      var f := Fire(d.(pc := Waiting(d.pc.next.cmd)), timedOut, sampled[..d.samples]);
      (f.(pc := Idle), d.pc.out + f.pc.out)
  }

  /** A whole command, from its first byte to the next command. */
  function Turn(d: Device, cmd: Octet, args: seq<Octet>, timedOut: bool, sampled: seq<Octet>): (r: (Device, seq<Octet>))
    requires d.Valid() && d.pc.Idle? && |args| == Arguments(cmd) && |sampled| == BUFFER
    ensures r.0.Valid() && r.0.pc.Idle?
  {
    Complete(Execute(d, cmd, args), timedOut, sampled)
  }

  lemma {:induction false} TurnOfTrigger(d: Device, cmd: Octet, timedOut: bool, sampled: seq<Octet>)
    requires d.Valid() && d.pc.Idle? && |sampled| == BUFFER && (cmd == ARM || cmd == GLITCH || cmd == FAULT)
    ensures var buf := if cmd == ARM then sampled[..d.samples] + seq(BUFFER, i => 0)[d.samples..] else d.buf;
      Turn(d, cmd, [], timedOut, sampled) == (d.(buf := buf, timedOut := timedOut), [READY] + [Verdict(cmd, timedOut)])
  {
  }

  lemma {:induction false} TurnOfFetch(d: Device, timedOut: bool, sampled: seq<Octet>)
    requires d.Valid() && d.pc.Idle? && |sampled| == BUFFER
    ensures Turn(d, FETCH, [], timedOut, sampled) == (d, d.buf[..d.samples])
  {
  }

  lemma {:induction false} TurnOfSetting(d: Device, cmd: Octet, args: seq<Octet>, timedOut: bool, sampled: seq<Octet>)
    requires d.Valid() && d.pc.Idle? && |sampled| == BUFFER && |args| == Arguments(cmd)
    requires Arguments(cmd) > 0 || cmd == Ascii('x') || cmd == Ascii('y')
    ensures Turn(d, cmd, args, timedOut, sampled)
      == if cmd == Ascii('n') && Short(args) > BUFFER then (d, TOO_BIG) else (Adjust(d, cmd, args), [DONE])
  {
    hide Short, Adjust, Execute;
    SettingExecuted(d, cmd, args);
  }

  /** The timeout command, which the library never sends, sets the timeout and nothing else. */
  lemma {:induction false} TimeoutTaken(d: Device, n: nat, timedOut: bool, sampled: seq<Octet>)
    requires d.Valid() && d.pc.Idle? && |sampled| == BUFFER && n < 65536
    ensures Turn(d, Ascii('e'), [n / 256, n % 256], timedOut, sampled) == (d.(timeout := n), [DONE])
  {
    TurnOfSetting(d, Ascii('e'), [n / 256, n % 256], timedOut, sampled);
  }

  lemma {:induction false} SettingExecuted(d: Device, cmd: Octet, args: seq<Octet>)
    requires d.Valid() && |args| == Arguments(cmd) && (Arguments(cmd) > 0 || cmd == Ascii('x') || cmd == Ascii('y'))
    ensures Execute(d, cmd, args)
      == if cmd == Ascii('n') && Short(args) > BUFFER then d.(pc := Put(TOO_BIG, false, Loop))
         else Adjust(d, cmd, args).(pc := Put([DONE], false, Loop))
  {
    hide Short, Adjust;
  }

  lemma {:induction false} TurnOfOther(d: Device, cmd: Octet, timedOut: bool, sampled: seq<Octet>)
    requires d.Valid() && d.pc.Idle? && |sampled| == BUFFER && Arguments(cmd) == 0
    requires cmd != ARM && cmd != GLITCH && cmd != FAULT && cmd != FETCH && cmd != Ascii('x') && cmd != Ascii('y')
    ensures Turn(d, cmd, [], timedOut, sampled)
      == (d, if cmd == Ascii('T') || cmd == Ascii('t') then [Ascii('T')] else INVALID + [cmd] + [0x0D, 0x0A])
  {
  }

  /** The number of sends that an answer takes. */
  function Sends(pc: DevicePc): nat
    requires pc.Put?
    decreases |pc.out|
  {
    if pc.out == [] then 0 else 1 + Sends(pc.(out := pc.out[SendSize(pc)..]))
  }

  /** That many sends of the protocol put the whole answer in the channel, piece after piece. */
  lemma {:induction false} AnswerSent(s: System)
    requires s.dev.Valid() && s.dev.pc.Put?
    ensures var es := seq(Sends(s.dev.pc), i => DeviceSends);
      && Possible(s, es)
      && Run(s, es) == s.(dev := s.dev.(pc := After([], s.dev.pc.bulk, s.dev.pc.next)), toClient := s.toClient + s.dev.pc.out)
    decreases |s.dev.pc.out|
  {
    hide SendSize;
    var out, k, n := s.dev.pc.out, SendSize(s.dev.pc), Sends(s.dev.pc);
    var es := seq(n, i => DeviceSends);
    var r := Step(s, DeviceSends);
    assert es[1..] == seq(n - 1, i => DeviceSends);
    if out[k..] == [] {
      assert out[..k] == out && n == 1;
      assert es[1..] == [];
    } else {
      AnswerSent(r);
      assert s.toClient + out[..k] + out[k..] == s.toClient + out;
    }
  }

  class Firmware {
    var samples: nat
    var delay: nat
    var bits12: bool
    var pulses: nat
    var timeout: nat
    var glitch: nat
    var power: bool
    var clock: nat
    var bias: nat
    var gain: nat
    var buf: seq<Octet>
    var timedOut: bool
    var input: seq<Octet>
    var output: seq<Octet>

    /** The firmware between two commands. */
    ghost function State(): Device
      reads this
    {
      Device(Idle, samples, delay, bits12, pulses, timeout, glitch, power, clock, bias, gain, buf, timedOut)
    }

    constructor ()
      ensures State() == Start().dev && input == [] && output == []
    {
      samples, delay, bits12, pulses, timeout, glitch, power, timedOut := BUFFER, 0, true, 1, 40000, 0, true, false;
      clock, bias, gain := 0, 0, 0;
      buf := seq(BUFFER, i => Ascii('U'));
      input, output := [], [];
    }

    method GetChar() returns (b: Octet)
      requires input != []
      modifies `input
      ensures b == old(input)[0] && input == old(input)[1..]
    {
      b := input[0];
      input := input[1..];
    }

    method GetShort() returns (v: nat)
      requires |input| >= 2
      modifies `input
      ensures v == Short(old(input)[..2]) && input == old(input)[2..]
    {
      var high: int := GetChar();
      var low: int := GetChar();
      v := 256 * high + low;
    }

    method PutChar(b: Octet)
      modifies `output
      ensures output == old(output) + [b]
    {
      output := output + [b];
    }

    method PutString(text: seq<Octet>)
      modifies `output
      ensures output == old(output) + text
    {
      var i: nat := 0;
      assert text[..0] == [];
      while i < |text|
        invariant i <= |text| && output == old(output) + text[..i]
      {
        PutChar(text[i]);
        assert text[..i + 1] == text[..i] + [text[i]];
        i := i + 1;
      }
      assert text[..|text|] == text;
    }

    /** Sends the first bytes of a buffer in pieces that fit an endpoint with one byte to spare. */
    method PutBuf(bytes: seq<Octet>, length: nat) returns (pieces: seq<nat>)
      requires length <= |bytes|
      modifies `output
      ensures output == old(output) + bytes[..length]
      ensures |pieces| == (length + CHUNK - 1) / CHUNK && forall p | p in pieces :: 0 < p <= CHUNK
    {
      pieces := [];
      var at: nat, left: nat := 0, length;
      assert bytes[..0] == [];
      while left > 0
        invariant at + left == length && output == old(output) + bytes[..at]
        invariant left > 0 ==> at == CHUNK * |pieces|
        invariant left == 0 ==> |pieces| == (length + CHUNK - 1) / CHUNK
        invariant forall p | p in pieces :: 0 < p <= CHUNK
      {
        var k := if left < CHUNK then left else CHUNK;
        assert bytes[..at + k] == bytes[..at] + bytes[at..at + k];
        output := output + bytes[at..at + k];
        pieces := pieces + [k];
        at, left := at + k, left - k;
      }
    }

    /** One turn of the command loop; the trigger and the converter give their results when asked. */
    method Command(expired: bool, sampled: seq<Octet>)
      requires State().Valid() && input != [] && |input| >= 1 + Arguments(input[0]) && |sampled| == BUFFER
      modifies this
      ensures var n := Arguments(old(input)[0]);
        var turn := Turn(old(State()), old(input)[0], old(input)[1..1 + n], expired, sampled);
        State() == turn.0 && State().Valid() && output == old(output) + turn.1 && input == old(input)[1 + n..]
    {
      hide Turn, Execute, Adjust;
      ghost var d, n := State(), Arguments(input[0]);
      ghost var rest := input[1..];
      assert rest[..n] == input[1..1 + n] && rest[n..] == input[1 + n..];
      var cmd := GetChar();
      var c := cmd as char;
      if cmd == ARM || cmd == FAULT || cmd == GLITCH {
        TurnOfTrigger(d, cmd, expired, sampled);
        Trigger(cmd, expired, sampled);
      } else if cmd == FETCH {
        TurnOfFetch(d, expired, sampled);
        var pieces := PutBuf(buf, samples);
      } else if Arguments(cmd) > 0 || c == 'x' || c == 'y' {
        TurnOfSetting(d, cmd, rest[..n], expired, sampled);
        Configure(cmd);
      } else {
        TurnOfOther(d, cmd, expired, sampled);
        if c == 'T' || c == 't' {
          PutChar(Ascii('T'));
        } else {
          PutString(INVALID);
          PutChar(cmd);
          PutString([0x0D, 0x0A]);
        }
      }
    }

    /** The commands that change a setting. */
    method Configure(cmd: Octet)
      requires State().Valid() && |input| >= Arguments(cmd) && (Arguments(cmd) > 0 || cmd == Ascii('x') || cmd == Ascii('y'))
      modifies this
      ensures input == old(input)[Arguments(cmd)..]
      ensures var args := old(input)[..Arguments(cmd)];
        if cmd == Ascii('n') && Short(args) > BUFFER then State() == old(State()) && output == old(output) + TOO_BIG
        else State() == Adjust(old(State()), cmd, args) && output == old(output) + [DONE]
    {
      var c := cmd as char;
      if c == 'n' {
        var v := GetShort();
        if v > BUFFER {
          PutString(TOO_BIG);
          return;
        }
        samples := v;
      } else if c == 'w' || c == 'l' || c == 'e' || c == 'b' {
        SetShort(cmd);
      } else if c == '8' || c == 'p' || c == 'g' || c == 'c' {
        SetByte(cmd);
      } else {
        power := c == 'y';
      }
      PutChar(DONE);
    }

    method SetShort(cmd: Octet)
      requires State().Valid() && |input| >= 2 && (cmd == Ascii('w') || cmd == Ascii('l') || cmd == Ascii('e') || cmd == Ascii('b'))
      modifies `input, `delay, `glitch, `timeout, `bias
      ensures input == old(input)[2..] && State() == Adjust(old(State()), cmd, old(input)[..2])
    {
      var v := GetShort();
      if cmd == Ascii('w') {
        delay := v;
      } else if cmd == Ascii('l') {
        glitch := v % 256;
      } else if cmd == Ascii('e') {
        timeout := v;
      } else {
        bias := v;
      }
    }

    method SetByte(cmd: Octet)
      requires State().Valid() && |input| >= 1 && (cmd == Ascii('8') || cmd == Ascii('p') || cmd == Ascii('g') || cmd == Ascii('c'))
      modifies `input, `bits12, `pulses, `clock, `gain
      ensures input == old(input)[1..] && State() == Adjust(old(State()), cmd, old(input)[..1])
    {
      hide AddGain;
      var v: int := GetChar();
      if cmd == Ascii('8') {
        bits12 := v % 2 == 1;
      } else if cmd == Ascii('p') {
        pulses := v;
      } else if cmd == Ascii('c') {
        clock := v % 8;
      } else {
        gain := AddGain(gain, v);
      }
    }

    /** Arming: announce it, wait for the trigger, sample if this is the scope, and report. */
    method Trigger(cmd: Octet, expired: bool, sampled: seq<Octet>)
      requires State().Valid() && |sampled| == BUFFER
      modifies `buf, `timedOut, `output
      ensures var b := if cmd == ARM then sampled[..samples] + seq(BUFFER, i => 0)[samples..] else old(buf);
        State() == old(State()).(buf := b, timedOut := expired)
      ensures output == old(output) + ([READY] + [Verdict(cmd, expired)])
    {
      if cmd == ARM {
        buf := seq(BUFFER, i => 0);
      }
      PutChar(READY);
      timedOut := expired;
      if cmd == ARM {
        buf := sampled[..samples] + buf[samples..];
      }
      PutChar(Verdict(cmd, timedOut));
    }
  }
}
