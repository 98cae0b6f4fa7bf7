/** What the library returns, in terms of what happened: the samples of the last trigger and its verdict. */
module ScopeTrace {
  import opened Memory
  import opened Options
  import opened ScopeProtocol
  import opened ScopeAgreement

  /** What was sampled last when an armed scope fired, and whether the last trigger of any kind timed out. */
  datatype History = History(sampled: Option<seq<Octet>>, expired: Option<bool>)

  function Noted(h: History, s: System, e: Event): History
    requires Enabled(s, e)
  {
    if !e.Fires? then h
    else History(if s.dev.pc.cmd == ARM then Some(e.sampled) else h.sampled, Some(e.timedOut))
  }

  /** The history of a run. */
  function Past(s: System, es: seq<Event>, h: History): History
    requires Possible(s, es)
    decreases |es|
  {
    if es == [] then h else Past(Step(s, es[0]), es[1..], Noted(h, s, es[0]))
  }

  /** The sample buffer after a trigger: the samples and then zeros. At power-on it holds the letter U. */
  function BufferOf(sampled: Option<seq<Octet>>): seq<Octet> {
    match sampled
    case None => seq(BUFFER, i => Ascii('U'))
    case Some(x) => if |x| <= BUFFER then x + seq(BUFFER - |x|, i => 0) else x
  }

  /** The scope has been armed and has not fired. */
  predicate Pending(pc: DevicePc) {
    (pc.Put? && pc.next.Trigger? && pc.next.cmd == ARM) || (pc.Waiting? && pc.cmd == ARM)
  }

  predicate Recalls(d: Device, h: History) {
    && d.buf == (if Pending(d.pc) then seq(BUFFER, i => 0) else BufferOf(h.sampled))
    && d.timedOut == (h.expired == Some(true))
  }

  lemma {:induction false} FireRecalls(d: Device, h: History, timedOut: bool, sampled: seq<Octet>)
    requires d.Valid() && d.pc.Waiting? && |sampled| == d.samples && Recalls(d, h)
    ensures Recalls(Fire(d, timedOut, sampled), History(if d.pc.cmd == ARM then Some(sampled) else h.sampled, Some(timedOut)))
  {
    if d.pc.cmd == ARM {
      assert d.buf[d.samples..] == seq(BUFFER - |sampled|, i => 0);
    }
  }

  lemma {:induction false} AdjustRecalls(d: Device, cmd: Octet, args: seq<Octet>)
    requires d.Valid() && |args| == Arguments(cmd) && (cmd == Ascii('n') ==> Short(args) <= BUFFER)
    ensures Adjust(d, cmd, args).buf == d.buf && Adjust(d, cmd, args).timedOut == d.timedOut
  {
  }

  /** Arming clears the buffer, and nothing else a command does changes it. */
  lemma {:induction false} ExecuteRecalls(d: Device, cmd: Octet, args: seq<Octet>)
    requires d.Valid() && |args| == Arguments(cmd)
    ensures var r := Execute(d, cmd, args);
      && r.buf == (if cmd == ARM then seq(BUFFER, i => 0) else d.buf) && r.timedOut == d.timedOut
      && (Pending(r.pc) <==> cmd == ARM)
  {
    hide Adjust, Short;
    if Arguments(cmd) > 0 || cmd == Ascii('x') || cmd == Ascii('y') {
      if !(cmd == Ascii('n') && Short(args) > BUFFER) {
        AdjustRecalls(d, cmd, args);
      }
    }
  }

  lemma {:induction false} ReceiveRecalls(d: Device, h: History, b: Octet)
    requires d.Valid() && (d.pc.Idle? || d.pc.Need?) && Recalls(d, h)
    ensures Recalls(Receive(d, b), h)
  {
    hide BufferOf, Execute, Arguments;
    var cmd := if d.pc.Idle? then b else d.pc.cmd;
    var args := if d.pc.Idle? then [] else d.pc.got + [b];
    if |args| == Arguments(cmd) {
      ExecuteRecalls(d, cmd, args);
    }
  }

  lemma {:induction false} StepRecalls(s: System, e: Event, h: History)
    requires Enabled(s, e) && Recalls(s.dev, h)
    ensures Recalls(Step(s, e).dev, Noted(h, s, e))
  {
    match e
    case Fires(timedOut, sampled) =>
      hide Recalls, Fire;
      FireRecalls(s.dev, h, timedOut, sampled);
    case DeviceReads =>
      hide Recalls, Receive;
      ReceiveRecalls(s.dev, h, s.toDev[0]);
    case DeviceSends => hide BufferOf;
    case _ =>
  }

  lemma {:induction false} RunRecalls(s: System, es: seq<Event>, h: History)
    requires Possible(s, es) && Recalls(s.dev, h)
    ensures Recalls(Run(s, es).dev, Past(s, es, h))
    decreases |es|
  {
    hide Recalls, Step, Enabled, Noted;
    if es != [] {
      StepRecalls(s, es[0], h);
      RunRecalls(Step(s, es[0]), es[1..], Noted(h, s, es[0]));
    }
  }

  /**
   * After any run from power-on, the samples that a call returned are those of the last time the scope
   * fired, cut or filled with zeros to the sample count; and a trigger completed exactly when the last
   * one did not time out.
   */
  lemma {:induction false} ReturnsLastTrace(es: seq<Event>)
    requires Possible(Start(), es) && Run(Start(), es).client.pc.Ready?
    ensures var s, h := Run(Start(), es), Past(Start(), es, History(None, None));
      && (s.client.returned.Some? ==> |s.client.returned.value| == s.dev.samples && s.client.returned.value <= BufferOf(h.sampled))
      && (s.client.completed.Some? ==> s.client.completed.value == (h.expired != Some(true)))
  {
    var h := History(None, None);
    assert Recalls(Start().dev, h);
    hide Run, Possible, Past, BufferOf, Start;
    RunRecalls(Start(), es, h);
    BetweenCalls(es);
  }
}
