/** The connection state of a teach pendant (library/src/TPComm/dn_tpcomm.c, receive_execute): what the
    application is told, and when. */
module TpState {
  import opened Bytes
  import opened Clock

  const INTERVAL := 10000  // _TPERROR_TIMEOUT and _TPLESS_INTERVAL
  const CMD_REQ_ID := 0x0EF0
  const CMD_REJ := 0x0E01
  const CMD_ACK := 0x0E02
  const CMD_NAK := 0x0E82
  const CMD_SPECIAL := 0x0FFF

  datatype Mode = Disconnect | Connect | TpLess | TpError

  /** What one call finds: the mutex cannot be taken; no pendant (CTS off); another failure; or a packet
      with its command, retry bits removed, its data, and whether the reply to it could be sent. */
  datatype Heard =
    | LockFailed
    | Denied
    | Failed
    | Packet(command: nat, data: seq<Byte>, replied: bool)

  /** What the application is told: a change the state machine has made, or a value a packet carried. */
  datatype Notice = Own(mode: Mode) | Peer(value: nat)

  /** flags.state, which is never Disconnect, and check_clock. */
  datatype State = State(mode: Mode, check: Time)

  predicate NoReply(command: nat) {
    command == CMD_REJ || command == CMD_ACK || command == CMD_NAK
  }

  /** The packet calls the state callback with its own data. */
  predicate Forwarded(h: Heard) {
    h.Packet? && h.command == CMD_SPECIAL && |h.data| == 4
  }

  /** The call ends before the state is looked at. */
  predicate Exits(h: Heard) {
    h.LockFailed? || (h.Packet? && !NoReply(h.command) && !h.replied)
  }

  /** A packet that counts as a sign of life of a connected pendant. */
  predicate Answered(h: Heard) {
    h.Packet? && !Exits(h)
  }

  /** tmp_state: where the call would go. */
  function Target(mode: Mode, h: Heard): Mode {
    match h
    case Denied => TpLess
    case Failed => TpError
    case Packet(command, _, _) => if mode == Connect || command == CMD_REQ_ID then mode else Connect
    case LockFailed => mode
  }

  /** The end of the call: the new state and what the state machine tells. */
  function Update(s: State, target: Mode, cur: Time): (State, seq<Notice>) {
    var late := TimeDiff(s.check, cur) > INTERVAL;
    match s.mode
    case Connect =>
      if target == Connect then (State(target, cur), [])
      else if target == TpLess || (target == TpError && late) then (State(target, cur), [Own(Disconnect)])
      else (s, [])
    case Disconnect => (s, [])
    case _ =>
      if target == Connect then (State(target, cur), [Own(Connect)])
      else if target != Disconnect && late then (State(target, cur), [Own(target)])
      else (s, [])
  }

  /** What a packet makes the callback hear by itself. */
  function PeerPart(h: Heard): seq<Notice> {
    if Forwarded(h) then [Peer(UnLE(h.data))] else []
  }

  /** What the state machine does. */
  function OwnPart(s: State, h: Heard, cur: Time): (r: (State, seq<Notice>))
    ensures |r.1| <= 1 && forall i :: 0 <= i < |r.1| ==> r.1[i].Own?
  {
    if Exits(h) then (s, []) else Update(s, Target(s.mode, h), cur)
  }

  function Step(s: State, h: Heard, cur: Time): (State, seq<Notice>) {
    (OwnPart(s, h, cur).0, PeerPart(h) + OwnPart(s, h, cur).1)
  }

  // ---------- runs ----------

  datatype Input = Input(heard: Heard, cur: Time)

  /** A notice and when it was given. */
  datatype Told = Told(notice: Notice, at: Time)

  function Stamp(ns: seq<Notice>, at: Time): (r: seq<Told>)
    ensures |r| == |ns|
    ensures forall i :: 0 <= i < |r| ==> r[i] == Told(ns[i], at)
  {
    seq(|ns|, i requires 0 <= i < |ns| => Told(ns[i], at))
  }

  /** The state after some calls, and everything told, when the receiving thread has started at
      `start`. */
  function Run(start: Time, inputs: seq<Input>): (State, seq<Told>) {
    if inputs == [] then (State(TpLess, start), [])
    else
      var (s, log) := Run(start, inputs[..|inputs| - 1]);
      var x := inputs[|inputs| - 1];
      var (t, told) := Step(s, x.heard, x.cur);
      (t, log + Stamp(told, x.cur))
  }

  /** What the state machine itself has told. */
  function OwnOnly(log: seq<Told>): (r: seq<Told>)
    ensures |r| <= |log|
    ensures forall i :: 0 <= i < |r| ==> r[i].notice.Own?
  {
    if log == [] then []
    else
      var x := log[|log| - 1];
      OwnOnly(log[..|log| - 1]) + (if x.notice.Own? then [x] else [])
  }

  function OwnTold(start: Time, inputs: seq<Input>): (r: seq<Told>)
    ensures forall i :: 0 <= i < |r| ==> r[i].notice.Own?
  {
    OwnOnly(Run(start, inputs).1)
  }

  lemma {:induction false} OwnOnlyAppend(a: seq<Told>, b: seq<Told>)
    ensures OwnOnly(a + b) == OwnOnly(a) + OwnOnly(b)
  {
    if b == [] {
      assert a + b == a;
    } else {
      var n := |b| - 1;
      OwnOnlyAppend(a, b[..n]);
      assert (a + b)[..|a + b| - 1] == a + b[..n];
    }
  }

  /** The last call of a run. */
  lemma RunNext(start: Time, inputs: seq<Input>)
    requires inputs != []
    ensures var n := |inputs| - 1;
            var s, x := Run(start, inputs[..n]).0, inputs[n];
            && Run(start, inputs).0 == OwnPart(s, x.heard, x.cur).0
            && Run(start, inputs).1 == Run(start, inputs[..n]).1
                                       + (Stamp(PeerPart(x.heard), x.cur) + Stamp(OwnPart(s, x.heard, x.cur).1, x.cur))
  {
    hide OwnPart, PeerPart;
    var n := |inputs| - 1;
    var s, x := Run(start, inputs[..n]).0, inputs[n];
    var peer, own := PeerPart(x.heard), OwnPart(s, x.heard, x.cur).1;
    assert Stamp(peer + own, x.cur) == Stamp(peer, x.cur) + Stamp(own, x.cur);
  }

  lemma OwnToldNext(start: Time, inputs: seq<Input>)
    requires inputs != []
    ensures var n := |inputs| - 1;
            var s, x := Run(start, inputs[..n]).0, inputs[n];
            OwnTold(start, inputs) == OwnTold(start, inputs[..n]) + Stamp(OwnPart(s, x.heard, x.cur).1, x.cur)
  {
    hide OwnPart, Run, OwnOnly, Stamp;
    RunNext(start, inputs);
    var n := |inputs| - 1;
    var s, x := Run(start, inputs[..n]).0, inputs[n];
    var peer, own := PeerPart(x.heard), OwnPart(s, x.heard, x.cur).1;
    OwnOnlyAppend(Run(start, inputs[..n]).1, Stamp(peer, x.cur) + Stamp(own, x.cur));
    OwnOnlyAppend(Stamp(peer, x.cur), Stamp(own, x.cur));
    OneStamp(peer, x.cur);
    OneStamp(own, x.cur);
  }

  lemma OneStamp(ns: seq<Notice>, at: Time)
    requires |ns| <= 1
    ensures OwnOnly(Stamp(ns, at)) == if ns != [] && ns[0].Own? then Stamp(ns, at) else []
  {
    if ns != [] {
      assert Stamp(ns, at)[..0] == [];
    }
  }

  // ---------- what the application is told ----------

  /** What the callback is called with. */
  function Value(n: Notice): nat {
    match n
    case Own(Disconnect) => 0
    case Own(Connect) => 1
    case Own(TpLess) => 2
    case Own(TpError) => 3
    case Peer(v) => v
  }

  /** The notices are a prefix of: any number of TpLess or TpError, then Connect, then Disconnect, over
      and over.  Said of each: it is a Disconnect exactly if the one before is a Connect. */
  ghost predicate Follows(log: seq<Told>) {
    forall i :: 0 <= i < |log| ==> FollowsAt(log, i)
  }

  ghost predicate FollowsAt(log: seq<Told>, i: nat)
    requires i < |log|
  {
    Value(log[i].notice) <= 3 && (Value(log[i].notice) == 0 <==> i > 0 && Value(log[i - 1].notice) == 1)
  }

  ghost predicate Up(log: seq<Told>) {
    log != [] && Value(log[|log| - 1].notice) == 1
  }

  /** When the last notice was given, or the thread started. */
  function LastAt(start: Time, log: seq<Told>): Time {
    if log == [] then start else log[|log| - 1].at
  }

  /** Every notice that there is no pendant, or an error, comes more than 10000 ms after the notice
      before it, or after the start. */
  ghost predicate Spaced(start: Time, log: seq<Told>) {
    forall i :: 0 <= i < |log| && 2 <= Value(log[i].notice) <= 3 ==>
      TimeDiff(LastAt(start, log[..i]), log[i].at) > INTERVAL
  }

  lemma FollowsNext(log: seq<Told>, x: Told)
    ensures Follows(log + [x]) <==>
              Follows(log) && Value(x.notice) <= 3 && (Value(x.notice) == 0 <==> Up(log))
    ensures Up(log + [x]) <==> Value(x.notice) == 1
  {
    hide Value;
    var r := log + [x];
    assert r[|log|] == x && forall i :: 0 <= i < |log| ==> r[i] == log[i];
    assert forall i :: 0 <= i < |log| ==> FollowsAt(r, i) == FollowsAt(log, i);
    assert FollowsAt(r, |log|) <==> Value(x.notice) <= 3 && (Value(x.notice) == 0 <==> Up(log));
  }

  lemma SpacedNext(start: Time, log: seq<Told>, x: Told)
    ensures Spaced(start, log + [x])
            <==> && Spaced(start, log)
                 && (2 <= Value(x.notice) <= 3 ==> TimeDiff(LastAt(start, log), x.at) > INTERVAL)
  {
    hide Value;
    var r := log + [x];
    assert r[..|log|] == log && r[|log|] == x;
    assert forall i :: 0 <= i < |log| ==> r[..i] == log[..i] && r[i] == log[i];
  }

  /** Over every run what the state machine tells alternates as it should, the application is told it
      is up exactly while the state is Connect, and the notices of an absent or failing pendant are
      more than 10000 ms apart, as the difference macro counts. */
  lemma {:induction false} NoticesFollow(start: Time, inputs: seq<Input>)
    ensures var s, log := Run(start, inputs).0, OwnTold(start, inputs);
            && s.mode != Disconnect
            && Follows(log) && (Up(log) <==> s.mode == Connect)
            && Spaced(start, log) && (s.mode != Connect ==> s.check == LastAt(start, log))
  {
    if inputs != [] {
      var n := |inputs| - 1;
      NoticesFollow(start, inputs[..n]);
      OwnToldNext(start, inputs);
      RunNext(start, inputs);
      hide Run, OwnTold, Stamp;
      var s, x, log := Run(start, inputs[..n]).0, inputs[n], OwnTold(start, inputs[..n]);
      FollowStep(start, s, x, log);
    } else {
    }
  }

  /** One call keeps all that. */
  lemma FollowStep(start: Time, s: State, x: Input, log: seq<Told>)
    requires s.mode != Disconnect && Follows(log) && (Up(log) <==> s.mode == Connect)
    requires Spaced(start, log) && (s.mode != Connect ==> s.check == LastAt(start, log))
    ensures var t, next := OwnPart(s, x.heard, x.cur).0, log + Stamp(OwnPart(s, x.heard, x.cur).1, x.cur);
            && t.mode != Disconnect && Follows(next) && (Up(next) <==> t.mode == Connect)
            && Spaced(start, next) && (t.mode != Connect ==> t.check == LastAt(start, next))
  {
    hide Follows, Spaced, Up;
    var own := OwnPart(s, x.heard, x.cur).1;
    if own == [] {
      assert log + Stamp(own, x.cur) == log;
    } else {
      var y := Told(own[0], x.cur);
      assert Stamp(own, x.cur) == [y];
      FollowsNext(log, y);
      SpacedNext(start, log, y);
      assert (log + [y])[|log|] == y;
    }
  }

  /** The clock does not wrap. */
  ghost predicate Ordered(start: Time, inputs: seq<Input>) {
    && (forall i :: 0 <= i < |inputs| ==> start <= inputs[i].cur)
    && (forall i, j :: 0 <= i < j < |inputs| ==> inputs[i].cur <= inputs[j].cur)
  }

  ghost predicate Sorted(start: Time, log: seq<Told>, end: Time) {
    && (forall i :: 0 <= i < |log| ==> start <= log[i].at <= end)
    && (forall i, j :: 0 <= i < j < |log| ==> log[i].at <= log[j].at)
  }

  lemma SortedNext(start: Time, log: seq<Told>, end: Time, ns: seq<Notice>, at: Time)
    requires start <= end <= at && Sorted(start, log, end)
    ensures Sorted(start, log + Stamp(ns, at), at)
  {
  }

  lemma {:induction false} ToldInOrder(start: Time, inputs: seq<Input>)
    requires Ordered(start, inputs)
    ensures Sorted(start, OwnTold(start, inputs), if inputs == [] then start else inputs[|inputs| - 1].cur)
  {
    hide Sorted;
    if inputs != [] {
      var n := |inputs| - 1;
      ToldInOrder(start, inputs[..n]);
      OwnToldNext(start, inputs);
      hide OwnTold, Run, OwnPart;
      var s, x := Run(start, inputs[..n]).0, inputs[n];
      SortedNext(start, OwnTold(start, inputs[..n]), if n == 0 then start else inputs[n - 1].cur,
                 OwnPart(s, x.heard, x.cur).1, x.cur);
    } else {
      SortedNothing(start);
    }
  }

  lemma SortedNothing(start: Time)
    ensures Sorted(start, [], start)
  {
  }

  /** On a clock that does not wrap the time between such a notice and the one before it, or the start,
      is really more than 10000 ms. */
  lemma NoticesApart(start: Time, inputs: seq<Input>, i: nat)
    requires Ordered(start, inputs) && i < |OwnTold(start, inputs)|
    requires 2 <= Value(OwnTold(start, inputs)[i].notice) <= 3
    ensures OwnTold(start, inputs)[i].at - LastAt(start, OwnTold(start, inputs)[..i]) > INTERVAL
  {
    NoticesFollow(start, inputs);
    ToldInOrder(start, inputs);
    hide OwnTold;
    var log := OwnTold(start, inputs);
    assert i > 0 ==> log[..i][i - 1] == log[i - 1];
  }

  /** The application hears the state machine alone exactly if no packet carries the internal state
      command with four bytes of data: such a packet is passed on as it is. */
  lemma {:induction false} OnlyOwnToldExactly(start: Time, inputs: seq<Input>)
    ensures (forall i :: 0 <= i < |Run(start, inputs).1| ==> Run(start, inputs).1[i].notice.Own?)
            <==> forall k :: 0 <= k < |inputs| ==> !Forwarded(inputs[k].heard)
  {
    if inputs != [] {
      var n := |inputs| - 1;
      OnlyOwnToldExactly(start, inputs[..n]);
      RunNext(start, inputs);
      hide Run, OwnPart;
      var log, all, x := Run(start, inputs[..n]).1, Run(start, inputs).1, inputs[n];
      var peer := Stamp(PeerPart(x.heard), x.cur);
      var own := Stamp(OwnPart(Run(start, inputs[..n]).0, x.heard, x.cur).1, x.cur);
      assert all == log + (peer + own);
      assert forall k :: 0 <= k < n ==> inputs[..n][k] == inputs[k];
      assert forall i :: 0 <= i < |log| ==> all[i] == log[i];
      if Forwarded(x.heard) {
        assert all[|log|] == peer[0];
      } else {
        assert all == log + own;
      }
    }
  }

  /** If no packet carries the internal state command with four bytes of data, the application hears the
      state machine alone, in order and with those pauses. */
  lemma {:induction false} HeardInOrder(start: Time, inputs: seq<Input>)
    requires forall k :: 0 <= k < |inputs| ==> !Forwarded(inputs[k].heard)
    ensures var log := Run(start, inputs).1; log == OwnTold(start, inputs) && Follows(log) && Spaced(start, log)
  {
    NoticesFollow(start, inputs);
    if inputs != [] {
      var n := |inputs| - 1;
      HeardInOrder(start, inputs[..n]);
      hide OwnPart, Follows, Spaced;
      OwnToldNext(start, inputs);
      RunNext(start, inputs);
      hide Run, OwnTold;
    } else {
    }
  }

  /** The pause before what this call makes the application hear: a forwarded 2 or 3 comes more than 10000 ms
      after whatever was heard before, and a notice of the state machine that the pendant is absent or
      failing does not come closer behind a forwarded value. */
  ghost predicate PausedAt(start: Time, inputs: seq<Input>, k: nat)
    requires k < |inputs|
  {
    var s, log, x := Run(start, inputs[..k]).0, Run(start, inputs[..k]).1, inputs[k];
    Paused(start, s, log, x)
  }

  ghost predicate Paused(start: Time, s: State, log: seq<Told>, x: Input) {
    var heard := log + Stamp(PeerPart(x.heard), x.cur);
    && (Forwarded(x.heard) && 2 <= UnLE(x.heard.data) <= 3 ==> TimeDiff(LastAt(start, log), x.cur) > INTERVAL)
    && (TellsTrouble(s, x) && heard != [] && heard[|heard| - 1].notice.Peer? ==>
          TimeDiff(LastAt(start, heard), x.cur) > INTERVAL)
  }

  predicate TellsTrouble(s: State, x: Input) {
    OwnPart(s, x.heard, x.cur).1 == [Own(TpLess)] || OwnPart(s, x.heard, x.cur).1 == [Own(TpError)]
  }

  /** When what the application hears keeps those pauses, exactly, whatever packets are forwarded: the state
      machine's own notices never come too close behind each other. */
  lemma {:induction false} HeardSpacedExactly(start: Time, inputs: seq<Input>)
    ensures Spaced(start, Run(start, inputs).1) <==> forall k :: 0 <= k < |inputs| ==> PausedAt(start, inputs, k)
  {
    if inputs != [] {
      var n := |inputs| - 1;
      HeardSpacedExactly(start, inputs[..n]);
      PausedNext(start, inputs);
      NoticesFollow(start, inputs[..n]);
      RunNext(start, inputs);
      hide Run, OwnPart, PeerPart, Stamp, Spaced, Paused, PausedAt, Follows, Up;
      SpacedStep(start, Run(start, inputs[..n]).0, Run(start, inputs[..n]).1, inputs[n]);
    }
  }

  lemma PausedNext(start: Time, inputs: seq<Input>)
    requires inputs != []
    ensures var n := |inputs| - 1;
            (forall k :: 0 <= k < |inputs| ==> PausedAt(start, inputs, k))
            <==> && (forall k :: 0 <= k < n ==> PausedAt(start, inputs[..n], k))
                 && Paused(start, Run(start, inputs[..n]).0, Run(start, inputs[..n]).1, inputs[n])
  {
    hide Run, Paused;
    var n := |inputs| - 1;
    forall k | 0 <= k < n
      ensures PausedAt(start, inputs[..n], k) <==> PausedAt(start, inputs, k)
    {
      assert inputs[..n][k] == inputs[k] && inputs[..n][..k] == inputs[..k];
    }
    assert PausedAt(start, inputs, n)
      <==> Paused(start, Run(start, inputs[..n]).0, Run(start, inputs[..n]).1, inputs[n]);
    hide PausedAt;
  }

  lemma SpacedStep(start: Time, s: State, log: seq<Told>, x: Input)
    requires s.mode != Disconnect && (s.mode != Connect ==> s.check == LastAt(start, OwnOnly(log)))
    ensures var all := log + (Stamp(PeerPart(x.heard), x.cur) + Stamp(OwnPart(s, x.heard, x.cur).1, x.cur));
            Spaced(start, all) <==> Spaced(start, log) && Paused(start, s, log, x)
  {
    var peer, own := Stamp(PeerPart(x.heard), x.cur), OwnPart(s, x.heard, x.cur).1;
    var heard := log + peer;
    OwnAfter(start, s, log, x);
    hide OwnPart, Spaced;
    assert log + (peer + Stamp(own, x.cur)) == heard + Stamp(own, x.cur);
    if Forwarded(x.heard) {
      assert peer == [Told(Peer(UnLE(x.heard.data)), x.cur)];
      SpacedNext(start, log, peer[0]);
    } else {
      assert heard == log;
    }
    if own != [] {
      assert Stamp(own, x.cur) == [Told(own[0], x.cur)];
      SpacedNext(start, heard, Told(own[0], x.cur));
    } else {
      assert heard + Stamp(own, x.cur) == heard;
    }
  }

  /** Behind a notice of its own the state machine keeps the pause. */
  lemma OwnAfter(start: Time, s: State, log: seq<Told>, x: Input)
    requires s.mode != Disconnect && (s.mode != Connect ==> s.check == LastAt(start, OwnOnly(log)))
    ensures var heard, own := log + Stamp(PeerPart(x.heard), x.cur), OwnPart(s, x.heard, x.cur).1;
            && (own != [] && 2 <= Value(own[0]) <= 3 <==> TellsTrouble(s, x))
            && (TellsTrouble(s, x) && (heard == [] || !heard[|heard| - 1].notice.Peer?) ==>
                  TimeDiff(LastAt(start, heard), x.cur) > INTERVAL)
  {
    var heard := log + Stamp(PeerPart(x.heard), x.cur);
    if Forwarded(x.heard) {
      assert heard[|heard| - 1].notice.Peer?;
    } else {
      assert heard == log;
    }
  }

  /** The forwarded values that change what the application takes for the state. */
  function Toggles(inputs: seq<Input>): nat {
    if inputs == [] then 0
    else
      var h := inputs[|inputs| - 1].heard;
      Toggles(inputs[..|inputs| - 1]) + (if Forwarded(h) && UnLE(h.data) <= 1 then 1 else 0)
  }

  predicate Odd(n: nat) {
    n % 2 == 1
  }

  /** A forwarded value fits what has been forwarded before: 0 is due after an even number of changes
      while connected and after an odd number while not, and otherwise 1, 2 or 3. */
  predicate Fits(connected: bool, odd: bool, h: Heard) {
    Forwarded(h) ==> if connected != odd then UnLE(h.data) == 0 else 1 <= UnLE(h.data) <= 3
  }

  /** Every forwarded value fits, and forwarded changes have come in pairs whenever the state machine has
      something to tell. */
  ghost predicate Harmless(start: Time, inputs: seq<Input>) {
    forall k :: 0 <= k < |inputs| ==> HarmlessAt(start, inputs, k)
  }

  ghost predicate HarmlessAt(start: Time, inputs: seq<Input>, k: nat)
    requires k < |inputs|
  {
    var s, x := Run(start, inputs[..k]).0, inputs[k];
    && Fits(s.mode == Connect, Odd(Toggles(inputs[..k])), x.heard)
    && (OwnPart(s, x.heard, x.cur).1 != [] ==> !Odd(Toggles(inputs[..k + 1])))
  }

  /** After an orderly log the application takes the pendant for connected exactly if it is, but for an odd
      number of forwarded changes. */
  ghost predicate InStep(log: seq<Told>, connected: bool, toggles: nat) {
    Follows(log) ==> (Up(log) <==> connected != Odd(toggles))
  }

  lemma NothingInStep()
    ensures InStep([], false, 0)
  {
  }

  /** When what the application hears keeps the order, exactly, whatever packets are forwarded. */
  lemma {:induction false} HeardInOrderExactly(start: Time, inputs: seq<Input>)
    ensures var s, log := Run(start, inputs).0, Run(start, inputs).1;
            && (Follows(log) <==> Harmless(start, inputs))
            && InStep(log, s.mode == Connect, Toggles(inputs))
  {
    hide InStep;
    if inputs == [] {
      NothingInStep();
    } else {
      var n := |inputs| - 1;
      HeardInOrderExactly(start, inputs[..n]);
      HarmlessNext(start, inputs);
      RunNext(start, inputs);
      NeverDisconnect(start, inputs[..n]);
      hide Run, Follows, Harmless, Odd, Up, Toggles, Fits, PeerPart, OwnPart, Stamp, Forwarded;
      OrderStep(Run(start, inputs[..n]).1, Run(start, inputs[..n]).0, Toggles(inputs[..n]), inputs[n]);
    }
  }

  lemma NeverDisconnect(start: Time, inputs: seq<Input>)
    ensures Run(start, inputs).0.mode != Disconnect
  {
    NoticesFollow(start, inputs);
  }

  /** One call, forwarded value and own notice. */
  lemma OrderStep(log: seq<Told>, s: State, toggles: nat, x: Input)
    requires s.mode != Disconnect && InStep(log, s.mode == Connect, toggles)
    ensures var t, own := OwnPart(s, x.heard, x.cur).0, OwnPart(s, x.heard, x.cur).1;
            var next := log + (Stamp(PeerPart(x.heard), x.cur) + Stamp(own, x.cur));
            var more := toggles + (if Forwarded(x.heard) && UnLE(x.heard.data) <= 1 then 1 else 0);
            && (Follows(next) <==>
                  && Follows(log) && Fits(s.mode == Connect, Odd(toggles), x.heard)
                  && (own != [] ==> !Odd(more)))
            && InStep(next, t.mode == Connect, more)
  {
    hide Follows, InStep, Odd, Fits, PeerPart, OwnPart, Stamp, UnLE;
    var peer, own := Stamp(PeerPart(x.heard), x.cur), Stamp(OwnPart(s, x.heard, x.cur).1, x.cur);
    var more := toggles + (if Forwarded(x.heard) && UnLE(x.heard.data) <= 1 then 1 else 0);
    PeerStep(log, s.mode == Connect, toggles, x);
    OwnStep(log + peer, s, more, x);
    assert log + (peer + own) == (log + peer) + own;
  }

  lemma HarmlessNext(start: Time, inputs: seq<Input>)
    requires inputs != []
    ensures var n := |inputs| - 1;
            var s, x := Run(start, inputs[..n]).0, inputs[n];
            Harmless(start, inputs) <==>
              && Harmless(start, inputs[..n])
              && Fits(s.mode == Connect, Odd(Toggles(inputs[..n])), x.heard)
              && (OwnPart(s, x.heard, x.cur).1 != [] ==> !Odd(Toggles(inputs)))
  {
    hide Run, OwnPart, Toggles, Fits, Odd;
    var n := |inputs| - 1;
    assert inputs[..n + 1] == inputs;
    assert HarmlessAt(start, inputs, n) <==>
      && Fits(Run(start, inputs[..n]).0.mode == Connect, Odd(Toggles(inputs[..n])), inputs[n].heard)
      && (OwnPart(Run(start, inputs[..n]).0, inputs[n].heard, inputs[n].cur).1 != [] ==> !Odd(Toggles(inputs)));
    forall k | 0 <= k < n
      ensures HarmlessAt(start, inputs[..n], k) <==> HarmlessAt(start, inputs, k)
    {
      assert inputs[..n][k] == inputs[k] && inputs[..n][..k] == inputs[..k];
      assert inputs[..n][..k + 1] == inputs[..k + 1];
    }
    hide HarmlessAt;
  }

  /** What a forwarded value does to the order. */
  lemma PeerStep(log: seq<Told>, connected: bool, toggles: nat, x: Input)
    requires InStep(log, connected, toggles)
    ensures var next := log + Stamp(PeerPart(x.heard), x.cur);
            var more := toggles + (if Forwarded(x.heard) && UnLE(x.heard.data) <= 1 then 1 else 0);
            && (Follows(next) <==> Follows(log) && Fits(connected, Odd(toggles), x.heard))
            && InStep(next, connected, more)
  {
    hide Follows, Up, UnLE;
    if Forwarded(x.heard) {
      var y := Told(Peer(UnLE(x.heard.data)), x.cur);
      assert Stamp(PeerPart(x.heard), x.cur) == [y];
      FollowsNext(log, y);
    } else {
      assert log + Stamp(PeerPart(x.heard), x.cur) == log;
    }
  }

  /** What a notice of the state machine does to it. */
  lemma OwnStep(log: seq<Told>, s: State, toggles: nat, x: Input)
    requires s.mode != Disconnect && InStep(log, s.mode == Connect, toggles)
    ensures var t, own := OwnPart(s, x.heard, x.cur).0, OwnPart(s, x.heard, x.cur).1;
            var next := log + Stamp(own, x.cur);
            && (Follows(next) <==> Follows(log) && (own != [] ==> !Odd(toggles)))
            && InStep(next, t.mode == Connect, toggles)
  {
    hide Follows, Up, Odd;
    var own := OwnPart(s, x.heard, x.cur).1;
    if own == [] {
      assert log + Stamp(own, x.cur) == log;
    } else {
      var y := Told(own[0], x.cur);
      assert Stamp(own, x.cur) == [y];
      FollowsNext(log, y);
    }
  }

  /** With such a packet from a connected pendant the application hears Connect twice in a row. */
  lemma ConnectToldTwice()
    ensures var hello := Input(Packet(0x0C00, [], true), 1);
            var special := Input(Packet(CMD_SPECIAL, [1, 0, 0, 0], true), 2);
            Run(0, [hello, special]).1 == [Told(Own(Connect), 1), Told(Peer(1), 2)]
  {
    var hello := Input(Packet(0x0C00, [], true), 1);
    var special := Input(Packet(CMD_SPECIAL, [1, 0, 0, 0], true), 2);
    assert [hello, special][..1] == [hello] && [hello][..0] == [];
    assert Run(0, []) == (State(TpLess, 0), []);
    RunNext(0, [hello]);
    RunNext(0, [hello, special]);
    assert OwnPart(State(TpLess, 0), hello.heard, 1) == (State(Connect, 1), [Own(Connect)]);
    assert Stamp([Own(Connect)], 1) == [Told(Own(Connect), 1)];
    assert Run(0, [hello]).1 == [Told(Own(Connect), 1)];
    assert [1, 0, 0, 0][1..] == [0, 0, 0] && [0, 0, 0][1..] == [0, 0] && [0, 0][1..] == [0];
    assert UnLE([0]) == 0 by { assert [0][1..] == []; }
    assert UnLE([1, 0, 0, 0]) == 1;
    assert Stamp([Peer(1)], 2) == [Told(Peer(1), 2)];
  }

  // ---------- when a connection is given up ----------

  /** The last packet that counted is number k, and it came at this time. */
  ghost predicate LastAnswer(inputs: seq<Input>, k: nat, at: Time) {
    && k < |inputs| && Answered(inputs[k].heard) && inputs[k].cur == at
    && forall j :: k < j < |inputs| ==> !Answered(inputs[j].heard)
  }

  /** While connected, check_clock is the time of the last packet that counted. */
  lemma {:induction false} CheckIsLastAnswer(start: Time, inputs: seq<Input>) returns (k: nat)
    requires Run(start, inputs).0.mode == Connect
    ensures LastAnswer(inputs, k, Run(start, inputs).0.check)
  {
    var n := |inputs| - 1;
    if inputs == [] {
      assert false;
    }
    var s, x := Run(start, inputs[..n]).0, inputs[n];
    NoticesFollow(start, inputs[..n]);
    RunNext(start, inputs);
    AnswerStep(s, x);
    hide Run, Follows, Spaced, OwnTold, OwnPart, Answered, LastAnswer;
    if Answered(x.heard) {
      k := n;
    } else {
      k := CheckIsLastAnswer(start, inputs[..n]);
    }
    LastAnswerNext(inputs, k, Run(start, inputs).0.check);
  }

  lemma LastAnswerNext(inputs: seq<Input>, k: nat, at: Time)
    requires inputs != []
    requires var n := |inputs| - 1;
             if Answered(inputs[n].heard) then k == n && inputs[n].cur == at else LastAnswer(inputs[..n], k, at)
    ensures LastAnswer(inputs, k, at)
  {
    hide Answered;
    var n := |inputs| - 1;
    assert forall j :: 0 <= j < n ==> inputs[..n][j] == inputs[j];
  }

  lemma AnswerStep(s: State, x: Input)
    requires s.mode != Disconnect && OwnPart(s, x.heard, x.cur).0.mode == Connect
    ensures if Answered(x.heard) then OwnPart(s, x.heard, x.cur).0.check == x.cur
            else OwnPart(s, x.heard, x.cur).0 == s
  {
  }

  /** What one more call makes the application hear and where the state goes, exactly, by what the call finds and
      when the state machine told something last or, while connected, heard a packet that counts. */
  lemma ToldExactly(start: Time, inputs: seq<Input>, x: Input)
    ensures var s, h := Run(start, inputs).0, x.heard;
            var late := TimeDiff(if s.mode == Connect then s.check else LastAt(start, OwnTold(start, inputs)), x.cur)
                        > 10000;
            var silent := h.Packet? && (h.command == 0x0E01 || h.command == 0x0E02 || h.command == 0x0E82);
            var counts := h.Packet? && (silent || h.replied);
            var t, told := OwnPart(s, h, x.cur).0, OwnPart(s, h, x.cur).1;
            && PeerPart(h) == (if h.Packet? && h.command == 0x0FFF && |h.data| == 4 then [Peer(UnLE(h.data))] else [])
            && (h.LockFailed? || (h.Packet? && !counts) ==> t == s && told == [])
            && (h.Denied? && s.mode == Connect ==> t == State(TpLess, x.cur) && told == [Own(Disconnect)])
            && (h.Failed? && s.mode == Connect ==>
                  if late then t == State(TpError, x.cur) && told == [Own(Disconnect)] else t == s && told == [])
            && (counts && s.mode == Connect ==> t == State(Connect, x.cur) && told == [])
            && (h.Denied? && s.mode != Connect ==>
                  if late then t == State(TpLess, x.cur) && told == [Own(TpLess)] else t == s && told == [])
            && (h.Failed? && s.mode != Connect ==>
                  if late then t == State(TpError, x.cur) && told == [Own(TpError)] else t == s && told == [])
            && (counts && s.mode != Connect && h.command != 0x0EF0 ==>
                  t == State(Connect, x.cur) && told == [Own(Connect)])
            && (counts && s.mode != Connect && h.command == 0x0EF0 ==>
                  if late then t == State(s.mode, x.cur) && told == [Own(s.mode)] else t == s && told == [])
  {
    NoticesFollow(start, inputs);
    hide Run, OwnTold, Follows, Spaced;
  }

  /** On a clock that does not wrap, a connected pendant is given up at a failed receive exactly if no
      packet that counts has come in the last 10000 ms; without CTS it is given up at once. */
  lemma GivenUpExactly(start: Time, inputs: seq<Input>, x: Input)
    requires Ordered(start, inputs + [x]) && Run(start, inputs).0.mode == Connect
    ensures x.heard.Failed? ==>
              (Step(Run(start, inputs).0, x.heard, x.cur).1 == [Own(Disconnect)]
               <==> forall k :: 0 <= k < |inputs| && Answered(inputs[k].heard) ==> x.cur - inputs[k].cur > INTERVAL)
    ensures x.heard.Denied? ==> Step(Run(start, inputs).0, x.heard, x.cur).1 == [Own(Disconnect)]
  {
    var k := CheckIsLastAnswer(start, inputs);
    var s := Run(start, inputs).0;
    hide Run, Step, Answered;
    OrderedInit(start, inputs, x);
    forall j | 0 <= j < |inputs| && Answered(inputs[j].heard)
      ensures inputs[j].cur <= s.check
    {
      assert j < k || j == k;
    }
  }

  lemma OrderedInit(start: Time, inputs: seq<Input>, x: Input)
    requires Ordered(start, inputs + [x])
    ensures forall k :: 0 <= k < |inputs| ==> inputs[k].cur <= x.cur
    ensures forall j, k :: 0 <= j < k < |inputs| ==> inputs[j].cur <= inputs[k].cur
  {
    var all := inputs + [x];
    assert all[|inputs|] == x && forall k :: 0 <= k < |inputs| ==> all[k] == inputs[k];
  }

  // ---------- receive_execute ----------

  class Pendant {
    var mode: Mode
    var checkClock: Time

    constructor (now: Time)
      ensures Now() == State(TpLess, now)
    {
      mode, checkClock := TpLess, now;
    }

    function Now(): State
      reads this
    {
      State(mode, checkClock)
    }

    /** receive_execute, given what tp_recv brings and whether the reply can be sent; it returns what
        the state callback is called with. */
    method ReceiveExecute(heard: Heard, cur: Time) returns (told: seq<Notice>)
      modifies this
      ensures (Now(), told) == Step(old(Now()), heard, cur)
    {
      told := [];
      var tmp := mode;
      match heard {
        case LockFailed =>
          assert told + [] == told;
          return;
        case Denied =>
          tmp := TpLess;
        case Failed =>
          tmp := TpError;
        case Packet(command, data, replied) =>
          if !NoReply(command) {
            if command == CMD_SPECIAL && |data| == 4 {
              told := [Peer(UnLE(data))];
            }
            if !replied {
              assert told + [] == told;
              return;
            }
          }
          if tmp != Connect && command != CMD_REQ_ID {
            tmp := Connect;
          }
      }
      var diff := TimeDiff(checkClock, cur);
      match mode {
        case Connect =>
          if tmp == Connect {
            mode, checkClock := tmp, cur;
          } else if tmp == TpLess {
            told := told + [Own(Disconnect)];
            mode, checkClock := tmp, cur;
          } else if tmp == TpError && diff > INTERVAL {
            told := told + [Own(Disconnect)];
            mode, checkClock := tmp, cur;
          }
        case Disconnect =>
        case _ =>
          if tmp == Connect {
            told := told + [Own(Connect)];
            mode, checkClock := tmp, cur;
          } else if tmp != Disconnect && diff > INTERVAL {
            told := told + [Own(tmp)];
            mode, checkClock := tmp, cur;
          }
      }
      assert told + [] == told;
    }
  }
}
