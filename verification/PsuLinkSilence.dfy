/** What the power supply link does when the power supply falls silent and nothing more is queued. */
module PsuLinkSilence {
  import opened Bytes
  import opened PsuLink
  import opened PsuLinkRuns
  import Robotalk

  // It comes to rest, by a measure that every silent cycle lowers, from every state but one kind, and each
  // queued command has then been sent eight times.

  /** `n` cycles in which nothing is received. */
  function Silence(s: State, n: nat): State {
    if n == 0 then s else Cycle(Silence(s, n - 1), [])
  }

  lemma {:induction false} SilenceAppend(s: State, m: nat, n: nat)
    ensures Silence(Silence(s, m), n) == Silence(s, m + n)
  {
    hide Cycle;
    if n > 0 { SilenceAppend(s, m, n - 1); }
  }

  /** What holds of the control in every reachable state. */
  predicate Sound(c: Control) {
    StackOrder(c) && Phases(c)
  }

  lemma CycleKeepsSound(s: State, rx: seq<Byte>)
    requires Sound(s.c)
    ensures Sound(Cycle(s, rx).c)
  {
    StepKeepsOrder(s, Tick(rx));
    CycleKeepsPhases(s, rx);
  }

  lemma {:induction false} AlwaysSound(inputs: seq<Input>)
    ensures Sound(Run(Initial(), inputs).c)
  {
    if inputs != [] {
      var s, i := Run(Initial(), inputs[..|inputs| - 1]), inputs[|inputs| - 1];
      AlwaysSound(inputs[..|inputs| - 1]);
      match i {
        case Submit(d) =>
        case SubmitSync(d) =>
        case Tick(rx) => CycleKeepsSound(s, rx);
      }
    }
  }

  /** At rest: nothing queued either way, nothing saved, neither sending nor receiving, and free to
      take the next command. */
  predicate Idle(s: State) {
    && s.sendQ == [] && s.recvQ == [] && s.c.stack == []
    && !s.c.sending && !s.c.receiving && !s.c.noDequeue
  }

  /** In the middle of a frame that is no longer wanted: the command was given up while its frame
      was being sent, and there is no other command to take. */
  predicate Stuck(s: State) {
    s.c.sending && s.c.comm.mode.Queue? && !s.c.noDequeue && s.sendQ == []
  }

  lemma IdleStays(s: State)
    requires Idle(s) && Sound(s.c)
    ensures Cycle(s, []) == Wake(s) && Idle(Cycle(s, []))
  {
  }

  lemma StuckStays(s: State)
    requires Stuck(s) && Sound(s.c)
    ensures Cycle(s, []) == Wake(s) && Stuck(Cycle(s, []))
  {
  }

  // ---------- the measure ----------

  /** How often the current packet is still to be sent. */
  function Attempts(c: Control): nat {
    if c.comm.mode.Ack? || (c.comm.mode.Queue? && !c.noDequeue) then 0
    else if c.comm.retry < RETRY_LIMIT - 1 then RETRY_LIMIT - c.comm.retry
    else 1
  }

  /** How far the current attempt still has to go: start, send, wait. */
  function Distance(c: Control): nat {
    var waiting := 200 - if c.timeout < TIMEOUT_LIMIT then c.timeout else TIMEOUT_LIMIT;
    if c.receiving then waiting
    else if c.comm.mode.Queue? && !c.noDequeue then 0
    else if c.sending then (if c.sendPos <= 32 then 332 - c.sendPos else 300)
    else 400
  }

  datatype Measure = Measure(received: nat, saved: nat, queued: nat, attempts: nat, distance: nat)

  function MeasureOf(s: State): Measure {
    Measure(|s.recvQ|, |s.c.stack|, |s.sendQ|, Attempts(s.c), Distance(s.c))
  }

  /** The last four components, in lexicographic order. */
  predicate LowerSend(m: Measure, n: Measure) {
    || m.saved < n.saved
    || (m.saved == n.saved && m.queued < n.queued)
    || (m.saved == n.saved && m.queued == n.queued && m.attempts < n.attempts)
    || (m.saved == n.saved && m.queued == n.queued && m.attempts == n.attempts && m.distance < n.distance)
  }

  predicate Lower(m: Measure, n: Measure) {
    m.received < n.received || (m.received == n.received && LowerSend(m, n))
  }

  /** Beginning or continuing a frame lowers the distance. */
  lemma TransmitLowers(s: State)
    requires Sound(s.c) && !s.c.receiving
    requires s.c.comm.mode.Queue? ==> s.c.noDequeue
    ensures var t := Receive(Transmit(s), []);
            LowerSend(MeasureOf(t), MeasureOf(s)) && t.recvQ == s.recvQ
  {
    var t := Transmit(s);
    if s.c.sendPos < Size(Current(s)) {
      assert Receive(t, []) == t;
    } else {
      assert CheckRetry(t.c) == t.c.(timeout := 1);
    }
  }

  lemma TakeLowers(s: State)
    requires Sound(s.c) && WantsCommand(s) && s.sendQ != []
    ensures var t := Receive(SetSend(s), []);
            LowerSend(MeasureOf(t), MeasureOf(s)) && t.recvQ == s.recvQ
  {
    var t := Take(Wake(s));
    TransmitLowers(t);
    assert t.c.stack == s.c.stack && |t.sendQ| < |s.sendQ|;
  }

  /** The send half of a silent cycle lowers its part of the measure, unless there is nothing to
      send. */
  lemma SendHalfLowers(s: State)
    requires Sound(s.c) && !(WantsCommand(s) && s.sendQ == [])
    ensures var t := Receive(SetSend(s), []);
            LowerSend(MeasureOf(t), MeasureOf(s)) && t.recvQ == s.recvQ
  {
    if s.c.receiving {
    } else if WantsCommand(s) {
      TakeLowers(s);
    } else {
      TransmitLowers(s);
    }
  }

  /** Every silent cycle of a link that is neither at rest nor stuck lowers the measure. */
  lemma SilenceMakesProgress(s: State)
    requires Sound(s.c) && !Idle(s) && !Stuck(s)
    ensures Lower(MeasureOf(Cycle(s, [])), MeasureOf(s))
    ensures Sound(Cycle(s, []).c) && !Stuck(Cycle(s, []))
  {
    hide Dispatch, Transmit, Take, GetRecvAll, CheckRetry;
    CycleKeepsSound(s, []);
    var t := Receive(SetSend(s), []);
    if WantsCommand(s) && s.sendQ == [] {
      assert t == Wake(s);
      assert s.recvQ != [];
      DispatchNotSending(t);
    } else {
      SendHalfLowers(s);
      if !t.c.sending && t.recvQ != [] {
        SendHalfKeepsSound(s);
        DispatchNotSending(t);
      } else {
        NotStuckAfter(s);
      }
    }
  }

  lemma SendHalfKeepsSound(s: State)
    requires Sound(s.c)
    ensures Sound(Receive(SetSend(s), []).c)
  {
    hide SetSend, CheckRetry;
    SetSendKeepsOrder(s);
    SetSendKeepsPhases(s);
    CheckRetryKeepsOrder(SetSend(s).c);
    CheckRetryKeepsPhases(SetSend(s).c);
  }

  lemma DispatchNotSending(s: State)
    requires Sound(s.c) && !s.c.sending && s.recvQ != []
    ensures !DispatchNext(s).c.sending && |DispatchNext(s).recvQ| == |s.recvQ| - 1
  {
    var t := RecvDequeue(s);
    ReactKeepsPhases(t.c, Classify(t.dispatch, t.sendData.packet));
  }

  /** A frame that is being sent is wanted, or was not begun by this cycle. */
  lemma NotStuckAfter(s: State)
    requires Sound(s.c) && !(WantsCommand(s) && s.sendQ == [])
    ensures !Stuck(Receive(SetSend(s), []))
  {
    if s.c.receiving {
      CheckRetryKeepsPhases(s.c);
    } else if WantsCommand(s) {
      var t := Transmit(Take(Wake(s)));
      assert t.c.receiving ==> CheckRetry(t.c) == t.c.(timeout := 1);
    } else {
      var t := Transmit(s);
      assert t.c.receiving ==> CheckRetry(t.c) == t.c.(timeout := 1);
    }
  }

  /** The link comes to rest after finitely many silent cycles. */
  lemma {:induction false} ComesToRest(s: State) returns (n: nat)
    requires Sound(s.c) && !Stuck(s)
    ensures Idle(Silence(s, n))
    decreases |s.recvQ|, |s.c.stack|, |s.sendQ|, Attempts(s.c), Distance(s.c)
  {
    if Idle(s) {
      n := 0;
    } else {
      SilenceMakesProgress(s);
      n := ComesToRest(Cycle(s, []));
      SilenceAppend(s, 1, n);
      assert Silence(s, 1) == Cycle(s, []);
      n := 1 + n;
    }
  }

  lemma {:induction false} StaysStuck(s: State, n: nat)
    requires Sound(s.c) && Stuck(s)
    ensures Stuck(Silence(s, n)) && Sound(Silence(s, n).c) && Silence(s, n).h == s.h
  {
    hide Cycle;
    if n > 0 {
      StaysStuck(s, n - 1);
      StuckStays(Silence(s, n - 1));
      CycleKeepsSound(Silence(s, n - 1), []);
    }
  }

  /** Silence brings a reachable link to rest if and only if it is not stuck when the silence
      begins.  A stuck link never rests and sends nothing. */
  lemma SilenceBringsRestExactly(inputs: seq<Input>)
    ensures var s := Run(Initial(), inputs);
            (exists n: nat :: Idle(Silence(s, n))) <==> !Stuck(s)
  {
    hide Cycle, Step, Run, Initial;
    var s := Run(Initial(), inputs);
    AlwaysSound(inputs);
    if Stuck(s) {
      forall n: nat
        ensures !Idle(Silence(s, n))
      {
        StaysStuck(s, n);
      }
    } else {
      var n := ComesToRest(s);
      assert Idle(Silence(s, n));
    }
  }

  /** While no out-of-frame byte arrives the link is never stuck, so silence always brings rest. */
  lemma InFrameNeverStuck(inputs: seq<Input>)
    requires Proper(inputs) && InFrame(Initial().a, Received(inputs))
    ensures exists n: nat :: Idle(Silence(Run(Initial(), inputs), n))
  {
    hide Cycle, Step, Run, Initial;
    WireKept(inputs);
    SilenceBringsRestExactly(inputs);
  }

  // ---------- eight times ----------

  /** The frames of a command from its `r`-th resend on: the marks of all earlier attempts stay
      or-ed into the command field. */
  function Resends(p: Packet, r: nat): seq<seq<Byte>>
    decreases RETRY_LIMIT - r
  {
    if r >= RETRY_LIMIT then []
    else
      var q := Seal(Marked(p, r));
      [Frame(q)] + Resends(q, r + 1)
  }

  function AllResends(queue: seq<CommData>): seq<seq<Byte>> {
    if queue == [] then [] else Resends(queue[0].packet, 0) + AllResends(queue[1..])
  }

  /** `f` carries the command `p`: the same frame up to the retry marks in the third and fourth
      byte, with a right checksum. */
  predicate Carries(f: seq<Byte>, p: Packet) {
    && Robotalk.Accepts(f)
    && |f| == Size(p)
    && f[..2] == p[..2] && f[4..|f| - 2] == p[4..|f| - 2]
  }

  lemma MarkedCarries(p: Packet, r: nat)
    requires p[0] == ENQ
    ensures Carries(Frame(Seal(Marked(p, r))), p)
  {
    var q := Seal(Marked(p, r));
    SealSeals(Marked(p, r));
    ChecksAgree(q);
    assert Frame(q)[..2] == q[..2];
    assert Frame(q)[4..|Frame(q)| - 2] == q[4..|Frame(q)| - 2];
  }

  /** Each command accounts for exactly eight frames, all of them carrying it. */
  lemma {:induction false} EightFrames(p: Packet, r: nat)
    requires p[0] == ENQ && r <= RETRY_LIMIT
    ensures |Resends(p, r)| == RETRY_LIMIT - r
    ensures forall i :: 0 <= i < |Resends(p, r)| ==> Carries(Resends(p, r)[i], p)
    decreases RETRY_LIMIT - r
  {
    hide Seal, Marked, Carries;
    if r < RETRY_LIMIT {
      var q := Seal(Marked(p, r));
      MarkedCarries(p, r);
      EightFrames(q, r + 1);
      var rest := Resends(q, r + 1);
      forall i | 0 <= i < |rest|
        ensures Carries(rest[i], p)
      {
        CarriesSame(rest[i], q, p);
      }
    }
  }

  lemma CarriesSame(f: seq<Byte>, q: Packet, p: Packet)
    requires Carries(f, q) && Carries(Frame(q), p)
    ensures Carries(f, p)
  {
    assert Frame(q)[..2] == q[..2];
    assert Frame(q)[4..|f| - 2] == q[4..|f| - 2];
  }

  /** At the start of the attempt number `r` of the command in hand, nothing being received. */
  predicate Ready(s: State, r: nat) {
    && s.recvQ == [] && s.c.stack == [] && s.c.comm.mode.Queue? && s.c.comm.retry == r
    && s.c.noDequeue && !s.c.sending && !s.c.receiving && s.c.sendPos == 0
  }

  /** The command in hand is being sent and `n` bytes of it have left. */
  predicate Sending(s: State, p: Packet, r: nat, n: nat) {
    && s.recvQ == [] && s.c.stack == [] && s.c.comm.mode.Queue? && s.c.comm.retry == r
    && s.c.noDequeue && s.c.sending && !s.c.receiving && s.c.sendPos == n
    && 1 <= n <= Size(p) && s.sendData.packet == p
  }

  /** The command in hand has been sent and the wait for an answer has lasted `n` cycles. */
  predicate Waiting(s: State, r: nat, n: nat) {
    && s.recvQ == [] && s.c.stack == [] && s.c.comm.mode.Queue? && s.c.comm.retry == r
    && s.c.noDequeue && !s.c.sending && s.c.receiving && s.c.sendPos == 0
    && s.c.timeout == n && 1 <= n < TIMEOUT_LIMIT
  }

  /** What a silent stretch leaves alone. */
  predicate SameRest(s: State, t: State) {
    t.sendQ == s.sendQ && t.a == s.a && t.syncWait == s.syncWait
  }

  lemma FirstByte(s: State, r: nat)
    requires Ready(s, r)
    ensures var t := Cycle(s, []);
            && Sending(t, Seal(Marked(s.sendData.packet, r)), r, 1)
            && SameRest(s, t) && t.h.frames == s.h.frames
  {
    hide Seal, Marked;
    SealSeals(Marked(s.sendData.packet, r));
  }

  lemma NextByte(s: State, p: Packet, r: nat, n: nat)
    requires Sending(s, p, r, n) && n < Size(p)
    ensures var t := Cycle(s, []);
            Sending(t, p, r, n + 1) && SameRest(s, t) && t.h.frames == s.h.frames
  {
    hide Seal, Marked;
  }

  lemma LastByte(s: State, p: Packet, r: nat)
    requires Sending(s, p, r, Size(p))
    ensures var t := Cycle(s, []);
            && Waiting(t, r, 1) && SameRest(s, t)
            && t.h.frames == s.h.frames + [Frame(p)] && t.sendData == s.sendData
  {
    hide Seal, Marked;
  }

  lemma NextWait(s: State, r: nat, n: nat)
    requires Waiting(s, r, n) && n + 1 < TIMEOUT_LIMIT
    ensures var t := Cycle(s, []);
            && Waiting(t, r, n + 1) && SameRest(s, t)
            && t.h.frames == s.h.frames && t.sendData == s.sendData
  {
  }

  /** The link has given up or is ready for the next attempt. */
  predicate Retries(s: State, r: nat) {
    if r < RETRY_LIMIT then Ready(s, r)
    else WantsCommand(s) && !s.c.sending && s.recvQ == [] && s.c.stack == [] && s.c.sendPos == 0
  }

  lemma LastWait(s: State, r: nat)
    requires Waiting(s, r, TIMEOUT_LIMIT - 1)
    ensures var t := Cycle(s, []);
            && Retries(t, r + 1) && SameRest(s, t) && t.h.frames == s.h.frames
            && t.sendData == s.sendData && t.c.timeout == TIMEOUT_LIMIT
  {
  }

  lemma {:induction false} AllBytes(s: State, p: Packet, r: nat, n: nat)
    requires Sending(s, p, r, n)
    ensures var t := Silence(s, Size(p) - n + 1);
            && Waiting(t, r, 1) && SameRest(s, t)
            && t.h.frames == s.h.frames + [Frame(p)] && t.sendData.packet == p
    decreases Size(p) - n
  {
    hide Cycle;
    SilenceAppend(s, 1, Size(p) - n);
    assert Silence(s, 1) == Cycle(Silence(s, 0), []);
    if n == Size(p) {
      LastByte(s, p, r);
    } else {
      NextByte(s, p, r, n);
      AllBytes(Cycle(s, []), p, r, n + 1);
    }
  }

  lemma {:induction false} AllWaits(s: State, r: nat, n: nat)
    requires Waiting(s, r, n)
    ensures var t := Silence(s, TIMEOUT_LIMIT - n);
            && Retries(t, r + 1) && SameRest(s, t) && t.h.frames == s.h.frames
            && t.sendData == s.sendData && t.c.timeout == TIMEOUT_LIMIT
    decreases TIMEOUT_LIMIT - n
  {
    hide Cycle;
    SilenceAppend(s, 1, TIMEOUT_LIMIT - n - 1);
    assert Silence(s, 1) == Cycle(Silence(s, 0), []);
    if n + 1 == TIMEOUT_LIMIT {
      LastWait(s, r);
    } else {
      NextWait(s, r, n);
      AllWaits(Cycle(s, []), r, n + 1);
    }
  }

  /** One attempt takes as many cycles as the frame has bytes and 160 more. */
  lemma OneAttempt(s: State, r: nat)
    requires Ready(s, r)
    ensures var q := Seal(Marked(s.sendData.packet, r));
            var t := Silence(s, Size(q) + TIMEOUT_LIMIT);
            && Retries(t, r + 1) && SameRest(s, t) && t.sendData.packet == q
            && t.h.frames == s.h.frames + [Frame(q)] && t.c.timeout == TIMEOUT_LIMIT
  {
    hide Cycle, Seal, Marked;
    var q := Seal(Marked(s.sendData.packet, r));
    FirstByte(s, r);
    var t := Cycle(s, []);
    assert Silence(s, 1) == Cycle(Silence(s, 0), []);
    AllBytes(t, q, r, 1);
    var u := Silence(t, Size(q));
    AllWaits(u, r, 1);
    SilenceAppend(t, Size(q), TIMEOUT_LIMIT - 1);
    SilenceAppend(s, 1, Size(q) + TIMEOUT_LIMIT - 1);
  }

  lemma {:induction false} AllAttempts(s: State, r: nat) returns (n: nat)
    requires Ready(s, r) && r < RETRY_LIMIT
    ensures n >= 1
    ensures var t := Silence(s, n);
            && Retries(t, RETRY_LIMIT) && t.sendQ == s.sendQ
            && t.h.frames == s.h.frames + Resends(s.sendData.packet, r)
    decreases RETRY_LIMIT - r
  {
    hide Cycle, Seal, Marked, Silence, Ready, WantsCommand, Resends;
    OneAttempt(s, r);
    var q := Seal(Marked(s.sendData.packet, r));
    n := Size(q) + TIMEOUT_LIMIT;
    var t := Silence(s, n);
    ResendsNext(s.sendData.packet, r);
    if r + 1 < RETRY_LIMIT {
      var m := AllAttempts(t, r + 1);
      SilenceAppend(s, n, m);
      assert (s.h.frames + [Frame(q)]) + Resends(q, r + 1) == s.h.frames + ([Frame(q)] + Resends(q, r + 1));
      n := n + m;
    }
  }

  lemma ResendsNext(p: Packet, r: nat)
    requires r < RETRY_LIMIT
    ensures var q := Seal(Marked(p, r));
            Resends(p, r) == [Frame(q)] + Resends(q, r + 1) && (r + 1 == RETRY_LIMIT ==> Resends(q, r + 1) == [])
  {
    hide Seal, Marked;
  }

  /** Taking a command and sending its first byte is one cycle. */
  lemma {:induction false} TakeFirst(s: State, n: nat)
    requires WantsCommand(s) && s.sendQ != [] && !s.c.sending && n >= 1
    ensures Silence(s, n) == Silence(Take(Wake(s)), n)
  {
    hide Cycle, Take, WantsCommand;
    if n == 1 {
      assert Silence(s, n - 1) == s;
      assert Silence(Take(Wake(s)), n - 1) == Take(Wake(s));
      TakeIsSilent(s);
    } else {
      TakeFirst(s, n - 1);
    }
  }

  lemma TakeIsSilent(s: State)
    requires WantsCommand(s) && s.sendQ != [] && !s.c.sending
    ensures Cycle(s, []) == Cycle(Take(Wake(s)), [])
  {
    hide Transmit, DispatchNext, Receive;
  }

  /** From rest with any commands queued, silence ends at rest, and meanwhile exactly eight frames
      have gone out for each command, command by command. */
  lemma {:induction false} EachCommandEightTimes(s: State) returns (n: nat)
    requires Retries(s, RETRY_LIMIT)
    ensures Idle(Silence(s, n))
    ensures Silence(s, n).h.frames == s.h.frames + AllResends(s.sendQ)
    decreases |s.sendQ|
  {
    hide Cycle, Seal, Marked, Resends;
    if s.sendQ == [] {
      n := 0;
    } else {
      var t := Take(Wake(s));
      assert Ready(t, 0);
      var m := AllAttempts(t, 0);
      TakeFirst(s, m);
      var u := Silence(s, m);
      var k := EachCommandEightTimes(u);
      SilenceAppend(s, m, k);
      n := m + k;
      var first, rest := Resends(s.sendQ[0].packet, 0), AllResends(s.sendQ[1..]);
      assert (s.h.frames + first) + rest == s.h.frames + (first + rest);
    }
  }

  /** Each command has its own eight frames. */
  lemma {:induction false} EightFramesEach(queue: seq<CommData>, i: nat, k: nat)
    requires forall j :: 0 <= j < |queue| ==> queue[j].packet[0] == ENQ
    ensures |AllResends(queue)| == 8 * |queue|
    ensures i < |queue| && k < 8 ==> Carries(AllResends(queue)[8 * i + k], queue[i].packet)
  {
    hide Resends, Carries;
    if queue != [] {
      EightFrames(queue[0].packet, 0);
      EightFramesEach(queue[1..], if i > 0 then i - 1 else 0, k);
      var first, rest := Resends(queue[0].packet, 0), AllResends(queue[1..]);
      assert AllResends(queue) == first + rest;
      assert i > 0 && i < |queue| && k < 8 ==> (first + rest)[8 * i + k] == rest[8 * (i - 1) + k];
    }
  }

  function Submits(commands: seq<CommData>): (r: seq<Input>)
    ensures |r| == |commands|
  {
    if commands == [] then []
    else Submits(commands[..|commands| - 1]) + [Submit(commands[|commands| - 1])]
  }

  lemma {:induction false} Submitted(commands: seq<CommData>)
    requires |commands| <= QUEUE_ROOM
    ensures var s := Run(Initial(), Submits(commands));
            s == Initial().(sendQ := commands, h := Initial().h.(accepted := commands))
  {
    if commands != [] {
      var n := |commands| - 1;
      Submitted(commands[..n]);
      assert Submits(commands)[..n] == Submits(commands[..n]);
      assert commands == commands[..n] + [commands[n]];
    }
  }

  /** Attempt number `k` of command number `i` is where it should be. */
  predicate CarriedAt(frames: seq<seq<Byte>>, commands: seq<CommData>, i: nat, k: nat) {
    |frames| == 8 * |commands| && (i < |commands| && k < 8 ==> Carries(frames[8 * i + k], commands[i].packet))
  }

  /** From a fresh start, with up to five commands queued and a silent power supply: the link comes to
      rest, and what it has sent by then is exactly eight frames for each command, in the order in
      which they were queued. */
  lemma FreshStartEightTimes(commands: seq<CommData>) returns (n: nat)
    requires |commands| <= QUEUE_ROOM && forall j :: 0 <= j < |commands| ==> commands[j].packet[0] == ENQ
    ensures var s := Silence(Run(Initial(), Submits(commands)), n);
            && Idle(s) && |s.h.frames| == 8 * |commands|
            && forall i, k :: CarriedAt(s.h.frames, commands, i, k)
  {
    hide Carries, Cycle, AllResends;
    Submitted(commands);
    var s := Run(Initial(), Submits(commands));
    n := EachCommandEightTimes(s);
    var frames := AllResends(commands);
    assert s.h.frames + frames == frames;
    EightFramesEach(commands, 0, 0);
    forall i: nat, k: nat
      ensures CarriedAt(frames, commands, i, k)
    {
      EightFramesEach(commands, i, k);
    }
  }

  // ---------- how a link gets stuck ----------

  /** Seven stray bytes in the cycle in which a command is resent exhaust its retries at once,
      because the timeout count is still at its limit. */
  lemma {:induction false} StrayRetries(s: State, n: nat)
    requires s.a.pos == 0 && s.c.sending && s.c.comm.mode.Queue? && s.c.noDequeue
    requires s.c.comm.retry == 1 && s.c.timeout >= TIMEOUT_LIMIT && n <= 7
    ensures var t := GetRecvAll(s, seq(n, i => 0 as Byte));
            && t.a == s.a && t.sendQ == s.sendQ && t.recvQ == s.recvQ
            && t.c.sending && t.c.comm.mode.Queue? && t.c.comm.retry == 1 + n
            && t.c.timeout >= TIMEOUT_LIMIT && (t.c.noDequeue <==> n < 7)
  {
    if n > 0 {
      StrayRetries(s, n - 1);
      assert seq(n, i => 0 as Byte)[..n - 1] == seq(n - 1, i => 0 as Byte);
    }
  }

  lemma {:induction false} SilentInputs(inputs: seq<Input>, n: nat)
    ensures Run(Initial(), inputs + seq(n, i => Tick([]))) == Silence(Run(Initial(), inputs), n)
  {
    hide Cycle, Initial;
    var silent := seq(n, i => Tick([]));
    if n == 0 {
      assert inputs + silent == inputs;
    } else {
      SilentInputs(inputs, n - 1);
      assert (inputs + silent)[..|inputs + silent| - 1] == inputs + seq(n - 1, i => Tick([]));
    }
  }

  /** A run that gets the link stuck: one command is queued, its first attempt times out, and
      seven stray bytes arrive in the cycle in which it is sent again.  Silence then never brings
      the link to rest. */
  lemma StrayBytesStick(d: CommData)
    ensures var first := [Submit(d)] + seq(Size(d.packet) + TIMEOUT_LIMIT, i => Tick([]));
            var s := Run(Initial(), first + [Tick(seq(7, i => 0 as Byte))]);
            Stuck(s) && (forall n: nat :: !Idle(Silence(s, n)))
  {
    hide Cycle, Seal, Marked, Create;
    var start := Run(Initial(), [Submit(d)]);
    assert [Submit(d)][..0] == [];
    assert Run(Initial(), []) == Initial();
    assert start == Enqueue(Initial(), d);
    var t := Take(Wake(start));
    assert Ready(t, 0) && t.sendQ == [] && t.a.pos == 0;
    OneAttempt(t, 0);
    SealSize(t.sendData.packet, 0);
    var n := Size(d.packet) + TIMEOUT_LIMIT;
    TakeFirst(start, n);
    var u := Silence(start, n);
    SilentInputs([Submit(d)], n);
    var first := [Submit(d)] + seq(n, i => Tick([]));
    var strays := seq(7, i => 0 as Byte);
    StrayCycleSticks(u);
    var inputs := first + [Tick(strays)];
    assert inputs[..|inputs| - 1] == first;
    var s := Run(Initial(), inputs);
    AlwaysSound(inputs);
    forall n: nat
      ensures !Idle(Silence(s, n))
    {
      StaysStuck(s, n);
    }
  }

  lemma SealSize(p: Packet, r: nat)
    ensures Size(Seal(Marked(p, r))) == Size(p)
  {
  }

  lemma StrayCycleSticks(s: State)
    requires Ready(s, 1) && s.sendQ == [] && s.a.pos == 0 && s.c.timeout == TIMEOUT_LIMIT
    ensures Stuck(Cycle(s, seq(7, i => 0 as Byte)))
  {
    hide Seal, Marked, GetRecvAll;
    SealSize(s.sendData.packet, 1);
    var t := SetSend(s);
    assert t == Transmit(s);
    StrayRetries(t, 7);
  }
}
