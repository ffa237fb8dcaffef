/** What whole runs of the power supply link keep: the order of states and commands, answers, frames. */
module PsuLinkRuns {
  import opened Bytes
  import opened PsuLink
  import Robotalk

  // ---------- runs ----------

  /** What can happen to the link: a command is queued, a command is queued by a caller that
      waits for its answer (set_tx_pkt_sync), or a DMA cycle passes. */
  datatype Input = Submit(command: CommData) | SubmitSync(command: CommData) | Tick(rx: seq<Byte>)

  function Step(s: State, i: Input): State {
    match i
    case Submit(d) => Enqueue(s, d)
    case SubmitSync(d) =>
      if s.syncWait || |s.sendQ| >= QUEUE_ROOM then s else Enqueue(s, d).(syncWait := true)
    case Tick(rx) => Cycle(s, rx)
  }

  function Run(s: State, inputs: seq<Input>): State {
    if inputs == [] then s else Step(Run(s, inputs[..|inputs| - 1]), inputs[|inputs| - 1])
  }

  // ---------- the saved communication states ----------

  /** The oldest saved state is a queue state and everything saved above it is an ACK state. */
  predicate Saved(stack: seq<Comm>) {
    stack == []
    || (if |stack| == 1 then stack[0].mode.Queue?
        else stack[|stack| - 1].mode.Ack? && Saved(stack[..|stack| - 1]))
  }

  /** No state is saved exactly when the link works on the queue, the saved states are in order,
      and there are at most four of them. */
  predicate StackOrder(c: Control) {
    |c.stack| <= STACK_ROOM && Saved(c.stack) && (c.stack == [] <==> c.comm.mode.Queue?)
  }

  lemma PopKeepsOrder(c: Control)
    requires StackOrder(c)
    ensures StackOrder(Pop(c)) && !Pop(c).comm.mode.Nak?
  {
  }

  lemma SendRetryKeepsOrder(c: Control)
    requires StackOrder(c)
    ensures StackOrder(SendRetry(c))
  {
    var d := c.(receiving := false, comm := c.comm.(retry := c.comm.retry + 1));
    PopKeepsOrder(Report(d, TimeoutOver));
  }

  lemma CheckRetryKeepsOrder(c: Control)
    requires StackOrder(c)
    ensures StackOrder(CheckRetry(c))
  {
    var d := c.(timeout := c.timeout + 1);
    if d.timeout < TIMEOUT_LIMIT {
    } else if d.comm.mode.Queue? {
      SendRetryKeepsOrder(d);
    } else {
      PopKeepsOrder(d);
      var e := if d.comm.mode.Ack? then Pop(d) else d;
      if e.comm.nakSend == SEND_NAK_LIMIT {
        PopKeepsOrder(e);
      } else {
        SendRetryKeepsOrder(e);
      }
    }
  }

  /** Also when the push is refused. */
  lemma PushKeepsOrder(c: Control, comm: Comm)
    requires StackOrder(c) && !c.comm.mode.Nak? && !comm.mode.Queue?
    ensures StackOrder(Push(c).(comm := comm))
  {
  }

  lemma BadChecksumKeepsOrder(c: Control)
    requires StackOrder(c)
    ensures StackOrder(BadChecksum(c))
  {
    hide Push;
    var d := c.(comm := c.comm.(nakSend := c.comm.nakSend + 1));
    if d.comm.nakSend < SEND_NAK_LIMIT && !d.comm.mode.Nak? {
      PushKeepsOrder(d, Comm(0, 1, 0, Nak));
    }
  }

  lemma ReactKeepsOrder(c: Control, v: Verdict)
    requires StackOrder(c)
    ensures StackOrder(React(c, v))
  {
    hide BadChecksum, Push;
    PopKeepsOrder(c);
    match v {
      case Bad => BadChecksumKeepsOrder(c);
      case Answer(_, _) =>
      case NakReply =>
      case Warning => PushKeepsOrder(Pop(c), Comm(0, 0, 0, Ack));
      case Strange =>
    }
  }

  lemma {:induction false} GetRecvAllKeepsOrder(s: State, rx: seq<Byte>)
    requires StackOrder(s.c)
    ensures StackOrder(GetRecvAll(s, rx).c)
  {
    hide CheckRetry;
    if rx != [] {
      GetRecvAllKeepsOrder(s, rx[..|rx| - 1]);
      CheckRetryKeepsOrder(GetRecvAll(s, rx[..|rx| - 1]).c);
    }
  }

  lemma SetSendKeepsOrder(s: State)
    requires StackOrder(s.c)
    ensures StackOrder(SetSend(s).c)
  {
  }

  lemma DispatchNextKeepsOrder(s: State)
    requires StackOrder(s.c)
    ensures StackOrder(DispatchNext(s).c)
  {
    hide React, Classify;
    if !s.c.sending && s.recvQ != [] {
      var t := RecvDequeue(s);
      ReactKeepsOrder(t.c, Classify(t.dispatch, t.sendData.packet));
    }
  }

  lemma StepKeepsOrder(s: State, i: Input)
    requires StackOrder(s.c)
    ensures StackOrder(Step(s, i).c)
  {
    if i.Tick? {
      var t := SetSend(s);
      SetSendKeepsOrder(s);
      GetRecvAllKeepsOrder(t, i.rx);
      CheckRetryKeepsOrder(t.c);
      DispatchNextKeepsOrder(Receive(t, i.rx));
    }
  }

  lemma {:induction false} SavedModes(stack: seq<Comm>)
    requires Saved(stack)
    ensures stack != [] ==> stack[0].mode.Queue?
    ensures forall i :: 1 <= i < |stack| ==> stack[i].mode.Ack?
  {
    if |stack| > 1 { SavedModes(stack[..|stack| - 1]); }
  }

  lemma {:induction false} OrderKept(inputs: seq<Input>)
    ensures StackOrder(Run(Initial(), inputs).c)
  {
    hide Cycle;
    if inputs != [] {
      OrderKept(inputs[..|inputs| - 1]);
      StepKeepsOrder(Run(Initial(), inputs[..|inputs| - 1]), inputs[|inputs| - 1]);
    }
  }

  /** In every reachable state: no communication state is saved exactly when the link works on the
      queue; the oldest saved state is a queue state; all saved above it are ACK states, so NAK is
      never saved; and never more than four are saved.  A refused push breaks none of this. */
  lemma StackAlwaysInOrder(inputs: seq<Input>)
    ensures var c := Run(Initial(), inputs).c;
            && (c.stack == [] <==> c.comm.mode.Queue?)
            && (c.stack != [] ==> c.stack[0].mode.Queue?)
            && (forall i :: 1 <= i < |c.stack| ==> c.stack[i].mode.Ack?)
            && |c.stack| <= STACK_ROOM
  {
    hide Cycle;
    OrderKept(inputs);
    SavedModes(Run(Initial(), inputs).c.stack);
  }

  // ---------- sending and receiving exclude each other ----------

  /** The link is never sending and receiving at once, and it is sending exactly while some bytes
      of a frame have left. */
  predicate Phases(c: Control) {
    && (c.sending <==> c.sendPos > 0)
    && !(c.sending && c.receiving)
    && c.sendPos <= 32
  }

  lemma CheckRetryKeepsPhases(c: Control)
    requires Phases(c)
    ensures Phases(CheckRetry(c))
    ensures CheckRetry(c).sendPos == c.sendPos
    ensures CheckRetry(c).receiving ==> c.receiving
  {
    var d := c.(timeout := c.timeout + 1);
    if d.timeout < TIMEOUT_LIMIT {
    } else if d.comm.mode.Queue? {
    } else {
      var e := if d.comm.mode.Ack? then Pop(d) else d;
      if e.comm.nakSend == SEND_NAK_LIMIT {
      } else {
      }
    }
  }

  lemma {:induction false} GetRecvAllKeepsPhases(s: State, rx: seq<Byte>)
    requires Phases(s.c)
    ensures Phases(GetRecvAll(s, rx).c)
  {
    hide CheckRetry;
    if rx != [] {
      GetRecvAllKeepsPhases(s, rx[..|rx| - 1]);
      CheckRetryKeepsPhases(GetRecvAll(s, rx[..|rx| - 1]).c);
    }
  }

  lemma ReactKeepsPhases(c: Control, v: Verdict)
    requires Phases(c) && !c.sending
    ensures Phases(React(c, v)) && !React(c, v).sending
  {
    match v {
      case Bad =>
      case Answer(_, _) =>
      case NakReply =>
      case Warning =>
      case Strange =>
    }
  }

  lemma SetSendKeepsPhases(s: State)
    requires Phases(s.c)
    ensures Phases(SetSend(s).c)
  {
    if s.c.receiving {
    } else if WantsCommand(s) {
      if s.sendQ == [] {
      } else {
        assert Phases(Transmit(Take(Wake(s))).c);
      }
    } else {
    }
  }

  lemma CycleKeepsPhases(s: State, rx: seq<Byte>)
    requires Phases(s.c)
    ensures Phases(Cycle(s, rx).c)
  {
    hide SetSend, CheckRetry, React, Classify;
    SetSendKeepsPhases(s);
    var t := SetSend(s);
    GetRecvAllKeepsPhases(t, rx);
    CheckRetryKeepsPhases(t.c);
    var u := Receive(t, rx);
    if !u.c.sending && u.recvQ != [] {
      var w := RecvDequeue(u);
      ReactKeepsPhases(w.c, Classify(w.dispatch, w.sendData.packet));
    }
  }

  // ---------- commands leave in order, one at a time ----------

  /** The commands taken from the queue, in order. */
  function Dequeues(log: seq<Event>): seq<CommData> {
    if log == [] then []
    else
      var e := log[|log| - 1];
      Dequeues(log[..|log| - 1]) + (if e.Dequeued? then [e.command] else [])
  }

  /** A command has been taken and nothing has released it since. */
  predicate Pending(log: seq<Event>) {
    log != [] && log[|log| - 1].Dequeued?
  }

  /** No command is taken while another is pending. */
  predicate OneAtATime(log: seq<Event>) {
    log == []
    || (OneAtATime(log[..|log| - 1])
        && (log[|log| - 1].Dequeued? ==> !Pending(log[..|log| - 1])))
  }

  predicate Orderly(c: Control) {
    OneAtATime(c.log) && (c.noDequeue <==> Pending(c.log))
  }

  /** `d` comes from `c` without a dequeue. */
  predicate NoDequeue(c: Control, d: Control) {
    || (d.log == c.log && d.noDequeue == c.noDequeue)
    || (|d.log| == |c.log| + 1 && d.log[..|c.log|] == c.log && d.log[|c.log|].Released? && !d.noDequeue)
  }

  lemma NoDequeueKeeps(c: Control, d: Control)
    requires NoDequeue(c, d) && Orderly(c)
    ensures Orderly(d) && Dequeues(d.log) == Dequeues(c.log)
  {
  }

  lemma SendRetryNoDequeue(c: Control)
    ensures NoDequeue(c, SendRetry(c))
  {
  }

  lemma PopOnly(c: Control)
    ensures Pop(c).log == c.log && Pop(c).noDequeue == c.noDequeue
  {
  }

  lemma CheckRetryNoDequeue(c: Control)
    ensures NoDequeue(c, CheckRetry(c))
  {
    var d := c.(timeout := c.timeout + 1);
    if d.timeout < TIMEOUT_LIMIT {
    } else if d.comm.mode.Queue? {
      SendRetryNoDequeue(d);
    } else {
      PopOnly(d);
      var e := if d.comm.mode.Ack? then Pop(d) else d;
      if e.comm.nakSend == SEND_NAK_LIMIT {
        PopOnly(e);
      } else {
        SendRetryNoDequeue(e);
      }
    }
  }

  lemma ReactNoDequeue(c: Control, v: Verdict)
    ensures NoDequeue(c, React(c, v))
  {
    match v {
      case Bad =>
      case Answer(_, _) =>
      case NakReply =>
      case Warning =>
      case Strange =>
    }
  }

  /** Everything accepted so far has been taken in order or is still queued in order. */
  predicate InOrder(s: State) {
    && Orderly(s.c)
    && Dequeues(s.c.log) + s.sendQ == s.h.accepted
  }

  lemma {:induction false} GetRecvAllKeepsQueue(s: State, rx: seq<Byte>)
    requires InOrder(s)
    ensures InOrder(GetRecvAll(s, rx))
  {
    hide CheckRetry;
    if rx != [] {
      var t := GetRecvAll(s, rx[..|rx| - 1]);
      GetRecvAllKeepsQueue(s, rx[..|rx| - 1]);
      CheckRetryNoDequeue(t.c);
      NoDequeueKeeps(t.c, CheckRetry(t.c));
    }
  }

  lemma TakeKeepsQueue(s: State)
    requires InOrder(s) && WantsCommand(s) && s.sendQ != []
    ensures InOrder(Take(Wake(s)))
  {
    var t := Take(Wake(s));
    assert t.c.log[..|t.c.log| - 1] == s.c.log;
    assert s.sendQ == [s.sendQ[0]] + s.sendQ[1..];
  }

  lemma SetSendKeepsQueue(s: State)
    requires InOrder(s)
    ensures InOrder(SetSend(s))
  {
    if WantsCommand(s) && s.sendQ != [] {
      TakeKeepsQueue(s);
      var t := Take(Wake(s));
      assert Transmit(t).c.log == t.c.log;
    }
  }

  lemma CycleKeepsQueue(s: State, rx: seq<Byte>)
    requires InOrder(s)
    ensures InOrder(Cycle(s, rx))
  {
    hide SetSend, CheckRetry, React, Classify;
    SetSendKeepsQueue(s);
    var t := SetSend(s);
    GetRecvAllKeepsQueue(t, rx);
    CheckRetryNoDequeue(t.c);
    NoDequeueKeeps(t.c, CheckRetry(t.c));
    var u := Receive(t, rx);
    if !u.c.sending && u.recvQ != [] {
      var w := RecvDequeue(u);
      var v := Classify(w.dispatch, w.sendData.packet);
      ReactNoDequeue(w.c, v);
      NoDequeueKeeps(w.c, React(w.c, v));
    }
  }

  /** After every run: the commands accepted by send_enqueue are those taken so far followed by
      those still queued, first in first out, and between two commands taken the first of them
      was released; for the reasons see ReleasesExactly. */
  lemma {:induction false} CommandsLeaveInOrder(inputs: seq<Input>)
    ensures var s := Run(Initial(), inputs);
            && Dequeues(s.c.log) + s.sendQ == s.h.accepted
            && OneAtATime(s.c.log)
            && InOrder(s)
  {
    hide Cycle;
    if inputs != [] {
      var s, i := Run(Initial(), inputs[..|inputs| - 1]), inputs[|inputs| - 1];
      CommandsLeaveInOrder(inputs[..|inputs| - 1]);
      match i {
        case Submit(d) =>
        case SubmitSync(d) =>
        case Tick(rx) => CycleKeepsQueue(s, rx);
      }
    }
  }

  // ---------- what a packet is ----------

  /** What a received packet means, by its bytes: with a wrong checksum nothing else counts; otherwise the
      command, whose low byte is taken without the four bits of the retry marks, says which of the four known
      packets it is, and an ACK or REJ names in its first two data bytes what it answers. */
  lemma ClassifiedExactly(p: Packet, outstanding: Packet)
    ensures var names := p[6] == outstanding[2] && p[7] == outstanding[3];
            Classify(p, outstanding)
            == if !Sealed(p) then Bad
               else if p[2] % 16 == 0x0E && p[3] == 0x02 then Answer(true, names)
               else if p[2] % 16 == 0x0E && p[3] == 0x01 then Answer(false, names)
               else if p[2] % 16 == 0x0E && p[3] == 0x82 then NakReply
               else if p[2] % 16 == 0x04 && p[3] == 0x07 then Warning
               else Strange
  {
    hide Sealed;
    UnmarkedBytes(p);
    SameWord(p[6], p[7], outstanding[2], outstanding[3]);
  }

  lemma UnmarkedBytes(p: Packet)
    ensures Unmarked(Command(p)) == p[2] % 16 + 256 * (p[3] as int)
  {
    var lo: int, hi: int := p[2], p[3];
    assert (lo + 256 * hi) / 16 == lo / 16 + 16 * hi;
    assert (lo / 16 + 16 * hi) % 16 == lo / 16;
  }

  lemma SameWord(a: Byte, b: Byte, c: Byte, d: Byte)
    ensures a + 256 * (b as int) == c + 256 * (d as int) <==> a == c && b == d
  {
  }

  /** Bit number `k`, the lowest first. */
  predicate BitOf(n: nat, k: nat) {
    if k == 0 then n % 2 == 1 else BitOf(n / 2, k - 1)
  }

  lemma {:induction false} OrBits(a: nat, b: nat, k: nat)
    ensures BitOf(Or(a, b), k) <==> BitOf(a, k) || BitOf(b, k)
    decreases k
  {
    if a == 0 && b == 0 {
      NoBits(k);
    } else if k > 0 {
      assert Or(a, b) / 2 == Or(a / 2, b / 2);
      OrBits(a / 2, b / 2, k - 1);
    }
  }

  lemma {:induction false} NoBits(k: nat)
    ensures !BitOf(0, k)
  {
    if k > 0 { NoBits(k - 1); }
  }

  /** The retry marks, bit by bit: the fifth bit says that it is a retry, the three above it and the high byte
      take the number of the retry, and no bit of the command is taken away.  Nothing else is touched. */
  lemma MarkedExactly(p: Packet, retry: nat, k: nat)
    requires retry < 0x800 && k < 16
    ensures var q := Marked(p, retry);
            && (BitOf(Command(q), k)
                <==> BitOf(Command(p), k) || (k == 4 && retry > 0) || (k >= 5 && BitOf(retry, k - 5)))
            && q[..2] == p[..2] && q[4..] == p[4..]
  {
    hide BitOf, Or;
    var mark := if retry > 0 then 0x10 else 0;
    var c := Or(Or(Command(p), mark), retry * 0x20 % 0x1_0000);
    PowersOfTwo();
    OrBits(Command(p), mark, k);
    OrFits(Command(p), mark, 16);
    OrBits(Or(Command(p), mark), retry * 0x20 % 0x1_0000, k);
    OrFits(Or(Command(p), mark), retry * 0x20, 16);
    MarkBit(k);
    RaisedBits(retry, k);
    NoBits(k);
    assert retry * 0x20 % 0x1_0000 == retry * 0x20;
    WordOfBytes(c);
    assert Command(Marked(p, retry)) == c;
  }

  lemma WordOfBytes(c: nat)
    requires c < 0x1_0000
    ensures c % 256 + 256 * (c / 256 % 256) == c
  {
  }

  function PowerOfTwo(k: nat): nat {
    if k == 0 then 1 else 2 * PowerOfTwo(k - 1)
  }

  lemma PowersOfTwo()
    ensures PowerOfTwo(16) == 0x1_0000
  {
    assert PowerOfTwo(4) == 16;
    assert PowerOfTwo(8) == 16 * PowerOfTwo(4);
    assert PowerOfTwo(12) == 16 * PowerOfTwo(8);
    assert PowerOfTwo(16) == 16 * PowerOfTwo(12);
  }

  lemma {:induction false} OrFits(a: nat, b: nat, k: nat)
    requires a < PowerOfTwo(k) && b < PowerOfTwo(k)
    ensures Or(a, b) < PowerOfTwo(k)
    decreases k
  {
    if k > 0 { OrFits(a / 2, b / 2, k - 1); }
  }

  lemma MarkBit(k: nat)
    requires k < 16
    ensures BitOf(0x10, k) <==> k == 4
  {
    Raised(8, k);
    if k >= 1 { Raised(4, k - 1); }
    if k >= 2 { Raised(2, k - 2); }
    if k >= 3 { Raised(1, k - 3); }
    if k >= 5 { NoBits(k - 5); }
  }

  lemma RaisedBits(n: nat, k: nat)
    ensures BitOf(n * 0x20, k) <==> k >= 5 && BitOf(n, k - 5)
  {
    Raised(n * 16, k);
    if k >= 1 { Raised(n * 8, k - 1); }
    if k >= 2 { Raised(n * 4, k - 2); }
    if k >= 3 { Raised(n * 2, k - 3); }
    if k >= 4 { Raised(n, k - 4); }
  }

  lemma Raised(n: nat, k: nat)
    ensures BitOf(2 * n, k) <==> k >= 1 && BitOf(n, k - 1)
  {
  }

  /** What create_psu_packet makes, byte by byte. */
  lemma CreatedPacket(command: nat, data: seq<Byte>)
    requires command < 0x1_0000 && |data| <= MAX_DATA
    ensures var p := Create(command, data);
            && Command(p) == command && Size(p) == 8 + |data|
            && p[0] == 5 && p[1] == |data| && p[4] == 0x90 && p[5] == 0x40 && p[6..6 + |data|] == data
            && forall i :: 6 + |data| <= i < 32 ==> p[i] == 0
  {
  }

  // ---------- why a command is released ----------

  /** What a received packet logs. */
  function Reasons(c: Control, v: Verdict): seq<Event> {
    match v
    case Answer(true, true) => [Released(Answered)]
    case Answer(false, true) => [Released(Rejected)]
    case NakReply => if Pop(c).comm.nakRecv + 1 >= RECV_NAK_LIMIT then [Released(NakLimit)] else []
    case Strange => [Released(UnknownReply)]
    case _ => []
  }

  /** A retry check gives the command up: the wait has expired, all attempts are used, and it is neither a
      NAK that goes unanswered nor a packet refused eight times. */
  predicate GivesUp(c: Control) {
    var d := c.(timeout := c.timeout + 1);
    var e := if d.comm.mode.Ack? then Pop(d) else d;
    && d.timeout >= TIMEOUT_LIMIT && e.comm.retry + 1 >= RETRY_LIMIT && !e.comm.mode.Nak?
    && (d.comm.mode.Queue? || e.comm.nakSend != SEND_NAK_LIMIT)
  }

  /** What the bytes received in a cycle log: one entry for each stray byte that makes the check give up. */
  function GivenUp(s: State, rx: seq<Byte>): seq<Event> {
    if rx == [] then []
    else
      var t := GetRecvAll(s, rx[..|rx| - 1]);
      GivenUp(s, rx[..|rx| - 1])
      + (if Stray(t.a, rx[|rx| - 1]) && GivesUp(t.c) then [Released(GaveUp)] else [])
  }

  lemma ReactReleases(c: Control, v: Verdict)
    ensures React(c, v).log == c.log + Reasons(c, v)
  {
    hide Pop;
    PopOnly(c);
  }

  lemma CheckRetryReleases(c: Control)
    ensures CheckRetry(c).log == c.log + if GivesUp(c) then [Released(GaveUp)] else []
  {
    hide SendRetry, Pop;
    var d := c.(timeout := c.timeout + 1);
    var e := if d.comm.mode.Ack? then Pop(d) else d;
    PopOnly(d);
    PopOnly(e);
    SendRetryReleases(e);
  }

  lemma SendRetryReleases(c: Control)
    ensures SendRetry(c).log
            == c.log + if c.comm.retry + 1 >= RETRY_LIMIT && !c.comm.mode.Nak? then [Released(GaveUp)] else []
  {
  }

  lemma {:induction false} GetRecvAllReleases(s: State, rx: seq<Byte>)
    ensures GetRecvAll(s, rx).c.log == s.c.log + GivenUp(s, rx)
  {
    hide CheckRetry, GivesUp;
    if rx != [] {
      GetRecvAllReleases(s, rx[..|rx| - 1]);
      CheckRetryReleases(GetRecvAll(s, rx[..|rx| - 1]).c);
    }
  }

  /** What the log of a cycle is, entry by entry: the command that is taken, the retry checks that give up,
      and the reason for which the packet dispatched at the end releases the command. */
  lemma ReleasesExactly(s: State, rx: seq<Byte>)
    ensures var t := SetSend(s);
            var u := Receive(t, rx);
            && t.c.log == s.c.log + (if WantsCommand(s) && s.sendQ != [] then [Dequeued(s.sendQ[0])] else [])
            && u.c.log == t.c.log + (if rx != [] then GivenUp(t, rx)
                                     else if t.c.receiving && GivesUp(t.c) then [Released(GaveUp)] else [])
            && Cycle(s, rx).c.log
               == u.c.log + (if u.c.sending || u.recvQ == [] then []
                             else Reasons(u.c, Classify(u.recvQ[0], u.sendData.packet)))
  {
    hide SetSend, Receive, DispatchNext, Reasons, GivenUp, GivesUp, Classify;
    SetSendLogs(s);
    ReceiveLogs(SetSend(s), rx);
    DispatchReleases(Receive(SetSend(s), rx));
  }

  lemma SetSendLogs(s: State)
    ensures SetSend(s).c.log == s.c.log + (if WantsCommand(s) && s.sendQ != [] then [Dequeued(s.sendQ[0])] else [])
  {
    hide Outgoing;
  }

  lemma ReceiveLogs(t: State, rx: seq<Byte>)
    ensures Receive(t, rx).c.log
            == t.c.log + (if rx != [] then GivenUp(t, rx)
                          else if t.c.receiving && GivesUp(t.c) then [Released(GaveUp)] else [])
  {
    hide CheckRetry, GivesUp, GivenUp;
    GetRecvAllReleases(t, rx);
    CheckRetryReleases(t.c);
  }

  lemma DispatchReleases(u: State)
    ensures DispatchNext(u).c.log
            == u.c.log + (if u.c.sending || u.recvQ == [] then []
                          else Reasons(u.c, Classify(u.recvQ[0], u.sendData.packet)))
  {
    hide React, Classify;
    if !u.c.sending && u.recvQ != [] {
      var w := RecvDequeue(u);
      ReactReleases(w.c, Classify(w.dispatch, w.sendData.packet));
    }
  }

  /** `p` is a well-formed ACK that names the outstanding command. */
  predicate AnswerTo(p: Packet, outstanding: Packet) {
    Sealed(p) && Unmarked(Command(p)) == RESPONSE_ACK && DataWord(p) == Command(outstanding)
  }

  /** A cycle hands result bytes to a caller exactly if, with nothing being sent, the packet it dispatches is
      an ACK with a right checksum that names the command that is out. */
  lemma ResultsExactly(s: State, rx: seq<Byte>)
    ensures var u := Receive(SetSend(s), rx);
            Cycle(s, rx).h.results
            == s.h.results + (if !u.c.sending && u.recvQ != [] && AnswerTo(u.recvQ[0], u.sendData.packet) then
                                [ResultBytes(u.recvQ[0], u.sendData.resultSize)]
                              else [])
  {
    hide SetSend, DispatchNext, AnswerTo, ResultBytes;
    SetSendKeepsResults(s);
    GetRecvAllKeepsResults(SetSend(s), rx);
    DispatchResults(Receive(SetSend(s), rx));
  }

  /** So when it does, that command is then released. */
  lemma ResultsAreAnswers(s: State, rx: seq<Byte>)
    requires Cycle(s, rx).h.results != s.h.results
    ensures var t := Cycle(s, rx);
            && AnswerTo(t.dispatch, t.sendData.packet) && !t.c.noDequeue
            && t.h.results == s.h.results + [ResultBytes(t.dispatch, t.sendData.resultSize)]
  {
    hide SetSend, DispatchNext, AnswerTo, ResultBytes;
    SetSendKeepsResults(s);
    GetRecvAllKeepsResults(SetSend(s), rx);
    DispatchResults(Receive(SetSend(s), rx));
  }

  /** How many commands were answered. */
  function Answers(log: seq<Event>): nat {
    if log == [] then 0
    else Answers(log[..|log| - 1]) + if log[|log| - 1] == Released(Answered) then 1 else 0
  }

  lemma {:induction false} AnswersAppend(a: seq<Event>, b: seq<Event>)
    ensures Answers(a + b) == Answers(a) + Answers(b)
  {
    if b == [] {
      assert a + b == a;
    } else {
      AnswersAppend(a, b[..|b| - 1]);
      assert (a + b)[..|a + b| - 1] == a + b[..|b| - 1];
    }
  }

  lemma {:induction false} GivenUpNotAnswered(s: State, rx: seq<Byte>)
    ensures Answers(GivenUp(s, rx)) == 0
  {
    hide GivesUp, Answers;
    NoAnswers();
    if rx != [] {
      GivenUpNotAnswered(s, rx[..|rx| - 1]);
      AnswersAppend(GivenUp(s, rx[..|rx| - 1]), [Released(GaveUp)]);
      AnswersAppend(GivenUp(s, rx[..|rx| - 1]), []);
    }
  }

  lemma NoAnswers()
    ensures Answers([]) == 0
    ensures forall d :: Answers([Dequeued(d)]) == 0
    ensures forall why :: Answers([Released(why)]) == if why.Answered? then 1 else 0
  {
    assert forall e: Event :: [e][..0] == [];
  }

  lemma CycleAnswers(s: State, rx: seq<Byte>)
    ensures Answers(Cycle(s, rx).c.log) - Answers(s.c.log) == |Cycle(s, rx).h.results| - |s.h.results|
  {
    hide SetSend, Receive, DispatchNext, GivenUp, GivesUp, Answers, ResultBytes, WantsCommand;
    var t := SetSend(s);
    var u := Receive(t, rx);
    ReleasesExactly(s, rx);
    ResultsExactly(s, rx);
    GivenUpNotAnswered(t, rx);
    NoAnswers();
    var taken := if WantsCommand(s) && s.sendQ != [] then [Dequeued(s.sendQ[0])] else [];
    var given := if rx != [] then GivenUp(t, rx)
                 else if t.c.receiving && GivesUp(t.c) then [Released(GaveUp)] else [];
    AnswersAppend(s.c.log, taken);
    AnswersAppend(t.c.log, given);
    if !u.c.sending && u.recvQ != [] {
      var v := Classify(u.recvQ[0], u.sendData.packet);
      AnswersAppend(u.c.log, Reasons(u.c, v));
      ReasonsAnswered(u.c, u.recvQ[0], u.sendData.packet);
    } else {
      AnswersAppend(u.c.log, []);
    }
  }

  lemma ReasonsAnswered(c: Control, p: Packet, outstanding: Packet)
    ensures Answers(Reasons(c, Classify(p, outstanding))) == if AnswerTo(p, outstanding) then 1 else 0
  {
    hide Answers, Sealed;
    NoAnswers();
  }

  /** Over every run each answered command has handed its bytes over, once. */
  lemma {:induction false} OneResultEachAnswer(inputs: seq<Input>)
    ensures var s := Run(Initial(), inputs); |s.h.results| == Answers(s.c.log)
  {
    hide Cycle, Answers;
    if inputs == [] {
      NoAnswers();
    } else {
      var s, i := Run(Initial(), inputs[..|inputs| - 1]), inputs[|inputs| - 1];
      OneResultEachAnswer(inputs[..|inputs| - 1]);
      if i.Tick? { CycleAnswers(s, i.rx); }
    }
  }

  /** The data of an ACK behind the word that names the command. */
  function AnswerData(p: Packet): seq<Byte> {
    if p[1] < 2 then [] else p[HEADER + 2..HEADER + p[1]]
  }

  /** `result` is the beginning of the data of the ACK, last byte first. */
  predicate FromData(result: seq<Byte>, p: Packet) {
    && |result| <= |AnswerData(p)|
    && forall k :: 0 <= k < |result| ==> result[k] == AnswerData(p)[|result| - 1 - k]
  }

  /** The result bytes come from the data of the ACK exactly if its length byte is at least 2 or the
      caller has no room.  Otherwise the caller's room is filled with what stands behind the frame's
      data: the checksum and bytes of earlier packets. */
  lemma ResultBytesExactly(p: Packet, room: nat)
    requires room <= MAX_DATA
    ensures FromData(ResultBytes(p, room), p) <==> p[1] >= 2 || room == 0
    ensures p[1] >= 2 ==>
              |ResultBytes(p, room)| == if room < |AnswerData(p)| then room else |AnswerData(p)|
    ensures p[1] < 2 ==> |ResultBytes(p, room)| == room
  {
    if p[1] >= 2 {
      var r, d := ResultBytes(p, room), AnswerData(p);
      assert forall k :: 0 <= k < |r| ==> r[k] == d[|r| - 1 - k];
    }
  }

  /** The commands the driver makes are 4 in the low byte, beside the retry marks, and at least 5 in the
      high byte. */
  predicate OwnCommand(p: Packet) {
    Command(p) % 256 >= 4 && Command(p) / 256 >= 5
  }

  /** An ACK too short to hold the command word has its checksum where that word is looked for, and the
      high byte of the checksum is too small to name such a command. */
  lemma ShortAnswersNameOthers(p: Packet, outstanding: Packet)
    requires AnswerTo(p, outstanding) && p[1] < 2
    ensures !OwnCommand(outstanding)
  {
    hide OwnCommand, Unmarked, Robotalk.Sum;
    ShortCheckSum(p);
    assert DataWord(p) == p[6] + 256 * (p[7] as int);
    NotOwn(outstanding);
  }

  lemma NotOwn(p: Packet)
    ensures OwnCommand(p) <==> Command(p) % 256 >= 4 && Command(p) / 256 >= 5
  {
  }

  /** The checksum of an ACK of length 0 or 1 is small. */
  lemma ShortCheckSum(p: Packet)
    requires Unmarked(Command(p)) == RESPONSE_ACK && p[1] < 2
    ensures CheckSum(p) < if p[1] == 0 then 0x400 else 0x500
  {
    hide Robotalk.Sum, Unmarked;
    var command, rest := [p[1], p[2], p[3]], p[4..HEADER + p[1]];
    assert p[1..HEADER + p[1]] == command + rest;
    Robotalk.SumAppend(command, rest);
    Robotalk.SumBound(rest);
    SumOfThree(p[1], p[2], p[3]);
    UnmarkedHigh(p);
  }

  lemma UnmarkedHigh(p: Packet)
    requires Unmarked(Command(p)) == RESPONSE_ACK
    ensures p[3] == 2
  {
  }

  lemma SumOfThree(a: Byte, b: Byte, c: Byte)
    ensures Robotalk.Sum([a, b, c]) == a + b + c
  {
    assert [a, b, c][..2] == [a, b] && [a, b][..1] == [a] && [a][..0] == [];
    assert Robotalk.Sum([a]) == a;
    assert Robotalk.Sum([a, b]) == a + b;
  }

  /** The step from `s` to `t` hands out bytes from the data of the packet dispatched in it. */
  predicate HandsOutData(s: State, t: State) {
    && t.h.results == s.h.results + [ResultBytes(t.dispatch, t.sendData.resultSize)]
    && FromData(ResultBytes(t.dispatch, t.sendData.resultSize), t.dispatch)
  }

  /** So what a caller gets for such a command is the data of the answer to it. */
  lemma ResultsAreData(s: State, rx: seq<Byte>)
    requires Cycle(s, rx).h.results != s.h.results
    requires OwnCommand(Cycle(s, rx).sendData.packet)
    ensures HandsOutData(s, Cycle(s, rx))
  {
    hide Cycle, AnswerTo, FromData, ResultBytes, OwnCommand;
    var t := Cycle(s, rx);
    ResultsAreAnswers(s, rx);
    ResultBytesExactly(t.dispatch, t.sendData.resultSize);
    if t.dispatch[1] < 2 { ShortAnswersNameOthers(t.dispatch, t.sendData.packet); }
  }

  /** An ACK of length 1 that counts as the answer to the command 0x0004 and gives a caller who has
      room for one byte the low byte of the checksum. */
  lemma ShortAnswerMisread(outstanding: Packet)
    requires Command(outstanding) == 0x0004
    ensures var p: Packet := [ENQ, 1, 0x0E, 0x02, 0x40, 0x90, 0x04, 0x00, 0xEA] + EmptyPacket()[9..];
            && Classify(p, outstanding) == Answer(true, true)
            && ResultBytes(p, 1) == [0xEA] && !FromData(ResultBytes(p, 1), p)
  {
    var p: Packet := [ENQ, 1, 0x0E, 0x02, 0x40, 0x90, 0x04, 0x00, 0xEA] + EmptyPacket()[9..];
    assert p[1..7] == [1, 0x0E, 0x02] + [0x40, 0x90, 0x04];
    Robotalk.SumAppend([1, 0x0E, 0x02], [0x40, 0x90, 0x04]);
    SumOfThree(1, 0x0E, 0x02);
    SumOfThree(0x40, 0x90, 0x04);
    ResultBytesExactly(p, 1);
  }

  lemma SetSendKeepsResults(s: State)
    ensures SetSend(s).h.results == s.h.results
  {
  }

  lemma DispatchResults(u: State)
    ensures var t := DispatchNext(u);
            var answered := !u.c.sending && u.recvQ != [] && AnswerTo(u.recvQ[0], u.sendData.packet);
            && t.h.results
               == u.h.results + (if answered then [ResultBytes(u.recvQ[0], u.sendData.resultSize)] else [])
            && (answered ==> t.dispatch == u.recvQ[0] && t.sendData == u.sendData && !t.c.noDequeue)
  {
    hide ResultBytes;
  }

  lemma {:induction false} GetRecvAllKeepsResults(s: State, rx: seq<Byte>)
    ensures GetRecvAll(s, rx).h.results == s.h.results
  {
    hide CheckRetry, Store, Size;
    if rx != [] { GetRecvAllKeepsResults(s, rx[..|rx| - 1]); }
  }

  // ---------- whole frames on the wire ----------

  function Concat(parts: seq<seq<Byte>>): seq<Byte> {
    if parts == [] then [] else Concat(parts[..|parts| - 1]) + parts[|parts| - 1]
  }

  /** The assembler over several bytes. */
  function AssembleAll(a: Assembler, rx: seq<Byte>): Assembler {
    if rx == [] then a else Assemble(AssembleAll(a, rx[..|rx| - 1]), rx[|rx| - 1])
  }

  /** No byte of `rx` is out of frame. */
  predicate InFrame(a: Assembler, rx: seq<Byte>) {
    rx == []
    || (InFrame(a, rx[..|rx| - 1]) && !Stray(AssembleAll(a, rx[..|rx| - 1]), rx[|rx| - 1]))
  }

  /** The part of the current frame that has left. */
  function Partial(s: State): seq<Byte>
    requires s.c.sendPos <= 32
  {
    Current(s)[..s.c.sendPos]
  }

  /** All bytes sent are whole frames that both ends' checks accept, followed by the beginning of
      one more. */
  predicate Wire(s: State) {
    && Phases(s.c)
    && s.h.tx == Concat(s.h.frames) + Partial(s)
    && (forall i :: 0 <= i < |s.h.frames| ==> Robotalk.Accepts(s.h.frames[i]))
    && (s.c.sending ==>
          Sealed(Current(s)) && Current(s)[0] == ENQ && s.c.sendPos <= Size(Current(s)))
    && (s.c.sending && s.c.comm.mode.Queue? ==> s.c.noDequeue)
    && Heads(s)
  }

  /** Packets that may be sent begin with ENQ. */
  predicate Heads(s: State) {
    && s.ack[0] == ENQ && s.nak[0] == ENQ
    && (s.c.noDequeue ==> s.sendData.packet[0] == ENQ)
    && (forall i :: 0 <= i < |s.sendQ| ==> s.sendQ[i].packet[0] == ENQ)
  }

  /** The two ends' checks agree: check_cd on a packet that begins with ENQ is the ROBOTalk
      check on the frame. */
  lemma ChecksAgree(p: Packet)
    requires p[0] == ENQ
    ensures Sealed(p) <==> Robotalk.Accepts(Frame(p))
  {
    var n := HEADER + p[1];
    var f := Frame(p);
    assert f[..|f| - 2] == p[..n];
    assert p[..n] == p[..1] + p[1..n];
    Robotalk.SumAppend(p[..1], p[1..n]);
    assert p[..1][..0] == [];
    assert Robotalk.Sum(p[..1]) == ENQ;
  }

  /** set_cd makes check_cd succeed and keeps everything else of the frame. */
  lemma SealSeals(p: Packet)
    ensures Sealed(Seal(p)) && Size(Seal(p)) == Size(p) && Seal(p)[0] == p[0]
  {
    var n := HEADER + p[1];
    assert Seal(p)[1..n] == p[1..n];
  }

  /** The packet whose byte leaves is sealed, and differs from the stored one only when its first
      byte leaves. */
  lemma OutgoingSealed(s: State)
    requires s.c.sendPos > 0 ==> Sealed(Current(s))
    ensures Sealed(Outgoing(s)) && Size(Outgoing(s)) == Size(Current(s))
    ensures Outgoing(s)[0] == Current(s)[0]
    ensures s.c.sendPos > 0 ==> Outgoing(s) == Current(s)
  {
    hide Sealed, Seal;
    SealSeals(Marked(Current(s), s.c.comm.retry));
  }

  lemma TransmitHeads(s: State)
    requires Heads(s) && s.c.sendPos < Size(Current(s))
    ensures Heads(Transmit(s))
  {
    hide Outgoing;
    HeadOutgoing(s);
  }

  lemma CurrentHead(s: State)
    requires Heads(s) && (s.c.comm.mode.Queue? ==> s.c.noDequeue)
    ensures Current(s)[0] == ENQ
  {
  }

  lemma HeadOutgoing(s: State)
    ensures Outgoing(s)[0] == Current(s)[0]
  {
    SealSeals(Marked(Current(s), s.c.comm.retry));
  }

  lemma TransmitByte(s: State)
    requires Wire(s) && !s.c.receiving && s.c.sendPos < Size(Current(s))
    requires s.c.comm.mode.Queue? ==> s.c.noDequeue
    ensures Wire(Transmit(s))
  {
    hide Sealed, Outgoing, Heads, Concat, Robotalk.Accepts;
    var q, pos := Outgoing(s), s.c.sendPos;
    OutgoingSealed(s);
    var t := Transmit(s);
    TransmitHeads(s);
    CurrentHead(s);
    assert Current(t) == q;
    assert q[..pos] == Partial(s);
    assert q[..pos + 1] == q[..pos] + [q[pos]];
    assert t.h.tx == Concat(t.h.frames) + Partial(t);
  }

  lemma TransmitEnd(s: State)
    requires Wire(s) && !s.c.receiving && s.c.sendPos >= Size(Current(s))
    ensures Wire(Transmit(s))
  {
    ChecksAgree(Current(s));
    var t := Transmit(s);
    assert t.h.frames[..|t.h.frames| - 1] == s.h.frames;
    assert Partial(t) == [];
  }

  lemma TransmitWire(s: State)
    requires Wire(s) && !s.c.receiving
    requires s.c.comm.mode.Queue? ==> s.c.noDequeue
    ensures Wire(Transmit(s))
  {
    if s.c.sendPos < Size(Current(s)) { TransmitByte(s); } else { TransmitEnd(s); }
  }

  lemma SetSendWire(s: State)
    requires Wire(s)
    ensures Wire(SetSend(s))
  {
    hide Transmit;
    if s.c.receiving {
    } else if WantsCommand(s) {
      if s.sendQ != [] {
        TransmitWire(Take(Wake(s)));
      }
    } else {
      TransmitWire(s);
    }
  }

  /** Bytes in frame change nothing but the receive side. */
  lemma {:induction false} InFrameQuiet(s: State, rx: seq<Byte>)
    requires InFrame(s.a, rx)
    ensures var t := GetRecvAll(s, rx);
            && t.a == AssembleAll(s.a, rx) && t.c == s.c && t.sendQ == s.sendQ
            && t.sendData == s.sendData && t.ack == s.ack && t.nak == s.nak
            && t.h.tx == s.h.tx && t.h.frames == s.h.frames
  {
    if rx != [] { InFrameQuiet(s, rx[..|rx| - 1]); }
  }

  lemma CheckRetryWire(s: State)
    requires Wire(s) && s.c.receiving
    ensures Wire(s.(c := CheckRetry(s.c)))
  {
    CheckRetryKeepsPhases(s.c);
    CheckRetryNoDequeue(s.c);
    var t := s.(c := CheckRetry(s.c));
    assert Partial(t) == [] == Partial(s);
  }

  lemma DispatchWire(s: State)
    requires Wire(s)
    ensures Wire(DispatchNext(s))
  {
    hide React, Classify;
    if !s.c.sending && s.recvQ != [] {
      var t := RecvDequeue(s);
      var v := Classify(t.dispatch, t.sendData.packet);
      ReactKeepsPhases(t.c, v);
      ReactNoDequeue(t.c, v);
      assert Partial(Dispatch(t)) == [] == Partial(s);
    }
  }

  /** The sender and the dispatcher leave the receive buffer alone. */
  lemma AssemblerApart(s: State)
    ensures SetSend(s).a == s.a && SetSend(s).h.assembled == s.h.assembled
    ensures DispatchNext(s).a == s.a && DispatchNext(s).h.assembled == s.h.assembled
  {
    hide React, Classify, Outgoing;
  }

  lemma ReceiveWire(s: State, rx: seq<Byte>)
    requires Wire(s) && InFrame(s.a, rx)
    ensures Wire(Receive(s, rx)) && Receive(s, rx).a == AssembleAll(s.a, rx)
  {
    hide CheckRetry, Wire;
    if rx != [] {
      InFrameQuiet(s, rx);
      SameWire(s, GetRecvAll(s, rx));
    } else if s.c.receiving {
      CheckRetryWire(s);
    }
  }

  lemma SameWire(s: State, t: State)
    requires Wire(s)
    requires t.c == s.c && t.sendQ == s.sendQ && t.sendData == s.sendData && t.ack == s.ack
    requires t.nak == s.nak && t.h.tx == s.h.tx && t.h.frames == s.h.frames
    ensures Wire(t)
  {
    assert Partial(t) == Partial(s);
  }

  lemma CycleWire(s: State, rx: seq<Byte>)
    requires Wire(s) && InFrame(s.a, rx)
    ensures Wire(Cycle(s, rx))
  {
    hide SetSend, Receive, DispatchNext, Wire;
    var t := SetSend(s);
    SetSendWire(s);
    AssemblerApart(s);
    ReceiveWire(t, rx);
    DispatchWire(Receive(t, rx));
  }

  // ---------- what the frame assembler delivers ----------

  /** All bytes received in a run. */
  function Received(inputs: seq<Input>): seq<Byte> {
    if inputs == [] then []
    else
      Received(inputs[..|inputs| - 1])
      + (if inputs[|inputs| - 1].Tick? then inputs[|inputs| - 1].rx else [])
  }

  /** The packets completed while `rx` is assembled. */
  function Packets(a: Assembler, rx: seq<Byte>): seq<Packet> {
    if rx == [] then []
    else
      var b, last := AssembleAll(a, rx[..|rx| - 1]), rx[|rx| - 1];
      Packets(a, rx[..|rx| - 1]) + (if !Stray(b, last) && Completes(b, last) then [Store(b, last)] else [])
  }

  lemma {:induction false} AssembleAppend(a: Assembler, x: seq<Byte>, y: seq<Byte>)
    ensures AssembleAll(a, x + y) == AssembleAll(AssembleAll(a, x), y)
    ensures Packets(a, x + y) == Packets(a, x) + Packets(AssembleAll(a, x), y)
    ensures InFrame(a, x + y) <==> InFrame(a, x) && InFrame(AssembleAll(a, x), y)
  {
    hide Assemble, Stray, Completes, Store;
    if y == [] {
      assert x + y == x;
    } else {
      AssembleAppend(a, x, y[..|y| - 1]);
      assert (x + y)[..|x + y| - 1] == x + y[..|y| - 1];
    }
  }

  /** The receive queue holds what was assembled and neither lost nor dispatched, in order. */
  predicate Delivery(s: State) {
    && |s.h.assembled| == |s.h.dispatched| + |s.recvQ| + s.h.lost
    && (s.h.lost == 0 ==> s.h.assembled == s.h.dispatched + s.recvQ)
  }

  lemma RecvEnqueueDelivers(s: State, p: Packet)
    requires Delivery(s)
    ensures var t := RecvEnqueue(s, p);
            Delivery(t) && t.a == s.a && t.h.assembled == s.h.assembled + [p]
  {
  }

  lemma {:induction false} GetRecvAllDelivers(s: State, rx: seq<Byte>)
    requires Delivery(s)
    ensures var t := GetRecvAll(s, rx);
            && Delivery(t) && t.a == AssembleAll(s.a, rx)
            && t.h.assembled == s.h.assembled + Packets(s.a, rx)
  {
    hide CheckRetry, Store, Completes;
    if rx != [] {
      var t, last := GetRecvAll(s, rx[..|rx| - 1]), rx[|rx| - 1];
      GetRecvAllDelivers(s, rx[..|rx| - 1]);
      if !Stray(t.a, last) && Completes(t.a, last) {
        RecvEnqueueDelivers(t.(a := Assemble(t.a, last)), Store(t.a, last));
      }
    }
  }

  lemma ReceiveDelivers(s: State, rx: seq<Byte>)
    requires Delivery(s)
    ensures var t := Receive(s, rx);
            && Delivery(t) && t.a == AssembleAll(s.a, rx)
            && t.h.assembled == s.h.assembled + Packets(s.a, rx)
  {
    if rx != [] { GetRecvAllDelivers(s, rx); }
  }

  lemma SetSendDelivers(s: State)
    requires Delivery(s)
    ensures Delivery(SetSend(s))
  {
    hide Outgoing;
  }

  lemma DispatchDelivers(s: State)
    requires Delivery(s)
    ensures Delivery(DispatchNext(s))
  {
    hide React, Classify;
    if !s.c.sending && s.recvQ != [] {
      assert s.recvQ == [s.recvQ[0]] + s.recvQ[1..];
      var t := RecvDequeue(s);
      assert Delivery(t);
      assert Dispatch(t).recvQ == t.recvQ;
    }
  }

  lemma CycleDelivers(s: State, rx: seq<Byte>)
    requires Delivery(s)
    ensures var t := Cycle(s, rx);
            && Delivery(t) && t.a == AssembleAll(s.a, rx)
            && t.h.assembled == s.h.assembled + Packets(s.a, rx)
  {
    hide SetSend, Receive, DispatchNext;
    SetSendDelivers(s);
    AssemblerApart(s);
    ReceiveDelivers(SetSend(s), rx);
    DispatchDelivers(Receive(SetSend(s), rx));
    AssemblerApart(Receive(SetSend(s), rx));
  }

  /** What the assembler delivers depends on the received bytes alone and not on how they were
      grouped into cycles or on anything the sender does; and while no packet was lost to a full
      receive queue, packets are dispatched in the order of their arrival. */
  lemma {:induction false} DeliveryIgnoresGrouping(inputs: seq<Input>)
    ensures var s := Run(Initial(), inputs);
            && s.a == AssembleAll(Initial().a, Received(inputs))
            && s.h.assembled == Packets(Initial().a, Received(inputs))
            && Delivery(s)
  {
    hide Cycle;
    if inputs != [] {
      var before, i := inputs[..|inputs| - 1], inputs[|inputs| - 1];
      var s := Run(Initial(), before);
      DeliveryIgnoresGrouping(before);
      match i {
        case Submit(d) => assert Received(inputs) == Received(before);
        case SubmitSync(d) => assert Received(inputs) == Received(before);
        case Tick(rx) =>
          assert Received(inputs) == Received(before) + rx;
          CycleDelivers(s, rx);
          AssembleAppend(Initial().a, Received(before), rx);
      }
    }
  }

  /** A frame as it travels: ENQ, a length byte of at most 24, and as many bytes as that says. */
  predicate FrameShape(f: seq<Byte>) {
    |f| >= MIN && f[0] == ENQ && f[1] <= MAX_DATA && |f| == MIN + f[1]
  }

  lemma {:induction false} FramePrefix(a: Assembler, f: seq<Byte>, n: nat)
    requires a.pos == 0 && FrameShape(f) && n < |f|
    ensures var b := AssembleAll(a, f[..n]); b.pos == n && b.buf[..n] == f[..n]
    ensures Packets(a, f[..n]) == [] && InFrame(a, f[..n])
  {
    if n > 0 {
      FramePrefix(a, f, n - 1);
      assert f[..n][..n - 1] == f[..n - 1];
      StoreNext(AssembleAll(a, f[..n - 1]), f, n - 1);
    }
  }

  /** The next byte of a frame goes behind the ones already stored, and only the last byte
      completes the packet. */
  lemma StoreNext(b: Assembler, f: seq<Byte>, n: nat)
    requires FrameShape(f) && n < |f| && b.pos == n && b.buf[..n] == f[..n]
    ensures Store(b, f[n])[..n + 1] == f[..n + 1]
    ensures !Stray(b, f[n]) && (Completes(b, f[n]) <==> n == |f| - 1)
  {
    var p := Store(b, f[n]);
    assert f[..n + 1] == f[..n] + [f[n]];
    assert p[..n + 1] == p[..n] + [p[n]];
    assert p[..n] == b.buf[..n];
    if n >= 1 {
      assert p[1] == p[..n + 1][1] == f[..n + 1][1] == f[1];
    }
  }

  /** One whole frame is assembled into one packet that carries exactly that frame. */
  lemma OneFrame(a: Assembler, f: seq<Byte>)
    requires a.pos == 0 && FrameShape(f)
    ensures AssembleAll(a, f).pos == 0 && InFrame(a, f)
    ensures |Packets(a, f)| == 1 && Frame(Packets(a, f)[0]) == f
  {
    var n := |f| - 1;
    FramePrefix(a, f, n);
    var b := AssembleAll(a, f[..n]);
    StoreNext(b, f, n);
    assert Packets(a, f) == [Store(b, f[n])];
    assert f[..n + 1] == f;
    assert Store(b, f[n])[1] == f[1];
  }

  function FramesOf(packets: seq<Packet>): seq<seq<Byte>> {
    if packets == [] then []
    else FramesOf(packets[..|packets| - 1]) + [Frame(packets[|packets| - 1])]
  }

  lemma OneMoreFrame(a: Assembler, x: seq<Byte>, f: seq<Byte>)
    requires AssembleAll(a, x).pos == 0 && InFrame(a, x) && FrameShape(f)
    ensures AssembleAll(a, x + f).pos == 0 && InFrame(a, x + f)
    ensures FramesOf(Packets(a, x + f)) == FramesOf(Packets(a, x)) + [f]
  {
    AssembleAppend(a, x, f);
    OneFrame(AssembleAll(a, x), f);
    var ps, last := Packets(a, x), Packets(AssembleAll(a, x), f);
    assert last == [last[0]];
    assert (ps + last)[..|ps + last| - 1] == ps;
  }

  lemma NothingAssembled(a: Assembler)
    ensures AssembleAll(a, []) == a && InFrame(a, []) && Packets(a, []) == []
  {
  }

  /** Whatever the chunks, a stream made of whole frames is delivered as exactly those frames,
      in order, none out of frame. */
  lemma {:induction false} FramesComeOut(a: Assembler, frames: seq<seq<Byte>>)
    requires a.pos == 0 && forall i :: 0 <= i < |frames| ==> FrameShape(frames[i])
    ensures AssembleAll(a, Concat(frames)).pos == 0 && InFrame(a, Concat(frames))
    ensures FramesOf(Packets(a, Concat(frames))) == frames
  {
    hide Packets, AssembleAll, InFrame, FrameShape;
    if frames != [] {
      var n := |frames| - 1;
      FramesComeOut(a, frames[..n]);
      OneMoreFrame(a, Concat(frames[..n]), frames[n]);
      assert frames == frames[..n] + [frames[n]];
    } else {
      NothingAssembled(a);
    }
  }

  lemma {:induction false} FramesOfAppend(a: seq<Packet>, b: seq<Packet>)
    ensures |FramesOf(b)| == |b| && FramesOf(a + b) == FramesOf(a) + FramesOf(b)
  {
    if b == [] {
      assert a + b == a;
    } else {
      FramesOfAppend(a, b[..|b| - 1]);
      assert (a + b)[..|a + b| - 1] == a + b[..|b| - 1];
    }
  }

  /** Over a whole run: if what was received is a stream of frames, cut into cycles in any way, then what
      was dispatched and what waits are exactly those frames in order if and only if no packet found
      the receive queue full. */
  lemma FramesArriveExactly(inputs: seq<Input>, frames: seq<seq<Byte>>)
    requires Received(inputs) == Concat(frames)
    requires forall i :: 0 <= i < |frames| ==> FrameShape(frames[i])
    ensures var s := Run(Initial(), inputs);
            && FramesOf(s.h.assembled) == frames
            && (FramesOf(s.h.dispatched + s.recvQ) == frames <==> s.h.lost == 0)
  {
    hide Run, Packets, AssembleAll, InFrame, FrameShape, FramesOf;
    var s := Run(Initial(), inputs);
    DeliveryIgnoresGrouping(inputs);
    FramesComeOut(Initial().a, frames);
    FramesOfAppend([], s.h.assembled);
    FramesOfAppend([], s.h.dispatched + s.recvQ);
  }

  /** Commands that begin with ENQ, as create_psu_packet makes them. */
  predicate Proper(inputs: seq<Input>) {
    forall i :: 0 <= i < |inputs| && !inputs[i].Tick? ==> inputs[i].command.packet[0] == ENQ
  }

  lemma SubmitWire(s: State, d: CommData)
    requires Wire(s) && d.packet[0] == ENQ
    ensures Wire(Enqueue(s, d)) && Wire(Step(s, SubmitSync(d)))
  {
    var t := Enqueue(s, d);
    assert Partial(t) == Partial(s);
    assert Heads(t);
    if !s.syncWait && |s.sendQ| < QUEUE_ROOM {
      SameWire(t, t.(syncWait := true));
    }
  }

  lemma {:induction false} WireKept(inputs: seq<Input>)
    requires Proper(inputs) && InFrame(Initial().a, Received(inputs))
    ensures Wire(Run(Initial(), inputs))
  {
    hide Cycle;
    if inputs != [] {
      var before, i := inputs[..|inputs| - 1], inputs[|inputs| - 1];
      var s := Run(Initial(), before);
      AssembleAppend(Initial().a, Received(before), if i.Tick? then i.rx else []);
      WireKept(before);
      DeliveryIgnoresGrouping(before);
      match i {
        case Submit(d) => SubmitWire(s, d);
        case SubmitSync(d) => SubmitWire(s, d);
        case Tick(rx) => CycleWire(s, rx);
      }
    } else {
    }
  }

  /** While no out-of-frame byte arrives, everything the driver has sent is a concatenation of
      whole frames, each accepted by the checksum test of either end, followed by a proper or
      improper prefix of one more sealed packet. */
  lemma WholeFramesOnly(inputs: seq<Input>)
    requires Proper(inputs) && InFrame(Initial().a, Received(inputs))
    ensures var s := Run(Initial(), inputs);
            && s.c.sendPos <= 32
            && s.h.tx == Concat(s.h.frames) + Current(s)[..s.c.sendPos]
            && (forall i :: 0 <= i < |s.h.frames| ==> Robotalk.Accepts(s.h.frames[i]))
            && (s.c.sendPos > 0 ==> Sealed(Current(s)) && Robotalk.Accepts(Frame(Current(s))))
  {
    hide Cycle;
    WireKept(inputs);
    var s := Run(Initial(), inputs);
    if s.c.sendPos > 0 { ChecksAgree(Current(s)); }
  }
}
