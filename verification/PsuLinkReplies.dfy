/** What received packets, expired waits and waiting callers do to the power supply link, case by case. */
module PsuLinkReplies {
  import opened Bytes
  import opened PsuLink
  import opened PsuLinkRuns

  // ---------- received packets ----------

  /** The state saved last, or the current one if none is saved; and what then is still saved. */
  function Top(c: Control): Comm {
    if c.stack == [] then c.comm else c.stack[|c.stack| - 1]
  }

  function Rest(c: Control): seq<Comm> {
    if c.stack == [] then [] else c.stack[..|c.stack| - 1]
  }

  /** At most four states are saved. */
  function SavedOn(stack: seq<Comm>, m: Comm): seq<Comm> {
    if |stack| < 4 then stack + [m] else stack
  }

  /** The driver goes on with this state, these saved ones and this fault besides. */
  predicate GoesOn(c: Control, d: Control, m: Comm, stack: seq<Comm>, faults: set<Fault>) {
    && d.comm == m && d.stack == stack && d.faults == c.faults + faults
    && d.timeout == c.timeout && d.sendPos == c.sendPos && d.sending == c.sending
  }

  /** An ACK or a REJ brings the saved state back.  It releases the command if it names it, a REJ with a fault;
      otherwise the wait goes on. */
  lemma AnswerExactly(c: Control, ack: bool, matching: bool)
    ensures var d := React(c, Answer(ack, matching));
            && GoesOn(c, d, Top(c), Rest(c), if matching && !ack then {RecvRej} else {})
            && d.noDequeue == (c.noDequeue && !matching) && d.receiving == (c.receiving || !matching)
  {
  }

  /** A NAK brings the saved state back and is counted; the eighth releases the command with a fault. */
  lemma NakExactly(c: Control)
    ensures var d := React(c, NakReply);
            var n := Top(c).nakRecv + 1;
            && GoesOn(c, d, Top(c).(nakRecv := n), Rest(c), if n >= 8 then {RecvNakOver} else {})
            && d.noDequeue == (c.noDequeue && n < 8) && d.receiving == c.receiving
  {
  }

  /** A warning is a fault; the saved state is saved again, and an ACK is sent from the first attempt on. */
  lemma WarningExactly(c: Control)
    ensures var d := React(c, Warning);
            && GoesOn(c, d, Comm(0, 0, 0, Ack), SavedOn(Rest(c), Top(c)), {ErrWarn})
            && d.noDequeue == c.noDequeue && d.receiving == c.receiving
  {
  }

  /** Any other packet with a right checksum releases the command with a fault. */
  lemma StrangeExactly(c: Control)
    ensures var d := React(c, Strange);
            GoesOn(c, d, Top(c), Rest(c), {RecvUnknown}) && !d.noDequeue && d.receiving == c.receiving
  {
  }

  /** A wrong checksum is counted.  The eighth is a fault; before that, if no NAK is being sent already, the
      state is saved and a NAK is sent from the first attempt on. */
  lemma BadExactly(c: Control)
    ensures var d, m := React(c, Bad), c.comm.(nakSend := c.comm.nakSend + 1);
            && (if m.nakSend >= 8 then GoesOn(c, d, m, c.stack, {SendNakOver})
                else if m.mode.Nak? then GoesOn(c, d, m, c.stack, {})
                else GoesOn(c, d, Comm(0, 1, 0, Nak), SavedOn(c.stack, m), {}))
            && d.noDequeue == c.noDequeue && d.receiving == c.receiving
  {
  }

  /** What the end of a cycle does: with nothing being sent, the packet that has waited longest is taken, the
      wait for a packet ends, and the packet has its effect; a warning is named in the next ACK. */
  lemma DispatchedExactly(s: State)
    ensures var t := DispatchNext(s);
            if s.c.sending || s.recvQ == [] then t == s
            else
              var p := s.recvQ[0];
              var v := Classify(p, s.sendData.packet);
              && t.recvQ == s.recvQ[1..] && t.dispatch == p && t.h.dispatched == s.h.dispatched + [p]
              && t.c == React(s.c.(receiving := false), v)
              && (!v.Warning? ==> t.ack == s.ack)
              && (v.Warning? ==> t.ack[6] == p[2] && t.ack[7] == p[3]
                                 && t.ack[..6] == s.ack[..6] && t.ack[8..] == s.ack[8..])
              && t.nak == s.nak && t.sendData == s.sendData && t.sendQ == s.sendQ && t.a == s.a
              && t.syncWait == s.syncWait
  {
    hide React, Classify, ResultBytes;
  }

  // ---------- expired waits ----------

  /** A retry check counts; with the 160th count the packet is sent again, and after eight attempts the command is
      given up with a fault, a NAK in favour of the saved state.  A state in which an ACK was sent gives way to
      the one saved before, and one with eight NAKs to the one before that. */
  lemma CheckExactly(c: Control)
    ensures var d, n := CheckRetry(c), c.timeout + 1;
            var popped := if c.comm.mode.Ack? then c.(comm := Top(c), stack := Rest(c)) else c;
            var m := popped.comm.(retry := popped.comm.retry + 1);
            && d.timeout == n && d.sendPos == c.sendPos && d.sending == c.sending
            && (if n < 160 then d == c.(timeout := n)
                else if !c.comm.mode.Queue? && popped.comm.nakSend == 8 then
                  GoesOn(c.(timeout := n), d, Top(popped), Rest(popped), {}) && d.noDequeue == c.noDequeue
                  && d.receiving == c.receiving
                else if m.retry < 8 then
                  GoesOn(c.(timeout := n), d, m, popped.stack, {}) && d.noDequeue == c.noDequeue && !d.receiving
                else if m.mode.Nak? then
                  GoesOn(c.(timeout := n), d, Top(popped.(comm := m)), Rest(popped), {TimeoutOver})
                  && d.noDequeue == c.noDequeue && !d.receiving
                else
                  GoesOn(c.(timeout := n), d, m, popped.stack, {TimeoutOver}) && !d.noDequeue && !d.receiving)
  {
    var popped := if c.comm.mode.Ack? then c.(comm := Top(c), stack := Rest(c)) else c;
    hide SendRetry;
    if c.timeout + 1 >= 160 { RetryExactly(popped.(timeout := c.timeout + 1)); }
  }

  lemma RetryExactly(c: Control)
    ensures var d, m := SendRetry(c), c.comm.(retry := c.comm.retry + 1);
            && !d.receiving
            && (if m.retry < 8 then GoesOn(c, d, m, c.stack, {}) && d.noDequeue == c.noDequeue
                else if m.mode.Nak? then
                  GoesOn(c, d, Top(c.(comm := m)), Rest(c), {TimeoutOver}) && d.noDequeue == c.noDequeue
                else GoesOn(c, d, m, c.stack, {TimeoutOver}) && !d.noDequeue)
  {
  }

  // ---------- queues and callers ----------

  /** A command is queued behind the others unless five wait, and a packet that finds five waiting is lost. */
  lemma QueuedExactly(s: State, d: CommData, p: Packet)
    ensures var t, u := Enqueue(s, d), RecvEnqueue(s, p);
            && t == s.(sendQ := t.sendQ, h := t.h) && u == s.(recvQ := u.recvQ, h := u.h)
            && (if |s.sendQ| < 5 then t.sendQ == s.sendQ + [d] && t.h.accepted == s.h.accepted + [d]
                else t == s)
            && (if |s.recvQ| < 5 then u.recvQ == s.recvQ + [p] && u.h.lost == s.h.lost
                else u.recvQ == s.recvQ && u.h.lost == s.h.lost + 1)
  {
  }

  /** Over every run at most five commands and five packets wait. */
  lemma {:induction false} QueuesBounded(inputs: seq<Input>)
    ensures |Run(Initial(), inputs).sendQ| <= 5 && |Run(Initial(), inputs).recvQ| <= 5
  {
    hide Cycle;
    if inputs != [] {
      var s, i := Run(Initial(), inputs[..|inputs| - 1]), inputs[|inputs| - 1];
      QueuesBounded(inputs[..|inputs| - 1]);
      if i.Tick? { CycleBounded(s, i.rx); }
    }
  }

  lemma CycleBounded(s: State, rx: seq<Byte>)
    requires |s.sendQ| <= 5 && |s.recvQ| <= 5
    ensures |Cycle(s, rx).sendQ| <= 5 && |Cycle(s, rx).recvQ| <= 5
  {
    hide React, Classify, Outgoing, CheckRetry;
    GetRecvAllBounded(SetSend(s), rx);
  }

  lemma {:induction false} GetRecvAllBounded(s: State, rx: seq<Byte>)
    requires |s.recvQ| <= 5
    ensures |GetRecvAll(s, rx).recvQ| <= 5 && GetRecvAll(s, rx).sendQ == s.sendQ
  {
    hide CheckRetry, Store, Completes, Assemble;
    if rx != [] { GetRecvAllBounded(s, rx[..|rx| - 1]); }
  }

  /** A caller that wants to wait is refused while another one waits or five commands are queued; otherwise its
      command is queued and it waits. */
  lemma SyncExactly(s: State, d: CommData)
    ensures var t := Step(s, SubmitSync(d));
            if s.syncWait || |s.sendQ| >= 5 then t == s
            else t.sendQ == s.sendQ + [d] && t.syncWait && t.h.accepted == s.h.accepted + [d] && t.c == s.c
  {
  }

  /** It is woken exactly in the cycle in which the next command may be taken and the one before was that of a
      waiting caller. */
  lemma WokenExactly(s: State, rx: seq<Byte>)
    ensures Cycle(s, rx).syncWait
            <==> s.syncWait && !(!s.c.receiving && s.c.comm.mode.Queue? && !s.c.noDequeue && s.sendData.wait)
  {
    hide React, Classify, Outgoing, CheckRetry;
    SyncKept(SetSend(s), rx);
  }

  lemma {:induction false} SyncKept(s: State, rx: seq<Byte>)
    ensures GetRecvAll(s, rx).syncWait == s.syncWait
  {
    hide CheckRetry, Store, Completes, Assemble;
    if rx != [] { SyncKept(s, rx[..|rx| - 1]); }
  }

  /** The two packets that answer by themselves, as they are at the start. */
  lemma AnswersAtStart()
    ensures var s := Initial();
            && Command(s.ack) == 0x020E && s.ack[1] == 2 && s.ack[6] == 0 && s.ack[7] == 0
            && Command(s.nak) == 0x820E && s.nak[1] == 0
  {
    CreatedPacket(0x020E, [0, 0]);
    CreatedPacket(0x820E, []);
    hide Create;
    var p := Create(0x020E, [0, 0]);
    assert p[6] == p[6..8][0] && p[7] == p[6..8][1];
  }
}
