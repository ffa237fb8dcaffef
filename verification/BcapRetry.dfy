/** The request/retry protocol of b-CAP on UDP and serial lines, send_receive and receive_execute. */
module BcapRetry {
  import opened Common

  // send_receive is in library/src/bCAPClient/bcap_client.c, receive_execute and bcap_callfunc are in
  // library/src/bCAPServer/bcap_server.c.
  // The client numbers every attempt afresh and names the first attempt of the call in `reserv`; the server
  // remembers the serial of the attempt it executed last and does not execute a request that names that
  // serial again.

  const RETRY_MIN := 1
  const RETRY_MAX := 7
  const WRAP := 65535  // serial numbers run from 1 to 65535

  // ---------- messages ----------

  /** A request packet.  `call` stands for its function and arguments: calls are numbered as the
      client makes them.  `attempt` is a history that nobody reads: the number of the attempt. */
  datatype Request = Request(serial: nat, reserv: nat, call: nat, attempt: nat)

  /** What a reply says: that the request is still being executed, that it is refused (E_MAX_OBJECT, wrong
      start options), or its answer. */
  datatype Content = Executing | Refusal | Answer

  /** A reply packet; an answer is that of execution number `body`.  `call` and `attempt` are histories:
      what it is a reply to. */
  datatype Reply = Reply(serial: nat, content: Content, body: nat, call: nat, attempt: nat)

  /** serial++ on a uint16_t, with 0 replaced by 1. */
  function NextSerial(serial: nat): nat {
    var next := (serial + 1) % 0x1_0000;
    if next == 0 then 1 else next
  }

  /** The serial number of an attempt. */
  function SerialOf(attempt: nat): (s: nat)
    ensures 1 <= s <= WRAP
  {
    attempt % WRAP + 1
  }

  lemma SerialStep(n: nat)
    ensures NextSerial(SerialOf(n)) == SerialOf(n + 1)
  {
  }

  /** Fewer than 65535 attempts apart, serials tell attempts apart. */
  lemma SerialsDiffer(a: nat, b: nat)
    requires a < b < a + WRAP
    ensures SerialOf(a) != SerialOf(b)
  {
    var d := b - a;
    assert b % WRAP == (a % WRAP + d) % WRAP;
  }

  // ---------- the server ----------

  /** The record the server keeps: the serial and the answer it sent last. */
  datatype Record = Record(serial: nat, body: nat)

  /** The number a request is compared by. */
  function Key(q: Request): nat {
    if q.reserv == 0 then q.serial else q.reserv
  }

  /** Whether the request counts as already answered. */
  predicate Answered(r: Record, q: Request) {
    r.serial == Key(q)
  }

  // ---------- the client ----------

  datatype Phase = Idle | Waiting(base: nat, current: nat, tries: nat)

  /** A reply that ends the call: its serial is that of the attempt just made, and it is not an
      S_EXECUTING notice. */
  predicate EndsCall(current: nat, r: Reply) {
    r.serial == current && !r.content.Executing?
  }

  // ---------- both ends and the channels between them ----------

  /** Histories: `nextAttempt` counts the attempts made, `firsts` holds the number of the first
      attempt of every call, `heard` the requests that the server took and did not refuse, `log` the calls in
      the order of their executions, `lastAttempt` the attempt executed last (-1 before the
      first), and `results` the calls that ended with an answer, with its execution. */
  datatype World = World(
    retry: nat, serial: nat, phase: Phase,
    toServer: seq<Request>, toClient: seq<Reply>, record: Record,
    nextAttempt: nat, firsts: seq<nat>, heard: seq<Request>, log: seq<nat>, lastAttempt: int,
    results: seq<(nat, nat)>)

  function Start(retry: nat): World {
    World(retry, 1, Idle, [], [], Record(0, 0), 0, [], [], [], -1, [])
  }

  /** What becomes of a message when it is sent: it is on its way, it is lost, or the sender is told that
      it could not be sent. */
  datatype Fate = Sent | Lost | Unsent

  /** What may happen next.  Messages may be lost when they are sent or on the way, but never
      overtake each other.  While it executes, the server may send notices. */
  datatype Step =
    | Begin(fate: Fate)
    | Timeout(fate: Fate)
    | Deliver(notices: nat)
    | Refuse
    | Hear
    | LoseRequest(i: nat)
    | LoseReply(i: nat)

  /** One attempt: the serial register moves on, and a copy of the request leaves; if it cannot be sent,
      the call is over. */
  function SendCopy(w: World, base: nat, tries: nat, fate: Fate): World
    requires w.firsts != []
  {
    var q := Request(w.serial, base, |w.firsts| - 1, w.nextAttempt);
    w.(serial := NextSerial(w.serial), nextAttempt := w.nextAttempt + 1,
       phase := if fate.Unsent? then Idle else Waiting(base, w.serial, tries),
       toServer := if fate.Sent? then w.toServer + [q] else w.toServer)
  }

  /** The server takes a request: answered again from the record, or executed. */
  function Serve(w: World, q: Request, notices: nat): World {
    var v := w.(heard := w.heard + [q]);
    if Answered(w.record, q) then
      v.(toClient := w.toClient + [Reply(q.serial, Answer, w.record.body, q.call, q.attempt)])
    else
      var body := |w.log|;
      v.(log := w.log + [q.call], record := Record(q.serial, body), lastAttempt := q.attempt,
         toClient := w.toClient + seq(notices, i => Reply(q.serial, Executing, 0, q.call, q.attempt))
                     + [Reply(q.serial, Answer, body, q.call, q.attempt)])
  }

  function Next(w: World, s: Step): World {
    match s
    case Begin(fate) =>
      if w.phase.Waiting? then w
      else SendCopy(w.(firsts := w.firsts + [w.nextAttempt]), w.serial, 1, fate)
    case Timeout(fate) =>
      if w.phase.Idle? || w.firsts == [] then w
      else if w.phase.tries < w.retry then SendCopy(w, w.phase.base, w.phase.tries + 1, fate)
      else w.(phase := Idle)
    case Deliver(notices) =>
      if w.toServer == [] then w
      else Serve(w.(toServer := w.toServer[1..]), w.toServer[0], notices)
    case Refuse =>
      if w.toServer == [] || Answered(w.record, w.toServer[0]) then w
      else
        var q := w.toServer[0];
        w.(toServer := w.toServer[1..],
           toClient := w.toClient + [Reply(q.serial, Refusal, 0, q.call, q.attempt)])
    case Hear =>
      if w.phase.Idle? || w.toClient == [] then w
      else
        var r, v := w.toClient[0], w.(toClient := w.toClient[1..]);
        if EndsCall(w.phase.current, r) && w.firsts != [] then
          v.(phase := Idle,
             results := if r.content.Answer? then w.results + [(|w.firsts| - 1, r.body)] else w.results)
        else v
    case LoseRequest(i) => if i < |w.toServer| then w.(toServer := Without(w.toServer, i)) else w
    case LoseReply(i) => if i < |w.toClient| then w.(toClient := Without(w.toClient, i)) else w
  }

  function Run(w: World, steps: seq<Step>): World {
    if steps == [] then w else Next(Run(w, steps[..|steps| - 1]), steps[|steps| - 1])
  }

  /** Nothing that is still remembered or on its way is 65535 attempts old. */
  predicate Recent(w: World) {
    && w.nextAttempt - w.lastAttempt <= WRAP
    && (forall i :: 0 <= i < |w.toServer| ==> w.nextAttempt - w.toServer[i].attempt <= WRAP)
    && (forall i :: 0 <= i < |w.toClient| ==> w.nextAttempt - w.toClient[i].attempt <= WRAP)
  }

  /** Recent throughout the run. */
  predicate AlwaysRecent(w: World, steps: seq<Step>) {
    Recent(Run(w, steps)) && (steps == [] || AlwaysRecent(w, steps[..|steps| - 1]))
  }

  // ---------- counting ----------

  function Executions(log: seq<nat>, call: nat): nat {
    if log == [] then 0
    else Executions(log[..|log| - 1], call) + if log[|log| - 1] == call then 1 else 0
  }

  /** How many copies of a call the server took. */
  function Copies(heard: seq<Request>, call: nat): nat {
    if heard == [] then 0
    else Copies(heard[..|heard| - 1], call) + if heard[|heard| - 1].call == call then 1 else 0
  }

  /** The server took the first copy of the call. */
  predicate FirstHeard(heard: seq<Request>, firsts: seq<nat>, call: nat)
    requires call < |firsts|
  {
    heard != []
    && (heard[|heard| - 1].attempt == firsts[call] || FirstHeard(heard[..|heard| - 1], firsts, call))
  }

  lemma {:induction false} NoExecutions(log: seq<nat>, call: nat)
    requires call !in log
    ensures Executions(log, call) == 0
  {
    if log != [] {
      assert log[|log| - 1] in log;
      NoExecutions(log[..|log| - 1], call);
    }
  }

  lemma {:induction false} NoCopies(heard: seq<Request>, firsts: seq<nat>, call: nat)
    requires call < |firsts|
    requires forall i :: 0 <= i < |heard| ==> heard[i].call != call && heard[i].attempt != firsts[call]
    ensures Copies(heard, call) == 0 && !FirstHeard(heard, firsts, call)
  {
    if heard != [] { NoCopies(heard[..|heard| - 1], firsts, call); }
  }

  lemma {:induction false} FirstHeardMore(heard: seq<Request>, firsts: seq<nat>, more: seq<nat>, call: nat)
    requires call < |firsts|
    ensures FirstHeard(heard, firsts + more, call) == FirstHeard(heard, firsts, call)
  {
    if heard != [] { FirstHeardMore(heard[..|heard| - 1], firsts, more, call); }
  }

  /** An execution of a call that ran once is the only one. */
  lemma {:induction false} OnlyExecution(log: seq<nat>, call: nat, i: nat, j: nat)
    requires Executions(log, call) == 1
    requires i < |log| && j < |log| && log[i] == log[j] == call
    ensures i == j
  {
    var n := |log| - 1;
    if i < n && j < n {
      OneMore(log[..n], call, i);
      OnlyExecution(log[..n], call, i, j);
    } else if i < n {
      OneMore(log[..n], call, i);
    } else if j < n {
      OneMore(log[..n], call, j);
    }
  }

  lemma {:induction false} OneMore(log: seq<nat>, call: nat, i: nat)
    requires i < |log| && log[i] == call
    ensures Executions(log, call) >= 1
  {
    if i < |log| - 1 { OneMore(log[..|log| - 1], call, i); }
  }

  // ---------- the invariant ----------

  /** The first attempt that was not made for call `c`. */
  function End(w: World, c: nat): nat
    requires c < |w.firsts|
  {
    if c + 1 < |w.firsts| then w.firsts[c + 1] else w.nextAttempt
  }

  /** Attempt `a` was made for call `c`. */
  predicate Made(w: World, c: nat, a: int) {
    c < |w.firsts| && w.firsts[c] <= a < End(w, c)
  }

  predicate GoodRequest(w: World, q: Request) {
    Made(w, q.call, q.attempt) && q.serial == SerialOf(q.attempt) && q.reserv == SerialOf(w.firsts[q.call])
  }

  predicate GoodReply(w: World, r: Reply) {
    && Made(w, r.call, r.attempt) && r.serial == SerialOf(r.attempt)
    && (r.content.Answer? ==> r.body < |w.log| && w.log[r.body] == r.call)
  }

  predicate ClientOk(w: World) {
    && w.retry <= RETRY_MAX
    && w.serial == SerialOf(w.nextAttempt)
    && (forall c :: 0 <= c < |w.firsts| ==> w.firsts[c] < End(w, c) <= w.firsts[c] + RETRY_MAX)
    && (w.phase.Waiting? ==>
          && w.firsts != []
          && w.phase.base == SerialOf(w.firsts[|w.firsts| - 1])
          && w.phase.current == SerialOf(w.nextAttempt - 1)
          && w.nextAttempt - w.firsts[|w.firsts| - 1] == w.phase.tries)
  }

  predicate RequestsOk(w: World) {
    && (forall i :: 0 <= i < |w.toServer| ==> GoodRequest(w, w.toServer[i]))
    && (forall i, j :: 0 <= i < j < |w.toServer| ==> w.toServer[i].attempt < w.toServer[j].attempt)
    && (forall i :: 0 <= i < |w.toServer| ==> Last(w) < w.toServer[i].attempt)
  }

  /** The attempt heard last. */
  function Last(w: World): int {
    if w.heard == [] then -1 else w.heard[|w.heard| - 1].attempt
  }

  predicate RepliesOk(w: World) {
    forall i :: 0 <= i < |w.toClient| ==> GoodReply(w, w.toClient[i])
  }

  /** The record is of the call heard last, and of its first attempt if that one was heard. */
  predicate ServerOk(w: World) {
    if w.heard == [] then w.record == Record(0, 0) && w.lastAttempt == -1 && w.log == []
    else
      var q := w.heard[|w.heard| - 1];
      && Made(w, q.call, q.attempt)
      && w.record.body < |w.log| && w.log[w.record.body] == q.call
      && w.lastAttempt <= q.attempt && Made(w, q.call, w.lastAttempt)
      && w.record.serial == SerialOf(w.lastAttempt)
      && (w.lastAttempt == w.firsts[q.call] <==> FirstHeard(w.heard, w.firsts, q.call))
  }

  /** No call after the one heard last has been heard or executed. */
  predicate Ordered(w: World) {
    && (forall i :: 0 <= i < |w.heard| ==>
          w.heard[i].attempt <= Last(w) && w.heard[i].call <= w.heard[|w.heard| - 1].call)
    && (forall i :: 0 <= i < |w.log| ==>
          w.heard != [] && w.log[i] <= w.heard[|w.heard| - 1].call)
  }

  predicate Counted(w: World) {
    forall c :: 0 <= c < |w.firsts| ==>
      Executions(w.log, c) == if FirstHeard(w.heard, w.firsts, c) then 1 else Copies(w.heard, c)
  }

  predicate ResultsOk(w: World) {
    forall i :: 0 <= i < |w.results| ==>
      w.results[i].0 < |w.firsts| && w.results[i].1 < |w.log| && w.log[w.results[i].1] == w.results[i].0
  }

  predicate Inv(w: World) {
    ClientOk(w) && RequestsOk(w) && RepliesOk(w) && ServerOk(w) && Ordered(w) && Counted(w) && ResultsOk(w)
  }

  // ---------- every step keeps it ----------

  /** First attempts come in the order of the calls. */
  lemma {:induction false} FirstsGrow(w: World, c: nat, d: nat)
    requires ClientOk(w) && c < d < |w.firsts|
    ensures End(w, c) <= w.firsts[d]
    decreases d
  {
    hide SerialOf;
    if c + 1 < d {
      FirstsGrow(w, c, d - 1);
      assert End(w, d - 1) == w.firsts[d];
    }
  }

  /** An attempt belongs to one call, and later attempts do not belong to earlier calls. */
  lemma MadeOrdered(w: World, c: nat, a: int, d: nat, b: int)
    requires ClientOk(w) && Made(w, c, a) && Made(w, d, b) && a <= b
    ensures c <= d
  {
    if d < c { FirstsGrow(w, d, c); }
  }

  /** `v` has made the same attempts as `w` and perhaps one more. */
  predicate Extends(w: World, v: World) {
    && |w.firsts| <= |v.firsts| && v.firsts[..|w.firsts|] == w.firsts
    && (forall c :: 0 <= c < |w.firsts| ==> End(w, c) <= End(v, c))
    && w.log <= v.log
  }

  lemma RequestExtends(w: World, v: World, q: Request)
    requires Extends(w, v) && GoodRequest(w, q)
    ensures GoodRequest(v, q)
  {
  }

  lemma ReplyExtends(w: World, v: World, r: Reply)
    requires Extends(w, v) && GoodReply(w, r)
    ensures GoodReply(v, r)
  {
  }

  /** What does not involve the client keeps when only the client moves on. */
  lemma ClientMoves(w: World, v: World)
    requires Inv(w) && Extends(w, v)
    requires v.heard == w.heard && v.log == w.log && v.record == w.record && v.toClient == w.toClient
    requires v.lastAttempt == w.lastAttempt && v.results == w.results
    requires |v.firsts| <= |w.firsts| + 1
    requires |v.firsts| > |w.firsts| ==> v.firsts[|w.firsts|] == w.nextAttempt
    ensures RepliesOk(v) && ServerOk(v) && Ordered(v) && Counted(v) && ResultsOk(v)
  {
    hide GoodReply, Executions, Copies, FirstHeard, SerialOf;
    forall i | 0 <= i < |v.toClient|
      ensures GoodReply(v, v.toClient[i])
    {
      ReplyExtends(w, v, v.toClient[i]);
    }
    assert v.firsts == w.firsts + v.firsts[|w.firsts|..];
    forall c | 0 <= c < |v.firsts|
      ensures c < |w.firsts| ==> FirstHeard(v.heard, v.firsts, c) == FirstHeard(w.heard, w.firsts, c)
      ensures Executions(v.log, c) == if FirstHeard(v.heard, v.firsts, c) then 1 else Copies(v.heard, c)
    {
      if c < |w.firsts| {
        FirstHeardMore(w.heard, w.firsts, v.firsts[|w.firsts|..], c);
      } else {
        NewCallUnheard(w, v);
      }
    }
  }

  lemma NewCallUnheard(w: World, v: World)
    requires Inv(w) && v.heard == w.heard && v.log == w.log
    requires |v.firsts| == |w.firsts| + 1 && v.firsts[|w.firsts|] == w.nextAttempt
    ensures var c := |w.firsts|;
            Executions(v.log, c) == Copies(v.heard, c) == 0 && !FirstHeard(v.heard, v.firsts, c)
  {
    var c := |w.firsts|;
    if w.heard != [] {
      var q := w.heard[|w.heard| - 1];
      assert q.call < c && q.attempt < w.nextAttempt by { MadeBounds(w, q.call, q.attempt); }
    }
    NoExecutions(v.log, c);
    NoCopies(v.heard, v.firsts, c);
  }

  lemma MadeBounds(w: World, c: nat, a: int)
    requires ClientOk(w) && Made(w, c, a)
    ensures c < |w.firsts| && a < w.nextAttempt
  {
    if c + 1 < |w.firsts| {
      FirstsGrow(w, c, |w.firsts| - 1);
      assert w.firsts[|w.firsts| - 1] < End(w, |w.firsts| - 1);
    }
  }

  /** `v` is about to send: it is `w`, or `w` with a new call. */
  predicate AboutToSend(w: World, v: World, base: nat, tries: nat) {
    && Extends(w, v) && v.firsts != [] && v.retry == w.retry && v.nextAttempt == w.nextAttempt
    && v.serial == w.serial && v.toServer == w.toServer && v.heard == w.heard
    && (forall c :: 0 <= c < |v.firsts| - 1 ==> v.firsts[c] < End(v, c) <= v.firsts[c] + RETRY_MAX)
    && v.nextAttempt - v.firsts[|v.firsts| - 1] == tries - 1 && 1 <= tries <= RETRY_MAX
    && base == SerialOf(v.firsts[|v.firsts| - 1])
  }

  lemma SendCopyClient(w: World, v: World, base: nat, tries: nat, fate: Fate)
    requires ClientOk(w) && AboutToSend(w, v, base, tries)
    ensures var u := SendCopy(v, base, tries, fate); ClientOk(u) && Extends(w, u)
  {
    hide SerialOf, NextSerial;
    var u := SendCopy(v, base, tries, fate);
    SerialStep(w.nextAttempt);
    forall c | 0 <= c < |u.firsts|
      ensures u.firsts[c] < End(u, c) <= u.firsts[c] + RETRY_MAX
      ensures c < |w.firsts| ==> End(w, c) <= End(u, c)
    {
      assert c < |v.firsts| - 1 ==> End(u, c) == End(v, c);
    }
  }

  lemma SendCopyRequests(w: World, v: World, base: nat, tries: nat, fate: Fate)
    requires Inv(w) && AboutToSend(w, v, base, tries)
    ensures RequestsOk(SendCopy(v, base, tries, fate))
  {
    hide SerialOf, NextSerial, GoodRequest, RepliesOk, ServerOk, Ordered, Counted, ResultsOk;
    var u := SendCopy(v, base, tries, fate);
    SendCopyClient(w, v, base, tries, fate);
    LastBefore(w);
    forall i | 0 <= i < |w.toServer|
      ensures GoodRequest(u, w.toServer[i]) && w.toServer[i].attempt < w.nextAttempt
    {
      RequestExtends(w, u, w.toServer[i]);
      RequestBefore(w, w.toServer[i]);
    }
    var q := Request(v.serial, base, |v.firsts| - 1, v.nextAttempt);
    assert u.toServer == (if fate.Sent? then w.toServer + [q] else w.toServer) && Last(u) == Last(w);
    NewRequestGood(v, base, tries, q);
    assert GoodRequest(u, q) && q.attempt == w.nextAttempt;
  }

  /** Sending a copy. */
  lemma SendCopyKeeps(w: World, v: World, base: nat, tries: nat, fate: Fate)
    requires Inv(w) && AboutToSend(w, v, base, tries)
    ensures var u := SendCopy(v, base, tries, fate);
            ClientOk(u) && RequestsOk(u) && Extends(w, u)
  {
    SendCopyClient(w, v, base, tries, fate);
    SendCopyRequests(w, v, base, tries, fate);
  }

  lemma RequestBefore(w: World, q: Request)
    requires ClientOk(w) && GoodRequest(w, q)
    ensures q.attempt < w.nextAttempt
  {
    MadeBounds(w, q.call, q.attempt);
  }

  lemma LastBefore(w: World)
    requires Inv(w)
    ensures Last(w) < w.nextAttempt
  {
    if w.heard != [] {
      var q := w.heard[|w.heard| - 1];
      MadeBounds(w, q.call, q.attempt);
    }
  }

  lemma NewRequestGood(v: World, base: nat, tries: nat, q: Request)
    requires v.firsts != [] && v.serial == SerialOf(v.nextAttempt)
    requires v.nextAttempt >= v.firsts[|v.firsts| - 1] && base == SerialOf(v.firsts[|v.firsts| - 1])
    requires q == Request(v.serial, base, |v.firsts| - 1, v.nextAttempt)
    ensures forall fate :: GoodRequest(SendCopy(v, base, tries, fate), q)
  {
    hide SerialOf, NextSerial;
  }

  lemma BeginKeeps(w: World, fate: Fate)
    requires Inv(w) && w.phase.Idle?
    ensures Inv(Next(w, Begin(fate)))
  {
    hide GoodReply, GoodRequest, SerialOf, NextSerial, RequestsOk, RepliesOk, ServerOk, Ordered, Counted, ResultsOk;
    var v := w.(firsts := w.firsts + [w.nextAttempt]);
    assert forall c :: 0 <= c < |w.firsts| ==> End(v, c) == End(w, c);
    SendCopyKeeps(w, v, w.serial, 1, fate);
    ClientMoves(w, Next(w, Begin(fate)));
  }

  lemma TimeoutKeeps(w: World, fate: Fate)
    requires Inv(w)
    ensures Inv(Next(w, Timeout(fate)))
  {
    hide GoodReply, GoodRequest, SerialOf, NextSerial, RequestsOk, RepliesOk, ServerOk, Ordered, Counted, ResultsOk;
    var v := Next(w, Timeout(fate));
    if w.phase.Idle? || w.firsts == [] {
    } else if w.phase.tries < w.retry {
      SendCopyKeeps(w, w, w.phase.base, w.phase.tries + 1, fate);
      ClientMoves(w, v);
    } else {
      SameButPhase(w, v);
    }
  }

  lemma SameButPhase(w: World, v: World)
    requires Inv(w) && v == w.(phase := Idle)
    ensures Inv(v)
  {
    hide GoodReply, GoodRequest, SerialOf;
    assert Extends(w, v);
    forall i | 0 <= i < |v.toServer| ensures GoodRequest(v, v.toServer[i]) {
      RequestExtends(w, v, w.toServer[i]);
    }
    ClientMoves(w, v);
  }

  // ---------- the server's step ----------

  /** The request at the head of the channel is new to the server: it is of a later call than the
      one heard last, or a later attempt of the same call. */
  lemma HeadIsLater(w: World)
    requires Inv(w) && w.toServer != [] && w.heard != []
    ensures var q, p := w.toServer[0], w.heard[|w.heard| - 1]; p.call <= q.call && p.attempt < q.attempt
  {
    hide SerialOf, RepliesOk, Ordered, Counted, ResultsOk;
    var q, p := w.toServer[0], w.heard[|w.heard| - 1];
    assert GoodRequest(w, q);
    MadeOrdered(w, p.call, p.attempt, q.call, q.attempt);
  }

  /** The record answers exactly the repeats of a call whose first copy was heard. */
  lemma AnsweredExactly(w: World)
    requires Inv(w) && Recent(w) && w.toServer != []
    ensures var q := w.toServer[0];
            Answered(w.record, q) <==>
              w.heard != [] && q.call == w.heard[|w.heard| - 1].call && FirstHeard(w.heard, w.firsts, q.call)
  {
    hide SerialOf, RepliesOk, Ordered, Counted, ResultsOk, FirstHeard;
    var q := w.toServer[0];
    assert GoodRequest(w, q);
    var first := w.firsts[q.call];
    assert Key(q) == SerialOf(first);
    if w.heard != [] {
      var p := w.heard[|w.heard| - 1];
      HeadIsLater(w);
      MadeBounds(w, q.call, q.attempt);
      if w.lastAttempt < first {
        SerialsDiffer(w.lastAttempt, first);
      } else if first < w.lastAttempt {
        if p.call < q.call { FirstsGrow(w, p.call, q.call); }
        assert w.lastAttempt < End(w, q.call);
        SerialsDiffer(first, w.lastAttempt);
      }
      if p.call < q.call { FirstsGrow(w, p.call, q.call); }
    }
  }

  lemma CopiesUnheard(w: World, call: nat)
    requires Inv(w) && call < |w.firsts|
    requires w.heard != [] ==> w.heard[|w.heard| - 1].call < call
    ensures Executions(w.log, call) == Copies(w.heard, call) == 0 && !FirstHeard(w.heard, w.firsts, call)
  {
    hide SerialOf, RepliesOk, RequestsOk, Counted, ResultsOk, FirstHeard, Executions, Copies;
    if w.heard != [] {
      var p := w.heard[|w.heard| - 1];
      FirstsGrow(w, p.call, call);
    }
    NoExecutions(w.log, call);
    NoCopies(w.heard, w.firsts, call);
  }

  /** The counts after a request was served. */
  lemma ServeCounts(w: World, q: Request, notices: nat)
    requires Inv(w) && Recent(w) && w.toServer != [] && q == w.toServer[0]
    ensures Counted(Next(w, Deliver(notices)))
  {
    hide SerialOf, RepliesOk, ResultsOk, Ordered, Answered;
    var v := Next(w, Deliver(notices));
    AnsweredExactly(w);
    if w.heard == [] || w.heard[|w.heard| - 1].call < q.call {
      CopiesUnheard(w, q.call);
    } else {
      HeadIsLater(w);
    }
    assert v.heard[..|v.heard| - 1] == w.heard;
    assert !Answered(w.record, q) ==> v.log[..|v.log| - 1] == w.log;
    forall c | 0 <= c < |v.firsts|
      ensures Executions(v.log, c) == if FirstHeard(v.heard, v.firsts, c) then 1 else Copies(v.heard, c)
    {
      if c != q.call {
        OthersFirst(w, q, c);
      } else {
      }
    }
  }

  /** An attempt of one call is not the first of another. */
  lemma OthersFirst(w: World, q: Request, c: nat)
    requires ClientOk(w) && GoodRequest(w, q) && c < |w.firsts| && c != q.call
    ensures q.attempt != w.firsts[c]
  {
    hide SerialOf;
    if c < q.call { FirstsGrow(w, c, q.call); } else { FirstsGrow(w, q.call, c); }
  }

  lemma ServeServer(w: World, q: Request, notices: nat)
    requires Inv(w) && Recent(w) && w.toServer != [] && q == w.toServer[0]
    ensures ServerOk(Next(w, Deliver(notices)))
  {
    hide SerialOf, RepliesOk, ResultsOk, Counted, Answered;
    var v := Next(w, Deliver(notices));
    assert GoodRequest(w, q);
    AnsweredExactly(w);
    assert v.heard[..|v.heard| - 1] == w.heard;
    if w.heard != [] { HeadIsLater(w); }
    hide Ordered, RequestsOk;
    if Answered(w.record, q) {
    } else if w.heard == [] || w.heard[|w.heard| - 1].call < q.call {
      CopiesUnheard(w, q.call);
    }
  }

  lemma ServeOrdered(w: World, q: Request, notices: nat)
    requires Inv(w) && Recent(w) && w.toServer != [] && q == w.toServer[0]
    ensures Ordered(Next(w, Deliver(notices)))
  {
    hide SerialOf, RepliesOk, ResultsOk, Counted, Answered, FirstHeard;
    var v := Next(w, Deliver(notices));
    assert v.heard == w.heard + [q] && Last(v) == q.attempt && (v.log == w.log || v.log == w.log + [q.call]);
    if w.heard != [] { HeadIsLater(w); }
  }

  lemma ServeReplies(w: World, q: Request, notices: nat)
    requires Inv(w) && Recent(w) && w.toServer != [] && q == w.toServer[0]
    ensures var v := Next(w, Deliver(notices)); RepliesOk(v) && ResultsOk(v)
  {
    hide SerialOf, Ordered, Counted, Answered, FirstHeard;
    var v := Next(w, Deliver(notices));
    assert GoodRequest(w, q);
    AnsweredExactly(w);
    assert Extends(w, v);
    forall i | 0 <= i < |v.toClient|
      ensures GoodReply(v, v.toClient[i])
    {
      if i < |w.toClient| { ReplyExtends(w, v, w.toClient[i]); }
    }
  }

  lemma DeliverKeeps(w: World, notices: nat)
    requires Inv(w) && Recent(w)
    ensures Inv(Next(w, Deliver(notices)))
  {
    hide SerialOf, RepliesOk, Ordered, Counted, ResultsOk, ServerOk, GoodRequest;
    if w.toServer != [] {
      var v := Next(w, Deliver(notices));
      ServeCounts(w, w.toServer[0], notices);
      ServeServer(w, w.toServer[0], notices);
      ServeOrdered(w, w.toServer[0], notices);
      ServeReplies(w, w.toServer[0], notices);
      assert Extends(w, v);
      forall i | 0 <= i < |v.toServer|
        ensures GoodRequest(v, v.toServer[i])
      {
        RequestExtends(w, v, w.toServer[i + 1]);
      }
    }
  }

  // ---------- the client hears, and messages get lost ----------

  /** A reply that ends the call is a reply to this call. */
  lemma EndsOwnCall(w: World, r: Reply)
    requires ClientOk(w) && GoodReply(w, r) && w.phase.Waiting? && EndsCall(w.phase.current, r)
    requires w.nextAttempt - r.attempt <= WRAP
    ensures r.call == |w.firsts| - 1
  {
    hide SerialOf;
    var c := |w.firsts| - 1;
    MadeBounds(w, r.call, r.attempt);
    if r.attempt < w.nextAttempt - 1 {
      SerialsDiffer(r.attempt, w.nextAttempt - 1);
    }
    MadeOrdered(w, r.call, r.attempt, c, w.nextAttempt - 1);
    MadeOrdered(w, c, w.nextAttempt - 1, r.call, r.attempt);
  }

  /** Only the client's state, its results and the channels change, and nothing is added to those. */
  predicate Shrinks(w: World, v: World) {
    && v == w.(phase := v.phase, toServer := v.toServer, toClient := v.toClient, results := v.results)
    && (v.phase == w.phase || v.phase.Idle?)
  }

  lemma ShrinkKeeps(w: World, v: World)
    requires Inv(w) && Shrinks(w, v)
    ensures ClientOk(v) && ServerOk(v) && Ordered(v) && Counted(v)
    ensures forall q :: GoodRequest(v, q) <==> GoodRequest(w, q)
    ensures forall r :: GoodReply(v, r) <==> GoodReply(w, r)
  {
    hide SerialOf, FirstHeard, Executions, Copies, RequestsOk, RepliesOk, ResultsOk;
    assert forall c :: 0 <= c < |w.firsts| ==> End(v, c) == End(w, c);
  }

  lemma HearKeeps(w: World)
    requires Inv(w) && Recent(w)
    ensures Inv(Next(w, Hear))
  {
    hide SerialOf, ServerOk, Ordered, Counted, GoodRequest;
    if w.phase.Waiting? && w.toClient != [] {
      var r, v := w.toClient[0], Next(w, Hear);
      assert GoodReply(w, r);
      if EndsCall(w.phase.current, r) { EndsOwnCall(w, r); }
      ShrinkKeeps(w, v);
    }
  }

  lemma RefuseKeeps(w: World)
    requires Inv(w)
    ensures Inv(Next(w, Refuse))
  {
    hide GoodRequest, GoodReply, SerialOf, ServerOk, Ordered, Counted;
    ShrinkKeeps(w, Next(w, Refuse));
    if w.toServer != [] { RefusalGood(w, w.toServer[0]); }
  }

  lemma RefusalGood(w: World, q: Request)
    requires GoodRequest(w, q)
    ensures GoodReply(w, Reply(q.serial, Refusal, 0, q.call, q.attempt))
  {
  }

  lemma LoseKeeps(w: World, i: nat)
    requires Inv(w)
    ensures Inv(Next(w, LoseRequest(i))) && Inv(Next(w, LoseReply(i)))
  {
    hide SerialOf, ServerOk, Ordered, Counted, GoodRequest, GoodReply;
    ShrinkKeeps(w, Next(w, LoseRequest(i)));
    ShrinkKeeps(w, Next(w, LoseReply(i)));
  }

  lemma NextKeeps(w: World, s: Step)
    requires Inv(w) && Recent(w)
    ensures Inv(Next(w, s))
  {
    hide Inv, Recent, Next;
    match s {
      case Begin(fate) =>
        if w.phase.Idle? { BeginKeeps(w, fate); } else { NoBegin(w, fate); }
      case Timeout(fate) => TimeoutKeeps(w, fate);
      case Deliver(notices) => DeliverKeeps(w, notices);
      case Refuse => RefuseKeeps(w);
      case Hear => HearKeeps(w);
      case LoseRequest(i) => LoseKeeps(w, i);
      case LoseReply(i) => LoseKeeps(w, i);
    }
  }

  lemma NoBegin(w: World, fate: Fate)
    requires w.phase.Waiting?
    ensures Next(w, Begin(fate)) == w
  {
  }

  lemma {:induction false} InvAlways(retry: nat, steps: seq<Step>)
    requires retry <= RETRY_MAX && AlwaysRecent(Start(retry), steps)
    ensures Inv(Run(Start(retry), steps))
  {
    hide Inv, Next, Recent, Start;
    if steps == [] {
      StartOk(retry);
    } else {
      var before := steps[..|steps| - 1];
      InvAlways(retry, before);
      NextKeeps(Run(Start(retry), before), steps[|steps| - 1]);
    }
  }

  lemma StartOk(retry: nat)
    requires retry <= RETRY_MAX
    ensures Inv(Start(retry))
  {
  }

  // ---------- the results ----------

  /** How often a call runs, exactly, in every run: once if the server took its first copy,
      otherwise as often as a copy reached it.  So it runs at most once if and only if its first
      copy or no two copies got through. */
  lemma RunsExactly(retry: nat, steps: seq<Step>, call: nat)
    requires retry <= RETRY_MAX && AlwaysRecent(Start(retry), steps)
    requires call < |Run(Start(retry), steps).firsts|
    ensures var w := Run(Start(retry), steps);
            && (FirstHeard(w.heard, w.firsts, call) ==> Executions(w.log, call) == 1)
            && (!FirstHeard(w.heard, w.firsts, call) ==> Executions(w.log, call) == Copies(w.heard, call))
            && (Executions(w.log, call) <= 1 <==>
                  FirstHeard(w.heard, w.firsts, call) || Copies(w.heard, call) <= 1)
  {
    hide Run, Start, FirstHeard, Executions, Copies, ClientOk, RequestsOk, RepliesOk, ServerOk, Ordered, ResultsOk;
    InvAlways(retry, steps);
  }

  /** The client never takes the answer to another call for its own: every result it returned is of
      an execution of that very call. */
  lemma ResultsAreOwn(retry: nat, steps: seq<Step>)
    requires retry <= RETRY_MAX && AlwaysRecent(Start(retry), steps)
    ensures var w := Run(Start(retry), steps);
            forall i :: 0 <= i < |w.results| ==>
              w.results[i].1 < |w.log| && w.log[w.results[i].1] == w.results[i].0
  {
    hide Run, Start;
    InvAlways(retry, steps);
  }

  // ---------- what the client does with a reply, and the server with a request ----------

  /** The first reply on its way is to the attempt made last, and is no notice. */
  predicate EndsNow(w: World) {
    && w.toClient != [] && w.toClient[0].attempt == w.nextAttempt - 1
    && !w.toClient[0].content.Executing?
  }

  /** A waiting client hears a reply, exactly: the answer to the attempt made last ends the call, and its
      execution is the result; a refusal of that attempt ends the call without one; a notice, and any reply to
      an earlier attempt, changes nothing but that it is no longer on its way. */
  lemma HeardExactly(w: World)
    requires Inv(w) && Recent(w) && w.phase.Waiting? && w.toClient != []
    ensures var r, v := w.toClient[0], Next(w, Hear);
            && v == w.(phase := v.phase, toClient := w.toClient[1..], results := v.results)
            && v.phase == (if EndsNow(w) then Idle else w.phase)
            && v.results == w.results + (if EndsNow(w) && r.content.Answer? then [(|w.firsts| - 1, r.body)] else [])
  {
    hide SerialOf, RequestsOk, ServerOk, Ordered, Counted, ResultsOk;
    var r := w.toClient[0];
    assert GoodReply(w, r);
    MadeBounds(w, r.call, r.attempt);
    if r.attempt < w.nextAttempt - 1 { SerialsDiffer(r.attempt, w.nextAttempt - 1); }
  }

  /** The server takes a request, exactly: a repeat of the call taken last, whose first copy it took, is not
      executed; every other request is.  Either way the last reply is the answer to that very attempt, with an
      execution of its call, after nothing but notices for it. */
  lemma DeliveredExactly(w: World, notices: nat)
    requires Inv(w) && Recent(w) && w.toServer != []
    ensures var q, v := w.toServer[0], Next(w, Deliver(notices));
            var again := w.heard != [] && q.call == w.heard[|w.heard| - 1].call
                         && FirstHeard(w.heard, w.firsts, q.call);
            && v.toServer == w.toServer[1..] && v.heard == w.heard + [q]
            && v.log == (if again then w.log else w.log + [q.call])
            && |v.toClient| == |w.toClient| + (if again then 1 else notices + 1)
            && w.toClient <= v.toClient
            && (forall i :: |w.toClient| <= i < |v.toClient| ==>
                  && v.toClient[i].attempt == q.attempt && v.toClient[i].serial == q.serial
                  && v.toClient[i].call == q.call
                  && v.toClient[i].content == (if i == |v.toClient| - 1 then Answer else Executing))
            && v.toClient[|v.toClient| - 1].body < |v.log|
            && v.log[v.toClient[|v.toClient| - 1].body] == q.call
            && (!again ==> v.toClient[|v.toClient| - 1].body == |w.log|)
            && v.phase == w.phase && v.results == w.results && v.firsts == w.firsts && v.nextAttempt == w.nextAttempt
  {
    hide SerialOf, RequestsOk, Ordered, Counted, ResultsOk, FirstHeard, Key;
    AnsweredExactly(w);
    if w.heard != [] { AnsweredBody(w); }
  }

  /** The execution in the record is of the call taken last. */
  lemma AnsweredBody(w: World)
    requires Inv(w) && w.heard != []
    ensures w.record.body < |w.log| && w.log[w.record.body] == w.heard[|w.heard| - 1].call
  {
    hide SerialOf, RequestsOk, Ordered, Counted, ResultsOk, FirstHeard, ClientOk, RepliesOk;
  }

  /** A request that is refused is not executed and answered with a refusal of that attempt. */
  lemma RefusedExactly(w: World)
    requires Inv(w) && Recent(w) && w.toServer != []
    ensures var q, v := w.toServer[0], Next(w, Refuse);
            var again := w.heard != [] && q.call == w.heard[|w.heard| - 1].call
                         && FirstHeard(w.heard, w.firsts, q.call);
            if again then v == w
            else v == w.(toServer := w.toServer[1..],
                         toClient := w.toClient + [Reply(q.serial, Refusal, 0, q.call, q.attempt)])
  {
    hide SerialOf, RequestsOk, Ordered, Counted, ResultsOk, FirstHeard, Key, ServerOk, RepliesOk, ClientOk;
    AnsweredExactly(w);
  }

  /** A request is compared by the serial it names, or by its own if it names none. */
  lemma ComparedExactly(r: Record, q: Request)
    ensures q.reserv > 0 ==> (Answered(r, q) <==> r.serial == q.reserv)
    ensures q.reserv == 0 ==> (Answered(r, q) <==> r.serial == q.serial)
  {
  }

  /** A message that is lost on the way is gone, and everything else stays. */
  lemma LostExactly(w: World, i: nat)
    ensures i < |w.toServer| ==>
              Next(w, LoseRequest(i)) == w.(toServer := w.toServer[..i] + w.toServer[i + 1..])
    ensures i < |w.toClient| ==>
              Next(w, LoseReply(i)) == w.(toClient := w.toClient[..i] + w.toClient[i + 1..])
  {
  }

  // ---------- a call without losses ----------

  /** Nothing is on its way and no call waits. */
  predicate Quiet(w: World) {
    w.phase.Idle? && w.toServer == [] && w.toClient == []
  }

  /** The first copy of a call made in the quiet world `w` is on its way to the server, or its replies are on
      their way back, or it has ended with its own execution as result. */
  predicate Underway(w: World, v: World) {
    var call, body := |w.firsts|, |w.log|;
    && v.firsts == w.firsts + [w.nextAttempt] && v.nextAttempt == w.nextAttempt + 1
    && (if v.toServer != [] then
          && |v.toServer| == 1 && v.toServer[0].attempt == w.nextAttempt && v.toServer[0].call == call
          && v.phase.Waiting? && v.toClient == [] && v.log == w.log && v.results == w.results && v.heard == w.heard
        else
          && v.log == w.log + [call]
          && (if v.phase.Waiting? then
                && v.results == w.results && v.toClient != []
                && (forall i :: 0 <= i < |v.toClient| ==>
                      && v.toClient[i].attempt == w.nextAttempt
                      && v.toClient[i].content == (if i == |v.toClient| - 1 then Answer else Executing))
                && v.toClient[|v.toClient| - 1].body == body
              else v.results == w.results + [(call, body)] && v.toClient == []))
  }

  /** Without a loss, a timeout or a refusal. */
  predicate Smooth(steps: seq<Step>) {
    forall k :: 0 <= k < |steps| ==> steps[k].Deliver? || steps[k].Hear?
  }

  lemma BeginUnderway(w: World)
    requires Inv(w) && Quiet(w)
    ensures Underway(w, Next(w, Begin(Sent)))
  {
  }

  lemma StepUnderway(w: World, v: World, s: Step)
    requires Inv(w) && Quiet(w) && Inv(v) && Recent(v) && Underway(w, v) && (s.Deliver? || s.Hear?)
    ensures Underway(w, Next(v, s))
  {
    hide Inv, Recent, FirstHeard;
    if s.Deliver? && v.toServer != [] {
      DeliveredExactly(v, s.notices);
      NotTakenBefore(w);
    } else if s.Hear? && v.phase.Waiting? && v.toClient != [] {
      HeardExactly(v);
    }
  }

  lemma NotTakenBefore(w: World)
    requires Inv(w)
    ensures w.heard != [] ==> w.heard[|w.heard| - 1].call < |w.firsts|
  {
  }

  /** Over every run that continues from a quiet world with a call whose first copy is sent, if nothing is
      lost, times out or is refused: the call runs once and ends with exactly one result, which is its own
      execution; and it has ended as soon as nothing is on its way. */
  lemma {:induction false} CallAnswered(retry: nat, before: seq<Step>, steps: seq<Step>)
    requires retry <= RETRY_MAX && Smooth(steps) && Quiet(Run(Start(retry), before))
    requires AlwaysRecent(Start(retry), before + [Begin(Sent)] + steps)
    ensures var w, v := Run(Start(retry), before), Run(Start(retry), before + [Begin(Sent)] + steps);
            && Underway(w, v)
            && (v.toServer == [] && v.toClient == [] ==>
                  v.phase.Idle? && v.log == w.log + [|w.firsts|] && v.results == w.results + [(|w.firsts|, |w.log|)])
  {
    hide Inv, Recent, Next, Start, Underway, Quiet;
    var all := before + [Begin(Sent)] + steps;
    var w := Run(Start(retry), before);
    assert all[..|before|] == before;
    RecentBefore(Start(retry), all, |before|);
    InvAlways(retry, before);
    if steps == [] {
      assert all == before + [Begin(Sent)];
      RunOne(Start(retry), before, Begin(Sent));
      BeginUnderway(w);
    } else {
      var n := |steps| - 1;
      var rest := before + [Begin(Sent)] + steps[..n];
      assert all == rest + [steps[n]] && all[..|rest|] == rest;
      RecentBefore(Start(retry), all, |rest|);
      CallAnswered(retry, before, steps[..n]);
      InvAlways(retry, rest);
      RecentAtEnd(Start(retry), rest);
      RunOne(Start(retry), rest, steps[n]);
      StepUnderway(w, Run(Start(retry), rest), steps[n]);
    }
    var v := Run(Start(retry), all);
    if v.toServer == [] && v.toClient == [] { UnderwayEnds(w, v); }
  }

  lemma RecentAtEnd(w: World, steps: seq<Step>)
    requires AlwaysRecent(w, steps)
    ensures Recent(Run(w, steps))
  {
  }

  lemma UnderwayEnds(w: World, v: World)
    requires Underway(w, v) && v.toServer == [] && v.toClient == []
    ensures v.phase.Idle? && v.log == w.log + [|w.firsts|] && v.results == w.results + [(|w.firsts|, |w.log|)]
  {
  }

  // ---------- a call that is never answered, and one result a call ----------

  function Timeouts(n: nat): seq<Step> {
    seq(n, i => Timeout(Sent))
  }

  /** Copy number `i` of a call made in `w`, sent behind what was on its way then. */
  predicate CopySent(w: World, v: World, i: nat) {
    && |w.toServer| + i < |v.toServer|
    && v.toServer[|w.toServer| + i]
       == Request(SerialOf(w.nextAttempt + i), SerialOf(w.nextAttempt), |w.firsts|, w.nextAttempt + i)
  }

  /** `sent` copies of the call made in `w` have been sent, and nothing else has happened. */
  predicate Unanswered(w: World, v: World, sent: nat) {
    && v == w.(serial := SerialOf(w.nextAttempt + sent), nextAttempt := w.nextAttempt + sent,
               firsts := w.firsts + [w.nextAttempt], toServer := v.toServer, phase := v.phase)
    && |v.toServer| == |w.toServer| + sent && w.toServer <= v.toServer
    && forall i :: 0 <= i < sent ==> CopySent(w, v, i)
  }

  /** A call that hears nothing sends the copies numbered from its first attempt on, each naming the serial of
      the first, until it has made `retry` of them; then it ends without a result. */
  lemma {:induction false} UnansweredCall(w: World, n: nat)
    requires ClientOk(w) && w.phase.Idle? && 1 <= w.retry && n <= w.retry
    ensures var v := Run(w, [Begin(Sent)] + Timeouts(n));
            var sent := if n < w.retry then n + 1 else n;
            && Unanswered(w, v, sent)
            && v.phase == (if n < w.retry then
                             Waiting(SerialOf(w.nextAttempt), SerialOf(w.nextAttempt + n), n + 1)
                           else Idle)
  {
    hide SerialOf, NextSerial, ClientOk, Unanswered, Next, Run;
    ClientSerial(w);
    if n == 0 {
      assert [Begin(Sent)] + Timeouts(0) == [] + [Begin(Sent)];
      RunOne(w, [], Begin(Sent));
      RunNone(w);
      FirstCopy(w);
    } else {
      var steps := [Begin(Sent)] + Timeouts(n - 1);
      assert [Begin(Sent)] + Timeouts(n) == steps + [Timeout(Sent)];
      UnansweredCall(w, n - 1);
      RunOne(w, steps, Timeout(Sent));
      NextCopy(w, Run(w, steps), n);
    }
  }

  lemma RunNone(w: World)
    ensures Run(w, []) == w
  {
  }

  lemma FirstCopy(w: World)
    requires w.serial == SerialOf(w.nextAttempt) && w.phase.Idle?
    ensures var v := Next(w, Begin(Sent));
            Unanswered(w, v, 1) && v.phase == Waiting(SerialOf(w.nextAttempt), SerialOf(w.nextAttempt), 1)
  {
    hide SerialOf, NextSerial;
    SerialStep(w.nextAttempt);
  }

  lemma NextCopy(w: World, v: World, n: nat)
    requires Unanswered(w, v, n) && 1 <= n <= w.retry
    requires v.phase == Waiting(SerialOf(w.nextAttempt), SerialOf(w.nextAttempt + n - 1), n)
    ensures var u := Next(v, Timeout(Sent));
            if n < w.retry then
              Unanswered(w, u, n + 1)
              && u.phase == Waiting(SerialOf(w.nextAttempt), SerialOf(w.nextAttempt + n), n + 1)
            else u == v.(phase := Idle) && Unanswered(w, u, n)
  {
    hide SerialOf, NextSerial;
    var u := Next(v, Timeout(Sent));
    SerialStep(w.nextAttempt + n);
    forall i | 0 <= i < n
      ensures CopySent(w, u, i)
    {
      assert CopySent(w, v, i);
    }
  }

  lemma ClientSerial(w: World)
    requires ClientOk(w)
    ensures w.serial == SerialOf(w.nextAttempt)
  {
  }

  /** No call ends with two results. */
  predicate Once(w: World) {
    && (forall i, j :: 0 <= i < j < |w.results| ==> w.results[i].0 < w.results[j].0)
    && (forall i :: 0 <= i < |w.results| ==>
          w.results[i].0 < |w.firsts| && (w.phase.Waiting? ==> w.results[i].0 < |w.firsts| - 1))
  }

  lemma {:induction false} OneResultEach(retry: nat, steps: seq<Step>)
    ensures Once(Run(Start(retry), steps))
  {
    if steps != [] {
      hide SendCopy, Serve, EndsCall, NextSerial;
      var n := |steps| - 1;
      OneResultEach(retry, steps[..n]);
      OnceKept(Run(Start(retry), steps[..n]), steps[n]);
    }
  }

  lemma OnceKept(w: World, s: Step)
    requires Once(w)
    ensures Once(Next(w, s))
  {
  }

  /** What has been executed stays in the log. */
  lemma {:induction false} LogGrows(w: World, steps: seq<Step>, k: nat)
    requires k <= |steps|
    ensures Run(w, steps[..k]).log <= Run(w, steps).log
    decreases |steps|
  {
    if k == |steps| {
      assert steps[..k] == steps;
    } else {
      var before := steps[..|steps| - 1];
      assert before[..k] == steps[..k];
      LogGrows(w, before, k);
    }
  }

  lemma {:induction false} RecentBefore(w: World, steps: seq<Step>, k: nat)
    requires k <= |steps| && AlwaysRecent(w, steps)
    ensures AlwaysRecent(w, steps[..k])
    decreases |steps|
  {
    hide Recent, Run;
    if k == |steps| {
      assert steps[..k] == steps;
    } else {
      var before := steps[..|steps| - 1];
      assert before[..k] == steps[..k];
      RecentBefore(w, before, k);
    }
  }

  /** All answers to a call whose first copy the server took are the same answer, each under the
      serial of the attempt it answers: one that is on its way at some moment of a run, and may be lost
      or heard then, and one that is on its way at the end of it. */
  lemma OneAnswer(retry: nat, steps: seq<Step>, k: nat, i: nat, j: nat)
    requires retry <= RETRY_MAX && AlwaysRecent(Start(retry), steps) && k <= |steps|
    requires var u, w := Run(Start(retry), steps[..k]), Run(Start(retry), steps);
             && i < |u.toClient| && j < |w.toClient|
             && u.toClient[i].call == w.toClient[j].call
             && u.toClient[i].content.Answer? && w.toClient[j].content.Answer?
             && w.toClient[j].call < |w.firsts|
             && FirstHeard(w.heard, w.firsts, w.toClient[j].call)
    ensures var u, w := Run(Start(retry), steps[..k]), Run(Start(retry), steps);
            && u.toClient[i].body == w.toClient[j].body
            && u.toClient[i].serial == SerialOf(u.toClient[i].attempt)
            && w.toClient[j].serial == SerialOf(w.toClient[j].attempt)
  {
    LogGrows(Start(retry), steps, k);
    RecentBefore(Start(retry), steps, k);
    hide Run, Start, FirstHeard, SerialOf, Executions, Copies;
    var u, w := Run(Start(retry), steps[..k]), Run(Start(retry), steps);
    InvAlways(retry, steps[..k]);
    InvAlways(retry, steps);
    assert GoodReply(u, u.toClient[i]) && GoodReply(w, w.toClient[j]);
    assert w.log[u.toClient[i].body] == u.log[u.toClient[i].body];
    OnlyExecution(w.log, w.toClient[j].call, u.toClient[i].body, w.toClient[j].body);
  }

  /** At most once does not hold without the first copy: it is lost, the second copy runs, its
      answer is lost, and the third copy runs again. */
  lemma RunsTwice()
    ensures var steps := [Begin(Lost), Timeout(Sent), Deliver(0), LoseReply(0), Timeout(Sent), Deliver(0)];
            var w := Run(Start(3), steps);
            w.log == [0, 0] && w.firsts == [0] && |w.heard| == 2
  {
    var w1 := Next(Start(3), Begin(Lost));
    var w2 := Next(w1, Timeout(Sent));
    assert w2.toServer == [Request(2, 1, 0, 1)] && w2.phase == Waiting(1, 2, 2);
    var w3 := Next(w2, Deliver(0));
    assert w3.log == [0] && w3.record == Record(2, 0) && |w3.toClient| == 1;
    var w4 := Next(w3, LoseReply(0));
    var w5 := Next(w4, Timeout(Sent));
    assert w5.toServer == [Request(3, 1, 0, 2)] && w5.record == Record(2, 0) && w5.log == [0];
    var w6 := Next(w5, Deliver(0));
    assert w6.log == [0, 0] && w6.firsts == [0] && |w6.heard| == 2;
    SixSteps(Start(3), Begin(Lost), Timeout(Sent), Deliver(0), LoseReply(0), Timeout(Sent), Deliver(0));
  }

  lemma RunOne(w: World, steps: seq<Step>, s: Step)
    ensures Run(w, steps + [s]) == Next(Run(w, steps), s)
  {
    assert (steps + [s])[..|steps|] == steps;
  }

  lemma SixSteps(w: World, a: Step, b: Step, c: Step, d: Step, e: Step, f: Step)
    ensures Run(w, [a, b, c, d, e, f]) == Next(Next(Next(Next(Next(Next(w, a), b), c), d), e), f)
  {
    hide Next;
    assert Run(w, []) == w && [] + [a, b, c] == [a, b, c] && [a, b, c] + [d, e, f] == [a, b, c, d, e, f];
    ThreeSteps(w, [], a, b, c);
    ThreeSteps(w, [a, b, c], d, e, f);
  }

  lemma ThreeSteps(w: World, before: seq<Step>, a: Step, b: Step, c: Step)
    ensures Run(w, before + [a, b, c]) == Next(Next(Next(Run(w, before), a), b), c)
  {
    hide Next, Run;
    RunOne(w, before, a);
    RunOne(w, before + [a], b);
    RunOne(w, before + [a, b], c);
    assert before + [a] + [b] == before + [a, b] && before + [a, b] + [c] == before + [a, b, c];
  }

  // ---------- the code at either end ----------

  /** What a receive of the client brings: nothing within its timeout, or a reply. */
  datatype Event = TimedOut | Got(reply: Reply)

  /** The fate of attempt number `n` of a call when attempt number `unsent` cannot be sent. */
  function FateOf(n: nat, unsent: nat): Fate {
    if n == unsent then Unsent else Sent
  }

  /** The waiting call of `w` run to its end with these receives; behind them nothing comes in. */
  function Finish(w: World, events: seq<Event>, unsent: nat): World
    requires w.firsts != []
    decreases |events|, if w.phase.Idle? then 0 else if w.phase.tries < w.retry then w.retry - w.phase.tries else 1,
              if w.phase.Idle? then 0 else if w.phase.tries < w.retry then 1 else 0
  {
    if w.phase.Idle? then w
    else
      var next := Next(w, Timeout(FateOf(w.phase.tries + 1, unsent)));
      if events == [] then Finish(next, [], unsent)
      else if events[0].TimedOut? then Finish(next, events[1..], unsent)
      else Finish(Next(w.(toClient := [events[0].reply]), Hear), events[1..], unsent)
  }

  class Client {
    var serial: nat
    var retry: nat
    var attempts: nat  // histories, as in World
    var calls: nat

    /** bCap_Open_Client. */
    constructor (kind: Connection, retry: nat)
      ensures serial == 1 && attempts == 0 && calls == 0
      ensures RETRY_MIN <= this.retry <= RETRY_MAX && (kind.Tcp? ==> this.retry == 1)
    {
      serial, attempts, calls := 1, 0, 0;
      this.retry := 1;
      new;
      SetRetry(kind, retry);
    }

    /** bCap_SetRetry. */
    method SetRetry(kind: Connection, retry: nat)
      modifies this`retry
      ensures this.retry == if kind.Tcp? || retry < RETRY_MIN then RETRY_MIN
                            else if retry > RETRY_MAX then RETRY_MAX else retry
    {
      match kind {
        case Tcp => this.retry := 1;
        case _ =>
          if retry < RETRY_MIN {
            this.retry := RETRY_MIN;
          } else if RETRY_MAX < retry {
            this.retry := RETRY_MAX;
          } else {
            this.retry := retry;
          }
      }
    }

    /** send_receive on UDP and serial lines; attempt number `unsent` cannot be sent, if there is one.
        `w` is any state of the whole system with this client idle in it; the loop does what the
        client's steps of that system do. */
    method SendReceive(events: seq<Event>, unsent: nat, ghost w: World)
      returns (sent: seq<Request>, result: seq<nat>)
      requires w.phase.Idle? && w.serial == serial && w.retry == retry >= RETRY_MIN
      requires w.nextAttempt == attempts && |w.firsts| == calls
      modifies this`serial, this`attempts, this`calls
      ensures var v := Finish(Next(w, Begin(FateOf(1, unsent))), events, unsent);
              && v.phase.Idle? && serial == v.serial && attempts == v.nextAttempt && calls == |v.firsts|
              && w.toServer + sent == v.toServer
              && w.results + (if result == [] then [] else [(|w.firsts|, result[0])]) == v.results
    {
      hide NextSerial, EndsCall, Finish, Next;
      FirstSends(w, FateOf(1, unsent));
      sent, result := [], [];
      var base := serial;
      var call := calls;
      calls := calls + 1;
      var retryCnt, i := 0, 0;
      ghost var final := Finish(Next(w, Begin(FateOf(1, unsent))), events, unsent);
      ghost var v := w.(firsts := w.firsts + [w.nextAttempt]);
      assert events[0..] == events;
      while retryCnt < retry
        invariant 0 <= retryCnt <= retry && 0 <= i <= |events| && result == []
        invariant v.serial == serial && v.nextAttempt == attempts && v.retry == retry
        invariant |v.firsts| == call + 1 == calls && v.results == w.results && v.toServer == w.toServer + sent
        invariant retryCnt < retry ==>
                    Finish(SendCopy(v, base, retryCnt + 1, FateOf(retryCnt + 1, unsent)), events[i..], unsent) == final
        invariant retryCnt == retry ==> v.phase.Idle? && v == final
      {
        var current, attempt := serial, attempts;
        serial, attempts := NextSerial(serial), attempts + 1;
        v := SendCopy(v, base, retryCnt + 1, FateOf(retryCnt + 1, unsent));
        if retryCnt + 1 == unsent {
          FinishIdle(v, events[i..], unsent);
          return;
        }
        sent := sent + [Request(current, base, call, attempt)];
        var ended;
        i, ended, result, v := Await(events, i, current, unsent, v);
        if ended {
          return;
        }
        retryCnt := retryCnt + 1;
        CopyOrEnd(v, events, i, unsent);
        if i < |events| {
          i := i + 1;
        }
        if retryCnt == retry {
          v := v.(phase := Idle);
        }
      }
    }

    /** The loop of send_receive that receives until the attempt is answered or a receive fails. */
    method Await(events: seq<Event>, start: nat, current: nat, ghost unsent: nat, ghost w: World)
      returns (i: nat, ended: bool, result: seq<nat>, ghost v: World)
      requires start <= |events| && w.firsts != [] && w.phase.Waiting? && w.phase.current == current
      ensures start <= i <= |events| && v.firsts == w.firsts
      ensures Finish(v, events[i..], unsent) == Finish(w, events[start..], unsent)
      ensures v == w.(toClient := v.toClient, phase := v.phase, results := v.results)
      ensures v.results == w.results + (if result == [] then [] else [(|w.firsts| - 1, result[0])])
      ensures if ended then v.phase.Idle? && Finish(v, events[i..], unsent) == v
              else v.phase == w.phase && result == [] && (i == |events| || events[i].TimedOut?)
    {
      hide EndsCall;
      i, result, v := start, [], w;
      while i < |events| && events[i].Got?
        invariant start <= i <= |events| && v == w.(toClient := v.toClient)
        invariant Finish(v, events[i..], unsent) == Finish(w, events[start..], unsent)
      {
        ghost var u := Next(v.(toClient := [events[i].reply]), Hear);
        assert events[i..][1..] == events[i + 1..];
        i := i + 1;
        if EndsCall(current, events[i - 1].reply) {
          result := if events[i - 1].reply.content.Answer? then [events[i - 1].reply.body] else [];
          return i, true, result, u;
        }
        v := u;
      }
      ended := false;
    }
  }

  /** What send_receive returns when a receive brings the answer to the attempt that waits, after any number
      of notices and replies to other attempts: that answer, and it does not receive again. */
  lemma {:induction false} AnswerReturned(w: World, events: seq<Event>, unsent: nat, k: nat)
    requires w.firsts != [] && w.phase.Waiting? && k < |events| && events[k].Got?
    requires events[k].reply.serial == w.phase.current && events[k].reply.content.Answer?
    requires forall j :: 0 <= j < k ==>
               events[j].Got? && (events[j].reply.serial != w.phase.current || events[j].reply.content.Executing?)
    ensures var v := Finish(w, events, unsent);
            && v.phase.Idle? && v.results == w.results + [(|w.firsts| - 1, events[k].reply.body)]
            && v.toServer == w.toServer && v.nextAttempt == w.nextAttempt
    decreases k
  {
    var u := Next(w.(toClient := [events[0].reply]), Hear);
    if k == 0 {
      assert EndsCall(w.phase.current, events[0].reply);
      FinishIdle(u, events[1..], unsent);
    } else {
      AnswerReturned(u, events[1..], unsent, k - 1);
    }
  }

  lemma FinishIdle(v: World, events: seq<Event>, unsent: nat)
    requires v.firsts != [] && v.phase.Idle?
    ensures Finish(v, events, unsent) == v
  {
  }

  lemma FirstSends(w: World, fate: Fate)
    requires w.phase.Idle?
    ensures Next(w, Begin(fate)) == SendCopy(w.(firsts := w.firsts + [w.nextAttempt]), w.serial, 1, fate)
  {
  }

  lemma TimeoutSends(v: World, fate: Fate)
    requires v.firsts != [] && v.phase.Waiting?
    ensures Next(v, Timeout(fate))
            == if v.phase.tries < v.retry then SendCopy(v, v.phase.base, v.phase.tries + 1, fate)
               else v.(phase := Idle)
  {
  }

  /** After a timeout the next copy is sent, or the call is given up. */
  lemma CopyOrEnd(v: World, events: seq<Event>, i: nat, unsent: nat)
    requires v.firsts != [] && v.phase.Waiting? && i <= |events| && (i == |events| || events[i].TimedOut?)
    ensures var n, rest := v.phase.tries, events[if i < |events| then i + 1 else i..];
            Finish(v, events[i..], unsent)
            == if n < v.retry then Finish(SendCopy(v, v.phase.base, n + 1, FateOf(n + 1, unsent)), rest, unsent)
               else v.(phase := Idle)
  {
    hide Finish, Next, SendCopy, FateOf;
    var n, rest := v.phase.tries, events[if i < |events| then i + 1 else i..];
    FinishTimeout(v, events, i, unsent);
    TimeoutSends(v, FateOf(n + 1, unsent));
    if n >= v.retry { FinishIdle(v.(phase := Idle), rest, unsent); }
  }

  lemma FinishTimeout(v: World, events: seq<Event>, i: nat, unsent: nat)
    requires v.firsts != [] && v.phase.Waiting? && i <= |events| && (i == |events| || events[i].TimedOut?)
    ensures var next := Next(v, Timeout(FateOf(v.phase.tries + 1, unsent)));
            Finish(v, events[i..], unsent)
            == Finish(next, events[if i < |events| then i + 1 else i..], unsent)
  {
    assert i < |events| ==> events[i..][1..] == events[i + 1..];
    assert i == |events| ==> events[i..] == [];
  }

  class Server {
    var lastSerial: nat
    var lastBody: nat
    var log: seq<nat>

    constructor ()
      ensures lastSerial == 0 && lastBody == 0 && log == []
    {
      lastSerial, lastBody, log := 0, 0, [];
    }

    /** receive_execute for one request on UDP or a serial line, the execution included; `refused` is
        what the checks before the execution say. */
    method ReceiveExecute(q: Request, refused: bool, ghost w: World) returns (reply: Reply)
      requires w.record == Record(lastSerial, lastBody) && w.log == log
      modifies this
      ensures var u := w.(toServer := [q]);
              var v := if refused && !Answered(w.record, q) then Next(u, Refuse) else Next(u, Deliver(0));
              && v.record == Record(lastSerial, lastBody) && v.log == log
              && v.toClient == w.toClient + [reply]
    {
      var reserv := if q.reserv == 0 then q.serial else q.reserv;
      if lastSerial == reserv {
        reply := Reply(q.serial, Answer, lastBody, q.call, q.attempt);
      } else if refused {
        reply := Reply(q.serial, Refusal, 0, q.call, q.attempt);
      } else {
        lastBody := |log|;
        log := log + [q.call];
        lastSerial := q.serial;
        reply := Reply(q.serial, Answer, lastBody, q.call, q.attempt);
      }
    }
  }
}
