/** The two threads of a b-CAP connection, statement by statement (library/src/bCAPServer/bcap_server.c). */
module ServerHandshake {
  import opened Common

  // One runs receive_execute; exec_thread, the other, runs bcap_callfunc.
  // The receive thread stores a request and wakes the execute thread through exec_evt; the execute thread
  // writes the shared answer field by field and signals comp_evt.  A request that was answered before is
  // answered again from a record, which on a serial line is the shared answer itself: its fields are copied,
  // but the value is read through a shared pointer when the answer is sent.

  type Serial = n: nat | 1 <= n <= 65535 witness 1

  /** A request as it comes in: who sent it, its serial, the serial it is compared by, which is that of the
      first attempt of its call, and whether its function returns a value. */
  datatype Request = Request(client: nat, serial: Serial, key: Serial, valued: bool)

  /** The return code in a packet: none yet, the E_INVALIDARG written before the callback of a request runs,
      or that of a request. */
  datatype Code = NoCode | Invalid(r: nat) | Result(r: nat)

  /** What the pointer to the value leads to: nothing, or what the callback of a request has left there. */
  datatype Value = NoValue | Of(r: nat)

  datatype Record = Record(serial: nat, code: Code, argc: nat, value: Value)

  /** What is sent besides the serial; a value that is not counted does not travel. */
  datatype Answer = Answer(code: Code, argc: nat, value: Value)

  function Sent(code: Code, argc: nat, value: Value): Answer {
    Answer(code, argc, if argc == 0 then NoValue else value)
  }

  function Count(valued: bool): nat {
    if valued then 1 else 0
  }

  /** The whole answer to request number `r`. */
  function AnswerTo(r: nat, valued: bool): Answer {
    Sent(Result(r), Count(valued), Of(r))
  }

  /** Where the receive thread is; `r` is the number of the request in hand. */
  datatype RecvAt =
    | Listening                 // in bcap_recv
    | Comparing(r: nat)         // about to compare with the record
    | Copying(r: nat)           // about to copy the fields of the record
    | Repeating(r: nat, code: Code, argc: nat, stood: bool)  // about to send them with the value
    | Checking(r: nat)          // about to test comp_evt
    | Storing(r: nat)           // about to overwrite last_recv
    | Resetting(r: nat)         // about to reset comp_evt
    | Signalling(r: nat)        // about to set exec_evt
    | Awaiting(r: nat)          // waiting for comp_evt
    | Replying(r: nat)          // about to send last_send

  /** Where the execute thread is. */
  datatype ExecAt =
    | Sleeping                  // waiting for exec_evt
    | Starting                  // about to read last_recv and write its serial
    | Marked(r: nat)            // about to write E_INVALIDARG and no value
    | Cleared(r: nat)           // about to clear the value and call the callback
    | Executing(r: nat)         // in the callback
    | Filled(r: nat)            // in the callback, which has left its value
    | Returned(r: nat)          // about to write whether there is a value
    | Finishing                 // about to set comp_evt

  /** compEvt is reset by hand, execEvt by the thread it wakes.  lastRecv is the number of the stored
      request and last the shared answer; `records` are the answers kept for UDP clients.  Histories:
      the requests received, the numbers of those accepted and executed, the answers given after
      an execution and from a record, each with the number of the request it was given to, and, while
      one is repeated, whether it stood when it was copied. */
  datatype State = State(
    kind: Connection, recvAt: RecvAt, execAt: ExecAt, compEvt: bool, execEvt: bool,
    lastRecv: nat, last: Record, records: map<nat, Record>,
    requests: seq<Request>, accepted: seq<nat>, executed: seq<nat>,
    replied: seq<(nat, Answer)>, repeated: seq<(nat, Answer)>)

  const BLANK := Record(0, NoCode, 0, NoValue)

  function Start(kind: Connection): State {
    State(kind, Listening, Sleeping, true, false, 0, BLANK, map[], [], [], [], [], [])
  }

  /** The record a request is compared with. */
  function RecordFor(s: State, r: nat): Record
    requires r < |s.requests|
  {
    if !s.kind.Udp? then s.last
    else if s.requests[r].client in s.records then s.records[s.requests[r].client]
    else BLANK
  }

  datatype Step =
    | Receive(q: Request)       // a request comes in
    | Forget(client: nat)       // a UDP client is evicted
    | Compare                   // is it the call answered last?
    | Copy                      // the fields of the record are copied
    | Repeat                    // the copy is sent with the value
    | TestFree                  // comp_evt is tested: busy, or free to accept
    | TurnAway                  // a request is refused with an error
    | Store | Reset | Signal
    | GoOn                      // comp_evt was seen
    | KeepWaiting               // the watchdog interval passed: S_EXECUTING is sent
    | GiveUp                    // the execution timed out, or the notice could not be sent
    | Reply(sent: bool, stops: bool)  // last_send is sent, or cannot be; a stop ends a UDP client
    | Wake | Mark | Clear | Call | Fill | Return | Finish | Complete

  predicate ExecStep(step: Step) {
    || step.Wake? || step.Mark? || step.Clear? || step.Call?
    || step.Fill? || step.Return? || step.Finish? || step.Complete?
  }

  /** A step of a thread that is not there, or whose condition fails, changes nothing. */
  function Next(s: State, step: Step): State {
    if ExecStep(step) then NextExec(s, step) else NextRecv(s, step)
  }

  function NextRecv(s: State, step: Step): State {
    match step
    case Receive(q) =>
      if s.recvAt.Listening? then s.(recvAt := Comparing(|s.requests|), requests := s.requests + [q]) else s
    case Forget(client) =>
      if s.recvAt.Listening? then s.(records := s.records - {client}) else s
    case Compare =>
      if !s.recvAt.Comparing? || s.recvAt.r >= |s.requests| then s
      else if !s.kind.Tcp? && RecordFor(s, s.recvAt.r).serial == s.requests[s.recvAt.r].key then
        s.(recvAt := Copying(s.recvAt.r))
      else s.(recvAt := Checking(s.recvAt.r))
    case Copy =>
      if !s.recvAt.Copying? || s.recvAt.r >= |s.requests| then s
      else
        var r, record := s.recvAt.r, RecordFor(s, s.recvAt.r);
        s.(recvAt := Repeating(r, record.code, record.argc, s.kind.Udp? || HeadStands(s, r)))
    case Repeat =>
      if !s.recvAt.Repeating? || s.recvAt.r >= |s.requests| then s
      else s.(repeated := s.repeated + [(s.recvAt.r, Repeated(s))], recvAt := Listening)
    case TurnAway =>
      if s.recvAt.Comparing? || s.recvAt.Checking? || s.recvAt.Storing? then s.(recvAt := Listening) else s
    case TestFree =>
      if !s.recvAt.Checking? then s
      else if s.compEvt then s.(recvAt := Storing(s.recvAt.r))
      else s.(recvAt := Listening)
    case Store =>
      if s.recvAt.Storing? then
        s.(lastRecv := s.recvAt.r, accepted := s.accepted + [s.recvAt.r], recvAt := Resetting(s.recvAt.r))
      else s
    case Reset =>
      if s.recvAt.Resetting? then s.(compEvt := false, recvAt := Signalling(s.recvAt.r)) else s
    case Signal =>
      if s.recvAt.Signalling? then s.(execEvt := true, recvAt := Awaiting(s.recvAt.r)) else s
    case GoOn =>
      if s.recvAt.Awaiting? && s.compEvt then s.(recvAt := Replying(s.recvAt.r)) else s
    case GiveUp =>
      if s.recvAt.Awaiting? then s.(recvAt := Listening) else s
    case Reply(sent, stops) =>
      if !s.recvAt.Replying? || s.recvAt.r >= |s.requests| then s
      else
        var client := s.requests[s.recvAt.r].client;
        s.(replied := if sent then s.replied + [(s.recvAt.r, Sent(s.last.code, s.last.argc, s.last.value))]
                      else s.replied,
           records := if !s.kind.Udp? then s.records
                      else if stops then s.records - {client}
                      else if sent then s.records[client := s.last]
                      else s.records,
           recvAt := Listening)
    case _ => s
  }

  /** The answer that is being repeated, as it goes out now. */
  function Repeated(s: State): Answer
    requires s.recvAt.Repeating? && s.recvAt.r < |s.requests|
  {
    Sent(s.recvAt.code, s.recvAt.argc, RecordFor(s, s.recvAt.r).value)
  }

  function NextExec(s: State, step: Step): State {
    match step
    case Wake =>
      if s.execAt.Sleeping? && s.execEvt then s.(execEvt := false, execAt := Starting) else s
    case Mark =>
      if s.execAt.Starting? && s.lastRecv < |s.requests| then
        s.(last := s.last.(serial := s.requests[s.lastRecv].serial), execAt := Marked(s.lastRecv))
      else s
    case Clear =>
      if s.execAt.Marked? then
        s.(last := s.last.(code := Invalid(s.execAt.r), argc := 0), execAt := Cleared(s.execAt.r))
      else s
    case Call =>
      if s.execAt.Cleared? then s.(last := s.last.(value := NoValue), execAt := Executing(s.execAt.r)) else s
    case Fill =>
      if s.execAt.Executing? then s.(last := s.last.(value := Of(s.execAt.r)), execAt := Filled(s.execAt.r))
      else s
    case Return =>
      if s.execAt.Filled? then
        s.(last := s.last.(code := Result(s.execAt.r)), executed := s.executed + [s.execAt.r],
           execAt := Returned(s.execAt.r))
      else s
    case Finish =>
      if s.execAt.Returned? && s.execAt.r < |s.requests| then
        s.(last := s.last.(argc := Count(s.requests[s.execAt.r].valued)), execAt := Finishing)
      else s
    case Complete =>
      if s.execAt.Finishing? then s.(compEvt := true, execAt := Sleeping) else s
    case _ => s
  }

  function Run(kind: Connection, steps: seq<Step>): State {
    if steps == [] then Start(kind) else Next(Run(kind, steps[..|steps| - 1]), steps[|steps| - 1])
  }

  // ---------- when an answer in the shared packet stands ----------

  /** `r` asks for the answer to the request executed last, and no other return code has been written over
      its: the execute thread is not between writing E_INVALIDARG and the return code, and has written
      whether there is a value if there is one. */
  predicate HeadStands(s: State, r: nat) {
    && s.executed != [] && s.executed[|s.executed| - 1] < |s.requests| && r < |s.requests|
    && s.requests[s.executed[|s.executed| - 1]].serial == s.requests[r].key
    && !s.execAt.Cleared? && !s.execAt.Executing? && !s.execAt.Filled?
    && (s.execAt.Returned? ==> !s.requests[s.executed[|s.executed| - 1]].valued)
  }

  /** `e` is the request executed last, and its value has not been cleared for the next one. */
  predicate ValueStands(s: State, e: nat) {
    && s.executed != [] && s.executed[|s.executed| - 1] == e
    && !s.execAt.Executing? && !s.execAt.Filled?
  }

  /** The answer that is being repeated stood when its fields were copied, and so does its value now. */
  predicate Stood(s: State) {
    s.recvAt.Repeating? ==>
      s.kind.Udp? || (s.recvAt.stood && (s.recvAt.argc > 0 ==> s.recvAt.code.Result? && ValueStands(s, s.recvAt.code.r)))
  }

  /** The fields say that it is the answer to the request whose serial `r` names. */
  predicate HeadRight(requests: seq<Request>, r: nat, code: Code, argc: nat) {
    && r < |requests| && code.Result? && code.r < |requests|
    && requests[code.r].serial == requests[r].key && argc == Count(requests[code.r].valued)
  }

  /** A request is given the whole answer to the request whose serial it names. */
  predicate Right(requests: seq<Request>, r: nat, a: Answer) {
    && r < |requests| && a.code.Result? && a.code.r < |requests|
    && requests[a.code.r].serial == requests[r].key && a == AnswerTo(a.code.r, requests[a.code.r].valued)
  }

  // ---------- the invariant ----------

  /** The execute thread has nothing to do and is not about to get anything. */
  predicate ExecIdle(s: State) {
    s.execAt.Sleeping? && !s.execEvt
  }

  /** The request accepted last is still to be executed. */
  predicate Owed(s: State) {
    s.accepted == s.executed + [s.lastRecv] && s.lastRecv < |s.requests|
  }

  /** The whole answer to the request executed last, as the shared packet holds it in between. */
  function Whole(executed: seq<nat>, requests: seq<Request>): Record {
    if executed == [] || executed[|executed| - 1] >= |requests| then BLANK
    else
      var e := executed[|executed| - 1];
      Record(requests[e].serial, Result(e), Count(requests[e].valued), Of(e))
  }

  /** Everything accepted has been executed. */
  predicate Settled(s: State) {
    s.accepted == s.executed && (s.accepted != [] ==> s.lastRecv == s.accepted[|s.accepted| - 1] < |s.requests|)
  }

  predicate InHand(s: State, r: nat) {
    s.accepted != [] && r == s.accepted[|s.accepted| - 1] && r == s.lastRecv
  }

  predicate Handover(s: State) {
    match s.recvAt
    case Resetting(r) => s.compEvt && ExecIdle(s) && Owed(s) && InHand(s, r) && s.last == Whole(s.executed, s.requests)
    case Signalling(r) => !s.compEvt && ExecIdle(s) && Owed(s) && InHand(s, r) && s.last == Whole(s.executed, s.requests)
    case _ =>
      match s.execAt
      case Sleeping =>
        s.last == Whole(s.executed, s.requests) && if s.execEvt then !s.compEvt && Owed(s) else s.compEvt && Settled(s)
      case Starting => !s.compEvt && !s.execEvt && Owed(s) && s.last == Whole(s.executed, s.requests)
      case Marked(r) =>
        && Busy(s, r)
        && s.last == Whole(s.executed, s.requests).(serial := s.requests[r].serial)
      case Cleared(r) =>
        && Busy(s, r)
        && s.last == Record(s.requests[r].serial, Invalid(r), 0, Whole(s.executed, s.requests).value)
      case Executing(r) => Busy(s, r) && s.last == Record(s.requests[r].serial, Invalid(r), 0, NoValue)
      case Filled(r) => Busy(s, r) && s.last == Record(s.requests[r].serial, Invalid(r), 0, Of(r))
      case Returned(r) =>
        && !s.compEvt && !s.execEvt && Settled(s) && InHand(s, r)
        && s.last == Whole(s.executed, s.requests).(argc := 0)
      case Finishing => !s.compEvt && !s.execEvt && Settled(s) && s.last == Whole(s.executed, s.requests)
  }

  /** The execute thread is at work on the stored request. */
  predicate Busy(s: State, r: nat) {
    !s.compEvt && !s.execEvt && Owed(s) && r == s.lastRecv
  }

  predicate ReceiverOk(s: State) {
    match s.recvAt
    case Listening => true
    case Comparing(r) => r + 1 == |s.requests| && Fresh(s.accepted, r)
    case Copying(r) =>
      && r + 1 == |s.requests| && Fresh(s.accepted, r)
      && (s.kind.Udp? ==> RecordFor(s, r).serial == s.requests[r].key)
    case Repeating(r, code, argc, stood) =>
      && r + 1 == |s.requests| && Fresh(s.accepted, r)
      && (stood <==> HeadRight(s.requests, r, code, argc))
      && (s.kind.Udp? ==> stood && RecordFor(s, r).code == code && RecordFor(s, r).argc == argc)
      && (code.Result? && !s.kind.Udp? ==> code.r in s.executed)
    case Checking(r) => r + 1 == |s.requests| && Fresh(s.accepted, r)
    case Storing(r) => r + 1 == |s.requests| && s.compEvt && Fresh(s.accepted, r)
    case Resetting(_) => true
    case Signalling(_) => true
    case Awaiting(r) => InHand(s, r)
    case Replying(r) => InHand(s, r) && s.compEvt
  }

  /** `r` comes after everything accepted so far. */
  predicate Fresh(accepted: seq<nat>, r: nat) {
    forall i :: 0 <= i < |accepted| ==> accepted[i] < r
  }

  predicate Increasing(accepted: seq<nat>, count: nat) {
    && (forall i, j :: 0 <= i < j < |accepted| ==> accepted[i] < accepted[j])
    && (forall i :: 0 <= i < |accepted| ==> accepted[i] < count)
  }

  predicate AllMatch(replied: seq<(nat, Answer)>, requests: seq<Request>) {
    forall i :: 0 <= i < |replied| ==>
      replied[i].0 < |requests| && replied[i].1 == AnswerTo(replied[i].0, requests[replied[i].0].valued)
  }

  /** Everything in these answers has been received. */
  predicate Known(answers: seq<(nat, Answer)>, count: nat) {
    forall i :: 0 <= i < |answers| ==>
      answers[i].0 < count && (answers[i].1.code.Result? ==> answers[i].1.code.r < count)
  }

  /** This is the answer to the request with that serial, which the same client sent. */
  predicate RecordOk(requests: seq<Request>, client: nat, record: Record) {
    && record.code.Result? && record.code.r < |requests|
    && requests[record.code.r].serial == record.serial && requests[record.code.r].client == client
    && record.argc == Count(requests[record.code.r].valued) && record.value == Of(record.code.r)
  }

  predicate RecordsOk(records: map<nat, Record>, requests: seq<Request>) {
    forall client :: client in records ==> RecordOk(requests, client, records[client])
  }

  predicate HistoryOk(s: State) {
    && Increasing(s.accepted, |s.requests|) && AllMatch(s.replied, s.requests) && Known(s.repeated, |s.requests|)
    && RecordsOk(s.records, s.requests)
  }

  predicate Inv(s: State) {
    Handover(s) && ReceiverOk(s) && HistoryOk(s)
  }

  /** A request that comes in leaves all that as it is. */
  lemma ReceiveKeeps(s: State, q: Request)
    requires Inv(s)
    ensures Inv(NextRecv(s, Receive(q)))
  {
    if s.recvAt.Listening? {
      var more := s.requests + [q];
      assert s.executed != [] ==> s.executed[|s.executed| - 1] == s.accepted[|s.executed| - 1] < |s.requests|;
      assert Whole(s.executed, more) == Whole(s.executed, s.requests);
      assert forall i :: 0 <= i < |s.requests| ==> more[i] == s.requests[i];
      hide RecordsOk, Known, Increasing, AllMatch, Fresh, Whole;
    }
  }

  lemma RecvKeeps(s: State, step: Step)
    requires Inv(s) && !ExecStep(step) && !step.Receive?
    ensures Handover(NextRecv(s, step)) && ReceiverOk(NextRecv(s, step))
  {
    if step.Compare? && s.recvAt.Comparing? {
      CompareKeeps(s);
    } else if step.Copy? && s.recvAt.Copying? {
      CopyKeeps(s);
    } else if step.Store? || step.Reset? || step.Signal? {
      HandingOverKeeps(s, step);
    } else {
      OtherKeeps(s, step);
    }
  }

  /** The moves that end or leave the receive thread where it has nothing to prepare. */
  lemma OtherKeeps(s: State, step: Step)
    requires Inv(s) && !ExecStep(step) && !step.Receive? && !step.Store? && !step.Reset? && !step.Signal?
    requires !(step.Compare? && s.recvAt.Comparing?) && !(step.Copy? && s.recvAt.Copying?)
    ensures Handover(NextRecv(s, step)) && ReceiverOk(NextRecv(s, step))
  {
    hide RecordsOk, RecordOk, Known, Increasing, AllMatch, Fresh, RecordFor, Whole, HeadRight, HeadStands, Repeated,
      Sent;
    var t := NextRecv(s, step);
    assert t == s || t.recvAt.Listening? || t.recvAt.Storing? || t.recvAt.Replying?;
    assert t.execAt == s.execAt && t.compEvt == s.compEvt && t.execEvt == s.execEvt;
  }

  lemma CopyKeeps(s: State)
    requires Inv(s) && s.recvAt.Copying?
    ensures Handover(NextRecv(s, Copy)) && ReceiverOk(NextRecv(s, Copy))
  {
    hide Known, Increasing, AllMatch, Fresh;
    var r := s.recvAt.r;
    if s.kind.Udp? {
      assert RecordFor(s, r) != BLANK;
      assert RecordOk(s.requests, s.requests[r].client, RecordFor(s, r));
    } else {
    }
  }

  lemma HandingOverKeeps(s: State, step: Step)
    requires Inv(s) && (step.Store? || step.Reset? || step.Signal?)
    ensures Handover(NextRecv(s, step)) && ReceiverOk(NextRecv(s, step))
  {
    hide RecordsOk, RecordOk, Known, Increasing, AllMatch, Fresh, RecordFor, Whole;
  }

  lemma CompareKeeps(s: State)
    requires Inv(s) && s.recvAt.Comparing?
    ensures Handover(NextRecv(s, Compare)) && ReceiverOk(NextRecv(s, Compare))
  {
    hide RecordsOk, Known, Increasing, AllMatch, Fresh, Whole;
  }

  lemma RecvKeepsHistory(s: State, step: Step)
    requires Inv(s) && !ExecStep(step) && !step.Receive?
    ensures HistoryOk(NextRecv(s, step))
  {
    hide Whole, Fresh, RecordFor, HeadRight, HeadStands;
    match step
    case Store =>
      StoreKeeps(s);
    case Repeat =>
      hide RecordsOk, Increasing, AllMatch;
      if s.recvAt.Repeating? { CodeKnown(s); }
    case Reply(sent, stops) =>
      ReplyKeeps(s, sent, stops);
    case Forget(client) =>
      hide Increasing, AllMatch, Known;
    case _ =>
      hide Increasing, AllMatch, Known, RecordsOk;
  }

  lemma StoreKeeps(s: State)
    requires Inv(s)
    ensures HistoryOk(NextRecv(s, Store))
  {
    hide RecordsOk, Known, AllMatch, Whole, RecordFor;
  }

  lemma ReplyKeeps(s: State, sent: bool, stops: bool)
    requires Inv(s)
    ensures HistoryOk(NextRecv(s, Reply(sent, stops)))
  {
    if s.recvAt.Replying? {
      var r := s.recvAt.r;
      hide Handover, Increasing, Known, Fresh, HeadRight, RecordFor, RecordsOk, AllMatch;
      assert RecordOk(s.requests, s.requests[r].client, s.last);
      assert Sent(s.last.code, s.last.argc, s.last.value) == AnswerTo(r, s.requests[r].valued);
    }
  }

  lemma CodeKnown(s: State)
    requires Inv(s) && s.recvAt.Repeating?
    ensures s.recvAt.r < |s.requests|
    ensures s.recvAt.code.Result? ==> s.recvAt.code.r < |s.requests|
  {
    hide AllMatch, Known, Fresh, RecordFor, RecordsOk;
    assert forall e :: e in s.executed ==> e in s.accepted;
  }

  lemma ExecKeeps(s: State, step: Step)
    requires Inv(s) && ExecStep(step)
    ensures Inv(NextExec(s, step))
  {
    hide Fresh, RecordsOk, Known, Increasing, AllMatch, HeadRight;
    var t := NextExec(s, step);
    assert t.requests == s.requests && t.records == s.records && t.accepted == s.accepted;
    assert HistoryOk(t);
    hide ReceiverOk;
    if step.Wake? || step.Mark? || step.Clear? || step.Call? { EarlyKeeps(s, step); } else { LateKeeps(s, step); }
  }

  lemma EarlyKeeps(s: State, step: Step)
    requires Inv(s) && (step.Wake? || step.Mark? || step.Clear? || step.Call?)
    ensures Handover(NextExec(s, step))
  {
    hide Fresh, RecordsOk, Known, Increasing, AllMatch, HeadRight, ReceiverOk;
  }

  lemma LateKeeps(s: State, step: Step)
    requires Inv(s) && (step.Fill? || step.Return? || step.Finish? || step.Complete?)
    ensures Handover(NextExec(s, step))
  {
    hide Fresh, RecordsOk, Known, Increasing, AllMatch, HeadRight, ReceiverOk;
  }

  lemma {:induction false} InvAlways(kind: Connection, steps: seq<Step>)
    ensures Inv(Run(kind, steps)) && Run(kind, steps).kind == kind
  {
    hide Handover, ReceiverOk, HistoryOk, NextRecv, NextExec;
    if steps == [] {
      StartOk(kind);
    } else {
      var s, step := Run(kind, steps[..|steps| - 1]), steps[|steps| - 1];
      InvAlways(kind, steps[..|steps| - 1]);
      NextKinds(s, step);
      if ExecStep(step) {
        ExecKeeps(s, step);
      } else if step.Receive? {
        ReceiveKeeps(s, step.q);
      } else {
        RecvKeeps(s, step);
        RecvKeepsHistory(s, step);
      }
    }
  }

  lemma NextKinds(s: State, step: Step)
    ensures Next(s, step).kind == s.kind
  {
  }

  lemma StartOk(kind: Connection)
    ensures Inv(Start(kind))
  {
  }

  // ---------- the results ----------

  /** In every interleaving the stored request is overwritten only while the execute thread is
      asleep with no wake-up pending. */
  lemma OverwrittenOnlyWhenIdle(kind: Connection, steps: seq<Step>)
    ensures var s := Run(kind, steps);
            && (s.recvAt.Storing? ==> ExecIdle(s))
            && (forall step :: Next(s, step).lastRecv != s.lastRecv ==> s.recvAt.Storing?)
  {
    hide Run;
    InvAlways(kind, steps);
  }

  /** The execute thread answers the very request that is stored: nothing overwrites it from the
      moment it is read until the callback has returned. */
  lemma ExecutesWhatIsStored(kind: Connection, steps: seq<Step>)
    ensures var s := Run(kind, steps);
            s.execAt.Marked? || s.execAt.Cleared? || s.execAt.Executing? || s.execAt.Filled? ==>
              s.execAt.r == s.lastRecv && !s.recvAt.Storing?
  {
    hide Run;
    InvAlways(kind, steps);
  }

  /** Requests run in the order in which they were accepted, none twice, and at most the last one
      has not run yet; it has when both threads are at rest. */
  lemma EachRunsOnce(kind: Connection, steps: seq<Step>)
    ensures var s := Run(kind, steps);
            && s.executed <= s.accepted && |s.accepted| <= |s.executed| + 1
            && (forall i, j :: 0 <= i < j < |s.executed| ==> s.executed[i] != s.executed[j])
            && (s.recvAt.Listening? && ExecIdle(s) ==> s.executed == s.accepted)
  {
    hide Run;
    InvAlways(kind, steps);
    var s := Run(kind, steps);
    assert s.accepted == s.executed || Owed(s);
    assert forall i :: 0 <= i < |s.executed| ==> s.executed[i] == s.accepted[i];
  }

  /** Every reply that follows an execution carries the whole answer to the request it replies to,
      also when an earlier request timed out while it was still running. */
  lemma RepliesMatch(kind: Connection, steps: seq<Step>)
    ensures var s := Run(kind, steps);
            forall i :: 0 <= i < |s.replied| ==>
              s.replied[i].0 < |s.requests|
              && s.replied[i].1 == AnswerTo(s.replied[i].0, s.requests[s.replied[i].0].valued)
  {
    hide Run;
    InvAlways(kind, steps);
  }

  /** The execute thread's moves for one request. */
  function Served(s: State): State {
    Next(Next(Next(Next(Next(Next(Next(Next(s, Wake), Mark), Clear), Call), Fill), Return), Finish), Complete)
  }

  /** The wake-up is never lost: while a request is owed, one of the threads can move on, and after
      at most eight moves of the execute thread the request has run and its answer stands. */
  lemma OwedRuns(kind: Connection, steps: seq<Step>)
    ensures var s := Run(kind, steps);
            s.executed != s.accepted ==>
              var u := Served(Next(Next(s, Reset), Signal));
              u.executed == s.accepted && u.compEvt && u.last.code == Result(s.lastRecv)
              && u.last.value == Of(s.lastRecv)
  {
    hide Run, Served;
    InvAlways(kind, steps);
    var s := Run(kind, steps);
    if s.executed != s.accepted {
      ExecRuns(Next(Next(s, Reset), Signal));
    }
  }

  /** It is to be run or in the callback. */
  predicate ToRun(t: State) {
    && Owed(t)
    && match t.execAt
       case Sleeping => t.execEvt
       case Starting => true
       case Marked(r) => r == t.lastRecv
       case Cleared(r) => r == t.lastRecv
       case Executing(r) => r == t.lastRecv
       case Filled(r) => r == t.lastRecv && t.last.value == Of(r)
       case _ => false
  }

  lemma ExecRuns(t: State)
    requires ToRun(t)
    ensures var u := Served(t);
            u.executed == t.accepted && u.compEvt && u.last.code == Result(t.lastRecv)
            && u.last.value == Of(t.lastRecv)
  {
    var c := Next(Next(Next(Next(Next(t, Wake), Mark), Clear), Call), Fill);
    IntoCallback(t);
    hide Next;
    CallbackRuns(c);
  }

  lemma IntoCallback(t: State)
    requires ToRun(t)
    ensures var c := Next(Next(Next(Next(Next(t, Wake), Mark), Clear), Call), Fill);
            && c.execAt == Filled(t.lastRecv) && c.executed == t.executed && c.last.value == Of(t.lastRecv)
            && t.lastRecv < |c.requests|
  {
    var b := Next(Next(t, Wake), Mark);
    FirstMoves(t);
    hide Next;
    MoreMoves(b);
  }

  lemma FirstMoves(t: State)
    requires ToRun(t)
    ensures var b := Next(Next(t, Wake), Mark);
            && ToRun(b) && !b.execAt.Sleeping? && !b.execAt.Starting?
            && b.executed == t.executed && b.lastRecv == t.lastRecv && b.requests == t.requests
  {
  }

  lemma MoreMoves(b: State)
    requires ToRun(b) && !b.execAt.Sleeping? && !b.execAt.Starting?
    ensures var c := Next(Next(Next(b, Clear), Call), Fill);
            && c.execAt == Filled(b.lastRecv) && c.executed == b.executed && c.last.value == Of(b.lastRecv)
            && c.requests == b.requests
  {
  }

  lemma CallbackRuns(c: State)
    requires c.execAt.Filled? && c.execAt.r < |c.requests| && c.last.value == Of(c.execAt.r)
    ensures var u := Next(Next(Next(c, Return), Finish), Complete);
            && u.executed == c.executed + [c.execAt.r] && u.compEvt
            && u.last.code == Result(c.execAt.r) && u.last.value == Of(c.execAt.r)
  {
  }

  // ---------- answers from the record ----------

  /** When an answer from a record is the right one, exactly.  On UDP it always is, and it is the answer to the
      same client.  On a serial line, where the record is the shared packet and comp_evt is not looked at,
      the fields are right if and only if they stand when they are copied, and the answer that goes out is
      right if and only if they stood then and the value, if there is one, stands when it is sent. */
  lemma RepeatRightExactly(kind: Connection, steps: seq<Step>)
    ensures var s := Run(kind, steps);
            && (s.recvAt.Copying? ==>
                  var t := Next(s, Copy);
                  t.recvAt.Repeating?
                  && (HeadRight(t.requests, t.recvAt.r, t.recvAt.code, t.recvAt.argc)
                      <==> kind.Udp? || HeadStands(s, s.recvAt.r)))
            && (s.recvAt.Repeating? ==>
                  && s.recvAt.r < |s.requests|
                  && (Right(s.requests, s.recvAt.r, Repeated(s)) <==> Stood(s))
                  && (kind.Udp? ==>
                        s.recvAt.code.Result? && s.recvAt.code.r < |s.requests|
                        && s.requests[s.recvAt.code.r].client == s.requests[s.recvAt.r].client))
  {
    hide Run;
    InvAlways(kind, steps);
    var s := Run(kind, steps);
    if s.recvAt.Copying? {
      CopyKeeps(s);
    } else if s.recvAt.Repeating? {
      RepeatedExactly(s);
    }
  }

  lemma RepeatedExactly(s: State)
    requires Inv(s) && s.recvAt.Repeating?
    ensures s.recvAt.r < |s.requests|
    ensures Right(s.requests, s.recvAt.r, Repeated(s)) <==> Stood(s)
    ensures s.kind.Udp? ==>
              s.recvAt.code.Result? && s.recvAt.code.r < |s.requests|
              && s.requests[s.recvAt.code.r].client == s.requests[s.recvAt.r].client
  {
    hide Known, AllMatch, Fresh;
    var r := s.recvAt.r;
    if s.kind.Udp? {
      hide Handover;
      assert RecordFor(s, r) == BLANK || RecordOk(s.requests, s.requests[r].client, RecordFor(s, r));
    } else if s.recvAt.stood {
      ValueStandsExactly(s, s.recvAt.code.r);
    }
  }

  lemma ValueStandsExactly(s: State, e: nat)
    requires Inv(s) && s.recvAt.Repeating? && e in s.executed
    ensures ValueStands(s, e) <==> s.last.value == Of(e)
  {
    hide Known, AllMatch, Fresh, RecordsOk, HeadRight, RecordFor, ReceiverOk;
    var last := |s.executed| - 1;
    assert s.accepted == s.executed || Owed(s);
    assert s.executed[last] == s.accepted[last] < |s.requests|;
    assert Whole(s.executed, s.requests).value == Of(s.executed[last]);
    if s.execAt.Filled? { EarlierExecuted(s, e); }
  }

  /** What has been executed came before what is owed. */
  lemma EarlierExecuted(s: State, e: nat)
    requires Increasing(s.accepted, |s.requests|) && Owed(s) && e in s.executed
    ensures e < s.lastRecv
  {
    var i :| 0 <= i < |s.executed| && s.executed[i] == e;
    assert s.accepted[i] == e && s.accepted[|s.executed|] == s.lastRecv;
  }

  /** The guard that the source does not use here would be enough: with comp_evt set when it compares, the
      execute thread is idle until the receive thread wakes it, and the answer from the record is right. */
  lemma CompletedRepeatRight(kind: Connection, steps: seq<Step>)
    ensures var s := Run(kind, steps);
            var t := Next(s, Compare);
            s.recvAt.Comparing? && t.recvAt.Copying? && s.compEvt ==>
              var u := Next(t, Copy);
              && ExecIdle(t) && ExecIdle(u) && u.recvAt.Repeating? && u.recvAt.r < |u.requests|
              && Right(u.requests, u.recvAt.r, Repeated(u))
  {
    hide Run;
    InvAlways(kind, steps);
    var s := Run(kind, steps);
  }

  /** All answers given from records in a run stood: on a serial line the fields when they were copied, and
      the value when it was sent. */
  ghost predicate AllStood(kind: Connection, steps: seq<Step>) {
    forall k :: 0 <= k < |steps| && steps[k].Repeat? ==> Stood(Run(kind, steps[..k]))
  }

  predicate AllRight(requests: seq<Request>, repeated: seq<(nat, Answer)>) {
    forall i :: 0 <= i < |repeated| ==> Right(requests, repeated[i].0, repeated[i].1)
  }

  /** Over every run the answers given from records are right exactly if they stood. */
  lemma {:induction false} RepeatsRightExactly(kind: Connection, steps: seq<Step>)
    ensures var s := Run(kind, steps); AllRight(s.requests, s.repeated) <==> AllStood(kind, steps)
  {
    if steps != [] {
      var n := |steps| - 1;
      var s := Run(kind, steps[..n]);
      RepeatsRightExactly(kind, steps[..n]);
      AllStoodNext(kind, steps);
      hide Run, Right, AllStood;
      InvAlways(kind, steps[..n]);
      hide Handover, ReceiverOk, Known, RecordFor, AllRight, Increasing, AllMatch, RecordsOk;
      if s.recvAt.Repeating? { RepeatedExactly(s); }
      RepeatNext(s, steps[n]);
    }
  }

  lemma AllStoodNext(kind: Connection, steps: seq<Step>)
    requires steps != []
    ensures var n := |steps| - 1;
            AllStood(kind, steps) <==>
              AllStood(kind, steps[..n]) && (steps[n].Repeat? ==> Stood(Run(kind, steps[..n])))
  {
    hide Run, Stood;
    var n := |steps| - 1;
    assert forall k :: 0 <= k < n ==> steps[..n][k] == steps[k] && steps[..n][..k] == steps[..k];
  }

  lemma RepeatNext(s: State, step: Step)
    requires s.recvAt.Repeating? ==> s.recvAt.r < |s.requests|
    requires Known(s.repeated, |s.requests|)
    ensures var t := Next(s, step);
            AllRight(t.requests, t.repeated) <==>
              AllRight(s.requests, s.repeated)
              && (step.Repeat? && s.recvAt.Repeating? ==> Right(s.requests, s.recvAt.r, Repeated(s)))
  {
    hide RecordFor, Right, Known, AllRight, Repeated, HeadStands;
    match step
    case Receive(q) =>
      AllRightLater(s.requests, q, s.repeated);
    case Repeat =>
      if s.recvAt.Repeating? { AllRightMore(s.requests, s.repeated, (s.recvAt.r, Repeated(s))); }
    case _ =>
  }

  lemma AllRightMore(requests: seq<Request>, repeated: seq<(nat, Answer)>, x: (nat, Answer))
    ensures AllRight(requests, repeated + [x]) <==> AllRight(requests, repeated) && Right(requests, x.0, x.1)
  {
    hide Right;
    var more := repeated + [x];
    assert more[|repeated|] == x && forall i :: 0 <= i < |repeated| ==> more[i] == repeated[i];
  }

  lemma AllRightLater(requests: seq<Request>, q: Request, repeated: seq<(nat, Answer)>)
    requires Known(repeated, |requests|)
    ensures AllRight(requests + [q], repeated) <==> AllRight(requests, repeated)
  {
    hide Right;
    forall i | 0 <= i < |repeated|
      ensures Right(requests + [q], repeated[i].0, repeated[i].1)
              <==> Right(requests, repeated[i].0, repeated[i].1)
    {
      RightMore(requests, q, repeated[i].0, repeated[i].1);
    }
  }

  lemma RightMore(requests: seq<Request>, q: Request, r: nat, a: Answer)
    requires r < |requests| && (a.code.Result? ==> a.code.r < |requests|)
    ensures Right(requests + [q], r, a) <==> Right(requests, r, a)
  {
  }

  // ---------- a call that is repeated while it runs, or after it was given up ----------

  /** The execute thread has not begun with the stored request. */
  predicate NotBegun(s: State) {
    s.execEvt || s.execAt.Starting?
  }

  /** A request that repeats the one accepted last is not answered from the record, exactly: always on TCP; on a
      serial line while the execute thread has not begun with that one, unless the one before had the same
      serial; on UDP unless the answer that this client was last given is recorded and had the serial. */
  lemma RepeatPassesExactly(kind: Connection, steps: seq<Step>)
    ensures var s := Run(kind, steps);
            s.recvAt.Comparing? ==>
              && s.recvAt.r < |s.requests|
              && (s.accepted != [] && s.lastRecv < |s.requests|
                  && s.requests[s.recvAt.r].key == s.requests[s.lastRecv].serial ==>
                    (Next(s, Compare).recvAt.Checking? <==>
                      match kind
                      case Tcp => true
                      case Com => NotBegun(s) && Whole(s.executed, s.requests).serial != s.requests[s.recvAt.r].key
                      case Udp => RecordFor(s, s.recvAt.r).serial != s.requests[s.recvAt.r].key))
  {
    hide Run;
    InvAlways(kind, steps);
    var s := Run(kind, steps);
  }

  // ---------- what is recorded for a UDP client ----------

  /** The whole answer to request number `r`, under its serial. */
  function RecordOf(requests: seq<Request>, r: nat): Record
    requires r < |requests|
  {
    Record(requests[r].serial, Result(r), Count(requests[r].valued), Of(r))
  }

  /** A step that gives the client another record or takes it away: a reply to it, its stop or its eviction. */
  predicate Rerecords(s: State, step: Step, client: nat) {
    || step == Forget(client)
    || (step.Reply? && s.recvAt.Replying? && s.recvAt.r < |s.requests| && s.requests[s.recvAt.r].client == client)
  }

  /** What a reply does: if it could be sent, it was the whole answer to its request; on UDP it is then recorded
      for the client unless that has stopped, which takes its record away; and the next request is waited for. */
  lemma ReplyRecorded(kind: Connection, steps: seq<Step>, sent: bool, stops: bool)
    ensures var s := Run(kind, steps);
            s.recvAt.Replying? ==>
              && s.recvAt.r < |s.requests|
              && ReplyDone(s, Next(s, Reply(sent, stops)), s.recvAt.r, sent, stops)
  {
    hide Run, ReplyDone;
    InvAlways(kind, steps);
    var s := Run(kind, steps);
    if s.recvAt.Replying? {
      AtReply(s);
      ReplySteps(s, sent, stops);
    }
  }

  predicate ReplyDone(s: State, t: State, r: nat, sent: bool, stops: bool)
    requires r < |s.requests|
  {
    var client := s.requests[r].client;
    && t == s.(recvAt := Listening, replied := t.replied, records := t.records)
    && t.replied == s.replied + (if sent then [(r, AnswerTo(r, s.requests[r].valued))] else [])
    && (!s.kind.Udp? ==> t.records == s.records)
    && (s.kind.Udp? && stops ==> client !in t.records)
    && (s.kind.Udp? && !stops && sent ==> client in t.records && t.records[client] == RecordOf(s.requests, r))
    && (s.kind.Udp? && !stops && !sent ==> t.records == s.records)
    && (forall c :: c != client && c in s.records ==> c in t.records && t.records[c] == s.records[c])
  }

  lemma ReplySteps(s: State, sent: bool, stops: bool)
    requires s.recvAt.Replying? && s.recvAt.r < |s.requests| && s.last == RecordOf(s.requests, s.recvAt.r)
    ensures ReplyDone(s, Next(s, Reply(sent, stops)), s.recvAt.r, sent, stops)
  {
  }

  /** A client that is evicted between two requests has no record any more, and no other loses its own. */
  lemma EvictedForgets(s: State, client: nat)
    requires s.recvAt.Listening?
    ensures var t := Next(s, Forget(client));
            && t == s.(records := t.records) && client !in t.records
            && forall c :: c != client && c in s.records ==> c in t.records && t.records[c] == s.records[c]
  {
  }

  /** A request that is refused, that finds the execute thread at work, or that is given up leaves everything as
      it is, and the next one is waited for. */
  lemma TurnedAway(kind: Connection, steps: seq<Step>)
    ensures var s := Run(kind, steps);
            && (s.recvAt.Comparing? || s.recvAt.Checking? || s.recvAt.Storing? ==>
                  Next(s, TurnAway) == s.(recvAt := Listening))
            && (s.recvAt.Checking? ==>
                  if ExecIdle(s) then Next(s, TestFree) == s.(recvAt := Storing(s.recvAt.r))
                  else Next(s, TestFree) == s.(recvAt := Listening))
            && (s.recvAt.Awaiting? ==> Next(s, GiveUp) == s.(recvAt := Listening))
  {
    hide Run;
    InvAlways(kind, steps);
    var s := Run(kind, steps);
    if s.recvAt.Checking? { FreeExactly(s); }
  }

  lemma FreeExactly(s: State)
    requires Inv(s) && s.recvAt.Checking?
    ensures s.compEvt <==> ExecIdle(s)
  {
    hide Known, AllMatch, RecordsOk, Increasing, ReceiverOk;
  }

  lemma AtReply(s: State)
    requires Inv(s) && s.recvAt.Replying?
    ensures s.recvAt.r < |s.requests| && s.last == RecordOf(s.requests, s.recvAt.r)
  {
    hide Known, AllMatch, RecordsOk, Increasing, RecordFor;
  }

  /** The client has this record. */
  predicate Recorded(s: State, client: nat, r: nat) {
    r < |s.requests| && client in s.records && s.records[client] == RecordOf(s.requests, r)
  }

  lemma RecordedKept(s: State, step: Step, client: nat, r: nat)
    requires Recorded(s, client, r) && !Rerecords(s, step, client)
    ensures Recorded(Next(s, step), client, r)
  {
    hide HeadStands, Repeated;
  }

  /** Over every UDP run: from the reply to request number `r` until the next reply to that client, its stop
      or its eviction, the record of the client is the serial and the whole answer of `r`; and every request of
      it that comes in with that serial for key is taken for a repeat. */
  lemma {:induction false} AnswerRecorded(before: seq<Step>, mid: seq<Step>)
    requires Run(Udp, before).recvAt.Replying?
    requires var r := Run(Udp, before).recvAt.r; r < |Run(Udp, before).requests|
    requires var s := Run(Udp, before);
             forall k :: 0 <= k < |mid| ==>
               !Rerecords(Run(Udp, before + [Reply(true, false)] + mid[..k]), mid[k], s.requests[s.recvAt.r].client)
    ensures var s, t := Run(Udp, before), Run(Udp, before + [Reply(true, false)] + mid);
            var r := s.recvAt.r;
            var client := s.requests[r].client;
            && Recorded(t, client, r)
            && (t.recvAt.Comparing? && t.recvAt.r < |t.requests| && t.requests[t.recvAt.r].client == client
                && t.requests[t.recvAt.r].key == s.requests[r].serial ==>
                  Next(t, Compare).recvAt == Copying(t.recvAt.r))
    decreases |mid|
  {
    hide Run, Recorded, Rerecords;
    var s := Run(Udp, before);
    var r := s.recvAt.r;
    var client := s.requests[r].client;
    var all := before + [Reply(true, false)] + mid;
    RecordStays(before, mid);
    InvAlways(Udp, all);
    assert before + ([Reply(true, false)] + mid) == all;
    SerialKept(before, [Reply(true, false)] + mid, r);
    RecordedCompared(Run(Udp, all), client, r);
  }

  lemma {:induction false} RecordStays(before: seq<Step>, mid: seq<Step>)
    requires Run(Udp, before).recvAt.Replying?
    requires var r := Run(Udp, before).recvAt.r; r < |Run(Udp, before).requests|
    requires var s := Run(Udp, before);
             forall k :: 0 <= k < |mid| ==>
               !Rerecords(Run(Udp, before + [Reply(true, false)] + mid[..k]), mid[k], s.requests[s.recvAt.r].client)
    ensures var s, t := Run(Udp, before), Run(Udp, before + [Reply(true, false)] + mid);
            Recorded(t, s.requests[s.recvAt.r].client, s.recvAt.r)
    decreases |mid|
  {
    hide Run, Recorded, Rerecords, Next;
    var s := Run(Udp, before);
    var r := s.recvAt.r;
    var client := s.requests[r].client;
    var all := before + [Reply(true, false)] + mid;
    if mid == [] {
      assert all == before + [Reply(true, false)];
      RunMore(Udp, before, Reply(true, false));
      ReplyRecorded(Udp, before, true, false);
      InvAlways(Udp, before);
      JustRecorded(s);
    } else {
      var n := |mid| - 1;
      var rest := before + [Reply(true, false)] + mid[..n];
      assert all == rest + [mid[n]];
      forall k | 0 <= k < n
        ensures !Rerecords(Run(Udp, before + [Reply(true, false)] + mid[..n][..k]), mid[..n][k], client)
      {
        assert mid[..n][..k] == mid[..k];
      }
      RecordStays(before, mid[..n]);
      RunMore(Udp, rest, mid[n]);
      RecordedKept(Run(Udp, rest), mid[n], client, r);
    }
  }

  lemma JustRecorded(s: State)
    requires s.kind.Udp? && s.recvAt.Replying? && s.recvAt.r < |s.requests|
    requires var client, t := s.requests[s.recvAt.r].client, Next(s, Reply(true, false));
             client in t.records && t.records[client] == RecordOf(s.requests, s.recvAt.r)
    ensures Recorded(Next(s, Reply(true, false)), s.requests[s.recvAt.r].client, s.recvAt.r)
  {
  }

  lemma RecordedCompared(t: State, client: nat, r: nat)
    requires t.kind.Udp? && Recorded(t, client, r)
    ensures t.recvAt.Comparing? && t.recvAt.r < |t.requests| && t.requests[t.recvAt.r].client == client
            && t.requests[t.recvAt.r].key == t.requests[r].serial ==>
              Next(t, Compare).recvAt == Copying(t.recvAt.r)
  {
  }

  lemma RunMore(kind: Connection, steps: seq<Step>, step: Step)
    ensures Run(kind, steps + [step]) == Next(Run(kind, steps), step)
  {
    assert (steps + [step])[..|steps|] == steps;
  }

  /** A request that has come in stays as it is. */
  lemma {:induction false} SerialKept(before: seq<Step>, steps: seq<Step>, r: nat)
    requires r < |Run(Udp, before).requests|
    ensures var s, t := Run(Udp, before), Run(Udp, before + steps);
            r < |t.requests| && t.requests[r] == s.requests[r]
  {
    if steps == [] {
      assert before + steps == before;
    } else {
      var n := |steps| - 1;
      assert before + steps == before + steps[..n] + [steps[n]];
      SerialKept(before, steps[..n], r);
      RunMore(Udp, before + steps[..n], steps[n]);
      hide Run;
      RequestsGrow(Run(Udp, before + steps[..n]), steps[n]);
    }
  }

  lemma RequestsGrow(s: State, step: Step)
    ensures s.requests <= Next(s, step).requests
  {
    hide HeadStands, Repeated;
  }

  /** A request that is taken for a repeat is neither accepted nor executed, whatever comes after. */
  lemma {:induction false} RepeatNeverRuns(kind: Connection, before: seq<Step>, steps: seq<Step>)
    requires Run(kind, before).recvAt.Copying?
    ensures var r, t := Run(kind, before).recvAt.r, Run(kind, before + steps);
            r !in t.accepted && r !in t.executed
  {
    hide Run, Passed;
    PassedAlways(kind, before, steps);
    InvAlways(kind, before + steps);
    PassedNotRun(Run(kind, before + steps), Run(kind, before).recvAt.r);
  }

  /** The request has been received and is not on its way to be accepted. */
  predicate Passed(t: State, r: nat) {
    && r < |t.requests| && r !in t.accepted
    && (t.recvAt.Comparing? || t.recvAt.Checking? || t.recvAt.Storing? ==> t.recvAt.r != r)
  }

  lemma {:induction false} PassedAlways(kind: Connection, before: seq<Step>, steps: seq<Step>)
    requires Run(kind, before).recvAt.Copying?
    ensures Passed(Run(kind, before + steps), Run(kind, before).recvAt.r)
  {
    hide Run, Next;
    var r := Run(kind, before).recvAt.r;
    if steps == [] {
      assert before + steps == before;
      InvAlways(kind, before);
      CopyingPassed(Run(kind, before));
    } else {
      var n := |steps| - 1;
      assert before + steps == before + steps[..n] + [steps[n]];
      PassedAlways(kind, before, steps[..n]);
      RunMore(kind, before + steps[..n], steps[n]);
      PassedKept(Run(kind, before + steps[..n]), steps[n], r);
    }
  }

  lemma CopyingPassed(s: State)
    requires Inv(s) && s.recvAt.Copying?
    ensures Passed(s, s.recvAt.r)
  {
    hide Known, AllMatch, RecordsOk, Increasing, RecordFor, Handover;
  }

  lemma PassedKept(t: State, step: Step, r: nat)
    requires Passed(t, r)
    ensures Passed(Next(t, step), r)
  {
    hide HeadStands, Repeated, RecordFor;
  }

  lemma PassedNotRun(t: State, r: nat)
    requires Inv(t) && Passed(t, r)
    ensures r !in t.accepted && r !in t.executed
  {
    hide Known, AllMatch, RecordsOk, Increasing, RecordFor, ReceiverOk, Fresh;
    assert forall e :: e in t.executed ==> e in t.accepted;
  }

  // ---------- a request that finds the line at rest ----------

  /** Both threads rest, and the next request is waited for. */
  predicate AtRest(s: State) {
    s.recvAt.Listening? && ExecIdle(s) && s.compEvt
  }

  // ---------- the answers that are not right ----------

  /** One step more. */
  lemma Do(kind: Connection, steps: seq<Step>, step: Step) returns (more: seq<Step>)
    ensures more == steps + [step] && Run(kind, more) == Next(Run(kind, steps), step)
  {
    more := steps + [step];
    assert more[..|steps|] == steps;
  }

  /** A request that finds the line at rest and is not answered from the record, up to where the execute
      thread is woken. */
  lemma Accepts(kind: Connection, steps: seq<Step>, q: Request) returns (more: seq<Step>)
    requires var s := Run(kind, steps);
             s.kind == kind && AtRest(s) && !Recognised(s, q)
    ensures var s, n := Run(kind, steps), |Run(kind, steps).requests|;
            Run(kind, more) == s.(recvAt := Awaiting(n), execEvt := true, compEvt := false, lastRecv := n,
                                  requests := s.requests + [q], accepted := s.accepted + [n])
  {
    hide Run;
    more := Do(kind, steps, Receive(q));
    more := Do(kind, more, Compare);
    more := Do(kind, more, TestFree);
    more := Do(kind, more, Store);
    more := Do(kind, more, Reset);
    more := Do(kind, more, Signal);
  }

  /** The execute thread wakes and writes the serial. */
  lemma Begins(kind: Connection, steps: seq<Step>) returns (more: seq<Step>)
    requires var s := Run(kind, steps); ExecIdle(s.(execEvt := false)) && s.execEvt && s.lastRecv < |s.requests|
    ensures var s := Run(kind, steps);
            Run(kind, more) == s.(execEvt := false, execAt := Marked(s.lastRecv),
                                  last := s.last.(serial := s.requests[s.lastRecv].serial))
  {
    hide Run;
    more := Do(kind, steps, Wake);
    more := Do(kind, more, Mark);
  }

  /** It calls the callback, which leaves its value. */
  lemma Calls(kind: Connection, steps: seq<Step>, n: nat) returns (more: seq<Step>)
    requires Run(kind, steps).execAt == Marked(n)
    ensures var s := Run(kind, steps);
            Run(kind, more) == s.(execAt := Filled(n), last := Record(s.last.serial, Invalid(n), 0, Of(n)))
  {
    hide Run;
    more := Do(kind, steps, Clear);
    more := Do(kind, more, Call);
    more := Do(kind, more, Fill);
  }

  /** The callback returns, and the answer is complete. */
  lemma Ends(kind: Connection, steps: seq<Step>, n: nat) returns (more: seq<Step>)
    requires Run(kind, steps).execAt == Filled(n) && n < |Run(kind, steps).requests|
    ensures var s := Run(kind, steps);
            Run(kind, more) == s.(execAt := Sleeping, compEvt := true, executed := s.executed + [n],
                                  last := Record(s.last.serial, Result(n), Count(s.requests[n].valued), s.last.value))
  {
    hide Run;
    more := Do(kind, steps, Return);
    more := Do(kind, more, Finish);
    more := Do(kind, more, Complete);
  }

  /** All of that. */
  lemma Executes(kind: Connection, steps: seq<Step>) returns (more: seq<Step>)
    requires var s := Run(kind, steps); ExecIdle(s.(execEvt := false)) && s.execEvt && s.lastRecv < |s.requests|
    ensures var s := Run(kind, steps);
            var n := s.lastRecv;
            Run(kind, more) == s.(execEvt := false, execAt := Sleeping, compEvt := true, executed := s.executed + [n],
                                  last := Record(s.requests[n].serial, Result(n), Count(s.requests[n].valued), Of(n)))
  {
    hide Run, Next;
    var n := Run(kind, steps).lastRecv;
    more := Begins(kind, steps);
    more := Calls(kind, more, n);
    more := Ends(kind, more, n);
  }

  /** A request is compared with what is recorded, and the serial there is its key. */
  predicate Recognised(s: State, q: Request) {
    !s.kind.Tcp? && RecordFor(s.(requests := s.requests + [q]), |s.requests|).serial == q.key
  }

  /** At rest, a request that names the serial recorded is answered from the record with the whole answer to
      the request of that serial, and not executed. */
  lemma RepeatedAtRest(kind: Connection, steps: seq<Step>, q: Request) returns (more: seq<Step>)
    requires AtRest(Run(kind, steps)) && Recognised(Run(kind, steps), q)
    ensures var s, t := Run(kind, steps), Run(kind, more);
            var n := |s.requests|;
            && AtRest(t) && t.requests == s.requests + [q] && t.executed == s.executed && t.replied == s.replied
            && |t.repeated| == |s.repeated| + 1 && s.repeated <= t.repeated
            && t.repeated[|s.repeated|].0 == n && Right(t.requests, n, t.repeated[|s.repeated|].1)
  {
    hide Run, Right, HeadStands, Repeated;
    var s := Run(kind, steps);
    InvAlways(kind, steps);
    more := Do(kind, steps, Receive(q));
    assert Run(kind, more) == s.(recvAt := Comparing(|s.requests|), requests := s.requests + [q]);
    CompletedRepeatRight(kind, more);
    more := Do(kind, more, Compare);
    more := Do(kind, more, Copy);
    more := Do(kind, more, Repeat);
  }

  /** At rest, any other request is executed and given its own whole answer. */
  lemma ExecutedAtRest(kind: Connection, steps: seq<Step>, q: Request) returns (more: seq<Step>)
    requires AtRest(Run(kind, steps)) && !Recognised(Run(kind, steps), q)
    ensures var s, t := Run(kind, steps), Run(kind, more);
            var n := |s.requests|;
            && AtRest(t) && t.requests == s.requests + [q] && t.executed == s.executed + [n]
            && t.repeated == s.repeated && t.replied == s.replied + [(n, AnswerTo(n, q.valued))]
  {
    hide Run, Recognised;
    InvAlways(kind, steps);
    more := Accepts(kind, steps, q);
    more := Executes(kind, more);
    more := Do(kind, more, GoOn);
    more := Do(kind, more, Reply(true, false));
  }

  /** The receive thread gives up, and a request comes in whose serial matches the shared packet: its fields
      are copied. */
  lemma Repeats(steps: seq<Step>, q: Request) returns (more: seq<Step>)
    requires var s := Run(Com, steps); s.kind.Com? && s.recvAt.Awaiting? && s.last.serial == q.key
    ensures var s, t := Run(Com, steps), Run(Com, more);
            && t.recvAt.Repeating? && t.recvAt.r == |s.requests|
            && t.recvAt.code == s.last.code && t.recvAt.argc == s.last.argc
            && t == s.(recvAt := t.recvAt, requests := s.requests + [q])
  {
    hide Run, HeadStands;
    more := Do(Com, steps, GiveUp);
    more := Do(Com, more, Receive(q));
    more := Do(Com, more, Compare);
    more := Do(Com, more, Copy);
  }

  lemma StartRun(kind: Connection)
    ensures Run(kind, []) == Start(kind)
  {
  }

  /** The receive thread gives up waiting and a second copy of the request comes in, while the callback
      of the first still runs: the serial matches, and E_INVALIDARG is the answer. */
  lemma HalfWrittenAnswer() returns (steps: seq<Step>)
    ensures var s := Run(Com, steps);
            && s.requests == [Request(0, 1, 1, true), Request(0, 2, 1, true)]
            && s.repeated == [(1, Answer(Invalid(0), 0, NoValue))]
  {
    hide Run;
    StartRun(Com);
    steps := Accepts(Com, [], Request(0, 1, 1, true));
    steps := Begins(Com, steps);
    steps := Do(Com, steps, Clear);
    steps := Repeats(steps, Request(0, 2, 1, true));
    steps := Do(Com, steps, Repeat);
  }

  /** The first request of a serial line, from its arrival to the reply. */
  lemma FirstCall(q: Request) returns (steps: seq<Step>)
    ensures var s := Run(Com, steps);
            && s.kind.Com? && s.recvAt.Listening? && ExecIdle(s) && s.compEvt && s.requests == [q] && s.repeated == []
            && s.last == Record(q.serial, Result(0), Count(q.valued), Of(0)) && s.executed == [0]
  {
    hide Run;
    StartRun(Com);
    steps := Accepts(Com, [], q);
    steps := Executes(Com, steps);
    steps := Do(Com, steps, GoOn);
    steps := Do(Com, steps, Reply(true, false));
  }

  /** The same, but between the writing of the serial and of E_INVALIDARG: the second call is given the
      answer to the first. */
  lemma AnswerOfTheCallBefore() returns (steps: seq<Step>)
    ensures var s := Run(Com, steps);
            && s.requests == [Request(0, 1, 1, true), Request(0, 2, 2, true), Request(0, 3, 2, true)]
            && s.repeated == [(2, AnswerTo(0, true))]
  {
    hide Run;
    steps := FirstCall(Request(0, 1, 1, true));
    steps := Accepts(Com, steps, Request(0, 2, 2, true));
    steps := Begins(Com, steps);
    steps := Repeats(steps, Request(0, 3, 2, true));
    steps := Do(Com, steps, Repeat);
  }

  /** The answer to the first call stands when its fields are copied for a retry, but the second call has
      left its value by the time it is sent: the first call is given the value of the second. */
  lemma ValueOfTheNextCall() returns (steps: seq<Step>)
    ensures var s := Run(Com, steps);
            && s.requests == [Request(0, 1, 1, true), Request(0, 2, 2, true), Request(0, 3, 1, true)]
            && s.repeated == [(2, Answer(Result(0), 1, Of(1)))]
  {
    hide Run;
    steps := FirstCall(Request(0, 1, 1, true));
    steps := Accepts(Com, steps, Request(0, 2, 2, true));
    steps := Repeats(steps, Request(0, 3, 1, true));
    steps := Begins(Com, steps);
    steps := Calls(Com, steps, 1);
    steps := Do(Com, steps, Repeat);
  }

  /** On UDP nothing is recorded when the receive thread has given up, so the retry of a call that outlasts
      its timeout is executed again once it has ended. */
  lemma LateCallRunsTwice() returns (steps: seq<Step>)
    ensures var s := Run(Udp, steps);
            s.requests == [Request(0, 1, 1, true), Request(0, 2, 1, true)] && s.executed == [0, 1]
  {
    hide Run;
    StartRun(Udp);
    steps := Accepts(Udp, [], Request(0, 1, 1, true));
    steps := Do(Udp, steps, GiveUp);
    steps := Executes(Udp, steps);
    steps := Accepts(Udp, steps, Request(0, 2, 1, true));
    steps := Executes(Udp, steps);
  }

  /** On a serial line that takes a retry that is compared before the execute thread has begun, and finds
      comp_evt set because it has ended in between. */
  lemma EarlyRetryRunsTwice() returns (steps: seq<Step>)
    ensures var s := Run(Com, steps);
            s.requests == [Request(0, 1, 1, true), Request(0, 2, 1, true)] && s.executed == [0, 1]
  {
    hide Run;
    StartRun(Com);
    steps := Accepts(Com, [], Request(0, 1, 1, true));
    steps := Do(Com, steps, GiveUp);
    steps := Do(Com, steps, Receive(Request(0, 2, 1, true)));
    steps := Do(Com, steps, Compare);
    steps := Executes(Com, steps);
    steps := Do(Com, steps, TestFree);
    steps := Do(Com, steps, Store);
    steps := Do(Com, steps, Reset);
    steps := Do(Com, steps, Signal);
    steps := Executes(Com, steps);
  }
}
