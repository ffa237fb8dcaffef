/** The power supply link of the driver (driver_dkms/ipc8_ps_comm.c) as a step function over its
    whole state.  PsuDriver runs the same steps in place on the ring queues, the state stack and
    the receive buffer; PsuLinkRuns and PsuLinkSilence prove what whole runs do. */
module PsuLink {
  import opened Bytes
  import Robotalk

  const ENQ: Byte := 5
  const HEADER := 6
  const MIN := 8
  const MAX_DATA := 24

  const TIMEOUT_LIMIT := 160
  const RETRY_LIMIT := 8
  const SEND_NAK_LIMIT := 8
  const RECV_NAK_LIMIT := 8
  const QUEUE_ROOM := 5
  const STACK_ROOM := 4

  const RESPONSE_ACK := 0x020E
  const RESPONSE_NAK := 0x820E
  const RESPONSE_REJ := 0x010E
  const COMMAND_ERRWARN := 0x0704

  // ---------- packets ----------

  /** The 32 bytes of a PSU_PACKET.  No packet ever holds a length byte above 24. */
  type Packet = p: seq<Byte> | |p| == 32 && p[1] <= MAX_DATA
    witness [0, 0, 0, 0, 0, 0, 0, 0, 0, 0, 0, 0, 0, 0, 0, 0,
             0, 0, 0, 0, 0, 0, 0, 0, 0, 0, 0, 0, 0, 0, 0, 0]

  /** All bytes zero, as after memset. */
  function EmptyPacket(): Packet {
    seq(32, i => 0)
  }

  function Size(p: Packet): (n: nat)
    ensures MIN <= n <= 32
  {
    MIN + p[1]
  }

  /** What travels of a packet. */
  function Frame(p: Packet): (f: seq<Byte>)
    ensures |f| == Size(p)
  {
    p[..Size(p)]
  }

  /** The command field, low byte first in memory. */
  function Command(p: Packet): (c: nat)
    ensures c < 0x1_0000
  {
    p[2] + 256 * (p[3] as int)
  }

  /** The first two data bytes as a number. */
  function DataWord(p: Packet): nat {
    p[6] + 256 * (p[7] as int)
  }

  /** calc_cd before its byte swap: the sum over the frame with ENQ in the first place. */
  function CheckSum(p: Packet): nat {
    (ENQ + Robotalk.Sum(p[1..HEADER + p[1]])) % 0x1_0000
  }

  /** set_cd. */
  function Seal(p: Packet): Packet {
    p[HEADER + p[1] := CheckSum(p) / 256][HEADER + p[1] + 1 := CheckSum(p) % 256]
  }

  /** check_cd. */
  predicate Sealed(p: Packet) {
    256 * (p[HEADER + p[1]] as int) + p[HEADER + p[1] + 1] == CheckSum(p)
  }

  function Or(a: nat, b: nat): nat
    decreases a + b
  {
    if a == 0 && b == 0 then 0
    else 2 * Or(a / 2, b / 2) + (if a % 2 == 1 || b % 2 == 1 then 1 else 0)
  }

  /** The retry marks that are or-ed into the command field when a frame starts. */
  function Marked(p: Packet, retry: nat): Packet {
    var c := Or(Or(Command(p), if retry > 0 then 0x10 else 0), (retry * 0x20) % 0x1_0000);
    p[2 := c % 256][3 := c / 256 % 256]
  }

  /** A command without its retry marks. */
  function Unmarked(c: nat): nat {
    c - (c / 16 % 16) * 16
  }

  // ---------- the communication control ----------

  datatype Mode = Queue | Ack | Nak

  datatype Comm = Comm(retry: nat, nakSend: nat, nakRecv: nat, mode: Mode)

  const CLEAR := Comm(0, 0, 0, Queue)

  /** The error bits the driver reports. */
  datatype Fault = TimeoutOver | RecvNakOver | SendNakOver | RecvRej | RecvUnknown | ErrWarn

  datatype Reason = Answered | Rejected | NakLimit | UnknownReply | GaveUp

  /** A queued command: its packet, how many result bytes its caller has room for, and whether
      the caller waits. */
  datatype RawCommand = RawCommand(packet: Packet, resultSize: nat, wait: bool)

  type CommData = c: RawCommand | c.resultSize <= MAX_DATA witness RawCommand(
      [0, 0, 0, 0, 0, 0, 0, 0, 0, 0, 0, 0, 0, 0, 0, 0,
       0, 0, 0, 0, 0, 0, 0, 0, 0, 0, 0, 0, 0, 0, 0, 0], 0, false)

  datatype Event = Dequeued(command: CommData) | Released(why: Reason)

  /** The flags and counters of PSU_PARAM with the stack of saved communication states.  The log
      is a history that no step reads: it records every dequeue and every lifting of the dequeue
      prohibition. */
  datatype Control = Control(
    comm: Comm, stack: seq<Comm>, timeout: nat, sendPos: nat,
    noDequeue: bool, receiving: bool, sending: bool, faults: set<Fault>, log: seq<Event>)

  function Release(c: Control, why: Reason): Control {
    c.(noDequeue := false, log := c.log + [Released(why)])
  }

  function Report(c: Control, f: Fault): Control {
    c.(faults := c.faults + {f})
  }

  /** state_push_stack: refused when four states are saved. */
  function Push(c: Control): Control {
    if |c.stack| >= STACK_ROOM then c else c.(stack := c.stack + [c.comm])
  }

  /** state_pop_stack: nothing happens on an empty stack. */
  function Pop(c: Control): Control {
    if c.stack == [] then c
    else c.(comm := c.stack[|c.stack| - 1], stack := c.stack[..|c.stack| - 1])
  }

  /** send_retry_packet. */
  function SendRetry(c: Control): Control {
    var d := c.(receiving := false, comm := c.comm.(retry := c.comm.retry + 1));
    if d.comm.retry < RETRY_LIMIT then d
    else if d.comm.mode.Nak? then Pop(Report(d, TimeoutOver))
    else Release(Report(d, TimeoutOver), GaveUp)
  }

  /** check_retry_count.  An expired ACK state is popped first, and what then is the current state
      is treated as an expired NAK state is. */
  function CheckRetry(c: Control): Control {
    var d := c.(timeout := c.timeout + 1);
    if d.timeout < TIMEOUT_LIMIT then d
    else if d.comm.mode.Queue? then SendRetry(d)
    else
      var e := if d.comm.mode.Ack? then Pop(d) else d;
      if e.comm.nakSend == SEND_NAK_LIMIT then Pop(e) else SendRetry(e)
  }

  /** analyze_recv_packet when the checksum is wrong. */
  function BadChecksum(c: Control): Control {
    var d := c.(comm := c.comm.(nakSend := c.comm.nakSend + 1));
    if d.comm.nakSend >= SEND_NAK_LIMIT then Report(d, SendNakOver)
    else if d.comm.mode.Nak? then d
    else Push(d).(comm := Comm(0, 1, 0, Nak))
  }

  /** What a received packet means for the command that is out. */
  datatype Verdict = Bad | Answer(ack: bool, matching: bool) | NakReply | Warning | Strange

  function Classify(p: Packet, outstanding: Packet): Verdict {
    if !Sealed(p) then Bad
    else
      var command := Unmarked(Command(p));
      if command == RESPONSE_ACK then Answer(true, Command(outstanding) == DataWord(p))
      else if command == RESPONSE_REJ then Answer(false, Command(outstanding) == DataWord(p))
      else if command == RESPONSE_NAK then NakReply
      else if command == COMMAND_ERRWARN then Warning
      else Strange
  }

  /** dispatch_recv_packet, as far as the control goes. */
  function React(c: Control, v: Verdict): Control {
    var d := Pop(c);
    match v
    case Bad => BadChecksum(c)
    case Answer(ack, matching) =>
      if !matching then d.(receiving := true)
      else if ack then Release(d, Answered)
      else Release(Report(d, RecvRej), Rejected)
    case NakReply =>
      var e := d.(comm := d.comm.(nakRecv := d.comm.nakRecv + 1));
      if e.comm.nakRecv >= RECV_NAK_LIMIT then Release(Report(e, RecvNakOver), NakLimit) else e
    case Warning => Report(Push(d).(comm := Comm(0, 0, 0, Ack)), ErrWarn)
    case Strange => Release(Report(d, RecvUnknown), UnknownReply)
  }

  // ---------- the frame assembler ----------

  datatype RawAssembler = RawAssembler(buf: Packet, pos: nat)

  /** The receive buffer and its position.  The position is always inside the 32 bytes and short
      of the end of the packet whose length byte is already there. */
  type Assembler = a: RawAssembler | a.pos < 32 && (a.pos >= MIN ==> a.pos < Size(a.buf))
    witness RawAssembler(
      [0, 0, 0, 0, 0, 0, 0, 0, 0, 0, 0, 0, 0, 0, 0, 0,
       0, 0, 0, 0, 0, 0, 0, 0, 0, 0, 0, 0, 0, 0, 0, 0], 0)

  /** A byte that cannot start a packet where one has to start. */
  predicate Stray(a: Assembler, rx: Byte) {
    a.pos == 0 && rx != ENQ
  }

  function Store(a: Assembler, rx: Byte): Packet {
    a.buf[a.pos := if a.pos == 1 && rx > MAX_DATA then MAX_DATA else rx]
  }

  predicate Completes(a: Assembler, rx: Byte) {
    a.pos + 1 >= MIN && Size(Store(a, rx)) <= a.pos + 1
  }

  /** get_recv_packet, as far as the receive buffer goes. */
  function Assemble(a: Assembler, rx: Byte): Assembler {
    if Stray(a, rx) then a
    else if Completes(a, rx) then RawAssembler(Store(a, rx), 0)
    else RawAssembler(Store(a, rx), a.pos + 1)
  }

  // ---------- the whole state ----------

  /** Histories, which no step reads: the bytes sent, the frames completed, the commands accepted
      by send_enqueue, the packets assembled, the number of those that found the receive queue
      full, the packets dispatched, and the result bytes handed to callers. */
  datatype History = History(
    tx: seq<Byte>, frames: seq<seq<Byte>>, accepted: seq<CommData>,
    assembled: seq<Packet>, lost: nat, dispatched: seq<Packet>, results: seq<seq<Byte>>)

  datatype State = State(
    c: Control, sendQ: seq<CommData>, recvQ: seq<Packet>,
    sendData: CommData, ack: Packet, nak: Packet, dispatch: Packet,
    a: Assembler, syncWait: bool, h: History)

  /** send_enqueue: refused when five commands are waiting. */
  function Enqueue(s: State, d: CommData): State {
    if |s.sendQ| >= QUEUE_ROOM then s
    else s.(sendQ := s.sendQ + [d], h := s.h.(accepted := s.h.accepted + [d]))
  }

  /** recv_enqueue: a packet that finds five waiting is lost. */
  function RecvEnqueue(s: State, p: Packet): State {
    if |s.recvQ| >= QUEUE_ROOM then
      s.(h := s.h.(assembled := s.h.assembled + [p], lost := s.h.lost + 1))
    else s.(recvQ := s.recvQ + [p], h := s.h.(assembled := s.h.assembled + [p]))
  }

  /** get_recv_packet: one received byte. */
  function GetRecv(s: State, rx: Byte): State {
    if Stray(s.a, rx) then s.(c := CheckRetry(s.c))
    else
      var t := s.(a := Assemble(s.a, rx));
      if Completes(s.a, rx) then RecvEnqueue(t, Store(s.a, rx)) else t
  }

  function GetRecvAll(s: State, rx: seq<Byte>): State {
    if rx == [] then s else GetRecv(GetRecvAll(s, rx[..|rx| - 1]), rx[|rx| - 1])
  }

  /** The packet that the current mode sends. */
  function Current(s: State): Packet {
    match s.c.comm.mode
    case Ack => s.ack
    case Nak => s.nak
    case Queue => s.sendData.packet
  }

  function WithCurrent(s: State, p: Packet): State {
    match s.c.comm.mode
    case Ack => s.(ack := p)
    case Nak => s.(nak := p)
    case Queue => s.(sendData := s.sendData.(packet := p))
  }

  /** What the current packet is when its byte at the send position leaves. */
  function Outgoing(s: State): Packet {
    if s.c.sendPos == 0 then Seal(Marked(Current(s), s.c.comm.retry)) else Current(s)
  }

  /** The second half of set_send_packet: the next byte, or the change to receiving. */
  function Transmit(s: State): State {
    if s.c.sendPos < Size(Current(s)) then
      WithCurrent(s, Outgoing(s)).(
        c := s.c.(sending := true, sendPos := s.c.sendPos + 1),
        h := s.h.(tx := s.h.tx + [Outgoing(s)[s.c.sendPos]]))
    else
      s.(c := s.c.(sending := false, receiving := true, sendPos := 0, timeout := 0),
         h := s.h.(frames := s.h.frames + [Frame(Current(s))]))
  }

  /** The next command is taken when the queue mode is on and the previous command is done. */
  predicate WantsCommand(s: State) {
    !s.c.receiving && s.c.comm.mode.Queue? && !s.c.noDequeue
  }

  /** The wake-up of a waiting caller. */
  function Wake(s: State): State {
    if s.syncWait && s.sendData.wait then s.(syncWait := false) else s
  }

  function Take(s: State): State
    requires s.sendQ != []
  {
    s.(sendData := s.sendQ[0], sendQ := s.sendQ[1..],
       c := s.c.(comm := CLEAR, noDequeue := true, log := s.c.log + [Dequeued(s.sendQ[0])]))
  }

  /** set_send_packet. */
  function SetSend(s: State): State {
    if s.c.receiving then s
    else if WantsCommand(s) then
      if s.sendQ == [] then Wake(s) else Transmit(Take(Wake(s)))
    else Transmit(s)
  }

  /** The middle of power_communication: the received bytes, or the timeout count. */
  function Receive(s: State, rx: seq<Byte>): State {
    if rx != [] then GetRecvAll(s, rx)
    else if s.c.receiving then s.(c := CheckRetry(s.c))
    else s
  }

  /** The result bytes taken from an ACK, last byte first, as far as the caller has room.  A length
      byte below 2 wraps to a large one; see PsuLinkRuns.ResultBytesExactly. */
  function ResultBytes(p: Packet, room: nat): seq<Byte>
    requires room <= MAX_DATA
  {
    var recvLen := ((p[1] as int) + 254) % 256;
    var n := if room < recvLen then room else recvLen;
    seq(n, i requires 0 <= i < n => p[HEADER + 1 + n - i])
  }

  /** dispatch_recv_packet: besides the control, a warning enters the ACK packet and an answer
      hands its bytes to the caller. */
  function Dispatch(s: State): State {
    var v := Classify(s.dispatch, s.sendData.packet);
    s.(c := React(s.c, v),
       ack := if v.Warning? then s.ack[6 := s.dispatch[2]][7 := s.dispatch[3]] else s.ack,
       h := if v == Answer(true, true) then
              s.h.(results := s.h.results + [ResultBytes(s.dispatch, s.sendData.resultSize)])
            else s.h)
  }

  function RecvDequeue(s: State): State
    requires s.recvQ != []
  {
    s.(dispatch := s.recvQ[0], recvQ := s.recvQ[1..], c := s.c.(receiving := false),
       h := s.h.(dispatched := s.h.dispatched + [s.recvQ[0]]))
  }

  /** The end of power_communication: at most one packet is dispatched, never while sending. */
  function DispatchNext(s: State): State {
    if s.c.sending || s.recvQ == [] then s else Dispatch(RecvDequeue(s))
  }

  /** power_communication, run once per DMA cycle with the bytes received in it. */
  function Cycle(s: State, rx: seq<Byte>): State {
    DispatchNext(Receive(SetSend(s), rx))
  }

  // ---------- start ----------

  /** create_psu_packet; bytes it does not set are zero. */
  function Create(command: nat, data: seq<Byte>): Packet
    requires command < 0x1_0000 && |data| <= MAX_DATA
  {
    [ENQ, |data|, command % 256, command / 256, 0x90, 0x40] + data + EmptyPacket()[HEADER + |data|..]
  }

  const IDLE_CONTROL := Control(CLEAR, [], 0, 0, false, false, false, {}, [])

  /** The state set up by initialize_psu_comm before the start-up commands are queued. */
  function Initial(): State {
    State(IDLE_CONTROL, [], [], RawCommand(EmptyPacket(), 0, false),
          Create(RESPONSE_ACK, [0, 0]), Create(RESPONSE_NAK, []), EmptyPacket(),
          RawAssembler(EmptyPacket(), 0), false, History([], [], [], [], 0, [], []))
  }
}
