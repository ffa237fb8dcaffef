/** The power supply link in place, as driver_dkms/ipc8_ps_comm.c runs it: ring queues indexed by
    head and tail, an array of saved communication states with a position, a 32-byte receive
    buffer, and flags and counters updated one by one.  Every method is proved to do what the
    step functions of PsuLink say: the ring queues against sequences, the state stack and the counters
    against the communication control, the receive buffer against the frame assembler, and one DMA
    cycle of the driver against one cycle of the link, whatever the receive registers hold. */
module PsuDriver {
  import opened Bytes
  import opened PsuLink
  import opened PsuLinkRuns
  import Robotalk

  /** SEND_DATA_QUEUE and RECV_PACKET_QUEUE: one place always stays free, so that head and tail
      are equal only when the queue is empty. */
  class RingQueue<T(0)> {
    const data: array<T>
    var head: nat
    var tail: nat
    ghost var Items: seq<T>  // the queued elements, oldest first

    ghost predicate Valid()
      reads this, data
    {
      && head < data.Length && tail < data.Length
      && Items == if head <= tail then data[head..tail] else data[head..] + data[..tail]
    }

    constructor (room: nat)
      ensures Valid() && Items == [] && data.Length == room + 1 && fresh(data)
    {
      data := new T[room + 1];
      head, tail := 0, 0;
      Items := [];
    }

    function NextIndex(i: nat): (j: nat)
      requires i < data.Length
      ensures j == if i + 1 == data.Length then 0 else i + 1
    {
      (i + 1) % data.Length
    }

    method Enqueue(x: T) returns (ok: bool)
      requires Valid()
      modifies this`tail, this`Items, data
      ensures Valid()
      ensures ok <==> |old(Items)| < data.Length - 1
      ensures Items == if ok then old(Items) + [x] else old(Items)
    {
      if NextIndex(tail) == head {
        return false;
      }
      data[tail] := x;
      tail := NextIndex(tail);
      Items := Items + [x];
      if head <= tail {
        assert data[head..tail] == data[head..tail - 1] + [data[tail - 1]];
      } else if tail == 0 {
        assert data[head..] == data[head..data.Length - 1] + [data[data.Length - 1]];
      } else {
        assert data[..tail] == data[..tail - 1] + [data[tail - 1]];
      }
      return true;
    }

    method Dequeue() returns (ok: bool, x: T)
      requires Valid()
      modifies this`head, this`Items
      ensures Valid()
      ensures ok <==> old(Items) != []
      ensures if ok then old(Items) == [x] + Items else Items == old(Items)
    {
      x := data[head];
      ok := head != tail;
      if ok {
        head := NextIndex(head);
        if head == 0 {
          assert data[data.Length - 1..] == [x];
        }
        assert Items == [x] + Items[1..];
        Items := Items[1..];
      }
    }
  }

  /** calc_cd before the byte swap. */
  method CalcCd(packet: Packet) returns (sum: nat)
    ensures sum == CheckSum(packet)
  {
    sum := ENQ;
    var p := 1;
    while p < HEADER + packet[1]
      invariant 1 <= p <= HEADER + packet[1]
      invariant sum == (ENQ + Robotalk.Sum(packet[1..p])) % 0x1_0000
    {
      assert packet[1..p + 1][..p - 1] == packet[1..p];
      sum := (sum + packet[p]) % 0x1_0000;
      p := p + 1;
    }
  }

  /** set_cd: the swapped sum stored low byte first puts the high byte of the sum first. */
  method SetCd(packet: Packet) returns (r: Packet)
    ensures r == Seal(packet)
  {
    var cd := CalcCd(packet);
    var n := HEADER + packet[1];
    r := packet[n := cd / 256][n + 1 := cd % 256];
  }

  method CheckCd(packet: Packet) returns (ok: bool)
    ensures ok == Sealed(packet)
  {
    var cd := CalcCd(packet);
    var n := HEADER + packet[1];
    ok := 256 * (packet[n] as int) + packet[n + 1] == cd;
  }

  /** The flags and counters of PSU_PARAM together with COMM_STATE_STACK. */
  class CommControl {
    const saved: array<Comm>
    var stackPos: nat
    var comm: Comm
    var timeoutCount: nat
    var sendPos: nat
    var noDequeue: bool
    var receiving: bool
    var sending: bool
    var faults: set<Fault>
    ghost var log: seq<Event>
    ghost var Model: Control  // the same as a value

    ghost predicate Valid()
      reads this, saved
      ensures Valid() ==> comm == Model.comm && sendPos == Model.sendPos
      ensures Valid() ==> noDequeue == Model.noDequeue && receiving == Model.receiving
      ensures Valid() ==> sending == Model.sending
    {
      && saved.Length == STACK_ROOM && stackPos <= STACK_ROOM
      && Model == Current()
    }

    ghost function Current(): Control
      requires stackPos <= saved.Length
      reads this, saved
    {
      Control(comm, saved[..stackPos], timeoutCount, sendPos, noDequeue, receiving, sending, faults, log)
    }

    constructor ()
      ensures Valid() && Model == IDLE_CONTROL && fresh(saved)
    {
      saved := new Comm[STACK_ROOM];
      stackPos := 0;
      comm := CLEAR;
      timeoutCount, sendPos := 0, 0;
      noDequeue, receiving, sending := false, false, false;
      faults, log := {}, [];
      Model := IDLE_CONTROL;
    }

    /** state_push_stack. */
    method StatePush()
      requires Valid()
      modifies this, saved
      ensures Valid() && Model == Push(old(Model))
    {
      if STACK_ROOM > stackPos {
        saved[stackPos] := comm;
        stackPos := stackPos + 1;
        Model := Current();
      }
    }

    /** state_pop_stack. */
    method StatePop()
      requires Valid()
      modifies this
      ensures Valid() && Model == Pop(old(Model))
    {
      if 0 < stackPos {
        stackPos := stackPos - 1;
        comm := saved[stackPos];
        assert saved[..stackPos + 1][..stackPos] == saved[..stackPos];
        Model := Current();
      }
    }

    /** Lifting the dequeue prohibition. */
    method Lift(why: Reason)
      requires Valid()
      modifies this
      ensures Valid() && Model == Release(old(Model), why)
    {
      noDequeue := false;
      log := log + [Released(why)];
      Model := Current();
    }

    method Record(f: Fault)
      requires Valid()
      modifies this
      ensures Valid() && Model == Report(old(Model), f)
    {
      faults := faults + {f};
      Model := Current();
    }

    /** send_retry_packet. */
    method SendRetryPacket()
      requires Valid()
      modifies this
      ensures Valid() && Model == SendRetry(old(Model))
    {
      hide Pop, Release;
      receiving := false;
      comm := comm.(retry := comm.retry + 1);
      Model := Current();
      if RETRY_LIMIT <= comm.retry {
        Record(TimeoutOver);
        if comm.mode.Nak? {
          StatePop();
        } else {
          Lift(GaveUp);
        }
      }
    }

    /** check_retry_count; the ACK case falls through into the NAK case. */
    method CheckRetryCount()
      requires Valid()
      modifies this
      ensures Valid() && Model == CheckRetry(old(Model))
    {
      hide Pop, SendRetry;
      timeoutCount := timeoutCount + 1;
      Model := Current();
      if TIMEOUT_LIMIT <= timeoutCount {
        if comm.mode.Queue? {
          SendRetryPacket();
        } else {
          if comm.mode.Ack? {
            StatePop();
          }
          if SEND_NAK_LIMIT == comm.nakSend {
            StatePop();
          } else {
            SendRetryPacket();
          }
        }
      }
    }

    /** analyze_recv_packet, given whether the checksum was right. */
    method AnalyzeRecvPacket(ok: bool)
      requires Valid()
      modifies this, saved
      ensures Valid() && Model == if ok then Pop(old(Model)) else BadChecksum(old(Model))
    {
      hide Pop, Push, Report;
      if ok {
        StatePop();
      } else {
        comm := comm.(nakSend := comm.nakSend + 1);
        Model := Current();
        if SEND_NAK_LIMIT <= comm.nakSend {
          Record(SendNakOver);
        } else if !comm.mode.Nak? {
          StatePush();
          comm := Comm(0, 1, 0, Nak);
          Model := Current();
        }
      }
    }

    /** The control part of dispatch_ack_rej_packet. */
    method AckRej(ack: bool, matching: bool)
      requires Valid()
      modifies this
      ensures Valid()
      ensures var c := old(Model);
              Model == if !matching then c.(receiving := true)
                       else if ack then Release(c, Answered)
                       else Release(Report(c, RecvRej), Rejected)
    {
      hide Release, Report;
      if matching {
        if ack {
          Lift(Answered);
        } else {
          Record(RecvRej);
          Lift(Rejected);
        }
      } else {
        receiving := true;
        Model := Current();
      }
    }

    /** The control part of dispatch_error_warning_packet. */
    method EnterAck()
      requires Valid()
      modifies this, saved
      ensures Valid()
      ensures Model == Report(Push(old(Model)).(comm := Comm(0, 0, 0, Ack)), ErrWarn)
    {
      hide Push, Report;
      StatePush();
      comm := Comm(0, 0, 0, Ack);
      Model := Current();
      Record(ErrWarn);
    }

    /** A received NAK. */
    method CountNak()
      requires Valid()
      modifies this
      ensures Valid()
      ensures var c := old(Model);
              var e := c.(comm := c.comm.(nakRecv := c.comm.nakRecv + 1));
              Model == if e.comm.nakRecv >= RECV_NAK_LIMIT then Release(Report(e, RecvNakOver), NakLimit) else e
    {
      hide Release, Report;
      comm := comm.(nakRecv := comm.nakRecv + 1);
      Model := Current();
      if RECV_NAK_LIMIT <= comm.nakRecv {
        Record(RecvNakOver);
        Lift(NakLimit);
      }
    }

    method TakeCommand(d: CommData)
      requires Valid()
      modifies this
      ensures Valid()
      ensures Model == old(Model).(comm := CLEAR, noDequeue := true, log := old(Model).log + [Dequeued(d)])
    {
      comm := CLEAR;
      noDequeue := true;
      log := log + [Dequeued(d)];
      Model := Current();
    }

    method SentByte()
      requires Valid()
      modifies this
      ensures Valid() && Model == old(Model).(sending := true, sendPos := old(Model).sendPos + 1)
    {
      sending := true;
      sendPos := sendPos + 1;
      Model := Current();
    }

    method StartReceiving()
      requires Valid()
      modifies this
      ensures Valid()
      ensures Model == old(Model).(sending := false, receiving := true, sendPos := 0, timeout := 0)
    {
      sending := false;
      receiving := true;
      sendPos := 0;
      timeoutCount := 0;
      Model := Current();
    }

    method StopReceiving()
      requires Valid()
      modifies this
      ensures Valid() && Model == old(Model).(receiving := false)
    {
      receiving := false;
      Model := Current();
    }
  }

  /** recv_packet and recv_pos: the receive buffer, filled byte by byte. */
  class ReceiveBuffer {
    const buf: array<Byte>
    var pos: nat
    ghost var Model: Assembler

    ghost predicate Valid()
      reads this, buf
      ensures Valid() ==> pos == Model.pos
    {
      buf.Length == 32 && buf[..] == Model.buf && pos == Model.pos
    }

    constructor ()
      ensures Valid() && Model == RawAssembler(EmptyPacket(), 0) && fresh(buf)
    {
      buf := new Byte[32](i => 0);
      pos := 0;
      Model := RawAssembler(EmptyPacket(), 0);
      new;
      assert buf[..] == EmptyPacket();
    }

    /** get_recv_packet after the ENQ test: a length byte above 24 is stored as 24; when the packet
        is complete it is returned. */
    method Put(rx: Byte) returns (complete: bool, packet: Packet)
      requires Valid() && !Stray(Model, rx)
      modifies this, buf
      ensures Valid() && Model == Assemble(old(Model), rx)
      ensures complete == Completes(old(Model), rx)
      ensures complete ==> packet == Store(old(Model), rx)
    {
      var rxData := rx;
      if pos == 1 && MAX_DATA < rx {
        rxData := MAX_DATA;
      }
      ghost var stored := Store(Model, rx);
      buf[pos] := rxData;
      assert buf[..] == stored;
      pos := pos + 1;
      packet := buf[..];
      complete := MIN <= pos && MIN + buf[1] <= pos;
      if complete {
        pos := 0;
      }
      Model := RawAssembler(stored, pos);
    }
  }

  /** The copy loop of dispatch_ack_rej_packet: the caller's buffer takes the data bytes after the
      command word in reverse. */
  method CopyResult(packet: Packet, room: nat) returns (result: seq<Byte>)
    requires room <= MAX_DATA
    ensures result == ResultBytes(packet, room)
  {
    var recvLen := ((packet[1] as int) + 254) % 256;
    var len := if room < recvLen then room else recvLen;
    result := [];
    var i := 0;
    while i < len
      invariant 0 <= i <= len && |result| == i
      invariant forall k :: 0 <= k < i ==> result[k] == packet[HEADER + 1 + len - k]
    {
      result := result + [packet[HEADER + (2 + len - i - 1)]];
      i := i + 1;
    }
  }

  class Driver {
    const sendQueue: RingQueue<CommData>
    const recvQueue: RingQueue<Packet>
    const control: CommControl
    const receive: ReceiveBuffer
    var sendData: CommData
    var ackPacket: Packet
    var nakPacket: Packet
    var dispatchPacket: Packet
    var syncWait: bool
    ghost var h: History

    ghost function Footprint(): set<object>
    {
      {this, sendQueue, sendQueue.data, recvQueue, recvQueue.data, control, control.saved,
       receive, receive.buf}
    }

    /** The parts of the link are separate objects. */
    ghost predicate Apart() {
      && sendQueue as object != recvQueue
      && sendQueue.data as object != recvQueue.data
      && receive.buf as object != sendQueue.data && receive.buf as object != recvQueue.data
      && control.saved as object != sendQueue.data && control.saved as object != recvQueue.data
      && control.saved as object != receive.buf
      && sendQueue.data.Length == recvQueue.data.Length == QUEUE_ROOM + 1
    }

    ghost predicate Valid()
      reads Footprint()
    {
      Apart() && sendQueue.Valid() && recvQueue.Valid() && control.Valid() && receive.Valid()
    }

    /** The state that the step functions see. */
    ghost function View(): State
      reads this, sendQueue, recvQueue, control, receive
    {
      State(control.Model, sendQueue.Items, recvQueue.Items, sendData, ackPacket, nakPacket,
            dispatchPacket, receive.Model, syncWait, h)
    }

    /** initialize_psu_comm up to the start-up commands. */
    constructor ()
      ensures Valid() && View() == Initial()
      ensures fresh(Footprint())
    {
      hide RingQueue.Valid, CommControl.Valid, ReceiveBuffer.Valid;
      sendQueue := new RingQueue(QUEUE_ROOM);
      recvQueue := new RingQueue(QUEUE_ROOM);
      control := new CommControl();
      receive := new ReceiveBuffer();
      sendData := RawCommand(EmptyPacket(), 0, false);
      ackPacket, nakPacket := Create(RESPONSE_ACK, [0, 0]), Create(RESPONSE_NAK, []);
      dispatchPacket := EmptyPacket();
      syncWait := false;
      h := History([], [], [], [], 0, [], []);
      new;
      hide Create, EmptyPacket;
      assert Apart();
    }

    /** send_enqueue. */
    method SendEnqueue(d: CommData) returns (ok: bool)
      requires Valid()
      modifies this`h, sendQueue, sendQueue.data
      ensures Valid() && View() == Enqueue(old(View()), d)
      ensures ok <==> |old(View()).sendQ| < QUEUE_ROOM
    {
      hide RingQueue.Valid, CommControl.Valid, ReceiveBuffer.Valid;
      ok := sendQueue.Enqueue(d);
      if ok {
        h := h.(accepted := h.accepted + [d]);
      }
    }

    /** set_tx_pkt_sync up to the wait: one caller at a time may wait for its answer. */
    method SetTxPktSync(d: CommData) returns (ok: bool)
      requires Valid()
      modifies this, sendQueue, sendQueue.data
      ensures Valid() && View() == Step(old(View()), SubmitSync(d))
      ensures ok <==> !old(syncWait) && |old(View()).sendQ| < QUEUE_ROOM
    {
      hide RingQueue.Valid, CommControl.Valid, ReceiveBuffer.Valid, Cycle;
      if syncWait {
        return false;
      }
      ok := SendEnqueue(d);
      if ok {
        syncWait := true;
      }
    }

    /** dispatch_recv_packet, with the copying of result bytes and of the warned command. */
    method DispatchRecvPacket()
      requires Valid()
      modifies this, control, control.saved
      ensures Valid() && View() == Dispatch(old(View()))
    {
      hide RingQueue.Valid, CommControl.Valid, ReceiveBuffer.Valid;
      hide Sealed, Pop, Push, BadChecksum, ResultBytes, Command, DataWord, Unmarked, Release, Report;
      ghost var v := Classify(dispatchPacket, sendData.packet);
      ghost var c := control.Model;
      var ok := CheckCd(dispatchPacket);
      control.AnalyzeRecvPacket(ok);
      if ok {
        var command := Unmarked(Command(dispatchPacket));
        var matching := Command(sendData.packet) == DataWord(dispatchPacket);
        if command == RESPONSE_ACK {
          control.AckRej(true, matching);
          if matching {
            var result := CopyResult(dispatchPacket, sendData.resultSize);
            h := h.(results := h.results + [result]);
          }
        } else if command == RESPONSE_REJ {
          control.AckRej(false, matching);
        } else if command == RESPONSE_NAK {
          control.CountNak();
        } else if command == COMMAND_ERRWARN {
          control.EnterAck();
          ackPacket := ackPacket[6 := dispatchPacket[2]][7 := dispatchPacket[3]];
        } else {
          control.Record(RecvUnknown);
          control.Lift(UnknownReply);
        }
      }
      assert control.Model == React(c, v);
    }

    /** get_recv_packet for one byte. */
    method GetRecvPacket(rx: Byte)
      requires Valid()
      modifies this`h, control, receive, receive.buf, recvQueue, recvQueue.data
      ensures Valid() && View() == GetRecv(old(View()), rx)
    {
      hide RingQueue.Valid, CommControl.Valid, ReceiveBuffer.Valid;
      hide CheckRetry, Assemble, Completes, Store;
      if receive.pos == 0 && ENQ != rx {
        control.CheckRetryCount();
      } else {
        var complete, packet := receive.Put(rx);
        if complete {
          var ok := recvQueue.Enqueue(packet);
          h := h.(assembled := h.assembled + [packet], lost := if ok then h.lost else h.lost + 1);
        }
      }
    }

    /** The first half of set_send_packet: whether there is a packet to send; a command may have to
        be taken for it. */
    method ChoosePacket() returns (send: bool)
      requires Valid() && !control.receiving
      modifies this`syncWait, this`sendData, control, sendQueue
      ensures Valid()
      ensures var s := old(View());
              && send == !(WantsCommand(s) && s.sendQ == [])
              && View() == if !WantsCommand(s) then s else if s.sendQ == [] then Wake(s) else Take(Wake(s))
    {
      hide RingQueue.Valid, CommControl.Valid, ReceiveBuffer.Valid;
      send := true;
      if control.comm.mode.Queue? && !control.noDequeue {
        if syncWait && sendData.wait {
          syncWait := false;
        }
        var ok, d := sendQueue.Dequeue();
        if ok {
          sendData := d;
          control.TakeCommand(d);
        } else {
          send := false;
        }
      }
    }

    /** The packet in use, written back after its first byte was prepared. */
    method StorePacket(packet: Packet)
      modifies this`sendData, this`ackPacket, this`nakPacket
      ensures View() == WithCurrent(old(View()), packet)
      requires Valid()
      ensures Valid()
    {
      hide RingQueue.Valid, CommControl.Valid, ReceiveBuffer.Valid;
      match control.comm.mode {
        case Ack => ackPacket := packet;
        case Nak => nakPacket := packet;
        case Queue => sendData := sendData.(packet := packet);
      }
    }

    /** The second half of set_send_packet; `tx` is what goes into the send register. */
    method TransmitNext() returns (tx: seq<Byte>)
      requires Valid()
      modifies this`sendData, this`ackPacket, this`nakPacket, this`h, control
      ensures Valid() && View() == Transmit(old(View()))
      ensures h.tx == old(h).tx + tx
    {
      hide RingQueue.Valid, CommControl.Valid, ReceiveBuffer.Valid;
      hide Seal, Marked, WithCurrent;
      ghost var s := View();
      var packet := match control.comm.mode
        case Ack => ackPacket
        case Nak => nakPacket
        case Queue => sendData.packet;
      assert packet == Current(s);
      if control.sendPos < MIN + packet[1] {
        if control.sendPos == 0 {
          packet := SetCd(Marked(packet, control.comm.retry));
        }
        StorePacket(packet);
        tx := [packet[control.sendPos]];
        h := h.(tx := h.tx + tx);
        control.SentByte();
      } else {
        tx := [];
        h := h.(frames := h.frames + [Frame(packet)]);
        control.StartReceiving();
      }
    }

    /** set_send_packet. */
    method SetSendPacket() returns (tx: seq<Byte>)
      requires Valid()
      modifies this, control, sendQueue
      ensures Valid() && View() == SetSend(old(View()))
      ensures h.tx == old(h).tx + tx
    {
      hide RingQueue.Valid, CommControl.Valid, ReceiveBuffer.Valid;
      hide Transmit, Take, Wake;
      tx := [];
      if !control.receiving {
        var send := ChoosePacket();
        if send {
          tx := TransmitNext();
        }
      }
    }

    /** power_communication.  The receive registers hold a length and fifteen bytes; `tx` is what
        goes into the send register in this cycle. */
    method PowerCommunication(rxLength: Byte, rxData: seq<Byte>) returns (tx: seq<Byte>)
      requires Valid() && |rxData| == 15
      modifies Footprint()
      ensures Valid()
      ensures View() == Cycle(old(View()), rxData[..if rxLength > 15 then 15 else rxLength])
      ensures SetSend(old(View())).h.tx == old(View()).h.tx + tx
    {
      hide RingQueue.Valid, CommControl.Valid, ReceiveBuffer.Valid;
      hide SetSend, GetRecv, CheckRetry, Dispatch;
      tx := SetSendPacket();
      ghost var s := View();
      var len := if 15 < rxLength then 15 else rxLength;
      if 0 < len {
        var i := 0;
        while i < len
          invariant 0 <= i <= len
          invariant Valid() && View() == GetRecvAll(s, rxData[..i])
        {
          GetRecvPacket(rxData[i]);
          assert rxData[..i + 1][..i] == rxData[..i];
          i := i + 1;
        }
      } else if control.receiving {
        control.CheckRetryCount();
      }
      assert View() == Receive(s, rxData[..len]);
      DispatchWaiting();
    }

    /** The end of power_communication. */
    method DispatchWaiting()
      requires Valid()
      modifies this, control, control.saved, recvQueue
      ensures Valid() && View() == DispatchNext(old(View()))
    {
      hide RingQueue.Valid, CommControl.Valid, ReceiveBuffer.Valid;
      hide Dispatch;
      if !control.sending {
        var ok, packet := recvQueue.Dequeue();
        if ok {
          dispatchPacket := packet;
          control.StopReceiving();
          h := h.(dispatched := h.dispatched + [packet]);
          DispatchRecvPacket();
        }
      }
    }
  }
}
