/** Receiving on TCP (library/src/bcap_common.c, bcap_recv): the receiver peeks into a stream whose
    bytes arrive in arbitrary chunks, throws away what cannot begin a frame, and reads one frame.
    A scanner over the whole stream says which frame that is. */
module BcapStream {
  import opened Bytes
  import opened Common
  import opened BcapCodec
  import opened BcapReader

  const ROOM := 503  // UDP_MAX_PACKET

  // ---------- the scanner ----------

  datatype Found = Nothing | Frame(bytes: seq<Byte>, rest: seq<Byte>)

  /** Skip to a header byte, read the length behind it, drop the header if the length is below 16,
      otherwise take that many bytes. */
  function Scan(d: seq<Byte>): Found {
    if d == [] then Nothing
    else if d[0] != HEADER then Scan(d[1..])
    else if |d| < PREFIX then Nothing
    else
      var n := UnLE(d[1..PREFIX]);
      if n < SIZE_MIN then Scan(d[1..])
      else if |d| < n then Nothing
      else Frame(d[..n], d[n..])
  }

  lemma {:induction false} ScanSkips(d: seq<Byte>, k: nat)
    requires k <= |d| && forall i :: 0 <= i < k ==> d[i] != HEADER
    ensures Scan(d) == Scan(d[k..])
  {
    if k > 0 {
      ScanSkips(d[1..], k - 1);
      assert d[1..][k - 1..] == d[k..];
    } else {
      assert d[0..] == d;
    }
  }

  // ---------- the socket ----------

  /** A connected socket.  `data` is everything the peer still sends, `arrived` how much of it is
      here, and `script` how much more comes in before each receive; when the script is used up
      the connection is gone.  `failed` records that some receive went wrong. */
  class Socket {
    var data: seq<Byte>
    var arrived: nat
    var script: seq<nat>
    var failed: bool

    constructor (data: seq<Byte>, script: seq<nat>)
      ensures Valid() && !failed && this.data == data && this.script == script && arrived == 0
    {
      this.data, this.arrived, this.script, this.failed := data, 0, script, false;
    }

    ghost predicate Valid()
      reads this
    {
      arrived <= |data|
    }

    /** How much is here when the next receive looks. */
    ghost function Here(): nat
      requires script != []
      reads this
    {
      Min(arrived + script[0], |data|)
    }

    /** tcp_recv: waits until something is here, then takes at most `len` bytes of it, or only looks
        at them.  A receive of no bytes reports an error and changes nothing. */
    method Recv(buf: array<Byte>, at: nat, len: nat, peek: bool) returns (ok: bool, n: nat)
      requires Valid() && at + len <= buf.Length
      modifies this, buf
      ensures Valid()
      ensures ok <==> len > 0 && old(script) != [] && old(Here()) > 0
      ensures failed == (old(failed) || (len > 0 && !ok))
      ensures !ok ==> data == old(data) && arrived >= old(arrived) && buf[..] == old(buf[..])
                      && |script| <= |old(script)| && (len == 0 ==> script == old(script) && arrived == old(arrived))
      ensures ok ==>
                && script == old(script)[1..]
                && n == Min(len, old(Here()))
                && data == (if peek then old(data) else old(data)[n..])
                && arrived == (if peek then old(Here()) else old(Here()) - n)
                && buf[..] == old(buf[..at]) + old(data)[..n] + old(buf[at + n..])
    {
      n := 0;
      if len == 0 {
        return false, 0;
      }
      if script == [] {
        failed := true;
        return false, 0;
      }
      arrived := Min(arrived + script[0], |data|);
      script := script[1..];
      if arrived == 0 {
        failed := true;
        return false, 0;
      }
      n := Min(len, arrived);
      forall i | 0 <= i < n {
        buf[at + i] := data[i];
      }
      if !peek {
        data := data[n..];
        arrived := arrived - n;
      }
      ok := true;
    }
  }

  function Min(a: nat, b: nat): nat {
    if a <= b then a else b
  }

  /** There is a frame in the stream and enough is still to come: every receive brings at least one
      more byte as long as there is one, and the connection lasts for four receives a byte. */
  ghost predicate Lasting(s: Socket, slack: nat)
    reads s
  {
    && s.Valid() && !s.failed && Scan(s.data).Frame?
    && (forall i :: 0 <= i < |s.script| ==> s.script[i] >= 1)
    && |s.script| >= 2 * (2 * |s.data| - s.arrived) + slack
  }

  lemma {:induction false} FrameIsLong(d: seq<Byte>)
    requires Scan(d).Frame?
    ensures |d| >= SIZE_MIN && |Scan(d).bytes| <= |d|
  {
    hide UnLE;
    if d[0] != HEADER || UnLE(d[1..PREFIX]) < SIZE_MIN { FrameIsLong(d[1..]); }
  }

  // ---------- the receiver ----------

  /** memchr. */
  method FindHeader(buf: array<Byte>, n: nat) returns (pos: int)
    requires n <= buf.Length
    ensures -1 <= pos < n
    ensures pos >= 0 ==> buf[pos] == HEADER
    ensures forall i :: 0 <= i < (if pos < 0 then n else pos) ==> buf[i] != HEADER
  {
    pos := 0;
    while pos < n
      invariant 0 <= pos <= n
      invariant forall i :: 0 <= i < pos ==> buf[i] != HEADER
    {
      if buf[pos] == HEADER {
        return;
      }
      pos := pos + 1;
    }
    pos := -1;
  }

  /** memcpy of the rest of the scratch buffer to its beginning. */
  method MoveDown(buf: array<Byte>, from: nat, n: nat)
    requires from + n <= buf.Length
    modifies buf
    ensures buf[..n] == old(buf[from..from + n])
  {
    forall i | 0 <= i < n {
      buf[i] := buf[from + i];
    }
  }

  /** What the scratch buffer holds is the beginning of the stream, unless a receive failed. */
  ghost predicate Looks(s: Socket, buf: array<Byte>, n: nat)
    reads s, buf
  {
    && s.Valid() && n <= ROOM && buf.Length == ROOM + 1
    && (!s.failed ==> n <= s.arrived && buf[..n] == s.data[..n])
  }

  /** One round of the inner loop up to its test: what precedes the first header byte is taken out
      of the stream and out of the scratch buffer. */
  method DropGarbage(s: Socket, buf: array<Byte>, n: nat) returns (m: nat)
    requires Looks(s, buf, n)
    modifies s, buf
    ensures Looks(s, buf, m) && m <= n && (m > 0 ==> buf[0] == HEADER)
    ensures !s.failed ==> !old(s.failed) && Scan(s.data) == Scan(old(s.data))
    ensures |s.script| <= |old(s.script)|
    ensures old(Lasting(s, if n < PREFIX then 2 else 1)) ==>
              Lasting(s, if n < PREFIX || m < n then 2 else 1)
  {
    hide Scan;
    var pos := FindHeader(buf, n);
    var drop := if pos >= 0 then pos else n;
    m := n - drop;
    ghost var data, seen := s.data, buf[drop..n];
    if !s.failed {
      GarbageSkipped(data, buf[..n], drop);
      assert buf[..n][drop..] == seen == data[drop..][..m];
    }
    assert m > 0 ==> seen[0] == HEADER;
    Discard(s, buf, drop, n, if n < PREFIX then 2 else 1);
    assert !s.failed ==> s.data == data[drop..];
    MoveDown(buf, drop, m);
    assert buf[..m] == seen;
  }

  /** Takes `drop` bytes that were seen at the front of the stream out of it. */
  method Discard(s: Socket, buf: array<Byte>, drop: nat, n: nat, ghost slack: nat)
    requires s.Valid() && drop <= n <= buf.Length
    modifies s, buf
    ensures s.Valid() && buf[drop..n] == old(buf[drop..n])
    ensures |s.script| <= |old(s.script)|
    ensures !s.failed ==> !old(s.failed)
    ensures !s.failed && drop <= old(s.arrived) ==>
              s.data == old(s.data)[drop..] && s.arrived >= old(s.arrived) - drop
    ensures old(Lasting(s, slack)) && drop <= old(s.arrived)
            && Scan(old(s.data)[drop..]) == Scan(old(s.data)) ==>
              Lasting(s, if drop > 0 then slack + 1 else slack)
  {
    hide Scan;
    ghost var before := buf[..];
    assert s.data[0..] == s.data;
    var ok, k := s.Recv(buf, 0, drop, false);
  }

  lemma GarbageSkipped(data: seq<Byte>, seen: seq<Byte>, k: nat)
    requires |seen| <= |data| && seen == data[..|seen|] && k <= |seen|
    requires forall i :: 0 <= i < k ==> seen[i] != HEADER
    ensures Scan(data) == Scan(data[k..])
  {
    assert forall i :: 0 <= i < k ==> data[i] == seen[i];
    ScanSkips(data, k);
  }

  /** The inner loop: peek until five bytes from a header on are there. */
  method FillPrefix(s: Socket, buf: array<Byte>) returns (ok: bool, n: nat)
    requires s.Valid() && buf.Length == ROOM + 1
    modifies s, buf
    ensures ok ==> Looks(s, buf, n) && n >= PREFIX && buf[0] == HEADER
    ensures ok ==> |s.script| < |old(s.script)|
    ensures !ok ==> s.failed
    ensures s.Valid()
    ensures !s.failed ==> !old(s.failed) && Scan(s.data) == Scan(old(s.data))
    ensures old(Lasting(s, 2)) ==> ok && Lasting(s, 1)
  {
    hide Scan;
    n := 0;
    assert buf[..0] == s.data[..0];
    while true
      invariant Looks(s, buf, n)
      invariant n > 0 ==> |s.script| < |old(s.script)|
      invariant |s.script| <= |old(s.script)|
      invariant !s.failed ==> !old(s.failed) && Scan(s.data) == Scan(old(s.data))
      invariant old(Lasting(s, 2)) ==> Lasting(s, if n < PREFIX then 2 else 1)
      decreases |s.script|
    {
      n := DropGarbage(s, buf, n);
      if Lasting(s, 1) { FrameIsLong(s.data); }
      if n >= PREFIX {
        return true, n;
      }
      var k;
      ok, k := s.Recv(buf, 0, ROOM, true);
      if !ok {
        return;
      }
      n := k;
    }
  }

  /** The first `done` bytes of `data` have been moved into the frame; `left` is the rest. */
  ghost predicate Moved(left: seq<Byte>, frame: seq<Byte>, data: seq<Byte>, done: nat) {
    done <= |frame| && done <= |data| && frame[..done] == data[..done] && left == data[done..]
  }

  lemma MovedMore(left: seq<Byte>, frame: seq<Byte>, frame': seq<Byte>, data: seq<Byte>, done: nat, k: nat)
    requires Moved(left, frame, data, done) && k <= |left| && done + k <= |frame|
    requires frame' == frame[..done] + left[..k] + frame[done + k..]
    ensures Moved(left[k..], frame', data, done + k)
  {
    assert data[done..][..k] == data[done..done + k];
    assert frame'[..done + k] == frame[..done] + left[..k];
  }

  /** Reading the frame itself: as much as is there at once, then until it is complete.  `recved` is
      what the length variable holds if the first receive fails. */
  method ReadFrame(s: Socket, frame: array<Byte>, recved: nat) returns (ok: bool)
    requires s.Valid() && frame.Length >= SIZE_MIN
    modifies s, frame
    ensures s.Valid()
    ensures !ok ==> s.failed
    ensures !s.failed ==> !old(s.failed) && Moved(s.data, frame[..], old(s.data), frame.Length)
    ensures old(Lasting(s, 1)) && frame.Length <= |old(s.data)| ==> ok && !s.failed
  {
    hide Moved, Scan;
    ghost var data, there := s.data, frame[..];
    ghost var lasting := Lasting(s, 1) && frame.Length <= |data|;
    var done: nat := recved;
    var got, k := s.Recv(frame, 0, frame.Length, false);
    if got {
      done := k;
      MovedMore(data, there, frame[..], data, 0, k);
    }
    hide Lasting;
    ok := ReadRest(s, frame, data, done, lasting);
  }

  /** The loop that receives until the frame is complete. */
  method ReadRest(s: Socket, frame: array<Byte>, ghost data: seq<Byte>, start: nat, ghost lasting: bool)
    returns (ok: bool)
    requires s.Valid() && (!s.failed ==> start <= frame.Length && Moved(s.data, frame[..], data, start))
    requires lasting ==>
               && !s.failed && |s.script| >= |s.data| && frame.Length <= |data|
               && forall i :: 0 <= i < |s.script| ==> s.script[i] >= 1
    modifies s, frame
    ensures s.Valid() && (!ok ==> s.failed)
    ensures !s.failed ==> !old(s.failed) && Moved(s.data, frame[..], data, frame.Length)
    ensures lasting ==> ok && !s.failed
  {
    hide Moved, Scan;
    var done: nat := start;
    while done < frame.Length
      invariant s.Valid()
      invariant !s.failed ==> !old(s.failed) && done <= frame.Length && Moved(s.data, frame[..], data, done)
      invariant lasting ==>
                  && !s.failed && |s.script| >= |s.data|
                  && forall i :: 0 <= i < |s.script| ==> s.script[i] >= 1
      decreases |s.script|, s.failed
    {
      ghost var left, before := s.data, frame[..];
      if !s.failed { MovedBounds(left, before, data, done); }
      var k;
      ok, k := s.Recv(frame, done, frame.Length - done, false);
      if !ok {
        return;
      }
      if !s.failed {
        MovedMore(left, before, frame[..], data, done, k);
      }
      done := done + k;
    }
    ok := true;
  }

  lemma MovedBounds(left: seq<Byte>, frame: seq<Byte>, data: seq<Byte>, done: nat)
    requires Moved(left, frame, data, done)
    ensures done <= |frame| && done <= |data| && |left| == |data| - done
  {
  }

  /** bcap_recv on TCP up to decoding.  However the stream is cut into chunks, as long as no receive
      fails, the frame is the one the scanner finds and exactly what the scanner consumes has
      left the stream. */
  method ReceiveFrame(s: Socket) returns (ok: bool, frame: seq<Byte>)
    requires s.Valid()
    modifies s
    ensures s.Valid()
    ensures !ok ==> s.failed
    ensures !s.failed ==> Scan(old(s.data)) == Frame(frame, s.data)
    ensures old(Lasting(s, 2)) ==> ok && !s.failed
  {
    hide UnLE;
    frame := [];
    var buf := new Byte[ROOM + 1](i => 0);
    while true
      invariant s.Valid() && fresh(buf) && buf.Length == ROOM + 1
      invariant !s.failed ==> !old(s.failed) && Scan(s.data) == Scan(old(s.data))
      invariant old(Lasting(s, 2)) ==> Lasting(s, 2)
      decreases |s.script|
    {
      var n;
      ok, n := FillPrefix(s, buf);
      if !ok {
        return;
      }
      assert !s.failed ==> s.data[1..PREFIX] == buf[1..PREFIX] && s.data[0] == HEADER by {
        assert buf[1..PREFIX] == buf[..n][1..PREFIX];
      }
      var len := GetLE(buf[..], 1, 4);
      assert buf[..][1..PREFIX] == buf[1..PREFIX];
      if len < SIZE_MIN {
        var got, k := s.Recv(buf, 0, 1, false);
        continue;
      }
      var body := new Byte[len];
      ok := ReadFrame(s, body, n);
      frame := body[..];
      return;
    }
  }

  /** bcap_recv on TCP: one frame is taken off the stream and decoded. */
  method Receive(s: Socket, room: nat) returns (ok: bool, r: Result<Packet, Error>)
    requires s.Valid()
    modifies s
    ensures s.Valid()
    ensures !ok ==> s.failed
    ensures !s.failed ==>
              && Scan(old(s.data)).Frame?
              && s.data == Scan(old(s.data)).rest
              && r == DecPacket(Scan(old(s.data)).bytes, room)
    ensures old(Lasting(s, 2)) ==> ok && !s.failed
  {
    hide Scan, DecPacket;
    var frame;
    ok, frame := ReceiveFrame(s);
    r := BytAry2Packet(frame, room);
  }

  // ---------- streams of frames ----------

  /** The scanner takes the frames of a stream one by one, whatever follows them. */
  lemma ScanTakesFrame(frame: seq<Byte>, rest: seq<Byte>)
    requires SIZE_MIN <= |frame| && frame[0] == HEADER && UnLE(frame[1..PREFIX]) == |frame|
    ensures Scan(frame + rest) == Frame(frame, rest)
  {
    hide UnLE;
    assert (frame + rest)[1..PREFIX] == frame[1..PREFIX];
  }

  /** Garbage without a header byte in front of a frame is skipped. */
  lemma ScanSkipsGarbage(garbage: seq<Byte>, frame: seq<Byte>, rest: seq<Byte>)
    requires HEADER !in garbage
    requires SIZE_MIN <= |frame| && frame[0] == HEADER && UnLE(frame[1..PREFIX]) == |frame|
    ensures Scan(garbage + frame + rest) == Frame(frame, rest)
  {
    hide UnLE, Scan;
    var d := garbage + frame + rest;
    assert forall i :: 0 <= i < |garbage| ==> d[i] == garbage[i];
    ScanSkips(d, |garbage|);
    assert d[|garbage|..] == frame + rest;
    ScanTakesFrame(frame, rest);
  }

  /** A header byte that is not one, because the length behind it is below 16, costs nothing but itself: a
      frame that begins in what would have been its length is found. */
  lemma ScanSkipsFalseHeader(garbage: seq<Byte>, frame: seq<Byte>, rest: seq<Byte>)
    requires SIZE_MIN <= |frame| && frame[0] == HEADER && UnLE(frame[1..PREFIX]) == |frame|
    requires HEADER !in garbage && UnLE((garbage + frame + rest)[..PREFIX - 1]) < SIZE_MIN
    ensures Scan([HEADER] + garbage + frame + rest) == Frame(frame, rest)
  {
    hide UnLE;
    var d := [HEADER] + garbage + frame + rest;
    assert d[1..] == garbage + frame + rest && d[1..PREFIX] == d[1..][..PREFIX - 1];
    ScanSkipsGarbage(garbage, frame, rest);
  }

  /** A packet that was sent behind garbage is received: the scanner finds its frame and decoding
      gives the packet back, up to array lower bounds and null strings. */
  lemma SentIsScanned(p: Packet, garbage: seq<Byte>, rest: seq<Byte>, room: nat)
    requires GoodPacket(p) && |p.args| <= room && PacketSize(p) < 0x1_0000_0000
    requires HEADER !in garbage
    ensures var f := Scan(garbage + FrameOf(p, PacketSize(p)) + rest);
            && f.Frame? && f.rest == rest
            && DecPacket(f.bytes, room) == Ok(p.(args := NormAll(p.args)))
  {
    hide Scan, UnLE, LE, Head, EncItems, GoodPacket, DecPacket, NormAll;
    var frame := FrameOf(p, PacketSize(p));
    assert frame[..POS_ARGS] == Head(p, PacketSize(p));
    HeadRoundTrip(frame, p, PacketSize(p));
    ScanSkipsGarbage(garbage, frame, rest);
    FrameRoundTrip(p, PacketSize(p), room);
  }
}
