/** The clients of a b-CAP server (library/src/bCAPServer/bcap_server.c): the children of a root. */
module ServerTree {
  import opened Clock
  import opened Common

  const CLIENT_MAX := 20
  const UDP_LIFELIMIT := 10000

  // ---------- the tree on values ----------

  /** A child: its peer address and when it was last served. */
  datatype Client = Client(addr: int, seen: Time)

  /** The children, youngest first, and those waiting to be freed. */
  datatype Tree = Tree(live: seq<Client>, dead: seq<Client>)

  /** What changes the tree: a TCP connection is accepted or ends, or the waiting children are
      freed; a UDP request arrives (`clock(k)` is the time read when child k is examined), is
      answered, or is a stop of the service; the server is closed. */
  datatype Step =
    | Accept(now: Time)
    | Leave(i: nat)
    | Sweep
    | Request(addr: int, clock: nat -> Time, now: Time)
    | Answer(addr: int, now: Time)
    | Stop(addr: int)
    | Close

  predicate Udp(step: Step) {
    step.Request? || step.Answer? || step.Stop? || step.Close?
  }

  /** The youngest child with this address, or the number of children. */
  function Find(live: seq<Client>, addr: int): (i: nat)
    ensures i <= |live|
    ensures i < |live| ==> live[i].addr == addr
    ensures forall k :: 0 <= k < i ==> live[k].addr != addr
  {
    if live == [] || live[0].addr == addr then 0
    else
      assert forall k :: 1 <= k < |live| ==> live[k] == live[1..][k - 1];
      Find(live[1..], addr) + 1
  }

  /** The children that are not expired. */
  function Fresh(live: seq<Client>, clock: nat -> Time): (r: seq<Client>)
    ensures |r| <= |live|
  {
    if live == [] then []
    else
      var n := |live| - 1;
      Fresh(live[..n], clock) + (if TimeDiff(live[n].seen, clock(n)) > UDP_LIFELIMIT then [] else [live[n]])
  }

  function NumChild(t: Tree): nat {
    |t.live| + |t.dead|
  }

  /** The tree after expired children have made room, if it is full. */
  function MadeRoom(t: Tree, clock: nat -> Time): Tree {
    if NumChild(t) >= CLIENT_MAX then Tree(Fresh(t.live, clock), []) else t
  }

  /** The server answers a request with E_MAX_CONNECT. */
  predicate Refused(t: Tree, addr: int, clock: nat -> Time) {
    Find(t.live, addr) == |t.live| && NumChild(MadeRoom(t, clock)) >= CLIENT_MAX
  }

  function Added(t: Tree, addr: int, now: Time): Tree {
    Tree([Client(addr, now)] + t.live, t.dead)
  }

  function Left(t: Tree, i: nat): Tree
    requires i < |t.live|
  {
    Tree(Without(t.live, i), [t.live[i]] + t.dead)
  }

  function Next(t: Tree, step: Step): Tree {
    match step
    case Accept(now) => if NumChild(t) < CLIENT_MAX then Added(t, 0, now) else t
    case Leave(i) => if i < |t.live| then Left(t, i) else t
    case Sweep => Tree(t.live, [])
    case Request(addr, clock, now) =>
      if Find(t.live, addr) < |t.live| then t
      else if Refused(t, addr, clock) then MadeRoom(t, clock)
      else Added(MadeRoom(t, clock), addr, now)
    case Answer(addr, now) =>
      var i := Find(t.live, addr);
      if i < |t.live| then Tree(t.live[i := Client(addr, now)], t.dead) else t
    case Stop(addr) =>
      var i := Find(t.live, addr);
      if i < |t.live| then Tree(Left(t, i).live, []) else t
    case Close => Tree([], [])
  }

  function Run(steps: seq<Step>): Tree {
    if steps == [] then Tree([], []) else Next(Run(steps[..|steps| - 1]), steps[|steps| - 1])
  }

  ghost predicate OnePerAddress(live: seq<Client>) {
    forall i, j :: 0 <= i < j < |live| ==> live[i].addr != live[j].addr
  }

  /** The positions of the fresh children among the live ones. */
  ghost function FreshAt(live: seq<Client>, clock: nat -> Time): (at: seq<nat>)
    ensures |at| == |Fresh(live, clock)|
    ensures forall k :: 0 <= k < |at| ==> at[k] < |live| && Fresh(live, clock)[k] == live[at[k]]
    ensures forall j, k :: 0 <= j < k < |at| ==> at[j] < at[k]
  {
    if live == [] then []
    else
      var n := |live| - 1;
      FreshAt(live[..n], clock) + (if TimeDiff(live[n].seen, clock(n)) > UDP_LIFELIMIT then [] else [n])
  }

  lemma FreshKeepsOnePerAddress(live: seq<Client>, clock: nat -> Time)
    requires OnePerAddress(live)
    ensures OnePerAddress(Fresh(live, clock))
    ensures forall c :: c in Fresh(live, clock) ==> c in live
  {
    var at := FreshAt(live, clock);
    var r := Fresh(live, clock);
    forall i, j | 0 <= i < j < |r|
      ensures r[i].addr != r[j].addr
    {
      assert r[i] == live[at[i]] && r[j] == live[at[j]];
    }
  }

  /** Over every sequence of steps there are never more than 20 children, those waiting to be freed
      included. */
  lemma {:induction false} NeverOverfull(steps: seq<Step>)
    ensures NumChild(Run(steps)) <= CLIENT_MAX
  {
    if steps != [] {
      NeverOverfull(steps[..|steps| - 1]);
    }
  }

  /** Over every UDP run at most one child serves an address, and no child is left waiting to be
      freed between two requests. */
  lemma {:induction false} OneChildPerAddress(steps: seq<Step>)
    requires forall i :: 0 <= i < |steps| ==> Udp(steps[i])
    ensures OnePerAddress(Run(steps).live) && Run(steps).dead == []
  {
    if steps != [] {
      var t, step := Run(steps[..|steps| - 1]), steps[|steps| - 1];
      OneChildPerAddress(steps[..|steps| - 1]);
      hide Fresh, Find;
      match step
      case Request(addr, clock, now) =>
        FreshKeepsOnePerAddress(t.live, clock);
        if !Refused(t, addr, clock) && Find(t.live, addr) == |t.live| {
          OneMoreAddress(MadeRoom(t, clock).live, addr, now);
        }
      case Answer(addr, now) =>
      case Stop(addr) =>
        if Find(t.live, addr) < |t.live| { OneLessAddress(t.live, Find(t.live, addr)); }
      case Close =>
    }
  }

  lemma OneMoreAddress(live: seq<Client>, addr: int, now: Time)
    requires OnePerAddress(live)
    requires forall c :: c in live ==> c.addr != addr
    ensures OnePerAddress([Client(addr, now)] + live)
  {
  }

  lemma OneLessAddress(live: seq<Client>, i: nat)
    requires OnePerAddress(live) && i < |live|
    ensures OnePerAddress(Without(live, i))
  {
  }

  /** A UDP request is refused exactly if its address is unknown, all 20 places are taken and every
      one of the 20 clients was served within the last 10 seconds, as the difference macro counts. */
  lemma {:induction false} RefusedExactly(steps: seq<Step>, addr: int, clock: nat -> Time)
    requires forall i :: 0 <= i < |steps| ==> Udp(steps[i])
    ensures var live := Run(steps).live;
            Refused(Run(steps), addr, clock)
            <==> && (forall c :: c in live ==> c.addr != addr)
                 && |live| == CLIENT_MAX
                 && (forall k :: 0 <= k < |live| ==> TimeDiff(live[k].seen, clock(k)) <= UDP_LIFELIMIT)
  {
    NeverOverfull(steps);
    OneChildPerAddress(steps);
    AllFresh(Run(steps).live, clock);
    var live := Run(steps).live;
    if Find(live, addr) < |live| {
      assert live[Find(live, addr)] in live;
    }
  }

  lemma {:induction false} AllFresh(live: seq<Client>, clock: nat -> Time)
    ensures |Fresh(live, clock)| == |live|
            <==> forall k :: 0 <= k < |live| ==> TimeDiff(live[k].seen, clock(k)) <= UDP_LIFELIMIT
  {
    hide TimeDiff;
    if live != [] {
      var n := |live| - 1;
      AllFresh(live[..n], clock);
      assert forall k :: 0 <= k < n ==> live[..n][k] == live[k];
    }
  }

  // ---------- how long the record of a client lives ----------

  predicate Known(t: Tree, addr: int) {
    Find(t.live, addr) < |t.live|
  }

  /** The child of this address. */
  function Child(t: Tree, addr: int): Client
    requires Known(t, addr)
  {
    t.live[Find(t.live, addr)]
  }

  /** The UDP step leaves the child of this address: it is not its own stop of the service and not the
      close of the server, and if it makes room for a newcomer on a full server, the child was served
      within the last 10 seconds. */
  predicate Keeps(t: Tree, step: Step, addr: int) {
    && Known(t, addr) && !step.Close? && step != Stop(addr)
    && (step.Request? && !Known(t, step.addr) && NumChild(t) >= CLIENT_MAX ==>
          TimeDiff(Child(t, addr).seen, step.clock(Find(t.live, addr))) <= UDP_LIFELIMIT)
  }

  /** When the client was served last in these steps, if it had been at `seen` before. */
  function LastServed(seen: Time, steps: seq<Step>, addr: int): Time {
    if steps == [] then seen
    else
      var last := steps[|steps| - 1];
      if last.Answer? && last.addr == addr then last.now else LastServed(seen, steps[..|steps| - 1], addr)
  }

  /** Exactly the fresh ones of the children are found again. */
  lemma FreshFound(live: seq<Client>, clock: nat -> Time, i: nat)
    requires OnePerAddress(live) && i < |live|
    ensures var r, addr := Fresh(live, clock), live[i].addr;
            && (Find(r, addr) < |r| <==> TimeDiff(live[i].seen, clock(i)) <= UDP_LIFELIMIT)
            && (Find(r, addr) < |r| ==> r[Find(r, addr)] == live[i])
  {
    hide Find, Fresh;
    var r, addr := Fresh(live, clock), live[i].addr;
    FreshKeepsOnePerAddress(live, clock);
    FreshMember(live, clock, i);
    if Find(r, addr) < |r| {
      var c := r[Find(r, addr)];
      assert c in r;
      var j :| 0 <= j < |live| && live[j] == c;
      assert i == j;
    }
    if live[i] in r { assert r[Find(r, addr)] in r; }
  }

  lemma {:induction false} FreshMember(live: seq<Client>, clock: nat -> Time, i: nat)
    requires OnePerAddress(live) && i < |live|
    ensures live[i] in Fresh(live, clock) <==> TimeDiff(live[i].seen, clock(i)) <= UDP_LIFELIMIT
  {
    var n := |live| - 1;
    FreshKeepsOnePerAddress(live[..n], clock);
    if i < n {
      FreshMember(live[..n], clock, i);
      assert live[i] != live[n];
    }
  }

  /** One step loses the child of an address exactly if it does not keep it, and changes its time exactly
      by an answer to it. */
  lemma KeptExactly(t: Tree, step: Step, addr: int)
    requires OnePerAddress(t.live) && Udp(step) && Known(t, addr)
    ensures Known(Next(t, step), addr) <==> Keeps(t, step, addr)
    ensures Known(Next(t, step), addr) ==>
              Child(Next(t, step), addr).seen == LastServed(Child(t, addr).seen, [step], addr)
  {
    hide Find, Fresh;
    var i := Find(t.live, addr);
    assert [step][..0] == [];
    match step
    case Request(a, clock, now) =>
      if !Known(t, a) {
        if NumChild(t) >= CLIENT_MAX { FreshFound(t.live, clock, i); }
        var room := MadeRoom(t, clock);
        if !Refused(t, a, clock) { FoundBelow(room.live, Client(a, now), addr); }
      }
    case Answer(a, now) => Renewed(t, a, now, addr);
    case Stop(a) =>
      if Known(t, a) { Removed(t.live, Find(t.live, a), addr); }
    case Close =>
  }

  lemma FoundBelow(live: seq<Client>, c: Client, addr: int)
    requires c.addr != addr
    ensures Find([c] + live, addr) == Find(live, addr) + 1
  {
    assert ([c] + live)[1..] == live;
  }

  lemma Renewed(t: Tree, a: int, now: Time, addr: int)
    requires Known(t, addr)
    ensures var u := Next(t, Answer(a, now));
            Known(u, addr) && Child(u, addr).seen == if a == addr then now else Child(t, addr).seen
  {
    hide Find;
    if Known(t, a) { SameAddresses(t.live, Next(t, Answer(a, now)).live, addr); }
  }

  lemma {:induction false} SameAddresses(x: seq<Client>, y: seq<Client>, addr: int)
    requires |x| == |y| && forall k :: 0 <= k < |x| ==> x[k].addr == y[k].addr
    ensures Find(x, addr) == Find(y, addr)
  {
    if x != [] && x[0].addr != addr { SameAddresses(x[1..], y[1..], addr); }
  }

  lemma Removed(live: seq<Client>, j: nat, addr: int)
    requires OnePerAddress(live) && j < |live| && Find(live, addr) < |live|
    ensures var r := Without(live, j);
            && (Find(r, addr) < |r| <==> live[j].addr != addr)
            && (Find(r, addr) < |r| ==> r[Find(r, addr)] == live[Find(live, addr)])
  {
    hide Find;
    var i, r := Find(live, addr), Without(live, j);
    OneLessAddress(live, j);
    if i != j { assert r[if i < j then i else i - 1] == live[i]; }
  }

  /** A request from an unknown address gives it a child, served now, exactly if there are fewer than 20
      children or one of them has not been served for more than 10 seconds; and nobody else gets one. */
  lemma NewcomerExactly(t: Tree, addr: int, clock: nat -> Time, now: Time)
    requires OnePerAddress(t.live) && t.dead == [] && |t.live| <= CLIENT_MAX && !Known(t, addr)
    ensures var u := Next(t, Request(addr, clock, now));
            && (Known(u, addr)
                <==> |t.live| < 20
                     || exists k :: 0 <= k < |t.live| && TimeDiff(t.live[k].seen, clock(k)) > 10000)
            && (Known(u, addr) ==> Child(u, addr) == Client(addr, now))
            && (forall other :: other != addr && Known(u, other) ==> Known(t, other))
  {
    hide Find, Fresh;
    var u, room := Next(t, Request(addr, clock, now)), MadeRoom(t, clock);
    AllFresh(t.live, clock);
    FreshKeepsOnePerAddress(t.live, clock);
    if !Refused(t, addr, clock) {
      assert u.live == [Client(addr, now)] + room.live;
      assert u.live[0].addr == addr;
      FoundFirst(u.live);
    } else {
      NotAmong(room.live, t.live, addr);
    }
    forall other | other != addr && Known(u, other)
      ensures Known(t, other)
    {
      var c := u.live[Find(u.live, other)];
      assert c in room.live && c in t.live;
      Among(t.live, c);
    }
  }

  lemma FoundFirst(live: seq<Client>)
    requires live != []
    ensures Find(live, live[0].addr) == 0
  {
  }

  lemma Among(live: seq<Client>, c: Client)
    requires c in live
    ensures Find(live, c.addr) < |live|
  {
    var k :| 0 <= k < |live| && live[k] == c;
    assert live[k].addr == c.addr;
  }

  lemma NotAmong(r: seq<Client>, live: seq<Client>, addr: int)
    requires Find(live, addr) == |live| && forall c :: c in r ==> c in live
    ensures Find(r, addr) == |r|
  {
    if Find(r, addr) < |r| {
      assert r[Find(r, addr)] in live;
      Among(live, r[Find(r, addr)]);
    }
  }

  /** A TCP connection becomes the youngest child, with the others kept, exactly if there are fewer than 20. */
  lemma AcceptedExactly(t: Tree, now: Time)
    ensures var u := Next(t, Accept(now));
            if |t.live| + |t.dead| < 20 then
              |u.live| == |t.live| + 1 && u.live[0].seen == now && u.live[1..] == t.live && u.dead == t.dead
            else u == t
  {
  }

  /** A connection that ends moves its child to those waiting to be freed, and freeing them makes room; the
      other children stay in order. */
  lemma LeftExactly(t: Tree, i: nat)
    requires i < |t.live|
    ensures var u := Next(t, Leave(i));
            && u.live == t.live[..i] + t.live[i + 1..] && u.dead == [t.live[i]] + t.dead
            && NumChild(u) == NumChild(t)
            && Next(u, Sweep).live == u.live && NumChild(Next(u, Sweep)) == |t.live| - 1
  {
  }

  /** The client has its child after so many of the steps. */
  ghost predicate KnownAfter(before: seq<Step>, steps: seq<Step>, k: nat, addr: int) {
    k <= |steps| && Known(Run(before + steps[..k]), addr)
  }

  ghost predicate KeptBy(before: seq<Step>, steps: seq<Step>, k: nat, addr: int) {
    k < |steps| && Keeps(Run(before + steps[..k]), steps[k], addr)
  }

  ghost predicate StaysKnown(before: seq<Step>, steps: seq<Step>, addr: int) {
    forall k :: 0 <= k <= |steps| ==> KnownAfter(before, steps, k, addr)
  }

  ghost predicate AllKeep(before: seq<Step>, steps: seq<Step>, addr: int) {
    forall k :: 0 <= k < |steps| ==> KeptBy(before, steps, k, addr)
  }

  /** Over every UDP run: from the moment a client has a child, it keeps that child all the time, and with
      it the record its retries are compared with, if and only if every step keeps it; and the time in it
      is that of the last answer. */
  lemma {:induction false} RecordSurvives(before: seq<Step>, steps: seq<Step>, addr: int)
    requires forall i :: 0 <= i < |before + steps| ==> Udp((before + steps)[i])
    requires Known(Run(before), addr)
    ensures StaysKnown(before, steps, addr) <==> AllKeep(before, steps, addr)
    ensures StaysKnown(before, steps, addr) ==>
              && Known(Run(before + steps), addr)
              && Child(Run(before + steps), addr).seen == LastServed(Child(Run(before), addr).seen, steps, addr)
  {
    hide Known, Keeps, Child, Next, StaysKnown, AllKeep, Udp, Run;
    if steps == [] {
      assert before + steps == before;
      NoSteps(before, addr);
    } else {
      var n := |steps| - 1;
      var rest, step := steps[..n], steps[n];
      assert forall i :: 0 <= i < |before + rest| ==> (before + rest)[i] == (before + steps)[i];
      assert (before + steps)[|before| + n] == step;
      RecordSurvives(before, rest, addr);
      OneMore(before, steps, addr);
      OneChildPerAddress(before + rest);
      if Known(Run(before + rest), addr) {
        KeptExactly(Run(before + rest), step, addr);
        assert [step][..0] == [];
      }
    }
  }

  lemma NoSteps(before: seq<Step>, addr: int)
    requires Known(Run(before), addr)
    ensures StaysKnown(before, [], addr) && AllKeep(before, [], addr)
  {
    assert before + [][..0] == before;
  }

  lemma OneMore(before: seq<Step>, steps: seq<Step>, addr: int)
    requires steps != []
    ensures var n := |steps| - 1;
            var t := Run(before + steps[..n]);
            && Run(before + steps) == Next(t, steps[n])
            && (StaysKnown(before, steps[..n], addr) ==> Known(t, addr))
            && (StaysKnown(before, steps, addr)
                <==> StaysKnown(before, steps[..n], addr) && Known(Next(t, steps[n]), addr))
            && (AllKeep(before, steps, addr)
                <==> AllKeep(before, steps[..n], addr) && Keeps(t, steps[n], addr))
  {
    hide Known, Keeps, Next, Run, KnownAfter, KeptBy;
    var n := |steps| - 1;
    RunLast(before, steps);
    forall k: nat | k <= n
      ensures KnownAfter(before, steps[..n], k, addr) <==> KnownAfter(before, steps, k, addr)
      ensures k < n ==> (KeptBy(before, steps[..n], k, addr) <==> KeptBy(before, steps, k, addr))
    {
      SameAfter(before, steps, k, addr);
    }
    AtTheEnd(before, steps, addr);
    AtTheEnd(before, steps[..n], addr);
    assert KeptBy(before, steps, n, addr) <==> Keeps(Run(before + steps[..n]), steps[n], addr) by {
      ByLast(before, steps, addr);
    }
  }

  lemma RunLast(before: seq<Step>, steps: seq<Step>)
    requires steps != []
    ensures Run(before + steps) == Next(Run(before + steps[..|steps| - 1]), steps[|steps| - 1])
  {
    assert (before + steps)[..|before + steps| - 1] == before + steps[..|steps| - 1];
  }

  lemma SameAfter(before: seq<Step>, steps: seq<Step>, k: nat, addr: int)
    requires k < |steps|
    ensures var rest := steps[..|steps| - 1];
            && (KnownAfter(before, rest, k, addr) <==> KnownAfter(before, steps, k, addr))
            && (k < |rest| ==> (KeptBy(before, rest, k, addr) <==> KeptBy(before, steps, k, addr)))
  {
    hide Known, Keeps, Run;
    assert steps[..|steps| - 1][..k] == steps[..k];
  }

  lemma AtTheEnd(before: seq<Step>, steps: seq<Step>, addr: int)
    ensures KnownAfter(before, steps, |steps|, addr) <==> Known(Run(before + steps), addr)
  {
    assert steps[..|steps|] == steps;
  }

  lemma ByLast(before: seq<Step>, steps: seq<Step>, addr: int)
    requires steps != []
    ensures var n := |steps| - 1;
            KeptBy(before, steps, n, addr) <==> Keeps(Run(before + steps[..n]), steps[n], addr)
  {
  }
}
