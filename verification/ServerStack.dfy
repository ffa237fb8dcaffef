/** The objects a client has created on a connection (library/src/bCAPServer/bcap_server.c). */
module ServerStack {
  import opened Common

  // They are on a doubly linked stack that is emptied when the session ends.

  const OBJECT_MAX := 1000

  // ---------- function ids (library/include/bcap_funcid.h, bCAPServer/bcap_mapid.h) ----------

  const SERVICE_START := 1
  const SERVICE_STOP := 2
  const CONTROLLER_CONNECT := 3
  const CONTROLLER_DISCONNECT := 4
  const CONTROLLER_GETEXTENSION := 5
  const CONTROLLER_GETFILE := 6
  const CONTROLLER_GETROBOT := 7
  const CONTROLLER_GETTASK := 8
  const CONTROLLER_GETVARIABLE := 9
  const CONTROLLER_GETCOMMAND := 10
  const CONTROLLER_GETMESSAGE := 18
  const EXTENSION_GETVARIABLE := 26
  const EXTENSION_RELEASE := 36
  const FILE_GETFILE := 37
  const FILE_GETVARIABLE := 38
  const FILE_RELEASE := 61
  const ROBOT_GETVARIABLE := 62
  const ROBOT_RELEASE := 84
  const TASK_GETVARIABLE := 85
  const TASK_RELEASE := 99
  const VARIABLE_RELEASE := 111
  const COMMAND_RELEASE := 127
  const MESSAGE_RELEASE := 137

  /** relation_id of m_map_id: for a function that creates an object the id of the function that
      releases it, -1 for those, 0 for all others. */
  function RelationId(id: nat): (r: int) {
    if id == SERVICE_START then SERVICE_STOP
    else if id == CONTROLLER_CONNECT then CONTROLLER_DISCONNECT
    else if id == CONTROLLER_GETEXTENSION then EXTENSION_RELEASE
    else if id == CONTROLLER_GETFILE || id == FILE_GETFILE then FILE_RELEASE
    else if id == CONTROLLER_GETROBOT then ROBOT_RELEASE
    else if id == CONTROLLER_GETTASK then TASK_RELEASE
    else if id == CONTROLLER_GETVARIABLE || id == EXTENSION_GETVARIABLE || id == FILE_GETVARIABLE
            || id == ROBOT_GETVARIABLE || id == TASK_GETVARIABLE then VARIABLE_RELEASE
    else if id == CONTROLLER_GETCOMMAND then COMMAND_RELEASE
    else if id == CONTROLLER_GETMESSAGE then MESSAGE_RELEASE
    else if id == SERVICE_STOP || id == CONTROLLER_DISCONNECT || id == EXTENSION_RELEASE
            || id == FILE_RELEASE || id == ROBOT_RELEASE || id == TASK_RELEASE
            || id == VARIABLE_RELEASE || id == COMMAND_RELEASE || id == MESSAGE_RELEASE then -1
    else 0
  }

  /** The ids that are refused before they run when the stack is full. */
  const ADMISSION: set<nat> := {
    SERVICE_START, CONTROLLER_CONNECT, CONTROLLER_GETEXTENSION, CONTROLLER_GETFILE, FILE_GETFILE,
    CONTROLLER_GETROBOT, CONTROLLER_GETTASK, CONTROLLER_GETVARIABLE, EXTENSION_GETVARIABLE,
    FILE_GETVARIABLE, ROBOT_GETVARIABLE, TASK_GETVARIABLE, CONTROLLER_GETCOMMAND,
    CONTROLLER_GETMESSAGE }

  /** The admission check covers exactly the functions that push. */
  lemma AdmissionCoversPushes(id: nat)
    ensures id in ADMISSION <==> RelationId(id) > 0
  {
  }

  // ---------- sessions on values ----------

  /** A tracked object: the function that releases it, and its handle. */
  datatype Obj = Obj(id: int, handle: int)

  /** What becomes of a request that is not refused for want of room: it is not run, because the server
      is busy, answers from its record or finds a start option out of range; its callback does not return
      S_OK; it does; or it does, but the receive thread has stopped waiting for it, or has not waited at all,
      which is so with start options that cannot be read. */
  datatype Outcome = NotRun | Failed | Done | DoneLate

  /** A request: its function, what becomes of it, the handle it returns and the handle it was given. */
  datatype Op = Op(id: nat, outcome: Outcome, returned: int, given: int)

  /** The stack, latest object first, what was put on it and what was taken off it so far; and what the
      callbacks have really made and freed. */
  datatype Session = Session(
    stack: seq<Obj>, created: seq<Obj>, released: seq<Obj>, made: seq<Obj>, freed: seq<Obj>)

  const EMPTY := Session([], [], [], [], [])

  /** The place of the latest tracked object with this id and handle, or -1. */
  function Search(stack: seq<Obj>, o: Obj): (i: int)
    ensures -1 <= i < |stack|
    ensures i >= 0 ==> stack[i] == o && o !in stack[..i]
    ensures i == -1 ==> o !in stack
  {
    if stack == [] then -1
    else if stack[0] == o then 0
    else
      var i := Search(stack[1..], o);
      assert forall k :: 1 <= k < |stack| ==> stack[k] == stack[1..][k - 1];
      if i < 0 then -1 else i + 1
  }

  /** The object a request creates; a service has no handle. */
  function Created(op: Op): Obj {
    Obj(RelationId(op.id), if op.id == SERVICE_START then 0 else op.returned)
  }

  /** The object a request releases. */
  function Target(op: Op): Obj {
    Obj(op.id, if op.id == SERVICE_STOP then 0 else op.given)
  }

  predicate Refused(s: Session, op: Op) {
    op.id in ADMISSION && |s.stack| >= OBJECT_MAX
  }

  /** The callback of the request runs and returns S_OK. */
  predicate Succeeds(s: Session, op: Op) {
    !Refused(s, op) && (op.outcome.Done? || op.outcome.DoneLate?)
  }

  /** What the callback does. */
  function Happen(s: Session, op: Op): Session {
    if !Succeeds(s, op) then s
    else if RelationId(op.id) > 0 then s.(made := s.made + [Created(op)])
    else if RelationId(op.id) < 0 then s.(freed := s.freed + [Target(op)])
    else s
  }

  /** What the receive thread books of it. */
  function Book(s: Session, op: Op): Session {
    if Refused(s, op) || !op.outcome.Done? then s
    else if RelationId(op.id) > 0 then
      s.(stack := [Created(op)] + s.stack, created := s.created + [Created(op)])
    else if RelationId(op.id) < 0 then
      var i := Search(s.stack, Target(op));
      if i < 0 then s
      else s.(stack := Without(s.stack, i), released := s.released + [s.stack[i]])
    else s
  }

  lemma HappenKeepsStack(s: Session, op: Op)
    ensures Happen(s, op).stack == s.stack
    ensures Happen(s, op).created == s.created && Happen(s, op).released == s.released
  {
  }

  function Next(s: Session, op: Op): Session {
    Book(Happen(s, op), op)
  }

  function Run(ops: seq<Op>): Session {
    if ops == [] then EMPTY else Next(Run(ops[..|ops| - 1]), ops[|ops| - 1])
  }

  lemma WithoutCounts<T>(s: seq<T>, i: nat)
    requires i < |s|
    ensures multiset(s) == multiset(Without(s, i)) + multiset{s[i]}
  {
    assert s == s[..i] + ([s[i]] + s[i + 1..]);
  }

  lemma WithoutKeeps<T>(s: seq<T>, i: nat)
    requires i < |s|
    ensures forall x :: x in Without(s, i) ==> x in s
  {
  }

  /** The books balance: what was put on the stack is what was taken off and what is still there,
      object by object, and there is room for whatever is admitted. */
  lemma NextBalances(s: Session, op: Op)
    requires multiset(s.created) == multiset(s.released) + multiset(s.stack) && |s.stack| <= OBJECT_MAX
    ensures var t := Book(s, op);
            multiset(t.created) == multiset(t.released) + multiset(t.stack) && |t.stack| <= OBJECT_MAX
  {
    AdmissionCoversPushes(op.id);
    if !Refused(s, op) && op.outcome.Done? && RelationId(op.id) < 0 {
      var i := Search(s.stack, Target(op));
      if i >= 0 { WithoutCounts(s.stack, i); }
    }
  }

  /** Over any session: every object put on the stack was taken off or is still there, exactly as often
      as it was put there; the stack holds at most 1000 objects; and emptying it takes off each
      remaining one once, so that then everything put there has been taken off. */
  lemma {:induction false} SessionBalances(ops: seq<Op>)
    ensures var s := Run(ops);
            && multiset(s.created) == multiset(s.released) + multiset(s.stack)
            && |s.created| == |s.released| + |s.stack|
            && |s.stack| <= OBJECT_MAX
            && multiset(s.created) == multiset(s.released + s.stack)
  {
    if ops != [] {
      hide Book;
      SessionBalances(ops[..|ops| - 1]);
      NextBalances(Happen(Run(ops[..|ops| - 1]), ops[|ops| - 1]), ops[|ops| - 1]);
    }
    var s := Run(ops);
    assert |multiset(s.created)| == |multiset(s.released)| + |multiset(s.stack)|;
  }

  /** The numbers of a function that creates objects and of the one that releases them
      (library/include/bCAPServer/bcap_mapid.h). */
  predicate Partners(create: nat, release: nat) {
    || (create == 1 && release == 2) || (create == 3 && release == 4) || (create == 5 && release == 36)
    || ((create == 6 || create == 37) && release == 61) || (create == 7 && release == 84)
    || (create == 8 && release == 99)
    || ((create == 9 || create == 26 || create == 38 || create == 62 || create == 85) && release == 111)
    || (create == 10 && release == 127) || (create == 18 && release == 137)
  }

  /** The object that such a function makes; a service has no handle. */
  function MadeBy(create: nat, release: nat, handle: int): Obj {
    Obj(release, if create == 1 then 0 else handle)
  }

  /** Creating an object that is not tracked yet puts it on top, and releasing it with the partner of the
      function that created it leaves the stack as it was. */
  lemma CreateAndRelease(s: Session, create: nat, release: nat, handle: int, given: int, returned: int)
    requires Partners(create, release) && |s.stack| < OBJECT_MAX
    requires MadeBy(create, release, handle) !in s.stack
    ensures var t := Next(s, Op(create, Done, handle, given));
            && t.stack == [MadeBy(create, release, handle)] + s.stack
            && t.made == s.made + [MadeBy(create, release, handle)]
            && Next(t, Op(release, Done, returned, handle)).stack == s.stack
            && Next(t, Op(release, Done, returned, handle)).freed == t.freed + [MadeBy(create, release, handle)]
  {
    PartnersRelated(create, release);
    hide RelationId, Partners;
    var t := Next(s, Op(create, Done, handle, given));
    assert t.stack[0] == MadeBy(create, release, handle);
    assert Without(t.stack, 0) == s.stack;
  }

  lemma PartnersRelated(create: nat, release: nat)
    requires Partners(create, release)
    ensures RelationId(create) == release && RelationId(release) == -1 && release !in ADMISSION
    ensures create != release && create != 2 && (create == 1 <==> release == 2)
  {
  }

  /** No other request takes that object off: not with another function, another handle, or another outcome
      than a success in time. */
  lemma OthersLeave(s: Session, o: Obj, op: Op)
    requires o in s.stack
    requires op.id != o.id || (op.given != o.handle && op.id != 2) || !op.outcome.Done?
    ensures o in Next(s, op).stack
  {
    var i := Search(s.stack, Target(op));
    if RelationId(op.id) < 0 && i >= 0 && op.outcome.Done? && !Refused(s, op) {
      var k :| 0 <= k < |s.stack| && s.stack[k] == o;
      assert k != i;
      assert Without(s.stack, i)[if k < i then k else k - 1] == o;
    }
  }

  /** Only those functions move anything, one object a request, and none if there is no success in time. */
  lemma OnlyPartnersMove(s: Session, op: Op)
    ensures (forall other: nat :: !Partners(op.id, other)) ==> |Next(s, op).stack| <= |s.stack|
    ensures (forall other: nat :: !Partners(op.id, other) && !Partners(other, op.id)) ==> Next(s, op) == s
    ensures !op.outcome.Done? ==> Next(s, op).stack == s.stack
  {
    assert RelationId(op.id) > 0 ==> Partners(op.id, RelationId(op.id));
    if RelationId(op.id) < 0 {
      var c := PartnerOf(op.id);
    }
  }

  lemma PartnerOf(id: nat) returns (c: nat)
    requires RelationId(id) < 0
    ensures Partners(c, id)
  {
    c := if id == 2 then 1 else if id == 4 then 3 else if id == 36 then 5 else if id == 61 then 6
      else if id == 84 then 7 else if id == 99 then 8 else if id == 111 then 9 else if id == 127 then 10 else 18;
  }

  /** For each object on the stack the number of objects created before it. */
  ghost function Births(ops: seq<Op>): seq<nat> {
    if ops == [] then []
    else
      var before, op, s := Births(ops[..|ops| - 1]), ops[|ops| - 1], Run(ops[..|ops| - 1]);
      if Refused(s, op) || !op.outcome.Done? || RelationId(op.id) == 0 then before
      else if RelationId(op.id) > 0 then [|s.created|] + before
      else
        var i := Search(s.stack, Target(op));
        if 0 <= i < |before| then Without(before, i) else before
  }

  ghost predicate Descending(births: seq<nat>, stack: seq<Obj>, created: seq<Obj>) {
    && |births| == |stack|
    && (forall i :: 0 <= i < |births| ==> births[i] < |created| && created[births[i]] == stack[i])
    && (forall i, j :: 0 <= i < j < |births| ==> births[j] < births[i])
  }

  lemma DescendingPop(births: seq<nat>, stack: seq<Obj>, created: seq<Obj>, i: nat)
    requires Descending(births, stack, created) && i < |stack|
    ensures Descending(Without(births, i), Without(stack, i), created)
  {
    var b, t := Without(births, i), Without(stack, i);
    assert forall k :: 0 <= k < |t| ==> t[k] == stack[if k < i then k else k + 1];
    assert forall k :: 0 <= k < |b| ==> b[k] == births[if k < i then k else k + 1];
  }

  /** Whatever requests have picked out, the stack holds its objects from the latest creation to the
      earliest, so emptying it from the top releases last created first. */
  lemma {:induction false} LastInFirstOut(ops: seq<Op>)
    ensures Descending(Births(ops), Run(ops).stack, Run(ops).created)
  {
    if ops != [] {
      hide Descending, Search, RelationId, Without;
      LastInFirstOut(ops[..|ops| - 1]);
      var before, op, s := Births(ops[..|ops| - 1]), ops[|ops| - 1], Run(ops[..|ops| - 1]);
      if Refused(s, op) || !op.outcome.Done? || RelationId(op.id) == 0 {
      } else if RelationId(op.id) > 0 {
      } else if Search(s.stack, Target(op)) >= 0 {
        DescendingPop(before, s.stack, s.created, Search(s.stack, Target(op)));
      }
    }
  }

  // ---------- the linked stack ----------

  /** VEC_OBJECT: `next` points to the object created later, `prev` to the one created earlier. */
  class VecObject {
    const id: int
    const handle: int
    var prev: VecObject?
    var next: VecObject?

    constructor (id: int, handle: int)
      ensures this.id == id && this.handle == handle && prev == null && next == null
    {
      this.id, this.handle, this.prev, this.next := id, handle, null, null;
    }
  }

  /** The part of CONN_BCAP_SERVER that keeps the objects, and the operations on it. */
  class ObjectStack {
    var stack: VecObject?
    var numObject: nat
    ghost var Nodes: seq<VecObject>  // from the latest to the earliest

    ghost predicate Valid()
      reads this, Nodes
    {
      && numObject == |Nodes|
      && stack == (if Nodes == [] then null else Nodes[0])
      && Distinct(Nodes) && Linked(Nodes)
    }

    /** The tracked objects, latest first. */
    ghost function Contents(): (s: seq<Obj>)
      reads this
    {
      Tracked(Nodes)
    }

    constructor ()
      ensures Valid() && Nodes == []
    {
      stack, numObject, Nodes := null, 0, [];
    }

    /** push_vector. */
    method Push(obj: VecObject) returns (ok: bool)
      requires Valid() && obj !in Nodes && obj.next == null
      modifies this, obj, Nodes
      ensures Valid()
      ensures ok <==> |old(Nodes)| < OBJECT_MAX
      ensures Nodes == if ok then [obj] + old(Nodes) else old(Nodes)
    {
      if numObject >= OBJECT_MAX {
        return false;
      }
      var prev := stack;
      stack := obj;
      obj.prev := prev;
      if prev != null {
        assert prev == Nodes[0];
        prev.next := obj;
      }
      numObject := numObject + 1;
      RelinkedPush(obj, Nodes);
      Nodes := [obj] + Nodes;
      return true;
    }

    /** pop_vector: the object `index` places below the top is taken out and its neighbours are
        joined. */
    method Pop(index: int) returns (ok: bool, obj: VecObject?)
      requires Valid()
      modifies this, Nodes
      ensures Valid()
      ensures ok <==> 0 <= index < |old(Nodes)|
      ensures ok ==> obj == old(Nodes)[index] && Nodes == Without(old(Nodes), index)
      ensures !ok ==> obj == null && Nodes == old(Nodes)
    {
      var cur := stack;
      var i := 0;
      while i < numObject && cur != null
        invariant 0 <= i <= numObject
        invariant cur == (if i < |Nodes| then Nodes[i] else null)
        invariant index < 0 || i <= index
      {
        if i == index {
          Unlink(cur, i);
          return true, cur;
        }
        assert cur.prev == Earlier(Nodes, i);
        cur := cur.prev;
        i := i + 1;
      }
      return false, null;
    }

    /** The body of pop_vector when the object is found. */
    method Unlink(cur: VecObject, ghost i: nat)
      requires Valid() && i < |Nodes| && cur == Nodes[i]
      modifies this, Nodes
      ensures Valid() && Nodes == Without(old(Nodes), i)
    {
      ghost var nodes := Nodes;
      Apart(nodes, i);
      hide Without, Distinct;
      var next := cur.next;
      cur.next := null;
      var prev := cur.prev;
      cur.prev := null;
      assert next == Later(nodes, i) && prev == Earlier(nodes, i);
      if next == null {
        stack := prev;
      } else {
        next.prev := prev;
      }
      if prev != null {
        prev.next := next;
      }
      numObject := numObject - 1;
      Nodes := Without(Nodes, i);
      RelinkedAround(nodes, i);
    }

    /** search_vector. */
    method SearchVector(id: int, handle: int) returns (index: int)
      requires Valid()
      ensures index == Search(Contents(), Obj(id, handle))
    {
      var cur := stack;
      var i := 0;
      assert Contents()[0..] == Contents();
      while i < numObject && cur != null
        invariant 0 <= i <= numObject
        invariant cur == (if i < |Nodes| then Nodes[i] else null)
        invariant var rest := Search(Contents()[i..], Obj(id, handle));
                  Search(Contents(), Obj(id, handle)) == if rest < 0 then -1 else rest + i
      {
        assert Contents()[i..][1..] == Contents()[i + 1..];
        assert Contents()[i..][0] == Obj(cur.id, cur.handle);
        if cur.id == id && cur.handle == handle {
          return i;
        }
        assert cur.prev == Earlier(Nodes, i);
        cur := cur.prev;
        i := i + 1;
      }
      return -1;
    }

    /** receive_execute after a creation. */
    method Track(id: int, handle: int)
      requires Valid() && |Nodes| < OBJECT_MAX
      modifies this, Nodes
      ensures Valid()
      ensures Contents() == [Obj(id, handle)] + old(Contents())
      ensures forall n :: n in Nodes && n !in old(Nodes) ==> fresh(n)
    {
      hide Valid, Tracked;
      var obj := new VecObject(id, handle);
      var pushed := Push(obj);
    }

    /** receive_execute after a release. */
    method Untrack(id: int, handle: int)
      requires Valid()
      modifies this, Nodes
      ensures Valid()
      ensures var i := Search(old(Contents()), Obj(id, handle));
              Contents() == if i < 0 then old(Contents()) else Without(old(Contents()), i)
      ensures forall n :: n in Nodes ==> n in old(Nodes)
    {
      hide Valid, Search, Tracked, Without;
      var index := SearchVector(id, handle);
      if index >= 0 {
        var popped, obj := Pop(index);
        WithoutKeeps(old(Nodes), index);
      }
    }

    /** The bookkeeping of receive_execute around one request. */
    method Execute(op: Op)
      requires Valid()
      modifies this, Nodes
      ensures Valid()
      ensures Contents() == Next(Session(old(Contents()), [], [], [], []), op).stack
      ensures forall n :: n in Nodes && n !in old(Nodes) ==> fresh(n)
    {
      assert numObject == |Nodes|;
      hide Valid, Search, RelationId, Tracked, Without, Succeeds, Happen;
      AdmissionCoversPushes(op.id);
      HappenKeepsStack(Session(Contents(), [], [], [], []), op);
      if op.id in ADMISSION && numObject >= OBJECT_MAX {
        return;
      }
      if op.outcome.Done? {
        var relation := RelationId(op.id);
        if relation > 0 {
          Track(relation, if op.id == SERVICE_START then 0 else op.returned);
        } else if relation < 0 {
          Untrack(op.id, if op.id == SERVICE_STOP then 0 else op.given);
        }
      }
    }

    /** The end of recv_thread: what is left is taken from the top and released, if its release
        function is installed. */
    method ReleaseAll(installed: set<int>) returns (calls: seq<Obj>)
      requires Valid()
      modifies this, Nodes
      ensures Valid() && Nodes == [] && Contents() == []
      ensures calls == Calls(old(Contents()), installed)
    {
      hide Valid, Calls, Tracked;
      CallsNone(installed);
      calls := [];
      ghost var all := Nodes;
      while true
        invariant Valid()
        invariant |Nodes| <= |all| && Nodes == all[|all| - |Nodes|..]
        invariant Calls(Tracked(all), installed) == calls + Calls(Contents(), installed)
        decreases |Nodes|
      {
        ghost var before := Nodes;
        ghost var made := calls;
        assert forall n :: n in Nodes ==> n in old(Nodes);
        var popped, obj := Pop(0);
        if !popped {
          break;
        }
        if obj.id in installed {
          calls := calls + [Obj(obj.id, obj.handle)];
        }
        CallsStep(before, installed);
        assert calls + Calls(Contents(), installed) == made + Calls(Tracked(before), installed);
      }
    }
  }

  ghost predicate Distinct(nodes: seq<VecObject>) {
    forall i, j :: 0 <= i < j < |nodes| ==> nodes[i] != nodes[j]
  }

  /** A node and its neighbours are met once each. */
  lemma Apart(nodes: seq<VecObject>, i: nat)
    requires Distinct(nodes) && i < |nodes|
    ensures forall k :: 0 <= k < |nodes| && k != i ==> nodes[k] != nodes[i]
    ensures i > 0 ==> forall k :: 0 <= k < |nodes| && k != i - 1 ==> nodes[k] != nodes[i - 1]
    ensures i + 1 < |nodes| ==> forall k :: 0 <= k < |nodes| && k != i + 1 ==> nodes[k] != nodes[i + 1]
  {
  }

  /** Every node points to its neighbours, and the ends point to nothing. */
  ghost predicate Linked(nodes: seq<VecObject>)
    reads nodes
  {
    && (forall i {:trigger Later(nodes, i)} :: 0 <= i < |nodes| ==> nodes[i].next == Later(nodes, i))
    && (forall i {:trigger Earlier(nodes, i)} :: 0 <= i < |nodes| ==> nodes[i].prev == Earlier(nodes, i))
  }

  /** Joining the two neighbours of a node links all the others. */
  lemma RelinkedAround(nodes: seq<VecObject>, i: nat)
    requires i < |nodes|
    requires forall k {:trigger Later(nodes, k)} :: 0 <= k < |nodes| && k != i ==>
               nodes[k].next == (if k == i + 1 then Later(nodes, i) else Later(nodes, k))
    requires forall k {:trigger Earlier(nodes, k)} :: 0 <= k < |nodes| && k != i ==>
               nodes[k].prev == (if k + 1 == i then Earlier(nodes, i) else Earlier(nodes, k))
    ensures Linked(Without(nodes, i))
  {
    var rest := Without(nodes, i);
    forall k | 0 <= k < |rest|
      ensures rest[k].next == Later(rest, k) && rest[k].prev == Earlier(rest, k)
    {
      var j := if k < i then k else k + 1;
      var later, earlier := Later(nodes, j), Earlier(nodes, j);
      assert rest[k] == nodes[j];
    }
  }

  lemma RelinkedPush(obj: VecObject, nodes: seq<VecObject>)
    requires obj.next == null && obj.prev == if nodes == [] then null else nodes[0]
    requires forall k {:trigger Later(nodes, k)} :: 0 <= k < |nodes| ==>
               nodes[k].next == (if k == 0 then obj else Later(nodes, k))
    requires forall k {:trigger Earlier(nodes, k)} :: 0 <= k < |nodes| ==> nodes[k].prev == Earlier(nodes, k)
    ensures Linked([obj] + nodes)
  {
    var all := [obj] + nodes;
    forall k | 0 <= k < |all|
      ensures all[k].next == Later(all, k) && all[k].prev == Earlier(all, k)
    {
      if k > 0 {
        var later, earlier := Later(nodes, k - 1), Earlier(nodes, k - 1);
        assert all[k] == nodes[k - 1];
      }
    }
  }

  ghost function Later(nodes: seq<VecObject>, i: nat): VecObject?
    requires i < |nodes|
  {
    if i == 0 then null else nodes[i - 1]
  }

  ghost function Earlier(nodes: seq<VecObject>, i: nat): VecObject?
    requires i < |nodes|
  {
    if i + 1 < |nodes| then nodes[i + 1] else null
  }

  /** What the nodes hold. */
  ghost function Tracked(nodes: seq<VecObject>): (s: seq<Obj>)
    ensures |s| == |nodes|
    ensures forall i :: 0 <= i < |nodes| ==> s[i] == Obj(nodes[i].id, nodes[i].handle)
  {
    seq(|nodes|, i requires 0 <= i < |nodes| => Obj(nodes[i].id, nodes[i].handle))
  }

  /** The release calls made for a stack that is emptied from the top. */
  function Calls(stack: seq<Obj>, installed: set<int>): seq<Obj> {
    if stack == [] then []
    else (if stack[0].id in installed then [stack[0]] else []) + Calls(stack[1..], installed)
  }

  lemma CallsNone(installed: set<int>)
    ensures Tracked([]) == [] && Calls([], installed) == []
  {
  }

  lemma CallsStep(nodes: seq<VecObject>, installed: set<int>)
    requires nodes != []
    ensures var o := Obj(nodes[0].id, nodes[0].handle);
            Calls(Tracked(nodes), installed)
            == (if o.id in installed then [o] else []) + Calls(Tracked(Without(nodes, 0)), installed)
  {
    assert Tracked(nodes)[1..] == Tracked(Without(nodes, 0));
  }

  // ---------- what is really made and freed ----------

  /** The objects that stay on the stack for want of a release function. */
  function Skipped(stack: seq<Obj>, installed: set<int>): seq<Obj> {
    if stack == [] then []
    else (if stack[0].id in installed then [] else [stack[0]]) + Skipped(stack[1..], installed)
  }

  lemma {:induction false} CalledOrSkipped(stack: seq<Obj>, installed: set<int>)
    ensures multiset(stack) == multiset(Calls(stack, installed)) + multiset(Skipped(stack, installed))
  {
    if stack != [] {
      CalledOrSkipped(stack[1..], installed);
      assert stack == [stack[0]] + stack[1..];
    }
  }

  function When(p: bool, x: Obj): seq<Obj> {
    if p then [x] else []
  }

  /** The objects made by requests that nobody waited for any more. */
  function Lost(ops: seq<Op>): seq<Obj> {
    if ops == [] then []
    else
      var op, s := ops[|ops| - 1], Run(ops[..|ops| - 1]);
      Lost(ops[..|ops| - 1])
      + When(Succeeds(s, op) && RelationId(op.id) > 0 && op.outcome.DoneLate?, Created(op))
  }

  /** The objects freed by requests that nobody waited for any more, or that were not on the stack. */
  function Stray(ops: seq<Op>): seq<Obj> {
    if ops == [] then []
    else
      var op, s := ops[|ops| - 1], Run(ops[..|ops| - 1]);
      Stray(ops[..|ops| - 1])
      + When(Succeeds(s, op) && RelationId(op.id) < 0 && (op.outcome.DoneLate? || Target(op) !in s.stack),
             Target(op))
  }

  /** What is booked and what really happens differ in those objects alone. */
  lemma {:induction false} BookedButFor(ops: seq<Op>)
    ensures var s := Run(ops);
            && multiset(s.made) == multiset(s.created) + multiset(Lost(ops))
            && multiset(s.freed) == multiset(s.released) + multiset(Stray(ops))
  {
    if ops != [] {
      var before, op := ops[..|ops| - 1], ops[|ops| - 1];
      var s := Run(before);
      BookedButFor(before);
      BookedNext(s, op);
      SplitNext(s.made, s.created, Lost(before), Created(op),
                Succeeds(s, op) && RelationId(op.id) > 0, op.outcome.DoneLate?);
      SplitNext(s.freed, s.released, Stray(before), Target(op),
                Succeeds(s, op) && RelationId(op.id) < 0, op.outcome.DoneLate? || Target(op) !in s.stack);
      hide Next, Succeeds, RelationId, Created, Target;
      assert Run(ops) == Next(s, op);
    }
  }

  lemma SplitNext(a: seq<Obj>, b: seq<Obj>, c: seq<Obj>, x: Obj, p: bool, q: bool)
    requires multiset(a) == multiset(b) + multiset(c)
    ensures multiset(a + When(p, x)) == multiset(b + When(p && !q, x)) + multiset(c + When(p && q, x))
  {
    assert a + [] == a && b + [] == b && c + [] == c;
  }

  lemma BookedNext(s: Session, op: Op)
    ensures var t, ok, late := Next(s, op), Succeeds(s, op), op.outcome.DoneLate?;
            && t.made == s.made + When(ok && RelationId(op.id) > 0, Created(op))
            && t.created == s.created + When(ok && RelationId(op.id) > 0 && !late, Created(op))
            && t.freed == s.freed + When(ok && RelationId(op.id) < 0, Target(op))
            && t.released == s.released
                             + When(ok && RelationId(op.id) < 0 && !(late || Target(op) !in s.stack), Target(op))
  {
    hide RelationId, Created;
    if Search(s.stack, Target(op)) >= 0 {
      assert s.stack[Search(s.stack, Target(op))] == Target(op);
    }
  }

  /** What has been freed when the end of the session has made its calls. */
  function FreedAtEnd(ops: seq<Op>, installed: set<int>): seq<Obj> {
    Run(ops).freed + Calls(Run(ops).stack, installed)
  }

  /** When the end of a session has freed everything that was really made, each object exactly as often
      as it was made: if and only if the objects that were made late, and those whose release function
      is not installed, are object by object those that were freed without being booked. */
  lemma EveryObjectFreedExactly(ops: seq<Op>, installed: set<int>)
    ensures multiset(Run(ops).made) == multiset(FreedAtEnd(ops, installed))
            <==> multiset(Lost(ops)) + multiset(Skipped(Run(ops).stack, installed)) == multiset(Stray(ops))
  {
    hide Run, Lost, Stray, Calls, Skipped;
    SessionBalances(ops);
    BookedButFor(ops);
    CalledOrSkipped(Run(ops).stack, installed);
    var s := Run(ops);
    var calls, skipped := multiset(Calls(s.stack, installed)), multiset(Skipped(s.stack, installed));
    assert multiset(s.made) == (multiset(s.released) + calls) + (multiset(Lost(ops)) + skipped);
    assert multiset(FreedAtEnd(ops, installed)) == (multiset(s.released) + calls) + multiset(Stray(ops));
    CancelSum(multiset(s.released) + calls, multiset(Lost(ops)) + skipped, multiset(Stray(ops)));
  }

  lemma CancelSum(a: multiset<Obj>, x: multiset<Obj>, y: multiset<Obj>)
    ensures a + x == a + y <==> x == y
    ensures (a + x) - (a + y) == x - y
  {
    assert forall o :: (a + x)[o] == a[o] + x[o] && (a + y)[o] == a[o] + y[o];
    assert forall o :: ((a + x) - (a + y))[o] == (x - y)[o];
    if a + x == a + y {
      assert forall o :: x[o] == (a + x)[o] - a[o] == (a + y)[o] - a[o] == y[o];
    }
  }

  /** What is left unfreed and what is freed once too often, object by object. */
  lemma LeaksAndDoubles(ops: seq<Op>, installed: set<int>)
    ensures var kept := multiset(Lost(ops)) + multiset(Skipped(Run(ops).stack, installed));
            && multiset(Run(ops).made) - multiset(FreedAtEnd(ops, installed)) == kept - multiset(Stray(ops))
            && multiset(FreedAtEnd(ops, installed)) - multiset(Run(ops).made) == multiset(Stray(ops)) - kept
  {
    hide Run, Lost, Stray, Calls, Skipped;
    SessionBalances(ops);
    BookedButFor(ops);
    CalledOrSkipped(Run(ops).stack, installed);
    var s := Run(ops);
    var calls, skipped := multiset(Calls(s.stack, installed)), multiset(Skipped(s.stack, installed));
    assert multiset(s.made) == (multiset(s.released) + calls) + (multiset(Lost(ops)) + skipped);
    assert multiset(FreedAtEnd(ops, installed)) == (multiset(s.released) + calls) + multiset(Stray(ops));
    CancelSum(multiset(s.released) + calls, multiset(Lost(ops)) + skipped, multiset(Stray(ops)));
    CancelSum(multiset(s.released) + calls, multiset(Stray(ops)), multiset(Lost(ops)) + skipped);
  }

  /** No creation or release succeeds after the receive thread has stopped waiting, and no release
      succeeds for an object that is not on the stack. */
  ghost predicate OnTime(ops: seq<Op>) {
    forall k :: 0 <= k < |ops| && RelationId(ops[k].id) != 0 && Succeeds(Run(ops[..k]), ops[k]) ==>
      !ops[k].outcome.DoneLate? && (RelationId(ops[k].id) < 0 ==> Target(ops[k]) in Run(ops[..k]).stack)
  }

  /** Then, with every release function installed, each remaining object is freed exactly once, from the
      latest to the earliest, and with that everything ever made. */
  lemma {:induction false} EveryObjectReleased(ops: seq<Op>, installed: set<int>)
    requires OnTime(ops) && forall id :: RelationId(id) < 0 ==> id in installed
    ensures Calls(Run(ops).stack, installed) == Run(ops).stack
    ensures multiset(Run(ops).made) == multiset(FreedAtEnd(ops, installed))
  {
    hide Run, RelationId, Calls, Skipped, FreedAtEnd;
    ReleasersOnly(ops);
    CallsAll(Run(ops).stack, installed);
    OnTimeNothingLost(ops);
    EveryObjectFreedExactly(ops, installed);
  }

  lemma {:induction false} OnTimeNothingLost(ops: seq<Op>)
    requires OnTime(ops)
    ensures Lost(ops) == [] && Stray(ops) == []
  {
    hide Run, RelationId;
    if ops != [] {
      var n := |ops| - 1;
      assert forall k :: 0 <= k < n ==> ops[..n][k] == ops[k] && ops[..n][..k] == ops[..k];
      OnTimeNothingLost(ops[..n]);
    }
  }

  /** Whatever is on the stack names a release function. */
  lemma {:induction false} ReleasersOnly(ops: seq<Op>)
    ensures forall o :: o in Run(ops).stack ==> o.id > 0 && RelationId(o.id) < 0
  {
    if ops != [] {
      ReleasersOnly(ops[..|ops| - 1]);
    }
  }

  lemma {:induction false} CallsAll(stack: seq<Obj>, installed: set<int>)
    requires forall o :: o in stack ==> o.id in installed
    ensures Calls(stack, installed) == stack && Skipped(stack, installed) == []
  {
    if stack != [] {
      CallsAll(stack[1..], installed);
    }
  }

  /** A connection that is made late is never freed. */
  lemma LateCreationIsNotFreed(installed: set<int>)
    ensures var ops := [Op(CONTROLLER_CONNECT, DoneLate, 7, 0)];
            Run(ops).made == [Obj(CONTROLLER_DISCONNECT, 7)] && FreedAtEnd(ops, installed) == []
  {
    var ops := [Op(CONTROLLER_CONNECT, DoneLate, 7, 0)];
    assert ops[..0] == [];
    assert Run([]) == EMPTY;
  }

  /** A connection that is freed late is freed again at the end. */
  lemma LateReleaseIsRepeated(installed: set<int>)
    requires CONTROLLER_DISCONNECT in installed
    ensures var ops := [Op(CONTROLLER_CONNECT, Done, 7, 0), Op(CONTROLLER_DISCONNECT, DoneLate, 0, 7)];
            var o := Obj(CONTROLLER_DISCONNECT, 7);
            Run(ops).made == [o] && FreedAtEnd(ops, installed) == [o, o]
  {
    var connect, o := Op(CONTROLLER_CONNECT, Done, 7, 0), Obj(CONTROLLER_DISCONNECT, 7);
    var ops := [connect, Op(CONTROLLER_DISCONNECT, DoneLate, 0, 7)];
    assert ops[..1] == [connect] && [connect][..0] == [];
    assert Run([]) == EMPTY;
    assert Run([connect]).stack == [o] && Run([connect]).made == [o] && Run([connect]).freed == [];
    assert Run(ops).stack == [o] && Run(ops).freed == [o];
    CallsAll([o], installed);
  }
}
