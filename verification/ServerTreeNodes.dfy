/** The linked records behind ServerTree: change_relation, search_node, check_lifelimit and the
    UDP admission of receive_execute, proved against the tree on values.  A root connection has a doubly
    linked list of children, youngest first, and a list of children waiting to be freed.  The same
    record serves as root and as child: `node1` is the youngest child of a root and the younger
    neighbour of a child; `node2` is the head of the delete list of a root and the older neighbour of a
    child. */
module ServerTreeNodes {
  import opened Clock
  import opened Common
  import opened ServerTree

  /** CONN_BCAP_SERVER, as far as the relation of root and children goes. */
  class Conn {
    const addr: int
    var parent: Conn?
    var node1: Conn?
    var node2: Conn?
    var numChild: int
    var lastModified: Time
    ghost var Children: seq<Conn>  // of a root, youngest first
    ghost var Deleted: seq<Conn>   // of a root, those waiting to be freed
    ghost var View: Tree           // of a root, the same on values
    ghost var Members: set<Conn>   // of a root, the children and more

    ghost predicate Root()
      reads this, Members
    {
      && Inside(Children, Members) && Inside(Deleted, Members)
      && parent == null && numChild == |Children| + |Deleted|
      && node1 == First(Children) && node2 == First(Deleted)
      && Separate(this, Children, Deleted)
      && Linked(Children) && Waiting(Deleted)
      && Holds(this, Children, View.live) && Holds(this, Deleted, View.dead)
    }

    constructor ()
      ensures Root() && Children == [] && Deleted == [] && Members == {}
    {
      addr, parent, node1, node2, numChild, lastModified := 0, null, null, null, 0, 0;
      Children, Deleted, View, Members := [], [], Tree([], []), {};
    }

    constructor Child(parent: Conn, addr: int, now: Time)
      ensures this.parent == parent && this.addr == addr && lastModified == now
      ensures node1 == null && node2 == null
    {
      this.addr, this.parent, this.node1, this.node2 := addr, parent, null, null;
      this.lastModified, this.numChild := now, 0;
    }

    /** change_relation, ADD_CHILD. */
    method AddChild(addr: int, now: Time)
      requires Root()
      modifies this, Members
      ensures Root()
      ensures View == Added(old(View), addr, now)
      ensures fresh(Members - old(Members))
      ensures Children != [] && fresh(Children[0]) && Children[1..] == old(Children)
      ensures Deleted == old(Deleted)
    {
      ghost var before, dead := Children, Deleted;
      InsidePush(before, dead, Members);
      hide Inside;
      var node := new Conn.Child(this, addr, now);
      SeparatePush(this, node, before, dead);
      InsideMore(node, before, dead, Members);
      hide Separate, Linked;
      numChild := numChild + 1;
      node.Lead(this, before);
      HoldsPush(this, node, before, View.live);
      Children := [node] + before;
      Members := Members + {node};
      View := Added(View, addr, now);
    }

    /** A new child becomes the head of the children. */
    method Lead(root: Conn, ghost nodes: seq<Conn>)
      requires Linked(nodes) && root.node1 == First(nodes) && node1 == null
      requires forall k :: 0 <= k < |nodes| ==> nodes[k] != this && nodes[k] != root
      requires forall k :: 1 <= k < |nodes| ==> nodes[k] != nodes[0]
      requires this != root
      modifies root`node1, this`node2, nodes`node1
      ensures root.node1 == this && Linked([this] + nodes)
    {
      var tmp := root.node1;
      root.node1 := this;
      node2 := tmp;
      if tmp != null {
        tmp.node1 := this;
      }
      LinkedPush(this, nodes);
    }

    /** change_relation, DELETE_CHILD. */
    method DeleteChild()
      requires Root()
      modifies this
      ensures Root() && View == Tree(old(View).live, [])
      ensures Children == old(Children) && Deleted == [] && Members == old(Members)
    {
      var node := node2;
      ghost var i := 0;
      while node != null
        invariant 0 <= i <= |Deleted|
        invariant node == if i < |Deleted| then Deleted[i] else null
        invariant numChild == |Children| + |Deleted| - i
        invariant Children == old(Children) && Deleted == old(Deleted) && View == old(View)
        invariant Members == old(Members)
        invariant parent == null && node1 == First(Children)
        decreases |Deleted| - i
      {
        assert Deleted[i].node2 == Older(Deleted, i);
        var tmp := node.node2;
        node := tmp;
        numChild := numChild - 1;
        i := i + 1;
      }
      node2 := null;
      Deleted := [];
      View := Tree(View.live, []);
    }

    /** change_relation, DESTROY_SELF for a child: it leaves the children and joins the delete list. */
    method DestroySelf(root: Conn, ghost i: nat)
      requires parent == root && root.Root() && i < |root.Children| && root.Children[i] == this
      modifies root, root.Members
      ensures root.Root()
      ensures root.Children == Without(old(root.Children), i)
      ensures root.Deleted == [this] + old(root.Deleted)
      ensures root.View == Left(old(root.View), i) && root.Members == old(root.Members)
    {
      ghost var nodes, dead, view := root.Children, root.Deleted, root.View;
      ghost var moved := Left(view, i);
      SeparateMoved(root, nodes, dead, i);
      hide Separate, Without, Left, Linked, Waiting, Holds, Inside, Younger, Older;
      Move(root, nodes, dead, i);
      root.Children := Without(nodes, i);
      root.Deleted := [this] + dead;
      root.View := moved;
    }

    /** DESTROY_SELF on the links. */
    method Move(root: Conn, ghost nodes: seq<Conn>, ghost dead: seq<Conn>, ghost i: nat)
      requires i < |nodes| && nodes[i] == this && Separate(root, nodes, dead)
      requires Linked(nodes) && root.node1 == First(nodes) && Waiting(dead) && root.node2 == First(dead)
      modifies root`node1, root`node2, nodes`node1, nodes`node2, dead`node1
      ensures Linked(Without(nodes, i)) && root.node1 == First(Without(nodes, i))
      ensures Waiting([this] + dead) && root.node2 == this
    {
      SeparateMove(root, nodes, dead, i);
      hide Separate, Without, Linked, Waiting, Younger, Older;
      Unlink(root, nodes, i);
      Bury(root, Without(nodes, i), dead);
    }

    /** The first half of DESTROY_SELF. */
    method Unlink(root: Conn, ghost nodes: seq<Conn>, ghost i: nat)
      requires i < |nodes| && nodes[i] == this && Linked(nodes) && root.node1 == First(nodes)
      requires forall k :: 0 <= k < |nodes| ==> nodes[k] != root
      requires forall k :: 0 <= k < |nodes| && k != i ==> nodes[k] != this
      requires i > 0 ==> forall k :: 0 <= k < |nodes| && k != i - 1 ==> nodes[k] != nodes[i - 1]
      requires i + 1 < |nodes| ==> forall k :: 0 <= k < |nodes| && k != i + 1 ==> nodes[k] != nodes[i + 1]
      modifies root`node1, nodes`node1, nodes`node2
      ensures Linked(Without(nodes, i)) && root.node1 == First(Without(nodes, i))
    {
      hide Without;
      var tmp := node1;
      assert node1 == Younger(nodes, i) && node2 == Older(nodes, i);
      if tmp == null {
        root.node1 := node2;
      } else {
        tmp.node2 := node2;
      }
      if node2 != null {
        node2.node1 := tmp;
      }
      LinkedWithout(nodes, i);
    }

    /** The second half of DESTROY_SELF. */
    method Bury(root: Conn, ghost rest: seq<Conn>, ghost dead: seq<Conn>)
      requires Linked(rest) && Waiting(dead) && root.node2 == First(dead)
      requires forall k :: 0 <= k < |rest| ==> rest[k] != this && rest[k] != root
      requires forall j, k :: 0 <= j < |rest| && 0 <= k < |dead| ==> rest[j] != dead[k]
      requires forall k :: 0 <= k < |dead| ==> dead[k] != this && dead[k] != root
      requires this != root
      modifies root`node2, this`node2, dead`node1
      ensures Linked(rest) && Waiting([this] + dead) && root.node2 == this
    {
      var tmp := root.node2;
      root.node2 := this;
      node2 := tmp;
      if tmp != null {
        tmp.node1 := this;
      }
      WaitingPush(this, dead);
    }

    /** search_node. */
    method SearchNode(addr: int) returns (node: Conn?, ghost i: nat)
      requires Root()
      ensures var k := Find(View.live, addr); node == if k < |Children| then Children[k] else null
      ensures i == Find(View.live, addr)
    {
      node, i := node1, 0;
      while node != null
        invariant 0 <= i <= |Children|
        invariant node == if i < |Children| then Children[i] else null
        invariant forall k :: 0 <= k < i ==> View.live[k].addr != addr
        decreases |Children| - i
      {
        if node.addr == addr {
          return;
        }
        assert node.node2 == Older(Children, i);
        node, i := node.node2, i + 1;
      }
    }

    /** check_lifelimit before it examines child k: those before it that are not expired are kept. */
    ghost predicate Sweeping(all: seq<Client>, k: nat, kept: seq<Client>, child: Conn?, clock: nat -> Time)
      reads this, Members
    {
      && Root() && |Children| == |View.live| && k <= |all|
      && kept == Fresh(all[..k], clock) && View.live == kept + all[k..]
      && child == if k < |all| then Children[|kept|] else null
    }

    /** The body of the loop of check_lifelimit: an expired child leaves. */
    method Examine(root: Conn, ghost all: seq<Client>, ghost k: nat, ghost kept: seq<Client>,
                   ghost clock: nat -> Time, cur: Time) returns (next: Conn?, ghost still: seq<Client>)
      requires k < |all| && root.Sweeping(all, k, kept, this, clock) && cur == clock(k)
      modifies root, root.Members
      ensures root.Sweeping(all, k + 1, still, next, clock) && root.Members == old(root.Members)
    {
      FreshStep(all, k, clock);
      ChildAt(root, |kept|);
      hide Conn.Root, Fresh, Without, Left;
      still := kept;
      next := node2;
      var diff := TimeDiff(lastModified, cur);
      if diff > UDP_LIFELIMIT {
        DestroySelf(root, |kept|);
      } else {
        still := kept + [all[k]];
      }
    }

    /** check_lifelimit. */
    method CheckLifelimit(clock: nat -> Time) returns (count: int)
      requires Root()
      modifies this, Members
      ensures Root() && View == Tree(Fresh(old(View).live, clock), []) && count == |View.live|
      ensures Deleted == [] && Members == old(Members)
    {
      ghost var all, kept := View.live, [];
      var child, k := node1, 0;
      SweepStart(this, clock);
      hide Conn.Root, Conn.Sweeping, Fresh;
      while child != null
        invariant Sweeping(all, k, kept, child, clock) && Members == old(Members)
        decreases |all| - k
      {
        SweepAt(this, all, k, kept, child, clock);
        child, kept := child.Examine(this, all, k, kept, clock, clock(k));
        k := k + 1;
      }
      SweepAt(this, all, k, kept, child, clock);
      DeleteChild();
      count := numChild;
    }

    /** The UDP part of receive_execute: the child that serves the sender of a request, if it gets
        one. */
    method Request(addr: int, clock: nat -> Time, now: Time) returns (node: Conn?)
      requires Root()
      modifies this, Members
      ensures Root() && View == Next(old(View), Step.Request(addr, clock, now))
      ensures node == null <==> Refused(old(View), addr, clock)
      ensures node != null ==> node in Children && node.addr == addr
    {
      ghost var i;
      node, i := SearchNode(addr);
      if node == null {
        if numChild >= CLIENT_MAX {
          var count := CheckLifelimit(clock);
          if count >= CLIENT_MAX {
            return null;
          }
        }
        AddChild(addr, now);
        node := node1;
      }
    }

    /** The end of receive_execute: an answer has been sent by this child. */
    method Answer(root: Conn, ghost i: nat, now: Time)
      requires root.Root() && i < |root.Children| && root.Children[i] == this
      requires i == Find(root.View.live, addr)
      modifies this`lastModified, root`View
      ensures root.Root() && root.View == Next(old(root.View), Step.Answer(addr, now))
    {
      lastModified := now;
      root.View := Tree(root.View.live[i := Client(addr, now)], root.View.dead);
    }

    /** A UDP client has stopped its service. */
    method Stop(addr: int)
      requires Root()
      modifies this, Members
      ensures Root() && View == Next(old(View), Step.Stop(addr))
    {
      var node, i := SearchNode(addr);
      if node != null {
        node.DestroySelf(this, i);
        DeleteChild();
      }
    }

    /** accept_thread, for one connection. */
    method Accept(now: Time)
      requires Root()
      modifies this, Members
      ensures Root() && View == Next(old(View), Step.Accept(now))
    {
      if numChild < CLIENT_MAX {
        AddChild(0, now);
      }
    }

    /** change_relation, DESTROY_SELF for the root. */
    method DestroyRoot()
      requires Root()
      modifies this, Members
      ensures Root() && View == Next(old(View), Step.Close) && numChild == 0
    {
      var node := node1;
      while node != null
        invariant Root() && node == First(Children)
        invariant Members == old(Members)
        decreases |Children|
      {
        assert node.node2 == Older(Children, 0);
        var tmp := node.node2;
        node.DestroySelf(this, 0);
        node := tmp;
      }
      DeleteChild();
    }
  }

  ghost function First(nodes: seq<Conn>): Conn? {
    if nodes == [] then null else nodes[0]
  }

  ghost function Younger(nodes: seq<Conn>, i: nat): Conn?
    requires i < |nodes|
  {
    if i == 0 then null else nodes[i - 1]
  }

  ghost function Older(nodes: seq<Conn>, i: nat): Conn?
    requires i < |nodes|
  {
    if i + 1 < |nodes| then nodes[i + 1] else null
  }

  ghost predicate Inside(nodes: seq<Conn>, members: set<Conn>) {
    forall i :: 0 <= i < |nodes| ==> nodes[i] in members
  }

  lemma InsidePush(a: seq<Conn>, b: seq<Conn>, members: set<Conn>)
    requires Inside(a, members) && Inside(b, members)
    ensures forall k :: 0 <= k < |a| ==> a[k] in members
    ensures forall k :: 0 <= k < |b| ==> b[k] in members
  {
  }

  lemma InsideMore(node: Conn, a: seq<Conn>, b: seq<Conn>, members: set<Conn>)
    requires Inside(a, members) && Inside(b, members)
    ensures Inside([node] + a, members + {node}) && Inside(b, members + {node})
  {
  }

  /** The root and the nodes of its two lists are all different. */
  ghost predicate Separate(root: Conn, a: seq<Conn>, b: seq<Conn>) {
    && (forall i, j :: 0 <= i < j < |a| ==> a[i] != a[j])
    && (forall i, j :: 0 <= i < j < |b| ==> b[i] != b[j])
    && (forall i, j :: 0 <= i < |a| && 0 <= j < |b| ==> a[i] != b[j])
    && (forall i :: 0 <= i < |a| ==> a[i] != root)
    && (forall i :: 0 <= i < |b| ==> b[i] != root)
  }

  /** The list of children: every one points to both neighbours. */
  ghost predicate Linked(nodes: seq<Conn>)
    reads nodes`node1, nodes`node2
  {
    && (forall i {:trigger Younger(nodes, i)} :: 0 <= i < |nodes| ==> nodes[i].node1 == Younger(nodes, i))
    && (forall i {:trigger Older(nodes, i)} :: 0 <= i < |nodes| ==> nodes[i].node2 == Older(nodes, i))
  }

  /** The delete list: only `node2` is followed. */
  ghost predicate Waiting(nodes: seq<Conn>)
    reads nodes`node2
  {
    forall i {:trigger Older(nodes, i)} :: 0 <= i < |nodes| ==> nodes[i].node2 == Older(nodes, i)
  }

  /** The nodes belong to the root and hold these clients. */
  ghost predicate Holds(root: Conn, nodes: seq<Conn>, clients: seq<Client>)
    reads nodes`parent, nodes`lastModified
  {
    && |clients| == |nodes|
    && (forall i :: 0 <= i < |nodes| ==>
          nodes[i].parent == root && clients[i] == Client(nodes[i].addr, nodes[i].lastModified))
  }

  lemma ChildAt(root: Conn, i: nat)
    requires root.Root() && i < |root.Children|
    ensures var child := root.Children[i];
            && |root.Children| == |root.View.live|
            && child.parent == root
            && child.node2 == (if i + 1 < |root.Children| then root.Children[i + 1] else null)
            && child.lastModified == root.View.live[i].seen
  {
    assert root.Children[i].node2 == Older(root.Children, i);
  }

  lemma SweepStart(root: Conn, clock: nat -> Time)
    requires root.Root()
    ensures root.Sweeping(root.View.live, 0, [], root.node1, clock)
  {
    assert root.View.live[0..] == root.View.live;
  }

  lemma SweepAt(root: Conn, all: seq<Client>, k: nat, kept: seq<Client>, child: Conn?, clock: nat -> Time)
    requires root.Sweeping(all, k, kept, child, clock)
    ensures root.Root()
    ensures child != null ==> k < |all| && child in root.Members
    ensures child == null ==> root.View.live == Fresh(all, clock)
  {
    if child == null {
      assert all[..k] == all;
    }
  }

  lemma FreshStep(live: seq<Client>, k: nat, clock: nat -> Time)
    requires k < |live|
    ensures var kept, rest := Fresh(live[..k], clock), live[k..];
            && live[k..] == [live[k]] + live[k + 1..]
            && (if TimeDiff(live[k].seen, clock(k)) > UDP_LIFELIMIT
                then Fresh(live[..k + 1], clock) == kept && Without(kept + rest, |kept|) == kept + live[k + 1..]
                else Fresh(live[..k + 1], clock) == kept + [live[k]]
                     && kept + rest == Fresh(live[..k + 1], clock) + live[k + 1..])
  {
    assert live[..k + 1][..k] == live[..k];
  }

  lemma SeparatePush(root: Conn, node: Conn, a: seq<Conn>, b: seq<Conn>)
    requires Separate(root, a, b) && node != root && node !in a && node !in b
    ensures Separate(root, [node] + a, b)
    ensures forall k :: 1 <= k < |a| ==> a[k] != a[0]
    ensures forall k :: 0 <= k < |b| ==> a == [] || b[k] != a[0]
    ensures forall k :: 0 <= k < |a| ==> a[k] != root
    ensures forall k :: 0 <= k < |b| ==> b[k] != root
  {
  }

  lemma LinkedPush(node: Conn, nodes: seq<Conn>)
    requires node.node1 == null && node.node2 == First(nodes)
    requires forall k {:trigger Younger(nodes, k)} :: 0 <= k < |nodes| ==>
               nodes[k].node1 == if k == 0 then node else Younger(nodes, k)
    requires forall k {:trigger Older(nodes, k)} :: 0 <= k < |nodes| ==> nodes[k].node2 == Older(nodes, k)
    ensures Linked([node] + nodes)
  {
    var all := [node] + nodes;
    forall k | 0 <= k < |all|
      ensures all[k].node1 == Younger(all, k) && all[k].node2 == Older(all, k)
    {
      if k > 0 {
        assert all[k] == nodes[k - 1];
        var younger, older := Younger(nodes, k - 1), Older(nodes, k - 1);
        if k > 1 {
          assert nodes[k - 1].node1 == younger;
        } else {
          assert younger == null;
        }
        assert nodes[k - 1].node2 == older;
      }
    }
  }

  lemma SeparateMoved(root: Conn, a: seq<Conn>, b: seq<Conn>, i: nat)
    requires Separate(root, a, b) && i < |a|
    ensures Separate(root, Without(a, i), [a[i]] + b)
  {
  }

  lemma SeparateMove(root: Conn, a: seq<Conn>, b: seq<Conn>, i: nat)
    requires Separate(root, a, b) && i < |a|
    ensures forall k :: 0 <= k < |a| && k != i ==> a[k] != a[i]
    ensures i > 0 ==> forall k :: 0 <= k < |a| && k != i - 1 ==> a[k] != a[i - 1]
    ensures i + 1 < |a| ==> forall k :: 0 <= k < |a| && k != i + 1 ==> a[k] != a[i + 1]
    ensures forall k :: 0 <= k < |a| ==> a[k] != root
    ensures forall k :: 0 <= k < |b| ==> b[k] != root
    ensures var rest := Without(a, i);
            && (forall k :: 0 <= k < |rest| ==> rest[k] != a[i] && rest[k] != root)
            && (forall j, k :: 0 <= j < |rest| && 0 <= k < |b| ==> rest[j] != b[k])
            && (forall k :: 0 <= k < |b| ==> b[k] !in a)
  {
  }

  /** Joining the two neighbours of a node links all the others. */
  lemma LinkedWithout(nodes: seq<Conn>, i: nat)
    requires i < |nodes|
    requires forall k {:trigger Younger(nodes, k)} :: 0 <= k < |nodes| && k != i ==>
               nodes[k].node1 == (if k == i + 1 then Younger(nodes, i) else Younger(nodes, k))
    requires forall k {:trigger Older(nodes, k)} :: 0 <= k < |nodes| && k != i ==>
               nodes[k].node2 == (if k + 1 == i then Older(nodes, i) else Older(nodes, k))
    ensures Linked(Without(nodes, i))
  {
    var rest := Without(nodes, i);
    forall k | 0 <= k < |rest|
      ensures rest[k].node1 == Younger(rest, k) && rest[k].node2 == Older(rest, k)
    {
      var j := if k < i then k else k + 1;
      var younger, older := Younger(nodes, j), Older(nodes, j);
      assert rest[k] == nodes[j];
    }
  }

  lemma WaitingPush(node: Conn, nodes: seq<Conn>)
    requires Waiting(nodes) && node.node2 == First(nodes)
    ensures Waiting([node] + nodes)
  {
    var all := [node] + nodes;
    forall k | 0 <= k < |all|
      ensures all[k].node2 == Older(all, k)
    {
      if k > 0 {
        assert nodes[k - 1].node2 == Older(nodes, k - 1);
      }
    }
  }

  lemma HoldsPush(root: Conn, node: Conn, nodes: seq<Conn>, clients: seq<Client>)
    requires Holds(root, nodes, clients) && node.parent == root
    ensures Holds(root, [node] + nodes, [Client(node.addr, node.lastModified)] + clients)
  {
  }
}
