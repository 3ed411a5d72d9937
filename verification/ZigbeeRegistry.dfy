/**
 The node registry of board/zgb_std.c as it is linked in memory: a doubly linked list of nodes,
 each with a doubly linked list of child entries.  Every function is proved to do to the lists
 what ZigbeeModel says on values.
 */
module ZigbeeRegistry {
  import opened Common
  import opened ZigbeeModel
  import ZigbeeReports

  // ---------------------------------------------------------------- child entries

  /** Mirrors zgb_snode_t; cnt is the length of lst. */
  class SNode {
    var kind: byte
    var lst: seq<byte>
    var next: SNode?
    var prev: SNode?

    constructor (kid: Kid)
      ensures kind == kid.kind && lst == kid.addrs && next == null && prev == null
    {
      kind, lst, next, prev := kid.kind, kid.addrs, null, null;
    }
  }

  ghost function KidAt(s: seq<SNode>, i: int): SNode? {
    if 0 <= i < |s| then s[i] else null
  }

  lemma KidAtIs(s: seq<SNode>, i: int)
    ensures KidAt(s, i) == if 0 <= i < |s| then s[i] else null
  {
  }

  lemma KidAtCut(s: seq<SNode>, i: nat, j: int)
    requires i < |s|
    ensures KidAt(s[..i] + s[i + 1..], j) == KidAt(s, if j < i then j else j + 1)
  {
  }

  lemma KidAtMore(s: seq<SNode>, node: SNode, j: int)
    ensures KidAt(s + [node], j) == if j == |s| then node else KidAt(s, j)
  {
  }

  /** The list from first is s, linked both ways. */
  ghost predicate KidsLinked(first: SNode?, s: seq<SNode>)
    reads s
  {
    && first == KidAt(s, 0)
    && (forall i | 0 <= i < |s| :: s[i].next == KidAt(s, i + 1) && s[i].prev == KidAt(s, i - 1))
    && (forall i, j | 0 <= i < j < |s| :: s[i] != s[j])
  }

  /** A list without its element i, whose neighbours skip it. */
  lemma KidsCut(was: seq<SNode>, i: nat, first: SNode?)
    requires i < |was| && forall j, k | 0 <= j < k < |was| :: was[j] != was[k]
    requires first == KidAt(was, if i == 0 then 1 else 0)
    requires forall j | 0 <= j < |was| && j != i ::
               && was[j].next == KidAt(was, if j + 1 == i then i + 1 else j + 1)
               && was[j].prev == KidAt(was, if j - 1 == i then i - 1 else j - 1)
    ensures KidsLinked(first, was[..i] + was[i + 1..])
  {
    hide KidAt;
    var s := was[..i] + was[i + 1..];
    forall j | 0 <= j < |s| ensures s[j].next == KidAt(s, j + 1) && s[j].prev == KidAt(s, j - 1) {
      assert s[j] == was[if j < i then j else j + 1];
      KidAtCut(was, i, j + 1);
      KidAtCut(was, i, j - 1);
    }
    KidAtCut(was, i, 0);
  }

  /** A list with one more element behind it. */
  lemma KidsMore(was: seq<SNode>, node: SNode, first: SNode?)
    requires node !in was && forall j, k | 0 <= j < k < |was| :: was[j] != was[k]
    requires first == (if was == [] then node else was[0])
    requires forall j | 0 <= j < |was| ::
               was[j].next == (if j + 1 == |was| then node else KidAt(was, j + 1)) && was[j].prev == KidAt(was, j - 1)
    requires node.next == null && node.prev == KidAt(was, |was| - 1)
    ensures KidsLinked(first, was + [node])
  {
    hide KidAt;
    var s := was + [node];
    forall j | 0 <= j < |s| ensures s[j].next == KidAt(s, j + 1) && s[j].prev == KidAt(s, j - 1) {
      KidAtMore(was, node, j + 1);
      KidAtMore(was, node, j - 1);
      KidAtIs(was, j + 1);
    }
    KidAtMore(was, node, 0);
    KidAtIs(was, 0);
  }

  ghost predicate KidsShow(s: seq<SNode>, ks: seq<Kid>)
    reads s`kind, s`lst
  {
    |s| == |ks| && forall i | 0 <= i < |s| :: s[i].kind == ks[i].kind && s[i].lst == ks[i].addrs
  }

  lemma ShowsCut(s: seq<SNode>, ks: seq<Kid>, i: nat)
    requires KidsShow(s, ks) && i < |s|
    ensures KidsShow(s[..i] + s[i + 1..], ks[..i] + ks[i + 1..])
  {
  }

  // ---------------------------------------------------------------- nodes

  /** Mirrors zgb_mnode_t; kids is the list that snode begins. */
  class MNode {
    var workmode: byte
    var netid: nat
    var mac: seq<byte>
    var online: bool
    var rssi: byte
    var uptime: word
    var lasttime: word
    var offtime: word
    var snode: SNode?
    ghost var kids: seq<SNode>
    var next: MNode?
    var prev: MNode?

    /** The node, without its links, has the value m. */
    ghost predicate Shows(m: Node)
      reads this`workmode, this`netid, this`mac, this`online, this`rssi, this`uptime, this`lasttime, this`offtime,
            this`snode, this`kids, kids
    {
      && workmode == m.workmode && netid == m.netid && mac == m.mac && online == m.online && rssi == m.rssi
      && uptime == m.uptime && lasttime == m.lasttime && offtime == m.offtime
      && HasKids(m.kids)
    }

    ghost predicate HasKids(ks: seq<Kid>)
      reads this`snode, this`kids, kids
    {
      KidsLinked(snode, kids) && KidsShow(kids, ks)
    }

    constructor (info: Scan, now: word)
      ensures Shows(NewNode(info, now).(kids := [])) && kids == [] && next == null && prev == null
    {
      next, prev := null, null;
      workmode, netid, mac, online, rssi := info.workmode, info.netid, info.mac, true, info.rssi;
      uptime, lasttime, offtime := now, now, 0;
      snode, kids := null, [];
    }

    /** _snode_find_with_type; also the search of _snode_rm_one. */
    method FindWithType(kind: byte, ghost ks: seq<Kid>) returns (node: SNode?)
      requires HasKids(ks)
      ensures |kids| == |ks| && node == KidAt(kids, KidIndex(ks, kind))
    {
      hide KidIndex;
      node := snode;
      ghost var i := 0;
      while node != null
        invariant i <= |kids| == |ks| && node == KidAt(kids, i)
        invariant forall j | 0 <= j < i :: ks[j].kind != kind
        decreases |kids| - i
      {
        if node.kind == kind {
          FirstOfKind(ks, kind, i);
          return;
        }
        node := node.next;
        i := i + 1;
      }
      NoneOfKind(ks, kind);
    }

    /** _snode_find_with_addr. */
    method FindWithAddr(kind: byte, addr: int, ghost ks: seq<Kid>) returns (found: SNode?)
      requires HasKids(ks)
      ensures found != null <==> Lists(ks, kind, addr)
    {
      found := snode;
      ghost var i := 0;
      while found != null
        invariant i <= |kids| == |ks| && found == KidAt(kids, i)
        invariant forall j | 0 <= j < i :: !(ks[j].kind == kind && addr in ks[j].addrs)
        decreases |kids| - i
      {
        if found.kind == kind {
          for a := 0 to |found.lst|
            invariant addr !in found.lst[..a]
          {
            if found.lst[a] == addr {
              assert ks[i].kind == kind && addr in ks[i].addrs;
              return;
            }
          }
          assert found.lst[..|found.lst|] == found.lst;
        }
        found := found.next;
        i := i + 1;
      }
    }

    /** The relinking of _snode_rm_one. */
    method Unlink(node: SNode, ghost i: nat, ghost ks: seq<Kid>)
      requires HasKids(ks) && i < |kids| && kids[i] == node
      modifies this`snode, this`kids, kids
      ensures kids == old(kids[..i] + kids[i + 1..]) && HasKids(ks[..i] + ks[i + 1..])
    {
      hide KidAt, KidsShow;
      KidAtIs(kids, i - 1);
      KidAtIs(kids, i + 1);
      KidAtIs(kids, i);
      var before, after := node.prev, node.next;
      if before != null {
        before.next := after;
      } else {
        snode := after;
      }
      if after != null {
        after.prev := before;
      }
      ghost var was := kids;
      kids := was[..i] + was[i + 1..];
      KidAtIs(was, 0);
      KidAtIs(was, 1);
      KidsCut(was, i, snode);
      ShowsCut(was, ks, i);
    }

    /** _snode_rm_one. */
    method RmOne(kind: byte, ghost ks: seq<Kid>)
      requires HasKids(ks)
      modifies this`snode, this`kids, kids
      ensures HasKids(WithoutKind(ks, kind)) && forall j | 0 <= j < |kids| :: kids[j] in old(kids)
    {
      hide HasKids, KidIndex;
      var node := FindWithType(kind, ks);
      if node != null {
        Unlink(node, KidIndex(ks, kind), ks);
      }
    }

    /** The walk to the last entry. */
    method LastKid(ghost ks: seq<Kid>) returns (last: SNode?)
      requires HasKids(ks)
      ensures last == KidAt(kids, |kids| - 1)
    {
      last := snode;
      ghost var i := 0;
      while last != null && last.next != null
        invariant i <= |kids| && last == KidAt(kids, i) && (i > 0 ==> i < |kids|)
        decreases |kids| - i
      {
        last := last.next;
        i := i + 1;
      }
    }

    /** Appends an entry that is in no list. */
    method LinkLast(node: SNode, ghost ks: seq<Kid>, ghost kid: Kid)
      requires HasKids(ks) && node !in kids && node.next == null && node.prev == null
      requires node.kind == kid.kind && node.lst == kid.addrs
      modifies this`snode, this`kids, kids, node
      ensures kids == old(kids) + [node] && HasKids(ks + [kid])
    {
      hide KidAt;
      KidAtIs(kids, 0);
      KidAtIs(kids, |kids| - 1);
      var last := LastKid(ks);
      if last != null {
        last.next := node;
        node.prev := last;
      } else {
        snode := node;
      }
      ghost var was := kids;
      kids := was + [node];
      KidAtIs(was, |was| - 1);
      KidAtIs(was, |was|);
      KidsMore(was, node, snode);
    }

    /** _snode_insert. */
    method InsertSNode(info: Scan, ghost ks: seq<Kid>)
      requires HasKids(ks)
      modifies this`snode, this`kids, kids
      ensures HasKids(InsertKid(ks, info)) && forall j | 0 <= j < |kids| :: kids[j] in old(kids) || fresh(kids[j])
    {
      hide HasKids, KidOf, WithoutKind;
      var node := new SNode(KidOf(info));
      RmOne(info.kind, ks);
      LinkLast(node, WithoutKind(ks, info.kind), KidOf(info));
    }

    /** The branch of zgb_mnode_insert for a node that is known. */
    method Update(info: Scan, now: word, ghost m: Node)
      requires Shows(m)
      modifies this`workmode, this`netid, this`rssi, this`lasttime, this`online, this`uptime, this`offtime
      ensures Shows(Refreshed(m, info, now).(kids := m.kids))
    {
      hide HasKids, InsertKid;
      workmode := info.workmode;
      netid := info.netid;
      rssi := info.rssi;
      lasttime := now;
      if !online {
        online := true;
        uptime := lasttime;
        offtime := 0;
      }
    }

    /** _snode_insert, leaving the rest of the node alone. */
    method AddKid(info: Scan, ghost m: Node)
      requires Shows(m)
      modifies this`snode, this`kids, kids
      ensures Shows(m.(kids := InsertKid(m.kids, info)))
      ensures forall j | 0 <= j < |kids| :: kids[j] in old(kids) || fresh(kids[j])
    {
      hide HasKids, InsertKid;
      InsertSNode(info, m.kids);
    }

    /** The part of zgb_check_online that takes a node offline. */
    method GoOffline(offtime: word, ghost m: Node)
      requires Shows(m)
      modifies this`online, this`offtime
      ensures Shows(m.(online := false, offtime := offtime))
    {
      hide HasKids;
      online := false;
      this.offtime := offtime;
    }
  }

  lemma {:induction false} FirstOfKind(ks: seq<Kid>, kind: byte, i: nat)
    requires i < |ks| && ks[i].kind == kind && forall j | 0 <= j < i :: ks[j].kind != kind
    ensures KidIndex(ks, kind) == i && WithoutKind(ks, kind) == ks[..i] + ks[i + 1..]
  {
  }

  lemma NoneOfKind(ks: seq<Kid>, kind: byte)
    requires forall j | 0 <= j < |ks| :: ks[j].kind != kind
    ensures WithoutKind(ks, kind) == ks
  {
  }

  // ---------------------------------------------------------------- the list of nodes

  ghost function NodeAt(s: seq<MNode>, i: int): MNode? {
    if 0 <= i < |s| then s[i] else null
  }

  lemma NodeAtIs(s: seq<MNode>, i: int)
    ensures NodeAt(s, i) == if 0 <= i < |s| then s[i] else null
  {
  }

  lemma NodeAtCut(s: seq<MNode>, i: nat, j: int)
    requires i < |s|
    ensures NodeAt(s[..i] + s[i + 1..], j) == NodeAt(s, if j < i then j else j + 1)
  {
  }

  lemma NodeAtMore(s: seq<MNode>, node: MNode, j: int)
    ensures NodeAt(s + [node], j) == if j == |s| then node else NodeAt(s, j)
  {
  }

  /** The list from first is s, linked both ways. */
  ghost predicate NodesLinked(first: MNode?, s: seq<MNode>)
    reads s`next, s`prev
  {
    && first == NodeAt(s, 0)
    && (forall i | 0 <= i < |s| :: s[i].next == NodeAt(s, i + 1) && s[i].prev == NodeAt(s, i - 1))
    && (forall i, j | 0 <= i < j < |s| :: s[i] != s[j])
  }

  /** A list without its element i, whose neighbours skip it. */
  lemma NodesCut(was: seq<MNode>, i: nat, first: MNode?)
    requires i < |was| && forall j, k | 0 <= j < k < |was| :: was[j] != was[k]
    requires first == NodeAt(was, if i == 0 then 1 else 0)
    requires forall j | 0 <= j < |was| && j != i ::
               && was[j].next == NodeAt(was, if j + 1 == i then i + 1 else j + 1)
               && was[j].prev == NodeAt(was, if j - 1 == i then i - 1 else j - 1)
    ensures NodesLinked(first, was[..i] + was[i + 1..])
  {
    hide NodeAt;
    var s := was[..i] + was[i + 1..];
    forall j | 0 <= j < |s| ensures s[j].next == NodeAt(s, j + 1) && s[j].prev == NodeAt(s, j - 1) {
      assert s[j] == was[if j < i then j else j + 1];
      NodeAtCut(was, i, j + 1);
      NodeAtCut(was, i, j - 1);
    }
    NodeAtCut(was, i, 0);
  }

  /** A list with one more element behind it. */
  lemma NodesMore(was: seq<MNode>, node: MNode, first: MNode?)
    requires node !in was && forall j, k | 0 <= j < k < |was| :: was[j] != was[k]
    requires first == (if was == [] then node else was[0])
    requires forall j | 0 <= j < |was| ::
               was[j].next == (if j + 1 == |was| then node else NodeAt(was, j + 1)) && was[j].prev == NodeAt(was, j - 1)
    requires node.next == null && node.prev == NodeAt(was, |was| - 1)
    ensures NodesLinked(first, was + [node])
  {
    hide NodeAt;
    var s := was + [node];
    forall j | 0 <= j < |s| ensures s[j].next == NodeAt(s, j + 1) && s[j].prev == NodeAt(s, j - 1) {
      NodeAtMore(was, node, j + 1);
      NodeAtMore(was, node, j - 1);
      NodeAtIs(was, j + 1);
    }
    NodeAtMore(was, node, 0);
    NodeAtIs(was, 0);
  }

  /** The nodes have the values ms, and their child entries are in r. */
  ghost predicate NodesShow(s: seq<MNode>, ms: seq<Node>, r: set<SNode>)
    reads s`workmode, s`netid, s`mac, s`online, s`rssi, s`uptime, s`lasttime, s`offtime, s`snode, s`kids, r
  {
    |s| == |ms| && forall i | 0 <= i < |s| :: Within(s[i].kids, r) && s[i].Shows(ms[i])
  }

  ghost predicate Within(kids: seq<SNode>, r: set<SNode>) {
    forall j | 0 <= j < |kids| :: kids[j] in r
  }

  /** No child entry is in the lists of two nodes. */
  ghost predicate KidsApart(s: seq<MNode>)
    reads s`kids
  {
    forall i, j | 0 <= i < j < |s| :: Apart(s[i].kids, s[j].kids)
  }

  ghost predicate Apart(a: seq<SNode>, b: seq<SNode>) {
    forall x, y | 0 <= x < |a| && 0 <= y < |b| :: a[x] != b[y]
  }

  lemma ShowCut(s: seq<MNode>, ms: seq<Node>, r: set<SNode>, i: nat)
    requires NodesShow(s, ms, r) && KidsApart(s) && i < |s|
    ensures NodesShow(s[..i] + s[i + 1..], ms[..i] + ms[i + 1..], r) && KidsApart(s[..i] + s[i + 1..])
  {
    hide Apart, Within, MNode.Shows;
    var t, u := s[..i] + s[i + 1..], ms[..i] + ms[i + 1..];
    forall j | 0 <= j < |t|
      ensures Within(t[j].kids, r) && t[j].Shows(u[j])
    {
      var k := if j < i then j else j + 1;
      assert Within(s[k].kids, r) && s[k].Shows(ms[k]);
    }
    forall j, k | 0 <= j < k < |t|
      ensures Apart(t[j].kids, t[k].kids)
    {
      assert Apart(s[if j < i then j else j + 1].kids, s[if k < i then k else k + 1].kids);
    }
  }

  /** s_zgb_mnode and the functions on it; nodes is the list and model its value. */
  class Registry {
    var head: MNode?
    ghost var nodes: seq<MNode>
    ghost var model: seq<Node>
    ghost var repr: set<SNode>

    /** Well linked, unique network addresses, at most one child entry per type and node. */
    ghost predicate Valid()
      reads this, nodes, repr
    {
      NodesLinked(head, nodes) && NodesShow(nodes, model, repr) && KidsApart(nodes) && WellFormed(model)
    }

    /** zgb_std_init. */
    constructor ()
      ensures Valid() && model == [] && nodes == [] && repr == {}
    {
      head, nodes, model, repr := null, [], [], {};
    }

    /** zgb_mnode_find_with_netid. */
    method FindWithNetid(netid: nat) returns (node: MNode?)
      requires NodesLinked(head, nodes) && NodesShow(nodes, model, repr)
      ensures node == NodeAt(nodes, NodeIndex(model, netid))
    {
      hide NodeIndex, NodeAt, MNode.HasKids;
      node := head;
      ghost var i := 0;
      NodeAtIs(nodes, 0);
      while node != null
        invariant i <= |nodes| && node == NodeAt(nodes, i)
        invariant forall j | 0 <= j < i :: model[j].netid != netid
        decreases |nodes| - i
      {
        NodeAtIs(nodes, i);
        assert nodes[i].Shows(model[i]);
        if node.netid == netid {
          FirstWithId(model, netid, i);
          return;
        }
        node := node.next;
        i := i + 1;
        NodeAtIs(nodes, i);
      }
      NodeAtIs(nodes, i);
      NoneWithId(model, netid);
    }

    /** zgb_mnode_find_with_addr: the first node that lists the address for the type. */
    method FindWithAddr(kind: byte, addr: int) returns (node: MNode?)
      requires Valid()
      ensures node == NodeAt(nodes, AddrIndex(model, kind, addr))
    {
      hide NodeAt, MNode.HasKids, KidsApart, WellFormed, Lists, AddrIndex;
      node := head;
      ghost var i := 0;
      while node != null
        invariant i <= |nodes| == |model| && node == NodeAt(nodes, i)
        invariant forall j | 0 <= j < i :: !Lists(model[j].kids, kind, addr)
        decreases |nodes| - i
      {
        NodeAtIs(nodes, i);
        assert nodes[i].Shows(model[i]);
        var kid := node.FindWithAddr(kind, addr, model[i].kids);
        if kid != null {
          FirstWithAddr(model, kind, addr, i);
          return;
        }
        node := node.next;
        i := i + 1;
      }
      NodeAtIs(nodes, i);
      NoneWithAddr(model, kind, addr);
    }

    /** zgb_mnode_num. */
    method Num() returns (num: nat)
      requires Valid()
      ensures num == |model|
    {
      hide NodeAt, MNode.Shows, KidsApart, WellFormed;
      num := 0;
      var node := head;
      while node != null
        invariant num <= |nodes| == |model| && node == NodeAt(nodes, num)
        decreases |nodes| - num
      {
        NodeAtIs(nodes, num);
        node := node.next;
        num := num + 1;
      }
      NodeAtIs(nodes, num);
    }

    /** The relinking of zgb_mnode_rm_with_id and zgb_check_online. */
    method Unlink(node: MNode, ghost i: nat)
      requires NodesLinked(head, nodes) && i < |nodes| && nodes[i] == node
      modifies this`head, this`nodes, nodes`next, nodes`prev
      ensures nodes == old(nodes[..i] + nodes[i + 1..]) && NodesLinked(head, nodes)
    {
      hide NodeAt;
      NodeAtIs(nodes, i - 1);
      NodeAtIs(nodes, i + 1);
      NodeAtIs(nodes, i);
      var before, after := node.prev, node.next;
      if before != null {
        before.next := after;
      } else {
        head := after;
      }
      if after != null {
        after.prev := before;
      }
      ghost var was := nodes;
      nodes := was[..i] + was[i + 1..];
      NodeAtIs(was, 0);
      NodeAtIs(was, 1);
      NodesCut(was, i, head);
    }

    /** zgb_mnode_rm_with_id. */
    method RmWithId(netid: nat)
      requires Valid()
      modifies this, nodes`next, nodes`prev
      ensures Valid() && model == Remove(old(model), netid)
      ensures repr == old(repr) && forall j | 0 <= j < |nodes| :: nodes[j] in old(nodes)
    {
      hide NodesLinked, NodesShow, KidsApart, WellFormed, NodeIndex;
      var node := FindWithNetid(netid);
      ghost var i := NodeIndex(model, netid);
      ShowLength(nodes, model, repr);
      if node != null {
        RemoveKeeps(model, netid);
        DropNode(node, i);
      }
    }

    /** Takes a node off the list. */
    method DropNode(node: MNode, ghost i: nat)
      requires NodesLinked(head, nodes) && NodesShow(nodes, model, repr) && KidsApart(nodes) && i < |nodes| && nodes[i] == node
      modifies this`head, this`nodes, this`model, nodes`next, nodes`prev
      ensures NodesLinked(head, nodes) && NodesShow(nodes, model, repr) && KidsApart(nodes)
      ensures nodes == old(nodes[..i] + nodes[i + 1..])
      ensures i < |old(model)| && model == old(model[..i] + model[i + 1..])
    {
      hide NodesLinked, NodesShow, KidsApart;
      ShowLength(nodes, model, repr);
      ShowCut(nodes, model, repr, i);
      Unlink(node, i);
      model := model[..i] + model[i + 1..];
    }

    /** The walk to the last node. */
    method LastNode() returns (last: MNode?)
      requires NodesLinked(head, nodes)
      ensures last == NodeAt(nodes, |nodes| - 1)
    {
      last := head;
      ghost var i := 0;
      while last != null && last.next != null
        invariant i <= |nodes| && last == NodeAt(nodes, i) && (i > 0 ==> i < |nodes|)
        decreases |nodes| - i
      {
        last := last.next;
        i := i + 1;
      }
    }

    /** Appends a node that is in no list. */
    method LinkLast(node: MNode)
      requires NodesLinked(head, nodes) && node !in nodes && node.next == null && node.prev == null
      modifies this`head, this`nodes, nodes`next, node`prev
      ensures nodes == old(nodes) + [node] && NodesLinked(head, nodes)
    {
      hide NodeAt;
      NodeAtIs(nodes, 0);
      NodeAtIs(nodes, |nodes| - 1);
      var last := LastNode();
      if last != null {
        last.next := node;
        node.prev := last;
      } else {
        head := node;
      }
      ghost var was := nodes;
      nodes := was + [node];
      NodeAtIs(was, |was| - 1);
      NodeAtIs(was, |was|);
      NodesMore(was, node, head);
    }

    /** _snode_insert on a node of the list. */
    method AddKid(node: MNode, info: Scan, ghost i: nat)
      requires NodesLinked(head, nodes) && NodesShow(nodes, model, repr) && KidsApart(nodes) && i < |nodes| && nodes[i] == node
      modifies this`model, this`repr, node`snode, node`kids, repr
      ensures NodesLinked(head, nodes) && NodesShow(nodes, model, repr) && KidsApart(nodes)
      ensures i < |old(model)| && model == old(model)[i := old(model)[i].(kids := InsertKid(old(model)[i].kids, info))]
      ensures fresh(repr - old(repr))
    {
      hide NodeAt, NodesLinked, NodesShow, Apart, Within, InsertKid, MNode.Shows;
      ShowAt(nodes, model, repr, i);
      ghost var ms, r, mine := model, repr, node.kids;
      AllForeign(head, nodes, ms, r, i);
      node.AddKid(info, ms[i]);
      assert forall j | 0 <= j < |node.kids| :: node.kids[j] in mine || node.kids[j] !in r;
      model := ms[i := ms[i].(kids := InsertKid(ms[i].kids, info))];
      repr := r + set k | k in node.kids;
      WithinOwn(node.kids, repr);
      Reassembled(nodes, ms, model, r, repr, i, mine);
    }

    /** zgb_mnode_insert. */
    method Insert(info: Scan, now: word) returns (node: MNode)
      requires Valid()
      modifies this, nodes, repr
      ensures Valid() && model == ZigbeeModel.Insert(old(model), info, now)
      ensures node in nodes && fresh(repr - old(repr)) && forall j | 0 <= j < |nodes| :: nodes[j] in old(nodes) || fresh(nodes[j])
    {
      hide NodesLinked, NodesShow, KidsApart, WellFormed, NodeIndex, NodeAt, MNode.Shows, InsertKid, Refreshed, NewNode, ZigbeeModel.Insert;
      var found := FindWithNetid(info.netid);
      ghost var i := NodeIndex(model, info.netid);
      NodeAtIs(nodes, i);
      ShowLength(nodes, model, repr);
      InsertKeeps(model, info, now);
      ghost var was := model;
      if found == null {
        node := AddNode(info, now);
      } else {
        node := found;
        UpdateNode(node, info, now, i);
      }
      AddKid(node, info, i);
      InsertInTwo(was, info, now);
    }

    /** A new node without child entries, at the end of the list. */
    method AddNode(info: Scan, now: word) returns (node: MNode)
      requires NodesLinked(head, nodes) && NodesShow(nodes, model, repr) && KidsApart(nodes)
      modifies this`head, this`nodes, this`model, nodes`next
      ensures NodesLinked(head, nodes) && NodesShow(nodes, model, repr) && KidsApart(nodes)
      ensures fresh(node) && nodes == old(nodes) + [node] && |old(nodes)| == |old(model)|
      ensures model == old(model) + [NewNode(info, now).(kids := [])]
    {
      hide NodesLinked, NodesShow, KidsApart, MNode.Shows, NewNode;
      ShowLength(nodes, model, repr);
      node := new MNode(info, now);
      ShowMore(nodes, model, repr, node, NewNode(info, now).(kids := []));
      LinkLast(node);
      model := model + [NewNode(info, now).(kids := [])];
    }

    /** Update on a node of the list. */
    method UpdateNode(node: MNode, info: Scan, now: word, ghost i: nat)
      requires NodesLinked(head, nodes) && NodesShow(nodes, model, repr) && KidsApart(nodes) && i < |nodes| && nodes[i] == node
      modifies this`model, node`workmode, node`netid, node`rssi, node`lasttime, node`online, node`uptime, node`offtime
      ensures NodesLinked(head, nodes) && NodesShow(nodes, model, repr) && KidsApart(nodes)
      ensures i < |old(model)| && model == old(model)[i := Refreshed(old(model)[i], info, now).(kids := old(model)[i].kids)]
    {
      hide NodeAt, NodesLinked, NodesShow, MNode.Shows, Apart, Within, Refreshed;
      ShowAt(nodes, model, repr, i);
      ghost var ms := model;
      AllForeign(head, nodes, ms, repr, i);
      node.Update(info, now, ms[i]);
      model := ms[i := Refreshed(ms[i], info, now).(kids := ms[i].kids)];
      Reassembled(nodes, ms, model, repr, repr, i, node.kids);
    }

    /** Takes a node of the list offline. */
    method TakeOffline(node: MNode, offtime: word, ghost i: nat)
      requires NodesLinked(head, nodes) && NodesShow(nodes, model, repr) && KidsApart(nodes) && i < |nodes| && nodes[i] == node
      modifies this`model, node`online, node`offtime
      ensures NodesLinked(head, nodes) && NodesShow(nodes, model, repr) && KidsApart(nodes)
      ensures i < |old(model)| && model == old(model)[i := old(model)[i].(online := false, offtime := offtime)]
    {
      hide NodeAt, NodesLinked, NodesShow, MNode.Shows, Apart, Within;
      ShowAt(nodes, model, repr, i);
      ghost var ms := model;
      AllForeign(head, nodes, ms, repr, i);
      node.GoOffline(offtime, ms[i]);
      model := ms[i := ms[i].(online := false, offtime := offtime)];
      Reassembled(nodes, ms, model, repr, repr, i, node.kids);
    }

    /** The loop body of zgb_check_online; next is the node behind. */
    method CheckOne(node: MNode, now: word, step: word, ghost i: nat) returns (next: MNode?)
      requires NodesLinked(head, nodes) && NodesShow(nodes, model, repr) && KidsApart(nodes) && i < |nodes| && nodes[i] == node
      modifies this`head, this`nodes, this`model, node`online, node`offtime, nodes`next, nodes`prev
      ensures NodesLinked(head, nodes) && NodesShow(nodes, model, repr) && KidsApart(nodes)
      ensures i < |old(model)| == |old(nodes)|
      ensures model == old(model)[..i] + CheckNode(old(model)[i], now, step) + old(model)[i + 1..]
      ensures nodes == if CheckNode(old(model)[i], now, step) == [] then old(nodes[..i] + nodes[i + 1..]) else old(nodes)
      ensures next == NodeAt(nodes, i + |CheckNode(old(model)[i], now, step)|)
    {
      hide NodesLinked, NodesShow, KidsApart, NodeAt, MNode.HasKids;
      ShowAt(nodes, model, repr, i);
      ShowLength(nodes, model, repr);
      NextOf(head, nodes, i);
      next := node.next;
      ghost var was := model;
      assert model == model[..i] + [model[i]] + model[i + 1..];
      if node.online {
        if node.lasttime > now || now - node.lasttime >= step * 4 % WORD {
          TakeOffline(node, (now - step * 3) % WORD, i);
          assert model == was[..i] + [model[i]] + was[i + 1..];
        }
      } else if (now - node.offtime) % WORD >= step * 10 % WORD {
        NodeAtCut(nodes, i, i);
        ShowCut(nodes, model, repr, i);
        Unlink(node, i);
        model := was[..i] + was[i + 1..];
        assert was[..i] + [] + was[i + 1..] == model;
      }
    }

    /** zgb_check_online. */
    method CheckOnline(now: word, step: word)
      requires Valid()
      modifies this, nodes
      ensures Valid() && model == ZigbeeModel.CheckOnline(old(model), now, step)
      ensures repr == old(repr) && forall j | 0 <= j < |nodes| :: nodes[j] in old(nodes)
    {
      hide NodesLinked, NodesShow, KidsApart, WellFormed, NodeAt, CheckNode, ZigbeeModel.CheckOnline, Halfway;
      ghost var ms, all := model, nodes;
      ghost var i: nat, k: nat := 0, 0;
      CheckKeeps(ms, now, step);
      FirstOf(head, nodes);
      ShowLength(nodes, model, repr);
      HalfwayStart(ms, now, step);
      var node := head;
      while node != null
        invariant NodesLinked(head, nodes) && NodesShow(nodes, model, repr) && KidsApart(nodes) && repr == old(repr)
        invariant forall j | 0 <= j < |nodes| :: nodes[j] in all
        invariant |nodes| == |model| && Halfway(ms, model, now, step, k, i) && node == NodeAt(nodes, i)
        decreases |ms| - k
      {
        NodeAtIs(nodes, i);
        HalfwayNext(ms, model, now, step, k, i);
        node := CheckOne(node, now, step, i);
        i := i + |CheckNode(ms[k], now, step)|;
        k := k + 1;
        ShowLength(nodes, model, repr);
      }
      NodeAtIs(nodes, i);
      HalfwayEnd(ms, model, now, step, k, i);
    }
  }

  /** The first k nodes are checked, and i of the list are what is left of them. */
  ghost predicate Halfway(ms: seq<Node>, model: seq<Node>, now: word, step: word, k: nat, i: nat) {
    && k <= |ms| && i == |ZigbeeModel.CheckOnline(ms[..k], now, step)|
    && model == ZigbeeModel.CheckOnline(ms[..k], now, step) + ms[k..]
  }

  lemma HalfwayStart(ms: seq<Node>, now: word, step: word)
    ensures Halfway(ms, ms, now, step, 0, 0)
  {
    assert ms[..0] == [] && [] + ms == ms;
  }

  lemma HalfwayNext(ms: seq<Node>, model: seq<Node>, now: word, step: word, k: nat, i: nat)
    requires Halfway(ms, model, now, step, k, i) && i < |model|
    ensures k < |ms| && model[i] == ms[k]
    ensures Halfway(ms, model[..i] + CheckNode(model[i], now, step) + model[i + 1..], now, step, k + 1, i + |CheckNode(ms[k], now, step)|)
  {
    hide CheckNode, ZigbeeModel.CheckOnline;
    CheckMore(ms, k, now, step);
    assert model[..i] == ZigbeeModel.CheckOnline(ms[..k], now, step) && model[i + 1..] == ms[k + 1..];
  }

  lemma HalfwayEnd(ms: seq<Node>, model: seq<Node>, now: word, step: word, k: nat, i: nat)
    requires Halfway(ms, model, now, step, k, i) && i >= |model|
    ensures model == ZigbeeModel.CheckOnline(ms, now, step)
  {
    hide ZigbeeModel.CheckOnline;
    assert k == |ms| && ms[..k] == ms;
  }

  lemma NextOf(first: MNode?, s: seq<MNode>, i: nat)
    requires NodesLinked(first, s) && i < |s|
    ensures s[i].next == NodeAt(s, i + 1)
  {
  }

  lemma FirstOf(first: MNode?, s: seq<MNode>)
    requires NodesLinked(first, s)
    ensures first == NodeAt(s, 0)
  {
  }

  lemma {:induction false} CheckMore(ms: seq<Node>, k: nat, now: word, step: word)
    requires k < |ms|
    ensures ZigbeeModel.CheckOnline(ms[..k + 1], now, step) == ZigbeeModel.CheckOnline(ms[..k], now, step) + CheckNode(ms[k], now, step)
  {
    hide CheckNode;
    if k == 0 {
      assert ms[..1][1..] == [];
    } else {
      CheckMore(ms[1..], k - 1, now, step);
      assert ms[..k + 1][1..] == ms[1..][..k] && ms[..k][1..] == ms[1..][..k - 1];
    }
  }

  /** zgb_mnode_insert on values, first without the child entry. */
  lemma InsertInTwo(ms: seq<Node>, info: Scan, now: word)
    ensures
      var i := NodeIndex(ms, info.netid);
      var mid :=
        if i < |ms| then ms[i := Refreshed(ms[i], info, now).(kids := ms[i].kids)]
        else ms + [NewNode(info, now).(kids := [])];
      ZigbeeModel.Insert(ms, info, now) == mid[i := mid[i].(kids := InsertKid(mid[i].kids, info))]
  {
    hide NodeIndex, InsertKid;
    NodeIndexFinds(ms, info.netid);
  }

  lemma ShowMore(s: seq<MNode>, ms: seq<Node>, r: set<SNode>, node: MNode, m: Node)
    requires NodesShow(s, ms, r) && KidsApart(s) && node.Shows(m) && node.kids == []
    ensures NodesShow(s + [node], ms + [m], r) && KidsApart(s + [node])
  {
    hide MNode.Shows;
  }

  /** The others as they were, and node i with its new value and child entries. */
  lemma Reassembled(s: seq<MNode>, ms: seq<Node>, ms': seq<Node>, r: set<SNode>, r': set<SNode>, i: nat, mine: seq<SNode>)
    requires |s| == |ms| && i < |s| && |ms'| == |ms| && ms' == ms[i := ms'[i]] && r <= r'
    requires s[i].Shows(ms'[i]) && Within(s[i].kids, r')
    requires forall j | 0 <= j < |s| && j != i :: Foreign(s[j], s[i], mine) && Within(s[j].kids, r) && s[j].Shows(ms[j])
    requires forall j, k | 0 <= j < k < |s| && j != i && k != i :: Apart(s[j].kids, s[k].kids)
    requires forall x | 0 <= x < |s[i].kids| :: s[i].kids[x] in mine || s[i].kids[x] !in r
    ensures NodesShow(s, ms', r') && KidsApart(s)
  {
    hide MNode.Shows, Apart, Within;
    forall j | 0 <= j < |s| && j != i
      ensures Within(s[j].kids, r') && Apart(s[j].kids, s[i].kids) && Apart(s[i].kids, s[j].kids)
    {
      assert Foreign(s[j], s[i], mine);
      StillApart(s[j].kids, mine, s[i].kids, r);
      WithinMore(s[j].kids, r, r');
    }
  }

  /** A node other than this one, with child entries of its own. */
  ghost predicate Foreign(n: MNode, node: MNode, mine: seq<SNode>)
    reads n`kids
  {
    n != node && (forall x | 0 <= x < |n.kids| :: n.kids[x] !in mine) && (Apart(n.kids, mine) || Apart(mine, n.kids))
  }

  lemma AllForeign(first: MNode?, s: seq<MNode>, ms: seq<Node>, r: set<SNode>, i: nat)
    requires NodesLinked(first, s) && NodesShow(s, ms, r) && KidsApart(s) && i < |s|
    ensures |ms| == |s|
    ensures forall j | 0 <= j < |s| && j != i :: Foreign(s[j], s[i], s[i].kids) && Within(s[j].kids, r) && s[j].Shows(ms[j])
  {
    hide NodeAt, MNode.Shows, Apart, Within;
    forall j | 0 <= j < |s| && j != i
      ensures Foreign(s[j], s[i], s[i].kids)
    {
      assert Apart(s[j].kids, s[i].kids) || Apart(s[i].kids, s[j].kids);
      ForeignKids(s[j].kids, s[i].kids);
    }
  }

  lemma ForeignKids(a: seq<SNode>, b: seq<SNode>)
    requires Apart(a, b) || Apart(b, a)
    ensures forall x | 0 <= x < |a| :: a[x] !in b
  {
  }

  lemma WithinOwn(kids: seq<SNode>, r: set<SNode>)
    requires forall k | k in kids :: k in r
    ensures Within(kids, r)
  {
  }

  /** Entries apart from those of another node stay apart when the other gains new ones. */
  lemma StillApart(a: seq<SNode>, b: seq<SNode>, b': seq<SNode>, r: set<SNode>)
    requires Within(a, r) && (Apart(a, b) || Apart(b, a))
    requires forall j | 0 <= j < |b'| :: b'[j] in b || b'[j] !in r
    ensures Apart(a, b') && Apart(b', a)
  {
  }

  lemma WithinMore(a: seq<SNode>, r: set<SNode>, r': set<SNode>)
    requires Within(a, r) && r <= r'
    ensures Within(a, r')
  {
  }

  lemma ShowAt(s: seq<MNode>, ms: seq<Node>, r: set<SNode>, i: nat)
    requires NodesShow(s, ms, r) && i < |s|
    ensures i < |ms| && s[i].Shows(ms[i]) && Within(s[i].kids, r) && forall k | k in s[i].kids :: k in r
  {
  }

  lemma ShowLength(s: seq<MNode>, ms: seq<Node>, r: set<SNode>)
    requires NodesShow(s, ms, r)
    ensures |s| == |ms|
  {
  }

  lemma {:induction false} FirstWithId(ms: seq<Node>, netid: nat, i: nat)
    requires i < |ms| && ms[i].netid == netid && forall j | 0 <= j < i :: ms[j].netid != netid
    ensures NodeIndex(ms, netid) == i
  {
  }

  lemma FirstWithAddr(ms: seq<Node>, kind: byte, addr: int, i: nat)
    requires i < |ms| && Lists(ms[i].kids, kind, addr) && forall j | 0 <= j < i :: !Lists(ms[j].kids, kind, addr)
    ensures AddrIndex(ms, kind, addr) == i
  {
    hide Lists;
  }

  lemma NoneWithAddr(ms: seq<Node>, kind: byte, addr: int)
    requires forall j | 0 <= j < |ms| :: !Lists(ms[j].kids, kind, addr)
    ensures AddrIndex(ms, kind, addr) == |ms|
  {
    hide Lists;
  }

  lemma NoneWithId(ms: seq<Node>, netid: nat)
    requires forall j | 0 <= j < |ms| :: ms[j].netid != netid
    ensures NodeIndex(ms, netid) == |ms|
  {
  }

  /** A registry driven through any run, with time(0) as its clock: its lists are well linked and
      show the nodes of the model, so every node heard of lately is among them. */
  method Play(start: nat, es: seq<Event>, step: word) returns (registry: Registry, num: nat)
    ensures fresh(registry) && registry.Valid() && registry.model == Run(Empty(start), es, step).ms
    ensures num == |registry.model|
    ensures var w := Run(Empty(start), es, step);
            w.now < WORD && 10 * step < WORD ==>
              forall netid | netid in w.reports && w.now < w.reports[netid] + 11 * step ::
                Registered(registry.model, netid, w.reports[netid])
    ensures Run(Empty(start), es, step).now < WORD && 10 * step < WORD ==>
              forall netid: nat, kind: byte, addr: int |
                ZigbeeReports.Modbus(kind) && ZigbeeReports.Recent(start, es, step, netid, kind, addr) ::
                AddrIndex(registry.model, kind, addr) < |registry.model|
  {
    hide Registry.Valid, ZigbeeModel.Next, Run, Clock, Registered, ZigbeeReports.Recent;
    ClockIs();
    registry := new Registry();
    var now := start;
    ghost var w := Empty(start);
    NoEvents(w, step);
    assert es[..0] == [];
    for k := 0 to |es|
      invariant w == Run(Empty(start), es[..k], step)
      invariant now == w.now
      invariant registry.model == w.ms
      invariant registry.Valid() && fresh(registry) && fresh(registry.nodes) && fresh(registry.repr)
    {
      RunMore(Empty(start), es, k, step);
      NextIs(w, es[k], step);
      match es[k] {
        case Report(info) => var _ := registry.Insert(info, now % WORD);
        case RemoveId(netid) => registry.RmWithId(netid);
        case Check => registry.CheckOnline(now % WORD, step);
        case Tick(seconds) => now := now + seconds;
      }
      w := Next(w, es[k], step);
    }
    assert es[..|es|] == es;
    num := registry.Num();
    if w.now < WORD && 10 * step < WORD {
      forall netid | netid in w.reports && w.now < w.reports[netid] + 11 * step
        ensures Registered(w.ms, netid, w.reports[netid])
      {
        HeardNodesStay(start, es, step, netid);
      }
      forall netid: nat, kind: byte, addr: int |
        ZigbeeReports.Modbus(kind) && ZigbeeReports.Recent(start, es, step, netid, kind, addr)
        ensures AddrIndex(w.ms, kind, addr) < |w.ms|
      {
        ZigbeeReports.ReportedAddressFound(start, es, step, netid, kind, addr);
      }
    }
  }

  lemma RunMore(w: World, es: seq<Event>, k: nat, step: word)
    requires k < |es|
    ensures Run(w, es[..k + 1], step) == Next(Run(w, es[..k], step), es[k], step)
  {
    hide ZigbeeModel.Next;
    assert es[..k + 1][..k] == es[..k];
  }

  lemma NoEvents(w: World, step: word)
    ensures Run(w, [], step) == w
  {
  }

  lemma ClockIs()
    ensures forall w: World :: Clock(w) == w.now % WORD
  {
  }

  lemma NextIs(w: World, e: Event, step: word)
    ensures Next(w, e, step).ms == match e
      case Report(info) => ZigbeeModel.Insert(w.ms, info, Clock(w))
      case RemoveId(netid) => Remove(w.ms, netid)
      case Check => ZigbeeModel.CheckOnline(w.ms, Clock(w), step)
      case Tick(_) => w.ms
    ensures Next(w, e, step).now == match e case Tick(seconds) => w.now + seconds case _ => w.now
  {
  }
}
