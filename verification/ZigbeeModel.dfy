/**
 The node registry of board/zgb_std.c on values: nodes in list order, each with its child entries.
 Times are 32-bit seconds.
 */
module ZigbeeModel {
  import opened Common

  /** Mirrors zgb_snode_t. */
  datatype Kid = Kid(kind: byte, addrs: seq<byte>)

  /** Mirrors zgb_mnode_t. */
  datatype Node = Node(workmode: byte, netid: nat, mac: seq<byte>, online: bool, rssi: byte,
                       uptime: word, lasttime: word, offtime: word, kids: seq<Kid>)

  /** Mirrors zgb_std_scan_t: what a node reports; cnt is |data|. */
  datatype Scan = Scan(workmode: byte, netid: nat, mac: seq<byte>, rssi: byte, kind: byte, data: seq<byte>)

  // ---------------------------------------------------------------- child entries

  /** The first entry of a type, or the length. */
  function KidIndex(kids: seq<Kid>, kind: byte): (k: nat)
    ensures k <= |kids| && (k < |kids| ==> kids[k].kind == kind)
    ensures forall i | 0 <= i < k :: kids[i].kind != kind
  {
    if kids == [] || kids[0].kind == kind then 0 else 1 + KidIndex(kids[1..], kind)
  }

  /** _snode_rm_one. */
  function WithoutKind(kids: seq<Kid>, kind: byte): seq<Kid> {
    var k := KidIndex(kids, kind);
    if k < |kids| then kids[..k] + kids[k + 1..] else kids
  }

  /** The addresses that _snode_insert stores: those of the report for the two Modbus types, zeros otherwise. */
  function KidOf(info: Scan): Kid {
    Kid(info.kind, if info.kind <= 1 then info.data else seq(|info.data|, _ => 0))
  }

  /** _snode_insert. */
  function InsertKid(kids: seq<Kid>, info: Scan): seq<Kid> {
    WithoutKind(kids, info.kind) + [KidOf(info)]
  }

  // ---------------------------------------------------------------- nodes

  function NodeIndex(ms: seq<Node>, netid: nat): (k: nat)
    ensures k <= |ms| && (k < |ms| ==> ms[k].netid == netid)
    ensures forall i | 0 <= i < k :: ms[i].netid != netid
  {
    if ms == [] || ms[0].netid == netid then 0 else 1 + NodeIndex(ms[1..], netid)
  }

  function NewNode(info: Scan, now: word): Node {
    Node(info.workmode, info.netid, info.mac, true, info.rssi, now, now, 0, InsertKid([], info))
  }

  function Refreshed(m: Node, info: Scan, now: word): Node {
    m.(workmode := info.workmode, netid := info.netid, rssi := info.rssi, lasttime := now, online := true,
       uptime := if m.online then m.uptime else now, offtime := if m.online then m.offtime else 0,
       kids := InsertKid(m.kids, info))
  }

  /** zgb_mnode_insert. */
  function Insert(ms: seq<Node>, info: Scan, now: word): seq<Node> {
    var k := NodeIndex(ms, info.netid);
    if k < |ms| then ms[k := Refreshed(ms[k], info, now)] else ms + [NewNode(info, now)]
  }

  /** zgb_mnode_rm_with_id. */
  function Remove(ms: seq<Node>, netid: nat): seq<Node> {
    var k := NodeIndex(ms, netid);
    if k < |ms| then ms[..k] + ms[k + 1..] else ms
  }

  /** What zgb_check_online makes of a node: none if it is removed. */
  function CheckNode(m: Node, now: word, step: word): (r: seq<Node>)
    ensures |r| <= 1 && (r != [] ==> r[0].netid == m.netid && r[0].kids == m.kids && r[0].lasttime == m.lasttime)
  {
    if m.online then
      if m.lasttime > now || now - m.lasttime >= step * 4 % WORD
      then [m.(online := false, offtime := (now - step * 3) % WORD)]
      else [m]
    else if (now - m.offtime) % WORD >= step * 10 % WORD then []
    else [m]
  }

  /** zgb_check_online. */
  function CheckOnline(ms: seq<Node>, now: word, step: word): (r: seq<Node>)
    ensures |r| <= |ms|
  {
    if ms == [] then [] else CheckNode(ms[0], now, step) + CheckOnline(ms[1..], now, step)
  }

  /** _snode_find_with_addr finds something. */
  predicate Lists(kids: seq<Kid>, kind: byte, addr: int) {
    exists k :: 0 <= k < |kids| && kids[k].kind == kind && addr in kids[k].addrs
  }

  /** The first node that lists an address for a type, or the length. */
  function AddrIndex(ms: seq<Node>, kind: byte, addr: int): (k: nat)
    ensures k <= |ms| && (k < |ms| ==> Lists(ms[k].kids, kind, addr))
    ensures forall i | 0 <= i < k :: !Lists(ms[i].kids, kind, addr)
  {
    if ms == [] || Lists(ms[0].kids, kind, addr) then 0 else 1 + AddrIndex(ms[1..], kind, addr)
  }

  // ---------------------------------------------------------------- well-formed registries

  predicate OnePerType(kids: seq<Kid>) {
    forall i, j | 0 <= i < j < |kids| :: kids[i].kind != kids[j].kind
  }

  /** Network addresses are unique, and every node has at most one child entry per type. */
  predicate WellFormed(ms: seq<Node>) {
    && (forall i, j | 0 <= i < j < |ms| :: ms[i].netid != ms[j].netid)
    && (forall i | 0 <= i < |ms| :: OnePerType(ms[i].kids))
  }

  lemma InsertKidKeeps(kids: seq<Kid>, info: Scan)
    requires OnePerType(kids)
    ensures OnePerType(InsertKid(kids, info))
  {
    var k := KidIndex(kids, info.kind);
    var w := WithoutKind(kids, info.kind);
    assert forall i | 0 <= i < |w| :: w[i] == kids[if i < k then i else i + 1];
  }

  lemma InsertKeeps(ms: seq<Node>, info: Scan, now: word)
    requires WellFormed(ms)
    ensures WellFormed(Insert(ms, info, now))
  {
    hide OnePerType, InsertKid;
    var k := NodeIndex(ms, info.netid);
    NoKids();
    InsertKidKeeps(if k < |ms| then ms[k].kids else [], info);
  }

  lemma NoKids()
    ensures OnePerType([])
  {
  }

  lemma RemoveKeeps(ms: seq<Node>, netid: nat)
    requires WellFormed(ms)
    ensures WellFormed(Remove(ms, netid))
  {
    hide OnePerType;
    var k := NodeIndex(ms, netid);
    var w := Remove(ms, netid);
    assert forall i | 0 <= i < |w| :: w[i] == ms[if i < k then i else i + 1];
  }

  /** Every node after the check stems from one before it, in the same order. */
  lemma {:induction false} CheckFrom(ms: seq<Node>, now: word, step: word, i: nat) returns (j: nat)
    requires i < |CheckOnline(ms, now, step)|
    ensures i <= j < |ms| && CheckNode(ms[j], now, step) == [CheckOnline(ms, now, step)[i]]
  {
    hide CheckNode;
    var head := CheckNode(ms[0], now, step);
    if i < |head| {
      j := 0;
    } else {
      j := CheckFrom(ms[1..], now, step, i - |head|);
      j := j + 1;
    }
  }

  lemma {:induction false} CheckKeeps(ms: seq<Node>, now: word, step: word)
    requires WellFormed(ms)
    ensures WellFormed(CheckOnline(ms, now, step))
  {
    hide OnePerType, CheckNode;
    if ms != [] {
      CheckKeeps(ms[1..], now, step);
      var head, tail := CheckNode(ms[0], now, step), CheckOnline(ms[1..], now, step);
      forall i | 0 <= i < |tail| && head != []
        ensures tail[i].netid != head[0].netid
      {
        var j := CheckFrom(ms[1..], now, step, i);
      }
    }
  }

  // ---------------------------------------------------------------- runs

  /** The registry, the clock, and for every address the time of its last report since it was
      last removed by zgb_mnode_rm_with_id. */
  datatype World = World(ms: seq<Node>, now: nat, reports: map<nat, nat>)

  datatype Event = Report(info: Scan) | RemoveId(netid: nat) | Check | Tick(seconds: nat)

  /** time(0) as the code keeps it. */
  function Clock(w: World): word {
    w.now % WORD
  }

  function Next(w: World, e: Event, step: word): World {
    match e
    case Report(info) => w.(ms := Insert(w.ms, info, Clock(w)), reports := w.reports[info.netid := w.now])
    case RemoveId(netid) => w.(ms := Remove(w.ms, netid), reports := w.reports - {netid})
    case Check => w.(ms := CheckOnline(w.ms, Clock(w), step))
    case Tick(seconds) => w.(now := w.now + seconds)
  }

  function Run(w: World, es: seq<Event>, step: word): World {
    if es == [] then w else Next(Run(w, es[..|es| - 1], step), es[|es| - 1], step)
  }

  /** A node last heard of at time t is in the registry. */
  ghost predicate Registered(ms: seq<Node>, netid: nat, t: nat) {
    exists i :: 0 <= i < |ms| && ms[i].netid == netid && ms[i].lasttime == t
  }

  /** Clock readings in a node, for a learn step: offline only a learn step or more after the last report. */
  predicate Timely(m: Node, now: nat, step: nat) {
    m.lasttime <= now && (!m.online ==> m.lasttime + step <= m.offtime <= now)
  }

  ghost predicate Inv(w: World, step: nat) {
    && WellFormed(w.ms)
    && (forall i | 0 <= i < |w.ms| :: Timely(w.ms[i], w.now, step))
    && (forall n | n in w.reports :: w.reports[n] <= w.now)
    && (forall n | n in w.reports :: Registered(w.ms, n, w.reports[n]) || w.reports[n] + 11 * step <= w.now)
  }

  lemma ReportKeeps(w: World, info: Scan, step: word)
    requires Inv(w, step) && w.now < WORD
    ensures Inv(Next(w, Report(info), step), step)
  {
    hide WellFormed, InsertKid, NodeIndex;
    InsertKeeps(w.ms, info, w.now);
    var k := NodeIndex(w.ms, info.netid);
    NodeIndexFinds(w.ms, info.netid);
    var ms := Insert(w.ms, info, w.now);
    assert ms[k].netid == info.netid && ms[k].lasttime == w.now;
    forall n | n in w.reports && n != info.netid && Registered(w.ms, n, w.reports[n])
      ensures Registered(ms, n, w.reports[n])
    {
      var i :| 0 <= i < |w.ms| && w.ms[i].netid == n && w.ms[i].lasttime == w.reports[n];
      assert ms[i] == w.ms[i];
    }
  }

  lemma NodeIndexFinds(ms: seq<Node>, netid: nat)
    ensures NodeIndex(ms, netid) <= |ms|
    ensures NodeIndex(ms, netid) < |ms| ==> ms[NodeIndex(ms, netid)].netid == netid
  {
  }

  lemma RemoveIdKeeps(w: World, netid: nat, step: word)
    requires Inv(w, step)
    ensures Inv(Next(w, RemoveId(netid), step), step)
  {
    hide WellFormed, NodeIndex;
    RemoveKeeps(w.ms, netid);
    var k := NodeIndex(w.ms, netid);
    NodeIndexFinds(w.ms, netid);
    var ms := Remove(w.ms, netid);
    assert forall i | 0 <= i < |ms| :: ms[i] == w.ms[if i < k then i else i + 1];
    forall n | n in w.reports && n != netid && Registered(w.ms, n, w.reports[n])
      ensures Registered(ms, n, w.reports[n])
    {
      var i :| 0 <= i < |w.ms| && w.ms[i].netid == n && w.ms[i].lasttime == w.reports[n];
      assert ms[if i < k then i else i - 1] == w.ms[i];
    }
  }

  /** A node that the check drops was last heard of eleven learn steps ago or more; one that it
      keeps stays timely. */
  lemma CheckTimely(m: Node, now: word, step: word)
    requires Timely(m, now, step) && 10 * step < WORD
    ensures CheckNode(m, now, step) == [] ==> m.lasttime + 11 * step <= now
    ensures CheckNode(m, now, step) != [] ==> Timely(CheckNode(m, now, step)[0], now, step)
  {
  }

  /** A node that the check keeps is still in the list. */
  lemma {:induction false} CheckHas(ms: seq<Node>, now: word, step: word, j: nat)
    requires j < |ms| && CheckNode(ms[j], now, step) != []
    ensures CheckNode(ms[j], now, step)[0] in CheckOnline(ms, now, step)
  {
    hide CheckNode;
    if j > 0 {
      CheckHas(ms[1..], now, step, j - 1);
    }
  }

  lemma CheckEventKeeps(w: World, step: word)
    requires Inv(w, step) && w.now < WORD && 10 * step < WORD
    ensures Inv(Next(w, Check, step), step)
  {
    hide WellFormed, CheckNode, Timely, CheckOnline;
    CheckKeeps(w.ms, w.now, step);
    var ms := CheckOnline(w.ms, w.now, step);
    forall i | 0 <= i < |ms|
      ensures Timely(ms[i], w.now, step)
    {
      var j := CheckFrom(w.ms, w.now, step, i);
      CheckTimely(w.ms[j], w.now, step);
    }
    forall n | n in w.reports && w.now < w.reports[n] + 11 * step
      ensures Registered(ms, n, w.reports[n])
    {
      var j :| 0 <= j < |w.ms| && w.ms[j].netid == n && w.ms[j].lasttime == w.reports[n];
      CheckTimely(w.ms[j], w.now, step);
      CheckHas(w.ms, w.now, step, j);
      var i :| 0 <= i < |ms| && ms[i] == CheckNode(w.ms[j], w.now, step)[0];
    }
  }

  lemma NextKeeps(w: World, e: Event, step: word)
    requires Inv(w, step) && w.now < WORD && 10 * step < WORD
    ensures Inv(Next(w, e, step), step)
  {
    hide WellFormed, Registered;
    match e
    case Report(info) => ReportKeeps(w, info, step);
    case RemoveId(netid) => RemoveIdKeeps(w, netid, step);
    case Check => CheckEventKeeps(w, step);
    case Tick(seconds) =>
  }

  lemma {:induction false} RunKeeps(w: World, es: seq<Event>, step: word)
    requires Inv(w, step) && Run(w, es, step).now < WORD && 10 * step < WORD
    ensures Inv(Run(w, es, step), step)
  {
    hide Inv, CheckOnline, Insert, Remove;
    if es != [] {
      RunKeeps(w, es[..|es| - 1], step);
      NextKeeps(Run(w, es[..|es| - 1], step), es[|es| - 1], step);
    }
  }

  /** An empty registry. */
  function Empty(start: nat): World {
    World([], start, map[])
  }

  /** In every run with a clock that never goes back, network addresses stay unique, a node has at
      most one child entry per type, and a node that reported less than eleven learn steps ago,
      and was not removed by its address since, is in the registry. */
  lemma HeardNodesStay(start: nat, es: seq<Event>, step: word, netid: nat)
    requires Run(Empty(start), es, step).now < WORD && 10 * step < WORD
    ensures
      var w := Run(Empty(start), es, step);
      && WellFormed(w.ms)
      && (netid in w.reports && w.now < w.reports[netid] + 11 * step ==> Registered(w.ms, netid, w.reports[netid]))
  {
    hide Run, Registered;
    RunKeeps(Empty(start), es, step);
  }

  /** Eleven learn steps is the exact bound: a check then may remove the node. */
  lemma RemovedAtEleven(info: Scan, start: nat, step: word)
    requires step > 0 && start + 11 * step < WORD
    ensures
      var es := [Report(info), Tick(4 * step), Check, Tick(7 * step), Check];
      var w := Run(Empty(start), es, step);
      w.ms == [] && w.reports == map[info.netid := start] && w.now == start + 11 * step
  {
    hide InsertKid, CheckOnline, CheckNode, Run;
    var w0, m := Empty(start), NewNode(info, start);
    var w1 := Next(w0, Report(info), step);
    assert w1.ms == [m];
    var w2 := Next(w1, Tick(4 * step), step);
    var w3 := Next(w2, Check, step);
    GoesOffline(m, start, step);
    var w4 := Next(w3, Tick(7 * step), step);
    IsDropped(m.(online := false, offtime := start + step), start, step);
    FiveEvents(w0, Report(info), Tick(4 * step), Check, Tick(7 * step), Check, step);
  }

  lemma GoesOffline(m: Node, start: nat, step: word)
    requires m.online && m.lasttime == start && step > 0 && start + 11 * step < WORD
    ensures CheckOnline([m], start + 4 * step, step) == [m.(online := false, offtime := start + step)]
  {
    assert [m][1..] == [];
  }

  lemma IsDropped(m: Node, start: nat, step: word)
    requires !m.online && m.offtime == start + step && start + 11 * step < WORD
    ensures CheckOnline([m], start + 11 * step, step) == []
  {
    assert [m][1..] == [];
  }

  lemma FiveEvents(w: World, a: Event, b: Event, c: Event, d: Event, e: Event, step: word)
    ensures Run(w, [a, b, c, d, e], step) == Next(Next(Next(Next(Next(w, a, step), b, step), c, step), d, step), e, step)
  {
    hide Next;
    var es := [a, b, c, d, e];
    assert es[..4][..3] == es[..3] && es[..3][..2] == es[..2] && es[..2][..1] == es[..1] && es[..1][..0] == [];
    assert Run(w, [], step) == w;
    assert Run(w, es[..1], step) == Next(w, a, step);
    assert Run(w, es[..2], step) == Next(Run(w, es[..1], step), b, step);
    assert Run(w, es[..3], step) == Next(Run(w, es[..2], step), c, step);
    assert Run(w, es[..4], step) == Next(Run(w, es[..3], step), d, step);
  }
}
