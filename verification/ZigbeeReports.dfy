/**
 What the registry keeps of the reports: the device addresses that the Modbus gateway looks up, and
 whether a node counts as online.
 */
module ZigbeeReports {
  import opened Common
  import opened ZigbeeModel

  /** The two types whose device addresses are stored. */
  predicate Modbus(kind: byte) {
    kind <= 1
  }

  /** The entries of a type list exactly the addresses of data. */
  ghost predicate ListsExactly(kids: seq<Kid>, kind: byte, data: seq<byte>) {
    forall addr: int :: Lists(kids, kind, addr) <==> addr in data
  }

  // ---------------------------------------------------------------- one report

  lemma WithoutKindLists(kids: seq<Kid>, kind: byte, other: byte, addr: int)
    requires OnePerType(kids)
    ensures Lists(WithoutKind(kids, kind), other, addr) <==> other != kind && Lists(kids, other, addr)
  {
    hide Lists, WithoutKind, OnePerType, KidIndex;
    if Lists(WithoutKind(kids, kind), other, addr) {
      StillLists(kids, kind, other, addr);
    }
    if other != kind && Lists(kids, other, addr) {
      OthersList(kids, kind, other, addr);
    }
  }

  lemma StillLists(kids: seq<Kid>, kind: byte, other: byte, addr: int)
    requires OnePerType(kids) && Lists(WithoutKind(kids, kind), other, addr)
    ensures other != kind && Lists(kids, other, addr)
  {
    var k, w := KidIndex(kids, kind), WithoutKind(kids, kind);
    var i :| 0 <= i < |w| && w[i].kind == other && addr in w[i].addrs;
    assert w[i] == kids[if i < k then i else i + 1];
  }

  lemma OthersList(kids: seq<Kid>, kind: byte, other: byte, addr: int)
    requires other != kind && Lists(kids, other, addr)
    ensures Lists(WithoutKind(kids, kind), other, addr)
  {
    var k, w := KidIndex(kids, kind), WithoutKind(kids, kind);
    var i :| 0 <= i < |kids| && kids[i].kind == other && addr in kids[i].addrs;
    assert i != k;
    assert w[if i < k then i else i - 1] == kids[i];
  }

  lemma ListsMore(kids: seq<Kid>, kid: Kid, kind: byte, addr: int)
    ensures Lists(kids + [kid], kind, addr) <==> Lists(kids, kind, addr) || (kid.kind == kind && addr in kid.addrs)
  {
    var w := kids + [kid];
    if Lists(w, kind, addr) {
      var i :| 0 <= i < |w| && w[i].kind == kind && addr in w[i].addrs;
      assert w[i] == if i < |kids| then kids[i] else kid;
    }
    if Lists(kids, kind, addr) {
      var i :| 0 <= i < |kids| && kids[i].kind == kind && addr in kids[i].addrs;
      assert w[i] == kids[i];
    }
    assert w[|kids|] == kid;
  }

  /** A report replaces what its node lists for its type, and nothing else. */
  lemma InsertKidLists(kids: seq<Kid>, info: Scan, kind: byte, addr: int)
    requires OnePerType(kids)
    ensures kind != info.kind ==> (Lists(InsertKid(kids, info), kind, addr) <==> Lists(kids, kind, addr))
    ensures Modbus(info.kind) ==> (Lists(InsertKid(kids, info), info.kind, addr) <==> addr in info.data)
  {
    hide Lists, WithoutKind, OnePerType;
    WithoutKindLists(kids, info.kind, kind, addr);
    WithoutKindLists(kids, info.kind, info.kind, addr);
    ListsMore(WithoutKind(kids, info.kind), KidOf(info), kind, addr);
    ListsMore(WithoutKind(kids, info.kind), KidOf(info), info.kind, addr);
  }

  /** What a report changes: its node, which it puts at the end if there was none, carries what was
      reported and is online; every other node stays. */
  lemma InsertCarries(ms: seq<Node>, info: Scan, now: word)
    requires WellFormed(ms)
    ensures var k, ms' := NodeIndex(ms, info.netid), Insert(ms, info, now);
            && |ms'| == (if k < |ms| then |ms| else |ms| + 1) && k < |ms'|
            && (forall i | 0 <= i < |ms| && i != k :: ms'[i] == ms[i])
            && ms'[k].netid == info.netid && ms'[k].workmode == info.workmode && ms'[k].rssi == info.rssi
            && ms'[k].online && ms'[k].lasttime == now
            && ms'[k].mac == (if k < |ms| then ms[k].mac else info.mac)
            && ms'[k].uptime == (if k < |ms| && ms[k].online then ms[k].uptime else now)
            && ms'[k].offtime == (if k < |ms| && ms[k].online then ms[k].offtime else 0)
            && (Modbus(info.kind) ==> ListsExactly(ms'[k].kids, info.kind, info.data))
            && (forall kind: byte, addr: int | kind != info.kind ::
                  Lists(ms'[k].kids, kind, addr) <==> k < |ms| && Lists(ms[k].kids, kind, addr))
  {
    hide InsertKid, Lists, NodeIndex, OnePerType;
    var k, ms' := NodeIndex(ms, info.netid), Insert(ms, info, now);
    NodeIndexFinds(ms, info.netid);
    NoKids();
    var before := if k < |ms| then ms[k].kids else [];
    assert ms'[k].kids == InsertKid(before, info);
    forall kind: byte, addr: int
      ensures kind != info.kind ==> (Lists(ms'[k].kids, kind, addr) <==> k < |ms| && Lists(ms[k].kids, kind, addr))
      ensures Modbus(info.kind) ==> (Lists(ms'[k].kids, info.kind, addr) <==> addr in info.data)
    {
      InsertKidLists(before, info, kind, addr);
      NothingListed(kind, addr);
    }
  }

  /** Removal takes the node with the address away, and no other. */
  lemma RemoveDrops(ms: seq<Node>, netid: nat, m: Node)
    requires WellFormed(ms)
    ensures m in Remove(ms, netid) <==> m in ms && m.netid != netid
  {
    hide NodeIndex, OnePerType;
    var k, w := NodeIndex(ms, netid), Remove(ms, netid);
    NodeIndexFinds(ms, netid);
    if m in w {
      var i :| 0 <= i < |w| && w[i] == m;
      assert m == ms[if k < |ms| && i >= k then i + 1 else i];
    }
    if m in ms && m.netid != netid {
      var i :| 0 <= i < |ms| && ms[i] == m;
      assert i != k;
      assert w[if k < |ms| && i > k then i - 1 else i] == m;
    }
  }

  lemma NothingListed(kind: byte, addr: int)
    ensures !Lists([], kind, addr)
  {
  }

  // ---------------------------------------------------------------- whole runs

  /** The last report of a node for a type since it was last removed by its address, and its time. */
  function LastReport(w: World, es: seq<Event>, step: word, netid: nat, kind: byte): Option<(nat, Scan)> {
    if es == [] then None
    else
      var es', e := es[..|es| - 1], es[|es| - 1];
      match e
      case Report(info) =>
        if info.netid == netid && info.kind == kind then Some((Run(w, es', step).now, info))
        else LastReport(w, es', step, netid, kind)
      case RemoveId(id) => if id == netid then None else LastReport(w, es', step, netid, kind)
      case _ => LastReport(w, es', step, netid, kind)
  }

  /** A node heard of since t is in the registry and lists exactly data for the type. */
  ghost predicate Holds(ms: seq<Node>, netid: nat, kind: byte, t: nat, data: seq<byte>) {
    exists i :: HoldsAt(ms, i, netid, kind, t, data)
  }

  ghost predicate HoldsAt(ms: seq<Node>, i: int, netid: nat, kind: byte, t: nat, data: seq<byte>) {
    0 <= i < |ms| && ms[i].netid == netid && t <= ms[i].lasttime && ListsExactly(ms[i].kids, kind, data)
  }

  lemma ReportHolds(w: World, info: Scan, step: word, netid: nat, kind: byte, t: nat, data: seq<byte>)
    requires Inv(w, step) && w.now < WORD && Modbus(kind) && t <= w.now
    requires if info.netid == netid && info.kind == kind then data == info.data else Holds(w.ms, netid, kind, t, data)
    ensures Holds(Next(w, Report(info), step).ms, netid, kind, t, data)
  {
    hide Insert, Lists, NodeIndex, WellFormed;
    InsertCarries(w.ms, info, w.now);
    var k, ms' := NodeIndex(w.ms, info.netid), Insert(w.ms, info, w.now);
    NodeIndexFinds(w.ms, info.netid);
    if info.netid == netid && info.kind == kind {
      assert HoldsAt(ms', k, netid, kind, t, data);
    } else {
      var i :| HoldsAt(w.ms, i, netid, kind, t, data);
      OneIndex(w.ms, i, info.netid);
      assert HoldsAt(ms', i, netid, kind, t, data);
    }
  }

  lemma OneIndex(ms: seq<Node>, i: int, netid: nat)
    requires WellFormed(ms) && 0 <= i < |ms|
    ensures ms[i].netid == netid <==> NodeIndex(ms, netid) == i
  {
    hide OnePerType;
    NodeIndexFinds(ms, netid);
  }

  lemma RemoveHolds(w: World, id: nat, step: word, netid: nat, kind: byte, t: nat, data: seq<byte>)
    requires Inv(w, step) && id != netid && Holds(w.ms, netid, kind, t, data)
    ensures Holds(Next(w, RemoveId(id), step).ms, netid, kind, t, data)
  {
    hide ListsExactly, NodeIndex;
    var i :| HoldsAt(w.ms, i, netid, kind, t, data);
    var k := NodeIndex(w.ms, id);
    NodeIndexFinds(w.ms, id);
    assert Remove(w.ms, id)[if i < k then i else i - 1] == w.ms[i];
    assert HoldsAt(Remove(w.ms, id), if i < k then i else i - 1, netid, kind, t, data);
  }

  lemma CheckHolds(w: World, step: word, netid: nat, kind: byte, t: nat, data: seq<byte>)
    requires Inv(w, step) && w.now < WORD && 10 * step < WORD && w.now < t + 11 * step && Holds(w.ms, netid, kind, t, data)
    ensures Holds(Next(w, Check, step).ms, netid, kind, t, data)
  {
    hide ListsExactly, CheckNode, CheckOnline, WellFormed, Timely;
    var i :| HoldsAt(w.ms, i, netid, kind, t, data);
    CheckTimely(w.ms[i], w.now, step);
    CheckHas(w.ms, w.now, step, i);
    var ms' := CheckOnline(w.ms, w.now, step);
    var j :| 0 <= j < |ms'| && ms'[j] == CheckNode(w.ms[i], w.now, step)[0];
    assert HoldsAt(ms', j, netid, kind, t, data);
  }

  lemma {:induction false} ClockRuns(w: World, es: seq<Event>, step: word, n: nat)
    requires n <= |es|
    ensures Run(w, es[..n], step).now <= Run(w, es, step).now
  {
    hide Insert, Remove, CheckOnline;
    if n < |es| {
      assert es[..|es| - 1][..n] == es[..n];
      ClockRuns(w, es[..|es| - 1], step, n);
    } else {
      assert es[..n] == es;
    }
  }

  /** In every run with a clock that never goes back: what a node last reported for a Modbus type less
      than eleven learn steps ago is exactly what the registry lists for it. */
  lemma {:induction false} ReportsListed(w0: World, es: seq<Event>, step: word, netid: nat, kind: byte)
    requires Inv(w0, step) && Run(w0, es, step).now < WORD && 10 * step < WORD && Modbus(kind)
    ensures var w := Run(w0, es, step);
            match LastReport(w0, es, step, netid, kind)
            case None => true
            case Some((t, info)) => t <= w.now && (w.now < t + 11 * step ==> Holds(w.ms, netid, kind, t, info.data))
  {
    hide Inv, Holds, Insert, Remove, CheckOnline;
    if es != [] {
      var es', e := es[..|es| - 1], es[|es| - 1];
      var w := Run(w0, es', step);
      ClockRuns(w0, es, step, |es| - 1);
      RunKeeps(w0, es', step);
      ReportsListed(w0, es', step, netid, kind);
      StepHolds(w, e, step, netid, kind, LastReport(w0, es', step, netid, kind));
    }
  }

  /** One event of such a run. */
  lemma StepHolds(w: World, e: Event, step: word, netid: nat, kind: byte, last: Option<(nat, Scan)>)
    requires Inv(w, step) && w.now < WORD && 10 * step < WORD && Modbus(kind)
    requires last.Some? ==> last.value.0 <= w.now
    requires last.Some? && w.now < last.value.0 + 11 * step ==> Holds(w.ms, netid, kind, last.value.0, last.value.1.data)
    ensures e.Report? && e.info.netid == netid && e.info.kind == kind ==> Holds(Next(w, e, step).ms, netid, kind, w.now, e.info.data)
    ensures last.Some? && !(e.Report? && e.info.netid == netid && e.info.kind == kind) && e != RemoveId(netid)
              && Next(w, e, step).now < last.value.0 + 11 * step ==>
              Holds(Next(w, e, step).ms, netid, kind, last.value.0, last.value.1.data)
  {
    hide Inv, Holds, Insert, Remove, CheckOnline;
    if e.Report? && e.info.netid == netid && e.info.kind == kind {
      ReportHolds(w, e.info, step, netid, kind, w.now, e.info.data);
    } else if last.Some? && e != RemoveId(netid) && w.now < last.value.0 + 11 * step {
      var (t, info) := last.value;
      match e
      case Report(other) => ReportHolds(w, other, step, netid, kind, t, info.data);
      case RemoveId(id) => RemoveHolds(w, id, step, netid, kind, t, info.data);
      case Check => CheckHolds(w, step, netid, kind, t, info.data);
      case Tick(_) =>
    }
  }

  lemma EmptyInv(start: nat, step: word)
    ensures Inv(Empty(start), step)
  {
  }

  /** The node's last report for the type lists the address and is less than eleven learn steps old. */
  predicate Recent(start: nat, es: seq<Event>, step: word, netid: nat, kind: byte, addr: int) {
    var last := LastReport(Empty(start), es, step, netid, kind);
    last.Some? && addr in last.value.1.data && Run(Empty(start), es, step).now < last.value.0 + 11 * step
  }

  /** So the gateway finds a node for every address reported less than eleven learn steps ago. */
  lemma ReportedAddressFound(start: nat, es: seq<Event>, step: word, netid: nat, kind: byte, addr: int)
    requires Run(Empty(start), es, step).now < WORD && 10 * step < WORD && Modbus(kind)
    requires Recent(start, es, step, netid, kind, addr)
    ensures var ms := Run(Empty(start), es, step).ms;
            AddrIndex(ms, kind, addr) < |ms| && Lists(ms[AddrIndex(ms, kind, addr)].kids, kind, addr)
  {
    hide Run, LastReport, Lists;
    EmptyInv(start, step);
    ReportsListed(Empty(start), es, step, netid, kind);
    var ms := Run(Empty(start), es, step).ms;
    var (t, info) := LastReport(Empty(start), es, step, netid, kind).value;
    var i :| HoldsAt(ms, i, netid, kind, t, info.data);
    assert Lists(ms[i].kids, kind, addr);
  }

  // ---------------------------------------------------------------- online

  /** Offline nodes have been silent for four learn steps. */
  predicate Silent(m: Node, now: nat, step: nat) {
    !m.online ==> m.lasttime + 4 * step <= now
  }

  lemma CheckSilent(m: Node, now: word, step: word)
    requires Timely(m, now, step) && Silent(m, now, step) && 10 * step < WORD
    ensures CheckNode(m, now, step) != [] ==>
              var m' := CheckNode(m, now, step)[0];
              && Silent(m', now, step)
              && (m'.online <==> now < m.lasttime + 4 * step)
  {
  }

  lemma {:induction false} RunSilent(w0: World, es: seq<Event>, step: word)
    requires Inv(w0, step) && (forall m <- w0.ms :: Silent(m, w0.now, step))
    requires Run(w0, es, step).now < WORD && 10 * step < WORD
    ensures forall m <- Run(w0, es, step).ms :: Silent(m, Run(w0, es, step).now, step)
  {
    hide Inv;
    if es != [] {
      var es', e := es[..|es| - 1], es[|es| - 1];
      ClockRuns(w0, es, step, |es| - 1);
      RunKeeps(w0, es', step);
      RunSilent(w0, es', step);
      StepSilent(Run(w0, es', step), e, step);
    }
  }

  lemma StepSilent(w: World, e: Event, step: word)
    requires Inv(w, step) && (forall m <- w.ms :: Silent(m, w.now, step)) && w.now < WORD && 10 * step < WORD
    ensures forall m <- Next(w, e, step).ms :: Silent(m, Next(w, e, step).now, step)
    ensures e.Check? ==> forall m <- Next(w, e, step).ms :: m.online <==> w.now < m.lasttime + 4 * step
  {
    hide InsertKid, CheckNode, Timely, WellFormed, NodeIndex, CheckOnline;
    NodeIndexFinds(w.ms, if e.Report? then e.info.netid else if e.RemoveId? then e.netid else 0);
    if e.Check? {
      var ms' := CheckOnline(w.ms, w.now, step);
      forall i | 0 <= i < |ms'|
        ensures Silent(ms'[i], w.now, step) && (ms'[i].online <==> w.now < ms'[i].lasttime + 4 * step)
      {
        var j := CheckFrom(w.ms, w.now, step, i);
        CheckSilent(w.ms[j], w.now, step);
      }
    }
  }

  /** Right after a check, in every run, a node in the registry counts as online exactly if it was
      heard of less than four learn steps ago. */
  lemma OnlineExactly(start: nat, es: seq<Event>, step: word)
    requires Run(Empty(start), es + [Check], step).now < WORD && 10 * step < WORD
    ensures var w := Run(Empty(start), es + [Check], step);
            forall m <- w.ms :: m.online <==> w.now < m.lasttime + 4 * step
  {
    hide Inv;
    var all := es + [Check];
    assert all[..|all| - 1] == es;
    ClockRuns(Empty(start), all, step, |all| - 1);
    EmptyInv(start, step);
    RunKeeps(Empty(start), es, step);
    RunSilent(Empty(start), es, step);
    StepSilent(Run(Empty(start), es, step), Check, step);
  }
}
