/**
 The knowledge base: a log of observed packets, and a per-node rollup kept beside it in
 separately locked steps. Rows hold what the steps read and write; the other columns of
 a packet ride along unread.
 */
module Knowledge {
  import opened Prelude

  const BROADCAST_ID := "^all"

  /** Optional columns of a node row; a None is a column the update leaves alone. */
  datatype Fields = Fields(snr: Option<real>, rssi: Option<real>, hops: Option<int>,
                           shortName: Option<string>, longName: Option<string>)

  datatype Node = Node(firstSeen: real, lastSeen: real, fields: Fields, packets: int)

  datatype Packet = Packet(ts: real, sender: string, dest: string, encrypted: bool, fields: Fields)

  const NO_FIELDS := Fields(None, None, None, None, None)

  function Over<T>(new': Option<T>, old': Option<T>): Option<T> {
    if new'.Some? then new' else old'
  }

  function Merged(new': Fields, old': Fields): Fields {
    Fields(Over(new'.snr, old'.snr), Over(new'.rssi, old'.rssi), Over(new'.hops, old'.hops),
           Over(new'.shortName, old'.shortName), Over(new'.longName, old'.longName))
  }

  // ---------------------------------------------------------------------
  // The three locked steps, as they change the store
  // ---------------------------------------------------------------------

  function Upserted(nodes: map<string, Node>, id: string, ts: real, fields: Fields): map<string, Node> {
    var row := if id in nodes then nodes[id] else Node(ts, ts, NO_FIELDS, 0);
    nodes[id := row.(lastSeen := ts, fields := Merged(fields, row.fields))]
  }

  /** UPDATE nodes SET packets = packets + 1: no row, no effect. */
  function Bumped(nodes: map<string, Node>, id: string): map<string, Node> {
    if id in nodes then nodes[id := nodes[id].(packets := nodes[id].packets + 1)] else nodes
  }

  /** COUNT(*) of the logged packets from one sender. */
  function CountFrom(log: seq<Packet>, id: string): nat {
    if log == [] then 0
    else CountFrom(log[..|log| - 1], id) + (if log[|log| - 1].sender == id then 1 else 0)
  }

  function PacketsOf(nodes: map<string, Node>, id: string): int {
    if id in nodes then nodes[id].packets else 0
  }

  class NodeGraph {
    var interactions: seq<Packet>
    var nodes: map<string, Node>

    constructor ()
      ensures interactions == [] && nodes == map[]
    {
      interactions, nodes := [], map[];
    }

    /** First step: the packet is logged. */
    method LogPacket(packet: Packet)
      modifies this`interactions
      ensures interactions == old(interactions) + [packet]
    {
      interactions := interactions + [packet];
    }

    /** Second step, and what an identity frame does by itself. */
    method UpsertNode(id: string, ts: real, fields: Fields)
      modifies this`nodes
      ensures nodes == if id == "" then old(nodes) else Upserted(old(nodes), id, ts, fields)
      ensures nodes - {id} == old(nodes) - {id}
      ensures id != "" ==>
        var was := if id in old(nodes) then old(nodes)[id] else Node(ts, ts, NO_FIELDS, 0);
        && id in nodes
        && nodes[id].firstSeen == was.firstSeen && nodes[id].lastSeen == ts && nodes[id].packets == was.packets
        && nodes[id].fields.snr == (if fields.snr.Some? then fields.snr else was.fields.snr)
        && nodes[id].fields.rssi == (if fields.rssi.Some? then fields.rssi else was.fields.rssi)
        && nodes[id].fields.hops == (if fields.hops.Some? then fields.hops else was.fields.hops)
        && nodes[id].fields.shortName == (if fields.shortName.Some? then fields.shortName else was.fields.shortName)
        && nodes[id].fields.longName == (if fields.longName.Some? then fields.longName else was.fields.longName)
    {
      if id == "" {
        return;
      }
      if id !in nodes {
        nodes := nodes[id := Node(ts, ts, NO_FIELDS, 0)];
      }
      nodes := nodes[id := nodes[id].(lastSeen := ts, fields := Merged(fields, nodes[id].fields))];
    }

    /** Third step: one more packet on the sender's row. */
    method BumpPackets(id: string)
      modifies this`nodes
      ensures nodes == Bumped(old(nodes), id)
    {
      if id in nodes {
        nodes := nodes[id := nodes[id].(packets := nodes[id].packets + 1)];
      }
    }

    /** record_packet with nobody in between: the sender's count and its row move together. */
    method RecordPacket(packet: Packet)
      modifies this
      ensures interactions == old(interactions) + [packet]
      ensures nodes == if packet.sender == "" then old(nodes)
                       else Bumped(Upserted(old(nodes), packet.sender, packet.ts, packet.fields), packet.sender)
      ensures forall id | id != "" ::
        PacketsOf(nodes, id) - old(PacketsOf(nodes, id)) == CountFrom(interactions, id) - old(CountFrom(interactions, id))
    {
      LogPacket(packet);
      assert interactions[..|interactions| - 1] == old(interactions);
      if packet.sender != "" {
        UpsertNode(packet.sender, packet.ts, packet.fields);
        BumpPackets(packet.sender);
      }
    }
  }

  // ---------------------------------------------------------------------
  // Interleavings
  // ---------------------------------------------------------------------

  /** How far one call of record_packet has come. */
  datatype Stage = Logged(packet: Packet) | Rolled(sender: string) | Finished

  /** The store, and the calls that were ever made. */
  datatype Store = Store(log: seq<Packet>, nodes: map<string, Node>, calls: seq<Stage>)

  const EMPTY := Store([], map[], [])

  /** One locked step by some thread. */
  datatype Step =
    | Begin(packet: Packet)
    | Roll(call: nat)
    | Count(call: nat)
    | Identify(id: string, ts: real, fields: Fields)

  predicate Enabled(s: Store, step: Step) {
    match step
    case Begin(_) => true
    case Roll(c) => c < |s.calls| && s.calls[c].Logged?
    case Count(c) => c < |s.calls| && s.calls[c].Rolled?
    case Identify(_, _, _) => true
  }

  function Next(s: Store, step: Step): Store
    requires Enabled(s, step)
  {
    match step
    case Begin(p) =>
      Store(s.log + [p], s.nodes, s.calls + [if p.sender == "" then Finished else Logged(p)])
    case Roll(c) =>
      var p := s.calls[c].packet;
      Store(s.log, Upserted(s.nodes, p.sender, p.ts, p.fields), s.calls[c := Rolled(p.sender)])
    case Count(c) =>
      Store(s.log, Bumped(s.nodes, s.calls[c].sender), s.calls[c := Finished])
    case Identify(id, ts, fields) =>
      if id == "" then s else s.(nodes := Upserted(s.nodes, id, ts, fields))
  }

  /** The store after any threads took their steps in this order, from empty. A step
      nobody is at does nothing. */
  function After(steps: seq<Step>): Store {
    if steps == [] then EMPTY
    else
      var s, step := After(steps[..|steps| - 1]), steps[|steps| - 1];
      if Enabled(s, step) then Next(s, step) else s
  }

  function Sender(stage: Stage): string {
    match stage
    case Logged(p) => p.sender
    case Rolled(id) => id
    case Finished => ""
  }

  /** Calls that have logged a packet from this sender and not yet counted it. */
  function InFlight(calls: seq<Stage>, id: string): nat {
    if calls == [] then 0
    else InFlight(calls[..|calls| - 1], id) + (if Sender(calls[|calls| - 1]) == id then 1 else 0)
  }

  // ---------------------------------------------------------------------
  // What every interleaving keeps
  // ---------------------------------------------------------------------

  ghost predicate Balanced(s: Store, id: string) {
    PacketsOf(s.nodes, id) + InFlight(s.calls, id) == CountFrom(s.log, id)
  }

  ghost predicate Consistent(s: Store) {
    && (forall id | id != "" :: Balanced(s, id))
    && "" !in s.nodes
    && (forall c | 0 <= c < |s.calls| && !s.calls[c].Finished? :: Sender(s.calls[c]) != "")
    && (forall c | 0 <= c < |s.calls| && s.calls[c].Rolled? :: s.calls[c].sender in s.nodes)
  }

  /** A call that changes stage moves between the senders it counts for. */
  lemma {:induction false} InFlightUpdated(calls: seq<Stage>, c: nat, stage: Stage, id: string)
    requires c < |calls|
    ensures InFlight(calls[c := stage], id) == InFlight(calls, id)
      - (if Sender(calls[c]) == id then 1 else 0) + (if Sender(stage) == id then 1 else 0)
  {
    var n := |calls| - 1;
    if c == n {
      assert calls[c := stage][..n] == calls[..n];
    } else {
      assert calls[c := stage][..n] == calls[..n][c := stage];
      InFlightUpdated(calls[..n], c, stage, id);
    }
  }

  lemma AppendedCounts(s: Store, p: Packet, stage: Stage, id: string)
    ensures CountFrom(s.log + [p], id) == CountFrom(s.log, id) + (if p.sender == id then 1 else 0)
    ensures InFlight(s.calls + [stage], id) == InFlight(s.calls, id) + (if Sender(stage) == id then 1 else 0)
  {
    assert (s.log + [p])[..|s.log|] == s.log;
    assert (s.calls + [stage])[..|s.calls|] == s.calls;
  }

  lemma StepKeepsBalance(s: Store, step: Step, id: string)
    requires Balanced(s, id) && Enabled(s, step) && id != ""
    requires step.Count? ==> s.calls[step.call].sender in s.nodes
    ensures Balanced(Next(s, step), id)
  {
    hide CountFrom, InFlight;
    match step
    case Begin(p) =>
      AppendedCounts(s, p, if p.sender == "" then Finished else Logged(p), id);
    case Roll(c) =>
      InFlightUpdated(s.calls, c, Rolled(s.calls[c].packet.sender), id);
    case Count(c) =>
      InFlightUpdated(s.calls, c, Finished, id);
    case Identify(_, _, _) =>
  }

  lemma StepKeepsConsistent(s: Store, step: Step)
    requires Consistent(s) && Enabled(s, step)
    ensures Consistent(Next(s, step))
  {
    hide Balanced;
    forall id | id != "" ensures Balanced(Next(s, step), id) {
      assert Balanced(s, id);
      StepKeepsBalance(s, step, id);
    }
  }

  /**
   In every reachable store, a node's counter plus the packets from it still being
   recorded is the number of packets logged from it.
   */
  lemma {:induction false} RunsStayConsistent(steps: seq<Step>)
    ensures Consistent(After(steps))
  {
    if steps != [] {
      var s, step := After(steps[..|steps| - 1]), steps[|steps| - 1];
      RunsStayConsistent(steps[..|steps| - 1]);
      if Enabled(s, step) {
        StepKeepsConsistent(s, step);
      }
    }
  }

  // ---------------------------------------------------------------------
  // What a node's row holds
  // ---------------------------------------------------------------------

  datatype Update = Update(ts: real, fields: Fields)

  /** The update of a node's row that a step makes: by a recorded packet, when its call comes
      to that, or by an identity frame. */
  function UpdateBy(s: Store, step: Step, id: string): Option<Update> {
    match step
    case Roll(c) =>
      if c < |s.calls| && s.calls[c].Logged? && s.calls[c].packet.sender == id then
        Some(Update(s.calls[c].packet.ts, s.calls[c].packet.fields))
      else None
    case Identify(i, ts, fields) => if i == id && id != "" then Some(Update(ts, fields)) else None
    case _ => None
  }

  function Updates(steps: seq<Step>, id: string): seq<Update> {
    if steps == [] then []
    else
      var front := steps[..|steps| - 1];
      match UpdateBy(After(front), steps[|front|], id)
      case Some(u) => Updates(front, id) + [u]
      case None => Updates(front, id)
  }

  // The columns
  function Snr(f: Fields): Option<real> { f.snr }
  function Rssi(f: Fields): Option<real> { f.rssi }
  function Hops(f: Fields): Option<int> { f.hops }
  function ShortName(f: Fields): Option<string> { f.shortName }
  function LongName(f: Fields): Option<string> { f.longName }

  /** The last value given for a column. */
  function LastGiven<T>(us: seq<Update>, column: Fields -> Option<T>): Option<T> {
    if us == [] then None
    else if column(us[|us| - 1].fields).Some? then column(us[|us| - 1].fields)
    else LastGiven(us[..|us| - 1], column)
  }

  /** The row is what these updates leave. */
  ghost predicate Holds(nodes: map<string, Node>, id: string, us: seq<Update>) {
    && (id in nodes <==> us != [])
    && (us != [] ==>
          && nodes[id].firstSeen == us[0].ts && nodes[id].lastSeen == us[|us| - 1].ts
          && nodes[id].fields.snr == LastGiven(us, Snr)
          && nodes[id].fields.rssi == LastGiven(us, Rssi)
          && nodes[id].fields.hops == LastGiven(us, Hops)
          && nodes[id].fields.shortName == LastGiven(us, ShortName)
          && nodes[id].fields.longName == LastGiven(us, LongName))
  }

  lemma LastGivenStep<T>(us: seq<Update>, u: Update, column: Fields -> Option<T>)
    ensures LastGiven(us + [u], column) == if column(u.fields).Some? then column(u.fields) else LastGiven(us, column)
  {
    assert (us + [u])[..|us|] == us;
  }

  lemma UpsertHolds(nodes: map<string, Node>, id: string, us: seq<Update>, u: Update)
    requires Holds(nodes, id, us)
    ensures Holds(Upserted(nodes, id, u.ts, u.fields), id, us + [u])
  {
    LastGivenStep(us, u, Snr);
    LastGivenStep(us, u, Rssi);
    LastGivenStep(us, u, Hops);
    LastGivenStep(us, u, ShortName);
    LastGivenStep(us, u, LongName);
    NothingGiven(Snr);
    NothingGiven(Rssi);
    NothingGiven(Hops);
    NothingGiven(ShortName);
    NothingGiven(LongName);
    hide LastGiven;
  }

  lemma NothingGiven<T>(column: Fields -> Option<T>)
    ensures LastGiven([], column) == None
  {
  }

  lemma StepHolds(s: Store, step: Step, id: string, us: seq<Update>)
    requires Enabled(s, step) && Holds(s.nodes, id, us) && id != ""
    ensures match UpdateBy(s, step, id)
      case Some(u) => Holds(Next(s, step).nodes, id, us + [u])
      case None => Holds(Next(s, step).nodes, id, us)
  {
    var u := UpdateBy(s, step, id);
    if u.Some? {
      UpsertHolds(s.nodes, id, us, u.value);
      hide Upserted, Holds;
    } else {
      hide LastGiven, Merged;
    }
  }

  /**
   In every interleaving, a node's row was first seen at its first update and last seen at
   its latest, and each column has the last value that was given for it.
   */
  lemma {:induction false} RowsHoldTheirUpdates(steps: seq<Step>, id: string)
    requires id != ""
    ensures Holds(After(steps).nodes, id, Updates(steps, id))
  {
    if steps != [] {
      var front, step := steps[..|steps| - 1], steps[|steps| - 1];
      var s := After(front);
      hide Next, Holds;
      RowsHoldTheirUpdates(front, id);
      if Enabled(s, step) {
        StepHolds(s, step, id, Updates(front, id));
      }
    } else {
      assert Holds(map[], id, []);
    }
  }

  // ---------------------------------------------------------------------
  // At rest
  // ---------------------------------------------------------------------

  ghost predicate Quiescent(s: Store) {
    forall c | 0 <= c < |s.calls| :: s.calls[c].Finished?
  }

  lemma {:induction false} NothingInFlight(calls: seq<Stage>, id: string)
    requires id != "" && forall c | 0 <= c < |calls| :: calls[c].Finished?
    ensures InFlight(calls, id) == 0
  {
    if calls != [] {
      NothingInFlight(calls[..|calls| - 1], id);
    }
  }

  /** Once every call has returned, the rollup is the aggregate over the log. */
  lemma RollupIsAggregate(steps: seq<Step>, id: string)
    requires Quiescent(After(steps)) && id != ""
    ensures PacketsOf(After(steps).nodes, id) == CountFrom(After(steps).log, id)
  {
    RunsStayConsistent(steps);
    assert Balanced(After(steps), id);
    NothingInFlight(After(steps).calls, id);
  }

  datatype Talker = Talker(id: string, count: int)

  /** rows answers "who has most, at most limit of them", with counts given by count: the
      largest counts first, nobody left out who has more than someone listed. */
  ghost predicate IsTop(count: string -> int, rows: seq<Talker>, limit: nat) {
    && |rows| <= limit
    && (forall k | 0 <= k < |rows| :: rows[k].id != "" && rows[k].count == count(rows[k].id) > 0)
    && (forall j, k | 0 <= j < k < |rows| :: rows[j].count >= rows[k].count && rows[j].id != rows[k].id)
    && (forall id | id != "" && count(id) > 0 && (forall k | 0 <= k < |rows| :: rows[k].id != id) ::
          |rows| == limit && forall k | 0 <= k < |rows| :: rows[k].count >= count(id))
  }

  /** At rest, top_talkers over the log and a listing of the nodes by packets have the
      same answers. */
  lemma RollupAnswersTopTalkers(steps: seq<Step>, rows: seq<Talker>, limit: nat)
    requires Quiescent(After(steps))
    ensures IsTop(id => CountFrom(After(steps).log, id), rows, limit)
       <==> IsTop(id => PacketsOf(After(steps).nodes, id), rows, limit)
  {
    forall id | id != "" ensures PacketsOf(After(steps).nodes, id) == CountFrom(After(steps).log, id) {
      RollupIsAggregate(steps, id);
    }
    hide After, CountFrom, PacketsOf;
    SameTop(id => CountFrom(After(steps).log, id), id => PacketsOf(After(steps).nodes, id), rows, limit);
    SameTop(id => PacketsOf(After(steps).nodes, id), id => CountFrom(After(steps).log, id), rows, limit);
  }

  lemma SameTop(f: string -> int, g: string -> int, rows: seq<Talker>, limit: nat)
    requires forall id | id != "" :: f(id) == g(id)
    ensures IsTop(f, rows, limit) ==> IsTop(g, rows, limit)
  {
  }

  // ---------------------------------------------------------------------
  // Conservation
  // ---------------------------------------------------------------------

  /** The packet counters of some nodes, added up. */
  function TotalPackets(nodes: map<string, Node>, ids: seq<string>): int {
    if ids == [] then 0
    else TotalPackets(nodes, ids[..|ids| - 1]) + PacketsOf(nodes, ids[|ids| - 1])
  }

  function TotalCounts(log: seq<Packet>, ids: seq<string>): int {
    if ids == [] then 0 else TotalCounts(log, ids[..|ids| - 1]) + CountFrom(log, ids[|ids| - 1])
  }

  ghost predicate NoDuplicates(ids: seq<string>) {
    forall i, j | 0 <= i < j < |ids| :: ids[i] != ids[j]
  }

  /** One more packet adds one to the total of a list that has its sender once. */
  lemma {:induction false} TotalCountsStep(log: seq<Packet>, p: Packet, ids: seq<string>)
    requires NoDuplicates(ids)
    ensures TotalCounts(log + [p], ids) == TotalCounts(log, ids) + (if p.sender in ids then 1 else 0)
  {
    if ids != [] {
      var n := |ids| - 1;
      TotalCountsStep(log, p, ids[..n]);
      assert (log + [p])[..|log|] == log;
      assert p.sender in ids <==> p.sender in ids[..n] || p.sender == ids[n];
      assert ids[n] !in ids[..n];
    }
  }

  lemma {:induction false} CountsCoverLog(log: seq<Packet>, ids: seq<string>)
    requires NoDuplicates(ids) && "" !in ids
    requires forall k | 0 <= k < |log| :: log[k].sender == "" || log[k].sender in ids
    ensures TotalCounts(log, ids) + CountFrom(log, "") == |log|
  {
    if log == [] {
      NoCounts(ids);
    } else {
      var n := |log| - 1;
      CountsCoverLog(log[..n], ids);
      TotalCountsStep(log[..n], log[n], ids);
      assert log == log[..n] + [log[n]];
    }
  }

  lemma {:induction false} NoCounts(ids: seq<string>)
    ensures TotalCounts([], ids) == 0
  {
    if ids != [] {
      NoCounts(ids[..|ids| - 1]);
    }
  }

  lemma {:induction false} TotalsAgree(steps: seq<Step>, ids: seq<string>)
    requires Quiescent(After(steps)) && "" !in ids
    ensures TotalPackets(After(steps).nodes, ids) == TotalCounts(After(steps).log, ids)
  {
    hide After;
    if ids != [] {
      TotalsAgree(steps, ids[..|ids| - 1]);
      assert ids[|ids| - 1] in ids;
      RollupIsAggregate(steps, ids[|ids| - 1]);
    }
  }

  lemma {:induction false} LoggedIsCounted(log: seq<Packet>, k: nat)
    requires k < |log|
    ensures CountFrom(log, log[k].sender) > 0
  {
    if k < |log| - 1 {
      LoggedIsCounted(log[..|log| - 1], k);
    }
  }

  /** At rest, the counters of all nodes and the packets without a sender make up the log. */
  lemma PacketsAreConserved(steps: seq<Step>, ids: seq<string>)
    requires Quiescent(After(steps))
    requires NoDuplicates(ids) && forall id :: id in ids <==> id in After(steps).nodes
    ensures TotalPackets(After(steps).nodes, ids) + CountFrom(After(steps).log, "") == |After(steps).log|
  {
    var s := After(steps);
    RunsStayConsistent(steps);
    TotalsAgree(steps, ids);
    forall k | 0 <= k < |s.log| ensures s.log[k].sender == "" || s.log[k].sender in ids {
      if s.log[k].sender != "" {
        LoggedIsCounted(s.log, k);
        RollupIsAggregate(steps, s.log[k].sender);
      }
    }
    CountsCoverLog(s.log, ids);
  }
}
