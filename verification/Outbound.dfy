/**
 Everything that goes on the air: the send_text tool, and the multi-part replies of the
 platform adapter, over one limiter and one radio.
 */
module Outbound {
  import opened Prelude
  import opened Channels
  import opened Policy
  import opened RateLimit
  import opened Bridge
  import opened ReplyParts
  import opened CodePoints

  /** One sendData call. */
  datatype Packet = Packet(payload: string, dest: Option<string>, channel: int, pki: bool)

  /** How a sendData call went, and the wait for an acknowledgement after it. */
  datatype Delivery = Accepted | RuntimeFailure(message: string) | OtherFailure(message: string)

  /** What reading mgr.iface finds. The property reads the field twice without the lock; a
      loss in between makes it return None. */
  datatype Interface = Missing | LostWhileRead | Up

  /** What one send_text call finds around it: the channel table and allowlist, the
      interface, the limits and the time, and how the radio will take the packet. */
  datatype World = World(table: seq<Row>, spec: Spec, iface: Interface, env: LimitConfig, now: real,
                         delivery: Delivery)

  /** What a call of the tool asks for. timeoutReads says whether float() takes its
      ack_timeout; continuation is the truth of its _continuation argument. */
  datatype Message = Message(text: CodeText, args: Args, continuation: bool, timeoutReads: bool)

  /** The JSON send_text returns. Wording is left out, but for a failure's own message,
      which becomes the error. */
  datatype Answer =
    | Sent
    | NoText
    | NotPermitted(code: Code)
    | NotConnected
    | Limited(scope: Scope, retryAfter: real)
    | Crashed(error: string)

  /** Whether the "error" of an answer is truthy: an empty failure message is not. */
  predicate HasError(answer: Answer) {
    match answer
    case Sent => false
    case Crashed(error) => error != ""
    case _ => true
  }

  /** What a reply goes on after: the answer to such a delivery has no error. */
  predicate TakenForSent(delivery: Delivery) {
    delivery == Accepted || delivery == RuntimeFailure("")
  }

  const UNEXPECTED := "Unexpected error: "

  /** The limiter is asked by node for a direct message and by channel for a broadcast. */
  function CallFor(t: Target, continuation: bool): Call {
    Call(t.dest, if t.dest.Some? && t.dest.value != "" then None else Some(t.channel), continuation)
  }

  /** The bucket a packet belongs in: its node's, or for a broadcast its channel's. */
  function OwnBucket(t: Target): string {
    if t.dest.Some? && t.dest.value != "" then "dm:" + t.dest.value else "ch:" + Decimal(t.channel)
  }

  /** The limiter charges a packet to its own bucket. */
  lemma ChargedToOwnBucket(t: Target, continuation: bool)
    ensures Bucket(CallFor(t, continuation)) == OwnBucket(t)
  {
  }

  /** Two packets share a bucket exactly when they go to the same node, or are broadcasts on
      the same channel. */
  lemma OwnBucketsKeepApart(t: Target, u: Target)
    ensures OwnBucket(t) == OwnBucket(u) <==>
      if t.dest.Some? && t.dest.value != "" then u.dest == t.dest
      else !(u.dest.Some? && u.dest.value != "") && t.channel == u.channel
  {
    ChargedToOwnBucket(t, false);
    ChargedToOwnBucket(u, false);
    BucketsSeparateDestinations(CallFor(t, false), CallFor(u, false));
    hide OwnBucket, Bucket;
  }

  function PacketTo(text: string, t: Target): Packet {
    Packet(text, t.dest, t.channel, t.pki)
  }

  /** What became of an admission: a sendData call, or nothing. */
  datatype Fate = Called(packet: Packet) | Lost(target: Target)

  function TargetOf(fate: Fate): Target {
    match fate
    case Called(p) => Target(p.dest, p.channel, p.pki)
    case Lost(t) => t
  }

  /** After its admission a packet is lost when its text has no UTF-8, or when the interface
      was lost while it was read. */
  function FateOf(text: CodeText, t: Target, iface: Interface): (fate: Fate)
    ensures TargetOf(fate) == t
    ensures fate.Called? <==> Encodable(text) && iface.Up?
  {
    StrippedEncodable(text);
    if Encodable(text) && iface.Up? then Called(PacketTo(Chars(StripText(text)), t)) else Lost(t)
  }

  /** Where a call's packet is admitted to: the destination that the policy authorizes, if
      there is text, an interface was seen, and the limiter admits that very destination. */
  ghost function AdmittedTo(casing: Casing, m: Message, world: World, cfg: LimitConfig, h: seq<Admission>): Option<Target>
  {
    var verdict := ValidateToolSend(casing, m.args, world.table, world.spec);
    if StripText(m.text) == [] || verdict.Err? || !m.timeoutReads || world.iface.Missing? then None
    else if Gate(cfg, h, CallFor(verdict.value, m.continuation), world.now) == Admitted then Some(verdict.value)
    else None
  }

  /** A call of the tool, by the model or by anyone else. */
  datatype ToolCall = ToolCall(message: Message, world: World)

  /** What the calls so far have led to: the fates of the admissions, and the record. */
  datatype Account = Account(log: seq<Fate>, h: seq<Admission>)

  /** One more call: it adds one fate and its charge, or nothing. */
  ghost function Taken(casing: Casing, config: Option<LimitConfig>, a: Account, c: ToolCall): Account {
    var cfg := if config.Some? then config.value else c.world.env;
    match AdmittedTo(casing, c.message, c.world, cfg, a.h)
    case Some(t) =>
      Account(a.log + [FateOf(c.message.text, t, c.world.iface)],
              a.h + [Admission(OwnBucket(t), c.world.now, c.message.continuation)])
    case None => a
  }

  ghost function Played(casing: Casing, config: Option<LimitConfig>, a: Account, calls: seq<ToolCall>): Account {
    if calls == [] then a
    else Taken(casing, config, Played(casing, config, a, calls[..|calls| - 1]), calls[|calls| - 1])
  }

  lemma {:induction false} PlayedOn(casing: Casing, config: Option<LimitConfig>, a: Account, calls: seq<ToolCall>,
                                    more: seq<ToolCall>)
    ensures Played(casing, config, a, calls + more) == Played(casing, config, Played(casing, config, a, calls), more)
  {
    hide Taken;
    if more == [] {
      assert calls + more == calls;
    } else {
      var n := |more| - 1;
      PlayedOn(casing, config, a, calls, more[..n]);
      assert (calls + more)[..|calls| + n] == calls + more[..n];
    }
  }

  lemma PlayedOne(casing: Casing, config: Option<LimitConfig>, a: Account, calls: seq<ToolCall>, c: ToolCall)
    ensures Played(casing, config, a, calls + [c]) == Taken(casing, config, Played(casing, config, a, calls), c)
  {
    hide Taken;
    assert (calls + [c])[..|calls|] == calls;
  }

  /** The calls read the clock in order, from time from to time to. */
  ghost predicate InOrder(calls: seq<ToolCall>, from: real, to: real) {
    && from <= to
    && (forall i | 0 <= i < |calls| :: from <= calls[i].world.now <= to)
    && (forall i, j | 0 <= i < j < |calls| :: calls[i].world.now <= calls[j].world.now)
  }

  /** Before one part of a reply: what others send meanwhile, and then the part's own world. */
  datatype Turn = Turn(others: seq<ToolCall>, world: World)

  ghost predicate TurnsInOrder(turns: seq<Turn>, clock: real) {
    && (forall i | 0 <= i < |turns| ::
          InOrder(turns[i].others, if i == 0 then clock else turns[i - 1].world.now, turns[i].world.now))
  }

  function Arguments(target: Destination): Args {
    Args(if target.dest.Some? then Text(target.dest.value) else Null, Bool(target.pki), Null, Int(target.channel))
  }

  /** The log has one fate for each admission, destination by destination. */
  ghost predicate Booked(log: seq<Fate>, h: seq<Admission>) {
    && |log| == |h|
    && forall i | 0 <= i < |log| :: h[i].bucket == OwnBucket(TargetOf(log[i]))
  }

  lemma OneMoreBooked(log: seq<Fate>, h: seq<Admission>, fate: Fate, continuation: bool, now: real)
    requires Booked(log, h)
    ensures Booked(log + [fate], Charge(h, CallFor(TargetOf(fate), continuation), now, Admitted))
  {
    ChargedToOwnBucket(TargetOf(fate), continuation);
    hide Bucket, OwnBucket, CallFor;
  }

  // ---------------------------------------------------------------------
  // Replies on the air
  // ---------------------------------------------------------------------

  /** A node, end to end, or a channel: what chat ids lead to. */
  ghost predicate IsReplyTarget(target: Destination) {
    if target.dest.Some? then target.pki && target.channel == 0 else !target.pki
  }

  lemma TargetIsReply(chatId: string)
    ensures IsReplyTarget(OutboundTarget(chatId))
  {
  }

  /** Whatever the policy authorizes for a reply is the reply's own target. */
  lemma AuthorizedIsTarget(casing: Casing, target: Destination, table: seq<Row>, spec: Spec)
    requires IsReplyTarget(target)
    ensures match ValidateToolSend(casing, Arguments(target), table, spec)
      case Ok(t) => t == Target(target.dest, target.channel, target.pki)
      case Err(_) => true
  {
    var args := Arguments(target);
    var verdict := ValidateToolSend(casing, args, table, spec);
    if verdict.Ok? {
      AcceptedExactly(casing, args, table, spec, verdict.value);
      assert GivenName(args) == None;
      assert CoerceIndex(args.channelIndex).Ok? ==> CoerceIndex(args.channelIndex).value == target.channel;
      hide ValidateToolSend, Covers, GivenName, CoerceIndex;
    }
  }

  /** A reply to a node is always authorized, if the node has an id; one to a channel exactly
      when the allowlist covers the channel. */
  lemma RepliesAreAuthorizedExactly(casing: Casing, target: Destination, table: seq<Row>, spec: Spec)
    requires IsReplyTarget(target)
    ensures ValidateToolSend(casing, Arguments(target), table, spec).Ok? <==>
      if target.dest.Some? then target.dest.value != ""
      else target.channel >= 0 && Covers(casing, spec, table, target.channel)
  {
    var args, t := Arguments(target), Target(target.dest, target.channel, target.pki);
    AcceptedExactly(casing, args, table, spec, t);
    AuthorizedIsTarget(casing, target, table, spec);
    assert GivenName(args) == None;
    hide ValidateToolSend, Covers, GivenName;
  }

  /** A part of a reply, as the tool is called with it. */
  function PartMessage(part: string, target: Destination, continuation: bool): Message {
    Message(Codes(part), Arguments(target), continuation, true)
  }

  /** The calls made up to and with the first count parts of a reply. */
  function Script(turns: seq<Turn>, parts: seq<string>, target: Destination, count: nat): seq<ToolCall>
    requires count <= |turns| && count <= |parts|
  {
    if count == 0 then []
    else
      var i := count - 1;
      Script(turns, parts, target, i) + OneTurnsCalls(turns[i], parts[i], target, i > 0)
  }

  function OneTurnsCalls(turn: Turn, part: string, target: Destination, continuation: bool): seq<ToolCall> {
    turn.others + [ToolCall(PartMessage(part, target, continuation), turn.world)]
  }

  /** What is admitted for a reply's part is that part, for the reply's own target, and it is
      lost only with the interface. */
  lemma ReplyGoesToTarget(casing: Casing, target: Destination, part: string, continuation: bool, world: World,
                          cfg: LimitConfig, h: seq<Admission>)
    requires IsReplyTarget(target) && Strip(part) == part
    ensures match AdmittedTo(casing, PartMessage(part, target, continuation), world, cfg, h)
      case Some(t) =>
        && t == Target(target.dest, target.channel, target.pki)
        && FateOf(Codes(part), t, world.iface) ==
             (if world.iface.Up? then Called(Packet(part, target.dest, target.channel, target.pki)) else Lost(t))
        && !world.iface.Missing?
      case None => true
  {
    AuthorizedIsTarget(casing, target, world.table, world.spec);
    StripOfCodes(part);
    hide ValidateToolSend, Gate, CallFor, Strip, StripText, IsReplyTarget, Arguments;
  }

  lemma PartMessageIs(part: string, target: Destination, continuation: bool)
    ensures var m := PartMessage(part, target, continuation);
      m.text == Codes(part) && m.continuation == continuation && Encodable(m.text)
  {
  }

  /** A part of a reply to a node is admitted exactly when an interface was seen and the limiter
      lets a direct message to that node through. */
  lemma NodePartIsAdmittedExactly(casing: Casing, node: string, part: string, continuation: bool, world: World,
                                  cfg: LimitConfig, h: seq<Admission>)
    requires node != "" && IsPart(part)
    ensures AdmittedTo(casing, PartMessage(part, Destination(Some(node), 0, true), continuation), world, cfg, h).Some?
       <==> !world.iface.Missing? && Gate(cfg, h, Call(Some(node), None, continuation), world.now) == Admitted
  {
    var target := Destination(Some(node), 0, true);
    PartIsWhole(part);
    RepliesAreAuthorizedExactly(casing, target, world.table, world.spec);
    AuthorizedIsTarget(casing, target, world.table, world.spec);
    hide ValidateToolSend, Gate, StripText, IsPart, Arguments, Codes;
  }

  /** And of a reply to a channel, when that channel is covered and has room. */
  lemma ChannelPartIsAdmittedExactly(casing: Casing, channel: int, part: string, continuation: bool, world: World,
                                     cfg: LimitConfig, h: seq<Admission>)
    requires channel >= 0 && IsPart(part)
    ensures AdmittedTo(casing, PartMessage(part, Destination(None, channel, false), continuation), world, cfg, h).Some?
       <==> && !world.iface.Missing? && Covers(casing, world.spec, world.table, channel)
            && Gate(cfg, h, Call(None, Some(channel), continuation), world.now) == Admitted
  {
    var target := Destination(None, channel, false);
    PartIsWhole(part);
    RepliesAreAuthorizedExactly(casing, target, world.table, world.spec);
    AuthorizedIsTarget(casing, target, world.table, world.spec);
    hide ValidateToolSend, Gate, StripText, IsPart, Arguments, Codes, Covers;
  }

  lemma PartIsWhole(part: string)
    requires IsPart(part)
    ensures StripText(Codes(part)) == Codes(part) != []
  {
    StripOfCodes(part);
    assert |Chars(Codes(part))| == |Codes(part)|;
    hide StripText, Strip, Codes;
  }

  /** The log shows, at a place, a part called to the target and charged as said. */
  ghost predicate PartAt(log: seq<Fate>, h: seq<Admission>, target: Destination, part: string,
                         continuation: bool, place: int) {
    && 0 <= place < |log| == |h|
    && log[place] == Called(Packet(part, target.dest, target.channel, target.pki))
    && h[place].continuation == continuation
    && h[place].bucket == OwnBucket(Target(target.dest, target.channel, target.pki))
  }

  lemma PutOnAir(log: seq<Fate>, h: seq<Admission>, target: Destination, part: string,
                 continuation: bool, now: real)
    requires |log| == |h|
    ensures var fate := Called(Packet(part, target.dest, target.channel, target.pki));
      PartAt(log + [fate], h + [Admission(OwnBucket(TargetOf(fate)), now, continuation)], target, part,
             continuation, |log|)
  {
  }

  /** onAir lists, in order, where the first parts went out, from some place on. */
  ghost predicate OnAir(log: seq<Fate>, h: seq<Admission>, target: Destination, parts: seq<string>,
                        onAir: seq<nat>, from: nat) {
    && |onAir| <= |parts|
    && (forall i | 0 <= i < |onAir| :: from <= onAir[i] && PartAt(log, h, target, parts[i], i > 0, onAir[i]))
    && (forall i, j | 0 <= i < j < |onAir| :: onAir[i] < onAir[j])
  }

  lemma NothingOnAir(log: seq<Fate>, h: seq<Admission>, target: Destination, parts: seq<string>)
    ensures Progress(log, h, target, parts, [], false, |log|, [])
  {
  }

  lemma OnAirStays(log: seq<Fate>, h: seq<Admission>, log': seq<Fate>, h': seq<Admission>,
                   target: Destination, parts: seq<string>, onAir: seq<nat>, from: nat)
    requires OnAir(log, h, target, parts, onAir, from)
    requires log <= log' && h <= h' && |log'| == |h'|
    ensures OnAir(log', h', target, parts, onAir, from)
    ensures forall i | 0 <= i < |onAir| :: onAir[i] < |log|
  {
    forall i | 0 <= i < |onAir| ensures PartAt(log', h', target, parts[i], i > 0, onAir[i]) {
      assert PartAt(log, h, target, parts[i], i > 0, onAir[i]);
    }
  }

  lemma OneMoreOnAir(log: seq<Fate>, h: seq<Admission>, target: Destination, parts: seq<string>,
                     onAir: seq<nat>, from: nat, before: nat)
    requires OnAir(log, h, target, parts, onAir, from) && |onAir| < |parts|
    requires from <= before < |log| && forall i | 0 <= i < |onAir| :: onAir[i] < before
    requires PartAt(log, h, target, parts[|onAir|], |onAir| > 0, |log| - 1)
    ensures OnAir(log, h, target, parts, onAir + [|log| - 1], from)
  {
    hide PartAt;
  }

  /** How many calls others make over some turns. */
  function CountOthers(turns: seq<Turn>): nat {
    if turns == [] then 0 else CountOthers(turns[..|turns| - 1]) + |turns[|turns| - 1].others|
  }

  lemma {:induction false} OthersMonotone(turns: seq<Turn>, k: nat)
    requires k <= |turns|
    ensures CountOthers(turns[..k]) <= CountOthers(turns)
    ensures k > 0 ==> CountOthers(turns[..k]) == CountOthers(turns[..k - 1]) + |turns[k - 1].others|
  {
    if k > 0 {
      assert turns[..k][..k - 1] == turns[..k - 1];
    }
    if k < |turns| {
      OthersMonotone(turns[..|turns| - 1], k);
      assert turns[..|turns| - 1][..k] == turns[..k];
    } else {
      assert turns[..k] == turns;
    }
  }

  /** Over the first turns, only parts of the reply, one that was lost, and others' calls
      were charged. */
  ghost predicate Progress(log: seq<Fate>, h: seq<Admission>, target: Destination, parts: seq<string>,
                           onAir: seq<nat>, lost: bool, from: nat, turns: seq<Turn>)
  {
    && OnAir(log, h, target, parts, onAir, from)
    && |log| <= from + |onAir| + (if lost then 1 else 0) + CountOthers(turns)
  }

  lemma OneTurn(log: seq<Fate>, h: seq<Admission>, log': seq<Fate>, h': seq<Admission>,
                target: Destination, parts: seq<string>, onAir: seq<nat>, from: nat, turns: seq<Turn>, called: bool,
                lost: bool)
    returns (onAir': seq<nat>)
    requires |onAir| < |parts| && |onAir| < |turns|
    requires from <= |log| == |h| && log <= log' && h <= h' && |log'| == |h'|
    requires Progress(log, h, target, parts, onAir, false, from, turns[..|onAir|])
    requires called ==> |log'| > |log| && PartAt(log', h', target, parts[|onAir|], |onAir| > 0, |log'| - 1)
    requires |log'| <= |log| + |turns[|onAir|].others| + (if called || lost then 1 else 0)
    ensures |onAir'| == |onAir| + if called then 1 else 0
    ensures Progress(log', h', target, parts, onAir', lost, from, turns[..|onAir| + 1])
  {
    hide PartAt, OnAir, CountOthers;
    OthersMonotone(turns, |onAir| + 1);
    OnAirStays(log, h, log', h', target, parts, onAir, from);
    onAir' := onAir;
    if called {
      OneMoreOnAir(log', h', target, parts, onAir, from, |log|);
      onAir' := onAir + [|log'| - 1];
    }
  }

  lemma ProgressEnds(log: seq<Fate>, h: seq<Admission>, target: Destination, parts: seq<string>,
                     onAir: seq<nat>, lost: bool, from: nat, turns: seq<Turn>, k: nat)
    requires k <= |turns| && Progress(log, h, target, parts, onAir, lost, from, turns[..k])
    ensures Progress(log, h, target, parts, onAir, lost, from, turns)
  {
    OthersMonotone(turns, k);
  }

  lemma TurnFollows(turns: seq<Turn>, start: real, i: nat, clock: real)
    requires i < |turns| && TurnsInOrder(turns, start)
    requires clock <= if i == 0 then start else turns[i - 1].world.now
    ensures InOrder(turns[i].others, clock, turns[i].world.now)
  {
  }

  /** Stripping leaves a part as it is, and there is something to it. */
  ghost predicate IsPart(part: string) {
    part != "" && Strip(part) == part
  }

  lemma PlanFits(content: string, parts: seq<string>)
    requires IsPlan(content, parts)
    ensures |parts| <= MAX_PARTS
    ensures forall i | 0 <= i < |parts| :: IsPart(parts[i])
  {
    hide IsPlan, Strip;
    if parts != [] {
      PlanIsSendable(content, parts, 0);
    }
    forall i | 0 <= i < |parts| ensures IsPart(parts[i]) {
      PlanIsSendable(content, parts, i);
    }
  }

  lemma NothingPlayed(casing: Casing, config: Option<LimitConfig>, a: Account, turns: seq<Turn>,
                      parts: seq<string>, target: Destination)
    ensures Played(casing, config, a, Script(turns, parts, target, 0)) == a
  {
  }

  lemma ScriptGrows(casing: Casing, config: Option<LimitConfig>, a: Account, turns: seq<Turn>, parts: seq<string>,
                    target: Destination, i: nat)
    requires i < |turns| && i < |parts|
    ensures Played(casing, config, a, Script(turns, parts, target, i + 1))
      == Played(casing, config, Played(casing, config, a, Script(turns, parts, target, i)),
                OneTurnsCalls(turns[i], parts[i], target, i > 0))
  {
    hide Played, OneTurnsCalls;
    PlayedOn(casing, config, a, Script(turns, parts, target, i), OneTurnsCalls(turns[i], parts[i], target, i > 0));
  }

  /** What a call that is not let through is told: the first thing that was wrong with it, and
      when the limiter refused, the gate and the wait. */
  ghost predicate IsToldWhy(answer: Answer, casing: Casing, m: Message, world: World, cfg: LimitConfig,
                            h: seq<Admission>) {
    if StripText(m.text) == [] then answer == NoText
    else
      match ValidateToolSend(casing, m.args, world.table, world.spec)
      case Err(code) => answer == NotPermitted(code)
      case Ok(t) =>
        if !m.timeoutReads then answer.Crashed?
        else if world.iface.Missing? then answer == NotConnected
        else
          match Gate(cfg, h, CallFor(t, m.continuation), world.now)
          case Refused(scope, wait) =>
            answer.Limited? && answer.scope == scope && -0.0005 <= answer.retryAfter - wait <= 0.0005
          case IndexFault => answer.Crashed?
          case Admitted => true
  }

  /** How send ends: the last is a text that cannot be split, since it has no UTF-8. */
  datatype SendResult = Success | Failure | Raised

  class Radio {
    const limiter: TransmitLimiter
    const casing: Casing
    // What became of every admission so far, sendData calls among them.
    var log: seq<Fate>

    ghost predicate Valid()
      reads this, limiter
    {
      limiter.Valid() && Booked(log, limiter.history)
    }

    constructor (limiter: TransmitLimiter, casing: Casing)
      requires limiter.Valid() && limiter.history == []
      ensures Valid() && this.limiter == limiter && this.casing == casing && log == []
    {
      this.limiter := limiter;
      this.casing := casing;
      log := [];
    }

    /** Everything charged and sent so far. */
    ghost function State(): Account
      reads this, limiter
    {
      Account(log, limiter.history)
    }

    /** A part that policy, interface or limiter now turn away. */
    ghost predicate TurnedAway(part: string, target: Destination, continuation: bool, world: World)
      reads this, limiter
    {
      AdmittedTo(casing, PartMessage(part, target, continuation), world, limiter.Limits(world.env), limiter.history).None?
    }

    /** After count parts, the radio failed to send the last one, or the next is turned away
        or lost. */
    ghost predicate Stopped(parts: seq<string>, target: Destination, turns: seq<Turn>, count: nat, lost: bool)
      requires count <= |turns|
      reads this, limiter
    {
      if lost then count < |parts| && count < |turns| && turns[count].world.iface.LostWhileRead?
      else
        || (count > 0 && turns[count - 1].world.delivery != Accepted)
        || (count < |parts| && count < |turns| && TurnedAway(parts[count], target, count > 0, turns[count].world))
    }

    /**
     send_text: policy, then the interface, then the limiter, then the radio. A call that all
     of them let through is charged, for the destination the policy authorized. Its sendData
     is then called, once and with the stripped text, exactly when that text has a UTF-8
     encoding and the interface was not lost while it was read; otherwise the charge is
     spent for nothing. Any other call is not charged and not sent.
     */
    method SendText(m: Message, world: World) returns (answer: Answer)
      requires Valid() && limiter.clock <= world.now
      modifies this, limiter
      ensures Valid() && limiter.clock <= world.now
      ensures match AdmittedTo(casing, m, world, limiter.Limits(world.env), old(limiter.history))
        case Some(t) =>
          var fate := FateOf(m.text, t, world.iface);
          && log == old(log) + [fate]
          && limiter.history == old(limiter.history) + [Admission(OwnBucket(t), world.now, m.continuation)]
          && (fate.Called? <==> Encodable(m.text) && world.iface.Up?)
          && (answer == Sent <==> fate.Called? && world.delivery == Accepted)
          && (!HasError(answer) <==> fate.Called? && TakenForSent(world.delivery))
        case None =>
          && log == old(log) && limiter.history == old(limiter.history)
          && HasError(answer)
          && IsToldWhy(answer, casing, m, world, limiter.Limits(world.env), old(limiter.history))
      ensures State() == Taken(casing, limiter.config, old(State()), ToolCall(m, world))
    {
      hide ValidateToolSend, Gate, Bucket, OwnBucket, StripText, Encodable, Booked, Buckets, Newest, Chronological;
      var stripped := StripText(m.text);
      if stripped == [] {
        return NoText;
      }
      var verdict := ValidateToolSend(casing, m.args, world.table, world.spec);
      if verdict.Err? {
        return NotPermitted(verdict.code);
      }
      if !m.timeoutReads {
        return Crashed(UNEXPECTED + "ack_timeout");
      }
      if world.iface.Missing? {
        return NotConnected;
      }
      var t := verdict.value;
      var outcome := limiter.Check(CallFor(t, m.continuation), world.env, world.now);
      match outcome {
        case Refused(scope, _) => return Limited(scope, outcome.RetryAfter());
        case IndexFault => return Crashed(UNEXPECTED + "list index out of range");
        case Admitted =>
      }
      OneMoreBooked(log, old(limiter.history), FateOf(m.text, t, world.iface), m.continuation, world.now);
      ChargedToOwnBucket(t, m.continuation);
      StrippedEncodable(m.text);
      if world.iface.LostWhileRead? || !Encodable(stripped) {
        log := log + [Lost(t)];
        return Crashed(UNEXPECTED + (if world.iface.LostWhileRead? then "NoneType" else "utf-8"));
      }
      log := log + [Called(PacketTo(Chars(stripped), t))];
      match world.delivery
      case Accepted => answer := Sent;
      case RuntimeFailure(message) => answer := Crashed(message);
      case OtherFailure(message) => answer := Crashed(UNEXPECTED + message);
    }

    /** Calls of the tool by others, one after another. */
    method SendOthers(calls: seq<ToolCall>, ghost until: real)
      requires Valid() && InOrder(calls, limiter.clock, until)
      modifies this, limiter
      ensures Valid() && limiter.clock <= until
      ensures old(log) <= log && old(limiter.history) <= limiter.history
      ensures |log| <= |old(log)| + |calls|
      ensures State() == Played(casing, limiter.config, old(State()), calls)
    {
      for n := 0 to |calls|
        invariant Valid() && limiter.clock <= until
        invariant n < |calls| ==> limiter.clock <= calls[n].world.now
        invariant old(log) <= log && old(limiter.history) <= limiter.history
        invariant |log| <= |old(log)| + n
        invariant State() == Played(casing, limiter.config, old(State()), calls[..n])
      {
        hide Booked, Buckets, Newest, Chronological, AdmittedTo, Encodable, Taken, Played;
        PlayedOne(casing, limiter.config, old(State()), calls[..n], calls[n]);
        assert calls[..n + 1] == calls[..n] + [calls[n]];
        assert ToolCall(calls[n].message, calls[n].world) == calls[n];
        var answer := SendText(calls[n].message, calls[n].world);
      }
      assert calls[..|calls|] == calls;
    }

    /** One part's call of the tool, after whatever others send first. */
    method SendPart(turn: Turn, part: string, target: Destination, continuation: bool)
      returns (failed: bool, ghost called: bool, ghost lost: bool)
      requires Valid() && InOrder(turn.others, limiter.clock, turn.world.now)
      requires IsPart(part) && IsReplyTarget(target)
      modifies this, limiter
      ensures Valid() && limiter.clock <= turn.world.now
      ensures old(log) <= log && old(limiter.history) <= limiter.history
      ensures called ==> |log| > |old(log)| && PartAt(log, limiter.history, target, part, continuation, |log| - 1)
      ensures lost ==> !called && turn.world.iface.LostWhileRead?
      ensures !failed ==> called
      ensures failed ==>
        if called then turn.world.delivery != Accepted
        else lost || TurnedAway(part, target, continuation, turn.world)
      ensures |log| <= |old(log)| + |turn.others| + (if called || lost then 1 else 0)
      ensures State() == Played(casing, limiter.config, old(State()), OneTurnsCalls(turn, part, target, continuation))
    {
      hide Buckets, Newest, Chronological, AdmittedTo, PartMessage, FateOf, IsReplyTarget, CallFor, Bucket,
        Strip, Encodable, InOrder, Taken, Played;
      PlayedOne(casing, limiter.config, State(), turn.others,
                ToolCall(PartMessage(part, target, continuation), turn.world));
      SendOthers(turn.others, turn.world.now);
      label before:
      ReplyGoesToTarget(casing, target, part, continuation, turn.world, limiter.Limits(turn.world.env), limiter.history);
      assert |log| == |limiter.history|;
      PutOnAir(log, limiter.history, target, part, continuation, turn.world.now);
      PartMessageIs(part, target, continuation);
      hide PartAt;
      var answer := SendText(PartMessage(part, target, continuation), turn.world);
      failed := HasError(answer);
      var charged := |log| > |old@before(log)|;
      called := charged && turn.world.iface.Up?;
      lost := charged && !called;
    }

    /** The next part of a reply. */
    method SendNext(turns: seq<Turn>, plan: seq<string>, target: Destination, idx: nat,
                    ghost start: real, ghost onAir: seq<nat>, ghost from: nat, ghost before: Account)
      returns (failed: bool, ghost onAir': seq<nat>, ghost lost: bool)
      requires Valid() && TurnsInOrder(turns, start) && IsReplyTarget(target)
      requires |onAir| == idx < |plan| && idx < |turns| && IsPart(plan[idx]) && from <= |log|
      requires limiter.clock <= if idx == 0 then start else turns[idx - 1].world.now
      requires Progress(log, limiter.history, target, plan, onAir, false, from, turns[..idx])
      requires State() == Played(casing, limiter.config, before, Script(turns, plan, target, idx))
      modifies this, limiter
      ensures Valid() && old(log) <= log
      ensures limiter.clock <= turns[idx].world.now
      ensures Progress(log, limiter.history, target, plan, onAir', lost, from, turns[..idx + 1])
      ensures idx <= |onAir'| <= idx + 1 && (!failed ==> |onAir'| == idx + 1 && !lost)
      ensures failed ==> Stopped(plan, target, turns, |onAir'|, lost)
      ensures State() == Played(casing, limiter.config, before, Script(turns, plan, target, idx + 1))
    {
      hide Buckets, Newest, Chronological, AdmittedTo, PartMessage, IsReplyTarget, Progress, TurnsInOrder, InOrder,
        IsPart, PartAt, Played, Script, OneTurnsCalls, State, TurnedAway, CallFor, Bucket;
      ScriptGrows(casing, limiter.config, before, turns, plan, target, idx);
      TurnFollows(turns, start, idx, limiter.clock);
      ghost var log', history' := log, limiter.history;
      ghost var called;
      failed, called, lost := SendPart(turns[idx], plan[idx], target, idx > 0);
      onAir' := OneTurn(log', history', log, limiter.history, target, plan, onAir, from, turns, called, lost);
    }

    /**
     send: a reply's parts, in order, each a call of the tool like any other, with others
     sending in between. onAir are the places in the log of the parts sendData was called
     for: they are the first parts of the plan, each to the reply's target, all but the
     first charged as continuations, and besides them only others' calls are charged, and at
     most one part that was lost. Success means that sendData was called for every part. The
     reply stops early only at a part that is turned away or lost, or after one that the
     radio failed to send; tried is the number of parts it came to. Everything charged and
     sent is what the calls of the others and for these parts, in their order, lead to. A
     text without a UTF-8 encoding raises before anything is sent.
     */
    method Send(chatId: string, content: CodeText, turns: seq<Turn>)
      returns (result: SendResult, ghost parts: seq<string>, ghost onAir: seq<nat>, ghost lost: bool, ghost tried: nat)
      requires Valid() && |turns| >= MAX_PARTS && TurnsInOrder(turns, limiter.clock)
      modifies this, limiter
      ensures Valid() && old(log) <= log
      ensures result == Raised <==> !Encodable(content)
      ensures result == Raised ==> log == old(log) && limiter.history == old(limiter.history)
      ensures result != Raised ==>
        && IsPlan(Chars(content), parts) && |onAir| <= |parts| <= MAX_PARTS
        && Progress(log, limiter.history, OutboundTarget(chatId), parts, onAir, lost, |old(log)|, turns)
        && (result == Success ==> |onAir| == |parts| && !lost)
        && (result == Failure ==> Stopped(parts, OutboundTarget(chatId), turns, |onAir|, lost))
        && tried <= |parts| && (result == Success ==> tried == |parts|)
        && (result == Failure ==> 0 < tried && |onAir| <= tried <= |onAir| + 1)
        && State() == Played(casing, limiter.config, old(State()), Script(turns, parts, OutboundTarget(chatId), tried))
    {
      hide *;
      parts, onAir, lost, tried := [], [], false, 0;
      if !Encodable(content) {
        return Raised, parts, onAir, lost, tried;
      }
      var target := OutboundTarget(chatId);
      TargetIsReply(chatId);
      var plan := PlanParts(Chars(content));
      parts := plan;
      PlanFits(Chars(content), plan);
      NothingOnAir(log, limiter.history, target, parts);
      NothingPlayed(casing, limiter.config, State(), turns, plan, target);
      for idx := 0 to |plan|
        invariant Valid() && old(log) <= log && |onAir| == idx && !lost
        invariant limiter.clock <= if idx == 0 then old(limiter.clock) else turns[idx - 1].world.now
        invariant Progress(log, limiter.history, target, plan, onAir, false, |old(log)|, turns[..idx])
        invariant State() == Played(casing, limiter.config, old(State()), Script(turns, plan, target, idx))
      {
        var failed;
        failed, onAir, lost := SendNext(turns, plan, target, idx, old(limiter.clock), onAir, |old(log)|, old(State()));
        if failed {
          ProgressEnds(log, limiter.history, target, plan, onAir, lost, |old(log)|, turns, idx + 1);
          return Failure, parts, onAir, lost, idx + 1;
        }
      }
      tried := |plan|;
      ProgressEnds(log, limiter.history, target, plan, onAir, false, |old(log)|, turns, |plan|);
      result := Success;
    }
  }
}
