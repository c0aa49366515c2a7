/** Routing between radio packets and conversations: chat ids, reply policy, reply targets. */
module Bridge {
  import opened Prelude
  import opened Channels
  import opened Mention

  datatype Inbound = Inbound(text: string, sender: string, channel: int, isDm: bool)

  /** Where a reply goes: to a node, end to end, or to everyone on a channel. */
  datatype Destination = Destination(dest: Option<string>, channel: int, pki: bool)

  datatype Decision = Ignored | Skip(inbound: Inbound) | Reply(inbound: Inbound, chatId: string, target: Destination)

  const CH := "ch:"

  function ChatIdFor(inbound: Inbound): string {
    if inbound.isDm then inbound.sender else CH + Decimal(inbound.channel)
  }

  function OutboundTarget(chatId: string): Destination {
    if CH <= chatId then
      Destination(None, match ParseInt(chatId[3..]) case Some(n) => n case None => 0, false)
    else Destination(Some(chatId), 0, true)
  }

  /** A chat id that begins with "ch:" means a channel, channel 0 when no number follows; any
      other means a node. */
  lemma ChatIdIsRead(s: string)
    ensures OutboundTarget("ch:" + s) == Destination(None, if ParseInt(s).Some? then ParseInt(s).value else 0, false)
    ensures !("ch:" <= s) ==> OutboundTarget(s) == Destination(Some(s), 0, true)
  {
    assert ("ch:" + s)[3..] == s;
    hide ParseInt;
  }

  /** The reply goes back where the message came from, unless the sender's id looks like a
      channel's chat id. */
  lemma ReplyReturnsToSender(inbound: Inbound)
    ensures OutboundTarget(ChatIdFor(inbound)) ==
              (if inbound.isDm then Destination(Some(inbound.sender), 0, true)
               else Destination(None, inbound.channel, false))
       <==> !(inbound.isDm && CH <= inbound.sender)
  {
    if !inbound.isDm {
      assert (CH + Decimal(inbound.channel))[3..] == Decimal(inbound.channel);
      ParseIntOfDecimal(inbound.channel);
    }
  }

  /** Two messages share a conversation exactly when they come from the same node, or on the
      same channel, or when one comes from a node that bears the other's channel for an id. */
  lemma ConversationsKeepApart(a: Inbound, b: Inbound)
    ensures ChatIdFor(a) == ChatIdFor(b) <==>
      if a.isDm && b.isDm then a.sender == b.sender
      else if a.isDm then a.sender == CH + Decimal(b.channel)
      else if b.isDm then b.sender == CH + Decimal(a.channel)
      else a.channel == b.channel
  {
    if !a.isDm && !b.isDm && ChatIdFor(a) == ChatIdFor(b) {
      assert (CH + Decimal(a.channel))[3..] == Decimal(a.channel);
      assert (CH + Decimal(b.channel))[3..] == Decimal(b.channel);
      DecimalIsInjective(a.channel, b.channel);
    }
  }

  // ---------------------------------------------------------------------
  // Reading a packet
  // ---------------------------------------------------------------------

  /** A node as a packet may name it. */
  datatype NodeRef = NoNode | ByText(s: string) | ByNumber(n: nat)

  /** A received packet. Payload is the text its bytes decode to with replacements, if it
      has bytes. */
  datatype RadioPacket = RadioPacket(decoded: Option<Decoded>, fromId: string, from: NodeRef, toId: string,
                                     to: NodeRef, channel: Option<int>)

  datatype Decoded = Decoded(portnum: string, text: Option<string>, payload: Option<string>)

  /** The id of a numbered node: an exclamation mark and eight hexadecimal digits, more only
      for a number that needs them. */
  lemma NumberedIdForm(n: nat)
    ensures var id := NormalizeNode(ByNumber(n));
      && id[0] == '!' && |id| >= 9 && (n < 0x1_0000_0000 ==> |id| == 9)
      && forall k | 1 <= k < |id| :: '0' <= id[k] <= '9' || 'a' <= id[k] <= 'f'
  {
    HexForm(n, 8);
    assert Pow16(8) == 0x1_0000_0000;
    hide Hex, Pow16;
  }

  function Pow16(n: nat): nat {
    if n == 0 then 1 else 16 * Pow16(n - 1)
  }

  lemma {:induction false} HexForm(n: nat, width: nat)
    ensures |Hex(n, width)| >= width && (width >= 1 && n < Pow16(width) ==> |Hex(n, width)| == width)
    ensures forall k | 0 <= k < |Hex(n, width)| ::
      '0' <= Hex(n, width)[k] <= '9' || 'a' <= Hex(n, width)[k] <= 'f'
    decreases n, width
  {
    if n >= 16 || width > 1 {
      HexForm(n / 16, if width > 0 then width - 1 else 0);
      DigitForm(n % 16);
      hide HexDigit;
    }
  }

  lemma DigitForm(d: int)
    requires 0 <= d < 16
    ensures '0' <= HexDigit(d) <= '9' || 'a' <= HexDigit(d) <= 'f'
  {
  }

  function HexDigit(d: int): (c: char)
    requires 0 <= d < 16
    ensures HexValue(c) == d
  {
    if d < 10 then '0' + d as char else 'a' + (d - 10) as char
  }

  function HexValue(c: char): int {
    if '0' <= c <= '9' then c as int - '0' as int else c as int - 'a' as int + 10
  }

  /** At least width lower-case hexadecimal digits. */
  function Hex(n: nat, width: nat): string
    decreases n, width
  {
    if n == 0 && width == 0 then ""
    else if n < 16 && width <= 1 then [HexDigit(n)]
    else Hex(n / 16, if width > 0 then width - 1 else 0) + [HexDigit(n % 16)]
  }

  function HexNumber(s: string): int {
    if s == "" then 0 else 16 * HexNumber(s[..|s| - 1]) + HexValue(s[|s| - 1])
  }

  lemma {:induction false} NumberOfHex(n: nat, width: nat)
    ensures HexNumber(Hex(n, width)) == n
    decreases n, width
  {
    if n >= 16 || width > 1 {
      NumberOfHex(n / 16, if width > 0 then width - 1 else 0);
      assert Hex(n, width)[..|Hex(n, width)| - 1] == Hex(n / 16, if width > 0 then width - 1 else 0);
    }
  }

  function NormalizeNode(node: NodeRef): string {
    match node
    case NoNode => ""
    case ByText(s) => s
    case ByNumber(n) => "!" + Hex(n, 8)
  }

  /** Different node numbers have different ids, none of which looks like a channel. */
  lemma NumbersKeepApart(m: nat, n: nat)
    ensures NormalizeNode(ByNumber(m)) == NormalizeNode(ByNumber(n)) <==> m == n
    ensures !(CH <= NormalizeNode(ByNumber(n)))
  {
    NumberOfHex(m, 8);
    NumberOfHex(n, 8);
    hide Hex, HexNumber;
    assert NormalizeNode(ByNumber(n))[0] == '!' && CH[0] == 'c';
    assert ("!" + Hex(m, 8))[1..] == Hex(m, 8) && ("!" + Hex(n, 8))[1..] == Hex(n, 8);
  }

  function NodeIn(id: string, node: NodeRef): string {
    if id != "" then id else NormalizeNode(node)
  }

  function TextIn(decoded: Decoded): string {
    match decoded.text
    case Some(text) => text
    case None => if decoded.payload.Some? then decoded.payload.value else ""
  }

  /** inbound_from_packet: a text we can read, with something in it, that is not our own. */
  function InboundFrom(packet: RadioPacket, me: string): (inbound: Option<Inbound>)
    ensures inbound.None? <==>
      || packet.decoded.None?
      || packet.decoded.value.portnum != "TEXT_MESSAGE_APP"
      || (me != "" && (if packet.fromId != "" then packet.fromId else NormalizeNode(packet.from)) == me)
      || (packet.decoded.value.text == Some(""))
      || (packet.decoded.value.text.None? && packet.decoded.value.payload in {None, Some("")})
    ensures inbound.Some? ==>
      && inbound.value.channel == (match packet.channel case Some(c) => c case None => 0)
      && inbound.value.sender == (if packet.fromId != "" then packet.fromId else NormalizeNode(packet.from))
      && Some(inbound.value.text) ==
           (if packet.decoded.value.text.Some? then packet.decoded.value.text else packet.decoded.value.payload)
      && inbound.value.text != ""
      && (inbound.value.isDm <==>
            me != "" && (if packet.toId != "" then packet.toId else NormalizeNode(packet.to)) == me)
  {
    match packet.decoded
    case None => None
    case Some(decoded) =>
      var sender := NodeIn(packet.fromId, packet.from);
      if decoded.portnum != "TEXT_MESSAGE_APP" || (me != "" && sender == me) || TextIn(decoded) == "" then None
      else
        Some(Inbound(TextIn(decoded), sender, if packet.channel.Some? then packet.channel.value else 0,
                     me != "" && NodeIn(packet.toId, packet.to) == me))
  }

  /** An identity with nothing in it. */
  predicate IsUnknown(who: Option<Identity>) {
    who.None? ||
    var w := who.value;
    && (w.nodeId.None? || w.nodeId.value == "")
    && (w.shortName.None? || w.shortName.value == "")
    && (w.longName.None? || w.longName.value == "")
  }

  /** Some known name of this node opens the message. */
  ghost predicate IsAddressed(casing: Casing, inbound: Inbound, who: Option<Identity>) {
    who.Some? && exists name :: Mentions(casing, inbound.text, who.value, name)
  }

  lemma UnknownIsNotAddressed(casing: Casing, inbound: Inbound, who: Option<Identity>)
    requires IsUnknown(who)
    ensures !IsAddressed(casing, inbound, who)
  {
    assert Strip("") == "";
  }

  /** apply_mention_gate with a mention required. */
  method ApplyMentionGate(casing: Casing, inbound: Inbound, who: Option<Identity>) returns (gated: Option<Inbound>)
    ensures inbound.isDm ==> gated == Some(inbound)
    ensures !inbound.isDm ==> (gated.Some? <==> IsAddressed(casing, inbound, who))
    ensures !inbound.isDm && who.Some? ==>
      && (gated.Some? ==> gated.value == inbound.(text := gated.value.text))
      && IsMatch(casing, inbound.text, who.value, if gated.Some? then Some(gated.value.text) else None)
  {
    if inbound.isDm {
      return Some(inbound);
    }
    if IsUnknown(who) {
      UnknownIsNotAddressed(casing, inbound, who);
      return None;
    }
    var remainder := MatchMention(casing, inbound.text, who.value);
    hide Mentions, Remainder;
    if remainder.Some? {
      ghost var name :| LongestMention(casing, inbound.text, who.value, name);
      assert Mentions(casing, inbound.text, who.value, name);
    }
    if remainder.None? {
      return None;
    }
    gated := Some(inbound.(text := remainder.value));
  }

  /** should_reply without its mention gate. */
  predicate ShouldReply(inbound: Inbound, allowed: Allowed) {
    || inbound.isDm
    || (match allowed
        case Nothing => false
        case Everything => true
        case Slots(slots) => inbound.channel in slots)
  }

  /** A reply to a readable message is due: to a direct message always, and on a channel that
      is open, when it is addressed to us or need not be. */
  ghost predicate IsDue(casing: Casing, inbound: Inbound, allowed: Allowed, who: Option<Identity>,
                        requireMention: bool) {
    || inbound.isDm
    || (&& (allowed.Everything? || (allowed.Slots? && inbound.channel in allowed.slots))
        && (requireMention ==> IsAddressed(casing, inbound, who)))
  }

  /** The message as the responder sees it: only a mention that was required is gone. */
  ghost predicate IsAccepted(casing: Casing, inbound: Inbound, who: Option<Identity>, requireMention: bool,
                             accepted: Inbound) {
    && accepted == inbound.(text := accepted.text)
    && (if requireMention && !inbound.isDm
        then who.Some? && IsMatch(casing, inbound.text, who.value, Some(accepted.text))
        else accepted.text == inbound.text)
  }

  /**
   process_inbound: what is not a readable message from somebody else is ignored. A reply is
   made only to a direct message, or on a channel the allowlist opens, there only to a
   message that mentions this node when a mention is required; and it goes back to where the
   message came from.
   */
  method ProcessInbound(casing: Casing, packet: RadioPacket, me: string, allowed: Allowed, who: Option<Identity>,
                        requireMention: bool)
    returns (decision: Decision)
    ensures decision == Ignored <==> InboundFrom(packet, me).None?
    ensures match InboundFrom(packet, me)
      case None => true
      case Some(inbound) =>
        && (decision.Reply? <==> IsDue(casing, inbound, allowed, who, requireMention))
        && (decision.Skip? ==> decision.inbound == inbound)
        && (decision.Reply? ==>
              && IsAccepted(casing, inbound, who, requireMention, decision.inbound)
              && decision.chatId == (if inbound.isDm then inbound.sender else "ch:" + Decimal(inbound.channel)))
        && (decision.Reply? && !inbound.isDm ==>
              var c := if packet.channel.Some? then packet.channel.value else 0;
              && decision.target == Destination(None, c, false)
              && (allowed.Everything? || (allowed.Slots? && c in allowed.slots)))
        && (decision.Reply? && !(inbound.isDm && CH <= inbound.sender) ==>
              decision.target == (if inbound.isDm then Destination(Some(inbound.sender), 0, true)
                                  else Destination(None, inbound.channel, false)))
  {
    hide InboundFrom, Mentions, IsMatch;
    var read := InboundFrom(packet, me);
    if read.None? {
      return Ignored;
    }
    var inbound := read.value;
    if !ShouldReply(inbound, allowed) {
      return Skip(inbound);
    }
    var accepted := inbound;
    if requireMention {
      var gated := ApplyMentionGate(casing, inbound, who);
      if gated.None? {
        return Skip(inbound);
      }
      accepted := gated.value;
    }
    ReplyReturnsToSender(accepted);
    hide OutboundTarget;
    var chatId := ChatIdFor(accepted);
    decision := Reply(accepted, chatId, OutboundTarget(chatId));
  }
}
