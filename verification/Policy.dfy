/** Transmit policy of the send_text tool: what a call may address, and with which code
    it is turned away. */
module Policy {
  import opened Prelude
  import opened Channels

  /** A JSON argument. Null is also what a missing key reads as. Fractional numbers and
      compound values carry the text str() gives them. */
  datatype Value =
    | Null
    | Bool(b: bool)
    | Int(n: int)
    | Real(r: real, shown: string)
    | Text(s: string)
    | Other(truthy: bool, shown: string)

  datatype Args = Args(dest: Value, pki: Value, channelName: Value, channelIndex: Value)

  datatype Target = Target(dest: Option<string>, channel: int, pki: bool)

  datatype Code =
    | InvalidDest | PkiRequiresDest | InvalidChannel | DmRequiresPki | BroadcastDisabled
    | UnknownChannel | ChannelRequired | NoAllowedChannels | ChannelNotAllowed | PrimaryNotAllowed

  datatype Result<+T> = Ok(value: T) | Err(code: Code)

  predicate Truthy(v: Value) {
    match v
    case Null => false
    case Bool(b) => b
    case Int(n) => n != 0
    case Real(r, _) => r != 0.0
    case Text(s) => s != ""
    case Other(truthy, _) => truthy
  }

  /** str(v) */
  function Show(v: Value): string {
    match v
    case Null => "None"
    case Bool(b) => if b then "True" else "False"
    case Int(n) => Decimal(n)
    case Real(_, shown) => shown
    case Text(s) => s
    case Other(_, shown) => shown
  }

  /** int() drops the fraction towards zero. */
  function Truncate(r: real): int {
    if r >= 0.0 then r.Floor else -((-r).Floor)
  }

  function CoerceIndex(v: Value): Result<int> {
    var n := match v
      case Int(n) => Some(n)
      case Real(r, _) => Some(Truncate(r))
      case Text(s) => ParseInt(s)
      case _ => None;
    if n.Some? && n.value >= 0 then Ok(n.value) else Err(InvalidChannel)
  }

  function PrimaryIndex(casing: Casing, table: seq<Row>): Option<int> {
    First(table, Primary(casing))
  }

  /** Whether the allowlist writes the primary down: by slot, or by a name that leads there. */
  predicate PrimaryNamed(casing: Casing, spec: Spec, table: seq<Row>) {
    spec.Listed? &&
    match PrimaryIndex(casing, table)
    case None => false
    case Some(primary) =>
      || primary in spec.indices
      || (var allowed := Resolve(casing, Listed(spec.names, {}), table).0;
          allowed.Slots? && primary in allowed.slots)
  }

  function ResolveName(casing: Casing, name: string, table: seq<Row>): Result<int> {
    var resolved := Resolve(casing, Listed([name], {}), table).1;
    if name in resolved then Ok(resolved[name]) else Err(UnknownChannel)
  }

  /** The channel name a call gives, if it gives one that is not blank. */
  function GivenName(args: Args): Option<string> {
    if !args.channelName.Null? && Strip(Show(args.channelName)) != ""
    then Some(Strip(Show(args.channelName)))
    else None
  }

  /** The channel a broadcast call asks for; there is no default. */
  function AskedChannel(casing: Casing, args: Args, table: seq<Row>): Result<int> {
    match GivenName(args)
    case Some(name) => ResolveName(casing, name, table)
    case None => if args.channelIndex.Null? then Err(ChannelRequired) else CoerceIndex(args.channelIndex)
  }

  function ValidateBroadcast(casing: Casing, args: Args, table: seq<Row>, spec: Spec): Result<Target> {
    if spec.NoChannels? then Err(BroadcastDisabled)
    else
      var allowed := Resolve(casing, spec, table).0;
      match AskedChannel(casing, args, table)
      case Err(code) => Err(code)
      case Ok(index) =>
        if allowed == Nothing then Err(NoAllowedChannels)
        else if allowed.Slots? && index !in allowed.slots then Err(ChannelNotAllowed)
        else if PrimaryIndex(casing, table) == Some(index) && !PrimaryNamed(casing, spec, table) then
          Err(PrimaryNotAllowed)
        else Ok(Target(None, index, false))
  }

  function ValidateToolSend(casing: Casing, args: Args, table: seq<Row>, spec: Spec): Result<Target> {
    var pki := Truthy(args.pki);
    if Truthy(args.dest) && !args.dest.Text? then Err(InvalidDest)
    else if pki && !Truthy(args.dest) then Err(PkiRequiresDest)
    else if Truthy(args.dest) && pki then
      if args.channelIndex.Null? then Ok(Target(Some(args.dest.s), 0, true))
      else
        match CoerceIndex(args.channelIndex)
        case Err(code) => Err(code)
        case Ok(index) => Ok(Target(Some(args.dest.s), index, true))
    else if Truthy(args.dest) then Err(DmRequiresPki)
    else ValidateBroadcast(casing, args, table, spec)
  }

  // ---------------------------------------------------------------------
  // What is accepted
  // ---------------------------------------------------------------------

  /** What bool() takes for false. */
  ghost predicate IsFalse(v: Value) {
    || v in {Null, Bool(false), Int(0), Text("")}
    || (v.Real? && v.r == 0.0)
    || (v.Other? && !v.truthy)
  }

  /** What int() makes this channel of: a whole number, a fraction cut off towards zero, or a
      numeral. */
  ghost predicate IsIndex(v: Value, n: int) {
    && n >= 0
    && (|| v == Int(n)
        || (v.Real? && (if n == 0 then -1.0 < v.r < 1.0 else n as real <= v.r < n as real + 1.0))
        || (v.Text? && ParseInt(v.s) == Some(n)))
  }

  lemma TruthyIsNotFalse(v: Value)
    ensures Truthy(v) <==> !IsFalse(v)
  {
  }

  lemma IndexIsCoerced(v: Value, n: int)
    ensures CoerceIndex(v) == Ok(n) <==> IsIndex(v, n)
    ensures CoerceIndex(v).Err? ==> CoerceIndex(v) == Err(InvalidChannel)
  {
    hide ParseInt;
  }

  /** A private message to the node the call names; the channel is only a routing slot. */
  ghost predicate IsPrivate(args: Args, t: Target) {
    && args.dest.Text? && args.dest.s != "" && !IsFalse(args.pki)
    && t.dest == Some(args.dest.s) && t.pki
    && (if args.channelIndex == Null then t.channel == 0 else IsIndex(args.channelIndex, t.channel))
  }

  /** The call gives a channel name that is not blank. */
  ghost predicate GivesName(args: Args) {
    args.channelName != Null && Strip(Show(args.channelName)) != ""
  }

  /** The call itself says which channel: by a name standing for one of its rows, or by index. */
  ghost predicate Names(casing: Casing, args: Args, table: seq<Row>, channel: int) {
    if GivesName(args) then NamesSlot(casing, table, Strip(Show(args.channelName)), channel)
    else IsIndex(args.channelIndex, channel)
  }

  /** The allowlist writes this slot down, or one of its names stands for its row. */
  ghost predicate Lists(casing: Casing, spec: Spec, table: seq<Row>, channel: int) {
    spec.Listed? &&
    (|| channel in spec.indices
     || exists name | name in spec.names :: NamesSlot(casing, table, name, channel))
  }

  /** The wildcard opens every slot but the primary one. */
  ghost predicate Covers(casing: Casing, spec: Spec, table: seq<Row>, channel: int) {
    || Lists(casing, spec, table, channel)
    || (spec.AllChannels? && !IsPrimaryOf(casing, table, channel))
  }

  lemma ResolveCovers(casing: Casing, spec: Spec, table: seq<Row>, channel: int)
    requires spec.Listed?
    ensures var allowed := Resolve(casing, spec, table).0;
      Lists(casing, spec, table, channel) <==> allowed.Slots? && channel in allowed.slots
  {
    var resolved := Resolved(casing, spec.names, table);
    hide Lookup, NamesSlot;
    forall name ensures NamesSlot(casing, table, name, channel) <==> Lookup(casing, table, name) == Some(channel) {
      LookupFindsTheRow(casing, table, name, channel);
    }
    if name :| name in spec.names && Lookup(casing, table, name) == Some(channel) {
      assert name in resolved && resolved[name] == channel;
      assert channel in resolved.Values;
    }
    if channel in resolved.Values {
      var name :| name in resolved && resolved[name] == channel;
      assert Lookup(casing, table, name) == Some(channel);
    }
  }

  /** The primary slot is let through exactly when the allowlist writes it down. */
  lemma PrimaryNamedIsListed(casing: Casing, spec: Spec, table: seq<Row>, primary: int)
    requires PrimaryIndex(casing, table) == Some(primary)
    ensures PrimaryNamed(casing, spec, table) <==> Lists(casing, spec, table, primary)
  {
    hide Resolve, Lookup, First;
    if spec.Listed? {
      ResolveCovers(casing, Listed(spec.names, {}), table, primary);
    }
  }

  lemma ResolveNameIsLookup(casing: Casing, name: string, table: seq<Row>)
    ensures ResolveName(casing, name, table) ==
      match Lookup(casing, table, name) case Some(i) => Ok(i) case None => Err(UnknownChannel)
  {
    hide Lookup;
  }

  lemma AskedIsNamed(casing: Casing, args: Args, table: seq<Row>, channel: int)
    ensures AskedChannel(casing, args, table) == Ok(channel) <==> Names(casing, args, table, channel)
  {
    hide Lookup, Strip, ResolveName, NamesSlot, CoerceIndex, IsIndex, Show;
    IndexIsCoerced(args.channelIndex, channel);
    match GivenName(args) {
      case Some(name) =>
        ResolveNameIsLookup(casing, name, table);
        LookupFindsTheRow(casing, table, name, channel);
      case None =>
        NullIsNoIndex(channel);
    }
  }

  lemma NullIsNoIndex(channel: int)
    ensures !IsIndex(Null, channel)
  {
  }

  lemma BroadcastAcceptedExactly(casing: Casing, args: Args, table: seq<Row>, spec: Spec, t: Target)
    ensures ValidateBroadcast(casing, args, table, spec) == Ok(t) <==>
      && t == Target(None, t.channel, false)
      && AskedChannel(casing, args, table) == Ok(t.channel)
      && Covers(casing, spec, table, t.channel)
  {
    BroadcastVerdict(casing, args, table, spec);
    ListsNeedAList(casing, spec, table, t.channel);
    hide IsPrimaryOf, AskedChannel, ValidateBroadcast, Lists;
  }

  /**
   A tool send is accepted exactly when it is a private message to a node it names, or a
   broadcast on a channel it names and the allowlist covers.
   */
  lemma AcceptedExactly(casing: Casing, args: Args, table: seq<Row>, spec: Spec, t: Target)
    ensures ValidateToolSend(casing, args, table, spec) == Ok(t) <==>
      || IsPrivate(args, t)
      || (&& IsFalse(args.dest) && IsFalse(args.pki)
          && t == Target(None, t.channel, false)
          && Names(casing, args, table, t.channel)
          && Covers(casing, spec, table, t.channel))
  {
    AskedIsNamed(casing, args, table, t.channel);
    BroadcastAcceptedExactly(casing, args, table, spec, t);
    TruthyIsNotFalse(args.dest);
    TruthyIsNotFalse(args.pki);
    IndexIsCoerced(args.channelIndex, t.channel);
    hide ValidateBroadcast, Names, AskedChannel, Covers, CoerceIndex, IsIndex;
  }

  /** The primary slot is never reached through the wildcard. */
  lemma PrimaryOnlyWhenListed(casing: Casing, args: Args, table: seq<Row>, spec: Spec, t: Target)
    requires ValidateToolSend(casing, args, table, spec) == Ok(t) && t.dest.None?
    requires IsPrimaryOf(casing, table, t.channel)
    ensures Lists(casing, spec, table, t.channel)
  {
    hide Lists, IsPrimaryOf, Names, ValidateToolSend, IsFalse;
    AcceptedExactly(casing, args, table, spec, t);
  }

  // ---------------------------------------------------------------------
  // What is rejected, with which code
  // ---------------------------------------------------------------------

  /** A broadcast call, with broadcasts configured. */
  ghost predicate IsBroadcast(args: Args, spec: Spec) {
    IsFalse(args.dest) && IsFalse(args.pki) && !spec.NoChannels?
  }

  /** Nothing on the allowlist leads to a slot. */
  ghost predicate ListsNothing(casing: Casing, spec: Spec, table: seq<Row>) {
    spec.Listed? && forall channel :: !Lists(casing, spec, table, channel)
  }

  ghost predicate NamesAny(casing: Casing, args: Args, table: seq<Row>) {
    exists channel :: Names(casing, args, table, channel)
  }

  ghost predicate NamesUnlisted(casing: Casing, args: Args, table: seq<Row>, spec: Spec) {
    exists channel :: Names(casing, args, table, channel) && !Lists(casing, spec, table, channel)
  }

  ghost predicate NamesPrimary(casing: Casing, args: Args, table: seq<Row>) {
    exists channel :: Names(casing, args, table, channel) && IsPrimaryOf(casing, table, channel)
  }

  ghost predicate IsNoIndex(v: Value) {
    v != Null && forall n :: !IsIndex(v, n)
  }

  /** The first reason there is against a call. */
  ghost predicate IsReason(casing: Casing, args: Args, table: seq<Row>, spec: Spec, code: Code) {
    match code
    case InvalidDest => !IsFalse(args.dest) && !args.dest.Text?
    case PkiRequiresDest => IsFalse(args.dest) && !IsFalse(args.pki)
    case DmRequiresPki => !IsFalse(args.dest) && args.dest.Text? && IsFalse(args.pki)
    case InvalidChannel =>
      && IsNoIndex(args.channelIndex)
      && (if IsFalse(args.dest) then IsBroadcast(args, spec) && !GivesName(args)
          else args.dest.Text? && !IsFalse(args.pki))
    case BroadcastDisabled => IsFalse(args.dest) && IsFalse(args.pki) && spec.NoChannels?
    case UnknownChannel => IsBroadcast(args, spec) && GivesName(args) && !NamesAny(casing, args, table)
    case ChannelRequired => IsBroadcast(args, spec) && !GivesName(args) && args.channelIndex == Null
    case NoAllowedChannels =>
      IsBroadcast(args, spec) && NamesAny(casing, args, table) && ListsNothing(casing, spec, table)
    case ChannelNotAllowed =>
      IsBroadcast(args, spec) && spec.Listed? && !ListsNothing(casing, spec, table)
      && NamesUnlisted(casing, args, table, spec)
    case PrimaryNotAllowed =>
      IsBroadcast(args, spec) && spec.AllChannels? && NamesPrimary(casing, args, table)
  }

  lemma NothingListed(casing: Casing, spec: Spec, table: seq<Row>)
    requires spec.Listed?
    ensures Resolve(casing, spec, table).0 == Nothing <==> ListsNothing(casing, spec, table)
  {
    var allowed := Resolve(casing, spec, table).0;
    assert allowed.Nothing? || (allowed.Slots? && allowed.slots != {});
    forall channel ensures Lists(casing, spec, table, channel) <==> allowed.Slots? && channel in allowed.slots {
      ResolveCovers(casing, spec, table, channel);
    }
    hide Resolve, Lists;
    if allowed.Slots? {
      var channel := SomeElement(allowed.slots);
      assert Lists(casing, spec, table, channel);
    }
  }

  lemma SomeElement(s: set<int>) returns (i: int)
    requires s != {}
    ensures i in s
  {
    assert (forall x: int :: x !in s) ==> s <= {};
    i :| i in s;
  }

  /** What the asked channel is rejected for. */
  lemma AskedIsRejected(casing: Casing, args: Args, table: seq<Row>)
    ensures match AskedChannel(casing, args, table)
      case Ok(c) => Names(casing, args, table, c) && forall d | Names(casing, args, table, d) :: d == c
      case Err(code) =>
        && (forall c :: !Names(casing, args, table, c))
        && code == (if GivesName(args) then UnknownChannel
                    else if args.channelIndex == Null then ChannelRequired else InvalidChannel)
  {
    forall c ensures AskedChannel(casing, args, table) == Ok(c) <==> Names(casing, args, table, c) {
      AskedIsNamed(casing, args, table, c);
    }
    AskedCode(casing, args, table);
    hide AskedChannel, Names, GivesName;
  }

  lemma AskedCode(casing: Casing, args: Args, table: seq<Row>)
    ensures match AskedChannel(casing, args, table)
      case Ok(_) => true
      case Err(code) =>
        code == (if GivesName(args) then UnknownChannel
                 else if args.channelIndex == Null then ChannelRequired else InvalidChannel)
  {
    hide Lookup, Strip, Show, CoerceIndex, ResolveName, IsIndex;
    match GivenName(args) {
      case Some(name) => ResolveNameIsLookup(casing, name, table);
      case None => IndexIsCoerced(args.channelIndex, 0);
    }
  }

  lemma BroadcastIsRejected(casing: Casing, args: Args, table: seq<Row>, spec: Spec, code: Code)
    requires IsFalse(args.dest) && IsFalse(args.pki)
    ensures ValidateBroadcast(casing, args, table, spec) == Err(code) <==>
      IsReason(casing, args, table, spec, code)
  {
    hide *;
    AskedTells(casing, args, table, spec);
    NothingIsNoList(casing, spec, table);
    BroadcastVerdict(casing, args, table, spec);
    ReasonsForBroadcast(casing, args, table, spec, code);
  }

  /** The reasons that there are against a call that is no message to a node. */
  lemma ReasonsForBroadcast(casing: Casing, args: Args, table: seq<Row>, spec: Spec, code: Code)
    requires IsFalse(args.dest) && IsFalse(args.pki)
    ensures IsReason(casing, args, table, spec, code) <==>
      match code
      case BroadcastDisabled => spec.NoChannels?
      case InvalidChannel => !spec.NoChannels? && !GivesName(args) && IsNoIndex(args.channelIndex)
      case UnknownChannel => !spec.NoChannels? && GivesName(args) && !NamesAny(casing, args, table)
      case ChannelRequired => !spec.NoChannels? && !GivesName(args) && args.channelIndex == Null
      case NoAllowedChannels =>
        !spec.NoChannels? && NamesAny(casing, args, table) && ListsNothing(casing, spec, table)
      case ChannelNotAllowed =>
        spec.Listed? && !ListsNothing(casing, spec, table) && NamesUnlisted(casing, args, table, spec)
      case PrimaryNotAllowed => spec.AllChannels? && NamesPrimary(casing, args, table)
      case _ => false
  {
    hide IsFalse, GivesName, IsNoIndex, NamesAny, NamesUnlisted, NamesPrimary, ListsNothing;
  }

  /** All that the asked channel decides. */
  lemma AskedTells(casing: Casing, args: Args, table: seq<Row>, spec: Spec)
    ensures IsNoIndex(args.channelIndex) ==> args.channelIndex != Null
    ensures match AskedChannel(casing, args, table)
      case Ok(c) =>
        && NamesAny(casing, args, table)
        && (NamesUnlisted(casing, args, table, spec) <==> !Lists(casing, spec, table, c))
        && (NamesPrimary(casing, args, table) <==> IsPrimaryOf(casing, table, c))
        && (!GivesName(args) ==> !IsNoIndex(args.channelIndex) && args.channelIndex != Null)
      case Err(code) =>
        && !NamesAny(casing, args, table) && !NamesUnlisted(casing, args, table, spec)
        && !NamesPrimary(casing, args, table)
        && (!GivesName(args) && args.channelIndex != Null ==> IsNoIndex(args.channelIndex))
        && code == (if GivesName(args) then UnknownChannel
                    else if args.channelIndex == Null then ChannelRequired else InvalidChannel)
  {
    AskedIsRejected(casing, args, table);
    NamesApart(casing, args, table);
    hide AskedChannel, Lists, Names, NamesSlot, IsIndex, IsPrimaryOf, GivesName;
    var asked := AskedChannel(casing, args, table);
    if asked.Ok? {
      assert Names(casing, args, table, asked.value);
    }
  }

  lemma NothingIsNoList(casing: Casing, spec: Spec, table: seq<Row>)
    ensures ListsNothing(casing, spec, table) ==> spec.Listed?
  {
  }

  lemma ListsNeedAList(casing: Casing, spec: Spec, table: seq<Row>, channel: int)
    ensures Lists(casing, spec, table, channel) ==> spec.Listed?
  {
  }

  /** The order in which a broadcast is judged. */
  lemma BroadcastVerdict(casing: Casing, args: Args, table: seq<Row>, spec: Spec)
    ensures ValidateBroadcast(casing, args, table, spec) ==
      if spec.NoChannels? then Err(BroadcastDisabled)
      else
        match AskedChannel(casing, args, table)
        case Err(code) => Err(code)
        case Ok(index) =>
          if ListsNothing(casing, spec, table) then Err(NoAllowedChannels)
          else if spec.Listed? && !Lists(casing, spec, table, index) then Err(ChannelNotAllowed)
          else if spec.AllChannels? && IsPrimaryOf(casing, table, index) then Err(PrimaryNotAllowed)
          else Ok(Target(None, index, false))
  {
    var asked := AskedChannel(casing, args, table);
    if spec.Listed? {
      NothingListed(casing, spec, table);
      if asked.Ok? {
        ResolveCovers(casing, spec, table, asked.value);
      }
    }
    if asked.Ok? {
      PrimaryIsFirst(casing, table, asked.value);
      if PrimaryIndex(casing, table) == Some(asked.value) {
        PrimaryNamedIsListed(casing, spec, table, asked.value);
      }
      assert PrimaryIndex(casing, table) == Some(asked.value) <==> IsPrimaryOf(casing, table, asked.value);
    }
    assert spec.AllChannels? ==> !PrimaryNamed(casing, spec, table);
    assert !spec.Listed? ==> !ListsNothing(casing, spec, table);
    hide IsPrimaryOf, PrimaryIndex, AskedChannel, Lists, PrimaryNamed, Resolved, ListsNothing;
  }

  lemma NamesApart(casing: Casing, args: Args, table: seq<Row>)
    ensures GivesName(args) ==>
      forall c :: Names(casing, args, table, c) <==> NamesSlot(casing, table, Strip(Show(args.channelName)), c)
    ensures !GivesName(args) ==> forall c :: Names(casing, args, table, c) <==> IsIndex(args.channelIndex, c)
    ensures !GivesName(args) && args.channelIndex == Null ==> forall c :: !IsIndex(args.channelIndex, c)
  {
    hide NamesSlot;
  }

  /** A call is turned away with a code exactly when that is the first reason against it. */
  lemma RejectedExactly(casing: Casing, args: Args, table: seq<Row>, spec: Spec, code: Code)
    ensures ValidateToolSend(casing, args, table, spec) == Err(code) <==>
      IsReason(casing, args, table, spec, code)
  {
    TruthyIsNotFalse(args.dest);
    TruthyIsNotFalse(args.pki);
    hide Truthy, IsIndex, CoerceIndex, NamesAny, NamesUnlisted, NamesPrimary, ListsNothing, GivesName, ValidateBroadcast;
    if IsFalse(args.dest) && IsFalse(args.pki) {
      BroadcastIsRejected(casing, args, table, spec, code);
    } else {
      IndexIsGivenOrNot(args.channelIndex);
    }
  }

  lemma IndexIsGivenOrNot(v: Value)
    ensures CoerceIndex(v).Err? ==> CoerceIndex(v) == Err(InvalidChannel) && (v != Null ==> IsNoIndex(v))
    ensures CoerceIndex(v).Ok? ==> !IsNoIndex(v)
  {
    forall n ensures CoerceIndex(v) == Ok(n) <==> IsIndex(v, n) {
      IndexIsCoerced(v, n);
    }
    IndexIsCoerced(v, 0);
    hide CoerceIndex, IsIndex;
  }

  // ---------------------------------------------------------------------
  // Names keep their meaning when the radio is rearranged
  // ---------------------------------------------------------------------

  function MovedAllowed(f: int -> int, allowed: Allowed): Allowed {
    match allowed
    case Slots(slots) => Slots(Image(f, slots))
    case _ => allowed
  }

  function Image(f: int -> int, s: set<int>): set<int> {
    set i | i in s :: f(i)
  }

  function MovedResult(f: int -> int, r: Result<Target>): Result<Target> {
    match r
    case Ok(t) => Ok(t.(channel := f(t.channel)))
    case Err(code) => Err(code)
  }

  /** channel is the slot of some row. */
  ghost predicate IsSlot(table: seq<Row>, channel: int) {
    exists k | 0 <= k < |table| :: table[k].index == Some(channel)
  }

  lemma SlotsKeepApart(table: seq<Row>, table': seq<Row>, f: int -> int, to: seq<nat>, from: seq<nat>, i: int, j: int)
    requires Rearranged(table, table', f, to, from) && IsSlot(table, i) && IsSlot(table, j)
    ensures f(i) == f(j) ==> i == j
  {
  }

  lemma FoundIsSlot(casing: Casing, table: seq<Row>, name: string)
    ensures match Lookup(casing, table, name) case Some(i) => IsSlot(table, i) case None => true
    ensures match PrimaryIndex(casing, table) case Some(i) => IsSlot(table, i) case None => true
  {
    var k := FirstIsFirst(table, Named(name));
    var m := FirstIsFirst(table, UnnamedPrimary(casing));
    var n := FirstIsFirst(table, Primary(casing));
  }

  lemma ListsMoves(casing: Casing, names: seq<string>, table: seq<Row>, table': seq<Row>, f: int -> int,
                   to: seq<nat>, from: seq<nat>, channel: int)
    requires Rearranged(table, table', f, to, from)
    requires DistinctNames(table) && OnePrimary(casing, table)
    requires IsSlot(table, channel)
    ensures Lists(casing, Listed(names, {}), table', f(channel)) <==> Lists(casing, Listed(names, {}), table, channel)
  {
    hide Rearranged, Lookup, DistinctNames, OnePrimary, IsSlot, NamesSlot;
    forall name | name in names
      ensures NamesSlot(casing, table', name, f(channel)) <==> NamesSlot(casing, table, name, channel)
    {
      LookupFindsTheRow(casing, table', name, f(channel));
      LookupFindsTheRow(casing, table, name, channel);
      LookupMoves(casing, table, table', f, to, from, name);
      FoundIsSlot(casing, table, name);
      if Lookup(casing, table, name).Some? {
        SlotsKeepApart(table, table', f, to, from, Lookup(casing, table, name).value, channel);
      }
    }
  }

  /** Renumbering the slots renumbers what a list of names resolves to, name by name. */
  lemma ResolveMoves(casing: Casing, names: seq<string>, table: seq<Row>, table': seq<Row>, f: int -> int,
                     to: seq<nat>, from: seq<nat>)
    requires Rearranged(table, table', f, to, from)
    requires DistinctNames(table) && OnePrimary(casing, table)
    ensures var (allowed, resolved) := Resolve(casing, Listed(names, {}), table);
      Resolve(casing, Listed(names, {}), table') ==
        (MovedAllowed(f, allowed), map name | name in resolved :: f(resolved[name]))
  {
    hide Rearranged, Lookup, DistinctNames, OnePrimary;
    var resolved, resolved' := Resolved(casing, names, table), Resolved(casing, names, table');
    forall name ensures Lookup(casing, table', name) == Renumbered(f, Lookup(casing, table, name)) {
      LookupMoves(casing, table, table', f, to, from, name);
    }
    assert resolved' == map name | name in resolved :: f(resolved[name]);
    ImageOfValues(f, resolved, resolved');
    assert {} + resolved.Values == resolved.Values && {} + resolved'.Values == resolved'.Values;
    EmptyTogether(resolved, resolved');
  }

  lemma EmptyTogether(m: map<string, int>, m': map<string, int>)
    requires m.Keys == m'.Keys
    ensures m.Values == {} <==> m'.Values == {}
  {
    if name :| name in m {
      assert m[name] in m.Values && m'[name] in m'.Values;
    } else {
      assert m == map[] && m' == map[];
    }
  }

  lemma InImage(f: int -> int, s: set<int>, i: int)
    requires i in s
    ensures f(i) in Image(f, s)
  {
  }

  lemma ImageOfValues(f: int -> int, m: map<string, int>, m': map<string, int>)
    requires m' == map name | name in m :: f(m[name])
    ensures m'.Values == Image(f, m.Values)
  {
    forall v | v in m'.Values ensures v in Image(f, m.Values) {
      var name :| name in m' && m'[name] == v;
      InImage(f, m.Values, m[name]);
    }
    forall v | v in Image(f, m.Values) ensures v in m'.Values {
      var i :| i in m.Values && f(i) == v;
      var name :| name in m && m[name] == i;
      assert name in m' && m'[name] == v;
    }
  }

  lemma AskedMoves(casing: Casing, args: Args, table: seq<Row>, table': seq<Row>, f: int -> int,
                   to: seq<nat>, from: seq<nat>)
    requires Rearranged(table, table', f, to, from)
    requires DistinctNames(table) && OnePrimary(casing, table) && GivenName(args).Some?
    ensures match AskedChannel(casing, args, table)
      case Ok(i) => IsSlot(table, i) && AskedChannel(casing, args, table') == Ok(f(i))
      case Err(code) => AskedChannel(casing, args, table') == Err(code)
  {
    var name := GivenName(args).value;
    hide *;
    LookupMoves(casing, table, table', f, to, from, name);
    ResolveNameIsLookup(casing, name, table);
    ResolveNameIsLookup(casing, name, table');
    FoundIsSlot(casing, table, name);
  }

  /**
   A broadcast addressed by name, under a list of names or the wildcard, is accepted on
   the slot its channel moved to, or turned away with the same code as before.
   */
  lemma BroadcastByNameMoves(casing: Casing, args: Args, table: seq<Row>, table': seq<Row>, spec: Spec,
                             f: int -> int, to: seq<nat>, from: seq<nat>)
    requires Rearranged(table, table', f, to, from)
    requires DistinctNames(table) && OnePrimary(casing, table)
    requires !Truthy(args.dest) && GivenName(args).Some?
    requires spec.Listed? ==> spec.indices == {}
    ensures ValidateToolSend(casing, args, table', spec) ==
            MovedResult(f, ValidateToolSend(casing, args, table, spec))
  {
    hide Rearranged, Lookup, DistinctNames, OnePrimary, IsSlot, Resolved, PrimaryNamed, First, GivenName,
      AskedChannel;
    AskedMoves(casing, args, table, table', f, to, from);
    if spec.Listed? {
      ResolveMoves(casing, spec.names, table, table', f, to, from);
    }
    if AskedChannel(casing, args, table).Ok? {
      MovedChannelJudgedAlike(casing, table, table', spec, f, to, from, AskedChannel(casing, args, table).value);
    }
  }

  /** What ValidateBroadcast asks about a slot has the same answer about where it moved. */
  lemma MovedChannelJudgedAlike(casing: Casing, table: seq<Row>, table': seq<Row>, spec: Spec, f: int -> int,
                                to: seq<nat>, from: seq<nat>, index: int)
    requires Rearranged(table, table', f, to, from)
    requires DistinctNames(table) && OnePrimary(casing, table)
    requires spec.Listed? ==> spec.indices == {}
    requires IsSlot(table, index)
    ensures spec.Listed? ==>
      var allowed, allowed' := Resolve(casing, spec, table).0, Resolve(casing, spec, table').0;
      (allowed'.Slots? && f(index) in allowed'.slots) <==> (allowed.Slots? && index in allowed.slots)
    ensures PrimaryIndex(casing, table') == Some(f(index)) <==> PrimaryIndex(casing, table) == Some(index)
    ensures PrimaryIndex(casing, table) == Some(index) ==>
      (PrimaryNamed(casing, spec, table') <==> PrimaryNamed(casing, spec, table))
  {
    assert AtMostOne(table, Primary(casing)) && IgnoresSlot(Primary(casing), f);
    FirstMoves(table, table', f, to, from, Primary(casing));
    FoundIsSlot(casing, table, "");
    if PrimaryIndex(casing, table).Some? {
      SlotsKeepApart(table, table', f, to, from, PrimaryIndex(casing, table).value, index);
    }
    if spec.Listed? {
      ListsMoves(casing, spec.names, table, table', f, to, from, index);
      ResolveCovers(casing, spec, table, index);
      ResolveCovers(casing, spec, table', f(index));
    }
    if PrimaryIndex(casing, table) == Some(index) {
      PrimaryNamedIsListed(casing, spec, table, index);
      PrimaryNamedIsListed(casing, spec, table', f(index));
    }
    hide Rearranged, Lookup, DistinctNames, OnePrimary, Resolve, PrimaryNamed, First;
  }
}
