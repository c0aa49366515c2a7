/** Channel allowlists: names and slots, resolved against the radio's channel table. */
module Channels {
  import opened Prelude

  /** Case mapping, taken to work character by character. */
  datatype Casing = Casing(lower: char -> char, upper: char -> char) {
    function Lower(s: string): string {
      seq(|s|, i requires 0 <= i < |s| => lower(s[i]))
    }

    function Upper(s: string): string {
      seq(|s|, i requires 0 <= i < |s| => upper(s[i]))
    }
  }

  datatype Role = NoRole | Number(n: int) | Label(s: string)

  /** One row of the table. A row without an index is skipped everywhere. */
  datatype Row = Row(index: Option<int>, name: string, role: Role)

  datatype Spec = NoChannels | AllChannels | Listed(names: seq<string>, indices: set<int>)

  datatype Allowed = Nothing | Everything | Slots(slots: set<int>)

  predicate IsAlias(casing: Casing, name: string) {
    casing.Lower(name) in {"primary", "longfast"}
  }

  predicate HasPrimaryRole(casing: Casing, row: Row) {
    || row.role == Number(1)
    || (row.role.Label? && casing.Upper(row.role.s) == "PRIMARY")
  }

  predicate IsNamed(row: Row, name: string) {
    row.index.Some? && row.name == name && name != ""
  }

  predicate IsUnnamedPrimary(casing: Casing, row: Row) {
    row.index.Some? && row.name == "" && HasPrimaryRole(casing, row)
  }

  predicate IsPrimarySlot(casing: Casing, row: Row) {
    row.index.Some? && HasPrimaryRole(casing, row)
  }

  // ---------------------------------------------------------------------
  // Looking a row up
  // ---------------------------------------------------------------------

  /** Index of the first row satisfying p. */
  function First(table: seq<Row>, p: Row -> bool): Option<int> {
    if table == [] then None
    else
      match First(table[..|table| - 1], p)
      case Some(i) => Some(i)
      case None => if p(table[|table| - 1]) then table[|table| - 1].index else None
  }

  function Named(name: string): Row -> bool {
    row => IsNamed(row, name)
  }

  function UnnamedPrimary(casing: Casing): Row -> bool {
    row => IsUnnamedPrimary(casing, row)
  }

  function Primary(casing: Casing): Row -> bool {
    row => IsPrimarySlot(casing, row)
  }

  function FirstNamed(table: seq<Row>, name: string): Option<int> {
    First(table, Named(name))
  }

  function FirstUnnamedPrimary(casing: Casing, table: seq<Row>): Option<int> {
    First(table, UnnamedPrimary(casing))
  }

  /** Where a configured name leads: to the channel of that name, or, for an alias no
      channel bears, to an unnamed primary. Never to an index spelled as a name. */
  function Lookup(casing: Casing, table: seq<Row>, name: string): Option<int> {
    match FirstNamed(table, name)
    case Some(i) => Some(i)
    case None => if IsAlias(casing, name) then FirstUnnamedPrimary(casing, table) else None
  }

  /** The slot each configured name leads to; names that lead nowhere are left out. */
  function Resolved(casing: Casing, names: seq<string>, table: seq<Row>): map<string, int> {
    map name | name in names && Lookup(casing, table, name).Some? :: Lookup(casing, table, name).value
  }

  /** The slots an allowlist opens, and the slot each of its names led to. */
  function Resolve(casing: Casing, spec: Spec, table: seq<Row>): (Allowed, map<string, int>) {
    match spec
    case NoChannels => (Nothing, map[])
    case AllChannels => (Everything, map[])
    case Listed(names, indices) =>
      var resolved := Resolved(casing, names, table);
      var slots := indices + resolved.Values;
      (if slots == {} then Nothing else Slots(slots), resolved)
  }

  ghost predicate HasIndex(p: Row -> bool) {
    forall row: Row :: p(row) ==> row.index.Some?
  }

  /** Row k is the first to satisfy p. */
  ghost predicate IsFirst(table: seq<Row>, p: Row -> bool, k: int)
    requires 0 <= k < |table|
  {
    p(table[k]) && forall j | 0 <= j < k :: !p(table[j])
  }

  lemma {:induction false} FirstIsFirst(table: seq<Row>, p: Row -> bool) returns (k: int)
    requires HasIndex(p)
    ensures First(table, p).Some? ==>
      0 <= k < |table| && IsFirst(table, p, k) && table[k].index == First(table, p)
    ensures First(table, p).None? ==> forall j | 0 <= j < |table| :: !p(table[j])
  {
    k := 0;
    if table != [] {
      var n := |table| - 1;
      k := FirstIsFirst(table[..n], p);
      if First(table[..n], p).None? {
        assert forall j | 0 <= j < n :: table[j] == table[..n][j];
        k := n;
      }
    }
  }

  /** What the dictionary of names and the primary index hold after some rows. */
  ghost predicate Indexed(casing: Casing, table: seq<Row>, byName: map<string, int>, primary: Option<int>) {
    && primary == FirstUnnamedPrimary(casing, table)
    && forall name ::
         FirstNamed(table, name) == if name in byName then Some(byName[name]) else None
  }

  /** The first loop of resolve_channel_spec, over the rows. */
  method IndexTable(casing: Casing, table: seq<Row>) returns (byName: map<string, int>, primary: Option<int>)
    ensures Indexed(casing, table, byName, primary)
  {
    byName, primary := map[], None;
    for n := 0 to |table|
      invariant Indexed(casing, table[..n], byName, primary)
    {
      var row := table[n];
      assert table[..n + 1][..n] == table[..n];
      if row.index.None? {
        continue;
      }
      if row.name != "" && row.name !in byName {
        byName := byName[row.name := row.index.value];
      }
      if row.name == "" && HasPrimaryRole(casing, row) && primary.None? {
        primary := row.index;
      }
    }
    assert table[..|table|] == table;
  }

  lemma ResolvedStep(casing: Casing, names: seq<string>, name: string, table: seq<Row>)
    ensures var before, after := Resolved(casing, names, table), Resolved(casing, names + [name], table);
      match Lookup(casing, table, name)
      case None => after == before
      case Some(i) => after == before[name := i] && after.Values == before.Values + {i}
  {
    hide Lookup;
    var before, after := Resolved(casing, names, table), Resolved(casing, names + [name], table);
    match Lookup(casing, table, name)
    case None =>
    case Some(i) =>
      assert name in before ==> before[name] == i;
      assert after == before[name := i];
      assert forall v | v in before.Values :: v in after.Values by {
        forall n | n in before ensures n in after && after[n] == before[n] {
        }
      }
      assert after[name] == i;
  }

  /** resolve_channel_spec: its second loop resolves the names one by one. */
  method ResolveChannelSpec(casing: Casing, spec: Spec, table: seq<Row>)
    returns (allowed: Allowed, resolved: map<string, int>)
    ensures (allowed, resolved) == Resolve(casing, spec, table)
  {
    if spec == NoChannels {
      return Nothing, map[];
    }
    if spec == AllChannels {
      return Everything, map[];
    }
    var byName, primary := IndexTable(casing, table);
    var slots := spec.indices;
    resolved := map[];
    assert Resolved(casing, [], table) == map[];
    for n := 0 to |spec.names|
      invariant resolved == Resolved(casing, spec.names[..n], table)
      invariant slots == spec.indices + resolved.Values
    {
      var name := spec.names[n];
      assert spec.names[..n + 1] == spec.names[..n] + [name];
      ResolvedStep(casing, spec.names[..n], name, table);
      LookupByIndex(casing, table, byName, primary, name);
      hide Resolved, Lookup, IsAlias, Indexed;
      if name in byName || (primary.Some? && IsAlias(casing, name)) {
        var index := if name in byName then byName[name] else primary.value;
        slots := slots + {index};
        resolved := resolved[name := index];
      }
    }
    assert spec.names[..|spec.names|] == spec.names;
    allowed := if slots == {} then Nothing else Slots(slots);
  }

  lemma LookupByIndex(casing: Casing, table: seq<Row>, byName: map<string, int>, primary: Option<int>, name: string)
    requires Indexed(casing, table, byName, primary)
    ensures Lookup(casing, table, name) ==
      (if name in byName then Some(byName[name]) else if IsAlias(casing, name) then primary else None)
  {
  }

  // ---------------------------------------------------------------------
  // What a name means
  // ---------------------------------------------------------------------

  /** The row has a slot, and this name. */
  ghost predicate Bears(row: Row, name: string) {
    row.index.Some? && row.name == name
  }

  /** The row has a slot, and the primary role, as a number or as a word in any casing. */
  ghost predicate PlaysPrimary(casing: Casing, row: Row) {
    row.index.Some? && (row.role == Number(1) || (row.role.Label? && casing.Upper(row.role.s) == "PRIMARY"))
  }

  /** Row k is the one a name stands for: the first row of that name, or, when no row
      bears it and it is "primary" or "longfast" in any casing, the first primary without a
      name of its own. */
  ghost predicate StandsFor(casing: Casing, table: seq<Row>, name: string, k: int)
    requires 0 <= k < |table|
  {
    && name != ""
    && (|| (Bears(table[k], name) && forall j | 0 <= j < k :: !Bears(table[j], name))
        || (&& casing.Lower(name) in {"primary", "longfast"}
            && (forall j | 0 <= j < |table| :: !Bears(table[j], name))
            && Bears(table[k], "") && PlaysPrimary(casing, table[k])
            && forall j | 0 <= j < k :: !(Bears(table[j], "") && PlaysPrimary(casing, table[j]))))
  }

  /** The name stands for a row with this slot. */
  ghost predicate NamesSlot(casing: Casing, table: seq<Row>, name: string, i: int) {
    exists k | 0 <= k < |table| :: StandsFor(casing, table, name, k) && table[k].index == Some(i)
  }

  /** The first row that plays the primary role has this slot. */
  ghost predicate IsPrimaryOf(casing: Casing, table: seq<Row>, i: int) {
    exists k | 0 <= k < |table| ::
      && PlaysPrimary(casing, table[k]) && table[k].index == Some(i)
      && forall j | 0 <= j < k :: !PlaysPrimary(casing, table[j])
  }

  lemma RowsAreAsTheySay(casing: Casing, row: Row, name: string)
    ensures IsNamed(row, name) <==> name != "" && Bears(row, name)
    ensures IsUnnamedPrimary(casing, row) <==> Bears(row, "") && PlaysPrimary(casing, row)
    ensures IsPrimarySlot(casing, row) <==> PlaysPrimary(casing, row)
  {
  }

  lemma PrimaryIsFirst(casing: Casing, table: seq<Row>, i: int)
    ensures First(table, Primary(casing)) == Some(i) <==> IsPrimaryOf(casing, table, i)
  {
    var k := FirstIsFirst(table, Primary(casing));
    forall j | 0 <= j < |table| ensures Primary(casing)(table[j]) <==> PlaysPrimary(casing, table[j]) {
      RowsAreAsTheySay(casing, table[j], "");
    }
    hide PlaysPrimary, First;
  }

  /** The empty name is no alias. */
  lemma EmptyIsNoAlias(casing: Casing)
    ensures !IsAlias(casing, "")
  {
  }

  lemma LookupFindsTheRow(casing: Casing, table: seq<Row>, name: string, i: int)
    ensures Lookup(casing, table, name) == Some(i) <==> NamesSlot(casing, table, name, i)
  {
    var k := FirstIsFirst(table, Named(name));
    var m := FirstIsFirst(table, UnnamedPrimary(casing));
    EmptyIsNoAlias(casing);
    assert IsAlias(casing, name) <==> casing.Lower(name) in {"primary", "longfast"};
    forall j | 0 <= j < |table|
      ensures Named(name)(table[j]) <==> name != "" && Bears(table[j], name)
      ensures UnnamedPrimary(casing)(table[j]) <==> Bears(table[j], "") && PlaysPrimary(casing, table[j])
    {
      RowsAreAsTheySay(casing, table[j], name);
    }
    hide Bears, PlaysPrimary, IsAlias, First;
    if FirstNamed(table, name).Some? {
      assert StandsFor(casing, table, name, k);
      assert forall j | 0 <= j < |table| && StandsFor(casing, table, name, j) :: j == k;
    } else if IsAlias(casing, name) && FirstUnnamedPrimary(casing, table).Some? {
      assert StandsFor(casing, table, name, m);
      assert forall j | 0 <= j < |table| && StandsFor(casing, table, name, j) :: j == m;
    }
  }

  // ---------------------------------------------------------------------
  // Rearranging the radio
  // ---------------------------------------------------------------------

  function Renumbered(f: int -> int, i: Option<int>): Option<int> {
    if i.Some? then Some(f(i.value)) else None
  }

  /** table' holds the rows of table in another order, each moved to slot f of its own.
      to and from are the two directions of the reordering. */
  ghost predicate Rearranged(table: seq<Row>, table': seq<Row>, f: int -> int, to: seq<nat>, from: seq<nat>) {
    && |table| == |table'| == |to| == |from|
    && (forall k | 0 <= k < |table| :: to[k] < |table| && from[k] < |table|)
    && (forall k | 0 <= k < |table| ::
          table'[to[k]] == table[k].(index := Renumbered(f, table[k].index)))
    && (forall k | 0 <= k < |table| :: to[from[k]] == k)
    && (forall i, j | 0 <= i < |table| && 0 <= j < |table| && table[i].index.Some? && table[j].index.Some? ::
          f(table[i].index.value) == f(table[j].index.value) ==> table[i].index == table[j].index)
  }

  /** At most one row satisfies p. */
  ghost predicate AtMostOne(table: seq<Row>, p: Row -> bool) {
    forall i, j | 0 <= i < |table| && 0 <= j < |table| :: p(table[i]) && p(table[j]) ==> i == j
  }

  /** p looks at an index only to see that there is one. */
  ghost predicate IgnoresSlot(p: Row -> bool, f: int -> int) {
    && HasIndex(p)
    && forall row: Row :: p(row.(index := Renumbered(f, row.index))) == p(row)
  }

  lemma FirstMoves(table: seq<Row>, table': seq<Row>, f: int -> int, to: seq<nat>, from: seq<nat>, p: Row -> bool)
    requires Rearranged(table, table', f, to, from) && AtMostOne(table, p) && IgnoresSlot(p, f)
    ensures First(table', p) == Renumbered(f, First(table, p))
  {
    var k := FirstIsFirst(table, p);
    var k' := FirstIsFirst(table', p);
    hide First, IsFirst;
    if First(table, p).Some? {
      RowMoves(table, table', f, to, from, p, k, to[k]);
    }
    if First(table', p).Some? {
      RowMoves(table, table', f, to, from, p, from[k'], k');
    }
    hide Rearranged, IgnoresSlot;
  }

  /** A row keeps what it is where it moves. */
  lemma RowMoves(table: seq<Row>, table': seq<Row>, f: int -> int, to: seq<nat>, from: seq<nat>, p: Row -> bool,
                 j: nat, j': nat)
    requires Rearranged(table, table', f, to, from) && IgnoresSlot(p, f)
    requires j < |table| && j' < |table| && (j' == to[j] || j == from[j'])
    ensures p(table'[j']) == p(table[j]) && table'[j'].index == Renumbered(f, table[j].index)
  {
    if j == from[j'] {
      assert to[from[j']] == j';
    }
    assert table'[j'] == table[j].(index := Renumbered(f, table[j].index));
  }

  ghost predicate DistinctNames(table: seq<Row>) {
    forall name :: AtMostOne(table, Named(name))
  }

  ghost predicate OnePrimary(casing: Casing, table: seq<Row>) {
    AtMostOne(table, Primary(casing))
  }

  lemma LookupMoves(casing: Casing, table: seq<Row>, table': seq<Row>, f: int -> int, to: seq<nat>,
                    from: seq<nat>, name: string)
    requires Rearranged(table, table', f, to, from)
    requires DistinctNames(table) && OnePrimary(casing, table)
    ensures Lookup(casing, table', name) == Renumbered(f, Lookup(casing, table, name))
  {
    hide Rearranged, AtMostOne, IgnoresSlot, DistinctNames, OnePrimary, First, IsAlias;
    BothMove(casing, table, f, name);
    FirstMoves(table, table', f, to, from, Named(name));
    FirstMoves(table, table', f, to, from, UnnamedPrimary(casing));
  }

  lemma BothMove(casing: Casing, table: seq<Row>, f: int -> int, name: string)
    requires DistinctNames(table) && OnePrimary(casing, table)
    ensures AtMostOne(table, Named(name)) && AtMostOne(table, UnnamedPrimary(casing))
    ensures IgnoresSlot(Named(name), f) && IgnoresSlot(UnnamedPrimary(casing), f)
  {
    assert forall row :: UnnamedPrimary(casing)(row) ==> Primary(casing)(row);
  }
}
