/** The written form of a channel allowlist, and how it is read. */
module ChannelSpec {
  import opened Prelude
  import opened Channels

  // ---------------------------------------------------------------------
  // Splitting at commas
  // ---------------------------------------------------------------------

  /** str.split(",") */
  function SplitCommas(s: string): (parts: seq<string>)
    ensures parts != [] && forall k | 0 <= k < |parts| :: ',' !in parts[k]
  {
    if s == "" then [""]
    else if s[0] == ',' then [""] + SplitCommas(s[1..])
    else
      var rest := SplitCommas(s[1..]);
      [[s[0]] + rest[0]] + rest[1..]
  }

  /** ",".join(parts) */
  function JoinCommas(parts: seq<string>): string {
    if parts == [] then "" else if |parts| == 1 then parts[0] else parts[0] + "," + JoinCommas(parts[1..])
  }

  lemma {:induction false} SplitPiece(piece: string, rest: string)
    requires ',' !in piece
    ensures SplitCommas(piece) == [piece]
    ensures SplitCommas(piece + "," + rest) == [piece] + SplitCommas(rest)
  {
    var all := piece + "," + rest;
    if piece == "" {
      assert all[0] == ',' && all[1..] == rest;
    } else {
      SplitPiece(piece[1..], rest);
      assert all[0] == piece[0] && all[1..] == piece[1..] + "," + rest;
      assert [piece[0]] + piece[1..] == piece;
    }
  }

  lemma {:induction false} SplitOfJoin(parts: seq<string>)
    requires parts != [] && forall k | 0 <= k < |parts| :: ',' !in parts[k]
    ensures SplitCommas(JoinCommas(parts)) == parts
  {
    if |parts| == 1 {
      SplitPiece(parts[0], "");
    } else {
      SplitOfJoin(parts[1..]);
      SplitPiece(parts[0], JoinCommas(parts[1..]));
    }
  }

  // ---------------------------------------------------------------------
  // Reading an allowlist
  // ---------------------------------------------------------------------

  /** The names among the parts, in order of first mention. */
  function NamesIn(parts: seq<string>): seq<string> {
    if parts == [] then []
    else
      var names, last := NamesIn(parts[..|parts| - 1]), Strip(parts[|parts| - 1]);
      if last == "" || ParseInt(last).Some? || last in names then names else names + [last]
  }

  function IndicesIn(parts: seq<string>): set<int> {
    if parts == [] then {}
    else
      var indices, last := IndicesIn(parts[..|parts| - 1]), Strip(parts[|parts| - 1]);
      if last != "" && ParseInt(last).Some? then indices + {ParseInt(last).value} else indices
  }

  function Parsed(casing: Casing, raw: string): Spec {
    var text := Strip(raw);
    var parts := SplitCommas(text);
    if text == "" then NoChannels
    else if casing.Lower(text) == "all" then AllChannels
    else if NamesIn(parts) == [] && IndicesIn(parts) == {} then NoChannels
    else Listed(NamesIn(parts), IndicesIn(parts))
  }

  /** A setting that is missing reads as none at all. */
  method ParseChannelSpec(casing: Casing, raw: Option<string>) returns (spec: Spec)
    ensures spec == if raw.None? then NoChannels else Parsed(casing, raw.value)
  {
    hide Strip, ParseInt, SplitCommas;
    if raw.None? {
      return NoChannels;
    }
    var text := Strip(raw.value);
    if text == "" {
      return NoChannels;
    }
    if casing.Lower(text) == "all" {
      return AllChannels;
    }
    var names, indices := [], {};
    var parts := SplitCommas(text);
    for n := 0 to |parts|
      invariant names == NamesIn(parts[..n]) && indices == IndicesIn(parts[..n])
    {
      assert parts[..n + 1][..n] == parts[..n];
      var part := Strip(parts[n]);
      if part == "" {
        continue;
      }
      var number := ParseInt(part);
      if number.Some? {
        indices := indices + {number.value};
      } else if part !in names {
        names := names + [part];
      }
    }
    assert parts[..|parts|] == parts;
    spec := if names == [] && indices == {} then NoChannels else Listed(names, indices);
  }

  /** A part is read as an index exactly when int() takes it; everything else that is not
      blank is a name, kept as written but for the whitespace around it. */
  lemma {:induction false} PartsAreReadOnce(parts: seq<string>, item: string, index: int)
    ensures item in NamesIn(parts) <==>
      item != "" && ParseInt(item).None? && exists k | 0 <= k < |parts| :: Strip(parts[k]) == item
    ensures index in IndicesIn(parts) <==>
      exists k | 0 <= k < |parts| :: Strip(parts[k]) != "" && ParseInt(Strip(parts[k])) == Some(index)
    ensures var names := NamesIn(parts); forall i, j | 0 <= i < j < |names| :: names[i] != names[j]
  {
    hide Strip, ParseInt;
    if parts != [] {
      var n := |parts| - 1;
      PartsAreReadOnce(parts[..n], item, index);
      assert forall k | 0 <= k < n :: parts[..n][k] == parts[k];
      if k :| 0 <= k < |parts| && Strip(parts[k]) == item {
        assert k < n ==> Strip(parts[..n][k]) == item;
      }
      if k :| 0 <= k < |parts| && Strip(parts[k]) != "" && ParseInt(Strip(parts[k])) == Some(index) {
        assert k < n ==> Strip(parts[..n][k]) != "" && ParseInt(Strip(parts[..n][k])) == Some(index);
      }
    }
  }

  // ---------------------------------------------------------------------
  // Writing one and reading it back
  // ---------------------------------------------------------------------

  /** A name that an allowlist can spell. */
  predicate Spellable(name: string) {
    name != "" && ',' !in name && ParseInt(name).None? && !IsSpace(name[0]) && !IsSpace(name[|name| - 1])
  }

  function Decimals(indices: seq<int>): (texts: seq<string>)
    ensures |texts| == |indices| && forall k | 0 <= k < |texts| :: texts[k] == Decimal(indices[k])
  {
    if indices == [] then [] else Decimals(indices[..|indices| - 1]) + [Decimal(indices[|indices| - 1])]
  }

  function Written(names: seq<string>, indices: seq<int>): string {
    JoinCommas(names + Decimals(indices))
  }

  ghost predicate AllSpellable(names: seq<string>) {
    && (forall k | 0 <= k < |names| :: Spellable(names[k]))
    && (forall i, j | 0 <= i < j < |names| :: names[i] != names[j])
  }

  /** What every entry of a written allowlist is like. */
  ghost predicate IsEntry(part: string) {
    part != "" && ',' !in part && !IsSpace(part[0]) && !IsSpace(part[|part| - 1])
  }

  lemma {:induction false} DigitsHaveNoComma(n: nat)
    ensures ',' !in Digits(n)
  {
    assert forall i | 0 <= i < |Digits(n)| :: IsDigit(Digits(n)[i]);
    hide Digits;
  }

  lemma DecimalIsEntry(n: int)
    ensures IsEntry(Decimal(n))
  {
    var m: nat := if n < 0 then -n else n;
    DigitsHaveNoComma(m);
    assert IsDigit(Digits(m)[|Digits(m)| - 1]);
    hide Digits;
  }

  lemma {:induction false} JoinIsTrimmed(parts: seq<string>)
    requires parts != [] && forall k | 0 <= k < |parts| :: IsEntry(parts[k])
    ensures var text := JoinCommas(parts); text != "" && !IsSpace(text[0]) && !IsSpace(text[|text| - 1])
  {
    hide IsSpace;
    if |parts| > 1 {
      JoinIsTrimmed(parts[1..]);
    }
  }

  lemma {:induction false} NamesReadBack(names: seq<string>)
    requires AllSpellable(names)
    ensures NamesIn(names) == names && IndicesIn(names) == {}
  {
    hide Strip, ParseInt, IsSpace;
    if names != [] {
      var n := |names| - 1;
      NamesReadBack(names[..n]);
      StripIsIdentity(names[n]);
      assert names[n] !in names[..n];
      assert names == names[..n] + [names[n]];
    }
  }

  lemma {:induction false} IndicesReadBack(names: seq<string>, indices: seq<int>)
    requires AllSpellable(names)
    ensures NamesIn(names + Decimals(indices)) == names
    ensures IndicesIn(names + Decimals(indices)) == set i | i in indices
  {
    hide Strip, ParseInt, Decimal, AllSpellable;
    if indices == [] {
      NamesReadBack(names);
      assert names + [] == names;
    } else {
      var n := |indices| - 1;
      var parts := names + Decimals(indices);
      IndicesReadBack(names, indices[..n]);
      assert parts[..|parts| - 1] == names + Decimals(indices[..n]);
      DecimalReadsBack(indices[n]);
      assert indices == indices[..n] + [indices[n]];
    }
  }

  lemma DecimalReadsBack(n: int)
    ensures Strip(Decimal(n)) == Decimal(n) != "" && ParseInt(Decimal(n)) == Some(n)
  {
    ParseIntOfDecimal(n);
    DecimalIsEntry(n);
    StripIsIdentity(Decimal(n));
  }

  /** Whatever is read from a text, its names can be spelled. */
  lemma ParsedIsSpellable(parts: seq<string>)
    requires forall k | 0 <= k < |parts| :: ',' !in parts[k]
    ensures AllSpellable(NamesIn(parts))
  {
    hide Strip, ParseInt, IsSpace, NamesIn;
    var names := NamesIn(parts);
    PartsAreReadOnce(parts, "", 0);
    forall k | 0 <= k < |names| ensures Spellable(names[k]) {
      assert names[k] in names;
      PartsAreReadOnce(parts, names[k], 0);
      var j :| 0 <= j < |parts| && Strip(parts[j]) == names[k];
      var lo, hi := StripIsSlice(parts[j]);
    }
  }

  /** Names and indices that can be spelled read back, but for the wildcard. */
  lemma SpelledReadsBack(casing: Casing, names: seq<string>, indices: seq<int>)
    requires AllSpellable(names) && names + Decimals(indices) != []
    ensures Parsed(casing, Written(names, indices)) == Listed(names, set i | i in indices)
       <==> casing.Lower(Written(names, indices)) != "all"
  {
    var parts := names + Decimals(indices);
    forall k | 0 <= k < |parts| ensures IsEntry(parts[k]) {
      if k >= |names| {
        DecimalIsEntry(indices[k - |names|]);
      }
    }
    JoinIsTrimmed(parts);
    hide IsSpace, IsEntry, ParseInt, Decimal, JoinCommas, SplitCommas, NamesIn, IndicesIn, Strip, Parsed, AllSpellable;
    SplitOfJoin(parts);
    IndicesReadBack(names, indices);
    if indices != [] {
      assert indices[0] in set i | i in indices;
    }
    ParsedItems(casing, Written(names, indices), names, set i | i in indices);
  }

  /**
   Any list of names and of indices, written with commas, reads back as itself exactly when
   there is something in it, every name can be spelled and is listed once, and what is
   written is not "all" in some casing, the wildcard.
   */
  lemma WrittenReadsBack(casing: Casing, names: seq<string>, indices: seq<int>)
    ensures Parsed(casing, Written(names, indices)) == Listed(names, set i | i in indices)
       <==> && names + Decimals(indices) != []
            && AllSpellable(names)
            && casing.Lower(Written(names, indices)) != "all"
  {
    var text := Written(names, indices);
    if AllSpellable(names) && names + Decimals(indices) != [] {
      SpelledReadsBack(casing, names, indices);
    } else if names + Decimals(indices) == [] {
      assert text == "";
    }
    if Parsed(casing, text).Listed? {
      ParsedIsSpellable(SplitCommas(Strip(text)));
    }
    hide NamesIn, IndicesIn, AllSpellable, SplitCommas, Written;
  }

  lemma ParsedItems(casing: Casing, text: string, names: seq<string>, indices: set<int>)
    requires text != "" && !IsSpace(text[0]) && !IsSpace(text[|text| - 1])
    requires NamesIn(SplitCommas(text)) == names && IndicesIn(SplitCommas(text)) == indices
    requires names != [] || indices != {}
    ensures Parsed(casing, text) == Listed(names, indices) <==> casing.Lower(text) != "all"
  {
    StripIsIdentity(text);
    hide Strip, IsSpace, NamesIn, IndicesIn, SplitCommas;
  }
}
