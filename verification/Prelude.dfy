/** Options, Python's string trimming, and decimal integers as text. */
module Prelude {

  datatype Option<+T> = None | Some(value: T)

  function Min(x: int, y: int): int {
    if x < y then x else y
  }

  // ---------------------------------------------------------------------
  // Whitespace, as Python's str.isspace, str.strip and str.split see it
  // ---------------------------------------------------------------------

  predicate IsSpace(c: char) {
    || '\U{9}' <= c <= '\U{D}'
    || '\U{1C}' <= c <= ' '
    || c == '\U{85}' || c == '\U{A0}' || c == '\U{1680}'
    || '\U{2000}' <= c <= '\U{200A}'
    || c == '\U{2028}' || c == '\U{2029}' || c == '\U{202F}'
    || c == '\U{205F}' || c == '\U{3000}'
  }

  /** All the characters that Python counts as whitespace. */
  lemma WhitespaceIsListed(c: char)
    ensures var spaces :=
      {'\U{9}', '\U{A}', '\U{B}', '\U{C}', '\U{D}', '\U{1C}', '\U{1D}', '\U{1E}', '\U{1F}', ' ', '\U{85}',
       '\U{A0}', '\U{1680}', '\U{2000}', '\U{2001}', '\U{2002}', '\U{2003}', '\U{2004}', '\U{2005}',
       '\U{2006}', '\U{2007}', '\U{2008}', '\U{2009}', '\U{200A}', '\U{2028}', '\U{2029}', '\U{202F}',
       '\U{205F}', '\U{3000}'};
      IsSpace(c) <==> c in spaces
  {
  }

  ghost predicate AllSpace(s: string) {
    forall i | 0 <= i < |s| :: IsSpace(s[i])
  }

  /** Neither end is whitespace. */
  ghost predicate Trimmed(s: string) {
    s != "" ==> !IsSpace(s[0]) && !IsSpace(s[|s| - 1])
  }

  function LStrip(s: string): (r: string)
    ensures |r| <= |s| && r == s[|s| - |r|..]
    ensures AllSpace(s[..|s| - |r|])
    ensures r != "" ==> !IsSpace(r[0])
  {
    hide IsSpace, AllSpace;
    NothingIsAllSpace();
    assert s[0..] == s && s[..0] == "";
    if s != "" && IsSpace(s[0]) then
      var r := LStrip(s[1..]);
      StripOneMore(s, r);
      r
    else s
  }

  lemma NothingIsAllSpace()
    ensures AllSpace("")
  {
  }

  lemma StripOneMore(s: string, r: string)
    requires s != "" && IsSpace(s[0]) && |r| < |s|
    requires r == s[1..][|s| - 1 - |r|..] && AllSpace(s[1..][..|s| - 1 - |r|])
    ensures r == s[|s| - |r|..] && AllSpace(s[..|s| - |r|])
  {
    hide IsSpace;
    assert s[..|s| - |r|] == [s[0]] + s[1..][..|s| - 1 - |r|];
  }

  lemma AllSpaceSnoc(s: string, n: nat)
    requires n < |s| && IsSpace(s[|s| - 1]) && AllSpace(s[..|s| - 1][n..])
    ensures AllSpace(s[n..])
  {
    hide IsSpace;
    assert s[n..] == s[..|s| - 1][n..] + [s[|s| - 1]];
  }

  lemma LStripKeeps(s: string)
    requires s != "" && !IsSpace(s[0])
    ensures LStrip(s) == s
  {
    hide IsSpace, AllSpace;
  }

  function RStrip(s: string): (r: string)
    ensures |r| <= |s| && r == s[..|r|]
    ensures AllSpace(s[|r|..])
    ensures r != "" ==> !IsSpace(r[|r| - 1])
  {
    hide IsSpace, AllSpace;
    NothingIsAllSpace();
    if s != "" && IsSpace(s[|s| - 1]) then
      var r := RStrip(s[..|s| - 1]);
      AllSpaceSnoc(s, |r|);
      r
    else s
  }

  function Strip(s: string): (r: string)
    ensures Trimmed(r)
  {
    RStrip(LStrip(s))
  }

  lemma StripIsIdentity(s: string)
    requires Trimmed(s)
    ensures Strip(s) == s
  {
  }

  /** What a strip keeps is one piece of the text, and it drops only whitespace. */
  lemma StripIsSlice(s: string) returns (lo: nat, hi: nat)
    ensures lo <= hi <= |s| && Strip(s) == s[lo..hi]
    ensures AllSpace(s[..lo]) && AllSpace(s[hi..])
  {
    hide IsSpace, AllSpace, LStrip, RStrip;
    var l := LStrip(s);
    lo := |s| - |l|;
    hi := lo + |Strip(s)|;
    assert s[hi..] == l[|Strip(s)|..];
  }

  lemma SliceOfSuffix(text: string, skip: nat, l: nat, h: nat)
    requires skip <= |text| && l <= h <= |text| - skip
    ensures text[skip..][l..h] == text[skip + l..skip + h]
    ensures text[skip..][h..] == text[skip + h..]
  {
  }

  // ---------------------------------------------------------------------
  // str(int) and int(str)
  // ---------------------------------------------------------------------

  predicate IsDigit(c: char) {
    '0' <= c <= '9'
  }

  function DigitChar(d: int): (c: char)
    requires 0 <= d < 10
    ensures IsDigit(c) && DigitValue(c) == d
  {
    '0' + d as char
  }

  function DigitValue(c: char): (d: int)
    requires IsDigit(c)
    ensures 0 <= d < 10
  {
    c as int - '0' as int
  }

  function Digits(n: nat): (s: string)
    ensures s != "" && forall i | 0 <= i < |s| :: IsDigit(s[i])
  {
    if n < 10 then [DigitChar(n)] else Digits(n / 10) + [DigitChar(n % 10)]
  }

  /** Python's str() of an integer. */
  function Decimal(n: int): (s: string)
    ensures s != "" && (IsDigit(s[0]) || s[0] == '-')
  {
    if n < 0 then "-" + Digits(-n) else Digits(n)
  }

  /** Digits with single underscores between them, as int() accepts. */
  function ParseDigits(s: string): Option<nat> {
    if s == "" || !IsDigit(s[|s| - 1]) then None
    else if |s| == 1 then Some(DigitValue(s[0]))
    else
      var front := if s[|s| - 2] == '_' then s[..|s| - 2] else s[..|s| - 1];
      match ParseDigits(front)
      case None => None
      case Some(n) => Some(10 * n + DigitValue(s[|s| - 1]))
  }

  /** Python's int() of a text: None stands for ValueError. */
  function ParseInt(text: string): Option<int> {
    var s := Strip(text);
    if s != "" && (s[0] == '-' || s[0] == '+') then
      match ParseDigits(s[1..])
      case None => None
      case Some(n) => if s[0] == '-' then Some(-(n as int)) else Some(n)
    else
      match ParseDigits(s)
      case None => None
      case Some(n) => Some(n)
  }

  lemma {:induction false} ParseDigitsOfDigits(n: nat)
    ensures ParseDigits(Digits(n)) == Some(n)
  {
    if n >= 10 {
      ParseDigitsOfDigits(n / 10);
      var s := Digits(n);
      assert s[..|s| - 1] == Digits(n / 10);
      assert s[|s| - 2] == Digits(n / 10)[|s| - 2];
    }
  }

  /** Digits, and single underscores between two of them. */
  ghost predicate IsNumeral(s: string) {
    && s != "" && IsDigit(s[0]) && IsDigit(s[|s| - 1])
    && forall k | 0 <= k < |s| - 1 :: IsDigit(s[k]) || (s[k] == '_' && IsDigit(s[k + 1]))
  }

  lemma {:induction false} NumeralsAreParsed(s: string)
    ensures ParseDigits(s).Some? <==> IsNumeral(s)
  {
    if |s| > 1 && IsDigit(s[|s| - 1]) {
      var front := if s[|s| - 2] == '_' then s[..|s| - 2] else s[..|s| - 1];
      NumeralsAreParsed(front);
      NumeralInFront(s, front);
      hide IsNumeral, IsDigit;
    }
  }

  lemma NumeralInFront(s: string, front: string)
    requires |s| > 1 && IsDigit(s[|s| - 1])
    requires front == if s[|s| - 2] == '_' then s[..|s| - 2] else s[..|s| - 1]
    ensures IsNumeral(s) <==> IsNumeral(front)
  {
    assert !IsDigit('_');
    hide IsDigit;
    assert forall k | 0 <= k < |front| :: front[k] == s[k];
    if IsNumeral(s) && s[|s| - 2] == '_' {
      assert s[0] != '_';
      assert IsDigit(s[|s| - 3]);
    }
  }

  /** int(str(n)) == n. */
  lemma ParseIntOfDecimal(n: int)
    ensures ParseInt(Decimal(n)) == Some(n)
  {
    var s := Decimal(n);
    var m: nat := if n < 0 then -n else n;
    ParseDigitsOfDigits(m);
    assert IsDigit(Digits(m)[0]) && IsDigit(Digits(m)[|Digits(m)| - 1]);
    hide Digits, ParseDigits, Strip, AllSpace;
    StripIsIdentity(s);
    if n < 0 {
      assert s[1..] == Digits(m);
    }
  }

  lemma DecimalIsInjective(m: int, n: int)
    requires Decimal(m) == Decimal(n)
    ensures m == n
  {
    ParseIntOfDecimal(m);
    ParseIntOfDecimal(n);
  }
}
