/** Python's str as a JSON reader can produce it: scalar values, and surrogates that stand
    alone, which no UTF-8 encodes. */
module CodePoints {
  import opened Prelude

  type SurrogateUnit = n: int | 0xD800 <= n < 0xE000 witness 0xD800

  datatype CodePoint = Scalar(c: char) | Surrogate(unit: SurrogateUnit)

  type CodeText = seq<CodePoint>

  predicate IsBlank(p: CodePoint) {
    p.Scalar? && IsSpace(p.c)
  }

  function StripLeft(text: CodeText): CodeText {
    if text != [] && IsBlank(text[0]) then StripLeft(text[1..]) else text
  }

  function StripRight(text: CodeText): CodeText {
    if text != [] && IsBlank(text[|text| - 1]) then StripRight(text[..|text| - 1]) else text
  }

  /** str.strip() */
  function StripText(text: CodeText): CodeText {
    StripRight(StripLeft(text))
  }

  /** encode("utf-8") takes the text. */
  predicate Encodable(text: CodeText) {
    forall i | 0 <= i < |text| :: text[i].Scalar?
  }

  /** The text that is encoded. */
  function Chars(text: CodeText): (s: string)
    requires Encodable(text)
    ensures |s| == |text|
  {
    seq(|text|, i requires 0 <= i < |text| => text[i].c)
  }

  function Codes(s: string): (text: CodeText)
    ensures Encodable(text) && Chars(text) == s
  {
    seq(|s|, i requires 0 <= i < |s| => Scalar(s[i]))
  }

  /** Only what can be encoded is stripped away. */
  lemma {:induction false} StripLeftKeeps(text: CodeText)
    ensures Encodable(StripLeft(text)) <==> Encodable(text)
  {
    hide IsSpace;
    if text != [] && IsBlank(text[0]) {
      StripLeftKeeps(text[1..]);
      assert Encodable(text[1..]) ==> forall i | 1 <= i < |text| :: text[1..][i - 1] == text[i];
    }
  }

  lemma {:induction false} StripRightKeeps(text: CodeText)
    ensures Encodable(StripRight(text)) <==> Encodable(text)
  {
    hide IsSpace;
    if text != [] && IsBlank(text[|text| - 1]) {
      StripRightKeeps(text[..|text| - 1]);
    }
  }

  lemma StrippedEncodable(text: CodeText)
    ensures Encodable(StripText(text)) <==> Encodable(text)
  {
    StripLeftKeeps(text);
    StripRightKeeps(StripLeft(text));
  }

  /** Both ends of a converted text. */
  lemma CodesAtEnds(s: string)
    ensures |Codes(s)| == |s|
    ensures s != "" ==> Codes(s)[0] == Scalar(s[0]) && Codes(s)[1..] == Codes(s[1..])
    ensures var n := |s| - 1;
      s != "" ==> Codes(s)[n] == Scalar(s[n]) && Codes(s)[..n] == Codes(s[..n])
  {
  }

  lemma {:induction false} StripLeftOfCodes(s: string)
    ensures StripLeft(Codes(s)) == Codes(LStrip(s))
  {
    CodesAtEnds(s);
    hide IsSpace, AllSpace, Codes, Chars, Encodable;
    if s != "" && IsSpace(s[0]) {
      StripLeftOfCodes(s[1..]);
    }
  }

  lemma {:induction false} StripRightOfCodes(s: string)
    ensures StripRight(Codes(s)) == Codes(RStrip(s))
  {
    CodesAtEnds(s);
    hide IsSpace, AllSpace, Codes, Chars, Encodable;
    if s != "" && IsSpace(s[|s| - 1]) {
      StripRightOfCodes(s[..|s| - 1]);
    }
  }

  /** On text without surrogates this is the strip of character strings. */
  lemma StripOfCodes(s: string)
    ensures StripText(Codes(s)) == Codes(Strip(s))
  {
    hide Codes, Chars, Encodable, StripLeft, StripRight, LStrip, RStrip;
    StripLeftOfCodes(s);
    StripRightOfCodes(LStrip(s));
  }
}
