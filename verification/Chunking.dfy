/** Cutting a reply into mesh packets: greedy word packing, and a hard UTF-8 split. */
module Chunking {
  import opened Prelude
  import opened Utf8

  // ---------------------------------------------------------------------
  // str.split()
  // ---------------------------------------------------------------------

  ghost predicate NoSpace(s: string) {
    forall i | 0 <= i < |s| :: !IsSpace(s[i])
  }

  function WordLength(s: string): (n: nat)
    ensures n <= |s| && NoSpace(s[..n])
    ensures n < |s| ==> IsSpace(s[n])
  {
    if s == "" || IsSpace(s[0]) then 0
    else
      var n := 1 + WordLength(s[1..]);
      assert s[..n] == [s[0]] + s[1..][..n - 1];
      n
  }

  /** The maximal runs of non-whitespace. */
  function Words(s: string): (words: seq<string>)
    ensures forall k | 0 <= k < |words| :: words[k] != "" && NoSpace(words[k])
    decreases |s|
  {
    if s == "" then []
    else if IsSpace(s[0]) then Words(s[1..])
    else [s[..WordLength(s)]] + Words(s[WordLength(s)..])
  }

  /** The text with its whitespace removed. */
  function Squeeze(s: string): string {
    if s == "" then ""
    else if IsSpace(s[0]) then Squeeze(s[1..])
    else [s[0]] + Squeeze(s[1..])
  }

  function Concat(parts: seq<string>): string {
    if parts == [] then "" else parts[0] + Concat(parts[1..])
  }

  /** " ".join(words) */
  function Join(words: seq<string>): string {
    if words == [] then ""
    else if |words| == 1 then words[0]
    else Join(words[..|words| - 1]) + " " + words[|words| - 1]
  }

  // ---------------------------------------------------------------------
  // Specification of the packing
  // ---------------------------------------------------------------------

  /** How many characters of w fit in room bytes. */
  function Fitting(w: string, room: int): (k: nat)
    ensures k <= |w|
  {
    if w == "" || CharSize(w[0]) > room then 0
    else 1 + Fitting(w[1..], room - CharSize(w[0]))
  }

  /** No character of s, whitespace aside, is by itself longer than a packet. */
  ghost predicate CharsFit(s: string, maxBytes: int) {
    forall i | 0 <= i < |s| :: IsSpace(s[i]) || CharSize(s[i]) <= maxBytes
  }

  /** A token too long for one packet, cut into the longest pieces that fit. */
  ghost function HardPieces(w: string, maxBytes: int): seq<string>
    requires NoSpace(w) && CharsFit(w, maxBytes)
  {
    if w == "" then []
    else
      var k := Fitting(w, maxBytes);
      [w[..k]] + HardPieces(w[k..], maxBytes)
  }

  ghost predicate Token(w: string, maxBytes: int) {
    w != "" && NoSpace(w) && CharsFit(w, maxBytes)
  }

  ghost predicate Tokens(words: seq<string>, maxBytes: int) {
    forall k | 0 <= k < |words| :: Token(words[k], maxBytes)
  }

  function Flush(cur: string): seq<string> {
    if cur == "" then [] else [cur]
  }

  function Extend(cur: string, word: string): string {
    if cur == "" then word else cur + " " + word
  }

  /** The chunk being filled after one more word. */
  function Filling(cur: string, word: string, maxBytes: int): string {
    if Size(Extend(cur, word)) <= maxBytes then Extend(cur, word)
    else if Size(word) <= maxBytes then word
    else ""
  }

  /** The chunks finished by one more word. */
  ghost function Finished(cur: string, word: string, maxBytes: int): seq<string>
    requires Token(word, maxBytes)
  {
    if Size(Extend(cur, word)) <= maxBytes then []
    else if Size(word) <= maxBytes then Flush(cur)
    else Flush(cur) + HardPieces(word, maxBytes)
  }

  /** The chunks of the remaining words when cur is the chunk being filled. */
  ghost function Pack(words: seq<string>, cur: string, maxBytes: int): seq<string>
    requires Tokens(words, maxBytes)
  {
    if words == [] then Flush(cur)
    else
      assert Token(words[0], maxBytes);
      Finished(cur, words[0], maxBytes) + Pack(words[1..], Filling(cur, words[0], maxBytes), maxBytes)
  }

  lemma {:induction false} WordsAreTokens(text: string, maxBytes: int)
    requires CharsFit(text, maxBytes)
    ensures Tokens(Words(text), maxBytes)
    decreases |text|
  {
    if text == "" {
    } else if IsSpace(text[0]) {
      WordsAreTokens(text[1..], maxBytes);
    } else {
      WordsAreTokens(text[WordLength(text)..], maxBytes);
    }
  }

  // ---------------------------------------------------------------------
  // The hard split
  // ---------------------------------------------------------------------

  /** Cutting an encoding in two. */
  lemma EncodeCut(w: string, k: nat)
    requires k <= |w|
    ensures Encode(w) == Encode(w[..k]) + Encode(w[k..])
  {
    hide *;
    EncodeAppend(w[..k], w[k..]);
    assert w[..k] + w[k..] == w;
  }

  lemma LongerIsLarger(w: string, j: nat, k: nat)
    requires j < k <= |w|
    ensures Size(w[..j]) < Size(w[..k])
  {
    EncodeCut(w[..k], j);
    assert w[..k][..j] == w[..j];
  }

  /** The longest decodable prefix within the limit is the longest run of characters
      within it. */
  lemma {:induction false} FittingIsLongest(w: string, room: int, k: nat)
    requires k <= |w|
    ensures 0 <= room ==> Size(w[..Fitting(w, room)]) <= room
    ensures k > Fitting(w, room) ==> Size(w[..k]) > room
  {
    if w != "" {
      var f := Fitting(w, room);
      if k > 0 {
        assert w[..k][1..] == w[1..][..k - 1];
        if f > 0 {
          FittingIsLongest(w[1..], room - CharSize(w[0]), k - 1);
        }
      } else if f > 0 {
        FittingIsLongest(w[1..], room - CharSize(w[0]), 0);
      }
      if f > 0 {
        assert w[..f][1..] == w[1..][..f - 1];
      }
    }
  }

  /**
   One cut: take maxBytes bytes, and back off a byte at a time until they decode. The
   result is the longest run of whole characters that fits, and it is empty exactly when
   the first character alone is too long.
   */
  method CutPiece(b: seq<byte>, maxBytes: nat, ghost w: string) returns (piece: seq<byte>, text: string)
    requires b == Encode(w) && w != ""
    ensures text == w[..Fitting(w, maxBytes)]
    ensures piece == Encode(text) && piece <= b
    ensures piece == [] <==> CharSize(w[0]) > maxBytes
  {
    assert Fitting(w, maxBytes) == 0 <==> CharSize(w[0]) > maxBytes;
    hide EncodeChar, Decode, Fitting;
    ghost var best := w[..Fitting(w, maxBytes)];
    FittingIsLongest(w, maxBytes, 0);
    EncodeCut(w, |best|);
    DecodeOfEncode(best);
    piece := b[..Min(maxBytes, |b|)];
    text := "";
    while piece != []
      invariant Size(best) <= |piece| <= maxBytes && piece <= b
    {
      var decoded := Decode(piece);
      if decoded.Some? {
        text := decoded.value;
        EncodeOfDecode(piece);
        CutsFallBetweenChars(text, w);
        assert text == w[..|text|];
        FittingIsLongest(w, maxBytes, |text|);
        if |text| < |best| {
          LongerIsLarger(w, |text|, |best|);
        }
        return;
      }
      assert piece != Encode(best) == b[..Size(best)];
      piece := piece[..|piece| - 1];
    }
  }

  lemma StrippedCharsFit(text: string, maxBytes: int)
    requires CharsFit(text, maxBytes)
    ensures CharsFit(Strip(text), maxBytes)
  {
    var lo, hi := StripIsSlice(text);
  }

  /** The chunks of a text. */
  ghost function Chunks(text: string, maxBytes: int): seq<string>
    requires CharsFit(text, maxBytes)
  {
    StrippedCharsFit(text, maxBytes);
    WordsAreTokens(Strip(text), maxBytes);
    Pack(Words(Strip(text)), "", maxBytes)
  }

  /**
   Splits a text for the mesh. It needs maxBytes to leave room for every single
   character; with less the source's hard split never ends.
   */
  method SplitText(text: string, maxBytes: int) returns (out: seq<string>)
    requires CharsFit(text, maxBytes)
    ensures out == Chunks(text, maxBytes)
  {
    StrippedCharsFit(text, maxBytes);
    WordsAreTokens(Strip(text), maxBytes);
    out := [];
    var stripped := Strip(text);
    if stripped == "" {
      return;
    }
    out := PackWords(Words(stripped), maxBytes);
  }

  /** The loop over the words. */
  method PackWords(words: seq<string>, maxBytes: int) returns (out: seq<string>)
    requires Tokens(words, maxBytes)
    ensures out == Pack(words, "", maxBytes)
  {
    hide Finished, Filling, Trimmed, Token;
    ghost var packed := Pack(words, "", maxBytes);
    var cur := "";
    out := [];
    assert words[0..] == words;
    EmptyIsTrimmed();
    for n := 0 to |words|
      invariant Trimmed(cur)
      invariant packed == out + Pack(words[n..], cur, maxBytes)
    {
      assert words[n..][1..] == words[n + 1..];
      assert Token(words[n], maxBytes);
      out, cur := PackWord(out, cur, words[n], maxBytes);
    }
    assert words[|words|..] == [];
    if cur != "" {
      out := out + [cur];
    }
  }

  lemma EmptyIsTrimmed()
    ensures Trimmed("")
  {
  }

  lemma ExtendIsTrimmed(cur: string, word: string, maxBytes: int)
    requires Trimmed(cur) && Token(word, maxBytes)
    ensures Trimmed(word) && Trimmed(Extend(cur, word))
    ensures NoSpace(word) && CharsFit(word, maxBytes) && Trimmed("")
  {
  }

  /** One turn of the loop: extend cur, or finish it and start over. */
  method PackWord(before: seq<string>, open: string, word: string, maxBytes: int)
    returns (out: seq<string>, cur: string)
    requires Trimmed(open) && Token(word, maxBytes)
    ensures out == before + Finished(open, word, maxBytes)
    ensures cur == Filling(open, word, maxBytes) && Trimmed(cur)
  {
    hide Strip, Encode, HardPieces, CharsFit, NoSpace, Trimmed, Token;
    out, cur := before, open;
    ExtendIsTrimmed(cur, word, maxBytes);
    StripIsIdentity(Extend(cur, word));
    var cand := if cur != "" then Strip(cur + " " + word) else word;
    if |Encode(cand)| <= maxBytes {
      cur := cand;
      return;
    }
    if cur != "" {
      out := out + [cur];
      cur := "";
    }
    if |Encode(word)| > maxBytes {
      out := HardSplit(out, word, maxBytes);
    } else {
      cur := word;
    }
  }

  /** Appends the pieces of one token that is too long for a packet. */
  method HardSplit(before: seq<string>, word: string, maxBytes: int) returns (out: seq<string>)
    requires NoSpace(word) && CharsFit(word, maxBytes)
    ensures out == before + HardPieces(word, maxBytes)
  {
    hide Fitting, EncodeChar, IsSpace;
    out := before;
    var b := Encode(word);
    ghost var left := word;
    while b != []
      invariant b == Encode(left) && NoSpace(left) && CharsFit(left, maxBytes)
      invariant out + HardPieces(left, maxBytes) == before + HardPieces(word, maxBytes)
      decreases |b|
    {
      var piece, decoded := CutPiece(b, maxBytes, left);
      out := out + [decoded];
      EncodeCut(left, |decoded|);
      b := b[|piece|..];
      left := left[|decoded|..];
    }
  }
}
