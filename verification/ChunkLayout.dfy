/**
 What the chunks of a text are: an independent account of the ways to lay its words out
 over packets, among which splitting finds the greedy one, and none that is shorter.
 */
module ChunkLayout {
  import opened Prelude
  import opened Utf8
  import opened Chunking
  import opened ChunkingProperties

  // ---------------------------------------------------------------------
  // Cutting one overlong word
  // ---------------------------------------------------------------------

  /** The word, cut into pieces that fit a packet each. */
  ghost predicate IsCut(word: string, pieces: seq<string>, maxBytes: int) {
    && Concat(pieces) == word
    && forall k | 0 <= k < |pieces| :: Size(pieces[k]) <= maxBytes
  }

  /** No piece has room for the first character of the next. */
  ghost predicate IsGreedyCut(pieces: seq<string>, maxBytes: int) {
    && (forall k | 0 <= k < |pieces| :: pieces[k] != "")
    && (forall k | 0 <= k < |pieces| - 1 :: Size(pieces[k] + pieces[k + 1][..1]) > maxBytes)
  }

  lemma FittingFits(w: string, maxBytes: int)
    requires Token(w, maxBytes)
    ensures var k := Fitting(w, maxBytes);
      0 < k && Size(w[..k]) <= maxBytes && (k < |w| ==> Size(w[..k + 1]) > maxBytes)
  {
    var k := Fitting(w, maxBytes);
    hide Encode;
    FittingIsLongest(w, maxBytes, 0);
    if k < |w| {
      FittingIsLongest(w, maxBytes, k + 1);
    }
  }

  lemma RestIsToken(w: string, k: nat, maxBytes: int)
    requires NoSpace(w) && CharsFit(w, maxBytes) && k <= |w|
    ensures NoSpace(w[k..]) && CharsFit(w[k..], maxBytes)
  {
    hide IsSpace, CharSize;
  }

  lemma PiecesUnfold(w: string, maxBytes: int)
    requires Token(w, maxBytes)
    ensures var k := Fitting(w, maxBytes);
      && NoSpace(w[k..]) && CharsFit(w[k..], maxBytes)
      && HardPieces(w, maxBytes) == [w[..k]] + HardPieces(w[k..], maxBytes)
      && (w[k..] != "" ==> HardPieces(w[k..], maxBytes) != [] && HardPieces(w[k..], maxBytes)[0][..1] == w[k..k + 1])
  {
    RestIsToken(w, Fitting(w, maxBytes), maxBytes);
    var k := Fitting(w, maxBytes);
    if w[k..] != "" {
      FittingFits(w[k..], maxBytes);
    }
    hide Encode, Fitting, CharsFit, NoSpace;
  }

  /** The hard split cuts a word greedily. */
  lemma {:induction false} PiecesAreGreedy(w: string, maxBytes: int)
    requires NoSpace(w) && CharsFit(w, maxBytes)
    ensures IsCut(w, HardPieces(w, maxBytes), maxBytes)
    ensures IsGreedyCut(HardPieces(w, maxBytes), maxBytes)
    decreases |w|
  {
    hide *;
    if w == "" {
      NoPieces(maxBytes);
    } else {
      var k := FirstPiece(w, maxBytes);
      PiecesAreGreedy(w[k..], maxBytes);
      CutInFront(w, k, HardPieces(w[k..], maxBytes), maxBytes);
      GreedyInFront(w[..k], HardPieces(w[k..], maxBytes), maxBytes);
    }
  }

  lemma NoPieces(maxBytes: int)
    ensures HardPieces("", maxBytes) == [] && IsCut("", [], maxBytes) && IsGreedyCut([], maxBytes)
  {
  }

  /** All that matters of the first cut: it takes as much as fits. */
  lemma FirstPiece(w: string, maxBytes: int) returns (k: nat)
    requires NoSpace(w) && CharsFit(w, maxBytes) && w != ""
    ensures 0 < k <= |w| && Size(w[..k]) <= maxBytes && k == Fitting(w, maxBytes)
    ensures NoSpace(w[k..]) && CharsFit(w[k..], maxBytes)
    ensures HardPieces(w, maxBytes) == [w[..k]] + HardPieces(w[k..], maxBytes)
    ensures HardPieces(w[k..], maxBytes) != [] ==> Size(w[..k] + HardPieces(w[k..], maxBytes)[0][..1]) > maxBytes
  {
    k := Fitting(w, maxBytes);
    FittingFits(w, maxBytes);
    PiecesUnfold(w, maxBytes);
    if w[k..] == "" {
      NoPieces(maxBytes);
    } else {
      assert w[..k + 1] == w[..k] + w[k..k + 1];
    }
    hide HardPieces, Encode, Fitting, CharsFit, NoSpace;
  }

  lemma CutInFront(w: string, k: nat, later: seq<string>, maxBytes: int)
    requires k <= |w| && Size(w[..k]) <= maxBytes && IsCut(w[k..], later, maxBytes)
    ensures IsCut(w, [w[..k]] + later, maxBytes)
  {
    hide Encode;
    assert ([w[..k]] + later)[1..] == later && w == w[..k] + w[k..];
  }

  lemma GreedyInFront(piece: string, later: seq<string>, maxBytes: int)
    requires piece != "" && IsGreedyCut(later, maxBytes)
    requires later != [] ==> Size(piece + later[0][..1]) > maxBytes
    ensures IsGreedyCut([piece] + later, maxBytes)
  {
    hide Encode;
    var all := [piece] + later;
    assert forall k | 1 <= k < |all| :: all[k] == later[k - 1];
  }

  /** No cut of a word, or of a longer one that ends in it, has fewer pieces. */
  lemma {:induction false} PiecesAreFewest(w: string, longer: string, pieces: seq<string>, maxBytes: int)
    requires NoSpace(w) && CharsFit(w, maxBytes)
    requires IsCut(longer, pieces, maxBytes) && |w| <= |longer| && w == longer[|longer| - |w|..]
    ensures |HardPieces(w, maxBytes)| <= |pieces|
    decreases |pieces|
  {
    hide *;
    if w == "" {
      NoPieces(maxBytes);
    } else {
      CutTail(longer, pieces, maxBytes);
      var first, left, rest := pieces[0], Concat(pieces[1..]), pieces[1..];
      if |w| <= |left| {
        SuffixOfRest(first, left, w);
        PiecesAreFewest(w, left, rest, maxBytes);
      } else {
        var k := FirstPiece(w, maxBytes);
        FirstPieceReaches(first, left, w, maxBytes);
        SuffixAcross(first, left, w, k);
        PiecesAreFewest(w[k..], left, rest, maxBytes);
      }
    }
  }

  lemma FirstPieceReaches(first: string, left: string, w: string, maxBytes: int)
    requires Size(first) <= maxBytes
    requires |left| < |w| <= |first + left| && w == (first + left)[|first + left| - |w|..]
    ensures |w| - |left| <= Fitting(w, maxBytes)
  {
    hide *;
    SuffixAcross(first, left, w, 0);
    SuffixIsSmaller(first, |first + left| - |w|);
    ReachesAtLeast(w, |w| - |left|, maxBytes);
  }

  lemma SuffixOfRest(first: string, rest: string, w: string)
    requires |w| <= |rest| && w == (first + rest)[|first + rest| - |w|..]
    ensures w == rest[|rest| - |w|..]
  {
  }

  lemma SuffixAcross(first: string, rest: string, w: string, k: nat)
    requires |rest| < |w| <= |first + rest| && w == (first + rest)[|first + rest| - |w|..]
    ensures w[..|w| - |rest|] == first[|first + rest| - |w|..]
    ensures |w| - |rest| <= k <= |w| ==> |w[k..]| <= |rest| && w[k..] == rest[|rest| - |w[k..]|..]
  {
  }

  lemma CutTail(word: string, pieces: seq<string>, maxBytes: int)
    requires IsCut(word, pieces, maxBytes) && word != ""
    ensures pieces != [] && Size(pieces[0]) <= maxBytes
    ensures word == pieces[0] + Concat(pieces[1..]) && IsCut(Concat(pieces[1..]), pieces[1..], maxBytes)
  {
    hide Encode;
  }

  lemma SuffixIsSmaller(s: string, d: nat)
    requires d <= |s|
    ensures Size(s[d..]) <= Size(s)
  {
    EncodeCut(s, d);
  }

  lemma ReachesAtLeast(w: string, a: nat, maxBytes: int)
    requires a <= |w| && Size(w[..a]) <= maxBytes
    ensures a <= Fitting(w, maxBytes)
  {
    FittingIsLongest(w, maxBytes, a);
  }

  // ---------------------------------------------------------------------
  // Laying out the words of a text
  // ---------------------------------------------------------------------

  /** One stretch of a layout: words sharing a packet, or an overlong word cut in pieces. */
  datatype Portion = Group(words: seq<string>) | Cut(word: string, pieces: seq<string>)

  function WordsOf(p: Portion): seq<string> {
    match p
    case Group(words) => words
    case Cut(word, _) => [word]
  }

  function PacketsOf(p: Portion): seq<string> {
    match p
    case Group(words) => [Join(words)]
    case Cut(_, pieces) => pieces
  }

  function AllWords(layout: seq<Portion>): seq<string> {
    if layout == [] then [] else WordsOf(layout[0]) + AllWords(layout[1..])
  }

  function AllPackets(layout: seq<Portion>): seq<string> {
    if layout == [] then [] else PacketsOf(layout[0]) + AllPackets(layout[1..])
  }

  ghost predicate Fits(p: Portion, maxBytes: int) {
    match p
    case Group(words) => words != [] && Size(Join(words)) <= maxBytes
    case Cut(word, pieces) => Size(word) > maxBytes && IsCut(word, pieces, maxBytes)
  }

  ghost predicate IsLayout(layout: seq<Portion>, words: seq<string>, maxBytes: int) {
    && AllWords(layout) == words
    && forall k | 0 <= k < |layout| :: Fits(layout[k], maxBytes)
  }

  /** Nothing could have gone out earlier: no packet has room for the next word, nor a piece
      for the next character. */
  ghost predicate IsGreedy(layout: seq<Portion>, maxBytes: int) {
    && (forall k | 0 <= k < |layout| && layout[k].Cut? :: IsGreedyCut(layout[k].pieces, maxBytes))
    && (forall k | 0 <= k < |layout| - 1 :: Crowded(layout[k], layout[k + 1], maxBytes))
  }

  ghost predicate Crowded(p: Portion, next: Portion, maxBytes: int) {
    p.Group? && next.Group? && next.words != [] ==> Size(Join(p.words + [next.words[0]])) > maxBytes
  }

  lemma InFront(p: Portion, later: seq<Portion>)
    ensures AllWords([p] + later) == WordsOf(p) + AllWords(later)
    ensures AllPackets([p] + later) == PacketsOf(p) + AllPackets(later)
  {
    assert ([p] + later)[1..] == later;
  }

  lemma LayoutInFront(p: Portion, later: seq<Portion>, rest: seq<string>, maxBytes: int)
    requires IsLayout(later, rest, maxBytes) && IsGreedy(later, maxBytes)
    requires Fits(p, maxBytes) && (p.Cut? ==> IsGreedyCut(p.pieces, maxBytes))
    requires later != [] ==> Crowded(p, later[0], maxBytes)
    ensures IsLayout([p] + later, WordsOf(p) + rest, maxBytes) && IsGreedy([p] + later, maxBytes)
  {
    hide AllWords, AllPackets, Fits, IsGreedyCut, Crowded, WordsOf;
    InFront(p, later);
    var all := [p] + later;
    assert forall k | 1 <= k < |all| :: all[k] == later[k - 1];
  }

  /** An overlong word sends off the open chunk, and its pieces, and leaves nothing open. */
  lemma PackCuts(words: seq<string>, cur: string, maxBytes: int)
    requires Tokens(words, maxBytes) && words != [] && Size(words[0]) > maxBytes
    ensures Token(words[0], maxBytes) && Tokens(words[1..], maxBytes)
    ensures Pack(words, cur, maxBytes)
      == Flush(cur) + HardPieces(words[0], maxBytes) + Pack(words[1..], "", maxBytes)
  {
    assert Token(words[0], maxBytes);
    SizeOfExtend(cur, words[0]);
    hide Encode, Token, Extend, HardPieces;
  }

  /** The open chunk, if there is one, is the last packet. */
  lemma LastPortion(open: seq<string>, maxBytes: int) returns (layout: seq<Portion>)
    requires Tokens(open, maxBytes) && (open != [] ==> Size(Join(open)) <= maxBytes)
    ensures IsLayout(layout, open, maxBytes) && IsGreedy(layout, maxBytes)
    ensures AllPackets(layout) == Pack([], Join(open), maxBytes)
    ensures open != [] ==> layout == [Group(open)]
  {
    hide Encode, Join, Tokens;
    JoinIsEmpty(open, maxBytes);
    layout := if open == [] then [] else [Group(open)];
    NothingLaidOut(maxBytes);
    if open != [] {
      LayoutInFront(Group(open), [], [], maxBytes);
      InFront(Group(open), []);
      assert [Group(open)] + [] == [Group(open)] && open + [] == open;
    }
  }

  lemma NothingLaidOut(maxBytes: int)
    ensures AllWords([]) == [] && AllPackets([]) == [] && IsLayout([], [], maxBytes) && IsGreedy([], maxBytes)
  {
  }

  /** The packing is a greedy layout: it begins with the words of the open chunk. */
  lemma {:induction false} PackIsLayout(open: seq<string>, words: seq<string>, maxBytes: int)
    returns (layout: seq<Portion>)
    requires Tokens(open, maxBytes) && Tokens(words, maxBytes)
    requires open != [] ==> Size(Join(open)) <= maxBytes
    ensures IsLayout(layout, open + words, maxBytes) && IsGreedy(layout, maxBytes)
    ensures AllPackets(layout) == Pack(words, Join(open), maxBytes)
    ensures open != [] ==> layout != [] && layout[0].Group? && open <= layout[0].words
    decreases |words|
  {
    hide *;
    JoinIsEmpty(open, maxBytes);
    if words == [] {
      layout := LastPortion(open, maxBytes);
      assert open + words == open;
    } else {
      var word, rest := words[0], words[1..];
      TokensInTwo(open, words, maxBytes);
      JoinExtend(open, word);
      if Size(Extend(Join(open), word)) <= maxBytes {
        PackExtends(words, Join(open), maxBytes);
        layout := PackIsLayout(open + [word], rest, maxBytes);
        assert (open + [word]) + rest == open + words;
      } else if Size(word) <= maxBytes {
        layout := OpenIsFull(open, words, maxBytes);
      } else {
        layout := WordIsCut(open, words, maxBytes);
      }
    }
  }

  lemma {:induction false} OpenIsFull(open: seq<string>, words: seq<string>, maxBytes: int)
    returns (layout: seq<Portion>)
    requires Tokens(open, maxBytes) && Tokens(words, maxBytes) && words != []
    requires open != [] ==> Size(Join(open)) <= maxBytes
    requires Size(words[0]) <= maxBytes < Size(Extend(Join(open), words[0]))
    ensures IsLayout(layout, open + words, maxBytes) && IsGreedy(layout, maxBytes)
    ensures AllPackets(layout) == Pack(words, Join(open), maxBytes)
    ensures open != [] ==> layout != [] && layout[0].Group? && open <= layout[0].words
    decreases |words|, 0
  {
    hide Pack, Tokens, AllWords, AllPackets, IsLayout, IsGreedy, Encode, Join;
    var word, rest := words[0], words[1..];
    JoinIsEmpty(open, maxBytes);
    TokensInTwo(open, words, maxBytes);
    JoinOfOne(word);
    JoinExtend(open, word);
    PackFlushes(words, Join(open), maxBytes);
    var later := PackIsLayout([word], rest, maxBytes);
    assert [word] + rest == words;
    layout := [Group(open)] + later;
    InFront(Group(open), later);
    LayoutInFront(Group(open), later, words, maxBytes);
  }

  lemma {:induction false} WordIsCut(open: seq<string>, words: seq<string>, maxBytes: int)
    returns (layout: seq<Portion>)
    requires Tokens(open, maxBytes) && Tokens(words, maxBytes) && words != []
    requires open != [] ==> Size(Join(open)) <= maxBytes
    requires Size(words[0]) > maxBytes
    ensures IsLayout(layout, open + words, maxBytes) && IsGreedy(layout, maxBytes)
    ensures AllPackets(layout) == Pack(words, Join(open), maxBytes)
    ensures open != [] ==> layout != [] && layout[0].Group? && open <= layout[0].words
    decreases |words|, 0
  {
    hide *;
    PackCuts(words, Join(open), maxBytes);
    NoTokens(maxBytes);
    EmptyJoin();
    var later := PackIsLayout([], words[1..], maxBytes);
    assert [] + words[1..] == words[1..];
    layout := CutThen(words, later, maxBytes);
    layout := OpenThen(open, words, layout, maxBytes);
  }

  lemma CutThen(words: seq<string>, later: seq<Portion>, maxBytes: int) returns (layout: seq<Portion>)
    requires words != [] && Token(words[0], maxBytes) && Size(words[0]) > maxBytes
    requires IsLayout(later, words[1..], maxBytes) && IsGreedy(later, maxBytes)
    ensures IsLayout(layout, words, maxBytes) && IsGreedy(layout, maxBytes)
    ensures layout != [] && layout[0].Cut?
    ensures AllPackets(layout) == HardPieces(words[0], maxBytes) + AllPackets(later)
  {
    hide AllWords, AllPackets, IsLayout, IsGreedy, IsCut, IsGreedyCut, HardPieces, Encode, CharsFit, NoSpace;
    var cut := Cut(words[0], HardPieces(words[0], maxBytes));
    PiecesAreGreedy(words[0], maxBytes);
    InFront(cut, later);
    assert [words[0]] + words[1..] == words;
    LayoutInFront(cut, later, words[1..], maxBytes);
    layout := [cut] + later;
  }

  /** The open chunk, if there is one, goes out before an overlong word. */
  lemma OpenThen(open: seq<string>, words: seq<string>, later: seq<Portion>, maxBytes: int)
    returns (layout: seq<Portion>)
    requires Tokens(open, maxBytes) && (open != [] ==> Size(Join(open)) <= maxBytes)
    requires IsLayout(later, words, maxBytes) && IsGreedy(later, maxBytes) && later != [] && later[0].Cut?
    ensures IsLayout(layout, open + words, maxBytes) && IsGreedy(layout, maxBytes)
    ensures AllPackets(layout) == Flush(Join(open)) + AllPackets(later)
    ensures open != [] ==> layout != [] && layout[0].Group? && open <= layout[0].words
  {
    hide AllWords, AllPackets, IsLayout, IsGreedy, Tokens, Encode, Join;
    JoinIsEmpty(open, maxBytes);
    if open == [] {
      assert open + words == words;
      layout := later;
    } else {
      InFront(Group(open), later);
      LayoutInFront(Group(open), later, words, maxBytes);
      layout := [Group(open)] + later;
    }
  }

  lemma EmptyJoin()
    ensures Join([]) == ""
  {
  }

  lemma NoTokens(maxBytes: int)
    ensures Tokens([], maxBytes)
  {
  }

  // ---------------------------------------------------------------------
  // No layout is shorter
  // ---------------------------------------------------------------------

  lemma TokensSplit(front: seq<string>, rest: seq<string>, maxBytes: int)
    requires Tokens(front + rest, maxBytes)
    ensures Tokens(front, maxBytes) && Tokens(rest, maxBytes)
  {
    hide Token;
    assert forall k | 0 <= k < |front| :: front[k] == (front + rest)[k];
    assert forall k | 0 <= k < |rest| :: rest[k] == (front + rest)[|front| + k];
  }

  lemma LayoutTail(layout: seq<Portion>, words: seq<string>, maxBytes: int)
    requires IsLayout(layout, words, maxBytes) && layout != []
    ensures Fits(layout[0], maxBytes)
    ensures words == WordsOf(layout[0]) + AllWords(layout[1..])
    ensures IsLayout(layout[1..], AllWords(layout[1..]), maxBytes)
    ensures |AllPackets(layout)| == |PacketsOf(layout[0])| + |AllPackets(layout[1..])|
  {
    hide Fits, WordsOf, PacketsOf;
  }

  lemma {:induction false} PackIsOptimal(layout: seq<Portion>, words: seq<string>, cur: string, maxBytes: int)
    requires Tokens(words, maxBytes) && IsLayout(layout, words, maxBytes)
    ensures |Pack(words, cur, maxBytes)| <= |Flush(cur)| + |AllPackets(layout)|
    decreases |layout|
  {
    hide Pack, Tokens, AllWords, AllPackets, IsLayout, IsCut, HardPieces, Encode, Join, CharsFit, NoSpace;
    if layout == [] {
      EmptyPack(layout, words, cur, maxBytes);
    } else {
      LayoutTail(layout, words, maxBytes);
      var rest := AllWords(layout[1..]);
      TokensSplit(WordsOf(layout[0]), rest, maxBytes);
      match layout[0] {
        case Group(group) =>
          var next := GroupCostsOne(group, rest, cur, maxBytes);
          PackIsOptimal(layout[1..], rest, next, maxBytes);
        case Cut(word, pieces) =>
          assert words[0] == word && words[1..] == rest;
          PackCuts(words, cur, maxBytes);
          PiecesAreFewest(word, word, pieces, maxBytes);
          PackIsOptimal(layout[1..], rest, "", maxBytes);
      }
    }
  }

  lemma EmptyPack(layout: seq<Portion>, words: seq<string>, cur: string, maxBytes: int)
    requires IsLayout(layout, words, maxBytes) && layout == []
    ensures words == [] && Pack([], cur, maxBytes) == Flush(cur)
  {
  }

  /**
   The chunks of a text lay its words out greedily over packets, and no other layout of the
   same words, overlong words cut any other way included, takes fewer packets.
   */
  lemma ChunksAreFewest(text: string, maxBytes: int, others: seq<Portion>) returns (layout: seq<Portion>)
    requires CharsFit(text, maxBytes) && IsLayout(others, Words(Strip(text)), maxBytes)
    ensures IsLayout(layout, Words(Strip(text)), maxBytes) && IsGreedy(layout, maxBytes)
    ensures Chunks(text, maxBytes) == AllPackets(layout)
    ensures |Chunks(text, maxBytes)| <= |AllPackets(others)|
  {
    hide Words, Strip, Pack, AllWords, AllPackets, IsLayout, IsGreedy, Tokens, CharsFit;
    StrippedCharsFit(text, maxBytes);
    WordsAreTokens(Strip(text), maxBytes);
    NoTokens(maxBytes);
    EmptyJoin();
    layout := PackIsLayout([], Words(Strip(text)), maxBytes);
    assert [] + Words(Strip(text)) == Words(Strip(text));
    PackIsOptimal(others, Words(Strip(text)), "", maxBytes);
  }

  // ---------------------------------------------------------------------
  // Which words a text has
  // ---------------------------------------------------------------------

  /** gaps[0] + words[0] + gaps[1] + ... + gaps[n] */
  function Weave(gaps: seq<string>, words: seq<string>): string
    requires |gaps| == |words| + 1
  {
    if words == [] then gaps[0] else gaps[0] + words[0] + Weave(gaps[1..], words[1..])
  }

  /** Whitespace all through, and some of it between any two words. */
  ghost predicate AreGaps(gaps: seq<string>) {
    && (forall k | 0 <= k < |gaps| :: AllSpace(gaps[k]))
    && (forall k | 0 < k < |gaps| - 1 :: gaps[k] != "")
  }

  /** The words are the text's maximal stretches without whitespace. */
  lemma {:induction false} WordsAreMaximal(s: string) returns (gaps: seq<string>)
    ensures |gaps| == |Words(s)| + 1 && AreGaps(gaps) && s == Weave(gaps, Words(s))
    ensures forall k | 0 <= k < |Words(s)| :: Words(s)[k] != "" && NoSpace(Words(s)[k])
    ensures s != "" && !IsSpace(s[0]) ==> gaps[0] == ""
    ensures s != "" && IsSpace(s[0]) ==> gaps[0] != ""
    decreases |s|
  {
    hide IsSpace;
    if s == "" {
      gaps := [""];
    } else if IsSpace(s[0]) {
      var later := WordsAreMaximal(s[1..]);
      gaps := WiderGap(s, later);
    } else {
      var n := WordLength(s);
      var later := WordsAreMaximal(s[n..]);
      gaps := [""] + later;
      assert Words(s) == [s[..n]] + Words(s[n..]);
      hide Words;
      assert gaps[1..] == later && ([s[..n]] + Words(s[n..]))[1..] == Words(s[n..]);
      assert s == s[..n] + s[n..];
      NewGap(later, s, n);
    }
  }

  lemma WiderGap(s: string, later: seq<string>) returns (gaps: seq<string>)
    requires s != "" && IsSpace(s[0]) && Words(s) == Words(s[1..])
    requires |later| == |Words(s)| + 1 && AreGaps(later) && s[1..] == Weave(later, Words(s))
    ensures |gaps| == |Words(s)| + 1 && AreGaps(gaps) && s == Weave(gaps, Words(s)) && gaps[0] != ""
  {
    hide Words, IsSpace;
    gaps := [[s[0]] + later[0]] + later[1..];
    assert gaps[1..] == later[1..];
    assert s == [s[0]] + s[1..];
  }

  lemma NewGap(later: seq<string>, s: string, n: nat)
    requires later != [] && AreGaps(later) && n <= |s|
    requires s[n..] != "" ==> IsSpace(s[n..][0])
    requires s[n..] != "" && IsSpace(s[n..][0]) ==> later[0] != ""
    requires s[n..] == "" ==> |later| == 1
    ensures AreGaps([""] + later)
  {
    hide IsSpace;
    var gaps := [""] + later;
    assert forall k | 1 <= k < |gaps| :: gaps[k] == later[k - 1];
  }
}
