/** What the chunks of a reply promise: they fit, they keep the text, they are few. */
module ChunkingProperties {
  import opened Prelude
  import opened Utf8
  import opened Chunking

  // ---------------------------------------------------------------------
  // Every chunk can go on the air
  // ---------------------------------------------------------------------

  ghost predicate Sendable(chunk: string, maxBytes: int) {
    chunk != "" && Size(chunk) <= maxBytes && Trimmed(chunk)
  }

  ghost predicate AllSendable(chunks: seq<string>, maxBytes: int) {
    forall k | 0 <= k < |chunks| :: Sendable(chunks[k], maxBytes)
  }

  lemma {:induction false} PiecesAreSendable(w: string, maxBytes: int)
    requires NoSpace(w) && CharsFit(w, maxBytes)
    ensures AllSendable(HardPieces(w, maxBytes), maxBytes)
    decreases |w|
  {
    if w != "" {
      hide Encode;
      var k := Fitting(w, maxBytes);
      FittingIsLongest(w, maxBytes, 0);
      PiecesAreSendable(w[k..], maxBytes);
    }
  }

  lemma FillingIsSendable(cur: string, word: string, maxBytes: int)
    requires cur == "" || Sendable(cur, maxBytes)
    requires Token(word, maxBytes)
    ensures var next := Filling(cur, word, maxBytes); next == "" || Sendable(next, maxBytes)
  {
    hide CharsFit, Encode;
  }

  lemma FinishedAreSendable(cur: string, word: string, maxBytes: int)
    requires cur == "" || Sendable(cur, maxBytes)
    requires Token(word, maxBytes)
    ensures AllSendable(Finished(cur, word, maxBytes), maxBytes)
  {
    PiecesAreSendable(word, maxBytes);
    hide CharsFit, Encode, NoSpace, HardPieces;
  }

  lemma {:induction false} PackIsSendable(words: seq<string>, cur: string, maxBytes: int)
    requires Tokens(words, maxBytes)
    requires cur == "" || Sendable(cur, maxBytes)
    ensures AllSendable(Pack(words, cur, maxBytes), maxBytes)
    decreases |words|
  {
    hide Sendable, Token, Filling, Finished;
    if words != [] {
      assert Token(words[0], maxBytes);
      FillingIsSendable(cur, words[0], maxBytes);
      FinishedAreSendable(cur, words[0], maxBytes);
      PackIsSendable(words[1..], Filling(cur, words[0], maxBytes), maxBytes);
    }
  }

  /** Each chunk is non-empty, within the limit, without whitespace at its ends, and
      decodes back from its bytes. */
  lemma ChunksAreSendable(text: string, maxBytes: int, k: nat)
    requires CharsFit(text, maxBytes) && k < |Chunks(text, maxBytes)|
    ensures var chunk := Chunks(text, maxBytes)[k];
      && chunk != "" && Size(chunk) <= maxBytes && Trimmed(chunk)
      && Decode(Encode(chunk)) == Some(chunk)
  {
    hide Pack, Encode, Decode;
    StrippedCharsFit(text, maxBytes);
    WordsAreTokens(Strip(text), maxBytes);
    PackIsSendable(Words(Strip(text)), "", maxBytes);
    assert Sendable(Chunks(text, maxBytes)[k], maxBytes);
    DecodeOfEncode(Chunks(text, maxBytes)[k]);
  }

  // ---------------------------------------------------------------------
  // Nothing but whitespace is lost
  // ---------------------------------------------------------------------

  lemma {:induction false} SqueezeAppend(s: string, t: string)
    ensures Squeeze(s + t) == Squeeze(s) + Squeeze(t)
  {
    if s == "" {
      assert s + t == t;
    } else {
      assert (s + t)[1..] == s[1..] + t;
      SqueezeAppend(s[1..], t);
    }
  }

  lemma {:induction false} SqueezeOfSpace(s: string)
    requires AllSpace(s)
    ensures Squeeze(s) == ""
  {
    if s != "" {
      SqueezeOfSpace(s[1..]);
    }
  }

  lemma {:induction false} SqueezeOfToken(s: string)
    requires NoSpace(s)
    ensures Squeeze(s) == s
  {
    if s != "" {
      SqueezeOfToken(s[1..]);
    }
  }

  lemma SqueezeOfStrip(s: string)
    ensures Squeeze(Strip(s)) == Squeeze(s)
  {
    hide Squeeze, Strip;
    var lo, hi := StripIsSlice(s);
    assert s == s[..lo] + s[lo..hi] + s[hi..];
    SqueezeAppend(s[..lo] + s[lo..hi], s[hi..]);
    SqueezeAppend(s[..lo], s[lo..hi]);
    SqueezeOfSpace(s[..lo]);
    SqueezeOfSpace(s[hi..]);
  }

  lemma {:induction false} WordsAreSqueeze(s: string)
    ensures Concat(Words(s)) == Squeeze(s)
    decreases |s|
  {
    if s == "" {
    } else if IsSpace(s[0]) {
      WordsAreSqueeze(s[1..]);
    } else {
      var n := WordLength(s);
      WordsAreSqueeze(s[n..]);
      SqueezeAppend(s[..n], s[n..]);
      SqueezeOfToken(s[..n]);
      assert s == s[..n] + s[n..];
      assert Words(s)[1..] == Words(s[n..]);
    }
  }

  lemma {:induction false} ConcatAppend(a: seq<string>, b: seq<string>)
    ensures Concat(a + b) == Concat(a) + Concat(b)
  {
    if a == [] {
      assert a + b == b;
    } else {
      assert (a + b)[1..] == a[1..] + b;
      ConcatAppend(a[1..], b);
    }
  }

  lemma {:induction false} ConcatOfPieces(w: string, maxBytes: int)
    requires NoSpace(w) && CharsFit(w, maxBytes)
    ensures Concat(HardPieces(w, maxBytes)) == w
    decreases |w|
  {
    if w != "" {
      var k := Fitting(w, maxBytes);
      ConcatOfPieces(w[k..], maxBytes);
      assert HardPieces(w, maxBytes)[1..] == HardPieces(w[k..], maxBytes);
    }
  }

  lemma SqueezeOfExtend(cur: string, word: string)
    requires NoSpace(word)
    ensures Squeeze(Extend(cur, word)) == Squeeze(cur) + word
  {
    hide Squeeze, NoSpace;
    SqueezeAppend(cur + " ", word);
    SqueezeAppend(cur, " ");
    SqueezeOfSpace(" ");
    SqueezeOfSpace("");
    SqueezeOfToken(word);
  }

  /** One word moves from the input to the chunks and the text being filled. */
  lemma TurnKeepsText(cur: string, word: string, maxBytes: int)
    requires Token(word, maxBytes)
    ensures Squeeze(Concat(Finished(cur, word, maxBytes))) + Squeeze(Filling(cur, word, maxBytes))
         == Squeeze(cur) + word
  {
    hide Encode, Squeeze, NoSpace, CharsFit;
    SqueezeOfExtend(cur, word);
    SqueezeOfToken(word);
    SqueezeOfSpace("");
    if Size(Extend(cur, word)) > maxBytes {
      assert Concat(Flush(cur)) == cur;
      if Size(word) > maxBytes {
        ConcatOfPieces(word, maxBytes);
        ConcatAppend(Flush(cur), HardPieces(word, maxBytes));
        SqueezeAppend(cur, word);
      }
    }
  }

  lemma {:induction false} PackKeepsText(words: seq<string>, cur: string, maxBytes: int)
    requires Tokens(words, maxBytes)
    ensures Squeeze(Concat(Pack(words, cur, maxBytes))) == Squeeze(cur) + Concat(words)
    decreases |words|
  {
    hide Squeeze, Finished, Filling, Token;
    if words == [] {
      assert Concat(Flush(cur)) == cur && Squeeze(cur) + "" == Squeeze(cur);
    } else {
      assert Token(words[0], maxBytes);
      var done, next := Finished(cur, words[0], maxBytes), Filling(cur, words[0], maxBytes);
      PackKeepsText(words[1..], next, maxBytes);
      TurnKeepsText(cur, words[0], maxBytes);
      ConcatAppend(done, Pack(words[1..], next, maxBytes));
      SqueezeAppend(Concat(done), Concat(Pack(words[1..], next, maxBytes)));
      assert Squeeze(Concat(done)) + (Squeeze(next) + Concat(words[1..]))
          == (Squeeze(cur) + words[0]) + Concat(words[1..]);
    }
  }

  /** The chunks, run together, are the text but for whitespace. */
  lemma ChunksKeepText(text: string, maxBytes: int)
    requires CharsFit(text, maxBytes)
    ensures Squeeze(Concat(Chunks(text, maxBytes))) == Squeeze(text)
  {
    hide Squeeze, Pack, Words, Strip;
    StrippedCharsFit(text, maxBytes);
    WordsAreTokens(Strip(text), maxBytes);
    PackKeepsText(Words(Strip(text)), "", maxBytes);
    WordsAreSqueeze(Strip(text));
    SqueezeOfStrip(text);
    SqueezeOfSpace("");
  }

  // ---------------------------------------------------------------------
  // What packing one more word costs
  // ---------------------------------------------------------------------

  lemma JoinExtend(group: seq<string>, word: string)
    requires group == [] || Join(group) != ""
    ensures Join(group + [word]) == Extend(Join(group), word)
  {
    assert (group + [word])[..|group|] == group;
  }

  lemma SizeOfExtend(cur: string, word: string)
    ensures Size(Extend(cur, word)) >= Size(cur)
    ensures Size(Extend(cur, word)) >= Size(word)
  {
    EncodeAppend(cur + " ", word);
    EncodeAppend(cur, " ");
  }

  /** A group that opens with a non-empty word joins to a longer and longer text. */
  lemma {:induction false} JoinGrows(group: seq<string>, k: nat, maxBytes: int)
    requires Tokens(group, maxBytes) && 1 <= k <= |group|
    ensures Join(group[..k]) != ""
    ensures Size(Join(group[..k])) <= Size(Join(group))
    decreases |group|
  {
    hide Encode, CharsFit, NoSpace;
    assert Token(group[0], maxBytes);
    var n := |group| - 1;
    if k <= n {
      JoinGrows(group[..n], k, maxBytes);
      assert group[..n][..k] == group[..k];
      SizeOfExtend(Join(group[..n]), group[n]);
      assert group[..n][..n] == group[..n];
      JoinGrows(group[..n], n, maxBytes);
    } else if n > 0 {
      assert group[..k] == group;
    } else {
      assert group[..k] == group == [group[0]];
    }
  }

  /** While the words of one group follow, the chunk being filled just grows. */
  lemma {:induction false} FillingGrows(group: seq<string>, k: nat, rest: seq<string>, maxBytes: int)
    requires Tokens(group, maxBytes) && Tokens(rest, maxBytes) && 1 <= k <= |group|
    requires Size(Join(group)) <= maxBytes
    ensures Tokens(group[k..] + rest, maxBytes)
    ensures Pack(group[k..] + rest, Join(group[..k]), maxBytes) == Pack(rest, Join(group), maxBytes)
    decreases |group| - k
  {
    hide Encode, Tokens, Pack, Join;
    TokensOfTail(group, k, rest, maxBytes);
    if k == |group| {
      assert group[k..] + rest == rest && group[..k] == group;
    } else {
      var words := group[k..] + rest;
      assert words[1..] == group[k + 1..] + rest && words[0] == group[k];
      FillingGrows(group, k + 1, rest, maxBytes);
      assert group[..k + 1] == group[..k] + [group[k]];
      JoinGrows(group, k, maxBytes);
      JoinGrows(group, k + 1, maxBytes);
      JoinExtend(group[..k], group[k]);
      PackExtends(words, Join(group[..k]), maxBytes);
    }
  }

  lemma TokensOfTail(group: seq<string>, k: nat, rest: seq<string>, maxBytes: int)
    requires Tokens(group, maxBytes) && Tokens(rest, maxBytes) && k <= |group|
    ensures Tokens(group[k..] + rest, maxBytes)
  {
    hide Token;
  }

  /** A word that still fits is taken into the chunk being filled. */
  lemma PackExtends(words: seq<string>, cur: string, maxBytes: int)
    requires Tokens(words, maxBytes) && words != [] && Size(Extend(cur, words[0])) <= maxBytes
    ensures Tokens(words[1..], maxBytes)
    ensures Pack(words, cur, maxBytes) == Pack(words[1..], Extend(cur, words[0]), maxBytes)
  {
    hide Encode, Token, Extend, Finished;
    assert Token(words[0], maxBytes);
    NothingFinished(cur, words[0], maxBytes);
  }

  /** A word that fits a packet but not the chunk being filled begins the next one. */
  lemma PackFlushes(words: seq<string>, cur: string, maxBytes: int)
    requires Tokens(words, maxBytes) && words != []
    requires Size(words[0]) <= maxBytes < Size(Extend(cur, words[0]))
    ensures Tokens(words[1..], maxBytes)
    ensures Pack(words, cur, maxBytes) == Flush(cur) + Pack(words[1..], words[0], maxBytes)
  {
    hide Encode, Token, Extend;
  }

  lemma NothingFinished(cur: string, word: string, maxBytes: int)
    requires Token(word, maxBytes) && Size(Extend(cur, word)) <= maxBytes
    ensures Finished(cur, word, maxBytes) == []
  {
  }

  /** The words of one group finish at most one chunk, and none when none was begun. */
  lemma {:induction false} GroupCostsOne(group: seq<string>, rest: seq<string>, cur: string, maxBytes: int)
    returns (next: string)
    requires Tokens(group, maxBytes) && Tokens(rest, maxBytes) && group != []
    requires Size(Join(group)) <= maxBytes
    ensures Tokens(group + rest, maxBytes)
    ensures |Pack(group + rest, cur, maxBytes)| <= |Flush(cur)| + |Pack(rest, next, maxBytes)|
    decreases |group|
  {
    var word := group[0];
    assert Token(word, maxBytes);
    assert (group + rest)[1..] == group[1..] + rest;
    JoinGrows(group, 1, maxBytes);
    assert group[..1] == [word];
    if cur != "" && Size(Extend(cur, word)) <= maxBytes {
      if |group| == 1 {
        next := Extend(cur, word);
        assert group[1..] + rest == rest;
      } else {
        TailFits(group);
        next := GroupCostsOne(group[1..], rest, Extend(cur, word), maxBytes);
      }
    } else {
      next := Join(group);
      FillingGrows(group, 1, rest, maxBytes);
    }
  }

  lemma SizeOfJoin(group: seq<string>)
    requires |group| > 1
    ensures var n := |group| - 1;
      Size(Join(group)) == Size(Join(group[..n])) + Size(" ") + Size(group[n])
  {
    hide Encode;
    var n := |group| - 1;
    EncodeAppend(Join(group[..n]) + " ", group[n]);
    EncodeAppend(Join(group[..n]), " ");
  }

  lemma {:induction false} TailFits(group: seq<string>)
    requires |group| > 1
    ensures Size(Join(group[1..])) <= Size(Join(group))
  {
    var n := |group| - 1;
    SizeOfJoin(group);
    if n == 1 {
      assert group[1..] == [group[1]];
      JoinOfOne(group[1]);
    } else {
      TailFits(group[..n]);
      SizeOfJoin(group[1..]);
      assert group[1..][..n - 1] == group[..n][1..];
    }
    hide Encode, Join;
  }

  lemma JoinIsEmpty(group: seq<string>, maxBytes: int)
    requires Tokens(group, maxBytes)
    ensures Join(group) == "" <==> group == []
  {
    if group != [] {
      JoinGrows(group, |group|, maxBytes);
      assert group[..|group|] == group;
    }
  }

  lemma TokensInTwo(open: seq<string>, words: seq<string>, maxBytes: int)
    requires Tokens(open, maxBytes) && Tokens(words, maxBytes) && words != []
    ensures Tokens(open + [words[0]], maxBytes) && Tokens([words[0]], maxBytes) && Tokens(words[1..], maxBytes)
  {
    hide Token;
  }

  lemma JoinOfOne(word: string)
    ensures Join([word]) == word
  {
  }

  // ---------------------------------------------------------------------
  // When the hard split ends
  // ---------------------------------------------------------------------

  /** What the byte loop has left of a word after k cuts. */
  function LeftAfter(w: string, maxBytes: nat, k: nat): string
    decreases k
  {
    if k == 0 then w else LeftAfter(w[Fitting(w, maxBytes)..], maxBytes, k - 1)
  }

  /** The next cut takes nothing, and so does every later one. */
  predicate IsStuck(left: string, maxBytes: nat) {
    left != "" && Fitting(left, maxBytes) == 0
  }

  ghost predicate GetsStuck(w: string, maxBytes: nat) {
    exists k: nat :: IsStuck(LeftAfter(w, maxBytes, k), maxBytes)
  }

  lemma {:induction false} FittedCharsFit(w: string, room: nat)
    ensures CharsFit(w[..Fitting(w, room)], room)
  {
    if Fitting(w, room) > 0 {
      FittedCharsFit(w[1..], room - CharSize(w[0]));
      var f := Fitting(w, room);
      assert w[..f] == [w[0]] + w[1..][..f - 1];
      forall i | 0 < i < f ensures IsSpace(w[i]) || CharSize(w[i]) <= room {
        assert w[..f][i] == w[1..][..f - 1][i - 1];
      }
    }
  }

  lemma {:induction false} StuckIsTooLong(w: string, maxBytes: nat, k: nat)
    requires NoSpace(w) && IsStuck(LeftAfter(w, maxBytes, k), maxBytes)
    ensures !CharsFit(w, maxBytes)
    decreases k
  {
    if k > 0 {
      var rest := w[Fitting(w, maxBytes)..];
      StuckIsTooLong(rest, maxBytes, k - 1);
      assert forall i | 0 <= i < |rest| :: rest[i] == w[Fitting(w, maxBytes) + i];
    }
  }

  lemma {:induction false} TooLongGetsStuck(w: string, maxBytes: nat) returns (k: nat)
    requires NoSpace(w) && !CharsFit(w, maxBytes)
    ensures IsStuck(LeftAfter(w, maxBytes, k), maxBytes)
  {
    k := 0;
    var f := Fitting(w, maxBytes);
    if f > 0 {
      FittedCharsFit(w, maxBytes);
      CharsFitInTwo(w, f, maxBytes);
      k := TooLongGetsStuck(w[f..], maxBytes);
      k := k + 1;
    }
  }

  lemma CharsFitInTwo(s: string, n: nat, maxBytes: int)
    requires n <= |s|
    ensures CharsFit(s, maxBytes) <==> CharsFit(s[..n], maxBytes) && CharsFit(s[n..], maxBytes)
  {
    assert forall i | n <= i < |s| :: s[n..][i - n] == s[i];
  }

  /** The hard split of a word comes to a remainder it cannot cut exactly when some
      character of it is by itself longer than the limit. */
  lemma WordGetsStuckExactly(w: string, maxBytes: nat)
    requires NoSpace(w)
    ensures GetsStuck(w, maxBytes) <==> !CharsFit(w, maxBytes)
  {
    hide CharsFit, IsStuck, LeftAfter;
    if k: nat :| IsStuck(LeftAfter(w, maxBytes, k), maxBytes) {
      StuckIsTooLong(w, maxBytes, k);
    }
    if !CharsFit(w, maxBytes) {
      var k := TooLongGetsStuck(w, maxBytes);
    }
  }

  lemma {:induction false} SqueezeFits(s: string, maxBytes: int)
    ensures CharsFit(Squeeze(s), maxBytes) <==> CharsFit(s, maxBytes)
  {
    if s != "" {
      SqueezeFits(s[1..], maxBytes);
      CharsFitInTwo(s, 1, maxBytes);
      if !IsSpace(s[0]) {
        CharsFitInTwo(Squeeze(s), 1, maxBytes);
        assert Squeeze(s)[..1] == s[..1] && Squeeze(s)[1..] == Squeeze(s[1..]);
      }
    }
  }

  lemma {:induction false} ConcatFits(parts: seq<string>, maxBytes: int)
    ensures CharsFit(Concat(parts), maxBytes) <==> forall k | 0 <= k < |parts| :: CharsFit(parts[k], maxBytes)
  {
    hide CharsFit;
    if parts != [] {
      ConcatFits(parts[1..], maxBytes);
      CharsFitInTwo(Concat(parts), |parts[0]|, maxBytes);
      assert Concat(parts)[..|parts[0]|] == parts[0] && Concat(parts)[|parts[0]|..] == Concat(parts[1..]);
      assert forall k | 1 <= k < |parts| :: parts[k] == parts[1..][k - 1];
    } else {
      assert CharsFit("", maxBytes) by {
        EmptyFits(maxBytes);
      }
    }
  }

  lemma EmptyFits(maxBytes: int)
    ensures CharsFit("", maxBytes)
  {
  }

  ghost predicate SomeGetsStuck(words: seq<string>, maxBytes: nat) {
    exists k | 0 <= k < |words| :: GetsStuck(words[k], maxBytes)
  }

  lemma SomeGetsStuckExactly(words: seq<string>, maxBytes: nat)
    requires forall k | 0 <= k < |words| :: NoSpace(words[k])
    ensures SomeGetsStuck(words, maxBytes) <==> !CharsFit(Concat(words), maxBytes)
  {
    ConcatFits(words, maxBytes);
    hide CharsFit, NoSpace, GetsStuck, Concat;
    forall k | 0 <= k < |words| ensures GetsStuck(words[k], maxBytes) <==> !CharsFit(words[k], maxBytes) {
      WordGetsStuckExactly(words[k], maxBytes);
    }
  }

  /** Splitting a text ends exactly when no character of it, whitespace aside, is by itself
      longer than the limit: otherwise the hard split of some word gets stuck. */
  lemma SplitEndsExactly(text: string, maxBytes: nat)
    ensures SomeGetsStuck(Words(Strip(text)), maxBytes) <==> !CharsFit(text, maxBytes)
  {
    hide *;
    WordsAreSqueeze(Strip(text));
    SqueezeOfStrip(text);
    SqueezeFits(text, maxBytes);
    SomeGetsStuckExactly(Words(Strip(text)), maxBytes);
  }

  /** Four bytes are room enough for any text. */
  lemma FourBytesAlwaysFit(text: string, maxBytes: int)
    requires maxBytes >= 4
    ensures CharsFit(text, maxBytes)
  {
  }
}
