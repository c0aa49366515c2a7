/** The parts of a reply: its chunks, or its first five with the last one marked. */
module ReplyParts {
  import opened Prelude
  import opened Utf8
  import opened Chunking
  import opened ChunkingProperties

  const MAX_MESH_BYTES := 200
  const MAX_PARTS := 5

  /** The mark of a truncated reply: a space and an ellipsis. */
  const MARK := " \U{2026}"

  /** The longest beginning of last that leaves room for the mark, and the mark. */
  ghost predicate IsMarked(last: string, marked: string) {
    var k := |marked| - |MARK|;
    && 0 <= k <= |last| && marked == last[..k] + MARK
    && Size(marked) <= MAX_MESH_BYTES
    && (k < |last| ==> Size(last[..k + 1] + MARK) > MAX_MESH_BYTES)
  }

  /** What send puts together from a reply's text. */
  ghost predicate IsPlan(content: string, parts: seq<string>) {
    FourBytesAlwaysFit(content, MAX_MESH_BYTES);
    var chunks := Chunks(content, MAX_MESH_BYTES);
    if |chunks| <= MAX_PARTS then parts == chunks
    else
      && |parts| == MAX_PARTS
      && parts[..MAX_PARTS - 1] == chunks[..MAX_PARTS - 1]
      && IsMarked(chunks[MAX_PARTS - 1], parts[MAX_PARTS - 1])
  }

  lemma MarkSize()
    ensures Size(MARK) == 4 && MARK[1] == '\U{2026}' && !IsSpace('\U{2026}')
  {
    assert CharSize(MARK[0]) == 1 && CharSize(MARK[1]) == 3;
    assert MARK[1..][1..] == "";
    hide EncodeChar;
  }

  /** The loop that makes room for the mark; with nothing left the mark alone fits. */
  method MarkTruncated(part: string) returns (marked: string)
    ensures IsMarked(part, marked)
  {
    MarkSize();
    hide Encode;
    var last := part;
    while |Encode(last + MARK)| > MAX_MESH_BYTES
      invariant last <= part
      invariant |last| < |part| ==> Size(part[..|last| + 1] + MARK) > MAX_MESH_BYTES
      decreases |last|
    {
      assert last == "" ==> last + MARK == MARK;
      assert last == part[..|last| - 1 + 1];
      last := last[..|last| - 1];
    }
    marked := last + MARK;
  }

  /** Splitting and capping a reply. */
  method PlanParts(content: string) returns (parts: seq<string>)
    ensures IsPlan(content, parts)
  {
    FourBytesAlwaysFit(content, MAX_MESH_BYTES);
    hide IsMarked, Chunks;
    parts := SplitText(content, MAX_MESH_BYTES);
    if |parts| > MAX_PARTS {
      ghost var chunks := parts;
      parts := parts[..MAX_PARTS];
      var marked := MarkTruncated(parts[MAX_PARTS - 1]);
      parts := parts[MAX_PARTS - 1 := marked];
      assert parts[..MAX_PARTS - 1] == chunks[..MAX_PARTS - 1];
    }
  }

  lemma MarkedIsSendable(last: string, marked: string)
    requires IsMarked(last, marked) && last != "" && !IsSpace(last[0])
    ensures Sendable(marked, MAX_MESH_BYTES)
  {
    MarkSize();
    EncodeAppend(last[..1], MARK);
    OneChar(last[0]);
    assert last[..1] == [last[0]];
    hide Encode, IsSpace;
  }

  lemma OneChar(c: char)
    ensures Size([c]) <= 4
  {
    EncodeCons(c, "");
    assert [c] + "" == [c];
  }

  /** At most five parts; each is non-empty, fits a packet, and survives being stripped. */
  lemma PlanIsSendable(content: string, parts: seq<string>, i: nat)
    requires IsPlan(content, parts) && i < |parts|
    ensures |parts| <= 5
    ensures parts[i] != "" && Size(parts[i]) <= 200 && Strip(parts[i]) == parts[i]
  {
    FourBytesAlwaysFit(content, MAX_MESH_BYTES);
    var chunks := Chunks(content, MAX_MESH_BYTES);
    hide Chunks, IsMarked, Encode, Decode;
    ChunksAreSendable(content, MAX_MESH_BYTES, i);
    if |chunks| > MAX_PARTS {
      assert i < MAX_PARTS - 1 ==> parts[i] == parts[..MAX_PARTS - 1][i] == chunks[..MAX_PARTS - 1][i];
      if i == MAX_PARTS - 1 {
        MarkedIsSendable(chunks[i], parts[i]);
      }
    }
    StripIsIdentity(parts[i]);
  }
}
