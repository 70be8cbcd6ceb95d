/** yay0_compress, and the proof that decompressing gives the input back. */
module Yay0Compress {
  import opened Bytes
  import opened MaskBits
  import opened Options
  import opened Yay0

  // ---------- the search for a link ----------

  /** The count bytes at pos also stand offset bytes earlier. */
  ghost predicate Repeats(input: seq<byte>, pos: nat, offset: nat, count: nat) {
    && 1 <= offset <= pos
    && pos + count <= |input|
    && forall i :: pos <= i < pos + count ==> input[i] == input[i - offset]
  }

  /** A repetition a link can express, within the window. */
  ghost predicate IsLink(input: seq<byte>, pos: nat, offset: nat, count: nat) {
    offset <= WINDOW && count <= MAX_LINK_LEN && Repeats(input, pos, offset, count)
  }

  /** No link is longer than count, except by one byte and then up to the very end. */
  ghost predicate NoneLonger(input: seq<byte>, pos: nat, count: nat, below: nat) {
    forall offset: nat, n: nat :: 0 < offset < below && IsLink(input, pos, offset, n) ==> n <= count || (n == count + 1 && pos + n == |input|)
  }

  /** How far the bytes at pos repeat, stopping behind MAX_LINK_LEN or at the end of the input. */
  method CountRepeated(input: seq<byte>, pos: nat, offset: nat) returns (count: nat, stopped: bool)
    requires 1 <= offset <= pos < |input|
    ensures Repeats(input, pos, offset, count)
    ensures stopped <==> count > MAX_LINK_LEN || pos + count == |input|
    ensures count <= MAX_LINK_LEN + 1
    ensures !stopped ==> input[pos + count] != input[pos + count - offset]
    ensures stopped ==> count > 0
  {
    count, stopped := 0, false;
    while input[pos - offset + count] == input[pos + count]
      invariant pos + count < |input| && count <= MAX_LINK_LEN && !stopped
      invariant Repeats(input, pos, offset, count)
      decreases |input| - count
    {
      count := count + 1;
      if count > MAX_LINK_LEN || pos + count >= |input| {
        stopped := true;
        break;
      }
    }
  }

  lemma LongestAt(input: seq<byte>, pos: nat, offset: nat, count: nat, n: nat)
    requires Repeats(input, pos, offset, n) && offset <= pos && pos + count < |input|
    requires input[pos + count] != input[pos + count - offset]
    ensures n <= count
  {
    hide Repeats;
    if n > count {
      RepeatsAt(input, pos, offset, n, count);
    }
  }

  lemma RepeatsAt(input: seq<byte>, pos: nat, offset: nat, n: nat, i: nat)
    requires Repeats(input, pos, offset, n) && i < n
    ensures offset <= pos && pos + i < |input| && input[pos + i] == input[pos + i - offset]
  {
    assert pos <= pos + i < pos + n;
  }

  /** The search over the previous 4K: the best link, or count 0. */
  method FindLink(input: seq<byte>, pos: nat) returns (linkCount: nat, linkOffset: nat)
    requires pos < |input|
    ensures linkCount > 0 ==> IsLink(input, pos, linkOffset, linkCount)
    ensures NoneLonger(input, pos, linkCount, pos + 1)
  {
    hide Repeats;
    linkCount, linkOffset := 0, 0;
    var offset := 1;
    while offset <= WINDOW && offset <= pos
      invariant 1 <= offset <= pos + 1
      invariant linkCount > 0 ==> IsLink(input, pos, linkOffset, linkCount) && pos + linkCount < |input|
      invariant forall o: nat, n: nat :: 0 < o < offset && IsLink(input, pos, o, n) ==> n <= linkCount
    {
      var count, stopped := CountRepeated(input, pos, offset);
      if stopped {
        linkCount := count - 1;
        linkOffset := offset;
        ShorterRepeats(input, pos, offset, count);
        forall o: nat, n: nat | IsLink(input, pos, o, n)
          ensures n <= linkCount || (n == linkCount + 1 && pos + n == |input|)
        {
          RepeatsFits(input, pos, o, n);
        }
        return;
      }
      forall n: nat | IsLink(input, pos, offset, n) ensures n <= count {
        LongestAt(input, pos, offset, count, n);
      }
      RepeatsFits(input, pos, offset, count);
      if count > linkCount {
        linkCount := count;
        linkOffset := offset;
      }
      offset := offset + 1;
    }
    forall o: nat, n: nat | 0 < o < pos + 1 && IsLink(input, pos, o, n) ensures n <= linkCount {
      assert o < offset;
    }
  }

  lemma ShorterRepeats(input: seq<byte>, pos: nat, offset: nat, count: nat)
    requires count > 0 && Repeats(input, pos, offset, count)
    ensures Repeats(input, pos, offset, count - 1)
  {
  }

  lemma RepeatsFits(input: seq<byte>, pos: nat, offset: nat, count: nat)
    requires Repeats(input, pos, offset, count)
    ensures 1 <= offset <= pos && pos + count <= |input|
  {
  }

  /** Copying a repetition continues the input. */
  lemma {:induction false} ReplayRepeats(input: seq<byte>, pos: nat, offset: nat, count: nat)
    requires Repeats(input, pos, offset, count)
    ensures Replay(input[..pos], offset, count) == input[..pos + count]
    decreases count
  {
    if count > 0 {
      assert input[pos] == input[pos - offset];
      assert input[..pos] + [input[..pos][pos - offset]] == input[..pos + 1];
      assert Repeats(input, pos + 1, offset, count - 1);
      ReplayRepeats(input, pos + 1, offset, count - 1);
    }
  }

  // ---------- compression ----------

  /** file is a Yay0 file whose tokens produce the input. */
  ghost predicate Encodes(file: seq<byte>, input: seq<byte>, ts: seq<Token>, masks: seq<byte>) {
    AllEncodable(ts) && PlayAll(ts) == Some(input) && IsFile(file, |input|, masks, EmitAll(ts))
  }

  /** The tokens so far say the first pos bytes of the input. */
  ghost predicate Says(ts: seq<Token>, input: seq<byte>, pos: nat) {
    pos <= |input| && AllEncodable(ts) && PlayAll(ts) == Some(input[..pos])
  }

  /** No token costs more in links and chunks than the bytes it stands for. */
  ghost predicate Thrifty(ts: seq<Token>, pos: nat)
    requires AllEncodable(ts)
  {
    |ts| <= pos && |EmitAll(ts).links| + |EmitAll(ts).chunks| <= pos
  }

  lemma AddToken(ts: seq<Token>, input: seq<byte>, pos: nat, t: Token)
    requires Says(ts, input, pos) && Thrifty(ts, pos) && Encodable(t)
    requires t.Chunk? ==> pos < |input| && t.b == input[pos]
    requires t.Link? ==> Repeats(input, pos, t.offset, t.count)
    ensures var n := if t.Chunk? then 1 else t.count;
            Says(ts + [t], input, pos + n) && EmitAll(ts + [t]) == Emit(EmitAll(ts), t) && Thrifty(ts + [t], pos + n)
  {
    hide Repeats, Replay;
    var ts' := ts + [t];
    assert ts'[..|ts|] == ts;
    if t.Link? {
      RepeatsFits(input, pos, t.offset, t.count);
      ReplayRepeats(input, pos, t.offset, t.count);
    } else {
      assert input[..pos] + [input[pos]] == input[..pos + 1];
    }
  }

  /** yay0_compress. */
  method Compress(input: seq<byte>) returns (file: seq<byte>)
    ensures exists ts, masks :: Encodes(file, input, ts, masks)
    ensures |file| <= 16 + |input| + (|input| + 7) / 8
    ensures |input| < WRAP && |file| < WRAP ==> Decompressed(file) == Ok(input)
  {
    hide IsLink, NoneLonger, EmitAll, PlayAll, Decompressed, Packs, Header, Repeats;
    var pos := 0;
    var masks := new MaskWriter();
    var links: seq<byte> := [];
    var chunks: seq<byte> := [];
    ghost var ts: seq<Token> := [];
    NothingYet(input);
    while pos < |input|
      invariant fresh(masks) && masks.Valid()
      invariant Says(ts, input, pos) && Thrifty(ts, pos)
      invariant EmitAll(ts) == Streams(masks.bits, links, chunks)
      decreases |input| - pos
    {
      var linkCount, linkOffset := FindLink(input, pos);
      if linkCount >= 3 {
        LinkFits(input, pos, linkOffset, linkCount);
        AddToken(ts, input, pos, Link(linkOffset, linkCount));
        ts := ts + [Link(linkOffset, linkCount)];
        var header := 0;
        if linkCount >= 18 {
          chunks := chunks + [linkCount - 18];
        } else {
          header := linkCount - 2;
        }
        links := links + PutBe16(header * 0x1000 + (linkOffset - 1));
        masks.PushBack(false);
        pos := pos + linkCount;
      } else {
        AddToken(ts, input, pos, Chunk(input[pos]));
        ts := ts + [Chunk(input[pos])];
        chunks := chunks + [input[pos]];
        masks.PushBack(true);
        pos := pos + 1;
      }
    }
    assert input[..pos] == input;
    file := Header(|input|, |masks.data|, |links|) + masks.data + links + chunks;
    PacksLength(masks.data, masks.bits);
    assert Encodes(file, input, ts, masks.data);
    if |input| < WRAP && |file| < WRAP {
      RoundTrip(file, input, ts, masks.data);
    }
  }

  lemma NothingYet(input: seq<byte>)
    ensures Says([], input, 0) && EmitAll([]) == Streams([], [], []) && Thrifty([], 0)
  {
  }

  lemma LinkFits(input: seq<byte>, pos: nat, offset: nat, count: nat)
    requires IsLink(input, pos, offset, count)
    ensures Repeats(input, pos, offset, count) && 1 <= offset <= WINDOW && count <= MAX_LINK_LEN
  {
  }

  lemma PacksLength(data: seq<byte>, bits: seq<bool>)
    requires Packs(data, bits)
    ensures |data| == (|bits| + 7) / 8
  {
  }

  // ---------- decoding what was encoded ----------

  lemma {:induction false} EmitPrefix(ts: seq<Token>, k: nat)
    requires AllEncodable(ts) && k <= |ts|
    ensures EmitAll(ts[..k]).bits <= EmitAll(ts).bits
    ensures EmitAll(ts[..k]).links <= EmitAll(ts).links
    ensures EmitAll(ts[..k]).chunks <= EmitAll(ts).chunks
    decreases |ts|
  {
    if k < |ts| {
      var rest := ts[..|ts| - 1];
      assert rest[..k] == ts[..k];
      EmitPrefix(rest, k);
    } else {
      assert ts[..k] == ts;
    }
  }

  lemma {:induction false} PlayPrefix(ts: seq<Token>, k: nat)
    requires k <= |ts| && PlayAll(ts).Some?
    ensures PlayAll(ts[..k]).Some? && |PlayAll(ts[..k]).value| + (|ts| - k) <= |PlayAll(ts).value|
    decreases |ts|
  {
    if k < |ts| {
      var rest := ts[..|ts| - 1];
      assert rest[..k] == ts[..k];
      PlayPrefix(rest, k);
    } else {
      assert ts[..k] == ts;
    }
  }

  /** Where the decoder stands after k tokens. */
  ghost function CursorAt(masks: seq<byte>, ts: seq<Token>, k: nat): Cursor
    requires AllEncodable(ts) && k <= |ts| && PlayAll(ts[..k]).Some?
  {
    var before := EmitAll(ts[..k]);
    var linksStart := 16 + |masks|;
    Cursor(k, linksStart + |before.links|, linksStart + |EmitAll(ts).links| + |before.chunks|, PlayAll(ts[..k]).value)
  }

  lemma StepAt(file: seq<byte>, x: seq<byte>, ts: seq<Token>, masks: seq<byte>, k: nat)
    requires Encodes(file, x, ts, masks) && |file| < WRAP && k < |ts|
    requires PlayAll(ts[..k]).Some? && PlayAll(ts[..k + 1]).Some?
    ensures Next(file, CursorAt(masks, ts, k)) == Some(CursorAt(masks, ts, k + 1))
  {
    hide Packs, Header, MaskAt, Replay, EmitAll, PlayAll, IsFile, Be16, PutBe16, LinkWord;
    var t, all, before := ts[k], EmitAll(ts), EmitAll(ts[..k]);
    OneMore(ts, k);
    EmitPrefix(ts, k + 1);
    var after := Emit(before, t);
    FileParts(file, |x|, masks, all);
    MaskOfPacked(file, 16, masks, all.bits, k);
    assert all.bits[k] == after.bits[k];
    if t.Chunk? {
      assert all.chunks[|before.chunks|] == after.chunks[|before.chunks|];
    } else {
      LinkAt(all.links, before.links, t.offset, t.count);
      LinkWordParts(t.offset, t.count);
      if t.count >= 18 {
        assert all.chunks[|before.chunks|] == after.chunks[|before.chunks|];
      }
    }
  }

  lemma LinkAt(links: seq<byte>, before: seq<byte>, offset: nat, count: nat)
    requires 1 <= offset <= WINDOW && 3 <= count <= MAX_LINK_LEN
    requires before + PutBe16(LinkWord(offset, count)) <= links
    ensures |before| + 2 <= |links| && Be16(links[|before|], links[|before| + 1]) == LinkWord(offset, count)
  {
    hide PutBe16, Be16;
    LinkWordParts(offset, count);
    var w := LinkWord(offset, count);
    var upTo := before + PutBe16(w);
    Be16RoundTrip(w);
    assert links[|before|] == upTo[|before|] && links[|before| + 1] == upTo[|before| + 1];
  }

  /** The streams and the output after one token more. */
  lemma OneMore(ts: seq<Token>, k: nat)
    requires AllEncodable(ts) && k < |ts|
    requires PlayAll(ts[..k]).Some? && PlayAll(ts[..k + 1]).Some?
    ensures EmitAll(ts[..k + 1]) == Emit(EmitAll(ts[..k]), ts[k])
    ensures var out := PlayAll(ts[..k]).value;
            Playable(out, ts[k]) && PlayAll(ts[..k + 1]).value == Play(out, ts[k])
  {
    assert ts[..k + 1][..k] == ts[..k];
  }

  /** Where the streams lie in the file. */
  lemma FileParts(file: seq<byte>, size: nat, masks: seq<byte>, s: Streams)
    requires IsFile(file, size, masks, s)
    ensures |file| == 16 + |masks| + |s.links| + |s.chunks| && Packs(masks, s.bits) && file[16..16 + |masks|] == masks
    ensures forall i :: 0 <= i < |s.links| ==> file[16 + |masks| + i] == s.links[i]
    ensures forall i :: 0 <= i < |s.chunks| ==> file[16 + |masks| + |s.links| + i] == s.chunks[i]
  {
  }

  lemma LinkWordParts(offset: nat, count: nat)
    requires 1 <= offset <= WINDOW && 3 <= count <= MAX_LINK_LEN
    ensures var w := LinkWord(offset, count);
            w < 0x1_0000 && w / 0x1000 == (if count >= 18 then 0 else count - 2) && w % 0x1000 == offset - 1
  {
  }

  lemma {:induction false} DecodeFrom(file: seq<byte>, x: seq<byte>, ts: seq<Token>, masks: seq<byte>, k: nat)
    requires Encodes(file, x, ts, masks) && |file| < WRAP && k <= |ts|
    requires PlayAll(ts[..k]).Some?
    ensures Decode(file, |x|, CursorAt(masks, ts, k)) == Ok(x)
    decreases |ts| - k
  {
    hide Next, IsFile, EmitAll, PlayAll;
    PlayPrefix(ts, k);
    if k < |ts| {
      PlayPrefix(ts, k + 1);
      StepAt(file, x, ts, masks, k);
      DecodeFrom(file, x, ts, masks, k + 1);
    } else {
      assert ts[..k] == ts;
    }
  }

  /** Decompression undoes every encoding, greedy or not, of files that 32-bit offsets can address. */
  lemma RoundTrip(file: seq<byte>, x: seq<byte>, ts: seq<Token>, masks: seq<byte>)
    requires Encodes(file, x, ts, masks) && |x| < WRAP && |file| < WRAP
    ensures Decompressed(file) == Ok(x)
  {
    hide Packs, Decode, PutBe32, Be32;
    var s := EmitAll(ts);
    HeaderFields(file, |x|, masks, s);
    var l, c := 16 + |masks|, 16 + |masks| + |s.links|;
    WordAt(file, 4, |x|);
    WordAt(file, 8, l);
    WordAt(file, 12, c);
    assert ts[..0] == [];
    DecodeFrom(file, x, ts, masks, 0);
    assert FirstCursor(file) == CursorAt(masks, ts, 0);
  }

  lemma HeaderFields(file: seq<byte>, size: nat, masks: seq<byte>, s: Streams)
    requires IsFile(file, size, masks, s)
    ensures HeaderOk(file) && file[4..8] == PutBe32(size)
    ensures file[8..12] == PutBe32(16 + |masks|) && file[12..16] == PutBe32(16 + |masks| + |s.links|)
  {
    hide PutBe32, Packs;
  }

  lemma WordAt(file: seq<byte>, i: nat, v: nat)
    requires i + 4 <= |file| && file[i..i + 4] == PutBe32(v) && v < WRAP
    ensures Be32(file[i], file[i + 1], file[i + 2], file[i + 3]) == v
  {
    hide PutBe32, Be32;
    Be32RoundTrip(v);
    var p := PutBe32(v);
    assert file[i..i + 4][0] == p[0] && file[i..i + 4][1] == p[1] && file[i..i + 4][2] == p[2] && file[i..i + 4][3] == p[3];
  }

  // ---------- a file, byte by byte ----------

  /** A file of two literal bytes, a short link and a long one. */
  const EXAMPLE: seq<byte> := [
    0x59, 0x61, 0x79, 0x30, 0, 0, 0, 23, 0, 0, 0, 17, 0, 0, 0, 21,
    0xC0, 0x10, 0x01, 0x00, 0x02, 0x41, 0x42, 0x00
  ]

  /** What it says: "AB", three bytes from two back, and eighteen from three back. */
  const EXAMPLE_DATA: seq<byte> := [
    0x41, 0x42, 0x41, 0x42, 0x41, 0x41, 0x42, 0x41, 0x41, 0x42, 0x41, 0x41,
    0x42, 0x41, 0x41, 0x42, 0x41, 0x41, 0x42, 0x41, 0x41, 0x42, 0x41
  ]

  lemma ExampleMasks()
    ensures MaskAt(EXAMPLE, 16, 0) == Some(true) && MaskAt(EXAMPLE, 16, 1) == Some(true)
    ensures MaskAt(EXAMPLE, 16, 2) == Some(false) && MaskAt(EXAMPLE, 16, 3) == Some(false)
  {
  }

  lemma ExampleChunks()
    ensures Next(EXAMPLE, Cursor(0, 17, 21, [])) == Some(Cursor(1, 17, 22, [0x41]))
    ensures Next(EXAMPLE, Cursor(1, 17, 22, [0x41])) == Some(Cursor(2, 17, 23, [0x41, 0x42]))
  {
    hide Replay, MaskAt, Be16;
    ExampleMasks();
    assert [] + [EXAMPLE[21]] == [0x41] && [0x41] + [EXAMPLE[22]] == [0x41, 0x42];
  }

  lemma ExampleShortLink()
    ensures Next(EXAMPLE, Cursor(2, 17, 23, [0x41, 0x42])) == Some(Cursor(3, 19, 23, EXAMPLE_DATA[..5]))
  {
    hide Replay, MaskAt;
    ExampleMasks();
    ReplayRepeats(EXAMPLE_DATA, 2, 2, 3);
    assert EXAMPLE_DATA[..2] == [0x41, 0x42];
  }

  lemma ExampleLongLink()
    ensures Next(EXAMPLE, Cursor(3, 19, 23, EXAMPLE_DATA[..5])) == Some(Cursor(4, 21, 24, EXAMPLE_DATA))
  {
    hide Replay, MaskAt;
    ExampleMasks();
    ReplayRepeats(EXAMPLE_DATA, 5, 3, 18);
    assert EXAMPLE_DATA[..23] == EXAMPLE_DATA;
  }

  lemma ExampleDecompressed()
    ensures Decompressed(EXAMPLE) == Ok(EXAMPLE_DATA)
  {
    hide Next, Decode, Be32;
    ExampleHeader();
    ExampleChunks();
    ExampleShortLink();
    ExampleLongLink();
    OneStep(EXAMPLE, 23, Cursor(0, 17, 21, []), Cursor(1, 17, 22, [0x41]));
    OneStep(EXAMPLE, 23, Cursor(1, 17, 22, [0x41]), Cursor(2, 17, 23, [0x41, 0x42]));
    OneStep(EXAMPLE, 23, Cursor(2, 17, 23, [0x41, 0x42]), Cursor(3, 19, 23, EXAMPLE_DATA[..5]));
    OneStep(EXAMPLE, 23, Cursor(3, 19, 23, EXAMPLE_DATA[..5]), Cursor(4, 21, 24, EXAMPLE_DATA));
    AtEnd(EXAMPLE, 23, Cursor(4, 21, 24, EXAMPLE_DATA));
  }

  lemma ExampleHeader()
    ensures HeaderOk(EXAMPLE) && FirstCursor(EXAMPLE) == Cursor(0, 17, 21, [])
    ensures Be32(EXAMPLE[4], EXAMPLE[5], EXAMPLE[6], EXAMPLE[7]) == 23
  {
    hide Be32;
    SmallNumber(23);
    SmallNumber(17);
    SmallNumber(21);
    assert EXAMPLE[..4] == ['Y' as int, 'a' as int, 'y' as int, '0' as int];
  }

  lemma SmallNumber(b: byte)
    ensures Be32(0, 0, 0, b) == b
  {
  }

  lemma OneStep(input: seq<byte>, size: nat, d: Cursor, d': Cursor)
    requires |d.out| < size && Next(input, d) == Some(d')
    ensures Decode(input, size, d) == Decode(input, size, d')
  {
  }

  lemma AtEnd(input: seq<byte>, size: nat, d: Cursor)
    requires |d.out| >= size
    ensures Decode(input, size, d) == Ok(d.out)
  {
  }
}
