/** The Yay0 codec: an LZ77 compressor and decompressor over three interleaved streams. */
module Yay0 {
  import opened Bytes
  import opened MaskBits
  import opened Options

  const MAX_LINK_LEN: nat := 255 + 18
  const WINDOW: nat := 0x1000

  datatype Outcome = Ok(data: seq<byte>) | Invalid

  // ---------- what a compressed file says ----------

  /** One decoding step: a literal byte, or a copy of count bytes from offset bytes back. */
  datatype Token = Chunk(b: byte) | Link(offset: nat, count: nat)

  ghost predicate Encodable(t: Token) {
    t.Link? ==> 1 <= t.offset <= WINDOW && 3 <= t.count <= MAX_LINK_LEN
  }

  /** Copies byte by byte, so that a copy may overlap what it produces. */
  function Replay(out: seq<byte>, offset: nat, count: nat): (r: seq<byte>)
    requires 1 <= offset <= |out|
    ensures |r| == |out| + count && out <= r
    decreases count
  {
    if count == 0 then out else Replay(out + [out[|out| - offset]], offset, count - 1)
  }

  ghost predicate Playable(out: seq<byte>, t: Token) {
    Encodable(t) && (t.Link? ==> t.offset <= |out|)
  }

  /** The output after a token. */
  ghost function Play(out: seq<byte>, t: Token): seq<byte>
    requires Playable(out, t)
  {
    match t
    case Chunk(b) => out + [b]
    case Link(offset, count) => Replay(out, offset, count)
  }

  /** What the tokens produce from the start, if each of them can be played. */
  ghost function PlayAll(ts: seq<Token>): Option<seq<byte>> {
    if ts == [] then Some([])
    else
      var n := |ts| - 1;
      match PlayAll(ts[..n])
      case None => None
      case Some(out) => if Playable(out, ts[n]) then Some(Play(out, ts[n])) else None
  }

  // ---------- the three streams ----------

  datatype Streams = Streams(bits: seq<bool>, links: seq<byte>, chunks: seq<byte>)

  /** The 16 bits of a link: a count below 18 minus 2, or 0, and the offset minus 1. */
  function LinkWord(offset: nat, count: nat): nat
    requires 1 <= offset <= WINDOW && 3 <= count
  {
    (if count >= 18 then 0 else count - 2) * 0x1000 + (offset - 1)
  }

  ghost function Emit(s: Streams, t: Token): Streams
    requires Encodable(t)
  {
    match t
    case Chunk(b) => Streams(s.bits + [true], s.links, s.chunks + [b])
    case Link(offset, count) =>
      Streams(s.bits + [false], s.links + PutBe16(LinkWord(offset, count)), if count >= 18 then s.chunks + [count - 18] else s.chunks)
  }

  /** The links that can be expressed are just those that 16 bits, and a byte if the count in them is 0, stand for. */
  lemma LinkRange(offset: nat, count: nat)
    ensures Encodable(Link(offset, count)) <==> exists word, extra: nat :: StandsFor(word, extra, offset, count)
  {
    if Encodable(Link(offset, count)) {
      var extra: nat := if count >= 18 then count - 18 else 0;
      assert StandsFor(LinkWord(offset, count), extra, offset, count);
    }
  }

  ghost predicate StandsFor(word: nat, extra: nat, offset: nat, count: nat) {
    && word < 0x1_0000 && extra < 0x100
    && offset == word % 0x1000 + 1
    && count == if word / 0x1000 == 0 then extra + 18 else word / 0x1000 + 2
  }

  ghost predicate AllEncodable(ts: seq<Token>) {
    forall i :: 0 <= i < |ts| ==> Encodable(ts[i])
  }

  ghost function EmitAll(ts: seq<Token>): (r: Streams)
    requires AllEncodable(ts)
    ensures |r.bits| == |ts|
  {
    if ts == [] then Streams([], [], []) else Emit(EmitAll(ts[..|ts| - 1]), ts[|ts| - 1])
  }

  /** The file: header, masks, links, chunks. */
  ghost predicate IsFile(file: seq<byte>, size: nat, masks: seq<byte>, s: Streams) {
    && Packs(masks, s.bits)
    && file == Header(size, |masks|, |s.links|) + masks + s.links + s.chunks
  }

  function Header(size: nat, masks: nat, links: nat): (r: seq<byte>)
    ensures |r| == 16
  {
    ['Y' as int, 'a' as int, 'y' as int, '0' as int] + PutBe32(size) + PutBe32(16 + masks) + PutBe32(16 + masks + links)
  }

  // ---------- decompression ----------

  predicate HeaderOk(input: seq<byte>) {
    |input| >= 16 && input[..4] == ['Y' as int, 'a' as int, 'y' as int, '0' as int]
  }

  /** The offsets are 32 bits wide. */
  const WRAP: nat := 0x1_0000_0000

  /** The decoder between two steps: mask bits taken, where links and chunks go on, output so far. */
  datatype Cursor = Cursor(taken: nat, links: nat, chunks: nat, out: seq<byte>)

  /** One decoding step, or none when a read or a copy would leave its bounds. */
  function Next(input: seq<byte>, d: Cursor): (r: Option<Cursor>)
    ensures r.Some? ==> |d.out| < |r.value.out|
  {
    match MaskAt(input, 16, d.taken)
    case None => None
    case Some(true) =>
      if d.chunks >= |input| then None
      else Some(Cursor(d.taken + 1, d.links, (d.chunks + 1) % WRAP, d.out + [input[d.chunks]]))
    case Some(false) =>
      if d.links + 1 >= |input| then None
      else
        var link := Be16(input[d.links], input[d.links + 1]);
        var links := (d.links + 2) % WRAP;
        var offset := link % 0x1000 + 1;
        if link / 0x1000 == 0 then
          if d.chunks >= |input| || offset > |d.out| then None
          else
            var extra: int := input[d.chunks];
            Some(Cursor(d.taken + 1, links, (d.chunks + 1) % WRAP, Replay(d.out, offset, extra + 18)))
        else if offset > |d.out| then None
        else Some(Cursor(d.taken + 1, links, d.chunks, Replay(d.out, offset, link / 0x1000 + 2)))
  }

  /** Steps until size bytes are there. */
  function Decode(input: seq<byte>, size: nat, d: Cursor): Outcome
    decreases if |d.out| < size then size - |d.out| else 0
  {
    if |d.out| >= size then Ok(d.out)
    else match Next(input, d) case None => Invalid case Some(d') => Decode(input, size, d')
  }

  function FirstCursor(input: seq<byte>): Cursor
    requires |input| >= 16
  {
    Cursor(0, Be32(input[8], input[9], input[10], input[11]), Be32(input[12], input[13], input[14], input[15]), [])
  }

  /** What yay0_decompress answers on any input. */
  function Decompressed(input: seq<byte>): Outcome {
    if !HeaderOk(input) then Invalid
    else Decode(input, Be32(input[4], input[5], input[6], input[7]), FirstCursor(input))
  }

  /** yay0_decompress. */
  method Decompress(input: seq<byte>) returns (r: Outcome)
    ensures r == Decompressed(input)
  {
    hide Replay, MaskAt, Be16;
    if !HeaderOk(input) { return Invalid; }
    var finalSize := Be32(input[4], input[5], input[6], input[7]);
    var linksOffset: nat := Be32(input[8], input[9], input[10], input[11]);
    var chunksOffset: nat := Be32(input[12], input[13], input[14], input[15]);
    var masks := new MaskReader(input, 16);
    var result: seq<byte> := [];
    while |result| < finalSize
      invariant fresh(masks) && masks.Valid() && masks.input == input && masks.start == 16
      invariant Decode(input, finalSize, Cursor(masks.Taken(), linksOffset, chunksOffset, result)) == Decompressed(input)
      decreases if |result| < finalSize then finalSize - |result| else 0
    {
      ghost var d := Cursor(masks.Taken(), linksOffset, chunksOffset, result);
      var bit := masks.PopFront();
      if bit == None { return Invalid; }
      if bit.value {
        if chunksOffset >= |input| { return Invalid; }
        result := result + [input[chunksOffset]];
        chunksOffset := (chunksOffset + 1) % WRAP;
        assert Next(input, d) == Some(Cursor(d.taken + 1, linksOffset, chunksOffset, result));
      } else {
        if linksOffset + 1 >= |input| { return Invalid; }
        var link := Be16(input[linksOffset], input[linksOffset + 1]);
        linksOffset := (linksOffset + 2) % WRAP;
        var count := link / 0x1000 + 2;
        if count == 2 {
          if chunksOffset >= |input| { return Invalid; }
          var extra: int := input[chunksOffset];
          count := extra + 18;
          chunksOffset := (chunksOffset + 1) % WRAP;
        }
        var offset := link % 0x1000 + 1;
        if offset > |result| { return Invalid; }
        result := ReplayLink(result, offset, count);
        assert Next(input, d) == Some(Cursor(d.taken + 1, linksOffset, chunksOffset, result));
      }
    }
    return Ok(result);
  }

  /** The copying loop of yay0_decompress. */
  method ReplayLink(before: seq<byte>, offset: nat, count: nat) returns (result: seq<byte>)
    requires 1 <= offset <= |before|
    ensures result == Replay(before, offset, count)
  {
    result := before;
    var i := 0;
    while i < count
      invariant 0 <= i <= count && offset <= |result|
      invariant Replay(result, offset, count - i) == Replay(before, offset, count)
    {
      result := result + [result[|result| - offset]];
      i := i + 1;
    }
  }
}
