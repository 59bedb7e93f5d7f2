/**
 * `Utf8StreamDecoder`, which turns terminal output arriving in arbitrary
 * byte chunks into text, carrying the bytes of a character cut by a chunk
 * boundary over to the next chunk.
 *
 * `DecodeChunk` is `decode_chunk` as written. When the pending bytes and the
 * first four bytes of the next chunk still do not form a character, it
 * replaces the pending bytes with the new chunk's undecodable bytes and so
 * loses the first part of the character (`SplitCharacterLost`).
 * `DecodeChunkFixed` is the evidently intended decoder: it decodes the
 * pending bytes and the whole chunk together, and for a valid stream emits
 * exactly the decoding of everything received (`DecodeStream`).
 */
module StreamDecoder {
  import opened Wrappers
  import opened Utf8

  /** The decoder state: bytes of an incomplete character awaiting the next chunk. */
  datatype StreamDecoder = StreamDecoder(incomplete: Bytes)

  /** The result of decoding one chunk: text, the count of input bytes processed, the next state. */
  datatype Chunk = Chunk(text: string, processed: nat, next: StreamDecoder)

  /** `Utf8StreamDecoder::new`. */
  function New(): (d: StreamDecoder)
    ensures d.incomplete == []
  {
    StreamDecoder([])
  }

  /** How many new bytes are joined to pending ones. */
  const WINDOW: nat := 4

  function Min(a: nat, b: nat): nat {
    if a <= b then a else b
  }

  /** The longest valid prefix of `s`, as text. */
  function ValidPrefixText(s: Bytes): (r: string)
    ensures Encode(r) == s[..ValidUpTo(s)]
  {
    EncodeDecode(s[..ValidUpTo(s)]);
    Decode(s[..ValidUpTo(s)])
  }

  /** The pending bytes followed by at most the first four bytes of the chunk. */
  function Combined(incomplete: Bytes, input: Bytes): Bytes {
    incomplete + input[..Min(|input|, WINDOW)]
  }

  /** What the first phase of `decode_chunk` produces. */
  datatype Resume = Resume(text: string, consumed: nat, incomplete: Bytes)

  /**
   * The first phase: with pending bytes, validate them joined with up to four
   * new bytes; a non-empty valid prefix is emitted and clears the pending
   * bytes, and `consumed` counts the new bytes it took (`saturating_sub`).
   */
  function ResumePending(incomplete: Bytes, input: Bytes): (r: Resume)
    ensures r.consumed <= Min(|input|, WINDOW)
    ensures incomplete == [] ==> r == Resume([], 0, [])
    ensures incomplete != [] && ValidUpTo(Combined(incomplete, input)) == 0 ==> r == Resume([], 0, incomplete)
    ensures incomplete != [] && ValidUpTo(Combined(incomplete, input)) > 0 ==>
      && r.incomplete == []
      && Encode(r.text) == Combined(incomplete, input)[..ValidUpTo(Combined(incomplete, input))]
      && |incomplete| + r.consumed >= ValidUpTo(Combined(incomplete, input))
    ensures incomplete != [] && ValidUpTo(Combined(incomplete, input)) > |incomplete| ==>
      r.consumed == ValidUpTo(Combined(incomplete, input)) - |incomplete|
    ensures incomplete != [] && 0 < ValidUpTo(Combined(incomplete, input)) <= |incomplete| ==> r.consumed == 0
  {
    if incomplete == [] then
      Resume([], 0, [])
    else
      var combined := Combined(incomplete, input);
      var v := ValidUpTo(combined);
      if v > 0 then
        Resume(ValidPrefixText(combined), if v > |incomplete| then v - |incomplete| else 0, [])
      else
        Resume([], 0, incomplete)
  }

  /** `decode_chunk` as written. */
  function DecodeChunk(d: StreamDecoder, input: Bytes): (r: Chunk)
    ensures r.processed == |input|
    ensures d.incomplete == [] ==>
      && Encode(r.text) == input[..ValidUpTo(input)]
      && r.next.incomplete == input[ValidUpTo(input)..]
    ensures d.incomplete != [] && ValidUpTo(Combined(d.incomplete, input)) == 0 ==>
      && Encode(r.text) == input[..ValidUpTo(input)]
      && r.next.incomplete == if ValidUtf8(input) then d.incomplete else input[ValidUpTo(input)..]
    ensures WindowCompletes(d.incomplete, input) ==> CompletedChunk(d.incomplete, input, Encode(r.text), r.next.incomplete)
  {
    var first := ResumePending(d.incomplete, input);
    var remaining := input[first.consumed..];
    var v := ValidUpTo(remaining);
    ValidUpToWhole(remaining);
    assert input[0..] == input;
    var text := first.text + ValidPrefixText(remaining);
    EncodeAppend(first.text, ValidPrefixText(remaining));
    var next := if v == |remaining| then first.incomplete else input[first.consumed + v..];
    CompletedWindow(d.incomplete, input, first, remaining, v, Encode(text), next);
    Chunk(text, |input|, StreamDecoder(next))
  }

  /** The pending bytes and the start of the chunk form more than the pending bytes of valid text. */
  predicate WindowCompletes(incomplete: Bytes, input: Bytes) {
    incomplete != [] && ValidUpTo(Combined(incomplete, input)) > |incomplete|
  }

  /**
   * What `decode_chunk` yields when the window completes the pending
   * character: the window's valid prefix, then the valid prefix of the
   * chunk after the `k` bytes the window used; what follows stays pending.
   */
  predicate CompletedChunk(incomplete: Bytes, input: Bytes, text: Bytes, next: Bytes) {
    var v := ValidUpTo(Combined(incomplete, input));
    var k := v - |incomplete|;
    && 0 <= k <= |input|
    && text == Combined(incomplete, input)[..v] + input[k..][..ValidUpTo(input[k..])]
    && next == input[k + ValidUpTo(input[k..])..]
  }

  /** The pieces of `decode_chunk`, in bytes, when the window completes the pending character. */
  lemma CompletedWindow(incomplete: Bytes, input: Bytes, first: Resume, remaining: Bytes, v: nat, text: Bytes, next: Bytes)
    requires first == ResumePending(incomplete, input)
    requires first.consumed <= |input| && remaining == input[first.consumed..]
    requires v == ValidUpTo(remaining)
    requires text == Encode(first.text) + remaining[..v]
    requires next == if v == |remaining| then first.incomplete else input[first.consumed + v..]
    ensures WindowCompletes(incomplete, input) ==> CompletedChunk(incomplete, input, text, next)
  {
    if WindowCompletes(incomplete, input) {
      var w := ValidUpTo(Combined(incomplete, input));
      var k := w - |incomplete|;
      assert first.consumed == k && first.incomplete == [];
      assert Encode(first.text) == Combined(incomplete, input)[..w];
      if v == |remaining| {
        assert input[k + v..] == [];
      }
    }
  }

  /**
   * The evidently intended decoder: the longest valid prefix of the pending
   * bytes and the whole chunk is emitted, and what follows it is kept only
   * when it is the start of a character.
   */
  function DecodeChunkFixed(d: StreamDecoder, input: Bytes): (r: Chunk)
    ensures r.processed == |input|
    ensures Encode(r.text) == (d.incomplete + input)[..ValidUpTo(d.incomplete + input)]
    ensures r.next.incomplete == [] || IsPartialChar(r.next.incomplete)
    ensures var rest := (d.incomplete + input)[ValidUpTo(d.incomplete + input)..];
      |rest| == 0 || IsPartialChar(rest) ==> Encode(r.text) + r.next.incomplete == d.incomplete + input
  {
    var buf := d.incomplete + input;
    var v := ValidUpTo(buf);
    var rest := buf[v..];
    assert buf == buf[..v] + rest;
    Chunk(ValidPrefixText(buf), |input|, StreamDecoder(if IsPartialChar(rest) then rest else []))
  }

  /** With nothing pending, the written and the intended decoder agree on any piece of a valid stream. */
  lemma AgreeWhenNothingPending(d: StreamDecoder, input: Bytes, more: Bytes)
    requires d.incomplete == []
    requires ValidUtf8(input + more)
    ensures DecodeChunk(d, input) == DecodeChunkFixed(d, input)
  {
    assert d.incomplete + input == input;
    PrefixOfValidEndsPartial(input, more);
    var a, b := DecodeChunk(d, input), DecodeChunkFixed(d, input);
    DecodeEncode(a.text);
    DecodeEncode(b.text);
  }

  /** A valid prefix of the window that is not empty reaches past the pending partial character. */
  lemma WindowCoversPending(p: Bytes, input: Bytes)
    requires IsPartialChar(p)
    requires ValidUpTo(Combined(p, input)) > 0
    ensures ValidUpTo(Combined(p, input)) > |p|
  {
    var c := Combined(p, input);
    var v := ValidUpTo(c);
    var k0 := CharLen(c[..v]);
    assert c[..v][..k0] == c[..k0];
  }

  /**
   * When the first four bytes of the chunk complete the pending character,
   * the written and the intended decoder agree.
   */
  lemma AgreeWhenWindowCompletes(d: StreamDecoder, input: Bytes, more: Bytes)
    requires IsPartialChar(d.incomplete)
    requires ValidUtf8(d.incomplete + input + more)
    requires ValidUpTo(Combined(d.incomplete, input)) > 0
    ensures DecodeChunk(d, input) == DecodeChunkFixed(d, input)
  {
    var p := d.incomplete;
    var buf := p + input;
    var v := ValidUpTo(Combined(p, input));
    WindowCoversPending(p, input);
    var k := v - |p|;
    var v2 := ValidUpTo(input[k..]);
    SplitAtWindow(p, input, v);
    ValidUpToSplit(buf, v);
    assert buf + more == p + input + more;
    PrefixOfValidEndsPartial(buf, more);
    AgreeTexts(d, input, v, k, v2);
    AgreePending(d, input, v, k, v2);
  }

  lemma AgreePending(d: StreamDecoder, input: Bytes, v: nat, k: nat, v2: nat)
    requires d.incomplete != []
    requires v == ValidUpTo(Combined(d.incomplete, input)) && v > |d.incomplete|
    requires k == v - |d.incomplete| && k <= |input| && v2 == ValidUpTo(input[k..])
    requires (d.incomplete + input)[v..] == input[k..]
    requires ValidUpTo(d.incomplete + input) == v + v2
    requires var buf := d.incomplete + input; var rest := buf[ValidUpTo(buf)..]; |rest| == 0 || IsPartialChar(rest)
    ensures DecodeChunk(d, input).next == DecodeChunkFixed(d, input).next
  {
    var a, b := DecodeChunk(d, input).next.incomplete, DecodeChunkFixed(d, input).next.incomplete;
    PendingWritten(d, input, v, k);
    PendingFixed(d, input);
    SameTail(a, b, d.incomplete + input, input, v, k, v2, ValidUpTo(d.incomplete + input));
  }

  lemma SameTail(a: Bytes, b: Bytes, buf: Bytes, input: Bytes, v: nat, k: nat, v2: nat, n: nat)
    requires v <= |buf| && k <= |input| && buf[v..] == input[k..] && v2 <= |input| - k
    requires n == v + v2 && a == input[k + v2..] && b == buf[n..]
    ensures a == b
  {
    DropMore(buf, input, v, k, v2);
  }

  /** After a completed window, the written decoder keeps what follows the valid prefix of the rest. */
  lemma PendingWritten(d: StreamDecoder, input: Bytes, v: nat, k: nat)
    requires d.incomplete != []
    requires v == ValidUpTo(Combined(d.incomplete, input)) && v > |d.incomplete|
    requires k == v - |d.incomplete| && k <= |input|
    ensures DecodeChunk(d, input).next.incomplete == input[k + ValidUpTo(input[k..])..]
  {
    assert ResumePending(d.incomplete, input).consumed == k;
    ValidUpToWhole(input[k..]);
  }

  /** When what follows the valid prefix is empty or partial, the intended decoder keeps it. */
  lemma PendingFixed(d: StreamDecoder, input: Bytes)
    requires var buf := d.incomplete + input; var rest := buf[ValidUpTo(buf)..]; |rest| == 0 || IsPartialChar(rest)
    ensures var buf := d.incomplete + input; DecodeChunkFixed(d, input).next.incomplete == buf[ValidUpTo(buf)..]
  {
  }

  /** The pending bytes and the chunk split at a point inside the window. */
  lemma SplitAtWindow(p: Bytes, input: Bytes, v: nat)
    requires |p| <= v <= |Combined(p, input)|
    ensures (p + input)[..v] == Combined(p, input)[..v]
    ensures (p + input)[v..] == input[v - |p|..]
  {
  }

  /** Where `s` and `t` agree up to `i` and `s` continues as `u`, the first `i + j` bytes of `s` are known. */
  lemma PrefixSplit(s: Bytes, t: Bytes, u: Bytes, i: nat, j: nat)
    requires i <= |t| && i + j <= |s| && j <= |u|
    requires s[..i] == t[..i] && s[i..] == u
    ensures s[..i + j] == t[..i] + u[..j]
  {
    assert s[..i + j] == s[..i] + s[i..][..j];
  }

  /** Where `s` continues as `t[k..]` from `i`, dropping `j` more bytes of each keeps them equal. */
  lemma DropMore(s: Bytes, t: Bytes, i: nat, k: nat, j: nat)
    requires i <= |s| && k <= |t| && s[i..] == t[k..] && j <= |t| - k
    ensures s[i + j..] == t[k + j..]
  {
    assert s[i + j..] == s[i..][j..];
    assert t[k + j..] == t[k..][j..];
  }

  /** Two texts with the same encoding are equal. */
  lemma EncodeInjective(a: string, b: string)
    requires Encode(a) == Encode(b)
    ensures a == b
  {
    DecodeEncode(a);
    DecodeEncode(b);
  }

  /** The written decoder's text, when the window's valid prefix is not empty, in bytes. */
  lemma ResumedText(d: StreamDecoder, input: Bytes, v: nat, k: nat)
    requires d.incomplete != []
    requires v == ValidUpTo(Combined(d.incomplete, input)) && v > |d.incomplete|
    requires k == v - |d.incomplete| && k <= |input|
    ensures Encode(DecodeChunk(d, input).text) == Combined(d.incomplete, input)[..v] + input[k..][..ValidUpTo(input[k..])]
  {
    var first := ResumePending(d.incomplete, input);
    assert first.consumed == k;
    EncodeAppend(first.text, ValidPrefixText(input[k..]));
  }

  lemma AgreeTexts(d: StreamDecoder, input: Bytes, v: nat, k: nat, v2: nat)
    requires d.incomplete != []
    requires v == ValidUpTo(Combined(d.incomplete, input)) && v > |d.incomplete|
    requires k == v - |d.incomplete| && k <= |input| && v2 == ValidUpTo(input[k..])
    requires (d.incomplete + input)[..v] == Combined(d.incomplete, input)[..v]
    requires (d.incomplete + input)[v..] == input[k..]
    requires ValidUpTo(d.incomplete + input) == v + v2
    ensures DecodeChunk(d, input).text == DecodeChunkFixed(d, input).text
  {
    var buf := d.incomplete + input;
    var ta, tb := DecodeChunk(d, input).text, DecodeChunkFixed(d, input).text;
    ResumedText(d, input, v, k);
    SameBytesSameText(ta, tb, buf, Combined(d.incomplete, input), input[k..], v, v2, ValidUpTo(buf));
  }

  /** Byte-level core of `AgreeTexts`. */
  lemma SameBytesSameText(ta: string, tb: string, buf: Bytes, c: Bytes, u: Bytes, v: nat, v2: nat, n: nat)
    requires v <= |c| && v2 <= |u| && n == v + v2 <= |buf|
    requires buf[..v] == c[..v] && buf[v..] == u
    requires Encode(ta) == c[..v] + u[..v2]
    requires Encode(tb) == buf[..n]
    ensures ta == tb
  {
    PrefixSplit(buf, c, u, v, v2);
    EncodeInjective(ta, tb);
  }

  /**
   * The euro sign E2 82 AC arriving one byte per chunk is lost by the
   * written decoder: no chunk produces text, and what stays pending is only
   * the last byte.
   */
  lemma SplitCharacterLost()
    ensures var s1 := DecodeChunk(New(), [0xE2]);
      var s2 := DecodeChunk(s1.next, [0x82]);
      var s3 := DecodeChunk(s2.next, [0xAC]);
      && s1.text == [] && s2.text == [] && s3.text == []
      && s3.next.incomplete == [0xAC]
  {
    var s1 := DecodeChunk(New(), [0xE2]);
    assert CharLen([0xE2]) == 0;
    assert ValidUpTo([0xE2]) == 0;
    assert s1.next.incomplete == [0xE2];
    assert Combined([0xE2], [0x82]) == [0xE2, 0x82];
    assert CharLen([0xE2, 0x82]) == 0;
    var s2 := DecodeChunk(s1.next, [0x82]);
    assert CharLen([0x82]) == 0;
    assert s2.next.incomplete == [0x82];
    assert Combined([0x82], [0xAC]) == [0x82, 0xAC];
    assert CharLen([0x82, 0xAC]) == 0;
    assert CharLen([0xAC]) == 0;
    var s3 := DecodeChunk(s2.next, [0xAC]);
    assert Encode(s1.text) == [] && Encode(s2.text) == [] && Encode(s3.text) == [];
  }

  /** The same bytes, decoded as intended, produce the euro sign. */
  lemma SplitCharacterKept()
    ensures var s1 := DecodeChunkFixed(New(), [0xE2]);
      var s2 := DecodeChunkFixed(s1.next, [0x82]);
      var s3 := DecodeChunkFixed(s2.next, [0xAC]);
      s1.text + s2.text + s3.text == "€" && s3.next.incomplete == []
  {
    KeptFirst();
    KeptSecond();
    KeptThird();
  }

  lemma KeptFirst()
    ensures DecodeChunkFixed(New(), [0xE2]) == Chunk([], 1, StreamDecoder([0xE2]))
  {
    var r := DecodeChunkFixed(New(), [0xE2]);
    assert [] + [0xE2] == [0xE2];
    assert CharLen([0xE2]) == 0;
    EncodeInjective(r.text, []);
  }

  lemma KeptSecond()
    ensures DecodeChunkFixed(StreamDecoder([0xE2]), [0x82]) == Chunk([], 1, StreamDecoder([0xE2, 0x82]))
  {
    var r := DecodeChunkFixed(StreamDecoder([0xE2]), [0x82]);
    assert [0xE2] + [0x82] == [0xE2, 0x82];
    assert CharLen([0xE2, 0x82]) == 0;
    EncodeInjective(r.text, []);
  }

  lemma KeptThird()
    ensures DecodeChunkFixed(StreamDecoder([0xE2, 0x82]), [0xAC]) == Chunk("€", 1, StreamDecoder([]))
  {
    var r := DecodeChunkFixed(StreamDecoder([0xE2, 0x82]), [0xAC]);
    var euro: Bytes := [0xE2, 0x82, 0xAC];
    assert [0xE2, 0x82] + [0xAC] == euro;
    EuroBytes();
    assert euro[..3] == euro && euro[3..] == [];
    EncodeInjective(r.text, "€");
  }

  /** The three bytes of "€" form one whole character. */
  lemma EuroBytes()
    ensures ValidUpTo([0xE2, 0x82, 0xAC]) == 3
    ensures Encode("€") == [0xE2, 0x82, 0xAC]
  {
    var euro: Bytes := [0xE2, 0x82, 0xAC];
    assert CharLen(euro) == 3;
    assert ValidUpTo(euro[3..]) == 0;
    assert EncodeChar('€') == euro;
  }

  /** All chunks of a stream, joined. */
  function Concat(chunks: seq<Bytes>): Bytes {
    if |chunks| == 0 then [] else chunks[0] + Concat(chunks[1..])
  }

  /** The chunks from `i` on are chunk `i` followed by those from `i + 1` on. */
  lemma ConcatFrom(chunks: seq<Bytes>, i: nat)
    requires i < |chunks|
    ensures Concat(chunks[i..]) == chunks[i] + Concat(chunks[i + 1..])
  {
    assert chunks[i..][1..] == chunks[i + 1..];
  }

  /**
   * Feeds a whole stream through the intended decoder. For valid UTF-8 the
   * text emitted is exactly the decoding of all bytes received, and nothing
   * is left pending.
   */
  method DecodeStream(chunks: seq<Bytes>) returns (text: string, d: StreamDecoder)
    requires ValidUtf8(Concat(chunks))
    ensures text == Decode(Concat(chunks))
    ensures d.incomplete == []
  {
    text, d := [], New();
    var i := 0;
    assert chunks[0..] == chunks;
    while i < |chunks|
      invariant 0 <= i <= |chunks|
      invariant Encode(text) + d.incomplete + Concat(chunks[i..]) == Concat(chunks)
      invariant ValidUtf8(d.incomplete + Concat(chunks[i..]))
      invariant d.incomplete == [] || IsPartialChar(d.incomplete)
    {
      ConcatFrom(chunks, i);
      StreamStep(text, d, chunks[i], Concat(chunks[i + 1..]), Concat(chunks[i..]), Concat(chunks));
      var step := DecodeChunkFixed(d, chunks[i]);
      text, d := text + step.text, step.next;
      i := i + 1;
    }
    assert chunks[i..] == [];
    assert Encode(text) + d.incomplete + [] == Encode(text) + d.incomplete;
    EncodeIsValid(text);
    ValidSuffix(Encode(text), d.incomplete);
    if d.incomplete != [] {
      PartialNotValid(d.incomplete);
    }
    assert Encode(text) + d.incomplete == Encode(text);
    DecodeEncode(text);
  }

  /** One step of `DecodeStream` keeps its invariant. */
  lemma StreamStep(text: string, d: StreamDecoder, chunk: Bytes, more: Bytes, rest: Bytes, all: Bytes)
    requires rest == chunk + more
    requires Encode(text) + d.incomplete + rest == all
    requires ValidUtf8(d.incomplete + rest)
    ensures var step := DecodeChunkFixed(d, chunk);
      && Encode(text + step.text) + step.next.incomplete + more == all
      && ValidUtf8(step.next.incomplete + more)
  {
    var buf := d.incomplete + chunk;
    assert buf + more == d.incomplete + rest;
    PrefixOfValidEndsPartial(buf, more);
    var step := DecodeChunkFixed(d, chunk);
    EncodeAppend(text, step.text);
    Regroup(Encode(text), Encode(step.text), step.next.incomplete, d.incomplete, chunk, more, all);
    ValidSuffixOfStream(buf, more, step);
  }

  lemma Reassociate(a: Bytes, b: Bytes, c: Bytes, ab: Bytes)
    requires a + b == ab
    ensures ab + c == a + (b + c)
  {
  }

  lemma Regroup(done: Bytes, emitted: Bytes, next: Bytes, p: Bytes, chunk: Bytes, more: Bytes, all: Bytes)
    requires emitted + next == p + chunk
    requires done + p + (chunk + more) == all
    ensures done + emitted + next + more == all
  {
    assert done + emitted + next + more == done + (emitted + next) + more;
  }

  /** What an intended step leaves pending, followed by the rest of a valid stream, is valid. */
  lemma ValidSuffixOfStream(buf: Bytes, more: Bytes, step: Chunk)
    requires ValidUtf8(buf + more)
    requires Encode(step.text) + step.next.incomplete == buf
    ensures ValidUtf8(step.next.incomplete + more)
  {
    EncodeIsValid(step.text);
    Reassociate(Encode(step.text), step.next.incomplete, more, buf);
    ValidSuffix(Encode(step.text), step.next.incomplete + more);
  }
}
