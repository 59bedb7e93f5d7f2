/**
 * Short one-line summaries of tool output, shared by both chat-log parsers.
 *
 * Lengths here are byte lengths of the UTF-8 encoding, as Rust's `str::len`
 * counts them. Both parsers cut long text with `&s[..120]`, which panics
 * when byte 120 falls inside a multi-byte character; `TruncateAsWritten`
 * and `SummarizeOutputAsWritten` model that slice, with `None` for the
 * panic, and `Truncate` and `SummarizeOutput` are the cut that was evidently
 * intended. The two agree wherever the slice does not panic.
 */
module Summary {
  import opened Wrappers
  import opened Utf8
  import opened Text

  /** Byte budget of a single-line summary before the ellipsis is added. */
  const SUMMARY_BYTES: nat := 120

  const ELLIPSIS: string := "..."

  /** Rust's `str::len`: the number of bytes of the UTF-8 encoding. */
  function ByteLen(s: string): nat {
    |Encode(s)|
  }

  lemma ByteLenCons(c: char, s: string)
    ensures ByteLen([c] + s) == |EncodeChar(c)| + ByteLen(s)
    ensures 1 <= |EncodeChar(c)| <= 4
  {
    assert ([c] + s)[1..] == s;
    CharShape(EncodeChar(c));
  }

  lemma ByteLenAppend(s: string, t: string)
    ensures ByteLen(s + t) == ByteLen(s) + ByteLen(t)
  {
    EncodeAppend(s, t);
  }

  /** Characters below U+0080 take one byte each. */
  predicate IsAscii(s: string) {
    forall i | 0 <= i < |s| :: s[i] < '\U{80}'
  }

  lemma {:induction false} AsciiByteLen(s: string)
    requires IsAscii(s)
    ensures ByteLen(s) == |s|
  {
    if |s| > 0 {
      assert s == [s[0]] + s[1..];
      ByteLenCons(s[0], s[1..]);
      AsciiByteLen(s[1..]);
    }
  }

  /** A longer prefix never takes fewer bytes, and takes at least one more per character. */
  lemma PrefixByteLen(s: string, j: nat, k: nat)
    requires j <= k <= |s|
    ensures ByteLen(s[..j]) + (k - j) <= ByteLen(s[..k])
  {
    assert s[..k] == s[..j] + s[j..k];
    ByteLenAppend(s[..j], s[j..k]);
    AtLeastOneBytePerChar(s[j..k]);
  }

  lemma {:induction false} AtLeastOneBytePerChar(s: string)
    ensures |s| <= ByteLen(s)
  {
    if |s| > 0 {
      assert s == [s[0]] + s[1..];
      ByteLenCons(s[0], s[1..]);
      AtLeastOneBytePerChar(s[1..]);
    }
  }

  /** The number of leading characters of `s` whose encoding fits in `max` bytes. */
  function FitChars(s: string, max: nat): (k: nat)
    ensures k <= |s|
    ensures ByteLen(s[..k]) <= max
    ensures k < |s| ==> ByteLen(s[..k + 1]) > max
  {
    if |s| == 0 then
      0
    else if |EncodeChar(s[0])| > max then
      FirstCharTooWide(s, max);
      0
    else
      var rest := FitChars(s[1..], max - |EncodeChar(s[0])|);
      FitAfterFirstChar(s, max, rest);
      1 + rest
  }

  lemma FirstCharTooWide(s: string, max: nat)
    requires |s| > 0 && |EncodeChar(s[0])| > max
    ensures ByteLen(s[..1]) > max
  {
    assert s[..1] == [s[0]] + [];
    ByteLenCons(s[0], []);
  }

  /** The prefix fitting after the first character, with that character in front, fits `max`. */
  lemma FitAfterFirstChar(s: string, max: nat, rest: nat)
    requires |s| > 0 && |EncodeChar(s[0])| <= max && rest <= |s| - 1
    requires ByteLen(s[1..][..rest]) <= max - |EncodeChar(s[0])|
    requires rest < |s| - 1 ==> ByteLen(s[1..][..rest + 1]) > max - |EncodeChar(s[0])|
    ensures ByteLen(s[..1 + rest]) <= max
    ensures 1 + rest < |s| ==> ByteLen(s[..rest + 2]) > max
  {
    assert s[..1 + rest] == [s[0]] + s[1..][..rest];
    ByteLenCons(s[0], s[1..][..rest]);
    if 1 + rest < |s| {
      assert s[..rest + 2] == [s[0]] + s[1..][..rest + 1];
      ByteLenCons(s[0], s[1..][..rest + 1]);
    }
  }

  /** Byte offset `b` of the encoding of `s` falls between two characters. */
  predicate IsCharBoundary(s: string, b: nat) {
    exists k | 0 <= k <= |s| :: ByteLen(s[..k]) == b
  }

  /** Within the text, `b` is a boundary exactly when the longest fitting prefix ends there. */
  lemma BoundaryAtFit(s: string, b: nat)
    ensures IsCharBoundary(s, b) <==> ByteLen(s[..FitChars(s, b)]) == b
  {
    var k := FitChars(s, b);
    if IsCharBoundary(s, b) {
      var j :| 0 <= j <= |s| && ByteLen(s[..j]) == b;
      if j < k {
        PrefixByteLen(s, j, k);
      } else if j > k {
        PrefixByteLen(s, k + 1, j);
      }
    }
  }

  /** The first `b` bytes of an encoding form valid UTF-8 exactly at a character boundary. */
  lemma {:induction false} ValidPrefixIsBoundary(s: string, b: nat)
    requires b <= ByteLen(s)
    ensures ValidUtf8(Encode(s)[..b]) <==> IsCharBoundary(s, b)
    decreases |s|
  {
    if b == 0 {
      assert ByteLen(s[..0]) == 0;
      assert Encode(s)[..0] == [];
    } else if b < |EncodeChar(s[0])| {
      CharSplitNotValid(s, b);
      NoBoundaryInsideFirstChar(s, b);
    } else {
      ValidPrefixIsBoundary(s[1..], b - |EncodeChar(s[0])|);
      ValidPrefixPastFirstChar(s, b);
    }
  }

  /** Past the first character, the question moves to the rest of the text. */
  lemma ValidPrefixPastFirstChar(s: string, b: nat)
    requires |s| > 0 && |EncodeChar(s[0])| <= b <= ByteLen(s)
    requires var w := |EncodeChar(s[0])|;
      ValidUtf8(Encode(s[1..])[..b - w]) <==> IsCharBoundary(s[1..], b - w)
    ensures ValidUtf8(Encode(s)[..b]) <==> IsCharBoundary(s, b)
  {
    ValidPrefixAfterFirst(s, b);
    BoundaryAfterFirst(s, b);
  }

  /** Past the first character, a prefix of the encoding is valid exactly when the rest of it is. */
  lemma ValidPrefixAfterFirst(s: string, b: nat)
    requires |s| > 0 && |EncodeChar(s[0])| <= b <= ByteLen(s)
    ensures ValidUtf8(Encode(s)[..b]) <==> ValidUtf8(Encode(s[1..])[..b - |EncodeChar(s[0])|])
  {
    var w := |EncodeChar(s[0])|;
    var q := Encode(s[1..])[..b - w];
    assert Encode(s) == EncodeChar(s[0]) + Encode(s[1..]);
    PrefixOfConcat(EncodeChar(s[0]), Encode(s[1..]), b);
    ValidAfterChar(s[0], q);
  }

  /** A prefix that reaches past `a` is `a` followed by a prefix of `t`. */
  lemma PrefixOfConcat(a: Bytes, t: Bytes, b: nat)
    requires |a| <= b <= |a| + |t|
    ensures (a + t)[..b] == a + t[..b - |a|]
  {
  }

  /** A character's encoding followed by bytes is valid exactly when those bytes are. */
  lemma ValidAfterChar(c: char, q: Bytes)
    ensures ValidUtf8(EncodeChar(c) + q) <==> ValidUtf8(q)
  {
    CharThenRest(c, q);
  }

  lemma NoBoundaryInsideFirstChar(s: string, b: nat)
    requires |s| > 0 && 0 < b < |EncodeChar(s[0])|
    ensures !IsCharBoundary(s, b)
  {
    assert s[..1] == [s[0]] + [];
    ByteLenCons(s[0], []);
    forall j | 1 <= j <= |s|
      ensures ByteLen(s[..j]) != b
    {
      PrefixByteLen(s, 1, j);
    }
  }

  /** Past the first character, the boundaries of a text are those of its rest, shifted. */
  lemma BoundaryAfterFirst(s: string, b: nat)
    requires |s| > 0 && |EncodeChar(s[0])| <= b
    ensures IsCharBoundary(s, b) <==> IsCharBoundary(s[1..], b - |EncodeChar(s[0])|)
  {
    var c, rest := s[0], s[1..];
    var w := |EncodeChar(c)|;
    if IsCharBoundary(rest, b - w) {
      var j :| 0 <= j <= |rest| && ByteLen(rest[..j]) == b - w;
      assert s[..j + 1] == [c] + rest[..j];
      ByteLenCons(c, rest[..j]);
    }
    if IsCharBoundary(s, b) {
      var j :| 0 <= j <= |s| && ByteLen(s[..j]) == b;
      ByteLenCons(c, []);
      assert s[..0] == [];
      assert j > 0;
      assert s[..j] == [c] + rest[..j - 1];
      ByteLenCons(c, rest[..j - 1]);
    }
  }

  /** Bytes that stop inside the first character of a text are never valid UTF-8. */
  lemma CharSplitNotValid(s: string, b: nat)
    requires |s| > 0 && 0 < b < |EncodeChar(s[0])|
    ensures !ValidUtf8(Encode(s)[..b])
  {
    var e := Encode(s);
    var w := |EncodeChar(s[0])|;
    assert e == EncodeChar(s[0]) + Encode(s[1..]);
    assert e[..w] == EncodeChar(s[0]);
    CharLenUnique(e, w);
    ValidPrefixCoversFirstChar(e, b);
  }

  /** `&s[..max]` panics: the text is longer than `max` bytes and byte `max` is inside a character. */
  predicate TruncatePanics(s: string, max: nat) {
    ByteLen(s) > max && !IsCharBoundary(s, max)
  }

  /**
   * `truncate(s, max)` of the Codex parser and the cut in the Claude parser's
   * result summary, as written: `&s[..max]` followed by "...", where the
   * slice of the byte string is `None` (a panic) unless it is valid UTF-8.
   */
  function TruncateAsWritten(s: string, max: nat): (r: Option<string>)
    ensures r.None? <==> TruncatePanics(s, max)
    ensures r.Some? && ByteLen(s) > max ==>
      ByteLen(r.value) == max + |ELLIPSIS| && Encode(r.value)[..max] == Encode(s)[..max]
  {
    if ByteLen(s) <= max then
      Some(s)
    else
      ValidPrefixIsBoundary(s, max);
      match ToStr(Encode(s)[..max])
      case None => None
      case Some(t) =>
        EncodeAppend(t, ELLIPSIS);
        AsciiByteLen(ELLIPSIS);
        Some(t + ELLIPSIS)
  }

  /**
   * The intended cut: text within `max` bytes is kept whole; longer text is
   * cut to its longest prefix that fits, followed by "...".
   */
  function Truncate(s: string, max: nat): (r: string)
    ensures ByteLen(r) <= max + |ELLIPSIS|
    ensures ByteLen(s) <= max ==> r == s
    ensures ByteLen(s) > max ==>
      && |r| >= |ELLIPSIS| && r[|r| - |ELLIPSIS|..] == ELLIPSIS
      && var kept := r[..|r| - |ELLIPSIS|];
         kept < s && ByteLen(kept) <= max && ByteLen(s[..|kept| + 1]) > max
  {
    if ByteLen(s) <= max then
      s
    else
      var k := FitChars(s, max);
      assert s[..|s|] == s;
      AsciiByteLen(ELLIPSIS);
      ByteLenAppend(s[..k], ELLIPSIS);
      var r := s[..k] + ELLIPSIS;
      assert r[..|r| - |ELLIPSIS|] == s[..k];
      r
  }

  /** Where the slice does not panic, the source's cut and the intended cut agree. */
  lemma TruncateAgrees(s: string, max: nat)
    requires TruncateAsWritten(s, max).Some?
    ensures TruncateAsWritten(s, max).value == Truncate(s, max)
  {
    if ByteLen(s) > max {
      var k := FitChars(s, max);
      ValidPrefixIsBoundary(s, max);
      BoundaryAtFit(s, max);
      assert s == s[..k] + s[k..];
      EncodeAppend(s[..k], s[k..]);
      assert Encode(s)[..max] == Encode(s[..k]);
      DecodeEncode(s[..k]);
      var t := ToStr(Encode(s)[..max]).value;
      DecodeEncode(t);
    }
  }

  /**
   * A text of `max - 1` one-byte characters followed by a two-byte character
   * is `max + 1` bytes long, and byte `max` falls inside its last character.
   */
  lemma TruncatePanicsInsideChar(a: string, c: char, max: nat)
    requires IsAscii(a) && |a| + 1 == max
    requires |EncodeChar(c)| == 2
    ensures TruncateAsWritten(a + [c], max).None?
  {
    var s := a + [c];
    AsciiByteLen(a);
    ByteLenAppend(a, [c]);
    ByteLenCons(c, []);
    assert s[..|s|] == s;
    if IsCharBoundary(s, max) {
      var j :| 0 <= j <= |s| && ByteLen(s[..j]) == max;
      if j <= |a| {
        assert s[..j] == a[..j];
        assert IsAscii(a[..j]);
        AsciiByteLen(a[..j]);
      }
    }
  }

  /** A concrete panic: 119 letters and an "é" make a 121-byte command. */
  lemma TruncatePanicExample()
    ensures TruncateAsWritten(seq(119, _ => 'a') + "é", SUMMARY_BYTES).None?
  {
    var a := seq(119, _ => 'a');
    assert EncodeChar('é') == [0xC3, 0xA9];
    TruncatePanicsInsideChar(a, 'é', SUMMARY_BYTES);
  }

  /**
   * `summarize_output` of the Codex parser, which is also the Claude parser's
   * result summary of present content: a multi-line text becomes
   * "<count> lines", any other text is cut to 120 bytes.
   */
  function SummarizeOutput(text: string): (r: string)
    ensures LineCount(text) > 1 ==>
      && |r| > |" lines"| && r[|r| - |" lines"|..] == " lines"
      && AllDigits(r[..|r| - |" lines"|])
      && DigitsValue(r[..|r| - |" lines"|]) == LineCount(text)
    ensures LineCount(text) > 1 ==> Decimal(r[..|r| - |" lines"|], LineCount(text))
    ensures LineCount(text) <= 1 ==> r == Truncate(text, SUMMARY_BYTES)
    ensures LineCount(text) <= 1 ==> ByteLen(r) <= SUMMARY_BYTES + |ELLIPSIS|
    ensures LineCount(text) <= 1 && ByteLen(text) <= SUMMARY_BYTES ==> r == text
  {
    var n := LineCount(text);
    if n > 1 then
      var digits := NatToString(n);
      NatToStringIsDecimal(n);
      var r := digits + " lines";
      assert r[..|r| - |" lines"|] == digits;
      r
    else
      Truncate(text, SUMMARY_BYTES)
  }

  /** `summarize_output` panics: a single-line text whose byte 120 is inside a character. */
  predicate SummaryPanics(text: string) {
    LineCount(text) <= 1 && TruncatePanics(text, SUMMARY_BYTES)
  }

  /**
   * `summarize_output` as written, `None` standing for the panic of its
   * slice; where it does not panic it is the intended summary.
   */
  function SummarizeOutputAsWritten(text: string): (r: Option<string>)
    ensures r.None? <==> SummaryPanics(text)
    ensures r.Some? ==> r.value == SummarizeOutput(text)
  {
    if LineCount(text) > 1 then
      Some(NatToString(LineCount(text)) + " lines")
    else
      match TruncateAsWritten(text, SUMMARY_BYTES)
      case None => None
      case Some(t) =>
        TruncateAgrees(text, SUMMARY_BYTES);
        Some(t)
  }

  /** A concrete panic of the output summary: one line of 119 letters and an "é". */
  lemma SummaryPanicExample()
    ensures SummaryPanics(seq(119, _ => 'a') + "é")
  {
    var t := seq(119, _ => 'a') + "é";
    assert '\n' !in t;
    LineCountFormula(t);
    TruncatePanicExample();
  }

  /** A text is summarised by its line count exactly when it has two newlines, or one with more text after it. */
  lemma MultiLineIffNewlines(text: string)
    ensures LineCount(text) > 1 <==>
      NewlineCount(text) >= 2 || (NewlineCount(text) == 1 && |text| > 0 && text[|text| - 1] != '\n')
  {
    LineCountFormula(text);
  }
}
