/**
 * UTF-8 as defined by the UTF8-octets grammar in section 4 of RFC 3629.
 *
 * Rust's `str` is exactly a byte sequence accepted by this grammar; the model
 * moves between raw bytes (`Bytes`) and decoded text (`string`, a sequence of
 * Unicode scalar values) with `Encode` and `Decode`, which are proved inverse.
 */
module Utf8 {
  import opened Wrappers

  type byte = b: int | 0 <= b < 0x100
  type Bytes = seq<byte>

  /** UTF8-tail = %x80-BF */
  predicate IsTail(b: byte) {
    0x80 <= b <= 0xBF
  }

  /** `c` is exactly one UTF8-char (UTF8-1 / UTF8-2 / UTF8-3 / UTF8-4). */
  predicate IsChar(c: Bytes) {
    if |c| == 1 then
      c[0] <= 0x7F
    else if |c| == 2 then
      0xC2 <= c[0] <= 0xDF && IsTail(c[1])
    else if |c| == 3 then
      && ((c[0] == 0xE0 && 0xA0 <= c[1] <= 0xBF)
          || (0xE1 <= c[0] <= 0xEC && IsTail(c[1]))
          || (c[0] == 0xED && 0x80 <= c[1] <= 0x9F)
          || (0xEE <= c[0] <= 0xEF && IsTail(c[1])))
      && IsTail(c[2])
    else if |c| == 4 then
      && ((c[0] == 0xF0 && 0x90 <= c[1] <= 0xBF)
          || (0xF1 <= c[0] <= 0xF3 && IsTail(c[1]))
          || (c[0] == 0xF4 && 0x80 <= c[1] <= 0x8F))
      && IsTail(c[2]) && IsTail(c[3])
    else
      false
  }

  /**
   * `p` is a proper, non-empty prefix of some UTF8-char: the bytes of a
   * character whose remaining bytes have not arrived yet.
   */
  predicate IsPartialChar(p: Bytes) {
    if |p| == 1 then
      0xC2 <= p[0] <= 0xF4
    else if |p| == 2 then
      || (p[0] == 0xE0 && 0xA0 <= p[1] <= 0xBF)
      || (0xE1 <= p[0] <= 0xEC && IsTail(p[1]))
      || (p[0] == 0xED && 0x80 <= p[1] <= 0x9F)
      || (0xEE <= p[0] <= 0xEF && IsTail(p[1]))
      || (p[0] == 0xF0 && 0x90 <= p[1] <= 0xBF)
      || (0xF1 <= p[0] <= 0xF3 && IsTail(p[1]))
      || (p[0] == 0xF4 && 0x80 <= p[1] <= 0x8F)
    else if |p| == 3 then
      && ((p[0] == 0xF0 && 0x90 <= p[1] <= 0xBF)
          || (0xF1 <= p[0] <= 0xF3 && IsTail(p[1]))
          || (p[0] == 0xF4 && 0x80 <= p[1] <= 0x8F))
      && IsTail(p[2])
    else
      false
  }

  /** The bytes after the first one of a UTF8-char are tails; the first is not. */
  lemma CharShape(c: Bytes)
    requires IsChar(c)
    ensures 1 <= |c| <= 4 && !IsTail(c[0])
    ensures forall m | 1 <= m < |c| :: IsTail(c[m])
  {
  }

  /** A UTF8-char cut short is a partial character. */
  lemma ProperPrefixIsPartial(c: Bytes, m: nat)
    requires IsChar(c) && 1 <= m < |c|
    ensures IsPartialChar(c[..m])
  {
  }

  /** Length of the UTF8-char that starts `s`, or 0 when `s` does not start with one. */
  function CharLen(s: Bytes): (n: nat)
    ensures n <= 4 && n <= |s|
    ensures n > 0 ==> IsChar(s[..n])
  {
    if 1 <= |s| && IsChar(s[..1]) then 1
    else if 2 <= |s| && IsChar(s[..2]) then 2
    else if 3 <= |s| && IsChar(s[..3]) then 3
    else if 4 <= |s| && IsChar(s[..4]) then 4
    else 0
  }

  /** The grammar is prefix-free: the leading byte fixes the length of a character. */
  lemma CharLenUnique(s: Bytes, k: nat)
    requires 1 <= k <= |s| && IsChar(s[..k])
    ensures CharLen(s) == k
  {
  }

  /** `s` is a sequence of UTF8-chars (UTF8-octets). */
  predicate ValidUtf8(s: Bytes)
    decreases |s|
  {
    |s| == 0 || (CharLen(s) > 0 && ValidUtf8(s[CharLen(s)..]))
  }

  /** The encoding of one Unicode scalar value. */
  function EncodeChar(c: char): (r: Bytes)
    ensures IsChar(r)
  {
    var n := c as int;
    if n < 0x80 then
      [n]
    else if n < 0x800 then
      [0xC0 + n / 0x40, 0x80 + n % 0x40]
    else if n < 0x1_0000 then
      assert n < 0xD800 || 0xE000 <= n;
      [0xE0 + n / 0x1000, 0x80 + (n / 0x40) % 0x40, 0x80 + n % 0x40]
    else
      [0xF0 + n / 0x4_0000, 0x80 + (n / 0x1000) % 0x40, 0x80 + (n / 0x40) % 0x40, 0x80 + n % 0x40]
  }

  /** The scalar value (as a number) one UTF8-char stands for. */
  function CodePoint(c: Bytes): (n: int)
    requires IsChar(c)
    ensures 0 <= n < 0xD800 || 0xE000 <= n < 0x11_0000
  {
    var b0 := c[0] as int;
    if |c| == 1 then
      b0
    else if |c| == 2 then
      (b0 - 0xC0) * 0x40 + (c[1] as int - 0x80)
    else if |c| == 3 then
      (b0 - 0xE0) * 0x1000 + (c[1] as int - 0x80) * 0x40 + (c[2] as int - 0x80)
    else
      (b0 - 0xF0) * 0x4_0000 + (c[1] as int - 0x80) * 0x1000 + (c[2] as int - 0x80) * 0x40 + (c[3] as int - 0x80)
  }

  /** The scalar value one UTF8-char stands for. */
  function DecodeChar(c: Bytes): char
    requires IsChar(c)
  {
    CodePoint(c) as char
  }

  lemma DecodeEncodeChar(c: char)
    ensures DecodeChar(EncodeChar(c)) == c
  {
    var n := c as int;
    if 0x800 <= n < 0x1_0000 {
      DigitsOf3(n);
    } else if 0x1_0000 <= n {
      DigitsOf4(n);
    }
  }

  /** Base-64 digits of a three-byte scalar value. */
  lemma DigitsOf3(n: int)
    requires 0 <= n
    ensures (n / 0x1000) * 0x1000 + ((n / 0x40) % 0x40) * 0x40 + n % 0x40 == n
  {
    var q := n / 0x40;
    assert q == (n / 0x1000) * 0x40 + q % 0x40;
  }

  /** Base-64 digits of a four-byte scalar value. */
  lemma DigitsOf4(n: int)
    requires 0 <= n
    ensures (n / 0x4_0000) * 0x4_0000 + ((n / 0x1000) % 0x40) * 0x1000 + ((n / 0x40) % 0x40) * 0x40 + n % 0x40 == n
  {
    var q := n / 0x40;
    var q2 := n / 0x1000;
    assert q == q2 * 0x40 + q % 0x40;
    assert q2 == (n / 0x4_0000) * 0x40 + q2 % 0x40;
  }

  lemma EncodeDecodeChar(c: Bytes)
    requires IsChar(c)
    ensures EncodeChar(DecodeChar(c)) == c
  {
    if |c| == 2 {
      EncodeDecodeChar2(c);
    } else if |c| == 3 {
      EncodeDecodeChar3(c);
    } else if |c| == 4 {
      EncodeDecodeChar4(c);
    }
  }

  lemma EncodeDecodeChar2(c: Bytes)
    requires IsChar(c) && |c| == 2
    ensures EncodeChar(DecodeChar(c)) == c
  {
    var n := CodePoint(c);
    assert 0x80 <= n < 0x800;
    assert n / 0x40 == c[0] as int - 0xC0;
    assert n % 0x40 == c[1] as int - 0x80;
    assert EncodeChar(DecodeChar(c)) == [0xC0 + n / 0x40, 0x80 + n % 0x40];
  }

  lemma EncodeDecodeChar3(c: Bytes)
    requires IsChar(c) && |c| == 3
    ensures EncodeChar(DecodeChar(c)) == c
  {
    var n := CodePoint(c);
    var hi := c[0] as int - 0xE0;
    var mid := c[1] as int - 0x80;
    var lo := c[2] as int - 0x80;
    assert n == hi * 0x1000 + mid * 0x40 + lo;
    assert 0x800 <= n < 0x1_0000;
    assert n / 0x40 == hi * 0x40 + mid;
    assert n % 0x40 == lo;
    assert (n / 0x40) % 0x40 == mid;
    assert n / 0x1000 == hi;
    assert EncodeChar(DecodeChar(c)) == [0xE0 + n / 0x1000, 0x80 + (n / 0x40) % 0x40, 0x80 + n % 0x40];
  }

  lemma EncodeDecodeChar4(c: Bytes)
    requires IsChar(c) && |c| == 4
    ensures EncodeChar(DecodeChar(c)) == c
  {
    var n := CodePoint(c);
    var b0 := c[0] as int - 0xF0;
    var b1 := c[1] as int - 0x80;
    var b2 := c[2] as int - 0x80;
    var b3 := c[3] as int - 0x80;
    assert n == b0 * 0x4_0000 + b1 * 0x1000 + b2 * 0x40 + b3;
    assert 0x1_0000 <= n;
    assert n / 0x40 == b0 * 0x1000 + b1 * 0x40 + b2;
    assert n % 0x40 == b3;
    assert (n / 0x40) % 0x40 == b2;
    assert n / 0x1000 == b0 * 0x40 + b1;
    assert (n / 0x1000) % 0x40 == b1;
    assert n / 0x4_0000 == b0;
    assert EncodeChar(DecodeChar(c)) == [0xF0 + n / 0x4_0000, 0x80 + (n / 0x1000) % 0x40, 0x80 + (n / 0x40) % 0x40, 0x80 + n % 0x40];
  }

  /** The UTF-8 bytes of a string (Rust's `str::as_bytes`). */
  function Encode(s: string): Bytes
  {
    if |s| == 0 then [] else EncodeChar(s[0]) + Encode(s[1..])
  }

  /** The text a valid byte sequence stands for (Rust's `str::from_utf8(..).unwrap()`). */
  function Decode(s: Bytes): string
    requires ValidUtf8(s)
    decreases |s|
  {
    if |s| == 0 then [] else [DecodeChar(s[..CharLen(s)])] + Decode(s[CharLen(s)..])
  }

  /** Rust's `str::from_utf8` / `OsStr::to_str`: the text, or None when the bytes are not UTF-8. */
  function ToStr(s: Bytes): (r: Option<string>)
    ensures r.Some? <==> ValidUtf8(s)
    ensures r.Some? ==> Encode(r.value) == s
  {
    if ValidUtf8(s) then
      EncodeDecode(s);
      Some(Decode(s))
    else
      None
  }

  lemma {:induction false} EncodeAppend(s: string, t: string)
    ensures Encode(s + t) == Encode(s) + Encode(t)
  {
    if |s| > 0 {
      assert (s + t)[1..] == s[1..] + t;
      EncodeAppend(s[1..], t);
    } else {
      assert s + t == t;
    }
  }

  /** A character in front of valid bytes is read back as that character. */
  lemma CharThenRest(c: char, rest: Bytes)
    ensures CharLen(EncodeChar(c) + rest) == |EncodeChar(c)|
    ensures (EncodeChar(c) + rest)[..|EncodeChar(c)|] == EncodeChar(c)
    ensures (EncodeChar(c) + rest)[|EncodeChar(c)|..] == rest
  {
    var e := EncodeChar(c);
    assert (e + rest)[..|e|] == e;
    CharLenUnique(e + rest, |e|);
  }

  /** Every string encodes to valid UTF-8. */
  lemma {:induction false} EncodeIsValid(s: string)
    ensures ValidUtf8(Encode(s))
  {
    if |s| > 0 {
      EncodeIsValid(s[1..]);
      CharThenRest(s[0], Encode(s[1..]));
    }
  }

  /** Decoding inverts encoding. */
  lemma {:induction false} DecodeEncode(s: string)
    ensures ValidUtf8(Encode(s)) && Decode(Encode(s)) == s
  {
    EncodeIsValid(s);
    if |s| > 0 {
      CharThenRest(s[0], Encode(s[1..]));
      DecodeEncodeChar(s[0]);
      DecodeEncode(s[1..]);
    }
  }

  /** Encoding inverts decoding: valid bytes are exactly the encodings of strings. */
  lemma {:induction false} EncodeDecode(s: Bytes)
    requires ValidUtf8(s)
    ensures Encode(Decode(s)) == s
    decreases |s|
  {
    if |s| > 0 {
      var k := DecodeFirst(s);
      var c, rest := DecodeChar(s[..k]), Decode(s[k..]);
      EncodeDecodeChar(s[..k]);
      EncodeDecode(s[k..]);
      EncodeCons(c, rest);
      SplitJoin(s, k);
    }
  }

  /** Decoding reads the first character, then decodes the rest. */
  lemma DecodeFirst(s: Bytes) returns (k: nat)
    requires ValidUtf8(s) && |s| > 0
    ensures k == CharLen(s) && 0 < k <= |s| && IsChar(s[..k]) && ValidUtf8(s[k..])
    ensures Decode(s) == [DecodeChar(s[..k])] + Decode(s[k..])
  {
    k := CharLen(s);
  }

  lemma SplitJoin(s: Bytes, k: nat)
    requires k <= |s|
    ensures s[..k] + s[k..] == s
  {
  }

  lemma EncodeCons(c: char, t: string)
    ensures Encode([c] + t) == EncodeChar(c) + Encode(t)
  {
    assert ([c] + t)[1..] == t;
  }

  /** Concatenating valid byte sequences gives a valid byte sequence. */
  lemma ValidAppend(a: Bytes, b: Bytes)
    requires ValidUtf8(a) && ValidUtf8(b)
    ensures ValidUtf8(a + b)
  {
    EncodeDecode(a);
    EncodeDecode(b);
    EncodeAppend(Decode(a), Decode(b));
    EncodeIsValid(Decode(a) + Decode(b));
  }

  /** What follows a valid prefix of a valid sequence is itself valid. */
  lemma {:induction false} ValidSuffix(a: Bytes, b: Bytes)
    requires ValidUtf8(a) && ValidUtf8(a + b)
    ensures ValidUtf8(b)
    decreases |a|
  {
    if |a| > 0 {
      var k := SharedFirstChar(a, b);
      ValidSuffix(a[k..], b);
    } else {
      assert a + b == b;
    }
  }

  /** A valid non-empty `a` and a valid `a + b` start with the same character. */
  lemma SharedFirstChar(a: Bytes, b: Bytes) returns (k: nat)
    requires ValidUtf8(a) && ValidUtf8(a + b) && |a| > 0
    ensures 0 < k == CharLen(a) && ValidUtf8(a[k..]) && ValidUtf8(a[k..] + b)
  {
    k := CharLen(a);
    assert (a + b)[..k] == a[..k];
    CharLenUnique(a + b, k);
    assert (a + b)[k..] == a[k..] + b;
  }

  /**
   * Rust's `Utf8Error::valid_up_to`: the length of the longest prefix of `s`
   * that is valid UTF-8.
   */
  function ValidUpTo(s: Bytes): (n: nat)
    ensures n <= |s|
    ensures ValidUtf8(s[..n])
    decreases |s|
  {
    if |s| == 0 || CharLen(s) == 0 then
      0
    else
      var k := CharLen(s);
      ValidAfterChar(s, k, ValidUpTo(s[k..]));
      k + ValidUpTo(s[k..])
  }

  /** A character followed by valid bytes is valid. */
  lemma ValidAfterChar(s: Bytes, k: nat, m: nat)
    requires 0 < k == CharLen(s) && m <= |s| - k && ValidUtf8(s[k..][..m])
    ensures ValidUtf8(s[..k + m])
  {
    assert s[..k + m][..k] == s[..k];
    CharLenUnique(s[..k + m], k);
    assert s[..k + m][k..] == s[k..][..m];
  }

  /** `ValidUpTo` past a first character. */
  lemma ValidUpToStep(s: Bytes)
    requires |s| > 0 && CharLen(s) > 0
    ensures ValidUpTo(s) == CharLen(s) + ValidUpTo(s[CharLen(s)..])
    ensures s[ValidUpTo(s)..] == s[CharLen(s)..][ValidUpTo(s[CharLen(s)..])..]
  {
  }

  /** No longer prefix than `ValidUpTo(s)` is valid. */
  lemma {:induction false} ValidUpToIsLongest(s: Bytes, j: nat)
    requires ValidUpTo(s) < j <= |s|
    ensures !ValidUtf8(s[..j])
    decreases |s|
  {
    if ValidUtf8(s[..j]) {
      var k := ValidPrefixStarts(s, j);
      ValidUpToIsLongest(s[k..], j - k);
      assert false;
    }
  }

  /** `ValidUpTo` reaches the end exactly for valid sequences. */
  lemma ValidUpToWhole(s: Bytes)
    ensures ValidUtf8(s) <==> ValidUpTo(s) == |s|
  {
    assert s[..|s|] == s;
    if ValidUtf8(s) && ValidUpTo(s) < |s| {
      ValidUpToIsLongest(s, |s|);
    }
  }

  /**
   * A prefix of a valid sequence stops, after its longest valid prefix, in
   * nothing or in one partial character.
   */
  lemma {:induction false} PrefixOfValidEndsPartial(buf: Bytes, more: Bytes)
    requires ValidUtf8(buf + more)
    ensures var rest := buf[ValidUpTo(buf)..]; |rest| == 0 || IsPartialChar(rest)
    decreases |buf|
  {
    if |buf| > 0 {
      var t := buf + more;
      var k := CharLen(t);
      if k <= |buf| {
        FirstCharOfPrefix(buf, more, k);
        ValidUpToStep(buf);
        PrefixOfValidEndsPartial(buf[k..], more);
      } else {
        InsideFirstChar(buf, more, k);
      }
    }
  }

  /** When the first character of `buf + more` lies inside `buf`, it is the first character of `buf`. */
  lemma FirstCharOfPrefix(buf: Bytes, more: Bytes, k: nat)
    requires ValidUtf8(buf + more) && |buf| > 0
    requires k == CharLen(buf + more) && k <= |buf|
    ensures 0 < k == CharLen(buf)
    ensures ValidUtf8(buf[k..] + more)
  {
    var t := buf + more;
    assert buf[..k] == t[..k];
    CharLenUnique(buf, k);
    assert t[k..] == buf[k..] + more;
  }

  /** When `buf` stops inside the first character of `buf + more`, all of it is a partial character. */
  lemma InsideFirstChar(buf: Bytes, more: Bytes, k: nat)
    requires ValidUtf8(buf + more) && |buf| > 0
    requires k == CharLen(buf + more) && k > |buf|
    ensures ValidUpTo(buf) == 0 && IsPartialChar(buf)
  {
    var t := buf + more;
    assert buf == t[..k][..|buf|];
    ProperPrefixIsPartial(t[..k], |buf|);
    if CharLen(buf) > 0 {
      PartialHasNoChar(buf, CharLen(buf));
    }
  }

  /** No prefix of a partial character is a whole character. */
  lemma PartialHasNoChar(p: Bytes, k: nat)
    requires IsPartialChar(p) && 1 <= k <= |p|
    ensures !IsChar(p[..k])
  {
  }

  /** A partial character is not valid UTF-8 on its own. */
  lemma PartialNotValid(p: Bytes)
    requires IsPartialChar(p)
    ensures !ValidUtf8(p)
  {
    if CharLen(p) > 0 {
      PartialHasNoChar(p, CharLen(p));
    }
  }

  /** Past a valid prefix, the longest valid prefix continues from where that prefix ends. */
  lemma {:induction false} ValidUpToSplit(s: Bytes, v: nat)
    requires v <= |s| && ValidUtf8(s[..v])
    ensures ValidUpTo(s) == v + ValidUpTo(s[v..])
    decreases v
  {
    if v > 0 {
      var k := ValidPrefixStarts(s, v);
      ValidUpToSplit(s[k..], v - k);
      assert s[k..][v - k..] == s[v..];
    } else {
      assert s[0..] == s;
    }
  }

  /** A non-empty valid prefix starts with the character that starts `s`, and stays valid past it. */
  lemma ValidPrefixStarts(s: Bytes, v: nat) returns (k: nat)
    requires 0 < v <= |s| && ValidUtf8(s[..v])
    ensures k == CharLen(s) && 0 < k <= v
    ensures ValidUtf8(s[k..][..v - k])
  {
    k := CharLen(s[..v]);
    assert s[..v][..k] == s[..k];
    CharLenUnique(s, k);
    assert s[..v][k..] == s[k..][..v - k];
  }

  /** A valid non-empty prefix covers the whole first character. */
  lemma ValidPrefixCoversFirstChar(s: Bytes, v: nat)
    requires 0 < v <= |s|
    ensures ValidUtf8(s[..v]) ==> 0 < CharLen(s) <= v
  {
    if ValidUtf8(s[..v]) {
      var k := ValidPrefixStarts(s, v);
    }
  }

  /** A partial character ends in a byte of 0x80 or above, never in an ASCII byte. */
  lemma NotPartialIfEndsLow(p: Bytes)
    requires |p| == 0 || p[|p| - 1] < 0x80
    ensures !IsPartialChar(p)
  {
  }

  /** Valid text cut just after an ASCII byte (a newline, say) leaves two valid pieces. */
  lemma SplitAfterAscii(a: Bytes, b: Bytes)
    requires ValidUtf8(a + b) && |a| > 0 && a[|a| - 1] < 0x80
    ensures ValidUtf8(a) && ValidUtf8(b)
  {
    PrefixOfValidEndsPartial(a, b);
    var rest := a[ValidUpTo(a)..];
    NotPartialIfEndsLow(rest);
    ValidUpToWhole(a);
    assert a[..|a|] == a;
    ValidSuffix(a, b);
  }

  /** The length of the longest partial character at the start of `s` (0 when none). */
  function PartialLen(s: Bytes): (n: nat)
    ensures n <= 3 && n <= |s|
    ensures n > 0 ==> IsPartialChar(s[..n])
  {
    if 3 <= |s| && IsPartialChar(s[..3]) then 3
    else if 2 <= |s| && IsPartialChar(s[..2]) then 2
    else if 1 <= |s| && IsPartialChar(s[..1]) then 1
    else 0
  }

  /**
   * Rust's `String::from_utf8_lossy` (used by `Path::display`): valid characters
   * are kept, and each maximal invalid run (a partial character, or else one
   * byte) becomes one U+FFFD.
   */
  function Lossy(s: Bytes): string
    decreases |s|
  {
    if |s| == 0 then
      []
    else if CharLen(s) > 0 then
      [DecodeChar(s[..CharLen(s)])] + Lossy(s[CharLen(s)..])
    else
      var skip := if PartialLen(s) == 0 then 1 else PartialLen(s);
      ['\U{FFFD}'] + Lossy(s[skip..])
  }

  /** Lossy decoding of valid bytes loses nothing. */
  lemma {:induction false} LossyOfValid(s: Bytes)
    requires ValidUtf8(s)
    ensures Lossy(s) == Decode(s)
    decreases |s|
  {
    if |s| > 0 {
      LossyOfValid(s[CharLen(s)..]);
    }
  }
}
