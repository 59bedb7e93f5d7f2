/**
 * Text operations with the semantics of the Rust standard-library methods the
 * chat-log core calls on `str`: `trim`, `lines`, `split_whitespace`, `rfind`,
 * `parse::<u32>` and decimal formatting. Text is a sequence of Unicode scalar
 * values, as a Rust `str` is.
 */
module Text {
  import opened Wrappers

  /** Rust's `char::is_whitespace`: the Unicode White_Space property. */
  predicate IsWhitespace(c: char) {
    || ('\t' <= c <= '\r')
    || c == ' '
    || c == '\U{85}'
    || c == '\U{A0}'
    || c == '\U{1680}'
    || ('\U{2000}' <= c <= '\U{200A}')
    || c == '\U{2028}'
    || c == '\U{2029}'
    || c == '\U{202F}'
    || c == '\U{205F}'
    || c == '\U{3000}'
  }

  /** Every character of `s` is whitespace (the empty string included). */
  predicate IsBlank(s: string) {
    forall i | 0 <= i < |s| :: IsWhitespace(s[i])
  }

  /** Rust's `str::trim_start`. */
  function TrimStart(s: string): (r: string)
    ensures |r| <= |s| && r == s[|s| - |r|..]
    ensures IsBlank(s[..|s| - |r|])
    ensures |r| == 0 || !IsWhitespace(r[0])
  {
    if |s| > 0 && IsWhitespace(s[0]) then TrimStart(s[1..]) else s
  }

  /** Rust's `str::trim_end`. */
  function TrimEnd(s: string): (r: string)
    ensures |r| <= |s| && r == s[..|r|]
    ensures IsBlank(s[|r|..])
    ensures |r| == 0 || !IsWhitespace(r[|r| - 1])
  {
    if |s| > 0 && IsWhitespace(s[|s| - 1]) then TrimEnd(s[..|s| - 1]) else s
  }

  /** Rust's `str::trim`. */
  function Trim(s: string): string {
    TrimEnd(TrimStart(s))
  }

  /** Trimming leaves nothing exactly when the text is all whitespace. */
  lemma TrimEmptyIffBlank(s: string)
    ensures Trim(s) == [] <==> IsBlank(s)
  {
    var t := TrimStart(s);
    if Trim(s) == [] {
      assert IsBlank(t[0..]);
      assert s == s[..|s| - |t|] + t;
    }
  }

  lemma {:induction false} TrimEndAppendBlank(s: string, w: string)
    requires IsBlank(w)
    ensures TrimEnd(s + w) == TrimEnd(s)
    decreases |w|
  {
    if |w| > 0 {
      assert (s + w)[..|s + w| - 1] == s + w[..|w| - 1];
      TrimEndAppendBlank(s, w[..|w| - 1]);
    } else {
      assert s + w == s;
    }
  }

  lemma {:induction false} TrimStartAppend(s: string, w: string)
    requires !IsBlank(s)
    ensures TrimStart(s + w) == TrimStart(s) + w
    decreases |s|
  {
    if IsWhitespace(s[0]) {
      assert (s + w)[1..] == s[1..] + w;
      TrimStartAppend(s[1..], w);
    }
  }

  /**
   * Whitespace after the text does not change its trimmed form; a line read
   * with its newline trims to the same text as the line without it.
   */
  lemma TrimIgnoresTrailingBlank(s: string, w: string)
    requires IsBlank(w)
    ensures Trim(s + w) == Trim(s)
  {
    if IsBlank(s) {
      assert IsBlank(s + w);
      TrimEmptyIffBlank(s);
      TrimEmptyIffBlank(s + w);
    } else {
      TrimStartAppend(s, w);
      TrimEndAppendBlank(TrimStart(s), w);
    }
  }

  /** Text that neither starts nor ends with whitespace is its own trimmed form. */
  lemma TrimUnchanged(s: string)
    requires |s| > 0 && !IsWhitespace(s[0]) && !IsWhitespace(s[|s| - 1])
    ensures Trim(s) == s
  {
    assert TrimStart(s) == s;
  }

  /** Index of the first `c` in `s`, or `|s|` when there is none. */
  function IndexOf(s: string, c: char): (i: nat)
    ensures i <= |s|
    ensures i < |s| ==> s[i] == c
    ensures c !in s[..i]
  {
    if |s| == 0 || s[0] == c then 0
    else
      var i := 1 + IndexOf(s[1..], c);
      assert s[..i] == [s[0]] + s[1..][..i - 1];
      i
  }

  /**
   * Rust's `str::lines`: the pieces between newlines, a final piece without a
   * newline included, and a `\r` before a newline dropped.
   */
  function Lines(s: string): (r: seq<string>)
    ensures forall k | 0 <= k < |r| :: '\n' !in r[k]
    decreases |s|
  {
    if |s| == 0 then
      []
    else
      var i := IndexOf(s, '\n');
      if i == |s| then
        [s]
      else
        var line := if i > 0 && s[i - 1] == '\r' then s[..i - 1] else s[..i];
        assert line <= s[..i];
        [line] + Lines(s[i + 1..])
  }

  /** Rust's `str::lines().count()`. */
  function LineCount(s: string): nat {
    |Lines(s)|
  }

  /** Number of newline characters in `s`. */
  function NewlineCount(s: string): nat {
    multiset(s)['\n']
  }

  /** The line count is the number of newlines, plus one for an unterminated last line. */
  lemma {:induction false} LineCountFormula(s: string)
    ensures LineCount(s) == NewlineCount(s) + (if |s| > 0 && s[|s| - 1] != '\n' then 1 else 0)
    decreases |s|
  {
    if |s| > 0 {
      var i := IndexOf(s, '\n');
      if i < |s| {
        var rest := s[i + 1..];
        assert s == s[..i] + ['\n'] + rest;
        assert multiset(s) == multiset(s[..i]) + multiset(['\n']) + multiset(rest);
        LineCountFormula(rest);
        if |rest| > 0 {
          assert s[|s| - 1] == rest[|rest| - 1];
        }
      } else {
        assert s == s[..i];
      }
    }
  }

  predicate IsDigit(c: char) {
    '0' <= c <= '9'
  }

  predicate AllDigits(s: string) {
    forall i | 0 <= i < |s| :: IsDigit(s[i])
  }

  function DigitChar(d: nat): (c: char)
    requires d < 10
    ensures IsDigit(c)
  {
    ('0' as int + d) as char
  }

  /** Rust's `format!("{n}")` for an unsigned integer. */
  function NatToString(n: nat): (r: string)
    ensures |r| > 0 && AllDigits(r)
    ensures |r| > 1 ==> r[0] != '0'
  {
    if n < 10 then [DigitChar(n)] else NatToString(n / 10) + [DigitChar(n % 10)]
  }

  /** The number a string of decimal digits denotes. */
  function DigitsValue(s: string): nat
    requires AllDigits(s)
  {
    if |s| == 0 then 0 else DigitsValue(s[..|s| - 1]) * 10 + (s[|s| - 1] as int - '0' as int)
  }

  lemma {:induction false} DigitsValueOfNatToString(n: nat)
    ensures DigitsValue(NatToString(n)) == n
  {
    if n >= 10 {
      var r := NatToString(n);
      assert r[..|r| - 1] == NatToString(n / 10);
      DigitsValueOfNatToString(n / 10);
    }
  }

  /** `s` is how `format!("{}")` prints `n`: decimal digits with no leading zero. */
  predicate Decimal(s: string, n: nat) {
    && |s| > 0 && AllDigits(s)
    && (|s| > 1 ==> s[0] != '0')
    && DigitsValue(s) == n
  }

  /** NatToString prints the decimal form. */
  lemma NatToStringIsDecimal(n: nat)
    ensures Decimal(NatToString(n), n)
  {
    DigitsValueOfNatToString(n);
  }

  /** Digits that do not start with '0' denote a positive number. */
  lemma {:induction false} LeadingDigitPositive(s: string)
    requires |s| > 0 && AllDigits(s) && s[0] != '0'
    ensures DigitsValue(s) >= 1
  {
    if |s| > 1 {
      LeadingDigitPositive(s[..|s| - 1]);
    }
  }

  /** A number has exactly one decimal form, the one NatToString prints. */
  lemma {:induction false} DecimalIsNatToString(s: string, n: nat)
    requires Decimal(s, n)
    ensures s == NatToString(n)
  {
    var last := s[|s| - 1];
    var d := last as int - '0' as int;
    assert IsDigit(s[|s| - 1]);
    if |s| == 1 {
      assert s[..|s| - 1] == [];
      assert n == DigitsValue(s[..|s| - 1]) * 10 + d;
      assert DigitChar(n) == last;
      assert s == [last];
    } else {
      var init := s[..|s| - 1];
      LeadingDigitPositive(init);
      assert n / 10 == DigitsValue(init) && n % 10 == d;
      DecimalIsNatToString(init, n / 10);
      assert DigitChar(n % 10) == last;
      assert s == init + [last];
    }
  }

  const U32_LIMIT: nat := 0x1_0000_0000

  /**
   * Rust's `str::parse::<u32>`: an optional `+`, then one or more decimal
   * digits whose value fits in 32 bits.
   */
  function ParseU32(s: string): (r: Option<nat>)
    ensures r.Some? ==> r.value < U32_LIMIT
    ensures r.Some? ==> |s| > 0 && (IsDigit(s[0]) || s[0] == '+')
  {
    var digits := if |s| > 0 && s[0] == '+' then s[1..] else s;
    if |digits| == 0 || !AllDigits(digits) then None
    else if DigitsValue(digits) < U32_LIMIT then Some(DigitsValue(digits))
    else None
  }

  /** Formatting and parsing a 32-bit number round-trips. */
  lemma ParseU32OfNatToString(n: nat)
    requires n < U32_LIMIT
    ensures ParseU32(NatToString(n)) == Some(n)
  {
    DigitsValueOfNatToString(n);
  }

  /** Length of the leading run of non-whitespace characters of `s`. */
  function WordLen(s: string): (n: nat)
    ensures n <= |s|
    ensures forall i | 0 <= i < n :: !IsWhitespace(s[i])
    ensures n < |s| ==> IsWhitespace(s[n])
  {
    if |s| == 0 || IsWhitespace(s[0]) then 0 else 1 + WordLen(s[1..])
  }

  /** A non-empty run of non-whitespace characters. */
  predicate IsWord(w: string) {
    |w| > 0 && forall i | 0 <= i < |w| :: !IsWhitespace(w[i])
  }

  /** Rust's `str::split_whitespace`: the maximal runs of non-whitespace, in order. */
  function SplitWhitespace(s: string): (r: seq<string>)
    ensures forall k | 0 <= k < |r| :: IsWord(r[k])
    decreases |s|
  {
    var t := TrimStart(s);
    if |t| == 0 then
      []
    else
      FirstWord(t);
      var n := WordLen(t);
      WordsCons(t[..n], SplitWhitespace(t[n..]));
      [t[..n]] + SplitWhitespace(t[n..])
  }

  /** A text that starts with a non-whitespace character starts with a word. */
  lemma FirstWord(t: string)
    requires |t| > 0 && !IsWhitespace(t[0])
    ensures 0 < WordLen(t) && IsWord(t[..WordLen(t)])
  {
  }

  lemma WordsCons(w: string, rest: seq<string>)
    requires IsWord(w) && forall k | 0 <= k < |rest| :: IsWord(rest[k])
    ensures forall k | 0 <= k < |[w] + rest| :: IsWord(([w] + rest)[k])
  {
  }

  /** `s` with its whitespace characters removed. */
  function WithoutWhitespace(s: string): string {
    if |s| == 0 then []
    else (if IsWhitespace(s[0]) then [] else [s[0]]) + WithoutWhitespace(s[1..])
  }

  function Concat(parts: seq<string>): string {
    if |parts| == 0 then [] else parts[0] + Concat(parts[1..])
  }

  lemma {:induction false} WithoutWhitespaceAppend(a: string, b: string)
    ensures WithoutWhitespace(a + b) == WithoutWhitespace(a) + WithoutWhitespace(b)
  {
    if |a| > 0 {
      assert (a + b)[1..] == a[1..] + b;
      WithoutWhitespaceAppend(a[1..], b);
    } else {
      assert a + b == b;
    }
  }

  lemma {:induction false} WithoutWhitespaceOfBlank(s: string)
    requires IsBlank(s)
    ensures WithoutWhitespace(s) == []
  {
    if |s| > 0 {
      WithoutWhitespaceOfBlank(s[1..]);
    }
  }

  lemma {:induction false} WithoutWhitespaceOfWord(s: string)
    requires forall i | 0 <= i < |s| :: !IsWhitespace(s[i])
    ensures WithoutWhitespace(s) == s
  {
    if |s| > 0 {
      WithoutWhitespaceOfWord(s[1..]);
    }
  }

  /** The fields are exactly the non-whitespace characters of the text, cut into runs. */
  lemma {:induction false} SplitWhitespaceKeepsText(s: string)
    ensures Concat(SplitWhitespace(s)) == WithoutWhitespace(s)
    decreases |s|
  {
    var t := TrimStart(s);
    SkipLeadingBlank(s);
    if |t| > 0 {
      var n := WordLen(t);
      var word, rest := t[..n], t[n..];
      SplitFirstWord(t);
      SplitWhitespaceKeepsText(rest);
      ConcatCons(word, SplitWhitespace(rest));
    }
  }

  lemma SkipLeadingBlank(s: string)
    ensures WithoutWhitespace(s) == WithoutWhitespace(TrimStart(s))
  {
    var t := TrimStart(s);
    var lead := s[..|s| - |t|];
    assert s == lead + t;
    WithoutWhitespaceAppend(lead, t);
    WithoutWhitespaceOfBlank(lead);
  }

  lemma SplitFirstWord(t: string)
    requires |t| > 0 && !IsWhitespace(t[0])
    ensures WordLen(t) > 0
    ensures WithoutWhitespace(t) == t[..WordLen(t)] + WithoutWhitespace(t[WordLen(t)..])
  {
    var n := WordLen(t);
    assert t == t[..n] + t[n..];
    WithoutWhitespaceAppend(t[..n], t[n..]);
    WithoutWhitespaceOfWord(t[..n]);
  }

  lemma ConcatCons(x: string, rest: seq<string>)
    ensures Concat([x] + rest) == x + Concat(rest)
  {
    assert ([x] + rest)[1..] == rest;
  }

  /** Rust's `str::rfind` for a single character: the index of its last occurrence. */
  function LastIndexOf(s: string, c: char): (r: Option<nat>)
    ensures r.None? <==> forall i | 0 <= i < |s| :: s[i] != c
    ensures r.Some? ==> r.value < |s| && s[r.value] == c
    ensures r.Some? ==> forall i | r.value < i < |s| :: s[i] != c
  {
    if |s| == 0 then None
    else if s[|s| - 1] == c then Some(|s| - 1)
    else
      var r := LastIndexOf(s[..|s| - 1], c);
      assert forall i | 0 <= i < |s| - 1 :: s[..|s| - 1][i] == s[i];
      r
  }

  /** The last occurrence is the one after which the character does not occur again. */
  lemma {:induction false} LastIndexOfIs(s: string, c: char, k: nat)
    requires k < |s| && s[k] == c
    requires forall i | k < i < |s| :: s[i] != c
    ensures LastIndexOf(s, c) == Some(k)
  {
    if k < |s| - 1 {
      LastIndexOfIs(s[..|s| - 1], c, k);
    }
  }

  /** Rust's `str::ends_with`. */
  predicate EndsWith(s: string, suffix: string) {
    |suffix| <= |s| && s[|s| - |suffix|..] == suffix
  }
}
