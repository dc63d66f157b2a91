/** Hex codec, byte search and digit classification (HexUtils.java), plus the
    `%0wX` formatter the renderer and the status line use. */
module HexUtils {
  import opened Common

  // ---------------------------------------------------------------- digits

  /** A hexadecimal digit: `0-9`, `a-f` or `A-F`. */
  predicate IsHexChar(c: char)
  {
    ('0' <= c <= '9') || ('a' <= c <= 'f') || ('A' <= c <= 'F')
  }

  /** The classification is exactly membership in the 22-character hex alphabet. */
  lemma IsHexCharAlphabet(c: char)
    ensures IsHexChar(c) <==> c in "0123456789abcdefABCDEF"
  {
    var alphabet := "0123456789abcdefABCDEF";
    if IsHexChar(c) {
      if '0' <= c <= '9' {
        assert alphabet[c as int - '0' as int] == c;
      } else if 'a' <= c <= 'f' {
        assert alphabet[10 + c as int - 'a' as int] == c;
      } else {
        assert alphabet[16 + c as int - 'A' as int] == c;
      }
    }
  }

  /** The digit `%X` writes for a nibble. */
  function UpperDigit(v: int): (c: char)
    requires 0 <= v < 16
    ensures IsHexChar(c) && !('a' <= c <= 'f')
  {
    if v < 10 then ('0' as int + v) as char else ('A' as int + v - 10) as char
  }

  /** The lower-case spelling of the same digit. */
  function LowerDigit(v: int): (c: char)
    requires 0 <= v < 16
    ensures IsHexChar(c) && !('A' <= c <= 'F')
  {
    if v < 10 then ('0' as int + v) as char else ('a' as int + v - 10) as char
  }

  /** The value of a hex digit, either case (what `Character.digit(c, 16)`
      gives on this alphabet). */
  function DigitValue(c: char): (v: nat)
    requires IsHexChar(c)
    ensures v < 16
    ensures c == UpperDigit(v) || c == LowerDigit(v)
  {
    if '0' <= c <= '9' then c as int - '0' as int
    else if 'a' <= c <= 'f' then c as int - 'a' as int + 10
    else c as int - 'A' as int + 10
  }

  lemma DigitValueOfUpper(v: int)
    requires 0 <= v < 16
    ensures DigitValue(UpperDigit(v)) == v
  {
  }

  // ------------------------------------------------------------ formatting

  /** `%0<width>X`: the upper-case hexadecimal digits of `n`, zero-padded on
      the left to at least `width` characters (`width` 1 is
      `Integer.toHexString(n).toUpperCase()`). */
  function HexDigits(n: nat, width: nat): (s: string)
    ensures |s| >= 1 && |s| >= width
    ensures forall j :: 0 <= j < |s| ==> IsHexChar(s[j]) && !('a' <= s[j] <= 'f')
    decreases n + width
  {
    if n < 16 && width <= 1 then [UpperDigit(n)]
    else HexDigits(n / 16, if width == 0 then 0 else width - 1) + [UpperDigit(n % 16)]
  }

  /** The number a string of hex digits denotes, most significant first. */
  function HexValue(s: string): nat
    requires forall j :: 0 <= j < |s| ==> IsHexChar(s[j])
  {
    if s == [] then 0 else 16 * HexValue(s[..|s| - 1]) + DigitValue(s[|s| - 1])
  }

  function Pow16(w: nat): (p: nat)
    ensures p >= 1
  {
    if w == 0 then 1 else 16 * Pow16(w - 1)
  }

  /** Reading the formatted digits back gives the number. */
  lemma {:induction false} HexDigitsValue(n: nat, width: nat)
    ensures HexValue(HexDigits(n, width)) == n
    decreases n + width
  {
    var s := HexDigits(n, width);
    if n < 16 && width <= 1 {
      assert s[..0] == [];
      DigitValueOfUpper(n);
    } else {
      var w := if width == 0 then 0 else width - 1;
      HexDigitsValue(n / 16, w);
      assert s[..|s| - 1] == HexDigits(n / 16, w);
      DigitValueOfUpper(n % 16);
    }
  }

  /** A number below 16^width takes exactly `width` digits: no digit is lost
      and no padding is added beyond the width. */
  lemma {:induction false} HexDigitsLength(n: nat, width: nat)
    requires 1 <= width && n < Pow16(width)
    ensures |HexDigits(n, width)| == width
    decreases width
  {
    if !(n < 16 && width <= 1) {
      assert width >= 2;
      HexDigitsLength(n / 16, width - 1);
    }
  }

  // ------------------------------------------------------------ whitespace

  /** What the regular expression `\s` matches: space, tab, line feed,
      vertical tab, form feed and carriage return. */
  predicate IsWhitespace(c: char)
  {
    c == ' ' || c == '\t' || c == '\n' || c == '\U{0B}' || c == '\U{0C}' || c == '\r'
  }

  /** `s.replaceAll("\\s+", "")`: the characters of `s` that are not
      whitespace, in order. */
  function StripWhitespace(s: string): (r: string)
    ensures |r| <= |s|
  {
    if s == [] then []
    else StripWhitespace(s[..|s| - 1]) + (if IsWhitespace(s[|s| - 1]) then [] else [s[|s| - 1]])
  }

  /** What is left holds no whitespace, and every character of it is one of
      the original's. */
  lemma {:induction false} StripRemovesWhitespace(s: string)
    ensures forall j :: 0 <= j < |StripWhitespace(s)| ==>
              !IsWhitespace(StripWhitespace(s)[j]) && StripWhitespace(s)[j] in s
  {
    if s != [] {
      var p := s[..|s| - 1];
      StripRemovesWhitespace(p);
      assert forall c :: c in p ==> c in s;
    }
  }

  /** Stripping distributes over concatenation. */
  lemma {:induction false} StripAppend(a: string, b: string)
    ensures StripWhitespace(a + b) == StripWhitespace(a) + StripWhitespace(b)
    decreases |b|
  {
    if b != [] {
      var b' := b[..|b| - 1];
      assert (a + b)[..|a + b| - 1] == a + b';
      StripAppend(a, b');
    } else {
      assert a + b == a;
    }
  }

  /** A string of whitespace strips to nothing. */
  lemma {:induction false} StripAllWhitespace(s: string)
    requires forall j :: 0 <= j < |s| ==> IsWhitespace(s[j])
    ensures StripWhitespace(s) == []
  {
    if s != [] {
      StripAllWhitespace(s[..|s| - 1]);
    }
  }

  /** Text followed by whitespace strips to the text, when the text has
      none of its own. */
  lemma StripPadded(h: string, w: string)
    requires forall j :: 0 <= j < |h| ==> !IsWhitespace(h[j])
    requires forall j :: 0 <= j < |w| ==> IsWhitespace(w[j])
    ensures StripWhitespace(h + w) == h
  {
    StripAppend(h, w);
    StripNoWhitespace(h);
    StripAllWhitespace(w);
  }

  /** A string without whitespace is left as it is. */
  lemma {:induction false} StripNoWhitespace(s: string)
    requires forall j :: 0 <= j < |s| ==> !IsWhitespace(s[j])
    ensures StripWhitespace(s) == s
  {
    if s != [] {
      StripNoWhitespace(s[..|s| - 1]);
    }
  }

  // --------------------------------------------------------------- parsing

  /** The two ways `hexStringToBytes` fails: an odd number of characters
      after whitespace removal, or a character outside the hex alphabet,
      reported with its index in the stripped string. */
  datatype HexError = OddLength | InvalidChar(ch: char, position: nat)

  /** Index of the first character of `s` that is not a hex digit. */
  function FirstNonHex(s: string): (r: Option<nat>)
    ensures r.None? <==> forall j :: 0 <= j < |s| ==> IsHexChar(s[j])
    ensures r.Some? ==> r.value < |s| && !IsHexChar(s[r.value])
                        && forall j :: 0 <= j < r.value ==> IsHexChar(s[j])
  {
    if s == [] then None
    else if !IsHexChar(s[0]) then Some(0)
    else match FirstNonHex(s[1..])
         case None => None
         case Some(i) => Some(i + 1)
  }

  /** Big-endian nibble pairs to bytes. */
  function DecodePairs(s: string): (r: seq<Byte>)
    requires |s| % 2 == 0
    requires forall j :: 0 <= j < |s| ==> IsHexChar(s[j])
    ensures |r| == |s| / 2
  {
    if s == [] then []
    else [16 * DigitValue(s[0]) + DigitValue(s[1])] + DecodePairs(s[2..])
  }

  /** Byte `k` is made of characters 2 k (high nibble) and 2 k + 1. */
  lemma {:induction false} DecodePairsAt(s: string, k: nat)
    requires |s| % 2 == 0
    requires forall j :: 0 <= j < |s| ==> IsHexChar(s[j])
    requires k < |s| / 2
    ensures DecodePairs(s)[k] == 16 * DigitValue(s[2 * k]) + DigitValue(s[2 * k + 1])
  {
    if k > 0 {
      var t := s[2..];
      DecodePairsAt(t, k - 1);
      assert t[2 * (k - 1)] == s[2 * k] && t[2 * (k - 1) + 1] == s[2 * k + 1];
    }
  }

  /** What `hexStringToBytes` returns or throws. */
  function ParseHex(hexString: string): (r: Result<seq<Byte>, HexError>)
  {
    var s := StripWhitespace(hexString);
    if |s| % 2 != 0 then Failure(OddLength)
    else match FirstNonHex(s)
         case Some(i) => Failure(InvalidChar(s[i], i))
         case None => Success(DecodePairs(s))
  }

  /** The parser's contract: an odd count of non-whitespace characters is
      `OddLength`; otherwise the first character outside the hex alphabet is
      reported with its index; otherwise every pair of digits is one byte,
      high nibble first. */
  lemma ParseHexSpec(hexString: string)
    ensures var s, r := StripWhitespace(hexString), ParseHex(hexString);
      && (r == Failure(OddLength) <==> |s| % 2 != 0)
      && (r.Success? <==> |s| % 2 == 0 && forall j :: 0 <= j < |s| ==> IsHexChar(s[j]))
      && (r.Failure? && r.error.InvalidChar? ==>
            && |s| % 2 == 0
            && r.error.position < |s|
            && r.error.ch == s[r.error.position]
            && !IsHexChar(r.error.ch)
            && forall j :: 0 <= j < r.error.position ==> IsHexChar(s[j]))
      && (r.Success? ==>
            && |r.value| == |s| / 2
            && forall k :: 0 <= k < |r.value| ==>
                 r.value[k] == 16 * DigitValue(s[2 * k]) + DigitValue(s[2 * k + 1]))
  {
    var s := StripWhitespace(hexString);
    if |s| % 2 == 0 && FirstNonHex(s).None? {
      forall k | 0 <= k < |s| / 2
        ensures DecodePairs(s)[k] == 16 * DigitValue(s[2 * k]) + DigitValue(s[2 * k + 1])
      {
        DecodePairsAt(s, k);
      }
    }
  }

  /** Whitespace never matters: two strings with the same non-whitespace
      characters parse alike. */
  lemma ParseIgnoresWhitespace(a: string, b: string)
    requires StripWhitespace(a) == StripWhitespace(b)
    ensures ParseHex(a) == ParseHex(b)
  {
  }

  /** `hexStringToBytes`: strip whitespace, reject an odd length, then a
      validation loop that reports the first non-hex character, then the
      decoding of the nibble pairs. */
  method HexStringToBytes(hexString: string) returns (r: Result<seq<Byte>, HexError>)
    ensures r == ParseHex(hexString)
  {
    var str := StripWhitespace(hexString);
    if |str| % 2 != 0 {
      return Failure(OddLength);
    }
    var i := 0;
    while i < |str|
      invariant 0 <= i <= |str|
      invariant forall j :: 0 <= j < i ==> IsHexChar(str[j])
    {
      if !IsHexChar(str[i]) {
        return Failure(InvalidChar(str[i], i));
      }
      i := i + 1;
    }
    var bytes: seq<Byte> := [];
    var k := 0;
    while k < |str| / 2
      invariant 0 <= k <= |str| / 2
      invariant |bytes| == k
      invariant forall m :: 0 <= m < k ==> bytes[m] == 16 * DigitValue(str[2 * m]) + DigitValue(str[2 * m + 1])
    {
      bytes := bytes + [16 * DigitValue(str[2 * k]) + DigitValue(str[2 * k + 1])];
      k := k + 1;
    }
    assert FirstNonHex(str) == None;
    ghost var decoded := DecodePairs(str);
    forall m | 0 <= m < |bytes|
      ensures bytes[m] == decoded[m]
    {
      DecodePairsAt(str, m);
    }
    assert bytes == decoded;
    return Success(bytes);
  }

  // ---------------------------------------------------------------- search

  /** `target` occurs in `bytes` starting at index `i`. */
  predicate MatchesAt(bytes: seq<Byte>, target: seq<Byte>, i: int)
  {
    0 <= i && i + |target| <= |bytes| && forall m :: 0 <= m < |target| ==> bytes[i + m] == target[m]
  }

  /** The first index from `i` on where `target` occurs, or -1. */
  function FirstMatchFrom(bytes: seq<Byte>, target: seq<Byte>, i: nat): (r: int)
    ensures r == -1 || (i <= r && MatchesAt(bytes, target, r))
    ensures forall j :: i <= j && (r == -1 || j < r) ==> !MatchesAt(bytes, target, j)
    decreases |bytes| + 1 - i
  {
    if i + |target| > |bytes| then -1
    else if MatchesAt(bytes, target, i) then i
    else FirstMatchFrom(bytes, target, i + 1)
  }

  /** The first index where `target` occurs in `bytes`, or -1. */
  function FirstMatch(bytes: seq<Byte>, target: seq<Byte>): int
  {
    FirstMatchFrom(bytes, target, 0)
  }

  /** An index where `target` occurs, with no occurrence before it, is the
      first match. */
  lemma FirstMatchIs(bytes: seq<Byte>, target: seq<Byte>, k: nat)
    requires MatchesAt(bytes, target, k)
    requires forall j :: 0 <= j < k ==> !MatchesAt(bytes, target, j)
    ensures FirstMatch(bytes, target) == k
  {
  }

  /** `indexOf`: the first index where `target` occurs in `bytes`, 0 for an
      empty target, -1 when there is none. */
  method IndexOf(bytes: seq<Byte>, target: seq<Byte>) returns (index: int)
    ensures index == FirstMatch(bytes, target)
    ensures -1 <= index
    ensures target == [] ==> index == 0
    ensures index >= 0 ==> MatchesAt(bytes, target, index)
                           && forall j :: 0 <= j < index ==> !MatchesAt(bytes, target, j)
    ensures index == -1 <==> forall j :: !MatchesAt(bytes, target, j)
  {
    if |target| == 0 {
      return 0;
    }
    var i := 0;
    while i <= |bytes| - |target|
      invariant 0 <= i
      invariant forall j :: 0 <= j < i ==> !MatchesAt(bytes, target, j)
    {
      var found := true;
      var j := 0;
      while j < |target|
        invariant 0 <= j <= |target|
        invariant found
        invariant forall m :: 0 <= m < j ==> bytes[i + m] == target[m]
      {
        if bytes[i + j] != target[j] {
          found := false;
          break;
        }
        j := j + 1;
      }
      if found {
        FirstMatchIs(bytes, target, i);
        return i;
      }
      i := i + 1;
    }
    return -1;
  }

  /** A target longer than the searched bytes never occurs. */
  lemma LongerTargetNeverMatches(bytes: seq<Byte>, target: seq<Byte>, i: int)
    requires |target| > |bytes|
    ensures !MatchesAt(bytes, target, i)
  {
  }
}
