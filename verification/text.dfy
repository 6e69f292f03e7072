/**
 * The handful of Python `str` operations the application relies on, over
 * `seq<char>`: ASCII lower-casing, `strip()`, `split(c)[0]`, `split(c)[-1]`,
 * `rstrip(c)` and the decimal rendering of integers (`str(n)`).
 */
module Text {

  /** The ASCII characters for which Python's `str.isspace()` holds. */
  predicate IsSpace(c: char) {
    c == ' ' || c == '\t' || c == '\n' || c == '\r' || c == '\U{0B}' || c == '\U{0C}'
    || ('\U{1C}' <= c <= '\U{1F}')
  }

  predicate IsDigit(c: char) {
    '0' <= c <= '9'
  }

  predicate IsUpper(c: char) {
    'A' <= c <= 'Z'
  }

  /** Python truthiness of a string: only the empty string is falsy. */
  predicate Truthy(s: string) {
    s != []
  }

  predicate StartsWith(s: string, prefix: string) {
    |prefix| <= |s| && s[..|prefix|] == prefix
  }

  predicate EndsWith(s: string, suffix: string) {
    |suffix| <= |s| && s[|s| - |suffix|..] == suffix
  }

  function LowerChar(c: char): (r: char)
    ensures !IsUpper(r)
    ensures !IsUpper(c) ==> r == c
  {
    if IsUpper(c) then (c as int + 32) as char else c
  }

  /** `s.lower()`, restricted to the ASCII letters. */
  function Lower(s: string): (r: string)
    ensures |r| == |s|
    ensures forall i :: 0 <= i < |r| ==> r[i] == LowerChar(s[i])
  {
    seq(|s|, i requires 0 <= i < |s| => LowerChar(s[i]))
  }

  lemma LowerIdempotent(s: string)
    ensures Lower(Lower(s)) == Lower(s)
  {
  }

  lemma LowerOfLowercase(s: string)
    requires forall i :: 0 <= i < |s| ==> !IsUpper(s[i])
    ensures Lower(s) == s
  {
  }

  lemma LowerKeepsSpaces(s: string)
    ensures forall i :: 0 <= i < |s| ==> (IsSpace(Lower(s)[i]) <==> IsSpace(s[i]))
  {
  }

  /** Number of whitespace characters at the front of `s`. */
  function LeadingSpaces(s: string): (n: nat)
    ensures n <= |s|
    ensures forall i :: 0 <= i < n ==> IsSpace(s[i])
    ensures n < |s| ==> !IsSpace(s[n])
  {
    LeadingFrom(s, 0)
  }

  /** Number of whitespace characters in `s` from position `i` on, up to the first other character. */
  function LeadingFrom(s: string, i: nat): (n: nat)
    requires i <= |s|
    ensures i + n <= |s|
    ensures forall k :: i <= k < i + n ==> IsSpace(s[k])
    ensures i + n < |s| ==> !IsSpace(s[i + n])
    decreases |s| - i
  {
    if i == |s| || !IsSpace(s[i]) then 0 else 1 + LeadingFrom(s, i + 1)
  }

  /** Number of whitespace characters at the back of `s`. */
  function TrailingSpaces(s: string): (n: nat)
    ensures n <= |s|
    ensures forall i :: |s| - n <= i < |s| ==> IsSpace(s[i])
    ensures n < |s| ==> !IsSpace(s[|s| - 1 - n])
  {
    TrailingBefore(s, |s|)
  }

  /** Number of whitespace characters just before position `j` of `s`. */
  function TrailingBefore(s: string, j: nat): (n: nat)
    requires j <= |s|
    ensures n <= j
    ensures forall k :: j - n <= k < j ==> IsSpace(s[k])
    ensures n < j ==> !IsSpace(s[j - 1 - n])
  {
    if j == 0 || !IsSpace(s[j - 1]) then 0 else 1 + TrailingBefore(s, j - 1)
  }

  /** A count of leading whitespace that stops at a non-space character is the count. */
  lemma LeadingSpacesUnique(t: string, n: nat)
    requires n < |t|
    requires forall i :: 0 <= i < n ==> IsSpace(t[i])
    requires !IsSpace(t[n])
    ensures LeadingSpaces(t) == n
  {
  }

  /** A count of trailing whitespace that stops at a non-space character is the count. */
  lemma TrailingSpacesUnique(t: string, n: nat)
    requires n < |t|
    requires forall i :: |t| - n <= i < |t| ==> IsSpace(t[i])
    requires !IsSpace(t[|t| - 1 - n])
    ensures TrailingSpaces(t) == n
  {
  }

  /** `s.strip()`: whitespace removed from both ends. */
  function Strip(s: string): (r: string)
    ensures |r| <= |s|
    ensures r != [] ==> !IsSpace(r[0]) && !IsSpace(r[|r| - 1])
    ensures r == [] <==> forall i :: 0 <= i < |s| ==> IsSpace(s[i])
    ensures r != [] ==> LeadingSpaces(s) + TrailingSpaces(s) < |s|
                        && r == s[LeadingSpaces(s)..|s| - TrailingSpaces(s)]
  {
    var a := LeadingSpaces(s);
    if a == |s| then
      assert s[0..0] == [];
      []
    else
      var b := TrailingSpaces(s);
      assert !IsSpace(s[a]);
      assert b <= |s| - 1 - a;
      var r := s[a..|s| - b];
      assert r[0] == s[a];
      r
  }

  lemma StripIdempotent(s: string)
    ensures Strip(Strip(s)) == Strip(s)
  {
    var r := Strip(s);
    if r != [] {
      assert LeadingSpaces(r) == 0;
      assert TrailingSpaces(r) == 0;
      assert r[0..|r|] == r;
    }
  }

  /** A string that starts and ends with non-whitespace is its own `strip()`. */
  lemma StripOfTrimmed(r: string)
    requires r != [] && !IsSpace(r[0]) && !IsSpace(r[|r| - 1])
    ensures Strip(r) == r
  {
    assert LeadingSpaces(r) == 0;
    assert TrailingSpaces(r) == 0;
    assert r[0..|r|] == r;
  }

  /** A leading whitespace character makes no difference to `strip()`. */
  lemma StripDropsLeadingSpace(t: string)
    requires |t| > 0 && IsSpace(t[0])
    ensures Strip(t) == Strip(t[1..])
  {
    var u := t[1..];
    if forall i :: 0 <= i < |u| ==> IsSpace(u[i]) {
      assert forall i :: 0 <= i < |t| ==> IsSpace(t[i]) by {
        forall i | 0 <= i < |t| ensures IsSpace(t[i]) {
          if i > 0 { assert t[i] == u[i - 1]; }
        }
      }
    } else {
      StripDropsLeadingSpaceSolid(t);
    }
  }

  /** Dropping the first character keeps the trailing whitespace count, unless the rest is all whitespace. */
  lemma TrailingSpacesOfTail(t: string)
    requires |t| > 0
    requires !forall i :: 0 <= i < |t[1..]| ==> IsSpace(t[1..][i])
    ensures TrailingSpaces(t) == TrailingSpaces(t[1..])
  {
    var u := t[1..];
    var b := TrailingSpaces(u);
    assert b < |u|;
    forall i | |t| - b <= i < |t| ensures IsSpace(t[i]) {
      assert t[i] == u[i - 1];
    }
    assert t[|t| - 1 - b] == u[|u| - 1 - b];
    TrailingSpacesUnique(t, b);
  }

  lemma StripDropsLeadingSpaceSolid(t: string)
    requires |t| > 0 && IsSpace(t[0])
    requires !forall i :: 0 <= i < |t[1..]| ==> IsSpace(t[1..][i])
    ensures Strip(t) == Strip(t[1..])
  {
    var u := t[1..];
    LeadingSpacesOfTail(t);
    TrailingSpacesOfTail(t);
    var a := LeadingSpaces(u);
    StripAround(u, a);
    StripAround(t, 1 + a);
    SliceOfTail(t, a, |u| - TrailingSpaces(u));
  }

  /** After a leading whitespace character, the tail has one leading whitespace character fewer. */
  lemma LeadingSpacesOfTail(t: string)
    requires |t| > 0 && IsSpace(t[0])
    requires !forall i :: 0 <= i < |t[1..]| ==> IsSpace(t[1..][i])
    ensures LeadingSpaces(t[1..]) < |t[1..]| && !IsSpace(t[1 + LeadingSpaces(t[1..])])
    ensures LeadingSpaces(t) == 1 + LeadingSpaces(t[1..])
  {
    var u := t[1..];
    var a := LeadingSpaces(u);
    assert a < |u|;
    forall i | 0 <= i < 1 + a ensures IsSpace(t[i]) {
      if i > 0 { assert t[i] == u[i - 1]; }
    }
    assert t[1 + a] == u[a];
    LeadingSpacesUnique(t, 1 + a);
  }

  /** A string with a non-space character at `k` strips to the part between its leading and trailing whitespace. */
  lemma StripAround(s: string, k: nat)
    requires k < |s| && !IsSpace(s[k])
    ensures LeadingSpaces(s) + TrailingSpaces(s) < |s|
    ensures Strip(s) == s[LeadingSpaces(s)..|s| - TrailingSpaces(s)]
  {
    var a := LeadingSpaces(s);
    assert a <= k;
    assert a < |s|;
  }

  /** A slice of the tail is the slice of the whole shifted by one. */
  lemma SliceOfTail<T>(s: seq<T>, i: nat, j: nat)
    requires |s| > 0 && i <= j <= |s| - 1
    ensures s[1..][i..j] == s[1 + i..1 + j]
  {
    var left := s[1..][i..j];
    var right := s[1 + i..1 + j];
    forall k | 0 <= k < |left| ensures left[k] == right[k] {
      assert left[k] == s[1 + i + k];
    }
  }

  /** Whitespace in front of a string makes no difference to `strip()`. */
  lemma {:induction false} StripDropsLeadingWhitespace(pad: string, s: string)
    requires forall i :: 0 <= i < |pad| ==> IsSpace(pad[i])
    ensures Strip(pad + s) == Strip(s)
  {
    if |pad| > 0 {
      var t := pad + s;
      StripDropsLeadingSpace(t);
      assert t[1..] == pad[1..] + s;
      StripDropsLeadingWhitespace(pad[1..], s);
    } else {
      assert pad + s == s;
    }
  }

  /** Stripping a string that ends in a whitespace-free word keeps that word at the end. */
  lemma StripKeepsSolidSuffix(s: string, word: string)
    requires word != []
    requires forall i :: 0 <= i < |word| ==> !IsSpace(word[i])
    ensures EndsWith(Strip(s + word), word)
  {
    var t := s + word;
    assert t[|t| - 1] == word[|word| - 1];
    assert TrailingSpaces(t) == 0;
    assert t[|s|] == word[0];
    var a := LeadingSpaces(t);
    assert a <= |s|;
    assert Strip(t) == t[a..];
    assert Strip(t)[|Strip(t)| - |word|..] == word;
  }

  /** `s.split(c)[0]`: the text before the first `c`, or all of `s`. */
  function BeforeFirst(s: string, c: char): (r: string)
    ensures c !in r
    ensures |r| <= |s| && r == s[..|r|]
    ensures |r| < |s| ==> s[|r|] == c
  {
    if |s| == 0 || s[0] == c then [] else [s[0]] + BeforeFirst(s[1..], c)
  }

  /** `s.split(c)[-1]`: the text after the last `c`, or all of `s`. */
  function AfterLast(s: string, c: char): (r: string)
    ensures c !in r
    ensures |r| <= |s| && r == s[|s| - |r|..]
    ensures |r| < |s| ==> s[|s| - |r| - 1] == c
  {
    if |s| == 0 || s[|s| - 1] == c then []
    else AfterLast(s[..|s| - 1], c) + [s[|s| - 1]]
  }

  /** The text after the last separator, when the separator does not occur after it. */
  lemma {:induction false} AfterLastOfJoin(a: string, c: char, b: string)
    requires c !in b
    ensures AfterLast(a + [c] + b, c) == b
  {
    var t := a + [c] + b;
    if |b| > 0 {
      assert t[..|t| - 1] == a + [c] + b[..|b| - 1];
      AfterLastOfJoin(a, c, b[..|b| - 1]);
      assert b == b[..|b| - 1] + [b[|b| - 1]];
    } else {
      assert t[|t| - 1] == c;
    }
  }

  /** Without the separator, the whole text is what follows its last occurrence. */
  lemma {:induction false} AfterLastAbsent(s: string, c: char)
    requires c !in s
    ensures AfterLast(s, c) == s
  {
    if |s| > 0 {
      AfterLastAbsent(s[..|s| - 1], c);
      assert s == s[..|s| - 1] + [s[|s| - 1]];
    }
  }

  /** `s.rstrip(c)` for a single character `c`. */
  function RStrip(s: string, c: char): (r: string)
    ensures |r| <= |s| && r == s[..|r|]
    ensures r != [] ==> r[|r| - 1] != c
    ensures forall i :: |r| <= i < |s| ==> s[i] == c
  {
    if |s| == 0 || s[|s| - 1] != c then s else RStrip(s[..|s| - 1], c)
  }

  function DigitChar(d: nat): (c: char)
    requires d < 10
    ensures IsDigit(c)
  {
    ('0' as int + d) as char
  }

  function DigitValue(c: char): (d: nat)
    requires IsDigit(c)
    ensures d < 10 && DigitChar(d) == c
  {
    c as int - '0' as int
  }

  /** `str(n)` for a natural number: its decimal digits, no leading zeros. */
  function NatToString(n: nat): (r: string)
    ensures |r| >= 1
    ensures forall i :: 0 <= i < |r| ==> IsDigit(r[i])
    ensures r[0] == '0' ==> n == 0
  {
    if n < 10 then [DigitChar(n)] else NatToString(n / 10) + [DigitChar(n % 10)]
  }

  /** The value of a string of decimal digits (`int(s)` for such a string). */
  function ParseDigits(s: string): nat
    requires forall i :: 0 <= i < |s| ==> IsDigit(s[i])
  {
    if |s| == 0 then 0 else ParseDigits(s[..|s| - 1]) * 10 + DigitValue(s[|s| - 1])
  }

  /** Decimal rendering and parsing are inverse: `int(str(n)) == n`. */
  lemma {:induction false} ParseNatToString(n: nat)
    ensures ParseDigits(NatToString(n)) == n
  {
    if n >= 10 {
      var p := NatToString(n / 10);
      var s := p + [DigitChar(n % 10)];
      assert s[..|s| - 1] == p;
      ParseNatToString(n / 10);
    }
  }

  lemma NatToStringInjective(m: nat, n: nat)
    requires NatToString(m) == NatToString(n)
    ensures m == n
  {
    ParseNatToString(m);
    ParseNatToString(n);
  }

  /** `str(i)` for any integer. */
  function IntToString(i: int): (r: string)
    ensures |r| >= 1
    ensures i < 0 <==> r[0] == '-'
  {
    if i < 0 then "-" + NatToString(-i) else NatToString(i)
  }
}
