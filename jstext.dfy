/** The two string operations the menu service relies on: the validator's `trim()`
    sanitizer, a regular-expression trim of `\s` characters (the whitespace set that
    `String.prototype.trim` also removes), and `parseInt` with no radix (used on the
    `:id` path segment). */
module JsText {
  import opened Wrappers

  /** WhiteSpace and LineTerminator code points of ECMAScript (the `\s` class), the
      set removed by `trim` and skipped by `parseInt`. */
  predicate IsWhitespace(c: char) {
    c == '\t' || c == '\n' || c == '\U{000B}' || c == '\U{000C}' || c == '\r' || c == ' '
    || c == '\U{00A0}' || c == '\U{1680}' || ('\U{2000}' <= c <= '\U{200A}')
    || c == '\U{2028}' || c == '\U{2029}' || c == '\U{202F}' || c == '\U{205F}'
    || c == '\U{3000}' || c == '\U{FEFF}'
  }

  predicate AllWhitespace(s: string) {
    forall i :: 0 <= i < |s| ==> IsWhitespace(s[i])
  }

  /** The first position at or after `k` that does not hold whitespace. */
  function SkipWhitespace(s: string, k: nat): (n: nat)
    requires k <= |s|
    ensures k <= n <= |s|
    ensures forall i :: k <= i < n ==> IsWhitespace(s[i])
    ensures n < |s| ==> !IsWhitespace(s[n])
    decreases |s| - k
  {
    if k == |s| || !IsWhitespace(s[k]) then k else SkipWhitespace(s, k + 1)
  }

  /** The smallest cut point in `lo..e` after which `s[..e]` holds only whitespace. */
  function SkipWhitespaceBack(s: string, lo: nat, e: nat): (n: nat)
    requires lo <= e <= |s|
    ensures lo <= n <= e
    ensures forall i :: n <= i < e ==> IsWhitespace(s[i])
    ensures lo < n ==> !IsWhitespace(s[n - 1])
    decreases e
  {
    if e == lo || !IsWhitespace(s[e - 1]) then e else SkipWhitespaceBack(s, lo, e - 1)
  }

  /** `s.trim()`: `s` with its leading and trailing whitespace removed. The result is
      the window of `s` that starts at the first non-whitespace character; it neither
      starts nor ends with whitespace, and everything outside it is whitespace. */
  function Trim(s: string): (t: string)
    ensures |t| <= |s|
    ensures t != [] ==> !IsWhitespace(t[0]) && !IsWhitespace(t[|t| - 1])
    ensures SkipWhitespace(s, 0) + |t| <= |s|
    ensures t == s[SkipWhitespace(s, 0)..SkipWhitespace(s, 0) + |t|]
    ensures forall i :: 0 <= i < |s| && !(SkipWhitespace(s, 0) <= i < SkipWhitespace(s, 0) + |t|)
                        ==> IsWhitespace(s[i])
  {
    var a := SkipWhitespace(s, 0);
    var b := SkipWhitespaceBack(s, a, |s|);
    s[a..b]
  }

  /** A string that neither starts nor ends with whitespace is its own trim. */
  lemma TrimKeeps(s: string)
    requires s != [] ==> !IsWhitespace(s[0]) && !IsWhitespace(s[|s| - 1])
    ensures Trim(s) == s
  {
    if s != [] {
      assert SkipWhitespace(s, 0) == 0;
      assert SkipWhitespaceBack(s, 0, |s|) == |s|;
    }
  }

  /** Trimming twice is trimming once. */
  lemma TrimIdempotent(s: string)
    ensures Trim(Trim(s)) == Trim(s)
  {
    TrimKeeps(Trim(s));
  }

  /** A string whose last character and the character `n - 1` places before it are
      not whitespace trims to at least `n` characters. */
  lemma TrimAtLeast(s: string, n: nat)
    requires 1 <= n <= |s|
    requires !IsWhitespace(s[|s| - n]) && !IsWhitespace(s[|s| - 1])
    ensures |Trim(s)| >= n
  {
    var a := SkipWhitespace(s, 0);
    assert a <= |s| - n;
    assert a + |Trim(s)| == |s|;
  }

  /** A string of whitespace alone trims to the empty string. */
  lemma TrimAllWhitespace(s: string)
    requires AllWhitespace(s)
    ensures Trim(s) == []
  {
    assert SkipWhitespace(s, 0) == |s|;
  }

  /** Value of a hexadecimal digit character, or -1 for any other character. */
  function DigitValue(c: char): (v: int)
    ensures -1 <= v < 16
    ensures '0' <= c <= '9' <==> 0 <= v < 10
  {
    if '0' <= c <= '9' then c as int - '0' as int
    else if 'a' <= c <= 'f' then c as int - 'a' as int + 10
    else if 'A' <= c <= 'F' then c as int - 'A' as int + 10
    else -1
  }

  predicate IsDigit(c: char, radix: nat) {
    0 <= DigitValue(c) < radix
  }

  predicate AllDigits(ds: string, radix: nat) {
    forall i :: 0 <= i < |ds| ==> IsDigit(ds[i], radix)
  }

  /** The end of the longest run of radix-`radix` digits that starts at `k`. */
  function DigitRun(s: string, k: nat, radix: nat): (e: nat)
    requires k <= |s|
    ensures k <= e <= |s|
    ensures forall i :: k <= i < e ==> IsDigit(s[i], radix)
    ensures e < |s| ==> !IsDigit(s[e], radix)
    decreases |s| - k
  {
    if k == |s| || !IsDigit(s[k], radix) then k else DigitRun(s, k + 1, radix)
  }

  /** The number a string of digits denotes in the given radix, most significant first. */
  function ValueOf(ds: string, radix: nat): nat
    requires AllDigits(ds, radix)
  {
    if ds == [] then 0 else ValueOf(ds[..|ds| - 1], radix) * radix + DigitValue(ds[|ds| - 1])
  }

  /** The unsigned part of `parseInt` from position `j` on: a `0x`/`0X` prefix selects
      radix 16, anything else radix 10; the longest run of digits that follows is read,
      and an empty run gives `None`. */
  function ParseUnsigned(s: string, j: nat): (r: Option<nat>)
    requires j <= |s|
  {
    var hex := j + 2 <= |s| && s[j] == '0' && (s[j + 1] == 'x' || s[j + 1] == 'X');
    var radix := if hex then 16 else 10;
    var k := if hex then j + 2 else j;
    var e := DigitRun(s, k, radix);
    if e == k then None else Some(ValueOf(s[k..e], radix))
  }

  /** `parseInt(s)` with no radix: skip leading whitespace, take an optional sign, then
      read the unsigned part. No digit at all gives `NaN` (`None`). */
  function ParseInt(s: string): (r: Option<int>)
    ensures AllWhitespace(s) ==> r.None?
    ensures r.Some? && r.value < 0 ==> SkipWhitespace(s, 0) < |s| && s[SkipWhitespace(s, 0)] == '-'
  {
    var i := SkipWhitespace(s, 0);
    var sign := if i < |s| && s[i] == '-' then -1 else 1;
    var j := if i < |s| && (s[i] == '-' || s[i] == '+') then i + 1 else i;
    match ParseUnsigned(s, j)
    case None => None
    case Some(v) => Some(sign * v)
  }

  /** The decimal digits of `n`, without leading zeros. */
  function NatDigits(n: nat): (ds: string)
    ensures |ds| >= 1
    ensures AllDigits(ds, 10)
    decreases n
  {
    var d := (('0' as int) + n % 10) as char;
    if n < 10 then [d] else NatDigits(n / 10) + [d]
  }

  /** The base-10 rendering of `n`, with a minus sign when negative. */
  function Decimal(n: int): string {
    if n < 0 then "-" + NatDigits(-n) else NatDigits(n)
  }

  lemma {:induction false} ValueOfNatDigits(n: nat)
    ensures ValueOf(NatDigits(n), 10) == n
    decreases n
  {
    var ds := NatDigits(n);
    if n >= 10 {
      assert ds[..|ds| - 1] == NatDigits(n / 10);
      ValueOfNatDigits(n / 10);
    }
  }

  /** Digits in a slice are digits of the string at the matching positions. */
  lemma AllDigitsSlice(s: string, j: nat, e: nat, radix: nat)
    requires j <= e <= |s| && AllDigits(s[j..e], radix)
    ensures forall i :: j <= i < e ==> IsDigit(s[i], radix)
  {
    forall i | j <= i < e ensures IsDigit(s[i], radix) {
      assert s[j..e][i - j] == s[i];
    }
  }

  /** A run of digits from `j` to `e` that is not followed by another digit is the run
      `DigitRun` finds. */
  lemma DigitRunExact(s: string, j: nat, e: nat, radix: nat)
    requires j <= e <= |s|
    requires forall i :: j <= i < e ==> IsDigit(s[i], radix)
    requires e < |s| ==> !IsDigit(s[e], radix)
    ensures DigitRun(s, j, radix) == e
  {
  }

  /** Decimal digits at `j` that are not followed by another digit, and that do not
      form the prefix `0x`, are read in radix 10 up to their end. */
  lemma ParseUnsignedDecimal(s: string, j: nat, ds: string)
    requires j + |ds| <= |s| && s[j..j + |ds|] == ds
    requires |ds| >= 1 && AllDigits(ds, 10)
    requires j + |ds| < |s| ==> !IsDigit(s[j + |ds|], 10)
    requires j + 1 < |s| ==> s[j + 1] != 'x' && s[j + 1] != 'X'
    ensures ParseUnsigned(s, j) == Some(ValueOf(ds, 10))
  {
    var e := j + |ds|;
    AllDigitsSlice(s, j, e, 10);
    DigitRunExact(s, j, e, 10);
    assert !(j + 2 <= |s| && s[j] == '0' && (s[j + 1] == 'x' || s[j + 1] == 'X'));
    assert ParseUnsigned(s, j) == Some(ValueOf(s[j..e], 10));
  }

  /** The decimal digits of `m` at position `j`, followed by a character that cannot
      continue the number, are read back as `m`. */
  lemma ParseUnsignedNat(s: string, j: nat, m: nat, rest: string)
    requires j <= |s| && s[j..] == NatDigits(m) + rest
    requires rest != [] ==> !IsDigit(rest[0], 10) && rest[0] != 'x' && rest[0] != 'X'
    ensures ParseUnsigned(s, j) == Some(m)
  {
    var ds := NatDigits(m);
    assert s[j..j + |ds|] == ds by {
      assert s[j..j + |ds|] == s[j..][..|ds|];
    }
    if j + |ds| < |s| {
      assert s[j + |ds|] == s[j..][|ds|] == rest[0];
    }
    if j + 1 < |s| {
      if |ds| >= 2 {
        assert s[j + 1] == ds[1] && IsDigit(ds[1], 10);
      } else {
        assert s[j + 1] == s[j..][1] == rest[0];
      }
    }
    ParseUnsignedDecimal(s, j, ds);
    ValueOfNatDigits(m);
  }

  /** After a leading digit `parseInt` reads the unsigned part from the start; after a
      leading minus sign it negates the unsigned part that follows. */
  lemma ParseIntLeading(s: string)
    requires s != [] && (IsDigit(s[0], 10) || s[0] == '-')
    ensures SkipWhitespace(s, 0) == 0
    ensures s[0] != '-' ==> ParseInt(s) == ParseUnsigned(s, 0)
    ensures s[0] == '-' ==> ParseInt(s) == match ParseUnsigned(s, 1)
                                          case None => None
                                          case Some(v) => Some(-(v as int))
  {
    assert !IsWhitespace(s[0]);
    assert SkipWhitespace(s, 0) == 0;
  }

  /** `parseInt` reads back the digits of a non-negative number. */
  lemma ParseIntNonNegative(m: nat, rest: string)
    requires rest != [] ==> !IsDigit(rest[0], 10) && rest[0] != 'x' && rest[0] != 'X'
    ensures ParseInt(NatDigits(m) + rest) == Some(m)
  {
    var ds := NatDigits(m);
    var s := ds + rest;
    assert s[0..] == s;
    ParseUnsignedNat(s, 0, m, rest);
    assert s[0] == ds[0] && IsDigit(s[0], 10);
    ParseIntLeading(s);
  }

  /** `parseInt` reads back a minus sign followed by the digits of a positive number. */
  lemma ParseIntNegative(m: nat, rest: string)
    requires m > 0
    requires rest != [] ==> !IsDigit(rest[0], 10) && rest[0] != 'x' && rest[0] != 'X'
    ensures ParseInt("-" + (NatDigits(m) + rest)) == Some(-(m as int))
  {
    var s := "-" + (NatDigits(m) + rest);
    assert s[1..] == NatDigits(m) + rest;
    ParseUnsignedNat(s, 1, m, rest);
    ParseIntLeading(s);
  }

  /** A negative number's rendering is a minus sign followed by the digits of its magnitude. */
  lemma DecimalNegative(n: int, rest: string)
    requires n < 0
    ensures Decimal(n) + rest == "-" + (NatDigits(-n) + rest)
  {
  }

  /** `parseInt` reads back what `Decimal` writes, also when the segment goes on with a
      character that cannot continue the number. */
  lemma ParseIntDecimal(n: int, rest: string)
    requires rest != [] ==> !IsDigit(rest[0], 10) && rest[0] != 'x' && rest[0] != 'X'
    ensures ParseInt(Decimal(n) + rest) == Some(n)
  {
    if n >= 0 {
      ParseIntNonNegative(n, rest);
    } else {
      DecimalNegative(n, rest);
      ParseIntNegative(-n, rest);
    }
  }

  /** A segment with no decimal digit in it, such as `abc`, parses to `NaN`. */
  lemma ParseIntNoDigits(s: string)
    requires forall i :: 0 <= i < |s| ==> !('0' <= s[i] <= '9')
    ensures ParseInt(s) == None
  {
    var i := SkipWhitespace(s, 0);
    var j := if i < |s| && (s[i] == '-' || s[i] == '+') then i + 1 else i;
    assert j < |s| ==> !IsDigit(s[j], 10);
    assert DigitRun(s, j, 10) == j;
  }
}
