/**
 * The pieces of the C library the session code leans on for text: C strings
 * that end at their first NUL byte (`strdup`, `strlen`, `strcat`, `strcmp`),
 * decimal formatting (`%d`, `%llu`) and decimal parsing (`strtoul`,
 * `strtoull`). Bytes are modelled as `char`, one `char` per byte; every
 * constant the session code uses is ASCII.
 */
module CText {

  /** Largest `unsigned long` (and `unsigned long long`) on an LP64 target. */
  const ULongMax: nat := 0xFFFF_FFFF_FFFF_FFFF

  predicate NulFree(s: string) {
    forall i :: 0 <= i < |s| ==> s[i] != '\0'
  }

  /** The C string a buffer holds: everything before its first NUL byte. */
  function CString(s: string): (r: string)
    ensures r <= s && NulFree(r)
    ensures |r| < |s| ==> s[|r|] == '\0'
    ensures NulFree(s) ==> r == s
  {
    if s == [] || s[0] == '\0' then [] else [s[0]] + CString(s[1..])
  }

  predicate IsDigit(c: char) {
    '0' <= c <= '9'
  }

  predicate AllDigits(s: string) {
    forall i :: 0 <= i < |s| ==> IsDigit(s[i])
  }

  /** `isspace` in the C locale. */
  predicate IsSpace(c: char) {
    c == ' ' || c == '\t' || c == '\n' || c == '\r' || c == 11 as char || c == 12 as char
  }

  function DigitChar(d: nat): (c: char)
    requires d < 10
    ensures IsDigit(c) && c as int - '0' as int == d
  {
    ('0' as int + d) as char
  }

  /** The decimal digits `printf` writes for `n`, most significant first, without leading zeros. */
  function Decimal(n: nat): (r: string)
    ensures |r| >= 1 && AllDigits(r)
    ensures n > 0 ==> r[0] != '0'
    decreases n
  {
    if n < 10 then [DigitChar(n)] else Decimal(n / 10) + [DigitChar(n % 10)]
  }

  /** `%d` of a signed value. */
  function FormatInt(i: int): string {
    if i < 0 then "-" + Decimal(-i) else Decimal(i)
  }

  /** The value of a `size_t` after the cast `(int)` on a 32-bit two's-complement `int`. */
  function Int32(n: nat): (r: int)
    ensures -0x8000_0000 <= r < 0x8000_0000
    ensures n < 0x8000_0000 ==> r == n
  {
    var m := n % 0x1_0000_0000;
    if m < 0x8000_0000 then m else m - 0x1_0000_0000
  }

  /** Wrap-around of an `unsigned long long` counter. */
  function WrapU64(x: int): (r: nat)
    ensures r <= ULongMax
    ensures 0 <= x <= ULongMax ==> r == x
  {
    x % (ULongMax + 1)
  }

  /** The number a string of decimal digits denotes. */
  function DigitsValue(ds: string): nat
    requires AllDigits(ds)
  {
    if ds == [] then 0 else DigitsValue(ds[..|ds| - 1]) * 10 + (ds[|ds| - 1] as int - '0' as int)
  }

  function SkipSpace(s: string): (r: string)
    ensures |r| <= |s| && r == s[|s| - |r|..]
    ensures r == [] || !IsSpace(r[0])
  {
    if s != [] && IsSpace(s[0]) then SkipSpace(s[1..]) else s
  }

  /** The longest run of digits at the head of `s`. */
  function LeadingDigits(s: string): (r: string)
    ensures r <= s && AllDigits(r)
    ensures |r| < |s| ==> !IsDigit(s[|r|])
  {
    if s != [] && IsDigit(s[0]) then [s[0]] + LeadingDigits(s[1..]) else []
  }

  /**
   * `strtoul(s, NULL, 10)` with a 64-bit `unsigned long`: leading white space
   * is skipped, one optional sign is accepted, then the longest run of digits
   * is converted; no digits gives 0, a value past `ULONG_MAX` gives
   * `ULONG_MAX`, and a minus sign negates in unsigned arithmetic.
   */
  function Strtoul(s: string): (r: nat)
    ensures r <= ULongMax
  {
    var t := SkipSpace(s);
    var negative := t != [] && t[0] == '-';
    var u := if t != [] && (t[0] == '+' || t[0] == '-') then t[1..] else t;
    var magnitude := DigitsValue(LeadingDigits(u));
    if magnitude > ULongMax then ULongMax
    else if negative then WrapU64(-(magnitude as int))
    else magnitude
  }

  lemma {:induction false} DigitsValueOfDecimal(n: nat)
    ensures DigitsValue(Decimal(n)) == n
    decreases n
  {
    if n >= 10 {
      var ds := Decimal(n);
      assert ds[..|ds| - 1] == Decimal(n / 10);
      DigitsValueOfDecimal(n / 10);
    }
  }

  lemma {:induction false} LeadingDigitsOfDigits(d: string, s: string)
    requires AllDigits(d)
    requires s == [] || !IsDigit(s[0])
    ensures LeadingDigits(d + s) == d
    decreases |d|
  {
    if d == [] {
      assert d + s == s;
    } else {
      assert (d + s)[1..] == d[1..] + s;
      LeadingDigitsOfDigits(d[1..], s);
    }
  }

  /** Parsing what `%llu` (or `%d` of a non-negative value) printed gives the value back. */
  lemma StrtoulOfDecimal(n: nat, s: string)
    requires n <= ULongMax
    requires s == [] || !IsDigit(s[0])
    ensures Strtoul(Decimal(n) + s) == n
  {
    var d := Decimal(n);
    assert (d + s)[0] == d[0];
    assert SkipSpace(d + s) == d + s;
    LeadingDigitsOfDigits(d, s);
    DigitsValueOfDecimal(n);
  }

  predicate NoNonzeroDigit(s: string) {
    forall i :: 0 <= i < |s| && IsDigit(s[i]) ==> s[i] == '0'
  }

  lemma {:induction false} ZeroDigitsValue(ds: string)
    requires AllDigits(ds) && NoNonzeroDigit(ds)
    ensures DigitsValue(ds) == 0
    decreases |ds|
  {
    if ds != [] {
      ZeroDigitsValue(ds[..|ds| - 1]);
    }
  }

  lemma NoNonzeroDigitSuffix(s: string, k: nat)
    requires k <= |s| && NoNonzeroDigit(s)
    ensures NoNonzeroDigit(s[k..])
  {
    assert forall i :: 0 <= i < |s| - k ==> s[k..][i] == s[k + i];
  }

  /** A text without a nonzero digit (no digits at all, or only zeros) converts to 0. */
  lemma StrtoulWithoutValue(s: string)
    requires NoNonzeroDigit(s)
    ensures Strtoul(s) == 0
  {
    var t := SkipSpace(s);
    NoNonzeroDigitSuffix(s, |s| - |t|);
    var u := if t != [] && (t[0] == '+' || t[0] == '-') then t[1..] else t;
    if u != t {
      NoNonzeroDigitSuffix(t, 1);
    }
    var ds := LeadingDigits(u);
    assert forall i :: 0 <= i < |ds| ==> ds[i] == u[i];
    ZeroDigitsValue(ds);
  }
}
