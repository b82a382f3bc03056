/** The C library behaviour the OTPP core depends on, stated over strings
    (one char stands for one octet): the string a NUL-terminated buffer
    denotes, strtok-style splitting on one delimiter, base-10 strtol on a
    64-bit long, the conversion of a long to uint32_t, and the decimal
    rendering of an unsigned number (itoa2). */
module CString {

  datatype Option<+T> = None | Some(value: T)

  const NUL: char := '\0'
  const LONG_MAX: int := 0x7FFF_FFFF_FFFF_FFFF
  const LONG_MIN: int := -0x8000_0000_0000_0000
  const UINT32_MOD: int := 0x1_0000_0000

  // ---------------------------------------------------------------------
  // NUL-terminated strings

  /** The string a NUL-terminated buffer holds: everything before the first NUL. */
  function CStr(s: string): (r: string)
    ensures NUL !in r
    ensures |r| <= |s|
    ensures |r| < |s| ==> s[|r|] == NUL
  {
    if s == [] || s[0] == NUL then [] else [s[0]] + CStr(s[1..])
  }

  /** The C string is the buffer's prefix up to that first NUL. */
  lemma {:induction false} CStrIsPrefix(s: string)
    ensures CStr(s) == s[..|CStr(s)|]
  {
    if s != [] && s[0] != NUL {
      CStrIsPrefix(s[1..]);
      assert s[..|CStr(s)|] == [s[0]] + s[1..][..|CStr(s[1..])|];
    }
  }

  lemma {:induction false} CStrAppend(a: string, b: string)
    ensures NUL !in a ==> CStr(a + b) == a + CStr(b)
    ensures NUL in a ==> CStr(a + b) == CStr(a)
  {
    if a == [] {
      assert a + b == b;
    } else {
      assert (a + b)[1..] == a[1..] + b;
      if a[0] != NUL {
        assert NUL in a ==> NUL in a[1..];
        CStrAppend(a[1..], b);
        assert CStr(a + b) == [a[0]] + CStr(a[1..] + b);
        assert NUL !in a ==> a == [a[0]] + a[1..];
      }
    }
  }

  // ---------------------------------------------------------------------
  // strtok with a single delimiter

  /** Length of the run of non-delimiters that starts s. */
  function TokenLen(s: string, d: char): (k: nat)
    ensures k <= |s| && d !in s[..k]
    ensures k < |s| ==> s[k] == d
  {
    if s == [] || s[0] == d then 0
    else
      var k := 1 + TokenLen(s[1..], d);
      assert s[..k] == [s[0]] + s[1..][..k - 1];
      k
  }

  /** The tokens successive strtok calls return: strtok skips any run of
      delimiters and then takes the longest run of other characters, so a
      token is never empty. */
  function Split(s: string, d: char): (r: seq<string>)
    ensures |r| <= |s|
    ensures forall i :: 0 <= i < |r| ==> r[i] != [] && d !in r[i] && |r[i]| <= |s|
    decreases |s|
  {
    if s == [] then []
    else if s[0] == d then Split(s[1..], d)
    else
      var k := TokenLen(s, d);
      [s[..k]] + Split(s[k..], d)
  }

  /** The tokens ts written out with one delimiter between neighbours. */
  function Join(ts: seq<string>, d: char): string
  {
    if ts == [] then []
    else if |ts| == 1 then ts[0]
    else ts[0] + [d] + Join(ts[1..], d)
  }

  lemma {:induction false} TokenLenAppend(a: string, b: string, d: char)
    ensures TokenLen(a + [d] + b, d) == TokenLen(a, d)
  {
    if a != [] && a[0] != d {
      assert (a + [d] + b)[1..] == a[1..] + [d] + b;
      TokenLenAppend(a[1..], b, d);
    }
  }

  /** A delimiter separates: splitting a + d + b gives the tokens of a
      followed by the tokens of b. */
  lemma {:induction false} SplitAppend(a: string, b: string, d: char)
    ensures Split(a + [d] + b, d) == Split(a, d) + Split(b, d)
    decreases |a|
  {
    var s := a + [d] + b;
    if a == [] {
      assert s == [d] + b && s[1..] == b;
    } else if a[0] == d {
      assert s[1..] == a[1..] + [d] + b;
      SplitAppend(a[1..], b, d);
    } else {
      var k := TokenLen(a, d);
      TokenLenAppend(a, b, d);
      assert s[..k] == a[..k];
      assert s[k..] == a[k..] + [d] + b;
      SplitAppend(a[k..], b, d);
    }
  }

  /** A delimiter-free non-empty string is a single token. */
  lemma SplitSingle(t: string, d: char)
    requires t != [] && d !in t
    ensures Split(t, d) == [t]
  {
    var k := TokenLen(t, d);
    assert k == |t|;
    assert t[..k] == t && t[k..] == [];
  }

  /** Three tokens joined by single delimiters split back into themselves. */
  lemma SplitThree(a: string, b: string, c: string, d: char)
    requires a != [] && d !in a && b != [] && d !in b && c != [] && d !in c
    ensures Split(a + [d] + (b + [d] + c), d) == [a, b, c]
  {
    SplitPair(b, c, d);
    SplitSingle(a, d);
    SplitAppend(a, b + [d] + c, d);
  }

  /** Splitting undoes joining, for tokens strtok could have returned. */
  lemma SplitPair(a: string, b: string, d: char)
    requires a != [] && d !in a && b != [] && d !in b
    ensures Split(a + [d] + b, d) == [a, b]
  {
    SplitAppend(a, b, d);
    SplitSingle(a, d);
    SplitSingle(b, d);
  }

  lemma {:induction false} SplitJoin(ts: seq<string>, d: char)
    requires forall i :: 0 <= i < |ts| ==> ts[i] != [] && d !in ts[i]
    ensures Split(Join(ts, d), d) == ts
  {
    if |ts| == 1 {
      SplitSingle(ts[0], d);
    } else if |ts| > 1 {
      SplitJoin(ts[1..], d);
      SplitAppend(ts[0], Join(ts[1..], d), d);
      SplitSingle(ts[0], d);
    }
  }

  /** Splitting yields no token exactly when the string holds only delimiters. */
  lemma {:induction false} SplitEmptyIff(s: string, d: char)
    ensures Split(s, d) == [] <==> forall i :: 0 <= i < |s| ==> s[i] == d
  {
    if s != [] && s[0] == d {
      SplitEmptyIff(s[1..], d);
      assert forall i :: 1 <= i < |s| ==> s[i] == s[1..][i - 1];
    }
  }

  /** A string with any character other than the delimiter has a token. */
  lemma SplitHasToken(s: string, d: char, i: nat)
    requires i < |s| && s[i] != d
    ensures Split(s, d) != []
  {
    SplitEmptyIff(s, d);
  }

  /** A string ending in a non-delimiter c has a last token, and it ends in c. */
  lemma {:induction false} SplitLastChar(s: string, c: char, d: char)
    requires c != d
    ensures var r := Split(s + [c], d); r != [] && r[|r| - 1][|r[|r| - 1]| - 1] == c
    decreases |s|
  {
    var t := s + [c];
    if s == [] {
      SplitSingle([c], d);
    } else if s[0] == d {
      assert Split(t, d) == Split(s[1..] + [c], d) by {
        assert t[1..] == s[1..] + [c];
      }
      SplitLastChar(s[1..], c, d);
    } else {
      var k := TokenLen(t, d);
      if k == |t| {
        assert Split(t, d) == [t] by {
          assert t[k..] == [];
          assert t[..k] == t;
        }
      } else {
        assert Split(t, d) == [t[..k]] + Split(s[k..] + [c], d) by {
          assert t[k..] == s[k..] + [c];
        }
        SplitLastChar(s[k..], c, d);
      }
    }
  }

  predicate EndsIn(t: string, c: char)
  {
    t != [] && t[|t| - 1] == c
  }

  /** The same, for a string given whole. */
  lemma SplitEndsIn(s: string, c: char, d: char)
    requires c != d && EndsIn(s, c)
    ensures Split(s, d) != [] && EndsIn(Split(s, d)[|Split(s, d)| - 1], c)
  {
    var body := s[..|s| - 1];
    assert body + [c] == s;
    SplitLastChar(body, c, d);
  }

  /** A character other than the delimiter appears in the joined string only
      if some token holds it. */
  lemma {:induction false} JoinExcludes(ts: seq<string>, d: char, c: char)
    requires c != d
    requires forall i :: 0 <= i < |ts| ==> c !in ts[i]
    ensures c !in Join(ts, d)
  {
    if |ts| > 1 {
      JoinExcludes(ts[1..], d, c);
    }
  }

  /** Appending c to a joined string appends it to the last token. */
  lemma {:induction false} JoinAppendLast(ts: seq<string>, d: char, c: char)
    requires ts != []
    ensures Join(ts, d) + [c] == Join(ts[..|ts| - 1] + [ts[|ts| - 1] + [c]], d)
  {
    var us := ts[..|ts| - 1] + [ts[|ts| - 1] + [c]];
    if |ts| > 1 {
      JoinAppendLast(ts[1..], d, c);
      assert us[1..] == ts[1..][..|ts[1..]| - 1] + [ts[1..][|ts[1..]| - 1] + [c]];
    }
  }

  // ---------------------------------------------------------------------
  // strtol(s, NULL, 10), long being 64 bits wide

  /** isspace in the C locale: space, \t, \n, \v, \f and \r. */
  predicate IsSpace(c: char)
  {
    c == ' ' || '\t' <= c <= '\r'
  }

  predicate IsDigit(c: char)
  {
    '0' <= c <= '9'
  }

  predicate NoDigits(s: string)
  {
    forall i :: 0 <= i < |s| ==> !IsDigit(s[i])
  }

  function SpaceSpan(s: string): (k: nat)
    ensures k <= |s|
    ensures k < |s| ==> !IsSpace(s[k])
  {
    if s == [] || !IsSpace(s[0]) then 0 else 1 + SpaceSpan(s[1..])
  }

  function DigitSpan(s: string): (k: nat)
    ensures k <= |s|
    ensures forall i :: 0 <= i < k ==> IsDigit(s[i])
    ensures k < |s| ==> !IsDigit(s[k])
  {
    if s == [] || !IsDigit(s[0]) then 0 else 1 + DigitSpan(s[1..])
  }

  function DigitValue(c: char): (v: nat)
    requires IsDigit(c)
    ensures v < 10
  {
    c as int - '0' as int
  }

  /** The number a string of decimal digits denotes. */
  function DigitsValue(ds: string): nat
    requires forall i :: 0 <= i < |ds| ==> IsDigit(ds[i])
  {
    if ds == [] then 0
    else DigitsValue(ds[..|ds| - 1]) * 10 + DigitValue(ds[|ds| - 1])
  }

  /** strtol(s, NULL, 10): leading white space and one sign are skipped, the
      longest run of digits that follows is read, and a value outside the
      range of long saturates at LONG_MAX or LONG_MIN. No digits gives 0. */
  function Strtol(s: string): (r: int)
    ensures LONG_MIN <= r <= LONG_MAX
  {
    var t := s[SpaceSpan(s)..];
    var negative := t != [] && t[0] == '-';
    var u := if t != [] && (t[0] == '-' || t[0] == '+') then t[1..] else t;
    var v: int := DigitsValue(u[..DigitSpan(u)]);
    if negative then (if v > -LONG_MIN then LONG_MIN else -v)
    else (if v > LONG_MAX then LONG_MAX else v)
  }

  /** The C conversion of an integer to uint32_t: reduction modulo 2^32. */
  function U32(x: int): (r: nat)
    ensures r < UINT32_MOD
    ensures 0 <= x < UINT32_MOD ==> r == x
    ensures (x - r) % UINT32_MOD == 0
  {
    x % UINT32_MOD
  }

  // ---------------------------------------------------------------------
  // itoa2: decimal rendering

  function DigitChar(d: nat): (c: char)
    requires d < 10
    ensures IsDigit(c)
  {
    ('0' as int + d) as char
  }

  /** The decimal numeral of n, without leading zeros. */
  function Decimal(n: nat): (r: string)
    ensures r != [] && (forall i :: 0 <= i < |r| ==> IsDigit(r[i]))
    ensures r[0] == '0' ==> n == 0
  {
    if n < 10 then [DigitChar(n)] else Decimal(n / 10) + [DigitChar(n % 10)]
  }

  lemma {:induction false} DecimalValue(n: nat)
    ensures DigitsValue(Decimal(n)) == n
  {
    if n >= 10 {
      var r := Decimal(n);
      assert r[..|r| - 1] == Decimal(n / 10);
      DecimalValue(n / 10);
    }
  }

  lemma {:induction false} DigitSpanPrefix(ds: string, t: string)
    requires forall i :: 0 <= i < |ds| ==> IsDigit(ds[i])
    requires t == [] || !IsDigit(t[0])
    ensures DigitSpan(ds + t) == |ds|
  {
    if ds != [] {
      assert (ds + t)[1..] == ds[1..] + t;
      DigitSpanPrefix(ds[1..], t);
    }
  }

  /** strtol reads back what itoa2 wrote, whatever non-digit follows it. */
  lemma StrtolDecimal(n: nat, t: string)
    requires n <= LONG_MAX
    requires t == [] || !IsDigit(t[0])
    ensures Strtol(Decimal(n) + t) == n
  {
    var s := Decimal(n) + t;
    assert SpaceSpan(s) == 0;
    DigitSpanPrefix(Decimal(n), t);
    assert s[..|Decimal(n)|] == Decimal(n);
    DecimalValue(n);
  }

  /** A numeral is read in full; past LONG_MAX the value saturates there. */
  lemma StrtolPositive(n: nat, t: string)
    requires t == [] || !IsDigit(t[0])
    ensures Strtol(Decimal(n) + t) == if n > LONG_MAX then LONG_MAX else n
  {
    var s := Decimal(n) + t;
    assert SpaceSpan(s) == 0;
    DigitSpanPrefix(Decimal(n), t);
    assert s[..|Decimal(n)|] == Decimal(n);
    DecimalValue(n);
  }

  /** A minus sign negates the numeral that follows; below LONG_MIN the
      value saturates there. */
  lemma StrtolNegative(n: nat, t: string)
    requires t == [] || !IsDigit(t[0])
    ensures Strtol(['-'] + (Decimal(n) + t)) == if n > -LONG_MIN then LONG_MIN else -(n as int)
  {
    var s := ['-'] + (Decimal(n) + t);
    assert SpaceSpan(s) == 0;
    assert s[1..] == Decimal(n) + t;
    DigitSpanPrefix(Decimal(n), t);
    assert (Decimal(n) + t)[..|Decimal(n)|] == Decimal(n);
    DecimalValue(n);
  }

  /** Leading white space is skipped. */
  lemma StrtolSkipsSpace(c: char, s: string)
    requires IsSpace(c)
    ensures Strtol([c] + s) == Strtol(s)
  {
    assert ([c] + s)[1..] == s;
    assert SpaceSpan([c] + s) == 1 + SpaceSpan(s);
    assert ([c] + s)[SpaceSpan([c] + s)..] == s[SpaceSpan(s)..];
  }

  /** Text without any digit reads as 0. */
  lemma StrtolNoDigits(s: string)
    requires NoDigits(s)
    ensures Strtol(s) == 0
  {
    var t := s[SpaceSpan(s)..];
    var u := if t != [] && (t[0] == '-' || t[0] == '+') then t[1..] else t;
    assert u != [] ==> !IsDigit(u[0]);
    assert u[..DigitSpan(u)] == [];
  }
}
