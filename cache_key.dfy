/**
  The name of a problem's cache file: `str(problem_number).zfill(4) + ".txt"`.
  Python's `str` on an integer gives its decimal digits with a leading `-`
  when negative; `zfill(4)` pads with zeros up to four characters, keeping a
  leading sign in front of the zeros.
*/
module CacheKey {
  import opened Wrappers

  predicate IsDigit(c: char) {
    '0' <= c <= '9'
  }

  predicate AllDigits(s: string) {
    forall i :: 0 <= i < |s| ==> IsDigit(s[i])
  }

  function DigitChar(d: nat): (c: char)
    requires d < 10
    ensures IsDigit(c)
    ensures c as int - '0' as int == d
  {
    ('0' as int + d) as char
  }

  /** Python's `str` on a non-negative integer: its shortest decimal representation. */
  function NatToString(n: nat): (r: string)
    ensures |r| >= 1 && AllDigits(r)
    ensures r[0] == '0' <==> n == 0
    decreases n
  {
    if n < 10 then [DigitChar(n)]
    else NatToString(n / 10) + [DigitChar(n % 10)]
  }

  /** Python's `str` on any integer. */
  function IntToString(n: int): (r: string)
    ensures |r| >= 1
    ensures r[0] == '-' <==> n < 0
    ensures n >= 0 ==> AllDigits(r)
    ensures n < 0 ==> AllDigits(r[1..])
  {
    if n < 0 then "-" + NatToString(-n) else NatToString(n)
  }

  function Zeros(k: nat): (r: string)
    ensures |r| == k
    ensures forall i :: 0 <= i < k ==> r[i] == '0'
  {
    if k == 0 then [] else Zeros(k - 1) + ['0']
  }

  /**
    Python's `s.zfill(width)`: a string at least `width` long is returned
    unchanged; a shorter one gets zeros in front, after its sign if it starts
    with `+` or `-`.
  */
  function ZFill(s: string, width: nat): (r: string)
    ensures |r| == if |s| >= width then |s| else width
    ensures |s| >= width ==> r == s
    ensures s != [] && s[0] in "+-" ==> r != [] && r[0] == s[0]
  {
    if |s| >= width then s
    else if s != [] && (s[0] == '+' || s[0] == '-') then [s[0]] + Zeros(width - |s|) + s[1..]
    else Zeros(width - |s|) + s
  }

  /** `str(problem_number).zfill(4)`: the stem of a problem's cache file name. */
  function Stem(n: int): (r: string)
    ensures |r| >= 4
  {
    ZFill(IntToString(n), 4)
  }

  /** The cache file name of a problem. */
  function Key(n: int): (r: string)
    ensures |r| >= 8
    ensures r[|r| - 4..] == ".txt"
  {
    Stem(n) + ".txt"
  }

  // The decimal reading of a name, the partner of Key

  /** The number a string of decimal digits denotes; leading zeros add nothing. */
  function Value(s: string): nat
    requires AllDigits(s)
  {
    if s == [] then 0
    else Value(s[..|s| - 1]) * 10 + (s[|s| - 1] as int - '0' as int)
  }

  /** The number a file name's stem stands for: digits, with a leading `-` when negative. */
  function ParseStem(stem: string): Option<int>
  {
    if stem != [] && stem[0] == '-' then
      if |stem| > 1 && AllDigits(stem[1..]) then Some(0 - Value(stem[1..])) else None
    else if stem != [] && AllDigits(stem) then Some(Value(stem))
    else None
  }

  /** The problem number a cache file name stands for, if it has the shape Key gives. */
  function ParseKey(k: string): Option<int>
  {
    if |k| < 4 || k[|k| - 4..] != ".txt" then None
    else ParseStem(k[..|k| - 4])
  }

  function Pow10(d: nat): (r: nat)
    ensures r >= 1
    ensures d >= 1 ==> r >= 10
  {
    if d == 0 then 1 else 10 * Pow10(d - 1)
  }

  /** Reading back the digits Python's `str` writes gives the number. */
  lemma {:induction false} ValueOfNatToString(n: nat)
    ensures Value(NatToString(n)) == n
    decreases n
  {
    var r := NatToString(n);
    if n < 10 {
      assert r[..0] == [];
    } else {
      var p := NatToString(n / 10);
      assert r[..|r| - 1] == p;
      ValueOfNatToString(n / 10);
    }
  }

  /** A string of zeros denotes zero. */
  lemma {:induction false} ValueOfZeros(k: nat)
    ensures Value(Zeros(k)) == 0
  {
    if k > 0 {
      assert Zeros(k)[..k - 1] == Zeros(k - 1);
      ValueOfZeros(k - 1);
    }
  }

  /** Zeros in front of a digit string do not change what it denotes. */
  lemma {:induction false} LeadingZerosIgnored(k: nat, s: string)
    requires AllDigits(s)
    ensures AllDigits(Zeros(k) + s)
    ensures Value(Zeros(k) + s) == Value(s)
  {
    var u := Zeros(k) + s;
    if s == [] {
      assert u == Zeros(k);
      ValueOfZeros(k);
    } else {
      assert u[..|u| - 1] == Zeros(k) + s[..|s| - 1];
      assert u[|u| - 1] == s[|s| - 1];
      LeadingZerosIgnored(k, s[..|s| - 1]);
    }
  }

  /** The shortest decimal representation of n has at most d digits exactly when n < 10^d. */
  lemma {:induction false} DigitCount(n: nat, d: nat)
    requires d >= 1
    ensures |NatToString(n)| <= d <==> n < Pow10(d)
    decreases n
  {
    if n >= 10 && d > 1 {
      DigitCount(n / 10, d - 1);
    }
  }

  /** How many zeros `zfill` adds to a string of the given length. */
  function Pad(len: nat, width: nat): nat {
    if len >= width then 0 else width - len
  }

  /** For a non-negative number the stem is its digits, zero-padded to four. */
  lemma StemOfNat(n: nat)
    ensures Stem(n) == Zeros(Pad(|NatToString(n)|, 4)) + NatToString(n)
  {
    var s := NatToString(n);
    if |s| >= 4 {
      assert Zeros(0) + s == s;
    }
  }

  /** For a negative number the stem is `-` and its digits, zero-padded to four characters in all. */
  lemma StemOfNegative(n: int)
    requires n < 0
    ensures Stem(n) == "-" + (Zeros(Pad(|NatToString(-n)|, 3)) + NatToString(-n))
  {
    var t := NatToString(-n);
    var s := "-" + t;
    assert s[1..] == t;
    if |s| >= 4 {
      assert Zeros(0) + t == t;
      assert s == "-" + (Zeros(0) + t);
    } else {
      assert [s[0]] + Zeros(4 - |s|) + s[1..] == "-" + (Zeros(3 - |t|) + t);
    }
  }

  /** The stem in front of `.txt` is what ParseKey reads. */
  lemma ParseKeyOfStem(stem: string)
    ensures ParseKey(stem + ".txt") == ParseStem(stem)
  {
    var k := stem + ".txt";
    assert k[|k| - 4..] == ".txt";
    assert k[..|k| - 4] == stem;
  }

  /** Digits, not starting with `-`, stand for their value; so do any digits of the same value. */
  lemma ParseDigitStem(u: string, t: string)
    requires u != [] && AllDigits(u) && AllDigits(t) && Value(u) == Value(t)
    ensures ParseStem(u) == Some(Value(t))
  {
    assert u[0] != '-' by {
      assert IsDigit(u[0]);
    }
  }

  /** A `-` and digits stand for the negated value of the digits; so do any digits of the same value. */
  lemma ParseNegativeStem(u: string, t: string)
    requires u != [] && AllDigits(u) && AllDigits(t) && Value(u) == Value(t)
    ensures ParseStem("-" + u) == Some(0 - Value(t))
  {
    var stem := "-" + u;
    assert stem[0] == '-';
    assert stem[1..] == u;
  }

  /** Zero-padded digits stand for the value of the digits. */
  lemma ParsePaddedDigits(f: nat, t: string)
    requires t != [] && AllDigits(t)
    ensures ParseStem(Zeros(f) + t) == Some(Value(t))
  {
    LeadingZerosIgnored(f, t);
    ParseDigitStem(Zeros(f) + t, t);
  }

  /** A `-` and zero-padded digits stand for the negated value of the digits. */
  lemma ParseNegativePaddedDigits(f: nat, t: string)
    requires t != [] && AllDigits(t)
    ensures ParseStem("-" + (Zeros(f) + t)) == Some(0 - Value(t))
  {
    LeadingZerosIgnored(f, t);
    ParseNegativeStem(Zeros(f) + t, t);
  }

  /** A non-negative problem number is read back from its stem. */
  lemma NatStemRoundTrip(n: nat)
    ensures ParseStem(Stem(n)) == Some(n)
  {
    var s := NatToString(n);
    StemOfNat(n);
    ParsePaddedDigits(Pad(|s|, 4), s);
    ValueOfNatToString(n);
  }

  /** A negative problem number is read back from its stem. */
  lemma NegativeStemRoundTrip(n: int)
    requires n < 0
    ensures ParseStem(Stem(n)) == Some(n)
  {
    var t := NatToString(-n);
    calc {
      ParseStem(Stem(n));
    == { StemOfNegative(n); }
      ParseStem("-" + (Zeros(Pad(|t|, 3)) + t));
    == { ParseNegativePaddedDigits(Pad(|t|, 3), t); }
      Some(0 - Value(t));
    == { ValueOfNatToString(-n); }
      Some(n);
    }
  }

  /** Every problem number can be read back from its stem. */
  lemma StemRoundTrip(n: int)
    ensures ParseStem(Stem(n)) == Some(n)
  {
    if n >= 0 {
      NatStemRoundTrip(n);
    } else {
      NegativeStemRoundTrip(n);
    }
  }

  /** Every problem number can be read back from its file name. */
  lemma KeyRoundTrip(n: int)
    ensures ParseKey(Key(n)) == Some(n)
  {
    ParseKeyOfStem(Stem(n));
    StemRoundTrip(n);
  }

  /** Different problems never share a cache file. */
  lemma KeyInjective(m: int, n: int)
    ensures Key(m) == Key(n) ==> m == n
  {
    KeyRoundTrip(m);
    KeyRoundTrip(n);
  }

  /** A problem number from 0 to 9999 gets a stem of exactly four digits. */
  lemma FourDigitStem(n: int)
    requires 0 <= n < 10000
    ensures |Stem(n)| == 4
    ensures AllDigits(Stem(n))
  {
    var s := NatToString(n);
    DigitCount(n, 4);
    assert Pow10(4) == 10000;
    StemOfNat(n);
    LeadingZerosIgnored(Pad(|s|, 4), s);
  }

  /** A problem number of five digits or more keeps all of them, unpadded. */
  lemma LongStem(n: int)
    requires n >= 10000
    ensures Stem(n) == NatToString(n)
  {
    DigitCount(n, 4);
    assert Pow10(4) == 10000;
  }

  /** The stems of problems 1 and 42: padded to four digits. */
  lemma ShortStemExamples()
    ensures Stem(1) == "0001"
    ensures Stem(42) == "0042"
  {
  }

  /** The stem of problem 12345: five digits are left alone. */
  lemma LongStemExample()
    ensures Stem(12345) == "12345"
  {
  }

  /** The stem of problem -5: the sign stays in front of the zeros. */
  lemma NegativeStemExample()
    ensures Stem(-5) == "-005"
  {
  }

  /** The file name of problem 1. */
  lemma KeyExample()
    ensures Key(1) == "0001.txt"
  {
    ShortStemExamples();
  }
}
