/** String helpers the upload code relies on: ASCII lower-casing (the part of
    JavaScript's `toLowerCase` this model covers), splitting on and joining
    with a one-character separator (`String.prototype.split` and
    `Array.prototype.join`), the last index of a character, and the decimal
    rendering of a natural number (`String(n)` for integers below 1e21). */
module Text {

  /* ---------------------------------------------------------------------- */
  /* Letter case                                                             */
  /* ---------------------------------------------------------------------- */

  predicate IsUpperChar(c: char)
  {
    'A' <= c <= 'Z'
  }

  /** ASCII lower-casing of one character. */
  function LowerChar(c: char): (d: char)
    ensures !IsUpperChar(d)
    ensures IsUpperChar(c) ==> d as int == c as int + 32
    ensures !IsUpperChar(c) ==> d == c
  {
    if IsUpperChar(c) then (c as int + 32) as char else c
  }

  /** True iff `s` holds no upper-case ASCII letter. */
  predicate IsLower(s: string)
  {
    forall i :: 0 <= i < |s| ==> !IsUpperChar(s[i])
  }

  /** `s.toLowerCase()` restricted to ASCII letters. */
  function Lower(s: string): (r: string)
    ensures |r| == |s|
    ensures forall i :: 0 <= i < |s| ==> r[i] == LowerChar(s[i])
    ensures IsLower(r)
  {
    seq(|s|, i requires 0 <= i < |s| => LowerChar(s[i]))
  }

  /** Lower-casing is the identity exactly on strings without upper-case letters. */
  lemma LowerFixesExactlyLower(s: string)
    ensures Lower(s) == s <==> IsLower(s)
  {
    if IsLower(s) {
      assert forall i :: 0 <= i < |s| ==> Lower(s)[i] == s[i];
    } else {
      var i :| 0 <= i < |s| && IsUpperChar(s[i]);
      assert Lower(s)[i] != s[i];
    }
  }

  lemma LowerConcat(a: string, b: string)
    ensures Lower(a + b) == Lower(a) + Lower(b)
  {
    assert forall i :: 0 <= i < |a + b| ==> Lower(a + b)[i] == (Lower(a) + Lower(b))[i];
  }

  lemma LowerSlice(s: string, i: nat, j: nat)
    requires i <= j <= |s|
    ensures Lower(s[i..j]) == Lower(s)[i..j]
  {
    assert forall k :: 0 <= k < j - i ==> Lower(s[i..j])[k] == Lower(s)[i + k];
  }

  /* ---------------------------------------------------------------------- */
  /* Searching                                                               */
  /* ---------------------------------------------------------------------- */

  /** The number of occurrences of `c` in `s`. */
  function Count(s: string, c: char): nat
  {
    if s == [] then 0 else (if s[0] == c then 1 else 0) + Count(s[1..], c)
  }

  /** The index of the last `c` in `s`, or -1 when there is none
      (`String.prototype.lastIndexOf` for one character). */
  function LastIndex(s: string, c: char): (k: int)
    ensures -1 <= k < |s|
    ensures k >= 0 ==> s[k] == c
    ensures forall j :: k < j < |s| ==> s[j] != c
  {
    LastIndexBelow(s, c, |s|)
  }

  /** The index of the last `c` among the first `n` characters of `s`, or -1. */
  function LastIndexBelow(s: string, c: char, n: nat): (k: int)
    requires n <= |s|
    ensures -1 <= k < n
    ensures k >= 0 ==> s[k] == c
    ensures forall j :: k < j < n ==> s[j] != c
  {
    if n == 0 then -1
    else if s[n - 1] == c then n - 1
    else LastIndexBelow(s, c, n - 1)
  }

  /** Lower-casing moves no character that is not an upper-case letter, so the
      last such character stays where it was. */
  lemma LastIndexLower(s: string, c: char)
    requires !IsUpperChar(c) && !('a' <= c <= 'z')
    ensures LastIndex(Lower(s), c) == LastIndex(s, c)
  {
    LastIndexBelowLower(s, c, |s|);
  }

  lemma {:induction false} LastIndexBelowLower(s: string, c: char, n: nat)
    requires !IsUpperChar(c) && !('a' <= c <= 'z')
    requires n <= |s|
    ensures LastIndexBelow(Lower(s), c, n) == LastIndexBelow(s, c, n)
  {
    if n > 0 {
      assert Lower(s)[n - 1] == c <==> s[n - 1] == c;
      LastIndexBelowLower(s, c, n - 1);
    }
  }

  /* ---------------------------------------------------------------------- */
  /* Split and join on one separator character                              */
  /* ---------------------------------------------------------------------- */

  /** `s.split(sep)` for a one-character separator: the maximal
      separator-free pieces, empty pieces included; `""` splits to `[""]`. */
  function Split(s: string, sep: char): (parts: seq<string>)
    ensures |parts| == Count(s, sep) + 1
    ensures forall i :: 0 <= i < |parts| ==> sep !in parts[i]
  {
    if s == [] then [""]
    else
      var rest := Split(s[1..], sep);
      if s[0] == sep then [""] + rest
      else [[s[0]] + rest[0]] + rest[1..]
  }

  /** `parts.join(sep)`. */
  function Join(parts: seq<string>, sep: char): string
  {
    if |parts| == 0 then ""
    else if |parts| == 1 then parts[0]
    else parts[0] + [sep] + Join(parts[1..], sep)
  }

  /** Joining the pieces gives back the split string. */
  lemma {:induction false} JoinSplit(s: string, sep: char)
    ensures Join(Split(s, sep), sep) == s
  {
    if s != [] {
      var rest := Split(s[1..], sep);
      JoinSplit(s[1..], sep);
      if s[0] == sep {
        assert Split(s, sep)[1..] == rest;
      } else {
        var parts := Split(s, sep);
        if |rest| == 1 {
          assert parts == [[s[0]] + rest[0]];
        } else {
          assert parts[1..] == rest[1..];
          assert Join(rest, sep) == rest[0] + [sep] + Join(rest[1..], sep);
          assert [s[0]] + Join(rest, sep) == parts[0] + [sep] + Join(parts[1..], sep);
        }
      }
    }
  }

  /** A separator-free prefix followed by the separator is split off as one piece. */
  lemma {:induction false} SplitFirstPiece(a: string, sep: char, b: string)
    requires sep !in a
    ensures Split(a + [sep] + b, sep) == [a] + Split(b, sep)
  {
    if a == [] {
      assert ([sep] + b)[1..] == b;
    } else {
      SplitFirstPiece(a[1..], sep, b);
      assert (a + [sep] + b)[1..] == a[1..] + [sep] + b;
      assert [a[0]] + a[1..] == a;
    }
  }

  /** A separator-free string is one piece. */
  lemma {:induction false} SplitNoSeparator(a: string, sep: char)
    requires sep !in a
    ensures Split(a, sep) == [a]
  {
    if a != [] {
      SplitNoSeparator(a[1..], sep);
      assert [a[0]] + a[1..] == a;
    }
  }

  /** Splitting a join of separator-free pieces gives back the pieces. */
  lemma {:induction false} SplitJoin(parts: seq<string>, sep: char)
    requires |parts| >= 1
    requires forall i :: 0 <= i < |parts| ==> sep !in parts[i]
    ensures Split(Join(parts, sep), sep) == parts
  {
    if |parts| == 1 {
      SplitNoSeparator(parts[0], sep);
    } else {
      SplitJoin(parts[1..], sep);
      SplitFirstPiece(parts[0], sep, Join(parts[1..], sep));
      assert [parts[0]] + parts[1..] == parts;
    }
  }

  /** Two joins of separator-free pieces are equal only if the pieces are. */
  lemma JoinInjective(p: seq<string>, q: seq<string>, sep: char)
    requires |p| >= 1 && |q| >= 1
    requires forall i :: 0 <= i < |p| ==> sep !in p[i]
    requires forall i :: 0 <= i < |q| ==> sep !in q[i]
    requires Join(p, sep) == Join(q, sep)
    ensures p == q
  {
    SplitJoin(p, sep);
    SplitJoin(q, sep);
  }

  /* ---------------------------------------------------------------------- */
  /* Decimal numerals                                                        */
  /* ---------------------------------------------------------------------- */

  predicate IsDigit(c: char)
  {
    '0' <= c <= '9'
  }

  predicate AllDigits(s: string)
  {
    forall i :: 0 <= i < |s| ==> IsDigit(s[i])
  }

  function DigitChar(d: nat): (c: char)
    requires d < 10
    ensures IsDigit(c)
  {
    ('0' as int + d) as char
  }

  function DigitValue(c: char): (d: nat)
    requires IsDigit(c)
    ensures d < 10
  {
    c as int - '0' as int
  }

  /** The decimal numeral of `n` without leading zeros, as JavaScript renders
      a non-negative integer below 1e21. */
  function Decimal(n: nat): (s: string)
    ensures |s| >= 1
    ensures AllDigits(s)
    ensures |s| > 1 ==> s[0] != '0'
  {
    if n < 10 then [DigitChar(n)] else Decimal(n / 10) + [DigitChar(n % 10)]
  }

  /** The value of a string of decimal digits. */
  function ParseDecimal(s: string): nat
    requires AllDigits(s)
  {
    if s == [] then 0 else ParseDecimal(s[..|s| - 1]) * 10 + DigitValue(s[|s| - 1])
  }

  /** Reading a numeral back gives the number it renders. */
  lemma {:induction false} ParseDecimalOfDecimal(n: nat)
    ensures ParseDecimal(Decimal(n)) == n
  {
    if n >= 10 {
      var s := Decimal(n);
      ParseDecimalOfDecimal(n / 10);
      assert s[..|s| - 1] == Decimal(n / 10);
    }
  }

  /** The length of the longest all-digit prefix of `s`. */
  function DigitPrefixLength(s: string): (k: nat)
    ensures k <= |s|
    ensures AllDigits(s[..k])
    ensures k < |s| ==> !IsDigit(s[k])
  {
    if s == [] || !IsDigit(s[0]) then 0
    else
      var k := 1 + DigitPrefixLength(s[1..]);
      assert s[..k] == [s[0]] + s[1..][..k - 1];
      k
  }

  /** The digit prefix of digits followed by a non-digit is those digits. */
  lemma {:induction false} DigitPrefixOfDigits(d: string, rest: string)
    requires AllDigits(d)
    requires rest == [] || !IsDigit(rest[0])
    ensures DigitPrefixLength(d + rest) == |d|
  {
    if d != [] {
      DigitPrefixOfDigits(d[1..], rest);
      assert (d + rest)[1..] == d[1..] + rest;
    }
  }
}
