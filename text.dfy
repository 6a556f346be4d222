/** String operations the frontend relies on: `toLowerCase`, `includes`,
    `split('\n')`, and the decimal rendering of integers in template literals. */
module Text {
  import opened Util

  /** Lower-cases an ASCII capital; every other character is left alone. */
  function LowerChar(c: char): char
  {
    if 'A' <= c <= 'Z' then (c as int + 32) as char else c
  }

  /** `toLowerCase`, restricted to the ASCII letters. */
  function Lower(s: string): (r: string)
    ensures |r| == |s|
    ensures forall i :: 0 <= i < |s| ==> r[i] == LowerChar(s[i])
  {
    seq(|s|, i requires 0 <= i < |s| => LowerChar(s[i]))
  }

  lemma LowerAppend(a: string, b: string)
    ensures Lower(a + b) == Lower(a) + Lower(b)
  {
    assert forall i :: 0 <= i < |a + b| ==> Lower(a + b)[i] == (Lower(a) + Lower(b))[i];
  }

  /** Lower-casing commutes with taking a slice. */
  lemma LowerSlice(s: string, i: nat, j: nat)
    requires i <= j <= |s|
    ensures Lower(s)[i..j] == Lower(s[i..j])
  {
  }

  /** Lower-casing twice is lower-casing once. */
  lemma LowerIdempotent(s: string)
    ensures Lower(Lower(s)) == Lower(s)
  {
    assert forall i :: 0 <= i < |s| ==> Lower(Lower(s))[i] == Lower(s)[i];
  }

  /** A string with no ASCII capitals is its own lower-case form. */
  predicate NoCapitals(s: string)
  {
    forall i :: 0 <= i < |s| ==> !('A' <= s[i] <= 'Z')
  }

  lemma LowerOfNoCapitals(s: string)
    requires NoCapitals(s)
    ensures Lower(s) == s
  {
  }

  predicate StartsWith(s: string, prefix: string)
  {
    |prefix| <= |s| && s[..|prefix|] == prefix
  }

  /** `t` occurs in `s` starting at position `i`. */
  predicate OccursAt(s: string, t: string, i: int)
  {
    0 <= i && i + |t| <= |s| && s[i..i + |t|] == t
  }

  /** `s.includes(t)`: `t` occurs in `s` at some position. */
  predicate Contains(s: string, t: string)
    decreases |s|
  {
    StartsWith(s, t) || (|s| > 0 && Contains(s[1..], t))
  }

  /** An occurrence after the first character is an occurrence in the tail. */
  lemma OccursAtTail(s: string, t: string, i: nat)
    requires |s| > 0
    ensures OccursAt(s, t, i + 1) <==> OccursAt(s[1..], t, i)
  {
    if i + 1 + |t| <= |s| {
      assert s[i + 1..i + 1 + |t|] == s[1..][i..i + |t|];
    }
  }

  /** `Contains` holds exactly when there is a position where `t` occurs. */
  lemma {:induction false} ContainsIff(s: string, t: string)
    ensures Contains(s, t) <==> exists i :: OccursAt(s, t, i)
  {
    if |s| == 0 {
      if |t| == 0 {
        assert OccursAt(s, t, 0);
      } else {
        forall i ensures !OccursAt(s, t, i) {
        }
      }
    } else {
      var rest := s[1..];
      ContainsIff(rest, t);
      if |t| <= |s| {
        assert s[0..0 + |t|] == s[..|t|];
      }
      if StartsWith(s, t) {
        assert OccursAt(s, t, 0);
      } else if Contains(rest, t) {
        var i :| OccursAt(rest, t, i);
        OccursAtTail(s, t, i);
      } else {
        forall i | 0 < i ensures !OccursAt(s, t, i) {
          OccursAtTail(s, t, i - 1);
        }
      }
    }
  }

  lemma ContainsAt(s: string, t: string, i: nat)
    requires OccursAt(s, t, i)
    ensures Contains(s, t)
  {
    ContainsIff(s, t);
  }

  /** If `t` occurs in `b` it occurs in `a + b + c`. */
  lemma ContainsInMiddle(a: string, b: string, c: string, t: string)
    requires Contains(b, t)
    ensures Contains(a + b + c, t)
  {
    ContainsIff(b, t);
    var i :| OccursAt(b, t, i);
    assert (a + b + c)[|a| + i..|a| + i + |t|] == b[i..i + |t|];
    ContainsAt(a + b + c, t, |a| + i);
  }
  /** A word inside a prefix is contained in everything the prefix starts. */
  lemma ContainsInPrefix(p: string, a: string, w: string, b: string, x: string, y: string)
    requires p == a + w + b
    ensures Contains(p + x + y, w)
  {
    assert w[..|w|] == w;
    assert p + x + y == a + w + (b + x + y);
    ContainsInMiddle(a, w, b + x + y, w);
  }


  /** `s.split(sep)` for a one-character separator: the pieces between separators. */
  function Split(s: string, sep: char): (parts: seq<string>)
    ensures |parts| >= 1
    decreases |s|
  {
    if |s| == 0 then [""]
    else
      var rest := Split(s[1..], sep);
      if s[0] == sep then [""] + rest else [[s[0]] + rest[0]] + rest[1..]
  }

  /** `parts.join(sep)`. */
  function Join(parts: seq<string>, sep: char): string
    requires |parts| >= 1
    decreases |parts|
  {
    if |parts| == 1 then parts[0] else parts[0] + [sep] + Join(parts[1..], sep)
  }

  /** Number of occurrences of `c` in `s`. */
  function Occurrences(s: string, c: char): nat
    decreases |s|
  {
    if |s| == 0 then 0 else (if s[0] == c then 1 else 0) + Occurrences(s[1..], c)
  }

  /** Splitting loses nothing: joining the pieces gives the text back. */
  lemma {:induction false} SplitJoin(s: string, sep: char)
    ensures Join(Split(s, sep), sep) == s
  {
    if |s| > 0 {
      var rest := Split(s[1..], sep);
      SplitJoin(s[1..], sep);
      if s[0] == sep {
        assert Split(s, sep) == [""] + rest;
        assert ([""] + rest)[1..] == rest;
      } else {
        var parts := [[s[0]] + rest[0]] + rest[1..];
        if |rest| == 1 {
          assert Join(rest, sep) == rest[0];
        } else {
          assert parts[1..] == rest[1..];
          assert Join(rest, sep) == rest[0] + [sep] + Join(rest[1..], sep);
        }
      }
    }
  }

  /** There is one more piece than there are separators. */
  lemma {:induction false} SplitCount(s: string, sep: char)
    ensures |Split(s, sep)| == Occurrences(s, sep) + 1
  {
    if |s| > 0 {
      SplitCount(s[1..], sep);
    }
  }

  function DigitChar(d: nat): (c: char)
    requires d < 10
    ensures '0' <= c <= '9'
  {
    ('0' as int + d) as char
  }

  /** Decimal digits of a natural number, without leading zeros. */
  function Digits(n: nat): (s: string)
    ensures |s| >= 1
    ensures forall i :: 0 <= i < |s| ==> '0' <= s[i] <= '9'
    decreases n
  {
    if n < 10 then [DigitChar(n)] else Digits(n / 10) + [DigitChar(n % 10)]
  }

  /** An integer as a JavaScript template literal renders it. */
  function Decimal(n: int): string
  {
    if n < 0 then "-" + Digits(-n) else Digits(n)
  }

  predicate AllDigits(s: string)
  {
    forall i :: 0 <= i < |s| ==> '0' <= s[i] <= '9'
  }

  /** Value of a string of decimal digits. */
  function DigitsValue(s: string): nat
    requires AllDigits(s)
    decreases |s|
  {
    if |s| == 0 then 0 else DigitsValue(s[..|s| - 1]) * 10 + (s[|s| - 1] as int - '0' as int)
  }

  /** Reads back an optionally signed decimal integer; `None` for anything else. */
  function ParseDecimal(s: string): Option<int>
  {
    if |s| >= 2 && s[0] == '-' && AllDigits(s[1..]) then Some(0 - DigitsValue(s[1..]))
    else if |s| >= 1 && AllDigits(s) then Some(DigitsValue(s))
    else None
  }

  lemma {:induction false} DigitsRoundTrip(n: nat)
    ensures DigitsValue(Digits(n)) == n
  {
    if n >= 10 {
      DigitsRoundTrip(n / 10);
      var s := Digits(n / 10) + [DigitChar(n % 10)];
      assert s[..|s| - 1] == Digits(n / 10);
    }
  }

  lemma ParseSigned(d: string)
    requires |d| >= 1 && AllDigits(d)
    ensures ParseDecimal("-" + d) == Some(0 - DigitsValue(d))
  {
    var s := "-" + d;
    assert s[1..] == d;
  }

  lemma ParseUnsigned(d: string)
    requires |d| >= 1 && AllDigits(d)
    ensures ParseDecimal(d) == Some(DigitsValue(d))
  {
    assert d[0] != '-';
  }

  /** The rendered number reads back as the same number. */
  lemma DecimalRoundTrip(n: int)
    ensures ParseDecimal(Decimal(n)) == Some(n)
  {
    if n < 0 {
      var d := Digits(-n);
      assert Decimal(n) == "-" + d;
      DigitsRoundTrip(-n);
      ParseSigned(d);
    } else {
      var d := Digits(n);
      assert Decimal(n) == d;
      DigitsRoundTrip(n);
      ParseUnsigned(d);
    }
  }
}
