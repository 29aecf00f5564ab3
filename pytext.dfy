/** The three Python string built-ins the reviewer relies on, for a
    one-character separator: `s.split(sep)`, `sep.join(parts)` and the
    decimal rendering of a non-negative `int` inside an f-string. */
module PyText {

  /** Number of occurrences of `c` in `s`. */
  function Occurrences(s: string, c: char): nat
    decreases |s|
  {
    if |s| == 0 then 0 else (if s[0] == c then 1 else 0) + Occurrences(s[1..], c)
  }

  /** Python's `s.split(sep)` with an explicit one-character separator:
      separators are never merged, the empty string gives `[""]`, and a
      trailing separator gives a trailing empty segment. */
  function Split(s: string, sep: char): (r: seq<string>)
    ensures |r| >= 1
    ensures forall i :: 0 <= i < |r| ==> sep !in r[i]
    decreases |s|
  {
    if |s| == 0 then [""]
    else
      var rest := Split(s[1..], sep);
      if s[0] == sep then [""] + rest
      else [[s[0]] + rest[0]] + rest[1..]
  }

  /** Python's `sep.join(parts)`: the empty list gives `""`; otherwise one
      separator is added between each two parts, and no other. */
  function Join(parts: seq<string>, sep: char): (r: string)
    ensures |parts| == 0 ==> r == ""
    ensures |parts| >= 1 ==> Occurrences(r, sep) + 1 == SegmentSum(parts, sep)
    decreases |parts|
  {
    if |parts| == 0 then ""
    else if |parts| == 1 then parts[0]
    else
      var tail := Join(parts[1..], sep);
      OccurrencesAppend(parts[0] + [sep], tail, sep);
      OccurrencesAppend(parts[0], [sep], sep);
      parts[0] + [sep] + tail
  }

  /** The segments of every part, one part after the other. */
  function SplitEach(parts: seq<string>, sep: char): seq<string>
    decreases |parts|
  {
    if |parts| == 0 then [] else Split(parts[0], sep) + SplitEach(parts[1..], sep)
  }

  /** Sum over the parts of their segment counts, `occurrences + 1` each. */
  function SegmentSum(parts: seq<string>, sep: char): nat
    decreases |parts|
  {
    if |parts| == 0 then 0 else Occurrences(parts[0], sep) + 1 + SegmentSum(parts[1..], sep)
  }

  lemma {:induction false} OccurrencesAppend(a: string, b: string, c: char)
    ensures Occurrences(a + b, c) == Occurrences(a, c) + Occurrences(b, c)
    decreases |a|
  {
    if |a| == 0 {
      assert a + b == b;
    } else {
      assert (a + b)[1..] == a[1..] + b;
      OccurrencesAppend(a[1..], b, c);
    }
  }

  /** A string without `c` has no occurrence of it, and conversely. */
  lemma {:induction false} OccurrencesZero(s: string, c: char)
    ensures Occurrences(s, c) == 0 <==> c !in s
    decreases |s|
  {
    if |s| > 0 {
      assert s == [s[0]] + s[1..];
      OccurrencesZero(s[1..], c);
    }
  }

  /** `len(s.split(sep))` is the number of separators plus one. */
  lemma {:induction false} SplitLength(s: string, sep: char)
    ensures |Split(s, sep)| == Occurrences(s, sep) + 1
    decreases |s|
  {
    if |s| > 0 {
      SplitLength(s[1..], sep);
    }
  }

  /** Joining the segments of a split with the same separator gives the
      string back. */
  lemma {:induction false} JoinSplit(s: string, sep: char)
    ensures Join(Split(s, sep), sep) == s
    decreases |s|
  {
    if |s| > 0 {
      var rest := Split(s[1..], sep);
      JoinSplit(s[1..], sep);
      if s[0] == sep {
        assert ([""] + rest)[1..] == rest;
        assert s == [sep] + s[1..];
      } else {
        var r := [[s[0]] + rest[0]] + rest[1..];
        if |rest| == 1 {
          assert s == [s[0]] + s[1..];
        } else {
          assert r[1..] == rest[1..];
          assert Join(rest, sep) == rest[0] + [sep] + Join(rest[1..], sep);
          assert s == [s[0]] + s[1..];
        }
      }
    }
  }

  /** Splitting at a separator splits each side independently. */
  lemma {:induction false} SplitAround(a: string, b: string, sep: char)
    ensures Split(a + [sep] + b, sep) == Split(a, sep) + Split(b, sep)
    decreases |a|
  {
    var s := a + [sep] + b;
    if |a| == 0 {
      assert s == [sep] + b;
      assert s[1..] == b;
    } else {
      assert s[1..] == a[1..] + [sep] + b;
      SplitAround(a[1..], b, sep);
      assert s[0] == a[0];
    }
  }

  /** A trailing separator adds exactly one, empty, segment. */
  lemma SplitTrailing(s: string, sep: char)
    ensures Split(s + [sep], sep) == Split(s, sep) + [""]
  {
    SplitAround(s, "", sep);
    assert s + [sep] + "" == s + [sep];
  }

  /** The segments of a join are the segments of its parts, in order. */
  lemma {:induction false} SplitJoin(parts: seq<string>, sep: char)
    requires |parts| >= 1
    ensures Split(Join(parts, sep), sep) == SplitEach(parts, sep)
    decreases |parts|
  {
    if |parts| == 1 {
      assert SplitEach(parts[1..], sep) == [];
    } else {
      SplitJoin(parts[1..], sep);
      SplitAround(parts[0], Join(parts[1..], sep), sep);
    }
  }

  /** Splitting the join of separator-free parts gives the parts back. */
  lemma {:induction false} SplitJoinInverse(parts: seq<string>, sep: char)
    requires |parts| >= 1
    requires forall i :: 0 <= i < |parts| ==> sep !in parts[i]
    ensures Split(Join(parts, sep), sep) == parts
    decreases |parts|
  {
    SplitJoin(parts, sep);
    SplitEachFree(parts, sep);
  }

  lemma {:induction false} SplitFree(s: string, sep: char)
    requires sep !in s
    ensures Split(s, sep) == [s]
    decreases |s|
  {
    if |s| > 0 {
      SplitFree(s[1..], sep);
      assert s == [s[0]] + s[1..];
    }
  }

  lemma {:induction false} SplitEachFree(parts: seq<string>, sep: char)
    requires forall i :: 0 <= i < |parts| ==> sep !in parts[i]
    ensures SplitEach(parts, sep) == parts
    decreases |parts|
  {
    if |parts| > 0 {
      SplitFree(parts[0], sep);
      SplitEachFree(parts[1..], sep);
      assert parts == [parts[0]] + parts[1..];
    }
  }

  /** The segment count of a join is the sum of its parts' segment counts. */
  lemma {:induction false} SplitEachLength(parts: seq<string>, sep: char)
    ensures |SplitEach(parts, sep)| == SegmentSum(parts, sep)
    decreases |parts|
  {
    if |parts| > 0 {
      SplitLength(parts[0], sep);
      SplitEachLength(parts[1..], sep);
    }
  }

  // Decimal rendering of non-negative integers, as `str(n)` and `f"{n}"`.

  predicate IsDigit(ch: char) {
    '0' <= ch <= '9'
  }

  function DigitValue(ch: char): nat
    requires IsDigit(ch)
  {
    ch as int - '0' as int
  }

  function DigitChar(d: nat): (ch: char)
    requires d < 10
    ensures IsDigit(ch) && ch as int - '0' as int == d
  {
    (d + '0' as int) as char
  }

  /** The value of a string of decimal digits (most significant first). */
  function DecimalValue(s: string): nat
    requires forall i :: 0 <= i < |s| ==> IsDigit(s[i])
    decreases |s|
  {
    if |s| == 0 then 0
    else 10 * DecimalValue(s[..|s| - 1]) + DigitValue(s[|s| - 1])
  }

  /** The canonical form Python prints: digits only, at least one, and no
      leading zero except in "0" itself. */
  predicate IsCanonicalDecimal(s: string) {
    && |s| >= 1
    && (forall i :: 0 <= i < |s| ==> IsDigit(s[i]))
    && (s[0] == '0' ==> |s| == 1)
  }

  /** `str(n)` for a non-negative `n`. */
  function Decimal(n: nat): (s: string)
    ensures IsCanonicalDecimal(s)
    decreases n
  {
    if n < 10 then [DigitChar(n)] else Decimal(n / 10) + [DigitChar(n % 10)]
  }

  /** Reading the rendering back gives the number. */
  lemma {:induction false} DecimalRoundTrip(n: nat)
    ensures DecimalValue(Decimal(n)) == n
    decreases n
  {
    if n >= 10 {
      var s := Decimal(n);
      assert s[..|s| - 1] == Decimal(n / 10);
      DecimalRoundTrip(n / 10);
    }
  }

  /** Every canonical digit string is the rendering of its value. */
  lemma {:induction false} DecimalCanonical(s: string)
    requires IsCanonicalDecimal(s)
    ensures Decimal(DecimalValue(s)) == s
    decreases |s|
  {
    var last := DigitValue(s[|s| - 1]);
    if |s| == 1 {
      assert DecimalValue(s) == 10 * DecimalValue(s[..0]) + last;
      assert s[..0] == "";
    } else {
      var init := s[..|s| - 1];
      assert init[0] == s[0];
      DecimalCanonical(init);
      DecimalNonZero(init);
      var n := DecimalValue(s);
      assert n == 10 * DecimalValue(init) + last;
      assert n / 10 == DecimalValue(init) && n % 10 == last;
      assert s == init + [s[|s| - 1]];
    }
  }

  /** A digit string that does not start with '0' has a positive value. */
  lemma {:induction false} DecimalNonZero(s: string)
    requires |s| >= 1 && s[0] != '0'
    requires forall i :: 0 <= i < |s| ==> IsDigit(s[i])
    ensures DecimalValue(s) >= 1
    decreases |s|
  {
    var init := s[..|s| - 1];
    if |init| >= 1 {
      assert init[0] == s[0];
      DecimalNonZero(init);
    } else {
      assert DecimalValue(s) == DigitValue(s[0]);
    }
  }

  /** Two numbers have the same rendering only if they are equal. */
  lemma DecimalInjective(m: nat, n: nat)
    requires Decimal(m) == Decimal(n)
    ensures m == n
  {
    DecimalRoundTrip(m);
    DecimalRoundTrip(n);
  }
}
