/**
 The Python string built-ins the renaming pipeline leans on, written out on
 `seq<char>`: `sep.join(parts)`, `s.split(sep)` for a one-character separator,
 `s.removesuffix(suffix)` and `str(n)` for a natural number.
 */
module Text {

  /** The set of elements of a sequence (Python's `set(xs)`). */
  function ToSet<T>(xs: seq<T>): set<T>
  {
    set x | x in xs
  }

  lemma ToSetCons<T>(xs: seq<T>)
    requires |xs| > 0
    ensures ToSet(xs) == {xs[0]} + ToSet(xs[1..])
  {
    assert xs == [xs[0]] + xs[1..];
  }

  /** No part contains the separator. */
  predicate Unseparated(parts: seq<string>, sep: char)
  {
    forall i :: 0 <= i < |parts| ==> sep !in parts[i]
  }

  /** `sep.join(parts)`: the empty list joins to the empty string. */
  function Join(parts: seq<string>, sep: char): string
  {
    if |parts| == 0 then ""
    else if |parts| == 1 then parts[0]
    else parts[0] + [sep] + Join(parts[1..], sep)
  }

  /**
   `s.split(sep)`: the maximal separator-free pieces of `s`, in order.
   Python never returns an empty list here (`"".split("/") == [""]`).
   */
  function Split(s: string, sep: char): (parts: seq<string>)
    ensures |parts| >= 1
  {
    if |s| == 0 then [""]
    else
      var rest := Split(s[1..], sep);
      if s[0] == sep then [""] + rest
      else [[s[0]] + rest[0]] + rest[1..]
  }

  /** The pieces `split` returns are separator-free and join back into `s`. */
  lemma {:induction false} SplitParts(s: string, sep: char)
    ensures Unseparated(Split(s, sep), sep)
    ensures Join(Split(s, sep), sep) == s
    decreases |s|
  {
    if |s| > 0 {
      var rest := Split(s[1..], sep);
      SplitParts(s[1..], sep);
      var parts := Split(s, sep);
      if s[0] == sep {
        assert parts == [""] + rest;
        assert parts[1..] == rest;
      } else {
        assert parts == [[s[0]] + rest[0]] + rest[1..];
        assert parts[1..] == rest[1..];
        if |rest| > 1 {
          assert Join(rest, sep) == rest[0] + [sep] + Join(rest[1..], sep);
        }
      }
      assert s == [s[0]] + s[1..];
    }
  }

  /**
   In the join of separator-free parts, the first separator sits right after
   the first part, and there is one only when there are several parts.
   */
  lemma FirstSeparator(parts: seq<string>, sep: char)
    requires |parts| >= 1 && Unseparated(parts, sep)
    ensures var s := Join(parts, sep);
      && |parts[0]| <= |s|
      && s[..|parts[0]|] == parts[0]
      && (|parts| == 1 <==> |s| == |parts[0]|)
      && (|parts| > 1 ==> s[|parts[0]|] == sep && s[|parts[0]| + 1..] == Join(parts[1..], sep))
  {
  }

  /** Joining separator-free parts loses nothing: the parts are determined by the joined string. */
  lemma {:induction false} JoinInjective(a: seq<string>, b: seq<string>, sep: char)
    requires |a| >= 1 && |b| >= 1
    requires Unseparated(a, sep) && Unseparated(b, sep)
    requires Join(a, sep) == Join(b, sep)
    ensures a == b
  {
    var s := Join(a, sep);
    FirstSeparator(a, sep);
    FirstSeparator(b, sep);
    assert |a[0]| == |b[0]| by {
      assert forall k :: 0 <= k < |a[0]| ==> s[k] == a[0][k];
      assert forall k :: 0 <= k < |b[0]| ==> s[k] == b[0][k];
    }
    assert a[0] == b[0];
    if |a| > 1 {
      JoinInjective(a[1..], b[1..], sep);
      assert a == [a[0]] + a[1..];
      assert b == [b[0]] + b[1..];
    }
  }

  /** `split` undoes `join` for separator-free parts. */
  lemma SplitJoin(parts: seq<string>, sep: char)
    requires |parts| >= 1 && Unseparated(parts, sep)
    ensures Split(Join(parts, sep), sep) == parts
  {
    SplitParts(Join(parts, sep), sep);
    JoinInjective(Split(Join(parts, sep), sep), parts, sep);
  }

  /** `s` ends with `suffix` (`s.endswith(suffix)`). */
  predicate EndsWith(s: string, suffix: string)
  {
    |suffix| <= |s| && s[|s| - |suffix|..] == suffix
  }

  /** `s.removesuffix(suffix)`: strips one trailing copy of `suffix`, if there is one. */
  function RemoveSuffix(s: string, suffix: string): string
  {
    if EndsWith(s, suffix) then s[..|s| - |suffix|] else s
  }

  /** `removesuffix` strips exactly one copy of a suffix that is there, and changes nothing otherwise. */
  lemma RemoveSuffixRestores(s: string, suffix: string)
    ensures EndsWith(s, suffix) ==> RemoveSuffix(s, suffix) + suffix == s
    ensures !EndsWith(s, suffix) ==> RemoveSuffix(s, suffix) == s
  {
    if EndsWith(s, suffix) {
      assert s == s[..|s| - |suffix|] + s[|s| - |suffix|..];
    }
  }

  lemma RemoveAppendedSuffix(s: string, suffix: string)
    ensures RemoveSuffix(s + suffix, suffix) == s
  {
    assert (s + suffix)[|s|..] == suffix;
  }

  predicate IsDigit(c: char)
  {
    '0' <= c <= '9'
  }

  predicate IsDigits(s: string)
  {
    forall i :: 0 <= i < |s| ==> IsDigit(s[i])
  }

  function DigitChar(d: nat): (c: char)
    requires d < 10
  {
    ('0' as int + d) as char
  }

  /** `str(n)`: the decimal numeral of `n`, without leading zeros. */
  function Decimal(n: nat): (r: string)
    ensures |r| >= 1 && IsDigits(r)
    ensures r[0] == '0' <==> n == 0
  {
    if n < 10 then [DigitChar(n)] else Decimal(n / 10) + [DigitChar(n % 10)]
  }

  /** The number a string of decimal digits denotes. */
  function DigitsValue(s: string): nat
    requires IsDigits(s)
  {
    if |s| == 0 then 0
    else DigitsValue(s[..|s| - 1]) * 10 + (s[|s| - 1] as int - '0' as int)
  }

  /** Reading back the numeral gives the number. */
  lemma {:induction false} DecimalRoundTrip(n: nat)
    ensures DigitsValue(Decimal(n)) == n
  {
    if n >= 10 {
      var r := Decimal(n);
      assert r[..|r| - 1] == Decimal(n / 10);
      DecimalRoundTrip(n / 10);
    }
  }

  /** Distinct numbers have distinct numerals. */
  lemma DecimalInjective(m: nat, n: nat)
    requires Decimal(m) == Decimal(n)
    ensures m == n
  {
    DecimalRoundTrip(m);
    DecimalRoundTrip(n);
  }
}
