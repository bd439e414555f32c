/**
 Text helpers used to read and write dotted-decimal IPv4 notation:
 canonical decimal numerals, and splitting a string on a separator
 character together with the inverse operation, joining.
 */
module Wrappers {
  datatype Option<+T> = None | Some(value: T)
}

module Text {
  import opened Wrappers

  predicate IsDigit(c: char) { '0' <= c <= '9' }

  function DigitValue(c: char): (d: nat)
    requires IsDigit(c)
    ensures d < 10
  {
    (c as int) - ('0' as int)
  }

  function DigitChar(d: nat): (c: char)
    requires d < 10
    ensures IsDigit(c) && DigitValue(c) == d
  {
    (('0' as int) + d) as char
  }

  predicate AllDigits(s: string) { forall i :: 0 <= i < |s| ==> IsDigit(s[i]) }

  /** A decimal numeral as it is printed: one or more digits, and no leading zero unless the numeral is "0". */
  predicate IsCanonicalDecimal(s: string)
  {
    |s| > 0 && AllDigits(s) && (s[0] == '0' ==> |s| == 1)
  }

  /** The number a string of digits denotes, most significant digit first. */
  function DigitsValue(s: string): nat
    requires AllDigits(s)
    decreases |s|
  {
    if s == [] then 0 else DigitsValue(s[..|s| - 1]) * 10 + DigitValue(s[|s| - 1])
  }

  /** The decimal rendering of `n`, as %d / strconv.Itoa print it. */
  function Decimal(n: nat): (s: string)
    ensures IsCanonicalDecimal(s) && DigitsValue(s) == n
    decreases n
  {
    if n < 10 then [DigitChar(n)]
    else
      var prefix := Decimal(n / 10);
      var s := prefix + [DigitChar(n % 10)];
      assert s[..|s| - 1] == prefix;
      s
  }

  /** A canonical numeral of positive length starting with a non-zero digit denotes a positive number. */
  lemma {:induction false} LeadingNonZeroPositive(s: string)
    requires |s| > 0 && AllDigits(s) && s[0] != '0'
    ensures DigitsValue(s) > 0
  {
    if |s| > 1 {
      var prefix := s[..|s| - 1];
      assert prefix[0] == s[0];
      LeadingNonZeroPositive(prefix);
    }
  }

  /** Every canonical numeral is the rendering of the number it denotes: there is exactly one spelling per number. */
  lemma {:induction false} DecimalOfDigitsValue(s: string)
    requires IsCanonicalDecimal(s)
    ensures Decimal(DigitsValue(s)) == s
  {
    if |s| > 1 {
      var prefix, last := s[..|s| - 1], s[|s| - 1];
      assert prefix[0] == s[0];
      LeadingNonZeroPositive(prefix);
      DecimalOfDigitsValue(prefix);
      var v, d := DigitsValue(prefix), DigitValue(last);
      DivMod10(v, d);
      assert DigitChar(d) == last;
      assert s == prefix + [last];
    } else {
      assert s == [s[0]];
    }
  }

  /** Dividing `10 v + d` by ten gives `v` and remainder `d`. */
  lemma DivMod10(v: nat, d: nat)
    requires d < 10
    ensures (v * 10 + d) / 10 == v && (v * 10 + d) % 10 == d
  {
  }

  /** Reads a decimal field that may be at most `max`; only the canonical spelling is accepted. */
  function ParseDecimal(s: string, max: nat): (r: Option<nat>)
    ensures r.Some? ==> r.value <= max && s == Decimal(r.value)
  {
    if IsCanonicalDecimal(s) && DigitsValue(s) <= max then
      DecimalOfDigitsValue(s);
      Some(DigitsValue(s))
    else None
  }

  /** Reading a rendered number gives the number back, exactly when it is in range. */
  lemma ParseDecimalOfDecimal(n: nat, max: nat)
    ensures ParseDecimal(Decimal(n), max) == if n <= max then Some(n) else None
  {
  }

  /** A sequence of four elements is the display of those four. */
  lemma FourParts<T>(parts: seq<T>)
    requires |parts| == 4
    ensures parts == [parts[0], parts[1], parts[2], parts[3]]
  {
  }

  /** Concatenates `parts`, putting `sep` between consecutive parts. */
  function Join(parts: seq<string>, sep: char): string
    requires |parts| > 0
    decreases |parts|
  {
    if |parts| == 1 then parts[0] else parts[0] + [sep] + Join(parts[1..], sep)
  }

  /** Joining four parts puts the separator between each consecutive pair. */
  lemma Join4(a: string, b: string, c: string, d: string, sep: char)
    ensures Join([a, b, c, d], sep) == a + [sep] + b + [sep] + c + [sep] + d
  {
    var f := [a, b, c, d];
    assert f[1..][1..][1..] == [d];
    assert f[1..][1..] == [c, d];
    assert f[1..] == [b, c, d];
    assert Join(f[1..][1..][1..], sep) == d;
    assert Join(f[1..][1..], sep) == c + [sep] + d;
    assert Join(f[1..], sep) == b + [sep] + (c + [sep] + d);
  }

  /** Cuts `s` at every occurrence of `sep`; the pieces, joined again with `sep`, give back `s`. */
  function Split(s: string, sep: char): (parts: seq<string>)
    ensures |parts| > 0
    ensures forall i :: 0 <= i < |parts| ==> sep !in parts[i]
    ensures Join(parts, sep) == s
    decreases |s|
  {
    if s == [] then [""]
    else
      var rest := Split(s[1..], sep);
      if s[0] == sep then
        assert ([""] + rest)[1..] == rest;
        [""] + rest
      else
        var parts := [[s[0]] + rest[0]] + rest[1..];
        assert parts[1..] == rest[1..];
        assert |rest| > 1 ==> Join(rest, sep) == rest[0] + [sep] + Join(rest[1..], sep);
        assert s == [s[0]] + s[1..];
        parts
  }

  /** A string free of `sep` stays in one piece. */
  lemma SplitWithoutSeparator(s: string, sep: char)
    requires sep !in s
    ensures Split(s, sep) == [s]
  {
  }

  /** A separator-free prefix is glued onto the first piece of what follows it. */
  lemma {:induction false} SplitFreePrefix(a: string, t: string, sep: char)
    requires sep !in a
    ensures Split(a + t, sep) == [a + Split(t, sep)[0]] + Split(t, sep)[1..]
    decreases |a|
  {
    if a != [] {
      var parts := Split(t, sep);
      assert (a + t)[1..] == a[1..] + t;
      SplitFreePrefix(a[1..], t, sep);
      var rest := Split(a[1..] + t, sep);
      assert rest[0] == a[1..] + parts[0] && rest[1..] == parts[1..];
      assert (a + t)[0] == a[0] != sep;
      assert Split(a + t, sep) == [[a[0]] + rest[0]] + rest[1..];
      assert [a[0]] + (a[1..] + parts[0]) == a + parts[0];
    } else {
      var parts := Split(t, sep);
      assert a + t == t;
      assert a + parts[0] == parts[0];
      assert parts == [parts[0]] + parts[1..];
    }
  }

  /** Splitting undoes joining, when no part contains the separator. */
  lemma {:induction false} SplitJoin(parts: seq<string>, sep: char)
    requires |parts| > 0
    requires forall i :: 0 <= i < |parts| ==> sep !in parts[i]
    ensures Split(Join(parts, sep), sep) == parts
    decreases |parts|
  {
    if |parts| == 1 {
      SplitWithoutSeparator(parts[0], sep);
    } else {
      var tail := Join(parts[1..], sep);
      SplitJoin(parts[1..], sep);
      assert ([sep] + tail)[1..] == tail;
      assert Split([sep] + tail, sep) == [""] + parts[1..];
      assert Join(parts, sep) == parts[0] + ([sep] + tail);
      SplitFreePrefix(parts[0], [sep] + tail, sep);
      assert parts[0] + "" == parts[0];
      assert parts == [parts[0]] + parts[1..];
    }
  }

  /** Every character of a joined string comes from a part or is the separator. */
  lemma {:induction false} JoinChars(parts: seq<string>, sep: char, P: char -> bool)
    requires |parts| > 0
    requires P(sep)
    requires forall i, j :: 0 <= i < |parts| && 0 <= j < |parts[i]| ==> P(parts[i][j])
    ensures forall k :: 0 <= k < |Join(parts, sep)| ==> P(Join(parts, sep)[k])
    decreases |parts|
  {
    if |parts| > 1 {
      JoinChars(parts[1..], sep, P);
      var head, tail := parts[0], Join(parts[1..], sep);
      assert Join(parts, sep) == head + [sep] + tail;
      forall k | 0 <= k < |Join(parts, sep)|
        ensures P(Join(parts, sep)[k])
      {
        if k < |head| {
          assert Join(parts, sep)[k] == parts[0][k];
        } else if k > |head| {
          assert Join(parts, sep)[k] == tail[k - |head| - 1];
        }
      }
    }
  }
}
