/** String helpers shared by the models: JavaScript's String.prototype.split with a
    one-character separator, Array.prototype.join, a global one-character replace
    (the `s.replace(/[...]/g, c)` idiom) and decimal rendering of numbers. */
module Text {

  /** `s.split(sep)`: the pieces between separators; the empty string gives [""]. */
  function Split(s: string, sep: char): (r: seq<string>)
    ensures |r| >= 1
  {
    if s == [] then [""]
    else
      var rest := Split(s[1..], sep);
      if s[0] == sep then [""] + rest
      else [[s[0]] + rest[0]] + rest[1..]
  }

  /** No piece of a split holds the separator. */
  lemma {:induction false} SplitHasNoSep(s: string, sep: char)
    ensures forall i :: 0 <= i < |Split(s, sep)| ==> sep !in Split(s, sep)[i]
  {
    if s != [] {
      SplitHasNoSep(s[1..], sep);
    }
  }

  /** `xs.join(sep)`. */
  function JoinWith(xs: seq<string>, sep: char): string
  {
    if xs == [] then ""
    else if |xs| == 1 then xs[0]
    else xs[0] + [sep] + JoinWith(xs[1..], sep)
  }

  /** A string with no separator in it is one piece. */
  lemma {:induction false} SplitNoSep(s: string, sep: char)
    requires sep !in s
    ensures Split(s, sep) == [s]
  {
    if s != [] {
      SplitNoSep(s[1..], sep);
      assert [s[0]] + s[1..] == s;
    }
  }

  /** Splitting distributes over a separator placed between two strings. */
  lemma {:induction false} SplitAppend(a: string, sep: char, b: string)
    ensures Split(a + [sep] + b, sep) == Split(a, sep) + Split(b, sep)
  {
    if a == [] {
      assert a + [sep] + b == [sep] + b;
      SplitStep(sep, b, sep);
    } else {
      var c, t := a[0], a[1..];
      SplitAppend(t, sep, b);
      SplitAppendStep(c, t, sep, b);
      assert a == [c] + t;
    }
  }

  /** The inductive step of SplitAppend: one more leading character. */
  lemma SplitAppendStep(c: char, t: string, sep: char, b: string)
    requires Split(t + [sep] + b, sep) == Split(t, sep) + Split(b, sep)
    ensures Split([c] + t + [sep] + b, sep) == Split([c] + t, sep) + Split(b, sep)
  {
    var x, y := Split(t, sep), Split(b, sep);
    assert [c] + t + [sep] + b == [c] + (t + [sep] + b);
    if c == sep {
      assert Split([c] + (t + [sep] + b), sep) == [""] + (x + y) by {
        SplitStep(c, t + [sep] + b, sep);
      }
      assert Split([c] + t, sep) == [""] + x by {
        SplitStep(c, t, sep);
      }
      SeqAssoc([""], x, y);
    } else {
      var h := [c] + x[0];
      assert Split([c] + (t + [sep] + b), sep) == [h] + (x[1..] + y) by {
        SplitStep(c, t + [sep] + b, sep);
        assert (x + y)[0] == x[0] && (x + y)[1..] == x[1..] + y;
      }
      assert Split([c] + t, sep) == [h] + x[1..] by {
        SplitStep(c, t, sep);
      }
      SeqAssoc([h], x[1..], y);
    }
  }

  lemma SeqAssoc(u: seq<string>, v: seq<string>, w: seq<string>)
    ensures u + (v + w) == (u + v) + w
  {
  }

  /** One step of Split, on a leading character. */
  lemma SplitStep(c: char, t: string, sep: char)
    ensures Split([c] + t, sep) == if c == sep then [""] + Split(t, sep)
      else [[c] + Split(t, sep)[0]] + Split(t, sep)[1..]
  {
    assert ([c] + t)[0] == c && ([c] + t)[1..] == t;
  }

  /** Joining pieces that hold no separator and splitting again gives them back. */
  lemma {:induction false} SplitJoin(xs: seq<string>, sep: char)
    requires |xs| >= 1
    requires forall i :: 0 <= i < |xs| ==> sep !in xs[i]
    ensures Split(JoinWith(xs, sep), sep) == xs
  {
    if |xs| == 1 {
      SplitNoSep(xs[0], sep);
    } else {
      SplitJoin(xs[1..], sep);
      SplitNoSep(xs[0], sep);
      SplitAppend(xs[0], sep, JoinWith(xs[1..], sep));
    }
  }

  /** `s.replace(/[bad]/g, sub)`: every character of `bad` becomes `sub`. */
  function Replace(s: string, bad: set<char>, sub: char): string
  {
    if s == [] then "" else [if s[0] in bad then sub else s[0]] + Replace(s[1..], bad, sub)
  }

  /** Replace keeps the length and works position by position. */
  lemma {:induction false} ReplaceAt(s: string, bad: set<char>, sub: char)
    ensures |Replace(s, bad, sub)| == |s|
    ensures forall i :: 0 <= i < |s| ==>
      Replace(s, bad, sub)[i] == (if s[i] in bad then sub else s[i])
  {
    if s != [] {
      ReplaceAt(s[1..], bad, sub);
    }
  }

  /** Replacing with a character outside `bad` leaves no character of `bad`. */
  lemma ReplaceRemoves(s: string, bad: set<char>, sub: char)
    requires sub !in bad
    ensures forall i :: 0 <= i < |Replace(s, bad, sub)| ==> Replace(s, bad, sub)[i] !in bad
  {
    ReplaceAt(s, bad, sub);
  }

  function DigitChar(d: int): char
    requires 0 <= d < 10
  {
    "0123456789"[d]
  }

  predicate IsDigit(c: char) { '0' <= c <= '9' }

  function DigitValue(c: char): int
    requires IsDigit(c)
  {
    c as int - '0' as int
  }

  /** `String(n)` for a non-negative integer: its decimal digits, no leading zero. */
  function NatToString(n: nat): (r: string)
    ensures |r| >= 1
    ensures forall i :: 0 <= i < |r| ==> IsDigit(r[i])
    ensures IsCanonicalDecimal(r)
    decreases n
  {
    if n < 10 then [DigitChar(n)] else NatToString(n / 10) + [DigitChar(n % 10)]
  }

  /** A decimal numeral as `String(n)` renders one: digits only, no leading zero unless it is "0". */
  predicate IsCanonicalDecimal(s: string)
  {
    |s| >= 1 && (forall i :: 0 <= i < |s| ==> IsDigit(s[i])) && (s[0] == '0' ==> |s| == 1)
  }

  /** The value of a non-empty string of decimal digits. */
  function DecimalValue(s: string): nat
    requires forall i :: 0 <= i < |s| ==> IsDigit(s[i])
  {
    if s == [] then 0 else DecimalValue(s[..|s| - 1]) * 10 + DigitValue(s[|s| - 1])
  }

  lemma {:induction false} DecimalValueOfNatToString(n: nat)
    ensures DecimalValue(NatToString(n)) == n
    decreases n
  {
    if n >= 10 {
      DecimalValueOfNatToString(n / 10);
      var s := NatToString(n);
      assert s[..|s| - 1] == NatToString(n / 10);
    }
  }

  lemma {:induction false} DecimalValuePositive(s: string)
    requires IsCanonicalDecimal(s) && s[0] != '0'
    ensures DecimalValue(s) >= 1
    ensures |s| >= 2 ==> DecimalValue(s) >= 10
  {
    if |s| >= 2 {
      var t := s[..|s| - 1];
      assert t[0] == s[0];
      DecimalValuePositive(t);
    }
  }

  /** A canonical numeral is exactly the rendering of its value. */
  lemma {:induction false} NatToStringOfDecimalValue(s: string)
    requires IsCanonicalDecimal(s)
    ensures NatToString(DecimalValue(s)) == s
    decreases |s|
  {
    if |s| >= 2 {
      var t, d := s[..|s| - 1], s[|s| - 1];
      assert IsCanonicalDecimal(t) by {
        assert t[0] == s[0];
      }
      NatToStringOfDecimalValue(t);
      var v := DecimalValue(s);
      assert v >= 10 by {
        DecimalValuePositive(s);
      }
      assert v / 10 == DecimalValue(t) && v % 10 == DigitValue(d);
      assert NatToString(v) == NatToString(v / 10) + [DigitChar(v % 10)];
      assert DigitChar(DigitValue(d)) == d;
      assert s == t + [d];
    }
  }

  /** `String(n) === h` holds exactly when `h` is a canonical numeral whose value is `n`. */
  lemma NatToStringMatches(n: nat, h: string)
    ensures NatToString(n) == h <==> IsCanonicalDecimal(h) && DecimalValue(h) == n
  {
    DecimalValueOfNatToString(n);
    if IsCanonicalDecimal(h) {
      NatToStringOfDecimalValue(h);
    }
  }
}
