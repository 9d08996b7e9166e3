/**
 * The JavaScript string primitives the ledger's date handling is built from:
 * `String(n)` of an integer, `padStart(2, '0')`, `split('-')`, `Number(s)`
 * and the relational string comparison (`<`, `<=`), which orders strings
 * code unit by code unit with a proper prefix first.
 */
module Text {
  import opened Wrappers

  predicate IsDigit(c: char) {
    '0' <= c <= '9'
  }

  predicate AllDigits(s: string) {
    forall i :: 0 <= i < |s| ==> IsDigit(s[i])
  }

  function DigitChar(n: nat): (c: char)
    requires n < 10
    ensures IsDigit(c)
  {
    ('0' as int + n) as char
  }

  function DigitValue(c: char): (n: nat)
    requires IsDigit(c)
    ensures n < 10
  {
    c as int - '0' as int
  }

  // ---------------------------------------------------------------------------
  // Number to text

  /** `String(n)` for a non-negative integer: its decimal digits, without a leading zero. */
  function NatStr(n: nat): (s: string)
    ensures |s| >= 1 && AllDigits(s)
    ensures |s| == 1 <==> n < 10
  {
    if n < 10 then [DigitChar(n)] else NatStr(n / 10) + [DigitChar(n % 10)]
  }

  /** `String(n)` for any integer: a minus sign before the digits of a negative number. */
  function IntStr(n: int): (s: string)
    ensures |s| >= 1
    ensures s[0] == '-' || IsDigit(s[0])
  {
    if n < 0 then "-" + NatStr(-n) else NatStr(n)
  }

  /** `s.padStart(2, '0')`: zeros in front until the text is two characters long. */
  function PadStart2(s: string): (r: string)
    ensures |r| == if |s| >= 2 then |s| else 2
    ensures r[|r| - |s|..] == s
    ensures forall i :: 0 <= i < |r| - |s| ==> r[i] == '0'
  {
    if |s| >= 2 then s else if |s| == 1 then "0" + s else "00"
  }

  // ---------------------------------------------------------------------------
  // Text to number

  /** The value of a string of decimal digits, most significant digit first. */
  function DigitsVal(s: string): nat
    requires AllDigits(s)
  {
    if |s| == 0 then 0 else DigitsVal(s[..|s| - 1]) * 10 + DigitValue(s[|s| - 1])
  }

  /**
   * `Number(s)` on the pieces of a date string: the empty string is 0, a run of
   * digits is its decimal value, and any other text is NaN (None).
   */
  function ToNumber(s: string): (r: Option<nat>)
    ensures r.Some? <==> AllDigits(s)
    ensures r.Some? ==> r.value == DigitsVal(s)
    ensures s == "" ==> r == Some(0)
  {
    if AllDigits(s) then Some(DigitsVal(s)) else None
  }

  /** Reading back the digits `String(n)` wrote gives `n`. */
  lemma {:induction false} NatStrValue(n: nat)
    ensures DigitsVal(NatStr(n)) == n
  {
    if n >= 10 {
      var s := NatStr(n);
      assert s[..|s| - 1] == NatStr(n / 10);
      NatStrValue(n / 10);
    } else {
      var s := NatStr(n);
      assert s[..|s| - 1] == [];
    }
  }

  /** Zero padding does not change the number a digit string denotes. */
  lemma PadNatValue(n: nat)
    ensures AllDigits(PadStart2(NatStr(n)))
    ensures DigitsVal(PadStart2(NatStr(n))) == n
  {
    NatStrValue(n);
    if n < 10 {
      var s := PadStart2(NatStr(n));
      assert s == ['0', DigitChar(n)];
      assert s[..1] == ['0'];
      assert s[..1][..0] == [];
    }
  }

  /** `String(n)` has as many characters as `n` has decimal digits (up to four). */
  lemma {:induction false} NatStrWidth(n: nat)
    ensures n < 10 ==> |NatStr(n)| == 1
    ensures 10 <= n < 100 ==> |NatStr(n)| == 2
    ensures 100 <= n < 1000 ==> |NatStr(n)| == 3
    ensures 1000 <= n < 10000 ==> |NatStr(n)| == 4
  {
    if n >= 10 {
      NatStrWidth(n / 10);
    }
  }

  // ---------------------------------------------------------------------------
  // split

  /** `s.split(sep)`: the maximal pieces between separators, always at least one. */
  function Split(s: string, sep: char): (parts: seq<string>)
    ensures |parts| >= 1
    ensures forall i :: 0 <= i < |parts| ==> sep !in parts[i]
  {
    if |s| == 0 then [""]
    else
      var rest := Split(s[1..], sep);
      if s[0] == sep then [""] + rest
      else [[s[0]] + rest[0]] + rest[1..]
  }

  /** `parts.join(sep)`. */
  function Join(parts: seq<string>, sep: char): string
    requires |parts| >= 1
  {
    if |parts| == 1 then parts[0] else parts[0] + [sep] + Join(parts[1..], sep)
  }

  /** Splitting loses nothing: joining the pieces back gives the original text. */
  lemma {:induction false} SplitJoin(s: string, sep: char)
    ensures Join(Split(s, sep), sep) == s
  {
    if |s| > 0 {
      var rest := Split(s[1..], sep);
      SplitJoin(s[1..], sep);
      assert s == [s[0]] + s[1..];
      if s[0] == sep {
        assert ([""] + rest)[1..] == rest;
      } else if |rest| > 1 {
        var parts := Split(s, sep);
        assert parts[1..] == rest[1..];
        assert Join(rest, sep) == rest[0] + [sep] + Join(rest[1..], sep);
      }
    }
  }

  /** Text without a separator is glued onto the first piece of whatever follows. */
  lemma {:induction false} SplitPrefix(a: string, t: string, sep: char)
    requires sep !in a
    ensures Split(a + t, sep) == [a + Split(t, sep)[0]] + Split(t, sep)[1..]
  {
    if |a| > 0 {
      assert (a + t)[1..] == a[1..] + t;
      assert (a + t)[0] == a[0];
      SplitPrefix(a[1..], t, sep);
      assert [a[0]] + (a[1..] + Split(t, sep)[0]) == a + Split(t, sep)[0];
    } else {
      assert a + t == t;
      assert a + Split(t, sep)[0] == Split(t, sep)[0];
      assert Split(t, sep) == [Split(t, sep)[0]] + Split(t, sep)[1..];
    }
  }

  /** A separator-free piece followed by a separator splits off as a piece of its own. */
  lemma SplitAtSep(a: string, r: string, sep: char)
    requires sep !in a
    ensures Split(a + [sep] + r, sep) == [a] + Split(r, sep)
  {
    var tail := [sep] + r;
    assert tail[1..] == r;
    assert Split(tail, sep) == [""] + Split(r, sep);
    SplitPrefix(a, tail, sep);
    assert a + [sep] + r == a + tail;
    assert a + "" == a;
  }

  /** Separator-free text is a single piece. */
  lemma SplitNone(a: string, sep: char)
    requires sep !in a
    ensures Split(a, sep) == [a]
  {
    SplitPrefix(a, "", sep);
    assert a + "" == a;
  }

  /** Three separator-free pieces joined by `sep` split back into exactly those pieces. */
  lemma SplitThree(a: string, b: string, c: string, sep: char)
    requires sep !in a && sep !in b && sep !in c
    ensures Split(a + [sep] + b + [sep] + c, sep) == [a, b, c]
  {
    var tail := b + [sep] + c;
    SplitNone(c, sep);
    SplitAtSep(b, c, sep);
    assert Split(tail, sep) == [b, c];
    SplitAtSep(a, tail, sep);
    assert Split(a + [sep] + tail, sep) == [a, b, c];
    assert a + [sep] + b + [sep] + c == a + [sep] + tail;
  }

  // ---------------------------------------------------------------------------
  // Relational comparison

  /** JavaScript `a < b` on strings: the first differing code unit decides, a proper prefix is smaller. */
  predicate StrLess(a: string, b: string) {
    if |b| == 0 then false
    else if |a| == 0 then true
    else if a[0] != b[0] then a[0] < b[0]
    else StrLess(a[1..], b[1..])
  }

  /** JavaScript `a <= b` on strings, which the language defines as `!(b < a)`. */
  predicate StrLeq(a: string, b: string) {
    !StrLess(b, a)
  }

  /** Comparing two texts that share a fixed-width head: the heads decide unless they are equal. */
  lemma {:induction false} StrLessAppend(x: string, y: string, p: string, q: string)
    requires |x| == |y|
    ensures StrLess(x + p, y + q) <==> StrLess(x, y) || (x == y && StrLess(p, q))
  {
    if |x| == 0 {
      assert x + p == p && y + q == q;
    } else {
      assert (x + p)[0] == x[0] && (y + q)[0] == y[0];
      assert (x + p)[1..] == x[1..] + p;
      assert (y + q)[1..] == y[1..] + q;
      StrLessAppend(x[1..], y[1..], p, q);
      assert x == [x[0]] + x[1..];
      assert y == [y[0]] + y[1..];
    }
  }

  /** Two digit strings of equal width compare as text exactly as their values compare as numbers. */
  lemma {:induction false} DigitsOrder(a: string, b: string)
    requires |a| == |b| && AllDigits(a) && AllDigits(b)
    ensures StrLess(a, b) <==> DigitsVal(a) < DigitsVal(b)
    ensures a == b <==> DigitsVal(a) == DigitsVal(b)
  {
    if |a| > 0 {
      var n := |a| - 1;
      var a', b' := a[..n], b[..n];
      assert a == a' + [a[n]];
      assert b == b' + [b[n]];
      DigitsOrder(a', b');
      StrLessAppend(a', b', [a[n]], [b[n]]);
      assert StrLess([a[n]], [b[n]]) <==> a[n] < b[n] by {
        assert [a[n]][1..] == [] && [b[n]][1..] == [];
      }
      assert DigitsVal(a) == DigitsVal(a') * 10 + DigitValue(a[n]);
      assert DigitsVal(b) == DigitsVal(b') * 10 + DigitValue(b[n]);
    }
  }

  /** Two `a-b-c` texts whose pieces have matching widths compare piece by piece. */
  lemma DashedLess(a: string, b: string, c: string, x: string, y: string, z: string)
    requires |a| == |x| && |b| == |y|
    ensures StrLess(a + "-" + b + "-" + c, x + "-" + y + "-" + z) <==>
              StrLess(a, x) || (a == x && (StrLess(b, y) || (b == y && StrLess(c, z))))
  {
    assert !StrLess("-", "-") by {
      assert "-"[1..] == "";
    }
    StrLessAppend("-", "-", c, z);
    StrLessAppend(b, y, "-" + c, "-" + z);
    StrLessAppend("-", "-", b + ("-" + c), y + ("-" + z));
    StrLessAppend(a, x, "-" + (b + ("-" + c)), "-" + (y + ("-" + z)));
    assert a + "-" + b + "-" + c == a + ("-" + (b + ("-" + c)));
    assert x + "-" + y + "-" + z == x + ("-" + (y + ("-" + z)));
  }
}
