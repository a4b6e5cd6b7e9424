// Text-building helpers shared by the three renderers of
// src/services/html_generator.py: left-to-right concatenation (the shape
// of every `+=` loop in that file) and Python's `str` of a non-negative
// integer (used for the `rowspan` attribute).

module HtmlText {

  /** The concatenation of f(x) for every x of xs, in order. It is defined
      by peeling off the LAST element, so one more loop iteration that
      appends f(xs[i]) extends it by exactly that piece. */
  function FlatMap<T, U>(xs: seq<T>, f: T -> seq<U>): seq<U>
  {
    if |xs| == 0 then [] else FlatMap(xs[..|xs| - 1], f) + f(xs[|xs| - 1])
  }

  lemma FlatMapSnoc<T, U>(xs: seq<T>, x: T, f: T -> seq<U>)
    ensures FlatMap(xs + [x], f) == FlatMap(xs, f) + f(x)
  {
    assert (xs + [x])[..|xs|] == xs;
  }

  /** Splitting the input splits the output at the same place. */
  lemma {:induction false} FlatMapAppend<T, U>(xs: seq<T>, ys: seq<T>, f: T -> seq<U>)
    ensures FlatMap(xs + ys, f) == FlatMap(xs, f) + FlatMap(ys, f)
  {
    if |ys| == 0 {
      assert xs + ys == xs;
    } else {
      var init := ys[..|ys| - 1];
      assert xs + ys == (xs + init) + [ys[|ys| - 1]];
      assert ys == init + [ys[|ys| - 1]];
      FlatMapSnoc(xs + init, ys[|ys| - 1], f);
      FlatMapSnoc(init, ys[|ys| - 1], f);
      FlatMapAppend(xs, init, f);
    }
  }

  lemma Assoc<T>(a: seq<T>, b: seq<T>, c: seq<T>)
    ensures (a + b) + c == a + (b + c)
  {
  }

  lemma Assoc4<T>(a: seq<T>, b: seq<T>, c: seq<T>, d: seq<T>)
    ensures ((a + b) + c) + d == a + ((b + c) + d)
  {
  }

  /** The first n elements are the first n-1 and then element n-1. */
  lemma TakeSnoc<T>(s: seq<T>, n: nat)
    requires 0 < n <= |s|
    ensures s[..n] == s[..n - 1] + [s[n - 1]]
  {
  }

  /** Appending one element keeps every earlier index. */
  lemma SnocAt<T>(prev: seq<T>, x: T, whole: seq<T>)
    requires whole == prev + [x]
    ensures |whole| == |prev| + 1 && whole[|prev|] == x
    ensures forall k :: 0 <= k < |prev| ==> whole[k] == prev[k]
  {
  }

  lemma PrefixOfAppend<T>(a: seq<T>, b: seq<T>, whole: seq<T>)
    requires whole == a + b
    ensures a <= whole
  {
    assert whole[..|a|] == a;
  }

  lemma PrefixTrans<T>(a: seq<T>, b: seq<T>, c: seq<T>)
    requires a <= b && b <= c
    ensures a <= c
  {
    assert c[..|a|] == b[..|a|];
  }

  /** A suffix of the second part is a suffix of the whole. */
  lemma SuffixOfAppend<T>(a: seq<T>, b: seq<T>, k: nat)
    requires k <= |b|
    ensures (a + b)[|a + b| - k..] == b[|b| - k..]
  {
  }

  /** The four parts of a concatenation are recovered by slicing at
      their lengths. */
  lemma SliceParts<T>(a: seq<T>, b: seq<T>, m: seq<T>, d: seq<T>, whole: seq<T>)
    requires whole == a + b + m + d
    ensures whole[..|a|] == a
    ensures whole[|a|..|a| + |b|] == b
    ensures whole[|a| + |b|..|whole| - |d|] == m
    ensures whole[|whole| - |d|..] == d
  {
  }

  /** The last k elements of a suffix are the last k of the whole. */
  lemma SuffixOfSuffix<T>(whole: seq<T>, part: seq<T>, k: nat)
    requires k <= |part| <= |whole| && whole[|whole| - |part|..] == part
    ensures whole[|whole| - k..] == part[|part| - k..]
  {
    assert whole[|whole| - k..] == whole[|whole| - |part|..][|part| - k..];
  }

  /** The output of a one-element input is the piece of that element. */
  lemma FlatMapSingle<T, U>(x: T, f: T -> seq<U>)
    ensures FlatMap([x], f) == f(x)
  {
    FlatMapSnoc([], x, f);
  }

  /** The output of a non-empty input ends with the piece of its last element. */
  lemma FlatMapEndsWithLast<T, U>(xs: seq<T>, f: T -> seq<U>)
    requires |xs| > 0
    ensures |FlatMap(xs, f)| >= |f(xs[|xs| - 1])|
    ensures FlatMap(xs, f)[|FlatMap(xs, f)| - |f(xs[|xs| - 1])|..] == f(xs[|xs| - 1])
  {
  }

  function DigitChar(d: nat): (c: char)
    requires d < 10
    ensures '0' <= c <= '9' && c as int - '0' as int == d
  {
    ('0' as int + d) as char
  }

  /** Python's `str(n)` for a non-negative integer: its decimal digits,
      most significant first, without leading zeros. */
  function Decimal(n: nat): (s: string)
    ensures |s| > 0
    ensures forall i :: 0 <= i < |s| ==> '0' <= s[i] <= '9'
    ensures s[0] == '0' ==> n == 0
    ensures s[0] == '0' ==> s == "0"
  {
    if n < 10 then [DigitChar(n)] else Decimal(n / 10) + [DigitChar(n % 10)]
  }

  /** The value of a string of decimal digits. */
  function DecimalValue(s: string): nat
    requires forall i :: 0 <= i < |s| ==> '0' <= s[i] <= '9'
  {
    if |s| == 0 then 0
    else DecimalValue(s[..|s| - 1]) * 10 + (s[|s| - 1] as int - '0' as int)
  }

  /** Reading the rendered digits back gives the number: the `rowspan`
      attribute carries the member count exactly. */
  lemma {:induction false} DecimalRoundTrip(n: nat)
    ensures DecimalValue(Decimal(n)) == n
  {
    var s := Decimal(n);
    if n >= 10 {
      assert s[..|s| - 1] == Decimal(n / 10);
      DecimalRoundTrip(n / 10);
    }
  }
}
