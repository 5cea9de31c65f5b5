// Decimal numbers as ASCII text, the way Rust formats unsigned integers.
module Decimals {
  import opened Arithmetic

  function Pow10(n: nat): (p: nat)
    ensures p >= 1
  {
    if n == 0 then 1 else 10 * Pow10(n - 1)
  }

  function Digit(d: nat): byte
    requires d < 10
  {
    '0' as int + d
  }

  /** `n` in decimal with at least `width` digits, as `{:0width}` writes it. */
  function Padded(n: nat, width: nat): (text: seq<byte>)
    ensures |text| >= 1 && |text| >= width
    ensures forall i :: 0 <= i < |text| ==> '0' as int <= text[i] <= '9' as int
    decreases n, width
  {
    if n < 10 && width <= 1 then [Digit(n)]
    else Padded(n / 10, if width == 0 then 0 else width - 1) + [Digit(n % 10)]
  }

  /** The text is as wide as asked exactly when the number fits. */
  lemma {:induction false} WidthIsKept(n: nat, width: nat)
    requires width >= 1
    ensures |Padded(n, width)| == width <==> n < Pow10(width)
    decreases width
  {
    if width == 1 {
      assert Pow10(1) == 10;
    } else {
      WidthIsKept(n / 10, width - 1);
    }
  }

  /** Without padding, a number takes at most `k` digits exactly when it is below the k-th power of ten. */
  lemma {:induction false} PlainWidth(n: nat, width: nat, k: nat)
    requires k >= 1 && width <= 1
    ensures |Padded(n, width)| <= k <==> n < Pow10(k)
    decreases k
  {
    if k == 1 {
      assert Pow10(1) == 10;
    } else if n >= 10 {
      PlainWidth(n / 10, 0, k - 1);
    }
  }

  /** The number that a digit string denotes. */
  function Value(text: seq<byte>): nat
    requires forall i :: 0 <= i < |text| ==> '0' as int <= text[i] <= '9' as int
  {
    if text == [] then 0 else 10 * Value(text[..|text| - 1]) + (text[|text| - 1] - '0' as int)
  }

  lemma {:induction false} ValueOfPadded(n: nat, width: nat)
    ensures Value(Padded(n, width)) == n
    decreases n, width
  {
    if n < 10 && width <= 1 {
      assert Value([Digit(n)][..0]) == 0;
    } else {
      var rest := Padded(n / 10, if width == 0 then 0 else width - 1);
      assert (rest + [Digit(n % 10)])[..|rest|] == rest;
      ValueOfPadded(n / 10, if width == 0 then 0 else width - 1);
    }
  }

  /** Cutting digits off the end of a positive number makes it smaller. */
  lemma {:induction false} PrefixIsSmaller(text: seq<byte>, k: nat)
    requires forall i :: 0 <= i < |text| ==> '0' as int <= text[i] <= '9' as int
    requires k < |text| && Value(text) > 0
    ensures Value(text[..k]) < Value(text)
  {
    var init := text[..|text| - 1];
    assert text[..k] == init[..k];
    if k < |init| {
      if Value(init) > 0 {
        PrefixIsSmaller(init, k);
      } else {
        PrefixOfZero(init, k);
      }
    } else {
      assert init[..k] == init;
    }
  }

  lemma {:induction false} PrefixOfZero(text: seq<byte>, k: nat)
    requires forall i :: 0 <= i < |text| ==> '0' as int <= text[i] <= '9' as int
    requires k <= |text| && Value(text) == 0
    ensures Value(text[..k]) == 0
  {
    if k < |text| {
      assert text[..k] == text[..|text| - 1][..k];
      PrefixOfZero(text[..|text| - 1], k);
    } else {
      assert text[..k] == text;
    }
  }

  // ----- The order of texts -----

  ghost predicate FirstDiffersAt(a: seq<byte>, b: seq<byte>, k: nat) {
    k < |a| && k < |b| && a[k] < b[k] && forall i :: 0 <= i < k ==> a[i] == b[i]
  }

  /** Texts of one length compare at the first byte in which they differ. */
  ghost predicate Before(a: seq<byte>, b: seq<byte>) {
    exists k: nat :: FirstDiffersAt(a, b, k)
  }

  lemma BeforeIsAsymmetric(a: seq<byte>, b: seq<byte>)
    requires Before(a, b)
    ensures a != b && !Before(b, a)
  {
    var k: nat :| FirstDiffersAt(a, b, k);
    forall j: nat ensures !FirstDiffersAt(b, a, j) {
      if j > k {
        assert a[k] != b[k];
      }
    }
  }

  lemma BeforeWithSuffix(a: seq<byte>, b: seq<byte>, s: seq<byte>, t: seq<byte>)
    requires Before(a, b)
    ensures Before(a + s, b + t)
  {
    var k: nat :| FirstDiffersAt(a, b, k);
    assert FirstDiffersAt(a + s, b + t, k);
  }

  lemma BeforeWithPrefix(p: seq<byte>, a: seq<byte>, b: seq<byte>)
    requires Before(a, b)
    ensures Before(p + a, p + b)
  {
    var k: nat :| FirstDiffersAt(a, b, k);
    assert FirstDiffersAt(p + a, p + b, |p| + k);
  }

  /** Zero-padded numbers of one width compare as numbers do. */
  lemma {:induction false} PaddedKeepsOrder(m: nat, n: nat, width: nat)
    requires 1 <= width && m < n < Pow10(width)
    ensures Before(Padded(m, width), Padded(n, width))
    decreases width
  {
    WidthIsKept(m, width);
    WidthIsKept(n, width);
    if width == 1 {
      assert FirstDiffersAt([Digit(m)], [Digit(n)], 0);
    } else {
      var a, b := Padded(m / 10, width - 1), Padded(n / 10, width - 1);
      if m / 10 < n / 10 {
        PaddedKeepsOrder(m / 10, n / 10, width - 1);
        BeforeWithSuffix(a, b, [Digit(m % 10)], [Digit(n % 10)]);
      } else {
        assert FirstDiffersAt(a + [Digit(m % 10)], b + [Digit(n % 10)], |a|);
      }
    }
  }
}
