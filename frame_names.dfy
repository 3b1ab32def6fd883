/**
 * The names under which frames are stored on disk: `frame_{i:05d}.png`, the
 * frame index written in decimal and padded with zeros to width 5. The
 * reassembly step orders the directory listing by these names, so what
 * matters is that, below 100000, name order is index order.
 */
module FrameNames {

  /** The character of a decimal digit. */
  function DigitChar(d: nat): char
    requires d < 10
  {
    ('0' as int + d) as char
  }

  /** Python's `str(n)` for a non-negative integer: its shortest decimal form. */
  function Decimal(n: nat): (s: string)
    ensures 1 <= |s|
  {
    if n < 10 then [DigitChar(n)] else Decimal(n / 10) + [DigitChar(n % 10)]
  }

  function Pow10(w: nat): (p: nat)
    ensures 1 <= p
  {
    if w == 0 then 1 else 10 * Pow10(w - 1)
  }

  function Zeros(k: nat): string
  {
    seq(k, _ => '0')
  }

  /** The w lowest decimal digits of n, most significant first. */
  function Digits(n: nat, w: nat): (s: string)
    ensures |s| == w
  {
    if w == 0 then [] else Digits(n / 10, w - 1) + [DigitChar(n % 10)]
  }

  /** Python's `f"{n:05d}"`: the decimal form, zero-padded on the left to width 5. */
  function Pad5(n: nat): string
  {
    var s := Decimal(n);
    if |s| >= 5 then s else Zeros(5 - |s|) + s
  }

  /** The file name of frame i in a frame directory. */
  function FrameName(i: nat): string
  {
    "frame_" + Pad5(i) + ".png"
  }

  /** Python's `<` on strings: lexicographic order by code point. */
  predicate LexLess(a: string, b: string)
  {
    if a == [] then b != []
    else b != [] && (a[0] < b[0] || (a[0] == b[0] && LexLess(a[1..], b[1..])))
  }

  lemma {:induction false} LexLessIrreflexive(a: string)
    ensures !LexLess(a, a)
  {
    if a != [] {
      LexLessIrreflexive(a[1..]);
    }
  }

  lemma {:induction false} LexLessAsymmetric(a: string, b: string)
    requires LexLess(a, b)
    ensures !LexLess(b, a)
  {
    if a != [] && b != [] && a[0] == b[0] {
      LexLessAsymmetric(a[1..], b[1..]);
    }
  }

  /** Comparing two strings of equal length decides the comparison of any extensions. */
  lemma {:induction false} LexLessAppend(a: string, b: string, x: string, y: string)
    requires |a| == |b| && LexLess(a, b)
    ensures LexLess(a + x, b + y)
  {
    assert (a + x)[0] == a[0] && (b + y)[0] == b[0];
    if a[0] == b[0] && LexLess(a[1..], b[1..]) {
      LexLessAppend(a[1..], b[1..], x, y);
      assert (a + x)[1..] == a[1..] + x;
      assert (b + y)[1..] == b[1..] + y;
    }
  }

  /** A common prefix does not change the comparison. */
  lemma {:induction false} LexLessSamePrefix(p: string, a: string, b: string)
    requires LexLess(a, b)
    ensures LexLess(p + a, p + b)
  {
    if p == [] {
      assert p + a == a && p + b == b;
    } else {
      LexLessSamePrefix(p[1..], a, b);
      assert (p + a)[1..] == p[1..] + a;
      assert (p + b)[1..] == p[1..] + b;
    }
  }

  lemma {:induction false} DecimalLength(n: nat, w: nat)
    requires 1 <= w
    ensures |Decimal(n)| <= w <==> n < Pow10(w)
  {
    if n >= 10 && w > 1 {
      DecimalLength(n / 10, w - 1);
    }
  }

  lemma {:induction false} DecimalIsDigits(n: nat)
    ensures Decimal(n) == Digits(n, |Decimal(n)|)
  {
    if n >= 10 {
      DecimalIsDigits(n / 10);
    }
  }

  lemma {:induction false} ZeroDigits(j: nat)
    ensures Digits(0, j) == Zeros(j)
  {
    if j > 0 {
      ZeroDigits(j - 1);
      assert Zeros(j) == Zeros(j - 1) + ['0'];
    }
  }

  /** Below 10^k, asking for j more digits only adds leading zeros. */
  lemma {:induction false} DigitsPad(n: nat, k: nat, j: nat)
    requires n < Pow10(k)
    ensures Digits(n, k + j) == Zeros(j) + Digits(n, k)
  {
    if k == 0 {
      ZeroDigits(j);
      assert Zeros(j) + [] == Zeros(j);
    } else {
      DigitsPad(n / 10, k - 1, j);
      assert Digits(n, k + j) == Digits(n / 10, k - 1 + j) + [DigitChar(n % 10)];
    }
  }

  /** The padded form is the decimal form preceded by zeros up to width 5; a longer form is kept whole. */
  lemma Pad5Spec(n: nat)
    ensures var r, d := Pad5(n), Decimal(n);
      |r| == (if |d| >= 5 then |d| else 5) &&
      r[|r| - |d|..] == d &&
      forall k :: 0 <= k < |r| - |d| ==> r[k] == '0'
  {
  }

  /** A positive number's decimal form has no leading zero. */
  lemma {:induction false} DecimalLeading(n: nat)
    ensures n >= 1 ==> Decimal(n)[0] != '0'
    ensures |Decimal(n)| >= 2 ==> n >= 10
  {
    if n >= 10 {
      DecimalLeading(n / 10);
      assert Decimal(n)[0] == Decimal(n / 10)[0];
    }
  }

  /** Distinct numbers have distinct decimal forms. */
  lemma {:induction false} DecimalInjective(n: nat, m: nat)
    requires Decimal(n) == Decimal(m)
    ensures n == m
  {
    if n >= 10 && m >= 10 {
      var d := Decimal(n);
      assert d[..|d| - 1] == Decimal(n / 10);
      assert d[..|d| - 1] == Decimal(m / 10);
      DecimalInjective(n / 10, m / 10);
      assert DigitChar(n % 10) == d[|d| - 1] == DigitChar(m % 10);
    }
  }

  /** Zero padding keeps distinct numbers apart, at every width. */
  lemma Pad5Injective(n: nat, m: nat)
    requires Pad5(n) == Pad5(m)
    ensures n == m
  {
    var r, dn, dm := Pad5(n), Decimal(n), Decimal(m);
    Pad5Spec(n);
    Pad5Spec(m);
    DecimalLeading(n);
    DecimalLeading(m);
    assert |dn| == |dm|;
    assert dn == r[|r| - |dn|..] == dm;
    DecimalInjective(n, m);
  }

  /**
   * Distinct frames get distinct file names, for every index, so a frame
   * directory can be keyed by index.
   */
  lemma FrameNameInjective(i: nat, j: nat)
    ensures FrameName(i) == FrameName(j) ==> i == j
  {
    if FrameName(i) == FrameName(j) {
      var r := FrameName(i);
      assert r[6..|r| - 4] == Pad5(i);
      assert r[6..|r| - 4] == Pad5(j);
      Pad5Injective(i, j);
    }
  }

  /** Below 100000, the padded form is exactly the five lowest digits. */
  lemma Pad5IsDigits(n: nat)
    requires n < 100000
    ensures Pad5(n) == Digits(n, 5)
  {
    var len := |Decimal(n)|;
    assert Pow10(5) == 100000;
    DecimalLength(n, 5);
    DecimalLength(n, len);
    DecimalIsDigits(n);
    DigitsPad(n, len, 5 - len);
    if len < 5 {
      assert Digits(n, 5) == Zeros(5 - len) + Digits(n, len);
    } else {
      assert Digits(n, 5) == Zeros(0) + Digits(n, len);
    }
  }

  /** Fixed-width digit strings compare like the numbers they denote. */
  lemma {:induction false} DigitsOrder(n: nat, m: nat, w: nat)
    requires n < m < Pow10(w)
    ensures LexLess(Digits(n, w), Digits(m, w))
  {
    if w > 0 {
      var a, b := Digits(n / 10, w - 1), Digits(m / 10, w - 1);
      var c, d := DigitChar(n % 10), DigitChar(m % 10);
      if n / 10 < m / 10 {
        DigitsOrder(n / 10, m / 10, w - 1);
        LexLessAppend(a, b, [c], [d]);
      } else {
        assert a == b && c < d;
        assert LexLess([c], [d]);
        LexLessSamePrefix(a, [c], [d]);
      }
    }
  }

  /** A frame name below the 100000 ceiling is always 15 characters long. */
  lemma FrameNameLength(i: nat)
    requires i < 100000
    ensures |FrameName(i)| == 15
  {
    Pad5IsDigits(i);
  }

  /** Below 100000, sorting frame names sorts frames by index. */
  lemma FrameNameOrder(i: nat, j: nat)
    requires i < 100000 && j < 100000
    ensures LexLess(FrameName(i), FrameName(j)) <==> i < j
  {
    assert Pow10(5) == 100000;
    Pad5IsDigits(i);
    Pad5IsDigits(j);
    assert FrameName(i) == "frame_" + (Digits(i, 5) + ".png");
    assert FrameName(j) == "frame_" + (Digits(j, 5) + ".png");
    if i < j {
      DigitsOrder(i, j, 5);
      LexLessAppend(Digits(i, 5), Digits(j, 5), ".png", ".png");
      LexLessSamePrefix("frame_", Digits(i, 5) + ".png", Digits(j, 5) + ".png");
    } else if i == j {
      LexLessIrreflexive(FrameName(i));
    } else {
      DigitsOrder(j, i, 5);
      LexLessAppend(Digits(j, 5), Digits(i, 5), ".png", ".png");
      LexLessSamePrefix("frame_", Digits(j, 5) + ".png", Digits(i, 5) + ".png");
      LexLessAsymmetric(FrameName(j), FrameName(i));
    }
  }

  /** At the ceiling the correspondence breaks: frame 100000 sorts before frame 99999. */
  lemma FrameNameCeiling()
    ensures LexLess(FrameName(100000), FrameName(99999))
  {
    assert Decimal(100000) == "100000";
    assert Decimal(99999) == "99999";
    assert LexLess("100000.png", "99999.png");
    LexLessSamePrefix("frame_", "100000.png", "99999.png");
    assert FrameName(100000) == "frame_" + "100000.png";
    assert FrameName(99999) == "frame_" + "99999.png";
  }
}
