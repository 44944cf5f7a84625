/** Decimal texts of natural numbers, as the formatting library prints them. */
module Decimal {

  type digit = d: int | 0 <= d < 10

  function DigitChar(d: digit): char
  {
    '0' + d as char
  }

  predicate IsDigit(c: char)
  {
    '0' <= c <= '9'
  }

  predicate AllDigits(text: string)
  {
    forall i :: 0 <= i < |text| ==> IsDigit(text[i])
  }

  /** "{}" */
  function Print(n: nat): (text: string)
    ensures text != [] && AllDigits(text)
  {
    if n < 10 then [DigitChar(n)] else Print(n / 10) + [DigitChar(n % 10)]
  }

  function Parse(text: string): nat
    requires AllDigits(text)
  {
    if text == [] then 0
    else 10 * Parse(text[..|text| - 1]) + (text[|text| - 1] as int - '0' as int)
  }

  lemma {:induction false} ParseOfPrint(n: nat)
    ensures Parse(Print(n)) == n
  {
    if n >= 10 {
      ParseOfPrint(n / 10);
      assert Print(n)[..|Print(n)| - 1] == Print(n / 10);
    } else {
      assert Print(n)[..0] == [];
    }
  }

  lemma PrintInjective(m: nat, n: nat)
    requires Print(m) == Print(n)
    ensures m == n
  {
    ParseOfPrint(m);
    ParseOfPrint(n);
  }

  function Zeros(count: nat): (text: string)
    ensures |text| == count && AllDigits(text)
  {
    if count == 0 then [] else "0" + Zeros(count - 1)
  }

  /** "{:0W}": padded with zeros on the left up to the width, and longer when the number needs it. */
  function PrintPadded(n: nat, width: nat): (text: string)
    ensures text != [] && AllDigits(text)
  {
    var text := Print(n);
    if |text| < width then Zeros(width - |text|) + text else text
  }

  lemma {:induction false} ParseOfZeros(count: nat, text: string)
    requires AllDigits(text)
    ensures AllDigits(Zeros(count) + text)
    ensures Parse(Zeros(count) + text) == Parse(text)
    decreases |text|, count
  {
    if text != [] {
      var n := |text| - 1;
      ParseOfZeros(count, text[..n]);
      assert (Zeros(count) + text)[..count + n] == Zeros(count) + text[..n];
    } else if count > 0 {
      ParseOfZeros(count - 1, []);
      assert Zeros(count - 1) + [] == Zeros(count - 1);
      ZerosSnoc(count);
      assert Zeros(count) + [] == Zeros(count);
      assert Zeros(count)[..count - 1] == Zeros(count - 1);
    }
  }

  lemma {:induction false} ZerosSnoc(count: nat)
    requires count > 0
    ensures Zeros(count) == Zeros(count - 1) + "0"
  {
    if count > 1 { ZerosSnoc(count - 1); }
  }

  lemma ParseOfPrintPadded(n: nat, width: nat)
    ensures Parse(PrintPadded(n, width)) == n
  {
    ParseOfPrint(n);
    if |Print(n)| < width { ParseOfZeros(width - |Print(n)|, Print(n)); }
  }

  function Power10(width: nat): (r: nat)
    ensures r >= 1
  {
    if width == 0 then 1 else 10 * Power10(width - 1)
  }

  /** All numbers below 10^width, printed at this width, have exactly that many digits, the last of them n % 10. */
  lemma {:induction false} PaddedStep(n: nat, width: nat)
    requires width > 0 && n < Power10(width)
    ensures |PrintPadded(n, width)| == width
    ensures width > 1 ==> PrintPadded(n, width) == PrintPadded(n / 10, width - 1) + [DigitChar(n % 10)]
  {
    if width > 1 {
      PaddedStep(n / 10, width - 1);
      if n < 10 {
        ZerosSnoc(width - 1);
      }
    } else {
      assert Power10(1) == 10 * Power10(0);
    }
  }

  // ----- the texts and no others -----

  lemma {:induction false} ParseBelow(text: string)
    requires AllDigits(text)
    ensures Parse(text) < Power10(|text|)
  {
    if text != [] { ParseBelow(text[..|text| - 1]); }
  }

  lemma {:induction false} ParsePositive(text: string)
    requires AllDigits(text) && text != [] && text[0] != '0'
    ensures Parse(text) > 0
  {
    if |text| > 1 { ParsePositive(text[..|text| - 1]); }
  }

  lemma {:induction false} SameLengthSameText(a: string, b: string)
    requires AllDigits(a) && AllDigits(b) && |a| == |b| && Parse(a) == Parse(b)
    ensures a == b
  {
    if a != [] {
      var n := |a| - 1;
      assert (a[n] as int - '0' as int) == Parse(a) % 10 == (b[n] as int - '0' as int);
      SameLengthSameText(a[..n], b[..n]);
      assert a == a[..n] + [a[n]] && b == b[..n] + [b[n]];
    }
  }

  lemma {:induction false} PrintLeads(n: nat)
    ensures n > 0 ==> Print(n)[0] != '0'
    ensures n == 0 ==> Print(n) == "0"
  {
    if n >= 10 { PrintLeads(n / 10); }
  }

  lemma LastDigit(leading: nat, c: char)
    requires IsDigit(c)
    ensures var n := 10 * leading + (c as int - '0' as int);
            n / 10 == leading && DigitChar(n % 10) == c
  {
  }

  lemma {:induction false} OnlyPrint(text: string)
    requires AllDigits(text) && text != [] && (|text| == 1 || text[0] != '0')
    ensures text == Print(Parse(text))
    decreases |text|
  {
    var n := |text| - 1;
    var leading := Parse(text[..n]);
    assert text == text[..n] + [text[n]];
    LastDigit(leading, text[n]);
    if n > 0 {
      ParsePositive(text[..n]);
      OnlyPrint(text[..n]);
      assert Parse(text) >= 10;
    }
  }

  /** The printed text of a number is the one text of digits that stands for it without a leading zero. */
  lemma PrintIff(n: nat, text: string)
    ensures text == Print(n)
       <==> AllDigits(text) && text != [] && Parse(text) == n && (|text| == 1 || text[0] != '0')
  {
    ParseOfPrint(n);
    PrintLeads(n);
    if AllDigits(text) && text != [] && (|text| == 1 || text[0] != '0') { OnlyPrint(text); }
  }

  /** The padded text is the one that stands for the number with at least `width` digits, and without a leading zero
      when it has more. */
  lemma PrintPaddedIff(n: nat, width: nat, text: string)
    requires width > 0
    ensures text == PrintPadded(n, width)
       <==> AllDigits(text) && |text| >= width && Parse(text) == n && (|text| == width || text[0] != '0')
  {
    ParseOfPrintPadded(n, width);
    PrintLeads(n);
    if AllDigits(text) && |text| >= width && Parse(text) == n && (|text| == width || text[0] != '0') {
      ParseBelow(text);
      if |text| == width {
        PaddedStep(n, width);
        SameLengthSameText(text, PrintPadded(n, width));
      } else {
        PrintIff(n, text);
      }
    }
  }

  /** The first difference between two texts, of any lengths, puts a first. */
  ghost predicate Before(a: string, b: string)
  {
    exists i :: 0 <= i < |a| && i < |b| && a[..i] == b[..i] && a[i] < b[i]
  }

  /** Lexicographic order: by the first difference, or as a proper prefix. */
  ghost predicate SortsBefore(a: string, b: string)
  {
    Before(a, b) || a < b
  }

  lemma BeforeAppended(a: string, b: string, restA: string, restB: string)
    requires Before(a, b)
    ensures Before(a + restA, b + restB)
  {
    var i :| 0 <= i < |a| && i < |b| && a[..i] == b[..i] && a[i] < b[i];
    assert (a + restA)[..i] == a[..i] && (b + restB)[..i] == b[..i];
  }

  lemma BeforeByLast(prefix: string, c: char, d: char)
    requires c < d
    ensures Before(prefix + [c], prefix + [d])
  {
    assert (prefix + [c])[..|prefix|] == prefix == (prefix + [d])[..|prefix|];
  }

  lemma TensThenUnits(m: nat, n: nat)
    requires m < n
    ensures m / 10 < n / 10 || (m / 10 == n / 10 && DigitChar(m % 10) < DigitChar(n % 10))
  {
    assert m == 10 * (m / 10) + m % 10 && n == 10 * (n / 10) + n % 10;
  }

  lemma UnitsOrder(m: nat, n: nat)
    requires m < n < 10
    ensures Before(PrintPadded(m, 1), PrintPadded(n, 1))
  {
    BeforeByLast([], DigitChar(m), DigitChar(n));
    assert PrintPadded(m, 1) == [] + [DigitChar(m)] && PrintPadded(n, 1) == [] + [DigitChar(n)];
  }

  /** At a fixed width, texts sort as the numbers do. */
  lemma {:induction false} PaddedOrder(m: nat, n: nat, width: nat)
    requires width > 0 && m < n < Power10(width)
    ensures Before(PrintPadded(m, width), PrintPadded(n, width))
    decreases width
  {
    if width == 1 {
      assert Power10(1) == 10 * Power10(0);
      UnitsOrder(m, n);
    } else {
      PaddedStep(m, width);
      PaddedStep(n, width);
      TensThenUnits(m, n);
      var a, b := PrintPadded(m / 10, width - 1), PrintPadded(n / 10, width - 1);
      if m / 10 < n / 10 {
        PaddedOrder(m / 10, n / 10, width - 1);
        BeforeAppended(a, b, [DigitChar(m % 10)], [DigitChar(n % 10)]);
      } else {
        BeforeByLast(a, DigitChar(m % 10), DigitChar(n % 10));
      }
    }
  }

  /** The last number of a width is all nines, and the next one starts again with a 1. */
  lemma {:induction false} WidthEnds(width: nat)
    requires width > 0
    ensures PrintPadded(Power10(width) - 1, width)[0] == '9'
    ensures |Print(Power10(width))| == width + 1 && Print(Power10(width))[0] == '1'
  {
    if width > 1 {
      WidthEnds(width - 1);
      PaddedStep(Power10(width) - 1, width);
      assert (Power10(width) - 1) / 10 == Power10(width - 1) - 1;
      assert Power10(width) / 10 == Power10(width - 1) && Power10(width) % 10 == 0;
    } else {
      assert Power10(1) == 10 * Power10(0);
      assert Print(10) == Print(1) + [DigitChar(0)];
      assert DigitChar(9) == '9' && DigitChar(1) == '1';
    }
  }

  // ----- order across widths -----

  /** A number without its last k digits. */
  function Leading(n: nat, k: nat): nat
  {
    if k == 0 then n else Leading(n / 10, k - 1)
  }

  lemma {:induction false} PrintOfLeading(n: nat, k: nat)
    requires k < |Print(n)|
    ensures Print(n)[..|Print(n)| - k] == Print(Leading(n, k))
    decreases k
  {
    if k == 0 {
      assert Print(n)[..|Print(n)|] == Print(n);
    } else {
      PrintOfLeading(n / 10, k - 1);
      assert Print(n)[..|Print(n)| - k] == Print(n / 10)[..|Print(n / 10)| - (k - 1)];
    }
  }

  lemma {:induction false} PrintBelow(n: nat)
    ensures n < Power10(|Print(n)|)
  {
    if n >= 10 {
      PrintBelow(n / 10);
    } else {
      assert Power10(1) == 10 * Power10(0);
    }
  }

  lemma {:induction false} PrintLengthens(m: nat, n: nat)
    requires m <= n
    ensures |Print(m)| <= |Print(n)|
  {
    if m >= 10 { PrintLengthens(m / 10, n / 10); }
  }

  lemma {:induction false} PowerGrows(low: nat, high: nat)
    requires low <= high
    ensures Power10(low) <= Power10(high)
    decreases high
  {
    if low < high { PowerGrows(low, high - 1); }
  }

  /** A padded text has at least its width, and is the padding of its number to its own length. */
  lemma PaddedToOwnLength(n: nat, width: nat)
    ensures |PrintPadded(n, width)| >= width
    ensures PrintPadded(n, |PrintPadded(n, width)|) == PrintPadded(n, width)
    ensures n < Power10(|PrintPadded(n, width)|)
  {
    PrintBelow(n);
    PowerGrows(|Print(n)|, |PrintPadded(n, width)|);
  }

  lemma BeforeIsStrict(a: string, b: string, restA: string, restB: string)
    requires Before(a, b)
    ensures !Before(b + restB, a + restA)
  {
    var i :| 0 <= i < |a| && i < |b| && a[..i] == b[..i] && a[i] < b[i];
    var x, y := b + restB, a + restA;
    assert forall k :: 0 <= k < i ==> a[..i][k] == b[..i][k];
    assert y[i] < x[i];
    forall j | 0 <= j < |x| && j < |y| ensures !(x[..j] == y[..j] && x[j] < y[j]) {
      if j < i {
        assert x[j] == b[..i][j] == a[..i][j] == y[j];
      } else if j > i {
        assert x[..j][i] == x[i] && y[..j][i] == y[i];
      }
    }
  }

  /** Padded numbers of any sizes, followed by a separator that sorts before the digits: the text of the smaller
      number sorts first if and only if it does not exceed the larger one cut to the same number of digits. */
  lemma PaddedOrderIff(m: nat, n: nat, width: nat, separator: char, a: string, b: string)
    requires m < n && separator < '0'
    ensures |PrintPadded(m, width)| <= |PrintPadded(n, width)|
    ensures Before(PrintPadded(m, width) + ([separator] + a), PrintPadded(n, width) + ([separator] + b))
       <==> m <= Leading(n, |PrintPadded(n, width)| - |PrintPadded(m, width)|)
  {
    var p, q := PrintPadded(m, width), PrintPadded(n, width);
    var w := |p|;
    PrintLengthens(m, n);
    PaddedToOwnLength(m, width);
    PaddedToOwnLength(n, width);
    if |q| == w {
      PaddedOrder(m, n, w);
      BeforeAppended(p, q, [separator] + a, [separator] + b);
    } else {
      LongerOrderIff(m, n, w, [separator] + a, [separator] + b);
    }
  }

  lemma LongerOrderIff(m: nat, n: nat, w: nat, restA: string, restB: string)
    requires w > 0 && m < Power10(w) && |PrintPadded(m, w)| == w < |Print(n)|
    requires restA != [] && restA[0] < '0'
    ensures Before(PrintPadded(m, w) + restA, Print(n) + restB) <==> m <= Leading(n, |Print(n)| - w)
  {
    var p, q, cut := PrintPadded(m, w), Print(n), Leading(n, |Print(n)| - w);
    PrintOfLeading(n, |q| - w);
    PrintBelow(cut);
    assert PrintPadded(cut, w) == Print(cut) == q[..w];
    assert q + restB == q[..w] + (q[w..] + restB);
    if m < cut {
      PaddedOrder(m, cut, w);
      BeforeAppended(p, q[..w], restA, q[w..] + restB);
    } else if m == cut {
      assert (p + restA)[..w] == p == (q + restB)[..w];
      assert (p + restA)[w] == restA[0] < q[w] == (q + restB)[w];
    } else {
      PaddedOrder(cut, m, w);
      BeforeIsStrict(q[..w], p, q[w..] + restB, restA);
    }
  }
}
