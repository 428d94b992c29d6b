// Numbers as digit sequences, most significant digit first: the reference that
// the hexadecimal, decimal and octal printers are measured against.
module Digits {
  import opened Arithmetic
  import opened Memory

  type Digit = d: int | 0 <= d < 16

  datatype Option<+T> = None | Some(value: T)

  // The digits of n without leading zeros; zero has none.
  function Significant(b: nat, n: nat): (ds: seq<Digit>)
    requires 2 <= b <= 16
    ensures forall i :: 0 <= i < |ds| ==> ds[i] < b
    decreases n
  {
    if n == 0 then []
    else
      assert n / b < n by { QuotientSmaller(n, b); }
      Significant(b, n / b) + [n % b]
  }

  function Zeros(k: int): (ds: seq<Digit>)
    ensures |ds| == if k < 0 then 0 else k
    ensures forall i :: 0 <= i < |ds| ==> ds[i] == 0
  {
    if k <= 0 then [] else Zeros(k - 1) + [0]
  }

  // The digits of n, filled up with zeros on the left to at least pad digits.
  function Padded(b: nat, n: nat, pad: nat): (ds: seq<Digit>)
    requires 2 <= b <= 16
    ensures |ds| == if |Significant(b, n)| < pad then pad else |Significant(b, n)|
    ensures forall i :: 0 <= i < |ds| ==> ds[i] < b
  {
    Zeros(pad - |Significant(b, n)|) + Significant(b, n)
  }

  // The number a digit sequence denotes.
  function Value(b: nat, ds: seq<Digit>): (n: nat)
    requires 2 <= b <= 16
  {
    if ds == [] then 0 else Value(b, ds[..|ds| - 1]) * b + ds[|ds| - 1]
  }

  lemma {:induction false} ValueAppend(b: nat, ds: seq<Digit>, d: Digit)
    requires 2 <= b <= 16
    ensures Value(b, ds + [d]) == Value(b, ds) * b + d
  {
    assert (ds + [d])[..|ds|] == ds;
  }

  lemma {:induction false} ValueOfSignificant(b: nat, n: nat)
    requires 2 <= b <= 16
    ensures Value(b, Significant(b, n)) == n
    decreases n
  {
    if n > 0 {
      QuotientSmaller(n, b);
      ValueOfSignificant(b, n / b);
      ValueAppend(b, Significant(b, n / b), n % b);
      DivModIdentity(n, b);
    }
  }

  lemma {:induction false} ValueOfLeadingZeros(b: nat, k: nat, ds: seq<Digit>)
    requires 2 <= b <= 16
    ensures Value(b, Zeros(k) + ds) == Value(b, ds)
    decreases |ds|, k
  {
    if ds == [] {
      assert Zeros(k) + ds == Zeros(k);
      if k > 0 {
        ValueOfLeadingZeros(b, k - 1, []);
        assert Zeros(k - 1) + [] == Zeros(k - 1);
        ValueAppend(b, Zeros(k - 1), 0);
      }
    } else {
      var front := ds[..|ds| - 1];
      assert Zeros(k) + ds == (Zeros(k) + front) + [ds[|ds| - 1]];
      ValueOfLeadingZeros(b, k, front);
      ValueAppend(b, Zeros(k) + front, ds[|ds| - 1]);
    }
  }

  // Padding never changes the number.
  lemma {:induction false} ValueOfPadded(b: nat, n: nat, pad: nat)
    requires 2 <= b <= 16
    ensures Value(b, Padded(b, n, pad)) == n
  {
    ValueOfSignificant(b, n);
    var k := pad - |Significant(b, n)|;
    if k > 0 {
      ValueOfLeadingZeros(b, k, Significant(b, n));
    } else {
      assert Padded(b, n, pad) == Significant(b, n);
    }
  }

  // There are at most k significant digits exactly when n < b^k.
  lemma {:induction false} SignificantCount(b: nat, n: nat, k: nat)
    requires 2 <= b <= 16
    ensures |Significant(b, n)| <= k <==> n < Pow(b, k)
    decreases k
  {
    if n > 0 && k > 0 {
      SignificantCount(b, n / b, k - 1);
      QuotientBelow(n, b, Pow(b, k - 1));
    }
  }

  // --- Printing from the most significant position down -----------------------

  // How much of the padding the positions above the k lowest take up.
  function PadAbove(pad: nat, k: nat): nat {
    if k < pad then pad - k else 0
  }

  // The number that the digits of n from position k up make by themselves.
  function Above(b: nat, n: nat, k: nat): (m: nat)
    requires 2 <= b <= 16
  {
    if k == 0 then n else Above(b, n, k - 1) / b
  }

  lemma {:induction false} AboveIsQuotient(b: nat, n: nat, k: nat)
    requires 2 <= b <= 16
    ensures Above(b, n, k) == n / Pow(b, k)
  {
    if k == 0 {
      DivModUnique(n, 1, n, 0);
    } else {
      AboveIsQuotient(b, n, k - 1);
      DivDiv(n, Pow(b, k - 1), b);
      MulCommutes(Pow(b, k - 1), b);
    }
  }

  // The digit of n with weight b^k.
  function DigitAt(b: nat, n: nat, k: nat): (d: Digit)
    requires 2 <= b <= 16
  {
    Above(b, n, k) % b
  }

  // What has been printed when k low-order digits of n are still to come.
  function Printed(b: nat, n: nat, pad: nat, k: nat): (ds: seq<Digit>)
    requires 2 <= b <= 16
  {
    Padded(b, Above(b, n, k), PadAbove(pad, k))
  }

  // One position of the printers' loops: the digit is shown iff it or an earlier
  // digit is nonzero, or the position lies within the padding.
  lemma {:induction false} PrintedStep(b: nat, n: nat, pad: nat, k: nat)
    requires 2 <= b <= 16
    ensures Printed(b, n, pad, k) ==
            Printed(b, n, pad, k + 1) + (if Above(b, n, k) != 0 || k < pad then [DigitAt(b, n, k)] else [])
  {
    PaddedStep(b, Above(b, n, k), pad, k);
  }

  lemma {:induction false} PaddedStep(b: nat, m: nat, pad: nat, k: nat)
    requires 2 <= b <= 16
    ensures Padded(b, m, PadAbove(pad, k)) ==
            Padded(b, m / b, PadAbove(pad, k + 1)) + (if m != 0 || k < pad then [m % b] else [])
  {
    if m == 0 {
      DivModUnique(0, b, 0, 0);
      ZeroPadded(b, PadAbove(pad, k));
      ZeroPadded(b, PadAbove(pad, k + 1));
    } else {
      PadBefore(Significant(b, m / b), m % b, pad, k);
    }
  }

  lemma {:induction false} ZeroPadded(b: nat, pad: nat)
    requires 2 <= b <= 16
    ensures Padded(b, 0, pad) == Zeros(pad)
  {
  }

  lemma {:induction false} PadBefore(s: seq<Digit>, d: Digit, pad: nat, k: nat)
    ensures Zeros(PadAbove(pad, k) - |s + [d]|) + (s + [d]) ==
            (Zeros(PadAbove(pad, k + 1) - |s|) + s) + [d]
  {
    assert Zeros(PadAbove(pad, k) - |s + [d]|) == Zeros(PadAbove(pad, k + 1) - |s|);
  }

  lemma {:induction false} PrintedGrows(b: nat, n: nat, pad: nat, k: nat)
    requires 2 <= b <= 16
    ensures |Printed(b, n, pad, k)| <= |Padded(b, n, pad)|
    decreases k
  {
    if k == 0 {
      PrintedAll(b, n, pad);
    } else {
      PrintedStep(b, n, pad, k - 1);
      PrintedGrows(b, n, pad, k - 1);
    }
  }

  lemma {:induction false} PrintedAll(b: nat, n: nat, pad: nat)
    requires 2 <= b <= 16
    ensures Printed(b, n, pad, 0) == Padded(b, n, pad)
  {
  }

  // Nothing is printed before the first position of a number that fits.
  lemma {:induction false} PrintedNothing(b: nat, n: nat, pad: nat, k: nat)
    requires 2 <= b <= 16
    requires n < Pow(b, k) && pad <= k
    ensures Above(b, n, k) == 0 && Printed(b, n, pad, k) == []
  {
    AboveIsQuotient(b, n, k);
    DivModUnique(n, Pow(b, k), 0, n);
  }

  // --- Text -------------------------------------------------------------------

  function DigitChar(d: Digit): (c: Byte)
    ensures 0x30 <= c <= 0x66
  {
    if d <= 9 then d + 0x30 else d - 10 + 0x61
  }

  function Text(ds: seq<Digit>): (t: seq<Byte>)
    ensures |t| == |ds|
    ensures forall i :: 0 <= i < |t| ==> t[i] == DigitChar(ds[i])
  {
    seq(|ds|, i requires 0 <= i < |ds| => DigitChar(ds[i]))
  }

  lemma {:induction false} TextAppend(ds: seq<Digit>, d: Digit)
    ensures Text(ds + [d]) == Text(ds) + [DigitChar(d)]
  {
  }

  function PrintedText(b: nat, n: nat, pad: nat, k: nat): (t: seq<Byte>)
    requires 2 <= b <= 16
  {
    Text(Printed(b, n, pad, k))
  }

  // Some digit of n at position k or above is not zero.
  predicate NonzeroFrom(b: nat, n: nat, k: nat)
    requires 2 <= b <= 16
  {
    Above(b, n, k) != 0
  }

  // Everything one round of a printer's loop relies on.
  lemma {:induction false} TextStep(b: nat, n: nat, pad: nat, k: nat)
    requires 2 <= b <= 16
    ensures NonzeroFrom(b, n, k) <==> NonzeroFrom(b, n, k + 1) || DigitAt(b, n, k) != 0
    ensures NonzeroFrom(b, n, k) || k < pad ==>
              PrintedText(b, n, pad, k) == PrintedText(b, n, pad, k + 1) + [DigitChar(DigitAt(b, n, k))]
    ensures !NonzeroFrom(b, n, k) && k >= pad ==> PrintedText(b, n, pad, k) == PrintedText(b, n, pad, k + 1)
    ensures |PrintedText(b, n, pad, k)| <= |Padded(b, n, pad)|
  {
    var m := Above(b, n, k);
    DivModIdentity(m, b);
    PrintedStep(b, n, pad, k);
    PrintedGrows(b, n, pad, k);
    TextAppend(Printed(b, n, pad, k + 1), DigitAt(b, n, k));
    if m == 0 { DivModUnique(0, b, 0, 0); }
    assert m != 0 ==> m / b != 0 || m % b != 0;
    assert Printed(b, n, pad, k + 1) + [] == Printed(b, n, pad, k + 1);
  }

  // The start and the end of such a loop.
  lemma {:induction false} TextEnds(b: nat, n: nat, pad: nat, k: nat)
    requires 2 <= b <= 16
    requires n < Pow(b, k) && pad <= k
    ensures PrintedText(b, n, pad, k) == [] && !NonzeroFrom(b, n, k)
    ensures PrintedText(b, n, pad, 0) == Text(Padded(b, n, pad))
  {
    PrintedNothing(b, n, pad, k);
    PrintedAll(b, n, pad);
  }

  // Reads a character as a digit: '0'..'9' and 'a'..'f'.
  function DigitOf(c: Byte): (d: Option<Digit>)
  {
    if 0x30 <= c <= 0x39 then Some(c - 0x30)
    else if 0x61 <= c <= 0x66 then Some(c - 0x61 + 10)
    else None
  }

  // Reads a text as an unsigned number; a character that is no digit is an error.
  function Parse(b: nat, t: seq<Byte>): (r: Option<nat>)
    requires 2 <= b <= 16
  {
    if t == [] then Some(0)
    else
      var last := DigitOf(t[|t| - 1]);
      var front := Parse(b, t[..|t| - 1]);
      if front.Some? && last.Some? && last.value < b then Some(front.value * b + last.value) else None
  }

  lemma {:induction false} ParseAppend(b: nat, t: seq<Byte>, n: nat, d: Digit)
    requires 2 <= b <= 16 && d < b && Parse(b, t) == Some(n)
    ensures Parse(b, t + [DigitChar(d)]) == Some(n * b + d)
  {
    assert (t + [DigitChar(d)])[..|t|] == t;
    assert DigitOf(DigitChar(d)) == Some(d);
  }

  lemma {:induction false} ParseText(b: nat, ds: seq<Digit>)
    requires 2 <= b <= 16
    requires forall i :: 0 <= i < |ds| ==> ds[i] < b
    ensures Parse(b, Text(ds)) == Some(Value(b, ds))
  {
    if ds != [] {
      var front, last := ds[..|ds| - 1], ds[|ds| - 1];
      ParseText(b, front);
      ParseAppend(b, Text(front), Value(b, front), last);
      assert ds == front + [last];
      TextAppend(front, last);
    }
  }

  // Reading a printed number back gives the number, in every base and padding.
  lemma {:induction false} ParsePadded(b: nat, n: nat, pad: nat)
    requires 2 <= b <= 16
    ensures Parse(b, Text(Padded(b, n, pad))) == Some(n)
  {
    ParseText(b, Padded(b, n, pad));
    ValueOfPadded(b, n, pad);
  }
}
