// The formatter itself: pointers advance through the format and the buffer, and
// the buffer is written in place.
module Printk {
  import opened Arithmetic
  import opened Memory
  import opened Digits
  import opened Format
  import StringLib

  // number >> bits, for an unsigned word
  function ShiftRight(number: Word32, bits: nat): nat {
    number / Pow(2, bits)
  }

  lemma {:induction false} PowOfPow(k: nat)
    ensures Pow(2, 4 * k) == Pow(16, k)
    ensures Pow(2, 3 * k) == Pow(8, k)
  {
    if k > 0 {
      PowOfPow(k - 1);
      assert Pow(2, 4 * k) == 2 * (2 * (2 * (2 * Pow(2, 4 * (k - 1))))) by {
        assert Pow(2, 4 * k - 1) == 2 * Pow(2, 4 * k - 2) && Pow(2, 4 * k - 3) == 2 * Pow(2, 4 * k - 4);
      }
      assert Pow(2, 3 * k) == 2 * (2 * (2 * Pow(2, 3 * (k - 1)))) by {
        assert Pow(2, 3 * k - 1) == 2 * Pow(2, 3 * k - 2);
      }
    }
  }

  // The position where hexadecimal padding starts, as the source computes it.
  function HexThreshold(v: Copy, zeroPadding: Word32): int {
    var threshold := Wrap32(7 - Wrap32(zeroPadding - 1));
    if v.Guest? then AsSigned(threshold) else threshold
  }

  // *str++ = c
  method Put(buf: array<Byte>, str: nat, c: Byte) returns (next: nat)
    requires str < buf.Length
    modifies buf
    ensures next == str + 1
    ensures buf[..next] == old(buf[..str]) + [c]
    ensures forall a :: next <= a < buf.Length ==> buf[a] == old(buf[a])
  {
    buf[str] := c;
    return str + 1;
  }

  lemma {:induction false} Associate(a: seq<Byte>, b: seq<Byte>, c: seq<Byte>)
    ensures (a + b) + c == a + (b + c)
  {
  }

  lemma {:induction false} HexThresholdMeaning(v: Copy, zeroPadding: Word32, i: nat)
    requires i < 8
    ensures i >= HexThreshold(v, zeroPadding) <==> 7 - i < HexPad(v, zeroPadding)
  {
  }

  // byte = number >> (32 - (i + 1) * 4) & 0xF
  function HexSlice(number: Word32, i: nat): (byte: Digit)
    requires i < 8
    ensures byte == DigitAt(16, number, 7 - i)
  {
    PowOfPow(7 - i);
    AboveIsQuotient(16, number, 7 - i);
    ShiftRight(number, 32 - (i + 1) * 4) % 0x10
  }

  method HexChar(byte: Digit) returns (c: Byte)
    ensures c == DigitChar(byte)
  {
    if byte <= 9 {
      c := byte + 0x30;
    } else {
      match byte {
        case 0xa => c := 0x61;
        case 0xb => c := 0x62;
        case 0xc => c := 0x63;
        case 0xd => c := 0x64;
        case 0xe => c := 0x65;
        case 0xf => c := 0x66;
      }
    }
  }

  // One digit position of a printer: shown once a digit is not zero or the
  // padding has begun. `front` is what the buffer held before the number.
  method PutPosition(buf: array<Byte>, str: nat, byte: Digit, keepZeros: bool, inPadding: bool,
                     ghost front: seq<Byte>, ghost b: nat, ghost n: nat, ghost pad: nat, ghost k: nat)
    returns (next: nat, keep: bool)
    requires 2 <= b <= 16 && byte == DigitAt(b, n, k)
    requires inPadding <==> k < pad
    requires keepZeros <==> NonzeroFrom(b, n, k + 1)
    requires |front| + |Padded(b, n, pad)| <= buf.Length
    requires str <= buf.Length && buf[..str] == front + PrintedText(b, n, pad, k + 1)
    modifies buf
    ensures str <= next <= buf.Length && buf[..next] == front + PrintedText(b, n, pad, k)
    ensures keep <==> NonzeroFrom(b, n, k)
    ensures forall a :: next <= a < buf.Length ==> buf[a] == old(buf[a])
  {
    TextStep(b, n, pad, k);
    next, keep := str, keepZeros;
    if byte != 0 {
      keep := true;
    }
    if keep || inPadding {
      var c := HexChar(byte);
      Associate(front, PrintedText(b, n, pad, k + 1), [c]);
      next := Put(buf, str, c);
    }
  }

  method PutHex(v: Copy, buf: array<Byte>, start: nat, number: Word32, zeroPadding: Word32) returns (str: nat)
    requires start + |HexText(v, number, zeroPadding)| <= buf.Length
    modifies buf
    ensures start <= str <= buf.Length && buf[..str] == old(buf[..start]) + HexText(v, number, zeroPadding)
    ensures forall a :: str <= a < buf.Length ==> buf[a] == old(buf[a])
  {
    ghost var pad, front := HexPad(v, zeroPadding), buf[..start];
    HexFits(number, pad);
    str := start;
    var length := 8;
    var keepZeros := false;
    var i := 0;
    while i < length
      invariant 0 <= i <= 8
      invariant start <= str <= buf.Length && buf[..str] == front + PrintedText(16, number, pad, 8 - i)
      invariant keepZeros <==> NonzeroFrom(16, number, 8 - i)
      invariant forall a :: str <= a < buf.Length ==> buf[a] == old(buf[a])
    {
      HexThresholdMeaning(v, zeroPadding, i);
      var byte := HexSlice(number, i);
      str, keepZeros := PutPosition(buf, str, byte, keepZeros, i >= HexThreshold(v, zeroPadding),
                                    front, 16, number, pad, 7 - i);
      i := i + 1;
    }
  }

  lemma {:induction false} HexFits(number: Word32, pad: nat)
    requires pad <= 8
    ensures PrintedText(16, number, pad, 8) == [] && !NonzeroFrom(16, number, 8)
    ensures PrintedText(16, number, pad, 0) == Text(Padded(16, number, pad))
  {
    assert Pow(16, 8) == 0x1_0000_0000;
    TextEnds(16, number, pad, 8);
  }

  // --- Decimal ------------------------------------------------------------------

  function DecimalThreshold(zeroPadding: Word32): Word32 {
    Wrap32(8 - Wrap32(zeroPadding - 1))
  }

  lemma {:induction false} DecimalThresholdMeaning(zeroPadding: Word32, i: nat)
    requires i < 9
    ensures i > DecimalThreshold(zeroPadding) <==> 9 - i < DecimalPad(zeroPadding)
  {
  }

  // Division by repeated subtraction.
  method Quotient(number: Word32, divisor: nat) returns (quotient: nat, rest: Word32)
    requires 0 < divisor
    ensures quotient == number / divisor && rest == number % divisor
  {
    quotient, rest := 0, number;
    while rest >= divisor
      invariant number == divisor * quotient + rest
    {
      rest := rest - divisor;
      quotient := quotient + 1;
    }
    DivModUnique(number, divisor, quotient, rest);
  }

  // The next lower power of ten, multiplied up from 1 each time.
  method NextDivisor(i: nat, maxNumZeros: nat) returns (newDivVal: nat)
    requires i < maxNumZeros
    ensures newDivVal == Pow(10, maxNumZeros - 1 - i)
  {
    newDivVal := 1;
    var j := i;
    while j < maxNumZeros - 1
      invariant i <= j <= maxNumZeros - 1
      invariant newDivVal == Pow(10, j - i)
    {
      newDivVal := newDivVal * 10;
      j := j + 1;
    }
  }

  lemma {:induction false} DecimalFits(number: Word32, pad: nat)
    requires pad <= 9
    ensures PrintedText(10, number, pad, 10) == [] && !NonzeroFrom(10, number, 10)
    ensures PrintedText(10, number, pad, 0) == Text(Padded(10, number, pad))
    ensures number % Pow(10, 10) == number && Pow(10, 9) == 1000000000
  {
    assert Pow(10, 9) == 1000000000;
    assert Pow(10, 10) == 10000000000;
    TextEnds(10, number, pad, 10);
    RemainderAtMost(number, 10000000000);
  }

  // The digit printed with weight 10^k, and what is left after it.
  lemma {:induction false} DecimalPosition(number: Word32, k: nat)
    ensures number % Pow(10, k + 1) / Pow(10, k) == DigitAt(10, number, k)
    ensures number % Pow(10, k + 1) % Pow(10, k) == number % Pow(10, k)
  {
    SplitDigit(number, Pow(10, k), 10);
    AboveIsQuotient(10, number, k);
    MulCommutes(Pow(10, k), 10);
  }

  method PutUnsigned(buf: array<Byte>, start: nat, number: Word32, zeroPadding: Word32) returns (str: nat)
    requires start + |UnsignedText(number, zeroPadding)| <= buf.Length
    modifies buf
    ensures start <= str <= buf.Length && buf[..str] == old(buf[..start]) + UnsignedText(number, zeroPadding)
    ensures forall a :: str <= a < buf.Length ==> buf[a] == old(buf[a])
  {
    ghost var pad, front := DecimalPad(zeroPadding), buf[..start];
    DecimalFits(number, pad);
    str := start;
    var divisor, left := 1000000000, number;
    var maxNumZeros := 9;
    var keepZeros := false;
    var i := 0;
    while i < maxNumZeros
      invariant 0 <= i <= 9
      invariant start <= str <= buf.Length && buf[..str] == front + PrintedText(10, number, pad, 10 - i)
      invariant keepZeros <==> NonzeroFrom(10, number, 10 - i)
      invariant left == number % Pow(10, 10 - i)
      invariant i < 9 ==> divisor == Pow(10, 9 - i)
      invariant forall a :: str <= a < buf.Length ==> buf[a] == old(buf[a])
    {
      DecimalPosition(number, 9 - i);
      DecimalThresholdMeaning(zeroPadding, i);
      var quotient;
      quotient, left := Quotient(left, divisor);
      str, keepZeros := PutPosition(buf, str, quotient, keepZeros, i > DecimalThreshold(zeroPadding),
                                    front, 10, number, pad, 9 - i);
      divisor := NextDivisor(i, maxNumZeros);
      i := i + 1;
    }
    str := PutLastDigit(buf, str, left, front, number, pad);
  }

  lemma {:induction false} UnitsDigit(n: nat)
    ensures n % Pow(10, 1) == DigitAt(10, n, 0) < 10
  {
    assert Pow(10, 1) == 10 * Pow(10, 0);
  }

  // The units digit is shown whatever it is.
  method PutLastDigit(buf: array<Byte>, str: nat, left: Word32, ghost front: seq<Byte>, ghost n: nat, ghost pad: nat)
    returns (next: nat)
    requires left == n % Pow(10, 1) && 0 < pad
    requires |front| + |Padded(10, n, pad)| <= buf.Length
    requires str <= buf.Length && buf[..str] == front + PrintedText(10, n, pad, 1)
    modifies buf
    ensures str <= next <= buf.Length && buf[..next] == front + PrintedText(10, n, pad, 0)
    ensures forall a :: next <= a < buf.Length ==> buf[a] == old(buf[a])
  {
    TextStep(10, n, pad, 0);
    UnitsDigit(n);
    Associate(front, PrintedText(10, n, pad, 1), [DigitChar(left)]);
    next := Put(buf, str, left + 0x30);
  }

  method PutSigned(buf: array<Byte>, start: nat, word: Word32, zeroPadding: Word32) returns (str: nat)
    requires start + |SignedText(word, zeroPadding)| <= buf.Length
    modifies buf
    ensures start <= str <= buf.Length && buf[..str] == old(buf[..start]) + SignedText(word, zeroPadding)
    ensures forall a :: str <= a < buf.Length ==> buf[a] == old(buf[a])
  {
    str := start;
    var number := word;
    if AsSigned(word) < 0 {
      str := Put(buf, str, MINUS);
      number := Wrap32(-AsSigned(word));
      Associate(old(buf[..start]), [MINUS], UnsignedText(number, zeroPadding));
    }
    str := PutUnsigned(buf, str, number, zeroPadding);
  }

  // --- Octal --------------------------------------------------------------------

  function OctalThreshold(zeroPadding: Word32): Word32 {
    Wrap32(9 - Wrap32(zeroPadding - 1))
  }

  lemma {:induction false} OctalThresholdMeaning(zeroPadding: Word32, i: nat)
    requires i < 10
    ensures i >= OctalThreshold(zeroPadding) <==> 9 - i < OctalPad(zeroPadding)
  {
  }

  // byte = number >> (32 - (i + 1) * 3) & 0x7, the number already shifted left by 2
  function OctalSlice(number: Word32, shifted: Word32, i: nat): (byte: Digit)
    requires i < 10 && shifted == Wrap32(number * 4)
    ensures byte == DigitAt(8, number, 9 - i)
  {
    ShiftedSlice(number, i);
    AboveIsQuotient(8, number, 9 - i);
    ShiftRight(shifted, 32 - (i + 1) * 3) % 8
  }

  // The left shift drops the two top bits, which lie above every slice.
  lemma {:induction false} ShiftedSlice(number: Word32, i: nat)
    requires i < 10
    ensures Wrap32(number * 4) / Pow(2, 32 - (i + 1) * 3) % 8 == number / Pow(8, 9 - i) % 8
  {
    var k := 9 - i;
    var p := Pow(8, k);
    PowOfPow(k);
    assert Pow(2, 3 * k + 2) == 4 * p by { assert Pow(2, 3 * k + 1) == 2 * Pow(2, 3 * k); }
    var low := number % 0x4000_0000;
    assert Wrap32(number * 4) == 4 * low;
    QuadrupleQuotient(low, p);
    PowSplit(8, k, i + 1);
    OctalPowers();
    LowSlice(number, p, Pow(8, i));
  }

  lemma {:induction false} QuadrupleQuotient(n: nat, p: nat)
    requires 0 < p
    ensures 4 * n / (4 * p) == n / p
  {
    DivModIdentity(n, p);
    DivModUnique(4 * n, 4 * p, n / p, 4 * (n % p));
  }

  lemma {:induction false} PowSplit(b: nat, j: nat, k: nat)
    requires 0 < b
    ensures Pow(b, j) * Pow(b, k) == Pow(b, j + k)
  {
    if k > 0 {
      PowSplit(b, j, k - 1);
      assert Pow(b, j) * (b * Pow(b, k - 1)) == b * (Pow(b, j) * Pow(b, k - 1));
    } else {
      assert Pow(b, 0) == 1;
    }
  }

  // Reducing modulo p * 8 * q first does not change the octal digit of weight p.
  lemma {:induction false} LowSlice(n: nat, p: nat, q: nat)
    requires 0 < p && 0 < q
    ensures 0 < p * (8 * q)
    ensures n % (p * (8 * q)) / p % 8 == n / p % 8
  {
    var m := 8 * q;
    SplitDigit(n, p, m);
    SplitDigit(n / p, 8, q);
  }

  lemma {:induction false} OctalTop(number: Word32, zeroPadding: Word32)
    ensures ShiftRight(number, 30) % 4 == DigitAt(8, number, 10)
    ensures NonzeroFrom(8, number, 10) <==> DigitAt(8, number, 10) != 0
    ensures NonzeroFrom(8, number, 10) <==> number >= 0x4000_0000
    ensures PrintedText(8, number, OctalPad(zeroPadding), 10)
         == if number >= 0x4000_0000 then [DigitChar(DigitAt(8, number, 10))] else []
    ensures PrintedText(8, number, OctalPad(zeroPadding), 0) == Text(Padded(8, number, OctalPad(zeroPadding)))
  {
    PowOfPow(10);
    OctalPowers();
    AboveIsQuotient(8, number, 10);
    TextEnds(8, number, OctalPad(zeroPadding), 11);
    TextStep(8, number, OctalPad(zeroPadding), 10);
  }

  lemma {:induction false} OctalPowers()
    ensures Pow(8, 10) == 0x4000_0000 && Pow(8, 11) == 0x2_0000_0000
  {
  }

  // The two top bits, shown if they are not zero or the padding exceeds ten digits.
  method PutOctalLead(buf: array<Byte>, start: nat, number: Word32, zeroPadding: Word32)
    returns (str: nat, keepZeros: bool)
    requires start + |OctalText(number, zeroPadding)| <= buf.Length
    modifies buf
    ensures start <= str <= buf.Length && buf[..str] == old(buf[..start]) + OctalFirst(number, zeroPadding)
    ensures keepZeros <==> NonzeroFrom(8, number, 10)
    ensures forall a :: str <= a < buf.Length ==> buf[a] == old(buf[a])
  {
    OctalTop(number, zeroPadding);
    OctalFirstText(number, zeroPadding);
    str, keepZeros := start, false;
    var byte := ShiftRight(number, 30) % 4;
    if byte != 0 {
      keepZeros := true;
    }
    if keepZeros || zeroPadding > 10 {
      str := Put(buf, str, byte + 0x30);
    }
  }

  function OctalFirst(number: Word32, zeroPadding: Word32): (text: seq<Byte>) {
    OctalLead(number, zeroPadding) + PrintedText(8, number, OctalPad(zeroPadding), 10)
  }

  lemma {:induction false} OctalFirstText(number: Word32, zeroPadding: Word32)
    ensures var byte := DigitAt(8, number, 10);
            OctalFirst(number, zeroPadding) == if byte != 0 || zeroPadding > 10 then [byte + 0x30] else []
    ensures |OctalFirst(number, zeroPadding)| <= |OctalText(number, zeroPadding)|
  {
    OctalTop(number, zeroPadding);
    TextStep(8, number, OctalPad(zeroPadding), 10);
  }

  method PutOctal(buf: array<Byte>, start: nat, word: Word32, zeroPadding: Word32) returns (str: nat)
    requires start + |OctalText(word, zeroPadding)| <= buf.Length
    modifies buf
    ensures start <= str <= buf.Length && buf[..str] == old(buf[..start]) + OctalText(word, zeroPadding)
    ensures forall a :: str <= a < buf.Length ==> buf[a] == old(buf[a])
  {
    Associate(buf[..start], OctalLead(word, zeroPadding), Text(Padded(8, word, OctalPad(zeroPadding))));
    OctalTop(word, zeroPadding);
    ghost var front := buf[..start] + OctalLead(word, zeroPadding);
    var keepZeros;
    str, keepZeros := PutOctalLead(buf, start, word, zeroPadding);
    Associate(old(buf[..start]), OctalLead(word, zeroPadding), PrintedText(8, word, OctalPad(zeroPadding), 10));
    str := PutOctalDigits(buf, str, word, zeroPadding, keepZeros, front);
  }

  // The ten three-bit digits.
  method PutOctalDigits(buf: array<Byte>, start: nat, word: Word32, zeroPadding: Word32, keep: bool,
                        ghost front: seq<Byte>) returns (str: nat)
    requires |front| + |Padded(8, word, OctalPad(zeroPadding))| <= buf.Length
    requires start <= buf.Length && buf[..start] == front + PrintedText(8, word, OctalPad(zeroPadding), 10)
    requires keep <==> NonzeroFrom(8, word, 10)
    modifies buf
    ensures start <= str <= buf.Length && buf[..str] == front + PrintedText(8, word, OctalPad(zeroPadding), 0)
    ensures forall a :: str <= a < buf.Length ==> buf[a] == old(buf[a])
  {
    ghost var pad := OctalPad(zeroPadding);
    str := start;
    var keepZeros := keep;
    var number := Wrap32(word * 4);
    var length := 10;
    var i := 0;
    while i < length
      invariant 0 <= i <= 10
      invariant start <= str <= buf.Length && buf[..str] == front + PrintedText(8, word, pad, 10 - i)
      invariant keepZeros <==> NonzeroFrom(8, word, 10 - i)
      invariant forall a :: str <= a < buf.Length ==> buf[a] == old(buf[a])
    {
      OctalThresholdMeaning(zeroPadding, i);
      var byte := OctalSlice(word, number, i);
      str, keepZeros := PutPosition(buf, str, byte, keepZeros, i >= OctalThreshold(zeroPadding),
                                    front, 8, word, pad, 9 - i);
      i := i + 1;
    }
  }

  // --- Strings and single characters ----------------------------------------------

  // Each byte is stored before the allowance is looked at, so the byte that does
  // not count is left behind at the end, to be overwritten by whatever follows.
  method PutString(buf: array<Byte>, start: nat, s: CText, len: nat) returns (str: nat, newLen: nat)
    requires len <= PRINT_TEXT_LEN
    requires start + |Take(s, PRINT_TEXT_LEN - len)| < buf.Length
    modifies buf
    ensures str < buf.Length && buf[..str] == old(buf[..start]) + Take(s, PRINT_TEXT_LEN - len)
    ensures start <= str && newLen == len + (str - start) <= PRINT_TEXT_LEN
    ensures forall a :: str < a < buf.Length ==> buf[a] == old(buf[a])
  {
    str, newLen := start, len;
    var arg := 0;
    ghost var front := buf[..start];
    while true
      invariant 0 <= arg <= |Take(s, PRINT_TEXT_LEN - len)|
      invariant str == start + arg && newLen == len + arg
      invariant buf[..str] == front + s[..arg]
      invariant forall a :: str < a < buf.Length ==> buf[a] == old(buf[a])
      decreases |s| - arg
    {
      buf[str] := if arg < |s| then s[arg] else NUL;
      arg := arg + 1;
      if !(buf[str] != NUL && newLen < PRINT_TEXT_LEN) { break; }
      assert s[..arg] == s[..arg - 1] + [s[arg - 1]];
      str := str + 1;
      newLen := newLen + 1;
    }
    assert s[..arg - 1] == Take(s, PRINT_TEXT_LEN - len);
  }

  // --- The interpreter --------------------------------------------------------------

  // What a directive prints, the line end after it not included.
  function DirectiveText(v: Copy, t: Token, args: seq<Arg>, budget: nat): (text: seq<Byte>)
    requires t.Directive? && FirstFits(v, t, args)
  {
    if TakesArg(v, t) then TokenText(v, t, args, budget) else SwitchText(t.conv)
  }

  // The cases of the switch that print a number.
  method PutWord(v: Copy, buf: array<Byte>, start: nat, pad: Word32, conv: Byte, word: Word32) returns (str: nat)
    requires TakesWord(v, conv)
    requires start + |WordText(v, Directive(pad, conv), word)| <= buf.Length
    modifies buf
    ensures start <= str <= buf.Length
    ensures buf[..str] == old(buf[..start]) + WordText(v, Directive(pad, conv), word)
    ensures forall a :: str <= a < buf.Length ==> buf[a] == old(buf[a])
  {
    if conv == CONV_X {
      str := PutHex(v, buf, start, word, pad);
    } else if conv == CONV_U {
      str := PutUnsigned(buf, start, word, pad);
    } else if conv == CONV_I || conv == CONV_D {
      str := PutSigned(buf, start, word, pad);
    } else {
      str := PutOctal(buf, start, word, pad);
    }
  }

  // The cases that need no argument; an unknown conversion prints nothing.
  method PutPlain(buf: array<Byte>, start: nat, conv: Byte) returns (str: nat)
    requires start + |SwitchText(conv)| <= buf.Length
    modifies buf
    ensures start <= str <= buf.Length && buf[..str] == old(buf[..start]) + SwitchText(conv)
    ensures forall a :: str <= a < buf.Length ==> buf[a] == old(buf[a])
  {
    str := start;
    if conv == PERCENT {
      str := Put(buf, str, conv);
    } else if conv == TAB {
      str := Put(buf, str, PERCENT);
      str := Put(buf, str, conv);
    } else if conv == LF {
      str := Put(buf, str, PERCENT);
      str := Put(buf, str, CR);
      str := Put(buf, str, LF);
    }
  }

  // The switch on the conversion character.
  method PutDirective(v: Copy, buf: array<Byte>, start: nat, pad: Word32, conv: Byte, args: seq<Arg>, len: nat)
    returns (str: nat, rest: seq<Arg>, newLen: nat)
    requires len <= PRINT_TEXT_LEN && FirstFits(v, Directive(pad, conv), args)
    requires start + |DirectiveText(v, Directive(pad, conv), args, PRINT_TEXT_LEN - len)| < buf.Length
    modifies buf
    ensures start <= str < buf.Length
    ensures buf[..str] == old(buf[..start]) + DirectiveText(v, Directive(pad, conv), args, PRINT_TEXT_LEN - len)
    ensures rest == ArgsAfter(v, Directive(pad, conv), args)
    ensures newLen <= PRINT_TEXT_LEN
    ensures PRINT_TEXT_LEN - newLen == BudgetAfter(v, Directive(pad, conv), args, PRINT_TEXT_LEN - len)
    ensures forall a :: str < a < buf.Length ==> buf[a] == old(buf[a])
  {
    newLen := len;
    if TakesWord(v, conv) {
      str := PutWord(v, buf, start, pad, conv, args[0].w);
      rest := args[1..];
    } else if conv == CONV_S {
      str, newLen := PutString(buf, start, args[0].s, len);
      rest := args[1..];
    } else if conv == CONV_C {
      str := Put(buf, start, args[0].c);
      rest := args[1..];
    } else {
      str := PutPlain(buf, start, conv);
      rest := args;
    }
  }

  method PutLineEnd(buf: array<Byte>, start: nat, c: Byte) returns (str: nat)
    requires start + |LineEnd(c)| <= buf.Length
    modifies buf
    ensures start <= str <= buf.Length && buf[..str] == old(buf[..start]) + LineEnd(c)
    ensures forall a :: str <= a < buf.Length ==> buf[a] == old(buf[a])
  {
    str := start;
    if c == LF {
      str := Put(buf, str, CR);
      str := Put(buf, str, LF);
    }
    if c == TAB {
      str := Put(buf, str, c);
    }
  }

  // From '%' to the conversion character.
  method ReadDirective(fmt: CText, at: nat) returns (f: nat, zeroPadding: Word32)
    requires at < |fmt| && Complete(fmt[at..]) && fmt[at] == PERCENT
    ensures at < f < |fmt| && fmt[f + 1..] == AfterFirst(fmt[at..])
    ensures FirstToken(fmt[at..]) == Directive(zeroPadding, fmt[f])
  {
    f, zeroPadding := at + 1, 1;
    if fmt[f] == ZERO {
      f := f + 1;
      zeroPadding := Wrap32(fmt[f] - ZERO);
      f := f + 1;
    }
    if fmt[f] == CONV_L {
      f := f + 1;
    }
    assert f == at + ConvIndex(fmt[at..]);
  }

  // One round of the format loop, up to its ++fmt.
  method PutToken(v: Copy, buf: array<Byte>, start: nat, fmt: CText, at: nat, args: seq<Arg>, len: nat)
    returns (str: nat, f: nat, rest: seq<Arg>, newLen: nat)
    requires len <= PRINT_TEXT_LEN && at < |fmt| && Complete(fmt[at..])
    requires FirstFits(v, FirstToken(fmt[at..]), args)
    requires start + |TokenText(v, FirstToken(fmt[at..]), args, PRINT_TEXT_LEN - len)| < buf.Length
    modifies buf
    ensures at < f <= |fmt| && fmt[f..] == AfterFirst(fmt[at..])
    ensures start <= str < buf.Length
    ensures buf[..str] == old(buf[..start]) + TokenText(v, FirstToken(fmt[at..]), args, PRINT_TEXT_LEN - len)
    ensures rest == ArgsAfter(v, FirstToken(fmt[at..]), args)
    ensures newLen <= PRINT_TEXT_LEN
    ensures PRINT_TEXT_LEN - newLen == BudgetAfter(v, FirstToken(fmt[at..]), args, PRINT_TEXT_LEN - len)
    ensures forall a :: str < a < buf.Length ==> buf[a] == old(buf[a])
  {
    str, f, rest, newLen := start, at, args, len;
    if fmt[f] != PERCENT && fmt[f] != LF && fmt[f] != TAB {
      str := Put(buf, str, fmt[f]);
      f := f + 1;
      return;
    }
    if fmt[f] == PERCENT {
      var zeroPadding;
      f, zeroPadding := ReadDirective(fmt, at);
      str, rest, newLen := PutConversion(v, buf, str, zeroPadding, fmt[f], args, len);
    } else {
      str := PutLineEnd(buf, str, fmt[f]);
    }
    f := f + 1;
  }

  // A directive's own text, and after it the line end if its conversion character is one.
  method PutConversion(v: Copy, buf: array<Byte>, start: nat, pad: Word32, conv: Byte, args: seq<Arg>, len: nat)
    returns (str: nat, rest: seq<Arg>, newLen: nat)
    requires len <= PRINT_TEXT_LEN && FirstFits(v, Directive(pad, conv), args)
    requires start + |TokenText(v, Directive(pad, conv), args, PRINT_TEXT_LEN - len)| < buf.Length
    modifies buf
    ensures start <= str < buf.Length
    ensures buf[..str] == old(buf[..start]) + TokenText(v, Directive(pad, conv), args, PRINT_TEXT_LEN - len)
    ensures rest == ArgsAfter(v, Directive(pad, conv), args)
    ensures newLen <= PRINT_TEXT_LEN
    ensures PRINT_TEXT_LEN - newLen == BudgetAfter(v, Directive(pad, conv), args, PRINT_TEXT_LEN - len)
    ensures forall a :: str < a < buf.Length ==> buf[a] == old(buf[a])
  {
    Associate(buf[..start], DirectiveText(v, Directive(pad, conv), args, PRINT_TEXT_LEN - len), LineEnd(conv));
    str, rest, newLen := PutDirective(v, buf, start, pad, conv, args, len);
    str := PutLineEnd(buf, str, conv);
  }

  // The text of a call: its allowance for strings depends on what the buffer held.
  function Output(v: Copy, buf: seq<Byte>, fmt: CText, args: seq<Arg>): (text: seq<Byte>)
    requires StringLib.StrnlenReadable(buf, 0, PRINT_TEXT_LEN)
    requires Complete(fmt) && Matches(v, Tokens(fmt), args)
  {
    FormatText(v, fmt, args, PRINT_TEXT_LEN - StringLib.StrnlenOf(buf, 0, PRINT_TEXT_LEN))
  }

  // A call half done: what is printed, and what is left of the format, the
  // arguments and the allowance for strings.
  datatype Progress = Progress(printed: seq<Byte>, fmt: CText, args: seq<Arg>, budget: nat)

  // The call will end with `text` in the buffer.
  ghost predicate LeadsTo(v: Copy, p: Progress, text: seq<Byte>) {
    && Complete(p.fmt)
    && Matches(v, Tokens(p.fmt), p.args)
    && text == p.printed + Render(v, Tokens(p.fmt), p.args, p.budget)
  }

  ghost function Advance(v: Copy, p: Progress): Progress
    requires p.fmt != [] && Complete(p.fmt) && FirstFits(v, FirstToken(p.fmt), p.args)
  {
    var t := FirstToken(p.fmt);
    Progress(p.printed + TokenText(v, t, p.args, p.budget), AfterFirst(p.fmt),
             ArgsAfter(v, t, p.args), BudgetAfter(v, t, p.args, p.budget))
  }

  lemma {:induction false} AdvanceLeadsOn(v: Copy, p: Progress, text: seq<Byte>)
    requires p.fmt != [] && LeadsTo(v, p, text)
    ensures Complete(p.fmt) && FirstFits(v, FirstToken(p.fmt), p.args)
    ensures LeadsTo(v, Advance(v, p), text) && |Advance(v, p).printed| <= |text|
  {
    TokensStep(p.fmt);
    RenderStep(v, Tokens(p.fmt), p.args, p.budget, p.printed);
  }

  lemma {:induction false} TokensStep(fmt: CText)
    requires fmt != [] && Complete(fmt)
    ensures Tokens(fmt) != [] && Tokens(fmt)[0] == FirstToken(fmt) && Tokens(fmt)[1..] == Tokens(AfterFirst(fmt))
  {
  }

  lemma {:induction false} RenderStep(v: Copy, ts: seq<Token>, args: seq<Arg>, budget: nat, front: seq<Byte>)
    requires ts != [] && Matches(v, ts, args)
    ensures FirstFits(v, ts[0], args) && Matches(v, ts[1..], ArgsAfter(v, ts[0], args))
    ensures front + Render(v, ts, args, budget) ==
            (front + TokenText(v, ts[0], args, budget)) +
            Render(v, ts[1..], ArgsAfter(v, ts[0], args), BudgetAfter(v, ts[0], args, budget))
  {
    Associate(front, TokenText(v, ts[0], args, budget),
              Render(v, ts[1..], ArgsAfter(v, ts[0], args), BudgetAfter(v, ts[0], args, budget)));
  }

  lemma {:induction false} AtFirst(v: Copy, fmt: CText, args: seq<Arg>, budget: nat)
    requires Complete(fmt) && Matches(v, Tokens(fmt), args)
    ensures LeadsTo(v, Progress([], fmt, args, budget), FormatText(v, fmt, args, budget))
  {
    var text := Render(v, Tokens(fmt), args, budget);
    assert [] + text == text;
  }

  lemma {:induction false} NothingLeft(v: Copy, p: Progress, text: seq<Byte>)
    requires p.fmt == [] && LeadsTo(v, p, text)
    ensures text == p.printed
  {
  }

  // for (; *fmt; ++fmt)
  method PutTokens(v: Copy, buf: array<Byte>, fmt: CText, args: seq<Arg>, len: nat, ghost text: seq<Byte>)
    returns (str: nat)
    requires len <= PRINT_TEXT_LEN
    requires LeadsTo(v, Progress([], fmt, args, PRINT_TEXT_LEN - len), text)
    requires |text| < buf.Length
    modifies buf
    ensures str < buf.Length && buf[..str] == text
    ensures forall a :: str < a < buf.Length ==> buf[a] == old(buf[a])
  {
    str := 0;
    var f: nat, rest, used: nat := 0, args, len;
    ghost var p := Progress([], fmt, args, PRINT_TEXT_LEN - len);
    while f < |fmt|
      invariant f <= |fmt| && used <= PRINT_TEXT_LEN && str <= |text|
      invariant p.printed == buf[..str] && p.fmt == fmt[f..] && p.args == rest && p.budget == PRINT_TEXT_LEN - used
      invariant LeadsTo(v, p, text)
      invariant forall a :: |text| < a < buf.Length ==> buf[a] == old(buf[a])
      decreases |fmt| - f
    {
      AdvanceLeadsOn(v, p, text);
      p := Advance(v, p);
      str, f, rest, used := PutToken(v, buf, str, fmt, f, rest, used);
    }
    NothingLeft(v, p, text);
  }

  method Vsprintk(v: Copy, buf: array<Byte>, fmt: CText, args: seq<Arg>) returns (n: nat)
    requires StringLib.StrnlenReadable(buf[..], 0, PRINT_TEXT_LEN)
    requires Complete(fmt) && Matches(v, Tokens(fmt), args)
    requires |Output(v, buf[..], fmt, args)| < buf.Length
    modifies buf
    ensures buf[..] == Written(old(buf[..]), Output(v, old(buf[..]), fmt, args))
    ensures StringLib.StrnlenReadable(buf[..], 0, PRINT_TEXT_LEN)
    ensures n == StringLib.StrnlenOf(buf[..], 0, PRINT_TEXT_LEN)
  {
    var len := StringLib.Strnlen(buf, 0, PRINT_TEXT_LEN);
    ghost var text := FormatText(v, fmt, args, PRINT_TEXT_LEN - len);
    assert text == Output(v, buf[..], fmt, args);
    AtFirst(v, fmt, args, PRINT_TEXT_LEN - len);
    n := PrintAll(v, buf, fmt, args, len, text);
  }

  // The format loop and what follows it.
  method PrintAll(v: Copy, buf: array<Byte>, fmt: CText, args: seq<Arg>, len: nat, ghost text: seq<Byte>)
    returns (n: nat)
    requires len <= PRINT_TEXT_LEN
    requires LeadsTo(v, Progress([], fmt, args, PRINT_TEXT_LEN - len), text)
    requires |text| < buf.Length
    modifies buf
    ensures buf[..] == Written(old(buf[..]), text)
    ensures StringLib.StrnlenReadable(buf[..], 0, PRINT_TEXT_LEN)
    ensures n == StringLib.StrnlenOf(buf[..], 0, PRINT_TEXT_LEN)
  {
    ghost var before := buf[..];
    var str := PutTokens(v, buf, fmt, args, len, text);
    n := Terminate(buf, str, before);
  }

  // *str = '\0' and the length of what was printed.
  method Terminate(buf: array<Byte>, str: nat, ghost before: seq<Byte>) returns (n: nat)
    requires str < buf.Length == |before|
    requires forall a :: str < a < buf.Length ==> buf[a] == before[a]
    modifies buf
    ensures buf[..] == Written(before, old(buf[..str]))
    ensures StringLib.StrnlenReadable(buf[..], 0, PRINT_TEXT_LEN)
    ensures n == StringLib.StrnlenOf(buf[..], 0, PRINT_TEXT_LEN)
  {
    buf[str] := NUL;
    assert buf[..][str] == NUL;
    n := StringLib.Strnlen(buf, 0, PRINT_TEXT_LEN);
  }

  // The buffer after a call: the text, a terminator, and what was there before.
  function Written(buf: seq<Byte>, text: seq<Byte>): (r: seq<Byte>)
    requires |text| < |buf|
    ensures |r| == |buf|
  {
    text + [NUL] + buf[|text| + 1..]
  }

  // A call returns the length of its text, but at most 256, when the text has no
  // NUL in it; with one, the length up to the first.
  lemma {:induction false} ReturnedLength(buf: seq<Byte>, text: seq<Byte>)
    requires |text| < |buf|
    ensures StringLib.StrnlenReadable(Written(buf, text), 0, PRINT_TEXT_LEN)
    ensures NUL !in text ==>
              StringLib.StrnlenOf(Written(buf, text), 0, PRINT_TEXT_LEN) ==
              (if |text| < PRINT_TEXT_LEN then |text| else PRINT_TEXT_LEN)
    ensures forall k :: 0 <= k < |text| && k < PRINT_TEXT_LEN && text[k] == NUL && NUL !in text[..k] ==>
              StringLib.StrnlenOf(Written(buf, text), 0, PRINT_TEXT_LEN) == k
  {
    var r := Written(buf, text);
    assert r[|text|] == NUL;
    assert forall k :: 0 <= k < |text| ==> r[k] == text[k];
    if NUL !in text {
      CStringLengthUnique(r, 0, |text|);
    }
    forall k | 0 <= k < |text| && k < PRINT_TEXT_LEN && text[k] == NUL && NUL !in text[..k]
      ensures StringLib.StrnlenOf(r, 0, PRINT_TEXT_LEN) == k
    {
      assert forall i :: 0 <= i < k ==> r[i] == text[..k][i];
      CStringLengthUnique(r, 0, k);
    }
  }
}
