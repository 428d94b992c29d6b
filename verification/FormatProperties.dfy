// What the formatter's output means: printed numbers can be read back, all %s
// directives share one allowance, line ends come in pairs, and the two copies of
// the formatter agree except where their sources differ.
module FormatProperties {
  import opened Arithmetic
  import opened Memory
  import opened Digits
  import opened Format
  import Printk
  import StringLib

  // --- Reading printed numbers back -------------------------------------------

  function AtLeast(a: nat, b: nat): nat { if a < b then b else a }

  // How many digits a number needs in a base: the least k with n < base^k.
  predicate NeedsDigits(base: nat, n: nat, k: nat)
    requires 0 < base
  {
    n < Pow(base, k) && (k > 0 ==> n >= Pow(base, k - 1))
  }

  lemma {:induction false} NeedsSignificant(base: nat, n: nat)
    requires 2 <= base <= 16
    ensures NeedsDigits(base, n, |Significant(base, n)|)
  {
    var k := |Significant(base, n)|;
    SignificantCount(base, n, k);
    if k > 0 { SignificantCount(base, n, k - 1); }
  }

  // %x: reading the text in base 16 gives the number, and the text is as long as
  // the number needs or as the padding asks, whichever is more.
  lemma {:induction false} HexRoundTrip(v: Copy, w: Word32, pad: Word32, k: nat)
    requires NeedsDigits(16, w, k)
    ensures Parse(16, HexText(v, w, pad)) == Some(w)
    ensures |HexText(v, w, pad)| == AtLeast(k, HexPad(v, pad))
    ensures 1 <= pad <= 8 ==> |HexText(v, w, pad)| == AtLeast(k, pad)
  {
    ParsePadded(16, w, HexPad(v, pad));
    DigitsNeeded(16, w, k);
  }

  lemma {:induction false} DigitsNeeded(base: nat, n: nat, k: nat)
    requires 2 <= base <= 16 && NeedsDigits(base, n, k)
    ensures k == |Significant(base, n)|
  {
    SignificantCount(base, n, k);
    if k > 0 { SignificantCount(base, n, k - 1); }
  }

  // %o, whose leading digit has only two bits.
  lemma {:induction false} OctalRoundTrip(w: Word32, pad: Word32, k: nat)
    requires NeedsDigits(8, w, k)
    ensures Parse(8, OctalText(w, pad)) == Some(w)
    ensures pad <= 10 ==> |OctalText(w, pad)| == AtLeast(k, pad)
  {
    DigitsNeeded(8, w, k);
    var ds := Padded(8, w, OctalPad(pad));
    ParsePadded(8, w, OctalPad(pad));
    if OctalLead(w, pad) == [] {
      assert OctalText(w, pad) == Text(ds);
    } else {
      ParseAfterZero(8, ds);
      ParseText(8, ds);
    }
  }

  lemma {:induction false} ParseAfterZero(b: nat, ds: seq<Digit>)
    requires 2 <= b <= 16 && forall i :: 0 <= i < |ds| ==> ds[i] < b
    ensures Parse(b, [ZERO] + Text(ds)) == Some(Value(b, ds))
  {
    assert Zeros(1) == Zeros(0) + [0] == [0];
    assert [ZERO] + Text(ds) == Text(Zeros(1) + ds);
    ValueOfLeadingZeros(b, 1, ds);
    ParseText(b, Zeros(1) + ds);
  }

  // Reads a decimal number with an optional minus sign.
  function ParseSigned(t: seq<Byte>): (r: Option<int>)
  {
    if t != [] && t[0] == MINUS then
      var r := Parse(10, t[1..]);
      if r.Some? then Some(-(r.value as int)) else None
    else
      var r := Parse(10, t);
      if r.Some? then Some(r.value as int) else None
  }

  // %u: every unsigned word is read back.
  lemma {:induction false} UnsignedRoundTrip(w: Word32, pad: Word32, k: nat)
    requires NeedsDigits(10, w, k)
    ensures Parse(10, UnsignedText(w, pad)) == Some(w)
    ensures |UnsignedText(w, pad)| == AtLeast(k, DecimalPad(pad))
    ensures 1 <= pad <= 8 ==> |UnsignedText(w, pad)| == AtLeast(k, pad)
  {
    ParsePadded(10, w, DecimalPad(pad));
    DigitsNeeded(10, w, k);
  }

  function Magnitude(w: Word32): Word32 {
    if AsSigned(w) < 0 then Wrap32(-AsSigned(w)) else w
  }

  // %d and %i: every signed word is read back, the least one included. The sign does
  // not count towards the padding.
  lemma {:induction false} SignedRoundTrip(w: Word32, pad: Word32, k: nat)
    requires NeedsDigits(10, Magnitude(w), k)
    ensures ParseSigned(SignedText(w, pad)) == Some(AsSigned(w))
    ensures |SignedText(w, pad)| == (if AsSigned(w) < 0 then 1 else 0) + AtLeast(k, DecimalPad(pad))
    ensures 1 <= pad <= 8 ==> |SignedText(w, pad)| == (if AsSigned(w) < 0 then 1 else 0) + AtLeast(k, pad)
  {
    UnsignedRoundTrip(Magnitude(w), pad, k);
    ReadSigned(w, pad);
  }

  lemma {:induction false} ReadSigned(w: Word32, pad: Word32)
    ensures ParseSigned(SignedText(w, pad)) == Some(AsSigned(w))
  {
    if AsSigned(w) < 0 {
      ParsePadded(10, Magnitude(w), DecimalPad(pad));
      assert SignedText(w, pad)[1..] == UnsignedText(Magnitude(w), pad);
    } else {
      ParsePadded(10, w, DecimalPad(pad));
      FirstIsDigit(10, w, DecimalPad(pad));
    }
  }

  lemma {:induction false} FirstIsDigit(b: nat, n: nat, pad: nat)
    requires 2 <= b <= 16 && 0 < pad
    ensures Text(Padded(b, n, pad)) != [] && Text(Padded(b, n, pad))[0] != MINUS
  {
    assert Text(Padded(b, n, pad))[0] == DigitChar(Padded(b, n, pad)[0]);
  }

  // So numbers of any value, printed with the same pad from 1 to 8, have a width
  // between the pad and the most digits a word needs, and pad 8 makes every
  // hexadecimal number eight characters wide.
  lemma {:induction false} Widths(v: Copy, w: Word32, pad: Word32)
    requires 1 <= pad <= 8
    ensures pad <= |HexText(v, w, pad)| <= 8
    ensures pad <= |OctalText(w, pad)| <= 11
    ensures pad <= |UnsignedText(w, pad)| <= 10
    ensures pad <= |SignedText(w, pad)| <= 11
  {
    WordPowers();
    AtMost(16, w, 8);
    AtMost(8, w, 11);
    AtMost(10, w, 10);
    AtMost(10, Magnitude(w), 10);
    HexRoundTrip(v, w, pad, |Significant(16, w)|);
    OctalRoundTrip(w, pad, |Significant(8, w)|);
    UnsignedRoundTrip(w, pad, |Significant(10, w)|);
    SignedRoundTrip(w, pad, |Significant(10, Magnitude(w))|);
  }

  lemma {:induction false} AtMost(base: nat, n: nat, most: nat)
    requires 2 <= base <= 16 && n < Pow(base, most)
    ensures NeedsDigits(base, n, |Significant(base, n)|) && |Significant(base, n)| <= most
  {
    NeedsSignificant(base, n);
    SignificantCount(base, n, most);
  }

  lemma {:induction false} WordPowers()
    ensures Pow(16, 8) == 0x1_0000_0000 <= Pow(8, 11) && 0x1_0000_0000 <= Pow(10, 10)
  {
    assert Pow(16, 8) == 0x1_0000_0000;
    assert Pow(8, 11) == 0x2_0000_0000;
    assert Pow(10, 10) == 10000000000;
  }

  // With a pad character that asks for no digit, zero prints as nothing at all in
  // hexadecimal and octal, and only zero does; decimal always shows a digit.
  lemma {:induction false} BlankNumbers(v: Copy, w: Word32, pad: Word32)
    ensures HexText(v, w, pad) == [] <==> w == 0 && HexPad(v, pad) == 0
    ensures OctalText(w, pad) == [] <==> w == 0 && pad == 0
    ensures UnsignedText(w, pad) != []
  {
    assert w == 0 <==> Significant(16, w) == [];
    assert w == 0 <==> Significant(8, w) == [];
    assert Text([]) == [];
  }

  // --- NUL in the output ----------------------------------------------------------

  // Some %c directive is given the character NUL.
  predicate PrintsNul(v: Copy, ts: seq<Token>, args: seq<Arg>)
    requires Matches(v, ts, args)
  {
    ts != [] &&
    ((TakesArg(v, ts[0]) && args[0] == Chr(NUL)) || PrintsNul(v, ts[1..], ArgsAfter(v, ts[0], args)))
  }

  lemma {:induction false} TokenTextNul(v: Copy, t: Token, args: seq<Arg>, budget: nat)
    requires FirstFits(v, t, args)
    requires (if t.Literal? then t.c else t.conv) != NUL
    ensures NUL in TokenText(v, t, args, budget) <==> TakesArg(v, t) && args[0] == Chr(NUL)
  {
    if TakesArg(v, t) {
      match args[0]
      case Word(w) =>
      case Str(s) =>
        assert forall i :: 0 <= i < |Take(s, budget)| ==> Take(s, budget)[i] == s[i];
      case Chr(c) =>
    }
  }

  lemma {:induction false} NulInOutput(v: Copy, ts: seq<Token>, args: seq<Arg>, budget: nat)
    requires Matches(v, ts, args)
    requires forall t :: t in ts ==> (if t.Literal? then t.c else t.conv) != NUL
    ensures NUL in Render(v, ts, args, budget) <==> PrintsNul(v, ts, args)
  {
    if ts != [] {
      TokenTextNul(v, ts[0], args, budget);
      NulInOutput(v, ts[1..], ArgsAfter(v, ts[0], args), BudgetAfter(v, ts[0], args, budget));
    }
  }

  // The value vsprintk returns is the length of what it printed, at most 256,
  // unless a %c was given NUL.
  lemma {:induction false} ReturnedValue(v: Copy, buf: seq<Byte>, fmt: CText, args: seq<Arg>, text: seq<Byte>)
    requires StringLib.StrnlenReadable(buf, 0, PRINT_TEXT_LEN)
    requires Complete(fmt) && Matches(v, Tokens(fmt), args)
    requires text == Printk.Output(v, buf, fmt, args) && |text| < |buf|
    requires !PrintsNul(v, Tokens(fmt), args)
    ensures StringLib.StrnlenReadable(Printk.Written(buf, text), 0, PRINT_TEXT_LEN)
    ensures StringLib.StrnlenOf(Printk.Written(buf, text), 0, PRINT_TEXT_LEN) ==
            (if |text| < PRINT_TEXT_LEN then |text| else PRINT_TEXT_LEN)
    ensures IsCString(Printk.Written(buf, text), 0) && CString(Printk.Written(buf, text), 0) == text
  {
    assert NUL !in text by {
      NulInOutput(v, Tokens(fmt), args, PRINT_TEXT_LEN - StringLib.StrnlenOf(buf, 0, PRINT_TEXT_LEN));
    }
    Printk.ReturnedLength(buf, text);
    WrittenString(buf, text);
  }

  lemma {:induction false} WrittenString(buf: seq<Byte>, text: seq<Byte>)
    requires |text| < |buf| && NUL !in text
    ensures IsCString(Printk.Written(buf, text), 0) && CString(Printk.Written(buf, text), 0) == text
  {
    var after := Printk.Written(buf, text);
    assert forall k :: 0 <= k < |text| ==> after[k] == text[k];
    CStringLengthUnique(after, 0, |text|);
    assert after[0..0 + |text|] == text;
  }

  // --- The allowance shared by all %s directives ------------------------------------

  datatype Piece = Piece(token: Token, text: seq<Byte>)

  // The output cut up by token.
  function Pieces(v: Copy, ts: seq<Token>, args: seq<Arg>, budget: nat): (ps: seq<Piece>)
    requires Matches(v, ts, args)
  {
    if ts == [] then []
    else
      [Piece(ts[0], TokenText(v, ts[0], args, budget))] +
      Pieces(v, ts[1..], ArgsAfter(v, ts[0], args), BudgetAfter(v, ts[0], args, budget))
  }

  function Join(ps: seq<Piece>): (text: seq<Byte>) {
    if ps == [] then [] else ps[0].text + Join(ps[1..])
  }

  function JoinStrings(ps: seq<Piece>): (text: seq<Byte>) {
    if ps == [] then []
    else (if IsString(ps[0].token) then ps[0].text else []) + JoinStrings(ps[1..])
  }

  // The string arguments in full, one after the other.
  function StringArgs(v: Copy, ts: seq<Token>, args: seq<Arg>): (text: seq<Byte>)
    requires Matches(v, ts, args)
  {
    if ts == [] then []
    else (if IsString(ts[0]) then args[0].s else []) + StringArgs(v, ts[1..], ArgsAfter(v, ts[0], args))
  }

  // Whatever stands between the %s directives of one call, the bytes they print
  // are, put together, the longest prefix of all string arguments put together
  // that the allowance permits.
  lemma {:induction false} StringsShareAllowance(v: Copy, ts: seq<Token>, args: seq<Arg>, budget: nat)
    requires Matches(v, ts, args)
    ensures Join(Pieces(v, ts, args, budget)) == Render(v, ts, args, budget)
    ensures JoinStrings(Pieces(v, ts, args, budget)) == Take(StringArgs(v, ts, args), budget)
  {
    if ts != [] {
      var rest, left := ArgsAfter(v, ts[0], args), BudgetAfter(v, ts[0], args, budget);
      StringsShareAllowance(v, ts[1..], rest, left);
      var ps := Pieces(v, ts, args, budget);
      assert ps[1..] == Pieces(v, ts[1..], rest, left);
      var tail := StringArgs(v, ts[1..], rest);
      if IsString(ts[0]) {
        TakeSplit(args[0].s, tail, budget);
      } else {
        assert [] + tail == tail && [] + Take(tail, budget) == Take(tail, budget);
      }
    }
  }

  lemma {:induction false} TakeSplit(a: seq<Byte>, b: seq<Byte>, n: nat)
    ensures Take(a, n) + Take(b, n - |Take(a, n)|) == Take(a + b, n)
  {
  }

  // --- Line ends ----------------------------------------------------------------------

  // Every newline has a carriage return before it.
  predicate LineEndsPaired(text: seq<Byte>) {
    forall i :: 0 <= i < |text| && text[i] == LF ==> 0 < i && text[i - 1] == CR
  }

  lemma {:induction false} PairedAppend(a: seq<Byte>, b: seq<Byte>)
    requires LineEndsPaired(a) && LineEndsPaired(b)
    ensures LineEndsPaired(a + b)
  {
    forall i | 0 <= i < |a + b| && (a + b)[i] == LF
      ensures 0 < i && (a + b)[i - 1] == CR
    {
      if i >= |a| { assert b[i - |a|] == LF; }
    }
  }

  predicate FreeOfNewlines(a: Arg) {
    (a.Str? ==> LF !in a.s) && (a.Chr? ==> a.c != LF)
  }

  // Newlines that come from the format, in whatever way, come out paired.
  lemma {:induction false} NewlinesPaired(v: Copy, ts: seq<Token>, args: seq<Arg>, budget: nat)
    requires Matches(v, ts, args)
    requires forall a :: a in args ==> FreeOfNewlines(a)
    ensures LineEndsPaired(Render(v, ts, args, budget))
  {
    if ts != [] {
      NewlinesPaired(v, ts[1..], ArgsAfter(v, ts[0], args), BudgetAfter(v, ts[0], args, budget));
      TokenPaired(v, ts[0], args, budget);
      PairedAppend(TokenText(v, ts[0], args, budget),
                   Render(v, ts[1..], ArgsAfter(v, ts[0], args), BudgetAfter(v, ts[0], args, budget)));
    }
  }

  lemma {:induction false} TokenPaired(v: Copy, t: Token, args: seq<Arg>, budget: nat)
    requires FirstFits(v, t, args)
    requires forall a :: a in args ==> FreeOfNewlines(a)
    ensures LineEndsPaired(TokenText(v, t, args, budget))
  {
    if TakesArg(v, t) {
      assert FreeOfNewlines(args[0]);
      assert LF !in TokenText(v, t, args, budget) by {
        match args[0]
        case Word(w) => WordTextPlain(v, t, w);
        case Str(s) => assert forall i :: 0 <= i < |Take(s, budget)| ==> Take(s, budget)[i] == s[i];
        case Chr(c) =>
      }
    }
  }

  lemma {:induction false} WordTextPlain(v: Copy, t: Token, w: Word32)
    requires t.Directive? && TakesWord(v, t.conv)
    ensures LF !in WordText(v, t, w)
  {
  }

  // --- The two copies -------------------------------------------------------------------

  // The directives on which the guest's copy behaves like the hypervisor's.
  predicate SameInBoth(t: Token) {
    t.Directive? ==> t.conv != CONV_U && (t.conv == CONV_X && 8 < t.pad ==> 0x8000_0008 < t.pad)
  }

  predicate BehavesAlike(t: Token, args: seq<Arg>, budget: nat)
    requires FirstFits(Hypervisor, t, args) && FirstFits(Guest, t, args)
  {
    TokenText(Hypervisor, t, args, budget) == TokenText(Guest, t, args, budget) &&
    ArgsAfter(Hypervisor, t, args) == ArgsAfter(Guest, t, args)
  }

  // Those are exactly the directives on which the copies never differ.
  lemma {:induction false} CopiesAgreeIff(t: Token)
    ensures (forall args: seq<Arg>, budget: nat | FirstFits(Hypervisor, t, args) && FirstFits(Guest, t, args)
               :: BehavesAlike(t, args, budget))
       <==> SameInBoth(t)
  {
    if !SameInBoth(t) {
      var args := [Word(0)];
      assert FirstFits(Hypervisor, t, args) && FirstFits(Guest, t, args);
      BlankNumbers(Hypervisor, 0, t.pad);
      BlankNumbers(Guest, 0, t.pad);
      assert !BehavesAlike(t, args, 0);
    }
  }

  // Formats made of such directives print the same through both copies.
  lemma {:induction false} CopiesAgree(ts: seq<Token>, args: seq<Arg>, budget: nat)
    requires Matches(Hypervisor, ts, args)
    requires forall t :: t in ts ==> SameInBoth(t)
    ensures Matches(Guest, ts, args)
    ensures Render(Hypervisor, ts, args, budget) == Render(Guest, ts, args, budget)
  {
    if ts != [] {
      assert BehavesAlike(ts[0], args, budget) by { CopiesAgreeIff(ts[0]); }
      CopiesAgree(ts[1..], ArgsAfter(Hypervisor, ts[0], args), BudgetAfter(Hypervisor, ts[0], args, budget));
    }
  }
}
