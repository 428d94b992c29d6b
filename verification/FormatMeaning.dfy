// What vsprintk prints, said of the bytes of formats: what every single directive
// gives, what text without directives gives, and that formats put together print
// their outputs put together. Between them these determine the output of any format.
module FormatMeaning {
  import opened Arithmetic
  import opened Memory
  import opened Digits
  import opened Format
  import opened FormatProperties
  import Printk
  import StringLib

  function Ascii(c: char): (b: Byte)
    requires c as int < 128
  {
    c as int
  }

  // --- Formats put together ----------------------------------------------------------

  // How many arguments a format takes.
  function ArgsTaken(v: Copy, ts: seq<Token>): nat {
    if ts == [] then 0 else (if TakesArg(v, ts[0]) then 1 else 0) + ArgsTaken(v, ts[1..])
  }

  // What is left of the allowance for strings after them.
  function Left(v: Copy, ts: seq<Token>, args: seq<Arg>, budget: nat): nat
    requires Matches(v, ts, args)
  {
    if ts == [] then budget
    else Left(v, ts[1..], ArgsAfter(v, ts[0], args), BudgetAfter(v, ts[0], args, budget))
  }

  // The arguments are those that the format takes, no more and no fewer.
  predicate Suits(v: Copy, fmt: CText, args: seq<Arg>) {
    Complete(fmt) && Matches(v, Tokens(fmt), args) && |args| == ArgsTaken(v, Tokens(fmt))
  }

  lemma {:induction false} TokensConcat(f: CText, g: CText)
    requires Complete(f) && Complete(g)
    ensures Complete(f + g) && Tokens(f + g) == Tokens(f) + Tokens(g)
    decreases |f|
  {
    if f == [] {
      assert f + g == g;
    } else {
      TokensConcat(AfterFirst(f), g);
      FirstOfConcat(f, g);
    }
  }

  lemma {:induction false} FirstOfConcat(f: CText, g: CText)
    requires f != [] && Complete(f) && Complete(AfterFirst(f) + g)
    ensures Complete(f + g) && FirstToken(f + g) == FirstToken(f) && AfterFirst(f + g) == AfterFirst(f) + g
  {
    if f[0] != PERCENT {
      assert (f + g)[1..] == f[1..] + g;
    } else {
      var k := ConvIndex(f);
      ConvIndexOfConcat(f, g);
      assert (f + g)[k + 1..] == f[k + 1..] + g;
    }
  }

  lemma {:induction false} ConvIndexOfConcat(f: CText, g: CText)
    requires f != [] && f[0] == PERCENT && ConvIndex(f) < |f|
    ensures (f + g)[0] == PERCENT && ConvIndex(f + g) == ConvIndex(f)
  {
    var p := if 1 < |f| && f[1] == ZERO then 3 else 1;
    assert (f + g)[1] == f[1] && (f + g)[p] == f[p];
  }

  lemma {:induction false} MatchesConcat(v: Copy, ts: seq<Token>, us: seq<Token>, args: seq<Arg>, more: seq<Arg>)
    requires Matches(v, ts, args) && |args| == ArgsTaken(v, ts) && Matches(v, us, more)
    ensures Matches(v, ts + us, args + more)
    ensures ArgsTaken(v, ts + us) == ArgsTaken(v, ts) + ArgsTaken(v, us)
  {
    if ts == [] {
      assert ts + us == us && args + more == more;
    } else {
      var rest := ArgsAfter(v, ts[0], args);
      assert (ts + us)[0] == ts[0] && (ts + us)[1..] == ts[1..] + us;
      assert ArgsAfter(v, ts[0], args + more) == rest + more;
      MatchesConcat(v, ts[1..], us, rest, more);
    }
  }

  lemma {:induction false} RenderConcat(v: Copy, ts: seq<Token>, us: seq<Token>, args: seq<Arg>, more: seq<Arg>, budget: nat)
    requires Matches(v, ts, args) && |args| == ArgsTaken(v, ts) && Matches(v, us, more)
    requires Matches(v, ts + us, args + more)
    ensures Render(v, ts + us, args + more, budget) ==
            Render(v, ts, args, budget) + Render(v, us, more, Left(v, ts, args, budget))
    ensures Left(v, ts + us, args + more, budget) == Left(v, us, more, Left(v, ts, args, budget))
  {
    if ts == [] {
      assert ts + us == us && args + more == more;
    } else {
      RestOfConcat(v, ts, us, args, more, budget);
      var rest, left := ArgsAfter(v, ts[0], args), BudgetAfter(v, ts[0], args, budget);
      RenderConcat(v, ts[1..], us, rest, more, left);
      Printk.Associate(TokenText(v, ts[0], args, budget), Render(v, ts[1..], rest, left),
                       Render(v, us, more, Left(v, ts, args, budget)));
    }
  }

  lemma {:induction false} RestOfConcat(v: Copy, ts: seq<Token>, us: seq<Token>, args: seq<Arg>, more: seq<Arg>, budget: nat)
    requires ts != [] && Matches(v, ts, args) && |args| == ArgsTaken(v, ts) && Matches(v, ts + us, args + more)
    ensures var rest, left := ArgsAfter(v, ts[0], args), BudgetAfter(v, ts[0], args, budget);
            && |rest| == ArgsTaken(v, ts[1..]) && Matches(v, ts[1..] + us, rest + more)
            && Render(v, ts + us, args + more, budget) ==
               TokenText(v, ts[0], args, budget) + Render(v, ts[1..] + us, rest + more, left)
            && Left(v, ts + us, args + more, budget) == Left(v, ts[1..] + us, rest + more, left)
  {
    assert (ts + us)[0] == ts[0] && (ts + us)[1..] == ts[1..] + us;
    assert ArgsAfter(v, ts[0], args + more) == ArgsAfter(v, ts[0], args) + more;
    assert TokenText(v, ts[0], args + more, budget) == TokenText(v, ts[0], args, budget);
  }

  // A format with just the arguments it takes prints this text, and leaves so much of
  // the allowance for strings.
  predicate Prints(v: Copy, fmt: CText, args: seq<Arg>, budget: nat, text: seq<Byte>, left: nat) {
    Suits(v, fmt, args) && FormatText(v, fmt, args, budget) == text && Left(v, Tokens(fmt), args, budget) == left
  }

  // Formats put together take their arguments in turn and print their texts in turn,
  // the second with the allowance that the first has left.
  lemma {:induction false} PutTogether(v: Copy, f: CText, g: CText, args: seq<Arg>, more: seq<Arg>, budget: nat,
                                       s: seq<Byte>, left: nat, t: seq<Byte>, end: nat)
    requires Prints(v, f, args, budget, s, left) && Prints(v, g, more, left, t, end)
    ensures Prints(v, f + g, args + more, budget, s + t, end)
  {
    TokensConcat(f, g);
    MatchesConcat(v, Tokens(f), Tokens(g), args, more);
    RenderConcat(v, Tokens(f), Tokens(g), args, more, budget);
  }

  // --- Text without directives --------------------------------------------------------

  // Every line feed gets a carriage return before it.
  function LinesExpanded(s: seq<Byte>): (r: seq<Byte>)
    ensures 10 !in s ==> r == s
  {
    if s == [] then [] else (if s[0] == 10 then [13, 10] else [s[0]]) + LinesExpanded(s[1..])
  }

  lemma {:induction false} PlainText(v: Copy, fmt: CText, budget: nat)
    requires Ascii('%') !in fmt
    ensures Prints(v, fmt, [], budget, LinesExpanded(fmt), budget)
    ensures 10 !in fmt ==> Prints(v, fmt, [], budget, fmt, budget)
  {
    if fmt != [] {
      PlainText(v, fmt[1..], budget);
      assert Tokens(fmt) == [FirstToken(fmt)] + Tokens(fmt[1..]);
      assert Tokens(fmt)[1..] == Tokens(fmt[1..]);
    }
  }

  // --- Single directives ----------------------------------------------------------------

  // The bytes of a directive: a percent sign, the padding with its digit, the
  // length modifier, and the conversion character.
  function Spec(pad: Option<Byte>, long: bool, conv: Byte): (fmt: CText)
    requires conv != 0 && pad != Some(0)
  {
    [Ascii('%')] + (if pad.Some? then [Ascii('0'), pad.value] else []) + (if long then [Ascii('l')] else []) + [conv]
  }

  // The pad is 1 unless there is a padding, and then the character's distance from
  // '0', modulo 2^32.
  function PadOf(pad: Option<Byte>): Word32 {
    if pad.None? then 1 else Wrap32(pad.value - Ascii('0'))
  }

  lemma {:induction false} SpecToken(pad: Option<Byte>, long: bool, conv: Byte)
    requires conv != 0 && pad != Some(0) && conv != Ascii('0') && conv != Ascii('l')
    ensures Complete(Spec(pad, long, conv)) && Tokens(Spec(pad, long, conv)) == [Directive(PadOf(pad), conv)]
  {
    var fmt := Spec(pad, long, conv);
    var k := |fmt| - 1;
    assert ConvIndex(fmt) == k;
    assert fmt[k + 1..] == [];
    assert Complete(fmt[k + 1..]) && Tokens(fmt[k + 1..]) == [];
    assert AfterFirst(fmt) == [];
    assert FirstToken(fmt) == Directive(PadOf(pad), conv);
  }

  // One directive and its argument, if it takes one.
  lemma {:induction false} OneToken(v: Copy, fmt: CText, t: Token, args: seq<Arg>, budget: nat)
    requires Complete(fmt) && Tokens(fmt) == [t] && FirstFits(v, t, args) && |args| == (if TakesArg(v, t) then 1 else 0)
    ensures Prints(v, fmt, args, budget, TokenText(v, t, args, budget), BudgetAfter(v, t, args, budget))
  {
    assert [t][1..] == [];
    assert Render(v, [t], args, budget) == TokenText(v, t, args, budget) + [];
  }

  lemma {:induction false} OneWord(v: Copy, pad: Option<Byte>, long: bool, conv: Byte, w: Word32, budget: nat)
    requires pad != Some(0) && TakesWord(v, conv)
    ensures Prints(v, Spec(pad, long, conv), [Word(w)], budget, WordText(v, Directive(PadOf(pad), conv), w), budget)
  {
    SpecToken(pad, long, conv);
    OneToken(v, Spec(pad, long, conv), Directive(PadOf(pad), conv), [Word(w)], budget);
  }

  // A number of so many digits, read in a base from a text that is filled up to a width.
  predicate Denotes(text: seq<Byte>, base: nat, number: nat, digits: nat, width: nat)
    requires 2 <= base <= 16
  {
    && NeedsDigits(base, number, digits)
    && Parse(base, text) == Some(number)
    && |text| == (if digits < width then width else digits)
  }

  // How reading works: a text's last character is the digit of least weight.
  lemma {:induction false} ReadsDigit(base: nat, text: seq<Byte>, number: nat, d: nat)
    requires 2 <= base <= 16 && d < base && Parse(base, text) == Some(number)
    ensures Parse(base, []) == Some(0)
    ensures Parse(base, text + [Ascii("0123456789abcdef"[d])]) == Some(number * base + d)
  {
    DigitCharacter(d);
    ParseAppend(base, text, number, d);
  }

  lemma {:induction false} DigitCharacter(d: Digit)
    ensures DigitChar(d) == "0123456789abcdef"[d] as int
  {
  }

  // The least number of digits that a padding asks for: its digit, and other
  // characters as the printers' arithmetic has it.
  function HexWidth(v: Copy, pad: Option<Byte>): nat {
    match pad
    case None => 1
    case Some(c) => if 48 <= c <= 56 then c - 48 else if v.Guest? && c > 56 then 8 else 0
  }

  function DecimalWidth(pad: Option<Byte>): nat {
    match pad
    case None => 1
    case Some(c) => if 49 <= c <= 57 then c - 48 else 1
  }

  function OctalWidth(pad: Option<Byte>): nat {
    match pad
    case None => 1
    case Some(c) => if 48 <= c <= 58 then c - 48 else 0
  }

  // For the digits '1' to '8' and for no padding the widths are those asked for.
  predicate AsksFor(pad: Option<Byte>, width: nat) {
    match pad
    case None => width == 1
    case Some(c) => 1 <= width <= 8 && c == "012345678"[width] as int
  }

  lemma {:induction false} WidthsAskedFor(v: Copy, pad: Option<Byte>, width: nat)
    requires AsksFor(pad, width)
    ensures HexWidth(v, pad) == DecimalWidth(pad) == OctalWidth(pad) == width
  {
  }

  // "%x", with or without padding and 'l'.
  lemma {:induction false} PrintsHex(v: Copy, pad: Option<Byte>, long: bool, w: Word32, digits: nat, budget: nat)
    returns (text: seq<Byte>)
    requires pad != Some(0) && NeedsDigits(16, w, digits)
    ensures Prints(v, Spec(pad, long, Ascii('x')), [Word(w)], budget, text, budget)
    ensures Denotes(text, 16, w, digits, HexWidth(v, pad))
  {
    text := HexText(v, w, PadOf(pad));
    OneWord(v, pad, long, Ascii('x'), w, budget);
    HexDenotes(v, pad, w, digits);
  }

  lemma {:induction false} HexDenotes(v: Copy, pad: Option<Byte>, w: Word32, digits: nat)
    requires NeedsDigits(16, w, digits)
    ensures Denotes(HexText(v, w, PadOf(pad)), 16, w, digits, HexWidth(v, pad))
  {
    HexRoundTrip(v, w, PadOf(pad), digits);
  }

  // "%o". Beyond ten, a pad shows the two leading bits as one digit more.
  lemma {:induction false} PrintsOctal(v: Copy, pad: Option<Byte>, long: bool, w: Word32, digits: nat, budget: nat)
    returns (text: seq<Byte>)
    requires pad != Some(0) && NeedsDigits(8, w, digits)
    ensures Prints(v, Spec(pad, long, Ascii('o')), [Word(w)], budget, text, budget)
    ensures Parse(8, text) == Some(w)
    ensures pad == None || 48 <= pad.value <= 58 ==> Denotes(text, 8, w, digits, OctalWidth(pad))
    ensures pad != None && !(48 <= pad.value <= 58) ==> |text| == if w < 0x4000_0000 then digits + 1 else 11
  {
    text := OctalText(w, PadOf(pad));
    OneWord(v, pad, long, Ascii('o'), w, budget);
    OctalRoundTrip(w, PadOf(pad), digits);
    if PadOf(pad) > 10 { WideOctal(w, PadOf(pad), digits); }
  }

  lemma {:induction false} WideOctal(w: Word32, pad: Word32, digits: nat)
    requires pad > 10 && NeedsDigits(8, w, digits)
    ensures |OctalText(w, pad)| == if w < 0x4000_0000 then digits + 1 else 11
  {
    DigitsNeeded(8, w, digits);
    SignificantCount(8, w, 10);
    SignificantCount(8, w, 11);
    Printk.OctalPowers();
  }

  // "%u": unsigned decimal in the hypervisor.
  lemma {:induction false} PrintsUnsigned(pad: Option<Byte>, long: bool, w: Word32, digits: nat, budget: nat)
    returns (text: seq<Byte>)
    requires pad != Some(0) && NeedsDigits(10, w, digits)
    ensures Prints(Hypervisor, Spec(pad, long, Ascii('u')), [Word(w)], budget, text, budget)
    ensures Denotes(text, 10, w, digits, DecimalWidth(pad))
  {
    text := UnsignedText(w, PadOf(pad));
    OneWord(Hypervisor, pad, long, Ascii('u'), w, budget);
    DecimalDenotes(pad, w, digits);
  }

  // The guest's copy prints nothing for it and takes no argument.
  lemma {:induction false} GuestPrintsNoUnsigned(pad: Option<Byte>, long: bool, budget: nat)
    requires pad != Some(0)
    ensures Prints(Guest, Spec(pad, long, Ascii('u')), [], budget, [], budget)
  {
    PrintsAlone(Guest, pad, long, Ascii('u'), budget);
  }

  lemma {:induction false} DecimalDenotes(pad: Option<Byte>, w: Word32, digits: nat)
    requires NeedsDigits(10, w, digits)
    ensures Denotes(UnsignedText(w, PadOf(pad)), 10, w, digits, DecimalWidth(pad))
  {
    UnsignedRoundTrip(w, PadOf(pad), digits);
  }

  // "%d" and "%i": signed decimal. A word from 2^31 up stands for itself less 2^32.
  lemma {:induction false} PrintsSigned(v: Copy, pad: Option<Byte>, long: bool, conv: Byte, w: Word32, digits: nat, budget: nat)
    returns (text: seq<Byte>)
    requires pad != Some(0) && (conv == Ascii('d') || conv == Ascii('i'))
    requires NeedsDigits(10, if w < 0x8000_0000 then w else 0x1_0000_0000 - w, digits)
    ensures Prints(v, Spec(pad, long, conv), [Word(w)], budget, text, budget)
    ensures w < 0x8000_0000 ==> Denotes(text, 10, w, digits, DecimalWidth(pad))
    ensures w >= 0x8000_0000 ==>
              text != [] && text[0] == Ascii('-') && Denotes(text[1..], 10, 0x1_0000_0000 - w, digits, DecimalWidth(pad))
  {
    text := SignedText(w, PadOf(pad));
    OneWord(v, pad, long, conv, w, budget);
    SignedDenotes(pad, w, digits);
  }

  lemma {:induction false} SignedDenotes(pad: Option<Byte>, w: Word32, digits: nat)
    requires NeedsDigits(10, if w < 0x8000_0000 then w else 0x1_0000_0000 - w, digits)
    ensures var text := SignedText(w, PadOf(pad));
            && (w < 0x8000_0000 ==> Denotes(text, 10, w, digits, DecimalWidth(pad)))
            && (w >= 0x8000_0000 ==>
                  text != [] && text[0] == Ascii('-') && Denotes(text[1..], 10, 0x1_0000_0000 - w, digits, DecimalWidth(pad)))
  {
    if w < 0x8000_0000 {
      DecimalDenotes(pad, w, digits);
    } else {
      NegativeDenotes(pad, w, digits);
    }
  }

  lemma {:induction false} NegativeDenotes(pad: Option<Byte>, w: Word32, digits: nat)
    requires w >= 0x8000_0000 && NeedsDigits(10, 0x1_0000_0000 - w, digits)
    ensures var text := SignedText(w, PadOf(pad));
            text != [] && text[0] == Ascii('-') && Denotes(text[1..], 10, 0x1_0000_0000 - w, digits, DecimalWidth(pad))
  {
    var text, rest := SignedText(w, PadOf(pad)), UnsignedText(0x1_0000_0000 - w, PadOf(pad));
    assert Denotes(rest, 10, 0x1_0000_0000 - w, digits, DecimalWidth(pad)) by {
      DecimalDenotes(pad, 0x1_0000_0000 - w, digits);
    }
    assert text != [] && text[0] == Ascii('-') && text[1..] == rest by { NegativeText(w, PadOf(pad)); }
  }

  lemma {:induction false} NegativeText(w: Word32, pad: Word32)
    requires w >= 0x8000_0000
    ensures var text := SignedText(w, pad);
            text != [] && text[0] == Ascii('-') && text[1..] == UnsignedText(0x1_0000_0000 - w, pad)
  {
    assert Wrap32(-AsSigned(w)) == 0x1_0000_0000 - w;
    assert SignedText(w, pad) == [MINUS] + UnsignedText(0x1_0000_0000 - w, pad);
  }

  // "%c": the character.
  lemma {:induction false} PrintsCharacter(v: Copy, pad: Option<Byte>, long: bool, c: Byte, budget: nat)
    requires pad != Some(0)
    ensures Prints(v, Spec(pad, long, Ascii('c')), [Chr(c)], budget, [c], budget)
  {
    SpecToken(pad, long, Ascii('c'));
    OneToken(v, Spec(pad, long, Ascii('c')), Directive(PadOf(pad), Ascii('c')), [Chr(c)], budget);
  }

  // "%s": as much of the string as the allowance permits, which is used up by that.
  lemma {:induction false} PrintsString(v: Copy, pad: Option<Byte>, long: bool, s: CText, budget: nat)
    requires pad != Some(0)
    ensures var used := if |s| <= budget then |s| else budget;
            Prints(v, Spec(pad, long, Ascii('s')), [Str(s)], budget, s[..used], budget - used)
  {
    SpecToken(pad, long, Ascii('s'));
    OneToken(v, Spec(pad, long, Ascii('s')), Directive(PadOf(pad), Ascii('s')), [Str(s)], budget);
  }

  // Directives that take no argument: "%%" is a percent sign, a newline or tab after
  // the percent sign comes out with it and once more, and an unknown conversion
  // gives nothing.
  lemma {:induction false} PrintsAlone(v: Copy, pad: Option<Byte>, long: bool, conv: Byte, budget: nat)
    requires pad != Some(0) && conv !in [0, Ascii('0'), Ascii('l')]
    requires conv !in [Ascii('x'), Ascii('o'), Ascii('d'), Ascii('i'), Ascii('c'), Ascii('s')]
    requires v.Hypervisor? ==> conv != Ascii('u')
    ensures Prints(v, Spec(pad, long, conv), [], budget,
                   if conv == 37 then [37] else if conv == 10 then [37, 13, 10, 13, 10] else if conv == 9 then [37, 9, 9] else [],
                   budget)
  {
    SpecToken(pad, long, conv);
    OneToken(v, Spec(pad, long, conv), Directive(PadOf(pad), conv), [], budget);
  }

  // --- The whole call --------------------------------------------------------------------

  // What vsprintk leaves in a buffer: the format's text, with an allowance for strings
  // of 256 less the length of the string that the buffer held, then NUL, then what was
  // there before.
  lemma {:induction false} BufferAfterCall(v: Copy, buf: seq<Byte>, fmt: CText, args: seq<Arg>)
    requires StringLib.StrnlenReadable(buf, 0, 256) && Complete(fmt) && Matches(v, Tokens(fmt), args)
    requires |FormatText(v, fmt, args, 256 - StringLib.StrnlenOf(buf, 0, 256))| < |buf|
    ensures var text := FormatText(v, fmt, args, 256 - StringLib.StrnlenOf(buf, 0, 256));
            && text == Printk.Output(v, buf, fmt, args)
            && Printk.Written(buf, text) == text + [0] + buf[|text| + 1..]
  {
  }
}
