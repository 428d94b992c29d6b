// What vsprintk is to produce: a format is a sequence of tokens, and each token
// contributes a piece of text. The hypervisor and the guest each carry a copy of
// the formatter; `Copy` says which one is meant.
module Format {
  import opened Arithmetic
  import opened Memory
  import opened Digits

  // A C string as a value: its bytes up to the terminator.
  type CText = s: seq<Byte> | NUL !in s

  datatype Copy = Hypervisor | Guest

  datatype Arg = Word(w: Word32) | Str(s: CText) | Chr(c: Byte)

  // A directive's pad is 1 unless the format gives a digit after "%0".
  datatype Token = Literal(c: Byte) | Directive(pad: Word32, conv: Byte)

  const TAB: Byte := 0x09
  const LF: Byte := 0x0A
  const CR: Byte := 0x0D
  const PERCENT: Byte := 0x25
  const MINUS: Byte := 0x2D
  const ZERO: Byte := 0x30

  const CONV_C: Byte := 0x63
  const CONV_D: Byte := 0x64
  const CONV_I: Byte := 0x69
  const CONV_L: Byte := 0x6C
  const CONV_O: Byte := 0x6F
  const CONV_S: Byte := 0x73
  const CONV_U: Byte := 0x75
  const CONV_X: Byte := 0x78

  const PRINT_TEXT_LEN := 0x100

  function Wrap32(x: int): (w: Word32)
    ensures 0 <= x < 0x1_0000_0000 ==> w == x
    ensures -0x1_0000_0000 <= x < 0 ==> w == x + 0x1_0000_0000
  {
    x % 0x1_0000_0000
  }

  // The two's complement reading of a word.
  function AsSigned(w: Word32): int {
    if w < 0x8000_0000 then w else w - 0x1_0000_0000
  }

  // --- Reading a format -------------------------------------------------------

  // Where a directive's conversion character stands: after '%', an optional
  // "0" and pad character, and an optional 'l'.
  function ConvIndex(fmt: CText): nat
    requires fmt != [] && fmt[0] == PERCENT
  {
    var p := if 1 < |fmt| && fmt[1] == ZERO then 3 else 1;
    if p < |fmt| && fmt[p] == CONV_L then p + 1 else p
  }

  // Every directive has its conversion character. The formatter steps over the
  // terminator of any other format and keeps reading.
  predicate Complete(fmt: CText) {
    if fmt == [] then true
    else if fmt[0] != PERCENT then Complete(fmt[1..])
    else ConvIndex(fmt) < |fmt| && Complete(fmt[ConvIndex(fmt) + 1..])
  }

  function FirstToken(fmt: CText): (t: Token)
    requires fmt != [] && Complete(fmt)
  {
    if fmt[0] != PERCENT then Literal(fmt[0])
    else Directive(if fmt[1] == ZERO then Wrap32(fmt[2] - ZERO) else 1, fmt[ConvIndex(fmt)])
  }

  function AfterFirst(fmt: CText): (rest: CText)
    requires fmt != [] && Complete(fmt)
    ensures Complete(rest) && |rest| < |fmt|
  {
    if fmt[0] != PERCENT then fmt[1..] else fmt[ConvIndex(fmt) + 1..]
  }

  function Tokens(fmt: CText): (ts: seq<Token>)
    requires Complete(fmt)
    ensures forall t :: t in ts && t.Literal? ==> t.c in fmt
    ensures forall t :: t in ts ==> (if t.Literal? then t.c else t.conv) != NUL
    decreases |fmt|
  {
    if fmt == [] then [] else [FirstToken(fmt)] + Tokens(AfterFirst(fmt))
  }

  // --- Arguments --------------------------------------------------------------

  // In the guest's copy the unsigned conversion has lost its body: it neither
  // prints nor takes an argument.
  predicate TakesWord(v: Copy, conv: Byte) {
    conv == CONV_X || conv == CONV_I || conv == CONV_D || conv == CONV_O || (conv == CONV_U && v.Hypervisor?)
  }

  predicate TakesArg(v: Copy, t: Token) {
    t.Directive? && (TakesWord(v, t.conv) || t.conv == CONV_S || t.conv == CONV_C)
  }

  predicate ArgFits(v: Copy, t: Token, a: Arg)
    requires TakesArg(v, t)
  {
    if t.conv == CONV_S then a.Str? else if t.conv == CONV_C then a.Chr? else a.Word?
  }

  // The next argument, if the token takes one, is there and of the right kind.
  predicate FirstFits(v: Copy, t: Token, args: seq<Arg>) {
    TakesArg(v, t) ==> args != [] && ArgFits(v, t, args[0])
  }

  function ArgsAfter(v: Copy, t: Token, args: seq<Arg>): (rest: seq<Arg>)
    requires FirstFits(v, t, args)
  {
    if TakesArg(v, t) then args[1..] else args
  }

  // The arguments suit the directives, in order; surplus ones are ignored.
  predicate Matches(v: Copy, ts: seq<Token>, args: seq<Arg>) {
    ts == [] || (FirstFits(v, ts[0], args) && Matches(v, ts[1..], ArgsAfter(v, ts[0], args)))
  }

  // --- Numbers ----------------------------------------------------------------

  // The least number of hexadecimal digits shown. The printers compare a digit's
  // position with a threshold computed modulo 2^32; the guest's hexadecimal
  // printer converts that threshold to a signed number first.
  function HexPad(v: Copy, pad: Word32): nat {
    if pad <= 8 then pad
    else if v.Guest? && pad <= 0x8000_0008 then 8
    else 0
  }

  // The last decimal digit is always shown.
  function DecimalPad(pad: Word32): nat {
    if 1 <= pad <= 9 then pad else 1
  }

  function OctalPad(pad: Word32): nat {
    if pad <= 10 then pad else 0
  }

  function HexText(v: Copy, w: Word32, pad: Word32): (t: seq<Byte>)
    ensures NUL !in t
  {
    Text(Padded(16, w, HexPad(v, pad)))
  }

  function UnsignedText(w: Word32, pad: Word32): (t: seq<Byte>)
    ensures NUL !in t
  {
    Text(Padded(10, w, DecimalPad(pad)))
  }

  // Negating the least signed number wraps back to it, and its unsigned reading
  // is its magnitude.
  function SignedText(w: Word32, pad: Word32): (t: seq<Byte>)
    ensures NUL !in t
  {
    if AsSigned(w) < 0 then [MINUS] + UnsignedText(Wrap32(-AsSigned(w)), pad) else UnsignedText(w, pad)
  }

  // The top two bits make a digit of their own, shown unasked when pad > 10.
  function OctalText(w: Word32, pad: Word32): (t: seq<Byte>)
    ensures NUL !in t
  {
    OctalLead(w, pad) + Text(Padded(8, w, OctalPad(pad)))
  }

  function OctalLead(w: Word32, pad: Word32): (t: seq<Byte>)
    ensures NUL !in t
  {
    if pad > 10 && w < 0x4000_0000 then [ZERO] else []
  }

  function WordText(v: Copy, t: Token, w: Word32): (text: seq<Byte>)
    requires t.Directive? && TakesWord(v, t.conv)
    ensures NUL !in text
  {
    if t.conv == CONV_X then HexText(v, w, t.pad)
    else if t.conv == CONV_O then OctalText(w, t.pad)
    else if t.conv == CONV_U then UnsignedText(w, t.pad)
    else SignedText(w, t.pad)
  }

  // --- Rendering --------------------------------------------------------------

  function Take(s: seq<Byte>, n: nat): (r: seq<Byte>)
    ensures |r| == if n < |s| then n else |s|
  {
    if n < |s| then s[..n] else s
  }

  // After a token's own text, a newline or tab character is printed, the newline
  // with a carriage return before it.
  function LineEnd(c: Byte): (text: seq<Byte>)
  {
    if c == LF then [CR, LF] else if c == TAB then [TAB] else []
  }

  // What a directive without an argument prints by itself.
  function SwitchText(conv: Byte): (text: seq<Byte>)
  {
    if conv == PERCENT then [PERCENT]
    else if conv == TAB then [PERCENT, TAB]
    else if conv == LF then [PERCENT, CR, LF]
    else []
  }

  // A token without an argument. LineEnd also follows a directive whose conversion
  // character is a newline or tab, so those are printed twice.
  function PlainText(t: Token): (text: seq<Byte>)
    ensures (if t.Literal? then t.c else t.conv) != NUL ==> NUL !in text
  {
    match t
    case Literal(c) => if c == LF || c == TAB then LineEnd(c) else [c]
    case Directive(_, conv) => SwitchText(conv) + LineEnd(conv)
  }

  // What one token prints. budget is what is left of the allowance that all %s
  // directives share.
  function TokenText(v: Copy, t: Token, args: seq<Arg>, budget: nat): (text: seq<Byte>)
    requires FirstFits(v, t, args)
  {
    if !TakesArg(v, t) then PlainText(t)
    else
      match args[0]
      case Word(w) => WordText(v, t, w)
      case Str(s) => Take(s, budget)
      case Chr(c) => [c]
  }

  predicate IsString(t: Token) {
    t.Directive? && t.conv == CONV_S
  }

  function BudgetAfter(v: Copy, t: Token, args: seq<Arg>, budget: nat): (left: nat)
    requires FirstFits(v, t, args)
  {
    if IsString(t) then budget - |TokenText(v, t, args, budget)| else budget
  }

  function Render(v: Copy, ts: seq<Token>, args: seq<Arg>, budget: nat): (text: seq<Byte>)
    requires Matches(v, ts, args)
  {
    if ts == [] then []
    else
      TokenText(v, ts[0], args, budget) +
      Render(v, ts[1..], ArgsAfter(v, ts[0], args), BudgetAfter(v, ts[0], args, budget))
  }

  // What a format prints.
  function FormatText(v: Copy, fmt: CText, args: seq<Arg>, budget: nat): (text: seq<Byte>)
    requires Complete(fmt) && Matches(v, Tokens(fmt), args)
  {
    Render(v, Tokens(fmt), args, budget)
  }
}
