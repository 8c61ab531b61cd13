/**
 * The Android text binding: the value converters between a property and the
 * text of a `TextView`, and the handlers that keep the two in step. Text is a
 * `seq<char>`; `ConvertInt` works on the 32-bit `int` of the property, and its
 * text side is the invariant-culture decimal form: an optional `-`, then
 * digits, no leading zeros.
 */
module TextBinding {
  import opened Wrappers

  /** The values of a C# `int`. */
  type Int32 = n: int | -0x8000_0000 <= n <= 0x7FFF_FFFF

  /** `IValueConverter<string, TData>`: `output` is `ConvertOutput`, `input` is `ConvertInput`. */
  datatype Converter<!D> = Converter(output: D -> string, input: string -> D)

  // ---------------------------------------------------------------- Identity

  /** `Identity.ConvertOutput`: the property text is shown as it is. */
  function IdentityOutput(data: string): (display: string)
    ensures display == data
  {
    data
  }

  /** `Identity.ConvertInput`: the shown text is the property as it is. */
  function IdentityInput(display: string): (data: string)
    ensures data == display
  {
    display
  }

  /** `Identity.Instance`. */
  const Identity: Converter<string> := Converter(IdentityOutput, IdentityInput)

  // ---------------------------------------------------------------- Decimal text

  predicate IsDigit(c: char)
  {
    '0' <= c <= '9'
  }

  predicate AllDigits(s: string)
  {
    forall i :: 0 <= i < |s| ==> IsDigit(s[i])
  }

  /** The characters `NumberStyles.Integer` skips around a numeral:
      tab, line feed, vertical tab, form feed, carriage return and space. */
  predicate IsWhite(c: char)
  {
    c == ' ' || '\t' <= c <= '\r'
  }

  predicate AllWhite(s: string)
  {
    forall i :: 0 <= i < |s| ==> IsWhite(s[i])
  }

  /** The digit character for `d`. */
  function DigitChar(d: nat): (c: char)
    requires d < 10
    ensures IsDigit(c) && c as int - '0' as int == d
  {
    ('0' as int + d) as char
  }

  /** The decimal digits of `m`, most significant first, with no leading zeros. */
  function Digits(m: nat): (s: string)
    ensures |s| > 0 && AllDigits(s)
    ensures |s| > 1 ==> s[0] != '0'
  {
    if m < 10 then [DigitChar(m)] else Digits(m / 10) + [DigitChar(m % 10)]
  }

  /** The number a string of digits denotes. */
  function Value(s: string): int
  {
    if s == [] then 0 else Value(s[..|s| - 1]) * 10 + (s[|s| - 1] as int - '0' as int)
  }

  /** `n.ToString()` for any integer `n`. */
  function Decimal(n: int): (s: string)
    ensures |s| > 0 && !IsWhite(s[0]) && IsDigit(s[|s| - 1])
  {
    if n < 0 then "-" + Digits(-n) else Digits(n)
  }

  /** `s` with the leading white space removed. */
  function TrimStart(s: string): (r: string)
    ensures r == [] || !IsWhite(r[0])
  {
    if s != [] && IsWhite(s[0]) then TrimStart(s[1..]) else s
  }

  /** `s` with the trailing white space removed. */
  function TrimEnd(s: string): (r: string)
    ensures r == [] || !IsWhite(r[|r| - 1])
  {
    if s != [] && IsWhite(s[|s| - 1]) then TrimEnd(s[..|s| - 1]) else s
  }

  /** A numeral: one or more digits and nothing else. */
  function Numeral(d: string): Option<int>
  {
    if d != [] && AllDigits(d) then Some(Value(d)) else None
  }

  /** An optional `-` or `+`, then a numeral. */
  function Signed(t: string): Option<int>
  {
    if t != [] && (t[0] == '-' || t[0] == '+') then
      match Numeral(t[1..])
      case Some(v) => Some(if t[0] == '-' then -v else v)
      case None => None
    else Numeral(t)
  }

  /** `int.TryParse(s, out data)`: white space around a signed numeral is
      skipped; a numeral outside the range of `int` fails like one that is
      not a numeral at all. */
  function TryParse(s: string): (r: Option<Int32>)
    ensures r.Some? ==> Signed(TrimEnd(TrimStart(s))) == Some(r.value as int)
    ensures r.None? ==> match Signed(TrimEnd(TrimStart(s)))
                        case Some(v) => !(-0x8000_0000 <= v <= 0x7FFF_FFFF)
                        case None => true
  {
    match Signed(TrimEnd(TrimStart(s)))
    case Some(v) => if -0x8000_0000 <= v <= 0x7FFF_FFFF then Some(v as Int32) else None
    case None => None
  }

  // ---------------------------------------------------------------- ConvertInt

  /** `ConvertInt.ConvertOutput`: `data.ToString()`. */
  function IntOutput(data: Int32): (display: string)
    ensures display == Decimal(data)
  {
    Decimal(data)
  }

  /** `ConvertInt.ConvertInput`: the parsed value, or 0 when the text does not parse. */
  function IntInput(display: string): (data: Int32)
    ensures TryParse(display).Some? ==> data == TryParse(display).value
    ensures TryParse(display).None? ==> data == 0
  {
    match TryParse(display)
    case Some(v) => v
    case None => 0
  }

  /** `ConvertInt.Instance`. */
  const ConvertInt: Converter<Int32> := Converter(IntOutput, IntInput)

  // ---------------------------------------------------------------- Properties

  /** The two `Identity` conversions undo each other. */
  lemma IdentityRoundTrip(s: string)
    ensures Identity.input(Identity.output(s)) == s
    ensures Identity.output(Identity.input(s)) == s
  {
  }

  /** The digits of `m` denote `m`. */
  lemma {:induction false} ValueDigits(m: nat)
    ensures Value(Digits(m)) == m
  {
    if m >= 10 {
      var init := Digits(m / 10);
      assert (init + [DigitChar(m % 10)])[..|init|] == init;
      ValueDigits(m / 10);
    }
  }

  /** A decimal numeral with nothing around it is read back as the number it shows. */
  lemma SignedDecimal(n: int)
    ensures Signed(Decimal(n)) == Some(n)
  {
    ValueDigits(if n < 0 then -n else n);
    if n < 0 {
      assert ("-" + Digits(-n))[1..] == Digits(-n);
    }
  }

  /** What `TrimStart` leaves is a suffix. */
  lemma {:induction false} TrimStartSuffix(s: string)
    ensures |TrimStart(s)| <= |s| && TrimStart(s) == s[|s| - |TrimStart(s)|..]
  {
    if s != [] && IsWhite(s[0]) {
      TrimStartSuffix(s[1..]);
    }
  }

  /** What `TrimEnd` leaves is a prefix. */
  lemma {:induction false} TrimEndPrefix(s: string)
    ensures |TrimEnd(s)| <= |s| && TrimEnd(s) == s[..|TrimEnd(s)|]
  {
    if s != [] && IsWhite(s[|s| - 1]) {
      TrimEndPrefix(s[..|s| - 1]);
    }
  }

  /** White space in front is skipped. */
  lemma {:induction false} TrimStartWhite(w: string, s: string)
    requires AllWhite(w) && (s == [] || !IsWhite(s[0]))
    ensures TrimStart(w + s) == s
  {
    if w == [] {
      assert w + s == s;
    } else {
      assert (w + s)[1..] == w[1..] + s;
      TrimStartWhite(w[1..], s);
    }
  }

  /** White space behind is skipped. */
  lemma {:induction false} TrimEndWhite(s: string, w: string)
    requires AllWhite(w) && (s == [] || !IsWhite(s[|s| - 1]))
    ensures TrimEnd(s + w) == s
  {
    if w == [] {
      assert s + w == s;
    } else {
      var w' := w[..|w| - 1];
      assert (s + w)[..|s + w| - 1] == s + w';
      TrimEndWhite(s, w');
    }
  }

  /** `TryParse` reads the decimal form of any integer back, with any white
      space around it, when the integer fits in an `int`, and fails otherwise. */
  lemma {:induction false} TryParseDecimal(w1: string, n: int, w2: string)
    requires AllWhite(w1) && AllWhite(w2)
    ensures TryParse(w1 + Decimal(n) + w2)
         == if -0x8000_0000 <= n <= 0x7FFF_FFFF then Some(n as Int32) else None
  {
    var d := Decimal(n);
    TrimStartWhite(w1, d + w2);
    assert w1 + d + w2 == w1 + (d + w2);
    TrimEndWhite(d, w2);
    SignedDecimal(n);
  }

  /** The same without white space: the decimal form alone. */
  lemma TryParseBare(n: int)
    ensures TryParse(Decimal(n))
         == if -0x8000_0000 <= n <= 0x7FFF_FFFF then Some(n as Int32) else None
  {
    var d := Decimal(n);
    assert Signed(TrimEnd(TrimStart(d))) == Some(n) by {
      assert TrimStart(d) == d;
      assert TrimEnd(d) == d;
      SignedDecimal(n);
    }
  }

  /** Text written by `ConvertOutput` is read back by `ConvertInput` as the
      same number: the value a user sees is the value that goes back. */
  lemma {:induction false} ConvertIntRoundTrip(n: Int32)
    ensures ConvertInt.input(ConvertInt.output(n)) == n
  {
    TryParseBare(n);
  }

  /** The same holds with white space around the text. */
  lemma ConvertIntPadded(w1: string, n: Int32, w2: string)
    requires AllWhite(w1) && AllWhite(w2)
    ensures IntInput(w1 + IntOutput(n) + w2) == n
  {
    TryParseDecimal(w1, n, w2);
  }

  /** A numeral outside the range of `int` is read as 0. */
  lemma OutOfRangeIsZero(n: int)
    requires !(-0x8000_0000 <= n <= 0x7FFF_FFFF)
    ensures IntInput(Decimal(n)) == 0
  {
    TryParseBare(n);
  }

  /** A text without any digit is read as 0. */
  lemma NoDigitIsZero(s: string)
    requires forall i :: 0 <= i < |s| ==> !IsDigit(s[i])
    ensures IntInput(s) == 0
  {
    var a := TrimStart(s);
    var t := TrimEnd(a);
    if TryParse(s).Some? {
      TrimStartSuffix(s);
      TrimEndPrefix(a);
      assert false;
    }
  }

  predicate AllZeros(z: string)
  {
    forall i :: 0 <= i < |z| ==> z[i] == '0'
  }

  /** Zeros alone denote 0. */
  lemma {:induction false} ValueZeros(z: string)
    requires AllZeros(z)
    ensures Value(z) == 0
  {
    if z != [] {
      ValueZeros(z[..|z| - 1]);
    }
  }

  /** Zeros in front change nothing. */
  lemma {:induction false} ValueLeadingZeros(z: string, d: string)
    requires AllZeros(z)
    ensures Value(z + d) == Value(d)
    decreases |d|
  {
    if d == [] {
      assert z + d == z;
      ValueZeros(z);
    } else {
      var d' := d[..|d| - 1];
      assert (z + d)[..|z + d| - 1] == z + d';
      ValueLeadingZeros(z, d');
    }
  }

  /** Leading zeros are read: zeros in front of the text of `n` still give `n`. */
  lemma LeadingZerosRead(z: string, n: Int32)
    requires AllZeros(z) && n >= 0
    ensures IntInput(z + IntOutput(n)) == n
  {
    var t := z + Digits(n);
    assert Signed(TrimEnd(TrimStart(t))) == Some(n as int) by {
      ValueDigits(n);
      ValueLeadingZeros(z, Digits(n));
      assert TrimStart(t) == t;
      assert TrimEnd(t) == t;
      assert AllDigits(t);
    }
  }

  /** A `+` sign is read: `+` in front of the text of `n` still gives `n`. */
  lemma PlusSignRead(n: Int32)
    requires n >= 0
    ensures IntInput("+" + IntOutput(n)) == n
  {
    var t := "+" + Digits(n);
    assert Signed(TrimEnd(TrimStart(t))) == Some(n as int) by {
      ValueDigits(n);
      assert t[1..] == Digits(n);
      assert TrimStart(t) == t;
      assert TrimEnd(t) == t;
    }
  }

  /** So text is not always kept: `ConvertOutput` never writes the zeros back. */
  lemma TextNotKept(z: string, n: Int32)
    requires AllZeros(z) && z != [] && n >= 0
    ensures IntOutput(IntInput(z + IntOutput(n))) != z + IntOutput(n)
  {
    LeadingZerosRead(z, n);
  }

  // ---------------------------------------------------------------- The control

  /** The two properties of an Android `TextView` the binding uses. */
  class TextView {
    var text: string
    var hasFocus: bool

    constructor (text: string, hasFocus: bool)
      ensures this.text == text && this.hasFocus == hasFocus
    {
      this.text := text;
      this.hasFocus := hasFocus;
    }
  }

  /** `UpdateTextView(control, data, converter)`: shows `data` unless the user
      is editing, so that a recomputed value never overwrites what is typed. */
  method UpdateTextView<D>(control: TextView, data: D, converter: Converter<D>)
    modifies control`text
    ensures control.text == if old(control.hasFocus) then old(control.text) else converter.output(data)
  {
    if !control.hasFocus {
      control.text := converter.output(data);
    }
  }

  /** `n` copies of `x`. */
  function Repeat<D>(x: D, n: nat): (r: seq<D>)
    ensures |r| == n && forall k :: 0 <= k < n ==> r[k] == x
  {
    seq(n, k => x)
  }

  /** `TextBinding<TData>`, the input subscription of a two-way text binding.
      `handlers` counts how many times its two handlers are attached to the
      control's events (`+=` attaches once more, `-=` detaches one if any is
      attached); `inputs` are the values handed to the `input` delegate. */
  class TextBinding<D> {
    const control: TextView
    const converter: Converter<D>
    var handlers: nat
    ghost var inputs: seq<D>

    constructor (control: TextView, converter: Converter<D>)
      ensures this.control == control && this.converter == converter
      ensures handlers == 0 && inputs == []
    {
      this.control := control;
      this.converter := converter;
      handlers := 0;
      inputs := [];
    }

    /** `Subscribe`: attaches the text and focus handlers. */
    method Subscribe()
      modifies this`handlers
      ensures handlers == old(handlers) + 1
    {
      handlers := handlers + 1;
    }

    /** `Unsubscribe`: detaches them; with none attached it does nothing, so a
        repeated `Unbind` of the owning manager is harmless. */
    method Unsubscribe()
      modifies this`handlers
      ensures handlers == if old(handlers) == 0 then 0 else old(handlers) - 1
    {
      if handlers > 0 {
        handlers := handlers - 1;
      }
    }

    /** The control raises `TextChanged`: every attached `TextViewTextChanged`
        passes `ConvertInput` of the current text to `input`. */
    method TextChanged()
      modifies this`inputs
      ensures inputs == old(inputs) + Repeat(converter.input(control.text), handlers)
    {
      inputs := inputs + Repeat(converter.input(control.text), handlers);
    }

    /** The control raises `FocusChange` after its focus became `focused`; every
        attached `TextViewFocusChanged` writes `ConvertOutput(output())` to the
        text, where `current` is what `output()` returns. This happens on losing
        focus and on gaining it alike. */
    method FocusChanged(focused: bool, current: D)
      modifies control
      ensures control.hasFocus == focused
      ensures control.text == if handlers > 0 then converter.output(current) else old(control.text)
    {
      control.hasFocus := focused;
      if handlers > 0 {
        control.text := converter.output(current);
      }
    }
  }
}
