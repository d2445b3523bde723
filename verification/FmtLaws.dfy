/** What a directive of a format string means (source/arm11/fmt.c, ee_vsnprintf), stated
    from its spelling: flags, a width, a precision, a length qualifier and a conversion
    character; and from the argument's value: the text that is printed for it. */
module FmtLaws {
  import opened FmtNumber
  import opened FmtText

  // Bare: a '.' without a number. Star: '*', taken from the arguments.
  datatype Size = Unset | Bare | Given(n: nat) | Star

  datatype Spelling = Spelling(flags: string, width: Size, prec: Size, qualifier: string, conv: char) {
    predicate Ok() {
      && (forall c :: c in flags ==> c in {'-', '+', ' ', '#', '0'})
      && !width.Bare? && (width.Given? ==> width.n > 0)
      && qualifier in {"", "l", "ll", "h", "hh"}
      && conv !in {'-', '+', ' ', '#', '*', '.', 'l', 'h', '\0'} && !('0' <= conv <= '9')
    }

    // What it takes from the arguments in front of the one to convert.
    function Stars(): nat {
      (if width.Star? then 1 else 0) + (if prec.Star? then 1 else 0)
    }

    // Those are passed as 32-bit integers.
    predicate Typed(args: seq<Arg>) {
      |args| >= Stars() && forall i :: 0 <= i < Stars() ==> args[i].Word? && -0x8000_0000 <= args[i].value < 0x8000_0000
    }

    // What the whole directive takes from them: one more for a conversion.
    function Takes(args: seq<Arg>): (n: nat)
      requires |args| >= Stars()
      ensures n <= |args|
    {
      if conv in {'c', 's', 'p', 'X', 'x', 'd', 'i', 'u'} && |args| > Stars() then Stars() + 1 else Stars()
    }

    // -1: none. A negative width turns its field to the left.
    function Width(args: seq<Arg>): int
      requires Typed(args)
    {
      match width
      case Unset => -1
      case Bare => -1
      case Given(n) => n
      case Star => if args[0].value < 0 then -args[0].value else args[0].value
    }

    predicate Left(args: seq<Arg>)
      requires Typed(args)
    {
      '-' in flags || (width.Star? && args[0].value < 0)
    }

    // -1: none. A negative one counts as 0.
    function Precision(args: seq<Arg>): int
      requires Typed(args)
    {
      match prec
      case Unset => -1
      case Bare => 0
      case Given(n) => n
      case Star => Max(args[Stars() - 1].value, 0)
    }

    // How many values the integer that is converted can have.
    function Values(): nat {
      if qualifier == "hh" then 0x100 else if qualifier == "h" then 0x1_0000
      else if qualifier == "ll" then 0x1_0000_0000_0000_0000 else 0x1_0000_0000
    }
  }

  function Decimal(n: nat): string {
    if n == 0 then "0" else Digits(n, false, false)
  }

  function WidthText(w: Size): string {
    match w
    case Unset => ""
    case Bare => ""
    case Given(n) => Decimal(n)
    case Star => "*"
  }

  function PrecisionText(p: Size): string {
    match p
    case Unset => ""
    case Bare => "."
    case Given(n) => "." + Decimal(n)
    case Star => ".*"
  }

  // The directive without its '%'.
  function Spell(d: Spelling): (t: string)
    ensures |t| > 0
  {
    d.flags + WidthText(d.width) + PrecisionText(d.prec) + d.qualifier + [d.conv]
  }

  // ---- Reading a directive -----------------------------------------------------------

  // f with every flag that occurs in t.
  function Marked(f: Flags, t: string): Flags {
    Flags(f.zeropad || '0' in t, f.sign, f.plus || '+' in t, f.space || ' ' in t, f.left || '-' in t,
          f.hexPrep || '#' in t, f.uppercase)
  }

  lemma MarkedFirst(f: Flags, c: char, t: string)
    requires IsFlag(c)
    ensures Marked(SetFlag(f, c), t) == Marked(f, [c] + t)
  {
    var u := [c] + t;
    forall x: char ensures x in u <==> x == c || x in t {}
  }

  lemma {:induction false} FlagsSpelt(fmt: string, p: nat, q: nat, f: Flags)
    requires p <= q < |fmt| && (forall i :: p <= i < q ==> IsFlag(fmt[i])) && !IsFlag(fmt[q])
    ensures FlagsEnd(fmt, p) == q && ReadFlags(fmt, p, f) == Marked(f, fmt[p..q])
    decreases q - p
  {
    hide Marked, SetFlag;
    if p < q {
      FlagsSpelt(fmt, p + 1, q, SetFlag(f, fmt[p]));
      assert fmt[p..q] == [fmt[p]] + fmt[p + 1..q];
      MarkedFirst(f, fmt[p], fmt[p + 1..q]);
    } else {
      NoneMarked(f);
      assert fmt[p..q] == [];
    }
  }

  lemma NoneMarked(f: Flags)
    ensures Marked(f, []) == f
  {
  }

  // The flags of a directive, in any order.
  lemma FlagsOf(d: Spelling, fmt: string, p: nat)
    requires d.Ok() && p + |d.flags| < |fmt| && fmt[p..p + |d.flags|] == d.flags && !IsFlag(fmt[p + |d.flags|])
    ensures FlagsEnd(fmt, p) == p + |d.flags|
    ensures ReadFlags(fmt, p, NO_FLAGS) ==
            Flags('0' in d.flags, false, '+' in d.flags, ' ' in d.flags, '-' in d.flags, '#' in d.flags, false)
  {
    forall n | p <= n < p + |d.flags| ensures IsFlag(fmt[n]) {
      assert fmt[n] == fmt[p..p + |d.flags|][n - p];
      assert d.flags[n - p] in d.flags;
    }
    FlagsSpelt(fmt, p, p + |d.flags|, NO_FLAGS);
  }

  lemma {:induction false} DigitsSpelt(fmt: string, p: nat, q: nat)
    requires p <= q < |fmt| && (forall i :: p <= i < q ==> IsDigit(fmt[i])) && !IsDigit(fmt[q])
    ensures DigitsEnd(fmt, p) == q
    decreases q - p
  {
    if p < q { DigitsSpelt(fmt, p + 1, q); }
  }

  lemma {:induction false} TopDigit(n: nat)
    requires n > 0
    ensures Digits(n, false, false) != "" && Digits(n, false, false)[0] != '0'
  {
    if n >= 10 { TopDigit(n / 10); }
  }

  lemma DecimalReads(n: nat)
    ensures Decimal(n) != "" && Value(Decimal(n), 10) == n && (forall c :: c in Decimal(n) ==> IsDigit(c))
    ensures n > 0 ==> Decimal(n)[0] != '0'
  {
    if n == 0 {
      assert "0"[..0] == "" && Value("", 10) == 0;
    } else {
      TopDigit(n);
      DigitsDenote(n, false, false);
      var t := Digits(n, false, false);
      forall c | c in t ensures IsDigit(c) {
        var k :| 0 <= k < |t| && t[k] == c;
        assert DigitVal(t[k]) < 10;
      }
    }
  }

  // The character behind a width: it does not go on with it.
  predicate EndsWidth(w: Size, c: char) {
    !IsDigit(c) && (w.Unset? ==> c != '*')
  }

  lemma WidthSpelt(fmt: string, s: State, d: Spelling, args: seq<Arg>)
    requires d.Ok() && d.Typed(args) && s.args == args && s.width == -1
    requires var q := s.p + |WidthText(d.width)|;
             q < |fmt| && fmt[s.p..q] == WidthText(d.width) && EndsWidth(d.width, fmt[q])
    ensures WithWidth(fmt, s) ==
            s.(p := s.p + |WidthText(d.width)|, width := d.Width(args), args := args[if d.width.Star? then 1 else 0..],
               f := if d.width.Star? && args[0].value < 0 then s.f.(left := true) else s.f)
  {
    hide Value, DigitsEnd, Decimal;
    var q := s.p + |WidthText(d.width)|;
    if d.width.Given? {
      DecimalReads(d.width.n);
      forall i | s.p <= i < q ensures IsDigit(fmt[i]) { assert fmt[i] == fmt[s.p..q][i - s.p]; }
      DigitsSpelt(fmt, s.p, q);
    } else if d.width.Star? {
      assert fmt[s.p] == fmt[s.p..q][0] == '*';
    }
  }

  // The character behind a precision.
  predicate EndsPrecision(c: char) {
    !IsDigit(c) && c != '*' && c != '.'
  }

  lemma PrecisionSpelt(fmt: string, s: State, d: Spelling, args: seq<Arg>)
    requires d.Ok() && d.Typed(args) && s.args == args[if d.width.Star? then 1 else 0..] && s.prec == -1
    requires var q := s.p + |PrecisionText(d.prec)|;
             q < |fmt| && fmt[s.p..q] == PrecisionText(d.prec) && EndsPrecision(fmt[q])
    ensures WithPrecision(fmt, s) ==
            s.(p := s.p + |PrecisionText(d.prec)|, prec := d.Precision(args), args := args[d.Stars()..])
  {
    hide Value, DigitsEnd, Decimal;
    var t, q := PrecisionText(d.prec), s.p + |PrecisionText(d.prec)|;
    if !d.prec.Unset? { assert fmt[s.p] == t[0] == '.'; }
    if d.prec.Given? {
      DecimalReads(d.prec.n);
      forall i | s.p + 1 <= i < q ensures IsDigit(fmt[i]) { assert fmt[i] == t[i - s.p] == Decimal(d.prec.n)[i - s.p - 1]; }
      DigitsSpelt(fmt, s.p + 1, q);
      assert fmt[s.p + 1..q] == t[1..] == Decimal(d.prec.n);
    } else if d.prec.Star? {
      assert fmt[s.p + 1] == t[1] == '*';
    }
  }

  function KindOf(qualifier: string): nat {
    if qualifier == "ll" then 1 else if qualifier == "h" then 2 else if qualifier == "hh" then 3 else 0
  }

  lemma KindSpelt(fmt: string, s: State, d: Spelling)
    requires d.Ok() && s.kind == 0
    requires var q := s.p + |d.qualifier|; q < |fmt| && fmt[s.p..q] == d.qualifier && fmt[q] == d.conv
    ensures WithKind(fmt, s) == s.(p := s.p + |d.qualifier|, kind := KindOf(d.qualifier))
  {
    var t := d.qualifier;
    if |t| >= 1 { assert fmt[s.p] == t[0]; }
    if |t| >= 2 { assert fmt[s.p + 1] == t[1]; }
  }

  // The text t stands at p.
  predicate Holds(fmt: string, p: nat, t: string) {
    p + |t| <= |fmt| && fmt[p..p + |t|] == t
  }

  lemma HoldsBoth(fmt: string, p: nat, x: string, y: string)
    requires Holds(fmt, p, x + y)
    ensures Holds(fmt, p, x) && Holds(fmt, p + |x|, y)
  {
    var t := x + y;
    assert fmt[p..p + |x|] == fmt[p..p + |t|][..|x|] == t[..|x|];
    assert fmt[p + |x|..p + |x| + |y|] == fmt[p..p + |t|][|x|..] == t[|x|..];
  }

  lemma HoldsFirst(fmt: string, p: nat, t: string)
    requires Holds(fmt, p, t) && t != ""
    ensures p < |fmt| && fmt[p] == t[0]
  {
    assert fmt[p] == fmt[p..p + |t|][0];
  }

  // The parts of a directive inside a format.
  lemma Parts(fmt: string, p: nat, x: string, y: string, z: string, q: string, c: char)
    requires Holds(fmt, p, x + y + z + q + [c])
    ensures var i, j, k, m := p + |x|, p + |x| + |y|, p + |x| + |y| + |z|, p + |x| + |y| + |z| + |q|;
            && m < |fmt| && Holds(fmt, p, x) && Holds(fmt, i, y) && Holds(fmt, j, z) && Holds(fmt, k, q) && fmt[m] == c
            && fmt[i] == (if y != "" then y[0] else if z != "" then z[0] else if q != "" then q[0] else c)
            && fmt[j] == (if z != "" then z[0] else if q != "" then q[0] else c)
            && fmt[k] == (if q != "" then q[0] else c)
  {
    hide Holds;
    HoldsBoth(fmt, p, x + y + z + q, [c]);
    HoldsBoth(fmt, p, x + y + z, q);
    HoldsBoth(fmt, p, x + y, z);
    HoldsBoth(fmt, p, x, y);
    HoldsFirst(fmt, p + |x| + |y| + |z| + |q|, [c]);
    if y != "" { HoldsFirst(fmt, p + |x|, y); }
    if z != "" { HoldsFirst(fmt, p + |x| + |y|, z); }
    if q != "" { HoldsFirst(fmt, p + |x| + |y| + |z|, q); }
  }

  // The first character behind each part tells that the part is over.
  lemma PartsEnd(d: Spelling, c1: char, c2: char, c3: char)
    requires d.Ok()
    requires var y, z, q := WidthText(d.width), PrecisionText(d.prec), d.qualifier;
             && c1 == (if y != "" then y[0] else if z != "" then z[0] else if q != "" then q[0] else d.conv)
             && c2 == (if z != "" then z[0] else if q != "" then q[0] else d.conv)
             && c3 == (if q != "" then q[0] else d.conv)
    ensures !IsFlag(c1) && EndsWidth(d.width, c2) && EndsPrecision(c3)
  {
    hide Decimal;
    if d.width.Given? {
      DecimalReads(d.width.n);
      assert Decimal(d.width.n)[0] in Decimal(d.width.n);
    }
  }

  // What a directive says.
  function Read(d: Spelling, end: nat, args: seq<Arg>): State
    requires d.Ok() && d.Typed(args)
  {
    State(end, args[d.Stars()..],
          Flags('0' in d.flags, false, '+' in d.flags, ' ' in d.flags, d.Left(args), '#' in d.flags, false),
          d.Width(args), d.Precision(args), KindOf(d.qualifier))
  }

  lemma ReadInText(fmt: string, p: nat, d: Spelling, args: seq<Arg>)
    requires d.Ok() && d.Typed(args)
    requires var i := p + |d.flags|;
             var j := i + |WidthText(d.width)|;
             var k := j + |PrecisionText(d.prec)|;
             var m := k + |d.qualifier|;
             && Holds(fmt, p, d.flags) && Holds(fmt, i, WidthText(d.width)) && Holds(fmt, j, PrecisionText(d.prec))
             && Holds(fmt, k, d.qualifier) && m < |fmt| && fmt[m] == d.conv
             && !IsFlag(fmt[i]) && EndsWidth(d.width, fmt[j]) && EndsPrecision(fmt[k])
    ensures Directive(fmt, p, args) ==
            Read(d, p + |d.flags| + |WidthText(d.width)| + |PrecisionText(d.prec)| + |d.qualifier|, args)
  {
    hide WithWidth, WithPrecision, WithKind, WidthText, PrecisionText, ReadFlags, FlagsEnd;
    FlagsOf(d, fmt, p);
    var s0 := WithFlags(fmt, p, args);
    WidthSpelt(fmt, s0, d, args);
    var s1 := WithWidth(fmt, s0);
    PrecisionSpelt(fmt, s1, d, args);
    KindSpelt(fmt, WithPrecision(fmt, s1), d);
  }

  // A spelled directive is read as what it says: its end, the arguments left, the flags in
  // any order, the width, the precision and the length.
  lemma DirectiveIsRead(fmt: string, p: nat, d: Spelling, args: seq<Arg>)
    requires d.Ok() && d.Typed(args) && Holds(fmt, p, Spell(d))
    ensures Directive(fmt, p, args) == Read(d, p + |Spell(d)| - 1, args)
    ensures fmt[p + |Spell(d)| - 1] == d.conv
  {
    hide WidthText, PrecisionText, Directive, Read, Holds;
    var y, z := WidthText(d.width), PrecisionText(d.prec);
    Parts(fmt, p, d.flags, y, z, d.qualifier, d.conv);
    var i, j, k := p + |d.flags|, p + |d.flags| + |y|, p + |d.flags| + |y| + |z|;
    PartsEnd(d, fmt[i], fmt[j], fmt[k]);
    ReadInText(fmt, p, d, args);
  }

  // ---- Converting an integer ---------------------------------------------------------

  // n is v cut to an integer type of so many values.
  predicate IsCut(n: int, v: int, values: nat, signed: bool)
    requires values > 0
  {
    (n - v) % values == 0 && (if signed then -(values as int) <= 2 * n < values else 0 <= n < values)
  }

  predicate DigitChar(c: char, isHex: bool, upper: bool) {
    '0' <= c <= '9' || (isHex && if upper then 'A' <= c <= 'F' else 'a' <= c <= 'f')
  }

  // The digits of m: no more than the precision asks for, or else no leading zero.
  predicate AreDigits(t: string, m: nat, isHex: bool, upper: bool, prec: int) {
    && Value(t, if isHex then 16 else 10) == m && |t| >= prec
    && (forall c :: c in t ==> DigitChar(c, isHex, upper))
    && (|t| > prec && |t| > 1 ==> t[0] != '0') && (t == "" <==> m == 0 && prec == 0)
  }

  // A sign, "0x" and digits in a field: the padding is behind them after '-', else in
  // front, or between the prefix and the digits when it is zeros.
  predicate InField(t: string, lead: string, digits: string, width: int, left: bool, zeros: bool) {
    var pad := width - |lead| - |digits|;
    t == if left then lead + digits + Repeat(' ', pad)
         else if zeros then lead + Repeat('0', pad) + digits
         else Repeat(' ', pad) + lead + digits
  }

  function Minus(n: int): nat {
    if n < 0 then -n else n
  }

  // The text of the number n: the sign for a signed one, "0x" after '#' unless it is zero.
  ghost predicate IsNumber(t: string, n: int, isHex: bool, upper: bool, signed: bool, width: int, zeros: bool, d: Spelling,
                           args: seq<Arg>)
    requires d.Ok() && d.Typed(args)
  {
    exists digits :: AreDigits(digits, Minus(n), isHex, upper, d.Precision(args)) &&
      InField(t, (if !signed then "" else if n < 0 then "-" else if '+' in d.flags then "+" else if ' ' in d.flags then " "
                  else "") + (if '#' in d.flags && isHex && n != 0 then "0x" else ""),
              digits, width, d.Left(args), zeros && d.Precision(args) == -1)
  }

  lemma OneDigit(d: nat, isHex: bool, upper: bool)
    requires d < Base(isHex)
    ensures DigitChar(Digit(d, upper), isHex, upper) && (Digit(d, upper) == '0' <==> d == 0)
  {
  }

  lemma {:induction false} DigitChars(n: nat, isHex: bool, upper: bool)
    requires n > 0
    ensures var t := Digits(n, isHex, upper);
            && t != "" && t[0] != '0' && forall c :: c in t ==> DigitChar(c, isHex, upper)
  {
    hide Digit, DigitChar;
    var b := Base(isHex);
    OneDigit(n % b, isHex, upper);
    if n >= b { DigitChars(n / b, isHex, upper); }
  }

  lemma NumberDigits(num: int, isHex: bool, prec: int, f: Flags)
    requires prec >= -1
    ensures var d := DigitText(num, isHex, prec, f);
            AreDigits(Repeat('0', prec - |d|) + d, Magnitude(num, f), isHex, f.uppercase, prec)
  {
    hide Value, Digits, Magnitude;
    var d, m := DigitText(num, isHex, prec, f), Magnitude(num, f);
    DigitTextReads(num, isHex, prec, f);
    LeadingZeros(prec - |d|, d, Base(isHex));
    if m != 0 { DigitChars(m, isHex, f.uppercase); }
  }

  // The text of a formatted number.
  lemma NumberText(num: int, isHex: bool, upper: bool, signed: bool, width: int, zeros: bool, d: Spelling, args: seq<Arg>)
    requires d.Ok() && d.Typed(args) && -0x8000_0000_0000_0000 <= num < 0x8000_0000_0000_0000
    ensures var f := Flags(zeros, signed, '+' in d.flags, ' ' in d.flags, d.Left(args), '#' in d.flags, upper);
            var t, n := Number(num, isHex, width, d.Precision(args), f).Full(), if signed then num else U64(num);
            IsNumber(t, n, isHex, upper, signed, width, zeros, d, args) && Scan(t, isHex) == n
  {
    hide Repeat, DigitText, AreDigits, InField, Scan;
    var f := Flags(zeros, signed, '+' in d.flags, ' ' in d.flags, d.Left(args), '#' in d.flags, upper);
    var prec, n := d.Precision(args), if signed then num else U64(num);
    var dt := DigitText(num, isHex, prec, f);
    var digits := Repeat('0', prec - |dt|) + dt;
    MagnitudeOf(num, f, n);
    NumberDigits(num, isHex, prec, f);
    FullInField(num, isHex, width, prec, f, dt, digits, SignText(num, f) + if HasPrefix(num, isHex, f) then "0x" else "");
    NumberReadsBack(num, isHex, width, prec, f);
  }

  lemma MagnitudeOf(num: int, f: Flags, n: int)
    requires n == (if f.sign then num else U64(num)) && -0x8000_0000_0000_0000 <= num < 0x8000_0000_0000_0000
    ensures Magnitude(num, f) == Minus(n)
  {
  }

  lemma NoRepeat(c: char)
    ensures Repeat(c, 0) == ""
  {
  }

  lemma Joined(l: string, sign: string, pre: string, z: string, y: string, d: string, r: string)
    ensures y == "" && l == "" && r == "" ==> (l + sign) + pre + (z + y + d + r) == (sign + pre) + z + d
    ensures z == "" && l == "" ==> (l + sign) + pre + (z + y + d + r) == (sign + pre) + (y + d) + r
    ensures z == "" && r == "" ==> (l + sign) + pre + (z + y + d + r) == l + (sign + pre) + (y + d)
  {
  }

  lemma FullInField(num: int, isHex: bool, width: int, prec: int, f: Flags, d: string, digits: string, lead: string)
    requires prec >= -1 && d == DigitText(num, isHex, prec, f) && digits == Repeat('0', prec - |d|) + d
    requires lead == SignText(num, f) + if HasPrefix(num, isHex, f) then "0x" else ""
    ensures InField(Number(num, isHex, width, prec, f).Full(), lead, digits, width, f.left, f.zeropad && prec == -1)
  {
    hide DigitText, SignText, HasPrefix, Repeat;
    var pad := width - |lead| - |digits|;
    assert pad == Padding(num, isHex, width, prec, f);
    NoRepeat(' ');
    NoRepeat('0');
    var zeros := PadsWithZero(prec, f);
    if zeros { assert Repeat('0', prec - |d|) == "" && digits == d; }
    Joined(Repeat(' ', if zeros || f.left then 0 else pad), SignText(num, f), if HasPrefix(num, isHex, f) then "0x" else "",
           Repeat('0', if zeros then pad else 0), Repeat('0', prec - |d|), d, Repeat(' ', if f.left then pad else 0));
  }

  // ---- The value converted -----------------------------------------------------------

  predicate IsWidth(values: nat) {
    values in {0x100, 0x1_0000, 0x1_0000_0000, 0x1_0000_0000_0000_0000}
  }

  // A number of whole turns away.
  lemma Turns(n: int, v: int, values: nat, k: int)
    requires IsWidth(values) && n - v == k * values
    ensures (n - v) % values == 0
  {
    if values == 0x100 {
      assert (k * 0x100) % 0x100 == 0;
    } else if values == 0x1_0000 {
      assert (k * 0x1_0000) % 0x1_0000 == 0;
    } else if values == 0x1_0000_0000 {
      assert (k * 0x1_0000_0000) % 0x1_0000_0000 == 0;
    } else {
      assert (k * 0x1_0000_0000_0000_0000) % 0x1_0000_0000_0000_0000 == 0;
    }
  }

  lemma WrapIsCut(v: int, values: nat)
    requires IsWidth(values)
    ensures IsCut(Wrap(v, values), v, values, true) && IsCut(v % values, v, values, false)
  {
    var j, k := (v + values / 2) / values, v / values;
    assert v + values / 2 == j * values + (v + values / 2) % values;
    assert v == k * values + v % values;
    Turns(Wrap(v, values), v, values, -j);
    Turns(v % values, v, values, -k);
  }

  // Cutting twice is cutting once to the smaller type.
  lemma CutAgain(n: int, v: int, w: int, small: nat, signed: bool, wide: bool)
    requires small in {0x100, 0x1_0000} && IsCut(n, v, 0x1_0000_0000, wide) && IsCut(w, n, small, signed)
    ensures IsCut(w, v, small, signed)
  {
    var j, k, m := (n - v) / 0x1_0000_0000, (w - n) / small, if small == 0x100 then 0x100_0000 else 0x1_0000;
    assert n - v == j * 0x1_0000_0000 && w - n == k * small;
    assert w - v == (k + j * m) * small;
    Turns(w, v, small, k + j * m);
  }

  function ValuesOf(kind: nat): nat {
    if kind == 3 then 0x100 else if kind == 2 then 0x1_0000
    else if kind == 1 then 0x1_0000_0000_0000_0000 else 0x1_0000_0000
  }

  // The integer that is printed is the argument cut to the type the directive names.
  lemma IntegerIsCut(v: int, signed: bool, kind: nat)
    requires kind < 4
    ensures var num := IntArg(v, signed, kind);
            IsCut(if signed then num else U64(num), v, ValuesOf(kind), signed)
  {
    hide IsCut;
    var big := if kind == 1 then MOD64 else 0x1_0000_0000;
    WrapIsCut(v, big);
    var n := if signed then Wrap(v, big) else v % big;
    if kind >= 2 {
      WrapIsCut(n, ValuesOf(kind));
      CutAgain(n, v, if signed then Wrap(n, ValuesOf(kind)) else n % ValuesOf(kind), ValuesOf(kind), signed, signed);
    }
    if !signed { SmallStays(if kind >= 2 then n % ValuesOf(kind) else n); }
  }

  lemma SmallStays(n: nat)
    requires n < MOD64
    ensures U64(Wrap(n, MOD64)) == n
  {
  }

  // A directive that converts an integer prints it, cut to the type its qualifier names:
  // what is printed reads back as that number.
  lemma IntegerPiece(fmt: string, end: nat, d: Spelling, args: seq<Arg>) returns (n: int)
    requires d.Ok() && d.Typed(args) && |args| > d.Stars() && args[d.Stars()].Word?
    requires end < |fmt| && fmt[end] == d.conv && d.conv in {'d', 'i', 'u', 'x', 'X'}
    ensures var signed, isHex := d.conv == 'd' || d.conv == 'i', d.conv == 'x' || d.conv == 'X';
            var t := Convert(fmt, Read(d, end, args)).Full();
            && IsCut(n, args[d.Stars()].value, d.Values(), signed) && Scan(t, isHex) == n
            && IsNumber(t, n, isHex, d.conv == 'X', signed, d.Width(args), '0' in d.flags, d, args)
  {
    hide IntArg, Number, IsNumber, IsCut, Scan, Spelling.Precision, Spelling.Left, Spelling.Width;
    var v, signed, isHex := args[d.Stars()].value, d.conv == 'd' || d.conv == 'i', d.conv == 'x' || d.conv == 'X';
    var kind := KindOf(d.qualifier);
    IntegerIsCut(v, signed, kind);
    IntArgInRange(v, signed, kind);
    NumberText(IntArg(v, signed, kind), isHex, d.conv == 'X', signed, d.Width(args), '0' in d.flags, d, args);
    n := if signed then IntArg(v, signed, kind) else U64(IntArg(v, signed, kind));
  }

  // A pointer is a 32-bit number in hexadecimal, at least eight digits when no width is given.
  lemma PointerPiece(fmt: string, end: nat, d: Spelling, args: seq<Arg>) returns (n: int)
    requires d.Ok() && d.Typed(args) && |args| > d.Stars() && args[d.Stars()].Word?
    requires end < |fmt| && fmt[end] == d.conv == 'p'
    ensures var t := Convert(fmt, Read(d, end, args)).Full();
            && IsCut(n, args[d.Stars()].value, 0x1_0000_0000, false) && Scan(t, true) == n
            && if d.Width(args) == -1 then IsNumber(t, n, true, false, false, 8, true, d, args)
               else IsNumber(t, n, true, false, false, d.Width(args), '0' in d.flags, d, args)
  {
    hide Number, IsNumber, IsCut, Scan, Spelling.Precision, Spelling.Left, Spelling.Width;
    var v := args[d.Stars()].value;
    WrapIsCut(v, 0x1_0000_0000);
    n := v % 0x1_0000_0000;
    if d.Width(args) == -1 {
      NumberText(n, true, false, false, 8, true, d, args);
    } else {
      NumberText(n, true, false, false, d.Width(args), '0' in d.flags, d, args);
    }
  }

  // A character, one of 256, in its field.
  lemma CharPiece(fmt: string, end: nat, d: Spelling, args: seq<Arg>) returns (n: nat)
    requires d.Ok() && d.Typed(args) && |args| > d.Stars() && args[d.Stars()].Word?
    requires end < |fmt| && fmt[end] == d.conv == 'c'
    ensures IsCut(n, args[d.Stars()].value, 0x100, false)
    ensures InField(Convert(fmt, Read(d, end, args)).Full(), "", [n as char], d.Width(args), d.Left(args), false)
  {
    hide Spelling.Left, Spelling.Width, Repeat, IsCut;
    var v := args[d.Stars()].value;
    n := S32(v) % 0x100;
    WrapIsCut(v, 0x1_0000_0000);
    assert S32(v) == Wrap(v, 0x1_0000_0000);
    WrapIsCut(S32(v), 0x100);
    CutAgain(S32(v), v, n, 0x100, false, true);
    FieldIsField([n as char], d.Width(args), d.Left(args));
  }

  lemma FieldIsField(t: string, width: int, left: bool)
    ensures InField(Field(t, width, left).Full(), "", t, width, left, false)
  {
    hide Repeat;
    NoRepeat(' ');
    var pad := Repeat(' ', width - |t|);
    assert "" + t + pad == "" + t + pad && pad + t + "" == pad + "" + t;
  }

  lemma PrecisionFrom(d: Spelling, args: seq<Arg>)
    requires d.Ok() && d.Typed(args)
    ensures d.Precision(args) >= -1
  {
  }

  // A string, its first characters when a precision is given, in its field. The null string
  // prints "<NULL>".
  lemma StringPiece(fmt: string, end: nat, d: Spelling, args: seq<Arg>)
    requires d.Ok() && d.Typed(args) && end < |fmt| && fmt[end] == d.conv == 's'
    ensures var x, prec := if |args| > d.Stars() && args[d.Stars()].Str? then args[d.Stars()].text else "<NULL>", d.Precision(args);
            InField(Convert(fmt, Read(d, end, args)).Full(), "", if 0 <= prec < |x| then x[..prec] else x,
                    d.Width(args), d.Left(args), false)
  {
    hide Spelling.Left, Spelling.Width, Repeat, InField;
    var x, prec := if |args| > d.Stars() && args[d.Stars()].Str? then args[d.Stars()].text else "<NULL>", d.Precision(args);
    assert prec >= -1 by { PrecisionFrom(d, args); }
    assert x[..|x|] == x;
    FieldIsField(if 0 <= prec < |x| then x[..prec] else x, d.Width(args), d.Left(args));
  }

  // ---- In a format -------------------------------------------------------------------

  // A directive gives one piece, and the format goes on behind it with the arguments it has
  // not taken.
  lemma DirectiveInFormat(fmt: string, p: nat, d: Spelling, args: seq<Arg>)
    requires d.Ok() && d.Typed(args) && '\0' !in fmt && p < |fmt| && fmt[p] == '%' && Holds(fmt, p + 1, Spell(d))
    ensures p + |Spell(d)| < |fmt| && fmt[p + |Spell(d)|] == d.conv
    ensures Pieces(fmt, p, args) ==
            [Convert(fmt, Read(d, p + |Spell(d)|, args))] + Pieces(fmt, p + |Spell(d)| + 1, args[d.Takes(args)..])
  {
    hide Spelling.Typed, Spelling.Ok, Spell, Directive, Read, Pieces, Convert;
    DirectiveIsRead(fmt, p + 1, d, args);
    PiecesOfRead(fmt, p, p + |Spell(d)|, d, args);
  }

  lemma PiecesOfRead(fmt: string, p: nat, end: nat, d: Spelling, args: seq<Arg>)
    requires d.Ok() && d.Typed(args) && '\0' !in fmt && p < end < |fmt| && fmt[p] == '%' && fmt[end] == d.conv
    requires Directive(fmt, p + 1, args) == Read(d, end, args)
    ensures Pieces(fmt, p, args) == [Convert(fmt, Read(d, end, args))] + Pieces(fmt, end + 1, args[d.Takes(args)..])
  {
    hide Directive, Convert, Read, Beyond, ArgsLeft, Pieces;
    PiecesFrom(fmt, p, args);
    Left(fmt, end, d, args);
  }

  lemma PiecesFrom(fmt: string, p: nat, args: seq<Arg>)
    requires '\0' !in fmt && p < |fmt| && fmt[p] == '%'
    ensures var s := Directive(fmt, p + 1, args);
            && Beyond(fmt, s) <= |fmt|
            && Pieces(fmt, p, args) == [Convert(fmt, s)] + Pieces(fmt, Beyond(fmt, s), ArgsLeft(fmt, s))
  {
    hide Directive, Convert, ArgsLeft, Beyond;
    DirectiveEnd(fmt, p + 1, args);
  }

  lemma Left(fmt: string, end: nat, d: Spelling, args: seq<Arg>)
    requires d.Ok() && d.Typed(args) && end < |fmt| && fmt[end] == d.conv
    ensures Beyond(fmt, Read(d, end, args)) == end + 1
    ensures ArgsLeft(fmt, Read(d, end, args)) == args[d.Takes(args)..]
  {
    hide Spelling.Width, Spelling.Precision, Spelling.Left;
    var rest := args[d.Stars()..];
    if rest != [] { assert rest[1..] == args[d.Stars() + 1..]; } else { assert |args| == d.Stars(); }
  }

  // Text without '%' is printed as it stands.
  lemma {:induction false} TextIsCopied(fmt: string, p: nat, q: nat, args: seq<Arg>)
    requires '\0' !in fmt && p <= q <= |fmt| && '%' !in fmt[p..q]
    ensures FullText(Pieces(fmt, p, args)) == fmt[p..q] + FullText(Pieces(fmt, q, args))
    decreases q - p
  {
    hide Directive, Convert, FullText;
    if p < q {
      assert fmt[p] == fmt[p..q][0];
      assert fmt[p + 1..q] == fmt[p..q][1..];
      TextIsCopied(fmt, p + 1, q, args);
      FullFirst(Pieces(fmt, p, args));
      assert fmt[p..q] == [fmt[p]] + fmt[p + 1..q];
    }
  }

  // A '%' at the very end is printed.
  lemma LastPercent(fmt: string, args: seq<Arg>)
    requires '\0' !in fmt && fmt != "" && fmt[|fmt| - 1] == '%'
    ensures Pieces(fmt, |fmt| - 1, args) == [Text("%")]
  {
    hide Convert;
    PiecesFrom(fmt, |fmt| - 1, args);
    var s := Directive(fmt, |fmt|, args);
    assert s.p == |fmt|;
    assert Convert(fmt, s) == Text("%") by { EndIsPercent(fmt, s); }
  }

  lemma EndIsPercent(fmt: string, s: State)
    requires s.p >= |fmt|
    ensures Convert(fmt, s) == Text("%")
  {
  }

  // What is no conversion is printed as it stands, behind its '%'; "%%" prints one.
  lemma OtherPiece(fmt: string, end: nat, d: Spelling, args: seq<Arg>)
    requires d.Ok() && d.Typed(args) && end < |fmt| && fmt[end] == d.conv
    requires d.conv !in {'c', 's', 'p', 'X', 'x', 'd', 'i', 'u'}
    ensures Convert(fmt, Read(d, end, args)).Full() == if d.conv == '%' then "%" else "%" + [d.conv]
  {
  }

  lemma CutIsSame(n: int, v: int, values: nat, signed: bool)
    requires IsWidth(values) && IsCut(n, v, values, signed)
    requires if signed then -(values as int) <= 2 * v < values else 0 <= v < values
    ensures n == v
  {
  }

  // A number that fits the type of a directive is printed so that it reads back, whatever
  // the flags, width and precision.
  lemma PrintedReadsBack(d: Spelling, args: seq<Arg>)
    requires d.Ok() && d.Typed(args) && |args| > d.Stars() && args[d.Stars()].Word? && '\0' !in "%" + Spell(d)
    requires d.conv in {'d', 'i', 'u', 'x', 'X'}
    requires var v := args[d.Stars()].value;
             if d.conv == 'd' || d.conv == 'i' then -(d.Values() as int) <= 2 * v < d.Values() else 0 <= v < d.Values()
    ensures Scan(FullText(Pieces("%" + Spell(d), 0, args)), d.conv == 'x' || d.conv == 'X') == args[d.Stars()].value
  {
    hide Scan, Convert, Spell, Read, IsNumber, IsCut, Pieces, FullText;
    var fmt, end := "%" + Spell(d), |Spell(d)|;
    DirectiveInFormat(fmt, 0, d, args);
    var n := IntegerPiece(fmt, end, d, args);
    CutIsSame(n, args[d.Stars()].value, d.Values(), d.conv == 'd' || d.conv == 'i');
    OnePiece(fmt, Convert(fmt, Read(d, end, args)), args);
  }

  lemma OnePiece(fmt: string, x: Piece, args: seq<Arg>)
    requires '\0' !in fmt && exists left :: Pieces(fmt, 0, args) == [x] + Pieces(fmt, |fmt|, left)
    ensures FullText(Pieces(fmt, 0, args)) == x.Full()
  {
    hide Piece.Full, Convert, Directive;
    FullFirst(Pieces(fmt, 0, args));
    FullEmpty();
  }
}
