/** Numbers of the bounded formatter (source/arm11/fmt.c, processNumber): which text a
    number stands for, how much of it a limited buffer receives, and that the text reads
    back as the number. */
module FmtNumber {
  datatype Flags = Flags(zeropad: bool, sign: bool, plus: bool, space: bool, left: bool, hexPrep: bool,
                         uppercase: bool)

  // A stretch of output: plain text, or a number. A number's "0x" is not cut: it is
  // written whole, with room for one more character, or ends the number.
  datatype Piece = Text(text: string) | Num(head: string, prefix: bool, rest: string)
  {
    function Full(): string {
      match this
      case Text(t) => t
      case Num(h, p, r) => h + (if p then "0x" else "") + r
    }

    // What is written when `room` characters are left.
    function Cut(room: nat): string {
      if Num? && prefix && |head| < room <= |head| + 2 then head else Prefix(Full(), room)
    }
  }

  function Prefix(s: string, room: nat): (r: string)
    ensures r <= s && |r| == if |s| < room then |s| else room
  {
    if |s| < room then s else s[..room]
  }

  function Repeat(c: char, n: int): (r: string)
    ensures |r| == if n < 0 then 0 else n
    ensures forall k :: 0 <= k < |r| ==> r[k] == c
  {
    if n <= 0 then "" else Repeat(c, n - 1) + [c]
  }

  // ---- Digits ------------------------------------------------------------------------

  const MOD64: nat := 0x1_0000_0000_0000_0000

  function Base(isHex: bool): nat {
    if isHex then 16 else 10
  }

  function Digit(d: nat, upper: bool): char
    requires d < 16
  {
    (if upper then "0123456789ABCDEF" else "0123456789abcdef")[d]
  }

  // The value of a digit character; 16 for any other.
  function DigitVal(c: char): nat {
    if '0' <= c <= '9' then c as nat - '0' as nat
    else if 'a' <= c <= 'f' then c as nat - 'a' as nat + 10
    else if 'A' <= c <= 'F' then c as nat - 'A' as nat + 10
    else 16
  }

  // A positive number's digits, most significant first; none for zero.
  function Digits(n: nat, isHex: bool, upper: bool): string {
    if n == 0 then "" else Digits(n / Base(isHex), isHex, upper) + [Digit(n % Base(isHex), upper)]
  }

  function Value(s: string, base: nat): nat {
    if s == "" then 0 else Value(s[..|s| - 1], base) * base + DigitVal(s[|s| - 1])
  }

  lemma DigitReads(d: nat, upper: bool)
    requires d < 16
    ensures DigitVal(Digit(d, upper)) == d
  {
  }

  lemma {:induction false} DigitsDenote(n: nat, isHex: bool, upper: bool)
    ensures Value(Digits(n, isHex, upper), Base(isHex)) == n
    ensures forall k :: 0 <= k < |Digits(n, isHex, upper)| ==> DigitVal(Digits(n, isHex, upper)[k]) < Base(isHex)
  {
    if n != 0 {
      var b := Base(isHex);
      DigitsDenote(n / b, isHex, upper);
      DigitReads(n % b, upper);
      var s := Digits(n, isHex, upper);
      assert s[..|s| - 1] == Digits(n / b, isHex, upper);
    }
  }

  function Pow(b: nat, k: nat): nat {
    if k == 0 then 1 else b * Pow(b, k - 1)
  }

  lemma {:induction false} DigitCount(n: nat, isHex: bool, upper: bool, k: nat)
    requires n < Pow(Base(isHex), k)
    ensures |Digits(n, isHex, upper)| <= k
  {
    if n != 0 {
      var b := Base(isHex);
      assert n / b < Pow(b, k - 1) by {
        var m := Pow(b, k - 1);
        assert isHex ==> Pow(b, k) == 16 * m;
        assert !isHex ==> Pow(b, k) == 10 * m;
      }
      DigitCount(n / b, isHex, upper, k - 1);
    }
  }

  lemma PowFive(b: nat, k: nat)
    ensures Pow(b, k + 5) == b * (b * (b * (b * (b * Pow(b, k)))))
  {
    assert Pow(b, k + 1) == b * Pow(b, k);
    assert Pow(b, k + 2) == b * Pow(b, k + 1);
    assert Pow(b, k + 3) == b * Pow(b, k + 2);
    assert Pow(b, k + 4) == b * Pow(b, k + 3);
    assert Pow(b, k + 5) == b * Pow(b, k + 4);
  }

  // Any 64-bit number fits the 20-character scratch buffer.
  lemma FitsScratch(n: nat, isHex: bool, upper: bool)
    requires n < MOD64
    ensures |Digits(n, isHex, upper)| <= 20
  {
    var b := Base(isHex);
    PowFive(b, 0);
    PowFive(b, 5);
    PowFive(b, 10);
    PowFive(b, 15);
    assert Pow(b, 0) == 1;
    DigitCount(n, isHex, upper, 20);
  }

  // ---- The text of a number ----------------------------------------------------------

  // A signed 64-bit value seen as unsigned.
  function U64(num: int): (r: nat)
    ensures r < MOD64
  {
    num % MOD64
  }

  function Magnitude(num: int, f: Flags): nat {
    if f.sign && num < 0 then -num else U64(num)
  }

  function SignText(num: int, f: Flags): string {
    if !f.sign then "" else if num < 0 then "-" else if f.plus then "+" else if f.space then " " else ""
  }

  function DigitText(num: int, isHex: bool, precision: int, f: Flags): string {
    if Magnitude(num, f) != 0 then Digits(Magnitude(num, f), isHex, f.uppercase)
    else if precision != 0 then "0" else ""
  }

  predicate HasPrefix(num: int, isHex: bool, f: Flags) {
    f.hexPrep && isHex && Magnitude(num, f) != 0
  }

  function Max(a: int, b: int): int {
    if a < b then b else a
  }

  // Padding the field width asks for.
  function Padding(num: int, isHex: bool, width: int, precision: int, f: Flags): int {
    width - |SignText(num, f)| - (if HasPrefix(num, isHex, f) then 2 else 0)
    - Max(precision, |DigitText(num, isHex, precision, f)|)
  }

  predicate PadsWithZero(precision: int, f: Flags) {
    f.zeropad && !f.left && precision == -1
  }

  // Sign, optional prefix and at least `precision` digits, padded to the width: blanks on
  // the left, on the right after '-', or zeros after '0' when no precision is given.
  function Number(num: int, isHex: bool, width: int, precision: int, f: Flags): Piece {
    var d := DigitText(num, isHex, precision, f);
    var pad := Padding(num, isHex, width, precision, f);
    Num(Repeat(' ', if PadsWithZero(precision, f) || f.left then 0 else pad) + SignText(num, f),
        HasPrefix(num, isHex, f),
        Repeat('0', if PadsWithZero(precision, f) then pad else 0) + Repeat('0', precision - |d|) + d
        + Repeat(' ', if f.left then pad else 0))
  }

  lemma FieldWidth(num: int, isHex: bool, width: int, precision: int, f: Flags)
    ensures |Number(num, isHex, width, precision, f).Full()| ==
            Max(width, |SignText(num, f)| + (if HasPrefix(num, isHex, f) then 2 else 0)
                       + Max(precision, |DigitText(num, isHex, precision, f)|))
  {
  }

  // ---- Reading a number back ---------------------------------------------------------

  function SkipBlanks(s: string): string {
    if s != "" && s[0] == ' ' then SkipBlanks(s[1..]) else s
  }

  function DigitRun(s: string, base: nat): (n: nat)
    ensures n <= |s|
  {
    if s != "" && DigitVal(s[0]) < base then 1 + DigitRun(s[1..], base) else 0
  }

  // The number at the start of a text: blanks, a sign, "0x" if hexadecimal, digits.
  function Scan(s: string, isHex: bool): int {
    var t := SkipBlanks(s);
    var neg := t != "" && t[0] == '-';
    var u := if t != "" && (t[0] == '-' || t[0] == '+') then t[1..] else t;
    var v := if isHex && |u| >= 2 && u[..2] == "0x" then u[2..] else u;
    var n: int := Value(v[..DigitRun(v, Base(isHex))], Base(isHex));
    var v: int := n;
    if neg then -v else v
  }

  lemma {:induction false} BlanksSkipped(n: int, t: string)
    ensures SkipBlanks(Repeat(' ', n) + t) == SkipBlanks(t)
  {
    if n <= 0 {
      assert Repeat(' ', n) + t == t;
    } else {
      BlanksSkipped(n - 1, t);
      var s := Repeat(' ', n) + t;
      assert s[0] == ' ' && s[1..] == Repeat(' ', n - 1) + t;
    }
  }

  lemma {:induction false} RunOf(d: string, rest: string, base: nat)
    requires forall k :: 0 <= k < |d| ==> DigitVal(d[k]) < base
    requires rest == "" || DigitVal(rest[0]) >= base
    ensures DigitRun(d + rest, base) == |d|
  {
    if d == "" {
      assert d + rest == rest;
    } else {
      assert (d + rest)[1..] == d[1..] + rest;
      RunOf(d[1..], rest, base);
    }
  }

  lemma {:induction false} LeadingZeros(n: int, d: string, base: nat)
    ensures Value(Repeat('0', n) + d, base) == Value(d, base)
  {
    var s := Repeat('0', n) + d;
    if d != "" {
      assert s[..|s| - 1] == Repeat('0', n) + d[..|d| - 1];
      LeadingZeros(n, d[..|d| - 1], base);
    } else if n > 0 {
      assert s[..|s| - 1] == Repeat('0', n - 1) + d;
      LeadingZeros(n - 1, d, base);
    } else {
      assert s == d;
    }
  }

  lemma DigitTextReads(num: int, isHex: bool, precision: int, f: Flags)
    ensures var d := DigitText(num, isHex, precision, f);
            && Value(d, Base(isHex)) == Magnitude(num, f)
            && forall k :: 0 <= k < |d| ==> DigitVal(d[k]) < Base(isHex)
  {
    if Magnitude(num, f) != 0 {
      DigitsDenote(Magnitude(num, f), isHex, f.uppercase);
    } else if precision != 0 {
      assert "0"[..0] == "" && Value("", Base(isHex)) == 0;
    }
  }

  predicate AllDigits(s: string, isHex: bool) {
    forall k :: 0 <= k < |s| ==> DigitVal(s[k]) < Base(isHex)
  }

  lemma NotDigits(isHex: bool)
    ensures DigitVal('0') == 0 && DigitVal(' ') == 16 && DigitVal('x') == 16
    ensures DigitVal('-') == 16 && DigitVal('+') == 16 && Base(isHex) <= 16
  {
  }

  // Digits followed by blanks read as their value.
  lemma TailReads(e: string, r: int, isHex: bool)
    requires AllDigits(e, isHex)
    ensures var v := e + Repeat(' ', r);
            Value(v[..DigitRun(v, Base(isHex))], Base(isHex)) == Value(e, Base(isHex))
  {
    hide DigitVal, DigitRun, Value;
    NotDigits(isHex);
    RunOf(e, Repeat(' ', r), Base(isHex));
    assert (e + Repeat(' ', r))[..|e|] == e;
  }

  function Signed(neg: bool, n: nat): int {
    var v: int := n;
    if neg then -v else v
  }

  // A sign, the prefix and digits, followed by blanks.
  lemma ScanBody(sign: string, pre: bool, e: string, r: int, isHex: bool)
    requires sign in {"", "-", "+"} && (pre ==> isHex)
    requires AllDigits(e, isHex) && (e != "" || sign != "")
    ensures Scan(sign + (if pre then "0x" else "") + (e + Repeat(' ', r)), isHex) ==
            Signed(sign == "-", Value(e, Base(isHex)))
  {
    hide DigitVal, DigitRun, Value;
    NotDigits(isHex);
    var p := if pre then "0x" else "";
    var tail := e + Repeat(' ', r);
    var t := sign + p + tail;
    assert SkipBlanks(t) == t;
    var u := if t[0] == '-' || t[0] == '+' then t[1..] else t;
    assert u == p + tail;
    if pre {
      assert u[..2] == "0x" && u[2..] == tail;
    } else {
      assert u == tail;
      if |u| >= 2 {
        assert u[..2][1] != 'x';
      }
    }
    TailReads(e, r, isHex);
  }

  lemma ScanBlanks(n: int, t: string, isHex: bool)
    ensures Scan(Repeat(' ', n) + t, isHex) == Scan(t, isHex)
  {
    BlanksSkipped(n, t);
  }

  // A blank in place of the sign, and missing digits, read as a bare number.
  lemma ScanSigned(sign: string, pre: bool, e: string, r: int, isHex: bool)
    requires sign in {"", " ", "-", "+"} && (pre ==> isHex && e != "")
    requires AllDigits(e, isHex)
    ensures Scan(sign + ((if pre then "0x" else "") + (e + Repeat(' ', r))), isHex) ==
            Signed(sign == "-", Value(e, Base(isHex)))
  {
    hide DigitVal, Value, Scan, AllDigits;
    var p := if pre then "0x" else "";
    var tail := e + Repeat(' ', r);
    var body := p + tail;
    if sign == " " || (sign == "" && e == "") {
      assert Repeat(' ', 1) == Repeat(' ', 0) + [' '];
      assert sign + body == Repeat(' ', |sign|) + body;
      ScanBlanks(|sign|, body, isHex);
      if e == "" {
        assert body == Repeat(' ', r) + "";
        ScanBlanks(r, "", isHex);
        ScanNothing(isHex);
      } else {
        assert "" + p + tail == body;
        ScanBody("", pre, e, r, isHex);
      }
    } else {
      assert sign + p + tail == sign + body;
      ScanBody(sign, pre, e, r, isHex);
    }
  }

  // A formatted number reads back as the number, whatever the width, precision and flags.
  lemma NumberReadsBack(num: int, isHex: bool, width: int, precision: int, f: Flags)
    requires -0x8000_0000_0000_0000 <= num < 0x8000_0000_0000_0000
    ensures Scan(Number(num, isHex, width, precision, f).Full(), isHex) == if f.sign then num else U64(num)
  {
    hide DigitText, Scan, Value, Padding, AllDigits, Repeat, Base, DigitVal, Magnitude, U64, Signed;
    var d, pad := DigitText(num, isHex, precision, f), Padding(num, isHex, width, precision, f);
    var pre, sign := HasPrefix(num, isHex, f), SignText(num, f);
    var l := if PadsWithZero(precision, f) || f.left then 0 else pad;
    var z := if PadsWithZero(precision, f) then pad else 0;
    var r := if f.left then pad else 0;
    var e := Repeat('0', z) + Repeat('0', precision - |d|) + d;
    AllDigitText(num, isHex, precision, f);
    ZerosRead(z, precision - |d|, d, isHex);
    var body := (if pre then "0x" else "") + (e + Repeat(' ', r));
    Regrouped(Repeat(' ', l), sign, if pre then "0x" else "", e, Repeat(' ', r));
    ScanBlanks(l, sign + body, isHex);
    ScanSigned(sign, pre, e, r, isHex);
    SignedMagnitude(num, f);
  }

  lemma Regrouped(a: string, b: string, c: string, d: string, e: string)
    ensures a + b + c + (d + e) == a + (b + (c + (d + e)))
  {
  }

  lemma SignedMagnitude(num: int, f: Flags)
    requires -0x8000_0000_0000_0000 <= num < 0x8000_0000_0000_0000
    ensures Signed(SignText(num, f) == "-", Magnitude(num, f)) == if f.sign then num else U64(num)
  {
  }

  lemma AllDigitText(num: int, isHex: bool, precision: int, f: Flags)
    ensures AllDigits(DigitText(num, isHex, precision, f), isHex)
    ensures Value(DigitText(num, isHex, precision, f), Base(isHex)) == Magnitude(num, f)
    ensures HasPrefix(num, isHex, f) ==> DigitText(num, isHex, precision, f) != ""
  {
    DigitTextReads(num, isHex, precision, f);
  }

  lemma ScanNothing(isHex: bool)
    ensures Scan("", isHex) == 0 && Value("", Base(isHex)) == 0
  {
  }

  lemma ZerosRead(y: int, z: int, d: string, isHex: bool)
    requires AllDigits(d, isHex)
    ensures AllDigits(Repeat('0', y) + Repeat('0', z) + d, isHex)
    ensures Value(Repeat('0', y) + Repeat('0', z) + d, Base(isHex)) == Value(d, Base(isHex))
  {
    hide DigitVal, Value;
    NotDigits(isHex);
    assert Repeat('0', y) + Repeat('0', z) + d == Repeat('0', y) + (Repeat('0', z) + d);
    LeadingZeros(y, Repeat('0', z) + d, Base(isHex));
    LeadingZeros(z, d, Base(isHex));
  }
}
