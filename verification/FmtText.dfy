/** The meaning of a format string (source/arm11/fmt.c, ee_vsnprintf): the pieces of
    output its characters and directives stand for, and what a limited buffer receives of
    them. A string is given without its terminator. */
module FmtText {
  import opened FmtNumber

  // An argument, as its caller passed it. Where a directive finds no argument, or one of
  // another kind, the model reads 0 or the null string.
  datatype Arg = Word(value: int) | Str(text: string)

  function TakeInt(args: seq<Arg>): int {
    if args != [] && args[0].Word? then args[0].value else 0
  }

  function TakeStr(args: seq<Arg>): string {
    if args != [] && args[0].Str? then args[0].text else "<NULL>"
  }

  function Rest(args: seq<Arg>): seq<Arg> {
    if args == [] then [] else args[1..]
  }

  // The character at p; the terminator past the end.
  function CharAt(fmt: string, p: nat): char {
    if p < |fmt| then fmt[p] else '\0'
  }

  predicate IsDigit(c: char) {
    '0' <= c <= '9'
  }

  // ---- Parts of a directive ----------------------------------------------------------

  predicate IsFlag(c: char) {
    c in {'-', '+', ' ', '#', '0'}
  }

  function SetFlag(f: Flags, c: char): Flags {
    match c
    case '-' => f.(left := true)
    case '+' => f.(plus := true)
    case ' ' => f.(space := true)
    case '#' => f.(hexPrep := true)
    case '0' => f.(zeropad := true)
    case _ => f
  }

  // The first position from p on that is no flag.
  function FlagsEnd(fmt: string, p: nat): (q: nat)
    ensures p <= q && (p <= |fmt| ==> q <= |fmt|)
    decreases |fmt| - p
  {
    if p < |fmt| && IsFlag(fmt[p]) then FlagsEnd(fmt, p + 1) else p
  }

  function ReadFlags(fmt: string, p: nat, f: Flags): Flags
    decreases |fmt| - p
  {
    if p < |fmt| && IsFlag(fmt[p]) then ReadFlags(fmt, p + 1, SetFlag(f, fmt[p])) else f
  }

  function DigitsEnd(fmt: string, p: nat): (q: nat)
    ensures p <= q && (p <= |fmt| ==> q <= |fmt|)
    decreases |fmt| - p
  {
    if p < |fmt| && IsDigit(fmt[p]) then DigitsEnd(fmt, p + 1) else p
  }

  const NO_FLAGS := Flags(false, false, false, false, false, false, false)

  // What the parser knows after a part: where it is, the arguments left, and the values
  // read so far.
  datatype State = State(p: nat, args: seq<Arg>, f: Flags, width: int, prec: int, kind: nat)

  function WithFlags(fmt: string, p: nat, args: seq<Arg>): State {
    State(FlagsEnd(fmt, p), args, ReadFlags(fmt, p, NO_FLAGS), -1, -1, 0)
  }

  function S32(v: int): int {
    (v + 0x8000_0000) % 0x1_0000_0000 - 0x8000_0000
  }

  // A width in digits, or '*' for an argument, where a negative one means left-justified.
  function WithWidth(fmt: string, s: State): State {
    if IsDigit(CharAt(fmt, s.p)) then
      var e := DigitsEnd(fmt, s.p);
      s.(p := e, width := if s.p <= e <= |fmt| then Value(fmt[s.p..e], 10) else 0)
    else if CharAt(fmt, s.p) == '*' then
      var w := S32(TakeInt(s.args));
      s.(p := s.p + 1, args := Rest(s.args), width := if w < 0 then -w else w,
         f := if w < 0 then s.f.(left := true) else s.f)
    else s
  }

  // '.' and a precision; nothing and a negative one mean 0.
  function WithPrecision(fmt: string, s: State): State {
    if CharAt(fmt, s.p) != '.' then s
    else if IsDigit(CharAt(fmt, s.p + 1)) then
      var e := DigitsEnd(fmt, s.p + 1);
      s.(p := e, prec := if s.p + 1 <= e <= |fmt| then Value(fmt[s.p + 1..e], 10) else 0)
    else if CharAt(fmt, s.p + 1) == '*' then
      var v := S32(TakeInt(s.args));
      s.(p := s.p + 2, args := Rest(s.args), prec := if v < 0 then 0 else v)
    else s.(p := s.p + 1, prec := 0)
  }

  // ll: 1, h: 2, hh: 3; a single l changes nothing.
  function WithKind(fmt: string, s: State): State {
    if CharAt(fmt, s.p) == 'l' then
      if CharAt(fmt, s.p + 1) == 'l' then s.(p := s.p + 2, kind := 1) else s.(p := s.p + 1)
    else if CharAt(fmt, s.p) == 'h' then
      if CharAt(fmt, s.p + 1) == 'h' then s.(p := s.p + 2, kind := 3) else s.(p := s.p + 1, kind := 2)
    else s
  }

  function Directive(fmt: string, p: nat, args: seq<Arg>): State {
    WithKind(fmt, WithPrecision(fmt, WithWidth(fmt, WithFlags(fmt, p, args))))
  }

  // ---- Conversions -------------------------------------------------------------------

  // A value cut to a signed integer type of so many values.
  function Wrap(v: int, values: nat): int
    requires values > 0
  {
    (v + values / 2) % values - values / 2
  }

  // The integer a conversion takes from its argument, as a signed 64-bit value.
  function IntArg(v: int, signed: bool, kind: nat): int {
    if signed then
      var n := if kind == 1 then Wrap(v, MOD64) else S32(v);
      if kind == 2 then Wrap(n, 0x1_0000) else if kind == 3 then Wrap(n, 0x100) else n
    else
      var n := if kind == 1 then v % MOD64 else v % 0x1_0000_0000;
      Wrap(if kind == 2 then n % 0x1_0000 else if kind == 3 then n % 0x100 else n, MOD64)
  }

  lemma IntArgInRange(v: int, signed: bool, kind: nat)
    ensures -0x8000_0000_0000_0000 <= IntArg(v, signed, kind) < 0x8000_0000_0000_0000
  {
  }

  // Text padded with blanks to the field width.
  function Field(t: string, width: int, left: bool): Piece {
    Text(Repeat(' ', if left then 0 else width - |t|) + t + Repeat(' ', if left then width - |t| else 0))
  }

  function Chr(v: int): char {
    (S32(v) % 0x100) as char
  }

  predicate IsConversion(c: char) {
    c in {'c', 's', 'p', 'X', 'x', 'd', 'i', 'u'}
  }

  function Convert(fmt: string, s: State): Piece {
    var v := TakeInt(s.args);
    match CharAt(fmt, s.p)
    case 'c' => Field([Chr(v)], s.width, s.f.left)
    case 's' => Field(if s.prec == -1 then TakeStr(s.args) else Prefix(TakeStr(s.args), if s.prec < 0 then 0 else s.prec),
                      s.width, s.f.left)
    case 'p' => Number(v % 0x1_0000_0000, true, if s.width == -1 then 8 else s.width, s.prec,
                       if s.width == -1 then s.f.(zeropad := true) else s.f)
    case 'X' => Number(IntArg(v, false, s.kind), true, s.width, s.prec, s.f.(uppercase := true))
    case 'x' => Number(IntArg(v, false, s.kind), true, s.width, s.prec, s.f)
    case 'd' => Number(IntArg(v, true, s.kind), false, s.width, s.prec, s.f.(sign := true))
    case 'i' => Number(IntArg(v, true, s.kind), false, s.width, s.prec, s.f.(sign := true))
    case 'u' => Number(IntArg(v, false, s.kind), false, s.width, s.prec, s.f)
    case '%' => Text("%")
    case '\0' => Text("%")
    case c => Text(['%', c])
  }

  // Where the format goes on after a directive.
  function Beyond(fmt: string, s: State): nat {
    if CharAt(fmt, s.p) == '\0' then s.p else s.p + 1
  }

  function ArgsLeft(fmt: string, s: State): seq<Arg> {
    if IsConversion(CharAt(fmt, s.p)) then Rest(s.args) else s.args
  }

  lemma DirectiveEnd(fmt: string, p: nat, args: seq<Arg>)
    requires 0 < p <= |fmt| && '\0' !in fmt
    ensures p <= Directive(fmt, p, args).p <= |fmt|
    ensures p <= Beyond(fmt, Directive(fmt, p, args)) <= |fmt|
  {
    var a := WithFlags(fmt, p, args);
    assert p <= a.p <= |fmt|;
    var b := WithWidth(fmt, a);
    assert a.p <= b.p <= |fmt|;
    var c := WithPrecision(fmt, b);
    assert b.p <= c.p <= |fmt|;
  }

  // The output of the format from p on, piece by piece.
  function Pieces(fmt: string, p: nat, args: seq<Arg>): seq<Piece>
    requires p <= |fmt| && '\0' !in fmt
    decreases |fmt| - p
  {
    if p == |fmt| then []
    else if fmt[p] != '%' then [Text([fmt[p]])] + Pieces(fmt, p + 1, args)
    else
      var s := Directive(fmt, p + 1, args);
      DirectiveEnd(fmt, p + 1, args);
      [Convert(fmt, s)] + Pieces(fmt, Beyond(fmt, s), ArgsLeft(fmt, s))
  }

  // ---- Rendering ---------------------------------------------------------------------

  function FullText(ps: seq<Piece>): string {
    if ps == [] then "" else ps[0].Full() + FullText(ps[1..])
  }

  // What is written of the pieces when `room` characters are left.
  function Render(ps: seq<Piece>, room: nat): (r: string)
    ensures |r| <= room
  {
    if ps == [] then ""
    else
      var t := ps[0].Cut(room);
      t + Render(ps[1..], room - |t|)
  }

  lemma CutFits(n: Piece, room: nat)
    ensures |n.Cut(room)| <= room
  {
  }

  lemma RenderFirst(ps: seq<Piece>, room: nat)
    requires ps != []
    ensures |ps[0].Cut(room)| <= room
    ensures Render(ps, room) == ps[0].Cut(room) + Render(ps[1..], room - |ps[0].Cut(room)|)
  {
  }

  lemma RenderEmpty(b: seq<Piece>, room: nat)
    ensures Render([], room) == "" && [] + b == b
    ensures Render([] + b, room) == Render([], room) + Render(b, room - |Render([], room)|)
  {
    assert "" + Render(b, room) == Render(b, room);
  }

  lemma {:induction false} RenderAppend(a: seq<Piece>, b: seq<Piece>, room: nat)
    ensures Render(a + b, room) == Render(a, room) + Render(b, room - |Render(a, room)|)
  {
    hide Piece.Cut, Render;
    if a == [] {
      RenderEmpty(b, room);
    } else {
      CutFits(a[0], room);
      RenderAppend(a[1..], b, room - |a[0].Cut(room)|);
      RenderAppendStep(a, b, room);
    }
  }

  lemma RenderAppendStep(a: seq<Piece>, b: seq<Piece>, room: nat)
    requires a != [] && |a[0].Cut(room)| <= room
    requires var left := room - |a[0].Cut(room)|;
             Render(a[1..] + b, left) == Render(a[1..], left) + Render(b, left - |Render(a[1..], left)|)
    ensures Render(a + b, room) == Render(a, room) + Render(b, room - |Render(a, room)|)
  {
    hide Piece.Cut, Render;
    var t := a[0].Cut(room);
    var left := room - |t|;
    assert (a + b)[1..] == a[1..] + b && (a + b)[0] == a[0];
    RenderFirst(a, room);
    RenderFirst(a + b, room);
    var x, y := Render(a[1..], left), Render(b, left - |Render(a[1..], left)|);
    assert t + (x + y) == (t + x) + y;
  }

  lemma {:induction false} RenderNoRoom(ps: seq<Piece>)
    ensures Render(ps, 0) == ""
  {
    if ps != [] {
      RenderNoRoom(ps[1..]);
    }
  }

  // No piece has a "0x" that may not be cut.
  predicate Plain(ps: seq<Piece>) {
    forall k :: 0 <= k < |ps| ==> ps[k].Num? ==> !ps[k].prefix
  }

  lemma {:induction false} NoHashFlag(fmt: string, p: nat, f: Flags)
    requires '#' !in fmt && !f.hexPrep
    ensures !ReadFlags(fmt, p, f).hexPrep
    decreases |fmt| - p
  {
    if p < |fmt| && IsFlag(fmt[p]) {
      assert fmt[p] in fmt;
      NoHashFlag(fmt, p + 1, SetFlag(f, fmt[p]));
    }
  }

  lemma NoHashDirective(fmt: string, p: nat, args: seq<Arg>)
    requires '#' !in fmt
    ensures !Directive(fmt, p, args).f.hexPrep
  {
    hide WithWidth, WithPrecision, WithKind;
    NoHashFlag(fmt, p, NO_FLAGS);
    HexPrepKept(fmt, WithFlags(fmt, p, args));
  }

  lemma HexPrepKept(fmt: string, s: State)
    ensures WithWidth(fmt, s).f.hexPrep == s.f.hexPrep
    ensures forall t :: WithKind(fmt, WithPrecision(fmt, t)).f == t.f
  {
  }

  lemma NoHashConvert(fmt: string, s: State)
    requires !s.f.hexPrep
    ensures Convert(fmt, s).Num? ==> !Convert(fmt, s).prefix
  {
  }

  // Only the '#' flag makes a prefix.
  lemma {:induction false} NoHashIsPlain(fmt: string, p: nat, args: seq<Arg>)
    requires p <= |fmt| && '\0' !in fmt && '#' !in fmt
    ensures Plain(Pieces(fmt, p, args))
    decreases |fmt| - p
  {
    hide Directive, Convert;
    if p < |fmt| {
      if fmt[p] != '%' {
        NoHashIsPlain(fmt, p + 1, args);
      } else {
        var s := Directive(fmt, p + 1, args);
        DirectiveEnd(fmt, p + 1, args);
        NoHashDirective(fmt, p + 1, args);
        NoHashConvert(fmt, s);
        NoHashIsPlain(fmt, Beyond(fmt, s), ArgsLeft(fmt, s));
      }
    }
  }

  // The room ends inside the "0x" of number k, or right behind it: the code then writes
  // nothing more of that number and goes on with the next piece.
  predicate CutAt(ps: seq<Piece>, k: nat, room: nat)
    requires k < |ps|
  {
    ps[k].Num? && ps[k].prefix &&
    |FullText(ps[..k])| + |ps[k].head| < room <= |FullText(ps[..k])| + |ps[k].head| + 2
  }

  // At most one number can be cut like that; the room left for what follows it is then
  // one or two characters, and there the characters of "0x" belong.
  predicate Supplied(ps: seq<Piece>, room: nat) {
    forall k {:trigger CutAt(ps, k, room)} :: 0 <= k < |ps| && CutAt(ps, k, room) ==>
      var left: nat := room - |FullText(ps[..k])| - |ps[k].head|;
      Render(ps[k + 1..], left) == Prefix("0x", left)
  }

  // Exactly when bounded output is the start of the full text: unless a "0x" was cut
  // and the pieces behind it do not happen to supply the missing characters.
  lemma {:induction false} PrefixIff(ps: seq<Piece>, room: nat)
    ensures Render(ps, room) == Prefix(FullText(ps), room) <==> Supplied(ps, room)
  {
    hide Render, FullText, Supplied, Piece.Cut, Piece.Full;
    if ps == [] {
      NothingSupplied(room);
    } else {
      FirstCut(ps, room);
      RenderFirst(ps, room);
      FullFirst(ps);
      var x := ps[0].Full();
      if CutAt(ps, 0, room) {
        SupplyHere(ps, room);
      } else if |x| >= room {
        SupplyNone(ps, room);
      } else {
        PrefixIff(ps[1..], room - |x|);
        SupplyLater(ps, room);
        PrefixConcat(x, Render(ps[1..], room - |x|), FullText(ps[1..]), room);
      }
    }
  }

  lemma NothingSupplied(room: nat)
    ensures Supplied([], room) && Render([], room) == Prefix(FullText([]), room)
  {
  }

  // The first piece is cut to a prefix of itself, or at its "0x".
  lemma FirstCut(ps: seq<Piece>, room: nat)
    requires ps != []
    ensures CutAt(ps, 0, room) ==> ps[0].Cut(room) == ps[0].head && ps[0].head + "0x" <= ps[0].Full()
    ensures !CutAt(ps, 0, room) ==> ps[0].Cut(room) == Prefix(ps[0].Full(), room)
  {
    assert FullText(ps[..0]) == "";
  }

  lemma SupplyHere(ps: seq<Piece>, room: nat)
    requires ps != [] && CutAt(ps, 0, room)
    requires Render(ps, room) == ps[0].head + Render(ps[1..], room - |ps[0].head|)
    requires FullText(ps) == ps[0].Full() + FullText(ps[1..]) && ps[0].head + "0x" <= ps[0].Full()
    ensures Render(ps, room) == Prefix(FullText(ps), room) <==> Supplied(ps, room)
  {
    hide Render, Piece.Cut, Piece.Full;
    assert FullText(ps[..0]) == "";
    var h := ps[0].head;
    var left: nat := room - |h|;
    var r := Render(ps[1..], left);
    assert Prefix(FullText(ps), room) == h + Prefix("0x", left) by {
      assert FullText(ps)[..|h| + 2] == h + "0x";
    }
    assert h + r == h + Prefix("0x", left) <==> r == Prefix("0x", left) by {
      assert (h + r)[|h|..] == r && (h + Prefix("0x", left))[|h|..] == Prefix("0x", left);
    }
    forall k | 0 < k < |ps| ensures !CutAt(ps, k, room) { FullGrows(ps, k); }
  }

  // All of the text up to piece k > 0 is at least the first piece.
  lemma FullGrows(ps: seq<Piece>, k: nat)
    requires 0 < k <= |ps|
    ensures FullText(ps[..k]) == ps[0].Full() + FullText(ps[1..][..k - 1])
  {
    assert ps[..k][0] == ps[0] && ps[..k][1..] == ps[1..][..k - 1];
  }

  lemma SupplyNone(ps: seq<Piece>, room: nat)
    requires ps != [] && !CutAt(ps, 0, room) && |ps[0].Full()| >= room
    requires Render(ps, room) == Prefix(ps[0].Full(), room) + Render(ps[1..], 0)
    requires FullText(ps) == ps[0].Full() + FullText(ps[1..])
    ensures Render(ps, room) == Prefix(FullText(ps), room) && Supplied(ps, room)
  {
    hide Render, FullText, Piece.Cut, Piece.Full;
    RenderNoRoom(ps[1..]);
    forall k | 0 < k < |ps| ensures !CutAt(ps, k, room) { FullGrows(ps, k); }
  }

  lemma SupplyLater(ps: seq<Piece>, room: nat)
    requires ps != [] && !CutAt(ps, 0, room) && |ps[0].Full()| < room
    ensures Supplied(ps, room) <==> Supplied(ps[1..], room - |ps[0].Full()|)
  {
    hide Render, FullText, Piece.Cut, Piece.Full;
    var x, tail := ps[0].Full(), ps[1..];
    forall k: nat | k < |tail|
      ensures |FullText(ps[..k + 1])| == |x| + |FullText(tail[..k])| && ps[k + 1] == tail[k] && ps[k + 1 + 1..] == tail[k + 1..]
      ensures CutAt(ps, k + 1, room) <==> CutAt(tail, k, room - |x|)
    {
      FullGrows(ps, k + 1);
    }
    if Supplied(tail, room - |x|) {
      forall k | 0 <= k < |ps| && CutAt(ps, k, room)
        ensures var left: nat := room - |FullText(ps[..k])| - |ps[k].head|; Render(ps[k + 1..], left) == Prefix("0x", left)
      {
        assert CutAt(tail, k - 1, room - |x|);
        assert ps[k - 1 + 1 + 1..] == tail[k - 1 + 1..];
      }
    }
    if Supplied(ps, room) {
      forall k | 0 <= k < |tail| && CutAt(tail, k, room - |x|)
        ensures var left: nat := room - |x| - |FullText(tail[..k])| - |tail[k].head|; Render(tail[k + 1..], left) == Prefix("0x", left)
      {
        assert CutAt(ps, k + 1, room);
        assert ps[k + 1 + 1..] == tail[k + 1..];
      }
    }
  }

  lemma PrefixConcat(x: string, r: string, f: string, room: nat)
    requires |x| < room
    ensures x + r == Prefix(x + f, room) <==> r == Prefix(f, room - |x|)
  {
    assert Prefix(x + f, room) == x + Prefix(f, room - |x|);
    assert (x + r)[|x|..] == r && (x + Prefix(f, room - |x|))[|x|..] == Prefix(f, room - |x|);
  }

  // Without prefixes bounded output is a prefix of unbounded output.
  lemma RenderIsPrefix(ps: seq<Piece>, room: nat)
    requires Plain(ps)
    ensures Render(ps, room) == Prefix(FullText(ps), room)
  {
    PrefixIff(ps, room);
  }

  lemma HashDirective()
    ensures var s := Directive("%#xZ", 1, [Word(1)]);
            s.p == 2 && s.args == [Word(1)] && s.f == NO_FLAGS.(hexPrep := true) && s.width == s.prec == -1 && s.kind == 0
  {
    var fmt := "%#xZ";
    assert FlagsEnd(fmt, 2) == 2 && ReadFlags(fmt, 2, NO_FLAGS.(hexPrep := true)) == NO_FLAGS.(hexPrep := true);
    assert FlagsEnd(fmt, 1) == 2 && ReadFlags(fmt, 1, NO_FLAGS) == NO_FLAGS.(hexPrep := true);
  }

  lemma HashConvert(s: State)
    requires s == State(2, [Word(1)], NO_FLAGS.(hexPrep := true), -1, -1, 0)
    ensures Convert("%#xZ", s) == Num("", true, "1")
  {
    HashNumber(s.f);
    assert IntArg(1, false, 0) == 1;
  }

  lemma HashNumber(f: Flags)
    requires f == NO_FLAGS.(hexPrep := true)
    ensures Number(1, true, -1, -1, f) == Num("", true, "1")
  {
    assert Digits(0, true, false) == "" && Digits(1, true, false) == "1";
    assert U64(1) == 1;
    var n := Number(1, true, -1, -1, f);
    assert n.rest == "1";
  }

  lemma HashPieces()
    ensures Pieces("%#xZ", 0, [Word(1)]) == [Num("", true, "1"), Text("Z")]
  {
    hide Directive, Convert;
    var fmt := "%#xZ";
    HashDirective();
    HashConvert(Directive(fmt, 1, [Word(1)]));
    assert Pieces(fmt, 4, []) == [];
    assert Pieces(fmt, 3, []) == [Text("Z")];
  }

  // With '#', bounded output need not be a prefix: of "0x1Z", three bytes of buffer
  // receive just "Z".
  lemma HashNotPrefix()
    ensures var ps := Pieces("%#xZ", 0, [Word(1)]);
            FullText(ps) == "0x1Z" && Render(ps, 2) == "Z"
  {
    hide Pieces, Render, FullText;
    HashPieces();
    var n, z := Num("", true, "1"), Text("Z");
    assert [n, z][1..] == [z] && [z][1..] == [];
    HashCuts(n, z);
    RenderFirst([n, z], 2);
    RenderFirst([z], 2);
    RenderEmpty([], 1);
    FullFirst([n, z]);
    FullFirst([z]);
    assert FullText([]) == "" by { FullEmpty(); }
  }

  lemma HashCuts(n: Piece, z: Piece)
    requires n == Num("", true, "1") && z == Text("Z")
    ensures n.Cut(2) == "" && z.Cut(2) == "Z" && n.Full() == "0x1" && z.Full() == "Z"
  {
  }

  lemma FullFirst(ps: seq<Piece>)
    requires ps != []
    ensures FullText(ps) == ps[0].Full() + FullText(ps[1..])
  {
  }

  lemma FullEmpty()
    ensures FullText([]) == ""
  {
  }
}
