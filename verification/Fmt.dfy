/** The bounded formatter (source/arm11/fmt.c, ee_vsnprintf): a loop over the format that
    writes into a buffer of limited size and always terminates it. */
module Fmt {
  import opened FmtNumber
  import opened FmtOut
  import opened FmtText

  // The flags after a '%'.
  method ParseFlags(fmt: string, p: nat) returns (q: nat, f: Flags)
    requires p <= |fmt|
    ensures q == FlagsEnd(fmt, p) && f == ReadFlags(fmt, p, NO_FLAGS)
  {
    q, f := p, NO_FLAGS;
    while IsFlag(CharAt(fmt, q))
      invariant p <= q <= |fmt|
      invariant FlagsEnd(fmt, q) == FlagsEnd(fmt, p) && ReadFlags(fmt, q, f) == ReadFlags(fmt, p, NO_FLAGS)
      decreases |fmt| - q
    {
      f := SetFlag(f, fmt[q]);
      q := q + 1;
    }
  }

  // skipAtoi
  method SkipAtoi(fmt: string, p: nat) returns (q: nat, i: nat)
    requires p <= |fmt|
    ensures p <= q == DigitsEnd(fmt, p) <= |fmt| && i == Value(fmt[p..q], 10)
  {
    q, i := p, 0;
    while IsDigit(CharAt(fmt, q))
      invariant p <= q <= |fmt| && DigitsEnd(fmt, q) == DigitsEnd(fmt, p)
      invariant i == Value(fmt[p..q], 10)
      decreases |fmt| - q
    {
      assert fmt[p..q + 1][..q - p] == fmt[p..q];
      i := i * 10 + DigitVal(fmt[q]);
      q := q + 1;
    }
  }

  // The field width.
  method ParseWidth(fmt: string, start: State) returns (s: State)
    requires start.p <= |fmt| && '\0' !in fmt
    ensures s == WithWidth(fmt, start) && start.p <= s.p <= |fmt|
  {
    s := start;
    if IsDigit(CharAt(fmt, s.p)) {
      var e, w := SkipAtoi(fmt, s.p);
      s := s.(p := e, width := w);
    } else if CharAt(fmt, s.p) == '*' {
      var w := S32(TakeInt(s.args));
      s := s.(p := s.p + 1, args := Rest(s.args), width := w);
      if w < 0 {
        s := s.(width := -w, f := s.f.(left := true));
      }
    }
  }

  // The precision.
  method ParsePrecision(fmt: string, start: State) returns (s: State)
    requires start.p <= |fmt| && '\0' !in fmt && start.prec == -1
    ensures s == WithPrecision(fmt, start) && start.p <= s.p <= |fmt|
  {
    hide Value, DigitsEnd, S32;
    s := start;
    if CharAt(fmt, s.p) == '.' {
      s := s.(p := s.p + 1);
      if IsDigit(CharAt(fmt, s.p)) {
        var e, v := SkipAtoi(fmt, s.p);
        s := s.(p := e, prec := v);
      } else if CharAt(fmt, s.p) == '*' {
        s := s.(p := s.p + 1, args := Rest(s.args), prec := S32(TakeInt(s.args)));
      }
      if s.prec < 0 {
        s := s.(prec := 0);
      }
    }
  }

  // The length qualifier.
  method ParseKind(fmt: string, start: State) returns (s: State)
    requires start.p <= |fmt| && '\0' !in fmt
    ensures s == WithKind(fmt, start) && start.p <= s.p <= |fmt|
  {
    s := start;
    if CharAt(fmt, s.p) == 'l' {
      s := s.(p := s.p + 1);
      if CharAt(fmt, s.p) == 'l' {
        s := s.(p := s.p + 1, kind := 1);
      }
    } else if CharAt(fmt, s.p) == 'h' {
      s := s.(p := s.p + 1);
      if CharAt(fmt, s.p) == 'h' {
        s := s.(p := s.p + 1, kind := 3);
      } else {
        s := s.(kind := 2);
      }
    }
  }

  // Everything of a directive up to its conversion character.
  method ParseDirective(fmt: string, p: nat, args: seq<Arg>) returns (s: State)
    requires p <= |fmt| && '\0' !in fmt
    ensures s == Directive(fmt, p, args) && p <= s.p <= |fmt|
  {
    hide WithPrecision, WithKind;
    var q, f := ParseFlags(fmt, p);
    s := State(q, args, f, -1, -1, 0);
    s := ParseWidth(fmt, s);
    s := ParsePrecision(fmt, s);
    s := ParseKind(fmt, s);
  }

  // The characters of t, as far as they fit.
  method PutText(buf: array<char>, s: nat, strEnd: nat, t: string) returns (p: nat, full: bool)
    requires s <= strEnd < buf.Length
    modifies buf
    ensures Put(old(buf[..]), buf[..], s, strEnd, p, full, t)
  {
    hide Put, Wrote;
    p, full := s, false;
    var i := 0;
    PutNothing(buf[..], s, strEnd);
    while i < |t|
      invariant i <= |t| && !full && s <= p <= strEnd
      invariant Put(old(buf[..]), buf[..], s, strEnd, p, false, t[..i])
    {
      ghost var before := buf[..];
      var q, f := PutChar(buf, p, strEnd, t[i]);
      PutBoth(old(buf[..]), before, buf[..], s, strEnd, p, q, f, t[..i], [t[i]]);
      assert t[..i] + [t[i]] == t[..i + 1];
      i := i + 1;
      p := q;
      if f {
        full := true;
        PutMore(old(buf[..]), buf[..], s, strEnd, p, t[..i], t[i..]);
        assert t[..i] + t[i..] == t;
        return;
      }
      PutAt(old(buf[..]), buf[..], s, strEnd, p, t[..i]);
    }
    assert t[..i] == t;
  }

  // A character or string, padded with blanks to the field width.
  method PutField(buf: array<char>, s: nat, strEnd: nat, t: string, width: int, left: bool)
    returns (p: nat, full: bool)
    requires s <= strEnd < buf.Length
    modifies buf
    ensures Put(old(buf[..]), buf[..], s, strEnd, p, full, Field(t, width, left).text)
  {
    hide Put, Wrote, Repeat;
    ghost var a, x, y := buf[..], Repeat(' ', if left then 0 else width - |t|), Repeat(' ', if left then width - |t| else 0);
    p, full := Fill(buf, s, strEnd, ' ', if left then 0 else width - |t|);
    if full {
      assert x + t + y == x + (t + y);
      PutMore(a, buf[..], s, strEnd, p, x, t + y);
      return;
    }
    ghost var b, q := buf[..], p;
    PutInside(a, b, s, strEnd, p, false, x);
    p, full := PutText(buf, p, strEnd, t);
    PutBoth(a, b, buf[..], s, strEnd, q, p, full, x, t);
    if full {
      PutMore(a, buf[..], s, strEnd, p, x + t, y);
      return;
    }
    b, q := buf[..], p;
    PutInside(a, b, s, strEnd, p, false, x + t);
    p, full := Fill(buf, p, strEnd, ' ', if left then width - |t| else 0);
    PutBoth(a, b, buf[..], s, strEnd, q, p, full, x + t, y);
  }

  lemma TextCut(a: seq<char>, b: seq<char>, s: nat, e: nat, p: nat, full: bool, t: string)
    requires Put(a, b, s, e, p, full, t)
    ensures Wrote(a, b, s, p, Text(t).Cut(e - s)) && (full ==> p == e)
  {
  }

  lemma WroteInside(a: seq<char>, b: seq<char>, s: nat, p: nat, t: string, room: nat)
    requires Wrote(a, b, s, p, t) && |t| <= room
    ensures p == s + |t| <= s + room && |b| == |a|
  {
  }

  // An unknown conversion: '%' unless it is one, and the character unless the format ends.
  method PutUnknown(buf: array<char>, s: nat, strEnd: nat, c: char) returns (p: nat, full: bool)
    requires s <= strEnd < buf.Length
    modifies buf
    ensures Put(old(buf[..]), buf[..], s, strEnd, p, full, if c == '%' || c == '\0' then "%" else ['%', c])
  {
    hide Put, Wrote;
    p, full := s, false;
    if c != '%' {
      p, full := PutChar(buf, p, strEnd, '%');
      if full {
        PutMore(old(buf[..]), buf[..], s, strEnd, p, ['%'], if c == '\0' then "" else [c]);
        assert ['%'] + "" == "%" && ['%'] + [c] == ['%', c];
        return;
      }
      PutInside(old(buf[..]), buf[..], s, strEnd, p, false, ['%']);
    }
    if c != '\0' {
      ghost var b, q := buf[..], p;
      p, full := PutChar(buf, p, strEnd, c);
      if c != '%' {
        PutBoth(old(buf[..]), b, buf[..], s, strEnd, q, p, full, ['%'], [c]);
        assert ['%'] + [c] == ['%', c];
      }
    }
  }

  // A directive's output; `stop` tells that the buffer was found full.
  method PutConversion(buf: array<char>, s: nat, strEnd: nat, fmt: string, d: State) returns (p: nat, stop: bool)
    requires s <= strEnd < buf.Length
    modifies buf
    ensures Wrote(old(buf[..]), buf[..], s, p, Convert(fmt, d).Cut(strEnd - s))
    ensures stop ==> p == strEnd
  {
    hide Put, Wrote, Number, IntArg, Piece.Cut;
    ghost var a := buf[..];
    var c := CharAt(fmt, d.p);
    var v := TakeInt(d.args);
    stop := false;
    if c == 'c' {
      p, stop := PutField(buf, s, strEnd, [Chr(v)], d.width, d.f.left);
      TextCut(a, buf[..], s, strEnd, p, stop, Field([Chr(v)], d.width, d.f.left).text);
    } else if c == 's' {
      var t := TakeStr(d.args);
      if d.prec != -1 {
        t := Prefix(t, if d.prec < 0 then 0 else d.prec);
      }
      p, stop := PutField(buf, s, strEnd, t, d.width, d.f.left);
      TextCut(a, buf[..], s, strEnd, p, stop, Field(t, d.width, d.f.left).text);
    } else if c == 'p' {
      var width, f := d.width, d.f;
      if width == -1 {
        width := 8;
        f := f.(zeropad := true);
      }
      p := ProcessNumber(buf, s, strEnd, v % 0x1_0000_0000, true, width, d.prec, f);
    } else if c == 'X' || c == 'x' || c == 'd' || c == 'i' || c == 'u' {
      var f := d.f;
      if c == 'X' { f := f.(uppercase := true); }
      var signed := c == 'd' || c == 'i';
      if signed { f := f.(sign := true); }
      IntArgInRange(v, signed, d.kind);
      p := ProcessNumber(buf, s, strEnd, IntArg(v, signed, d.kind), c == 'X' || c == 'x', d.width, d.prec, f);
    } else {
      p, stop := PutUnknown(buf, s, strEnd, c);
      TextCut(a, buf[..], s, strEnd, p, stop, if c == '%' || c == '\0' then "%" else ['%', c]);
    }
  }

  // The pieces written so far and those to come make up the output.
  lemma NextPiece(before: seq<char>, b: seq<char>, c: seq<char>, e: nat, p: nat, q: nat, out: seq<Piece>, x: Piece)
    requires Wrote(before, b, 0, p, Render(out, e)) && p <= e && Wrote(b, c, p, q, x.Cut(e - p))
    ensures Wrote(before, c, 0, q, Render(out + [x], e)) && q <= e
  {
    hide Piece.Cut;
    WroteInside(before, b, 0, p, Render(out, e), e);
    WroteBoth(before, b, c, 0, p, q, Render(out, e), x.Cut(e - p));
    RenderAppend(out, [x], e);
    RenderOne(x, e - p);
    WroteInside(before, c, 0, q, Render(out + [x], e), e);
  }

  lemma RenderOne(x: Piece, room: nat)
    ensures Render([x], room) == x.Cut(room)
  {
    CutFits(x, room);
    RenderFirst([x], room);
    RenderEmpty([], room - |x.Cut(room)|);
  }

  // Once the buffer is full, the remaining pieces change nothing.
  lemma FullIsDone(out: seq<Piece>, rest: seq<Piece>, e: nat)
    requires |Render(out, e)| == e
    ensures Render(out + rest, e) == Render(out, e)
  {
    RenderAppend(out, rest, e);
    RenderNoRoom(rest);
  }

  // One turn of the loop: a character of the format, or a directive.
  method PutNext(buf: array<char>, s: nat, strEnd: nat, fmt: string, p: nat, args: seq<Arg>)
    returns (str: nat, q: nat, left: seq<Arg>, stop: bool, ghost x: Piece)
    requires s <= strEnd < buf.Length && p < |fmt| && '\0' !in fmt
    modifies buf
    ensures p < q <= |fmt| && Pieces(fmt, p, args) == [x] + Pieces(fmt, q, left)
    ensures Wrote(old(buf[..]), buf[..], s, str, x.Cut(strEnd - s))
    ensures stop ==> str == strEnd
  {
    hide Wrote, Put, Directive, Convert, Beyond, ArgsLeft;
    if fmt[p] != '%' {
      x := Text([fmt[p]]);
      str, stop := PutChar(buf, s, strEnd, fmt[p]);
      TextCut(old(buf[..]), buf[..], s, strEnd, str, stop, [fmt[p]]);
      q, left := p + 1, args;
    } else {
      var d := ParseDirective(fmt, p + 1, args);
      DirectiveEnd(fmt, p + 1, args);
      x := Convert(fmt, d);
      str, stop := PutConversion(buf, s, strEnd, fmt, d);
      q, left := Beyond(fmt, d), ArgsLeft(fmt, d);
    }
  }

  // ee_vsnprintf: the buffer receives the rendered pieces and a terminator, and nothing
  // behind it changes. That is the start of the full text exactly when a "0x" that was
  // cut is supplied by what follows.
  method VsnPrintf(buf: array<char>, size: nat, fmt: string, args: seq<Arg>) returns (len: nat)
    requires size <= buf.Length && '\0' !in fmt
    modifies buf
    ensures size == 0 ==> len == 0 && buf[..] == old(buf[..])
    ensures size > 0 ==> len < size && buf[..len] == Render(Pieces(fmt, 0, args), size - 1) && buf[len] == '\0'
    ensures size > 0 ==> (buf[..len] == Prefix(FullText(Pieces(fmt, 0, args)), size - 1)
                          <==> Supplied(Pieces(fmt, 0, args), size - 1))
    ensures forall i :: (if size > 0 then len else -1) < i < buf.Length ==> buf[i] == old(buf[i])
  {
    if size == 0 { return 0; }
    hide Supplied, FullText, Wrote, Pieces, Render, Piece.Cut;
    var strEnd: nat := size - 1;
    ghost var before, all := buf[..], Pieces(fmt, 0, args);
    ghost var out: seq<Piece> := [];
    var p: nat, str: nat, left := 0, 0, args;
    RenderEmpty([], strEnd);
    WroteNothing(before, 0);
    var stop := false;
    while p < |fmt| && !stop
      invariant p <= |fmt| && str <= strEnd && (stop ==> str == strEnd)
      invariant all == out + Pieces(fmt, p, left)
      invariant Wrote(before, buf[..], 0, str, Render(out, strEnd))
      decreases |fmt| - p
    {
      ghost var b, s0 := buf[..], str;
      ghost var x;
      str, p, left, stop, x := PutNext(buf, str, strEnd, fmt, p, left);
      NextPiece(before, b, buf[..], strEnd, s0, str, out, x);
      Grouped(out, x, Pieces(fmt, p, left));
      out := out + [x];
    }
    NothingMissing(before, buf[..], out, fmt, p, left, strEnd, str);
    Ended(before, buf[..], str, Render(all, strEnd));
    PrefixIff(all, strEnd);
    buf[str] := '\0';
    len := str;
  }

  lemma Grouped(out: seq<Piece>, x: Piece, rest: seq<Piece>)
    ensures out + ([x] + rest) == (out + [x]) + rest
  {
  }

  // When the loop ends, the format is at its end or the buffer is full.
  lemma NothingMissing(before: seq<char>, after: seq<char>, out: seq<Piece>, fmt: string, p: nat, left: seq<Arg>,
                       e: nat, str: nat)
    requires '\0' !in fmt && p <= |fmt| && (p == |fmt| || str == e)
    requires Wrote(before, after, 0, str, Render(out, e))
    ensures Render(out + Pieces(fmt, p, left), e) == Render(out, e)
  {
    WroteInside(before, after, 0, str, Render(out, e), e);
    if p == |fmt| {
      NoPieces(fmt, left);
      assert out + [] == out;
    } else {
      FullIsDone(out, Pieces(fmt, p, left), e);
    }
  }

  lemma NoPieces(fmt: string, args: seq<Arg>)
    requires '\0' !in fmt
    ensures Pieces(fmt, |fmt|, args) == []
  {
  }

  lemma Ended(a: seq<char>, b: seq<char>, p: nat, t: string)
    requires Wrote(a, b, 0, p, t)
    ensures p == |t| && b[..p] == t && forall i :: p <= i < |b| ==> b[i] == a[i]
  {
    assert b[0..p] == b[..p];
    forall i | p <= i < |b| ensures b[i] == a[i] {
      assert b[p..][i - p] == a[p..][i - p];
    }
  }

  // Without '#', what a buffer of any size receives is the start of the full text.
  lemma BoundedIsPrefix(fmt: string, args: seq<Arg>, room: nat)
    requires '\0' !in fmt && '#' !in fmt
    ensures Render(Pieces(fmt, 0, args), room) == Prefix(FullText(Pieces(fmt, 0, args)), room)
  {
    NoHashIsPlain(fmt, 0, args);
    RenderIsPrefix(Pieces(fmt, 0, args), room);
  }
}
