/** Writing text into a limited buffer (source/arm11/fmt.c, the output side of
    processNumber): str is the write position, strEnd the last position kept free for the
    terminator. */
module FmtOut {
  import opened FmtNumber

  // Exactly the text t was written from s up to p.
  predicate Wrote(before: seq<char>, after: seq<char>, s: nat, p: nat, t: string) {
    && |before| == |after| && p == s + |t| <= |before|
    && after[..s] == before[..s] && after[s..p] == t && after[p..] == before[p..]
  }

  // The text was written as far as it fits; `full` tells that it did not.
  predicate Put(before: seq<char>, after: seq<char>, s: nat, strEnd: nat, p: nat, full: bool, t: string) {
    && s <= strEnd
    && (full <==> |t| > strEnd - s)
    && Wrote(before, after, s, p, Prefix(t, strEnd - s))
  }

  lemma WroteNothing(buf: seq<char>, s: nat)
    requires s <= |buf|
    ensures Wrote(buf, buf, s, s, "")
  {
  }

  lemma WroteBoth(a: seq<char>, b: seq<char>, c: seq<char>, s: nat, p: nat, q: nat, t: string, u: string)
    requires Wrote(a, b, s, p, t) && Wrote(b, c, p, q, u)
    ensures Wrote(a, c, s, q, t + u)
  {
    assert c[..s] == c[..p][..s] == b[..p][..s] == b[..s];
    assert c[s..p] == c[..p][s..] == b[..p][s..] == b[s..p];
    assert c[s..q] == c[s..p] + c[p..q];
    assert b[q..] == b[p..][q - p..] == a[p..][q - p..] == a[q..];
  }

  lemma PutBoth(a: seq<char>, b: seq<char>, c: seq<char>, s: nat, e: nat, p: nat, q: nat, full: bool, t: string, u: string)
    requires Put(a, b, s, e, p, false, t) && Put(b, c, p, e, q, full, u)
    ensures Put(a, c, s, e, q, full, t + u)
  {
    WroteBoth(a, b, c, s, p, q, t, Prefix(u, e - p));
    assert Prefix(t + u, e - s) == t + Prefix(u, e - p);
  }

  lemma PutMore(a: seq<char>, b: seq<char>, s: nat, e: nat, p: nat, t: string, u: string)
    requires Put(a, b, s, e, p, true, t)
    ensures Put(a, b, s, e, p, true, t + u)
  {
    assert Prefix(t + u, e - s) == Prefix(t, e - s);
  }

  method PutChar(buf: array<char>, s: nat, strEnd: nat, c: char) returns (p: nat, full: bool)
    requires s <= strEnd < buf.Length
    modifies buf
    ensures Put(old(buf[..]), buf[..], s, strEnd, p, full, [c])
  {
    if s >= strEnd { return s, true; }
    buf[s] := c;
    return s + 1, false;
  }

  // n times the character c, as far as they fit.
  method Fill(buf: array<char>, s: nat, strEnd: nat, c: char, n: int) returns (p: nat, full: bool)
    requires s <= strEnd < buf.Length
    modifies buf
    ensures Put(old(buf[..]), buf[..], s, strEnd, p, full, Repeat(c, n))
  {
    hide Put, Wrote;
    p, full := s, false;
    var left := n;
    ghost var done: nat := 0;
    assert Put(old(buf[..]), buf[..], s, strEnd, p, false, "") by { PutNothing(buf[..], s, strEnd); }
    while left > 0
      invariant s <= p <= strEnd && p == s + done
      invariant left + done == n && !full && (left >= 0 || done == 0)
      invariant Put(old(buf[..]), buf[..], s, strEnd, p, false, Repeat(c, done))
    {
      ghost var before := buf[..];
      var q, f := PutChar(buf, p, strEnd, c);
      PutBoth(old(buf[..]), before, buf[..], s, strEnd, p, q, f, Repeat(c, done), [c]);
      done := done + 1;
      left := left - 1;
      if f {
        full := true;
        p := q;
        PutMore(old(buf[..]), buf[..], s, strEnd, p, Repeat(c, done), Repeat(c, n - done));
        RepeatSum(c, done, n - done);
        return;
      }
      PutAt(old(buf[..]), buf[..], s, strEnd, q, Repeat(c, done));
      p := q;
    }
    if n < 0 {
      assert Repeat(c, n) == Repeat(c, 0);
    }
  }

  lemma PutNothing(buf: seq<char>, s: nat, strEnd: nat)
    requires s <= strEnd < |buf|
    ensures Put(buf, buf, s, strEnd, s, false, "")
  {
  }

  lemma PutAt(a: seq<char>, b: seq<char>, s: nat, e: nat, p: nat, t: string)
    requires Put(a, b, s, e, p, false, t)
    ensures p == s + |t| <= e
  {
  }

  lemma PutInside(a: seq<char>, b: seq<char>, s: nat, e: nat, p: nat, full: bool, t: string)
    requires Put(a, b, s, e, p, full, t)
    ensures s <= p <= e && |b| == |a|
  {
  }

  lemma RepeatSum(c: char, m: nat, n: nat)
    ensures Repeat(c, m) + Repeat(c, n) == Repeat(c, m + n)
  {
  }

  // ---- Digits ------------------------------------------------------------------------

  function Reversed(s: string): (r: string)
    ensures |r| == |s|
  {
    if s == "" then "" else [s[|s| - 1]] + Reversed(s[..|s| - 1])
  }

  lemma NextDigit(n: nat, isHex: bool, upper: bool, low: string, low': string)
    requires n != 0 && low' == low + [Digit(n % Base(isHex), upper)]
    ensures n / Base(isHex) < n && |Digits(n, isHex, upper)| > 0
    ensures Digits(n, isHex, upper) + Reversed(low) == Digits(n / Base(isHex), isHex, upper) + Reversed(low')
  {
    assert low'[..|low|] == low;
  }

  lemma ReversedEmpty(s: string)
    requires s == ""
    ensures Reversed(s) == ""
  {
  }

  lemma NoDigits(isHex: bool, upper: bool)
    ensures Digits(0, isHex, upper) == ""
  {
  }

  lemma SomeDigits(n: nat, isHex: bool, upper: bool)
    ensures n != 0 ==> Digits(n, isHex, upper) != ""
  {
  }

  // processNumber's scratch buffer: the digits, least significant first.
  method MakeDigits(num: nat, isHex: bool, upper: bool, tmp: array<char>) returns (i: nat)
    requires num < MOD64 && tmp.Length == 20
    modifies tmp
    ensures i <= 20 && Reversed(tmp[..i]) == Digits(num, isHex, upper)
  {
    var n: nat := num;
    i := 0;
    FitsScratch(num, isHex, upper);
    hide Digits, Digit, Reversed, Base;
    assert Digits(num, isHex, upper) + Reversed(tmp[..0]) == Digits(num, isHex, upper) by { ReversedEmpty(tmp[..0]); }
    while n != 0
      invariant i <= 20 && Digits(num, isHex, upper) == Digits(n, isHex, upper) + Reversed(tmp[..i])
    {
      SomeDigits(n, isHex, upper);
      ghost var low := tmp[..i];
      tmp[i] := Digit(n % Base(isHex), upper);
      NextDigit(n, isHex, upper, low, tmp[..i + 1]);
      n := n / Base(isHex);
      i := i + 1;
    }
    NoDigits(isHex, upper);
  }

  // The scratch buffer from its n-th character down, as far as it fits.
  method PutReversed(buf: array<char>, s: nat, strEnd: nat, tmp: array<char>, n: nat) returns (p: nat, full: bool)
    requires s <= strEnd < buf.Length && n <= tmp.Length && tmp != buf
    modifies buf
    ensures Put(old(buf[..]), buf[..], s, strEnd, p, full, Reversed(tmp[..n]))
  {
    hide Put, Wrote;
    p, full := s, false;
    var i: nat := n;
    ghost var d, done := Reversed(tmp[..n]), "";
    PutNothing(buf[..], s, strEnd);
    while i > 0
      invariant i <= n && !full && s <= p <= strEnd && d == done + Reversed(tmp[..i])
      invariant Put(old(buf[..]), buf[..], s, strEnd, p, false, done)
    {
      ghost var before := buf[..];
      i := i - 1;
      assert tmp[..i + 1][..i] == tmp[..i];
      var q, f := PutChar(buf, p, strEnd, tmp[i]);
      PutBoth(old(buf[..]), before, buf[..], s, strEnd, p, q, f, done, [tmp[i]]);
      done := done + [tmp[i]];
      if f {
        full := true;
        p := q;
        assert done + Reversed(tmp[..i]) == d;
        PutMore(old(buf[..]), buf[..], s, strEnd, p, done, Reversed(tmp[..i]));
        return;
      }
      PutAt(old(buf[..]), buf[..], s, strEnd, q, done);
      p := q;
    }
    assert tmp[..i] == [] && done + "" == done == d;
  }

  // ---- processNumber -----------------------------------------------------------------

  // Blanks, then the sign.
  method PutHead(buf: array<char>, s: nat, strEnd: nat, blanks: int, sign: string) returns (p: nat, full: bool)
    requires s <= strEnd < buf.Length && |sign| <= 1
    modifies buf
    ensures Put(old(buf[..]), buf[..], s, strEnd, p, full, Repeat(' ', blanks) + sign)
  {
    hide Put, Wrote, Repeat;
    p, full := Fill(buf, s, strEnd, ' ', blanks);
    if full {
      PutMore(old(buf[..]), buf[..], s, strEnd, p, Repeat(' ', blanks), sign);
      return;
    }
    if sign == "" {
      assert Repeat(' ', blanks) + sign == Repeat(' ', blanks);
      return;
    }
    PutInside(old(buf[..]), buf[..], s, strEnd, p, false, Repeat(' ', blanks));
    ghost var before := buf[..];
    ghost var mid := p;
    p, full := PutChar(buf, p, strEnd, sign[0]);
    assert sign == [sign[0]];
    PutBoth(old(buf[..]), before, buf[..], s, strEnd, mid, p, full, Repeat(' ', blanks), sign);
  }

  // Zeros, the digits from the scratch buffer, then blanks.
  method PutTail(buf: array<char>, s: nat, strEnd: nat, zeros: int, more: int, tmp: array<char>, n: nat, blanks: int)
    returns (p: nat, full: bool)
    requires s <= strEnd < buf.Length && n <= tmp.Length && tmp != buf
    modifies buf
    ensures Put(old(buf[..]), buf[..], s, strEnd, p, full,
                Repeat('0', zeros) + Repeat('0', more) + Reversed(tmp[..n]) + Repeat(' ', blanks))
  {
    hide Put, Wrote, Repeat, Reversed;
    ghost var z, m, d, r := Repeat('0', zeros), Repeat('0', more), Reversed(tmp[..n]), Repeat(' ', blanks);
    ghost var a, t := buf[..], z;
    p, full := Fill(buf, s, strEnd, '0', zeros);
    if full {
      assert z + m + d + r == z + (m + d + r);
      PutMore(a, buf[..], s, strEnd, p, z, m + d + r);
      return;
    }
    ghost var b, q := buf[..], p;
    PutInside(a, b, s, strEnd, p, false, z);
    p, full := Fill(buf, p, strEnd, '0', more);
    PutBoth(a, b, buf[..], s, strEnd, q, p, full, z, m);
    if full {
      assert z + m + d + r == (z + m) + (d + r);
      PutMore(a, buf[..], s, strEnd, p, z + m, d + r);
      return;
    }
    b, q := buf[..], p;
    PutInside(a, b, s, strEnd, p, false, z + m);
    p, full := PutReversed(buf, p, strEnd, tmp, n);
    PutBoth(a, b, buf[..], s, strEnd, q, p, full, z + m, d);
    if full {
      PutMore(a, buf[..], s, strEnd, p, z + m + d, r);
      return;
    }
    b, q := buf[..], p;
    PutInside(a, b, s, strEnd, p, false, z + m + d);
    p, full := Fill(buf, p, strEnd, ' ', blanks);
    PutBoth(a, b, buf[..], s, strEnd, q, p, full, z + m + d, r);
  }

  // A number cut in its head, at its prefix, or behind it.
  lemma HeadCut(a: seq<char>, b: seq<char>, s: nat, e: nat, p: nat, n: Piece)
    requires n.Num? && Put(a, b, s, e, p, true, n.head)
    ensures Wrote(a, b, s, p, n.Cut(e - s))
  {
    assert n.Full() == n.head + ((if n.prefix then "0x" else "") + n.rest);
    PutMore(a, b, s, e, p, n.head, (if n.prefix then "0x" else "") + n.rest);
  }

  lemma PrefixCut(a: seq<char>, b: seq<char>, s: nat, e: nat, p: nat, n: Piece)
    requires n.Num? && n.prefix && Put(a, b, s, e, p, false, n.head) && p + 2 >= e
    ensures Wrote(a, b, s, p, n.Cut(e - s))
  {
    assert Prefix(n.head, e - s) == n.head;
    if e == p {
      assert Prefix(n.Full(), e - s) == n.head;
    }
  }

  lemma TailCut(a: seq<char>, b: seq<char>, s: nat, e: nat, p: nat, full: bool, n: Piece)
    requires n.Num? && Put(a, b, s, e, p, full, n.Full()) && (n.prefix ==> s + |n.head| + 2 < e)
    ensures Wrote(a, b, s, p, n.Cut(e - s))
  {
  }

  lemma MagnitudeIs(value: int, num: int, f: Flags)
    requires -0x8000_0000_0000_0000 <= value < 0x8000_0000_0000_0000
    requires num == if f.sign && value < 0 then -value else value
    ensures U64(num) == Magnitude(value, f)
  {
  }

  lemma ScratchIsText(value: int, isHex: bool, prec: int, f: Flags, low: string)
    requires if Magnitude(value, f) == 0 then low == (if prec != 0 then "0" else "")
             else Reversed(low) == Digits(Magnitude(value, f), isHex, f.uppercase)
    ensures Reversed(low) == DigitText(value, isHex, prec, f)
  {
  }

  lemma PutPrefix(a: seq<char>, b: seq<char>, s: nat, e: nat)
    requires s + 2 < e < |a| && b == a[s := '0'][s + 1 := 'x']
    ensures Put(a, b, s, e, s + 2, false, "0x")
  {
  }

  lemma RestIs(value: int, isHex: bool, width: int, prec: int, f: Flags)
    ensures var d, size := DigitText(value, isHex, prec, f), Padding(value, isHex, width, prec, f);
            Number(value, isHex, width, prec, f).rest ==
            Repeat('0', if PadsWithZero(prec, f) then size else 0) + Repeat('0', Max(prec, |d|) - |d|) + d
            + Repeat(' ', if f.left then size else 0)
  {
    var n := |DigitText(value, isHex, prec, f)|;
    assert Repeat('0', prec - n) == Repeat('0', Max(prec, n) - n);
  }

  lemma FullOf(n: Piece)
    requires n.Num?
    ensures n.Full() == n.head + (if n.prefix then "0x" else "") + n.rest
    ensures !n.prefix ==> n.Full() == n.head + n.rest
  {
    assert n.head + "" == n.head;
  }

  // processNumber's output: head, prefix and tail, up to the end of the buffer.
  method PutNumber(buf: array<char>, s: nat, strEnd: nat, left: int, sign: string, prefix: bool,
                   zeros: int, more: int, tmp: array<char>, i: nat, right: int)
    returns (p: nat)
    requires s <= strEnd < buf.Length && i <= tmp.Length && tmp != buf && |sign| <= 1
    modifies buf
    ensures Wrote(old(buf[..]), buf[..], s, p,
                  Num(Repeat(' ', left) + sign, prefix,
                      Repeat('0', zeros) + Repeat('0', more) + Reversed(tmp[..i]) + Repeat(' ', right)).Cut(strEnd - s))
  {
    hide Put, Wrote, Repeat, Reversed, Piece.Full, Piece.Cut;
    ghost var N := Num(Repeat(' ', left) + sign, prefix,
                       Repeat('0', zeros) + Repeat('0', more) + Reversed(tmp[..i]) + Repeat(' ', right));
    ghost var a := buf[..];
    FullOf(N);
    var full;
    p, full := PutHead(buf, s, strEnd, left, sign);
    if full {
      HeadCut(a, buf[..], s, strEnd, p, N);
      return;
    }
    PutInside(a, buf[..], s, strEnd, p, false, N.head);
    PutAt(a, buf[..], s, strEnd, p, N.head);
    ghost var q, b, before := p, buf[..], N.head;
    if prefix {
      if p + 2 >= strEnd {
        PrefixCut(a, buf[..], s, strEnd, p, N);
        return;
      }
      buf[p] := '0';
      buf[p + 1] := 'x';
      p := p + 2;
      PutPrefix(b, buf[..], q, strEnd);
      PutBoth(a, b, buf[..], s, strEnd, q, p, false, N.head, "0x");
      q, b, before := p, buf[..], N.head + "0x";
    }
    p, full := PutTail(buf, p, strEnd, zeros, more, tmp, i, right);
    PutBoth(a, b, buf[..], s, strEnd, q, p, full, before, N.rest);
    TailCut(a, buf[..], s, strEnd, p, full, N);
  }

  // processNumber's sign and the value left to convert; the sign takes one place of the
  // field.
  method TakeSign(value: int, width: int, f: Flags) returns (sign: string, num: int, size: int)
    requires -0x8000_0000_0000_0000 <= value < 0x8000_0000_0000_0000
    ensures sign == SignText(value, f) && U64(num) == Magnitude(value, f) && size == width - |sign|
  {
    hide U64, Magnitude;
    sign, num, size := "", value, width;
    if f.sign {
      if num < 0 {
        sign := "-";
        num := -num;
        size := size - 1;
      } else if f.plus {
        sign := "+";
        size := size - 1;
      } else if f.space {
        sign := " ";
        size := size - 1;
      }
    }
    MagnitudeIs(value, num, f);
  }

  method FillScratch(mag: nat, isHex: bool, prec: int, f: Flags, tmp: array<char>, ghost value: int)
    returns (i: nat)
    requires mag == Magnitude(value, f) < MOD64 && tmp.Length == 20
    modifies tmp
    ensures i <= 20 && Reversed(tmp[..i]) == DigitText(value, isHex, prec, f)
    ensures i == |DigitText(value, isHex, prec, f)|
  {
    hide Reversed, Digits, Magnitude, DigitText;
    i := 0;
    if mag == 0 {
      if prec != 0 {
        tmp[0] := '0';
        i := 1;
      }
    } else {
      i := MakeDigits(mag, isHex, f.uppercase, tmp);
    }
    ScratchIsText(value, isHex, prec, f, tmp[..i]);
  }

  // processNumber: writes the number as far as it fits.
  method ProcessNumber(buf: array<char>, s: nat, strEnd: nat, value: int, isHex: bool, width: int, prec: int, f: Flags)
    returns (p: nat)
    requires s <= strEnd < buf.Length
    requires -0x8000_0000_0000_0000 <= value < 0x8000_0000_0000_0000
    modifies buf
    ensures Wrote(old(buf[..]), buf[..], s, p, Number(value, isHex, width, prec, f).Cut(strEnd - s))
  {
    hide Put, Wrote, Repeat, Reversed, Digits, U64, DigitText, Magnitude, Piece.Full, Piece.Cut;
    var sign, num, size := TakeSign(value, width, f);
    var tmp := new char[20];
    var i := FillScratch(U64(num), isHex, prec, f, tmp, value);
    var prefix := f.hexPrep && U64(num) != 0 && isHex;
    var zeropad := f.zeropad;
    if f.left || prec != -1 { zeropad := false; }
    if prefix { size := size - 2; }
    var precision := prec;
    if i > precision { precision := i; }
    size := size - precision;
    assert size == Padding(value, isHex, width, prec, f);
    RestIs(value, isHex, width, prec, f);
    p := PutNumber(buf, s, strEnd, if !(zeropad || f.left) then size else 0, sign, prefix,
                   if zeropad then size else 0, precision - i, tmp, i, if f.left then size else 0);
  }
}
