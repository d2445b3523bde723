/** The Unicode conversions of the FAT driver in its UTF-8 configuration
    (thirdparty/fatfs/ff.c, tchar2uni and put_utf). A character travels as one 32-bit
    word: a UTF-16 unit, or a surrogate pair with the high surrogate in the upper half.
    Shifts and masks are written as the divisions and remainders they stand for. */
module Utf {
  import opened Disk

  type Word = x: int | 0 <= x < 0x1_0000

  predicate Scalar(cp: int) {
    0 <= cp < 0x11_0000 && !IsSurrogate(cp)
  }

  predicate IsSurrogate(u: int) {
    0xD800 <= u <= 0xDFFF
  }

  type CodePoint = cp: int | 0 <= cp < 0x11_0000 && !(0xD800 <= cp <= 0xDFFF)

  const BAD: nat := 0xFFFF_FFFF

  function Low6(x: nat): (r: Byte)
    ensures r < 0x40
  {
    x % 0x40
  }

  function High(x: nat): nat {
    x / 0x40
  }

  // The UTF-8 form of a character (section 3 of RFC 3629).
  function Utf8(cp: CodePoint): (r: seq<Byte>)
    ensures 1 <= |r| <= 4
  {
    if cp < 0x80 then [cp]
    else if cp < 0x800 then [0xC0 + High(cp), 0x80 + Low6(cp)]
    else if cp < 0x1_0000 then [0xE0 + High(High(cp)), 0x80 + Low6(High(cp)), 0x80 + Low6(cp)]
    else [0xF0 + High(High(High(cp))), 0x80 + Low6(High(High(cp))), 0x80 + Low6(High(cp)), 0x80 + Low6(cp)]
  }

  // The UTF-16 form of a character (section 2.1 of RFC 2781).
  function Utf16(cp: CodePoint): (r: seq<Word>)
    ensures 1 <= |r| <= 2
    ensures 0 in r ==> cp == 0
  {
    if cp < 0x1_0000 then [cp]
    else [0xD800 + (cp - 0x1_0000) / 0x400, 0xDC00 + (cp - 0x1_0000) % 0x400]
  }

  // The one-word form of a character.
  function Packed(cp: CodePoint): nat {
    var u := Utf16(cp);
    var hi: nat := u[0];
    if |u| == 1 then hi else hi * 0x1_0000 + u[1]
  }

  // ---- UTF-8 as the decoder reads it -------------------------------------------------

  // Bytes in the sequence a lead byte announces; 0 when no sequence starts with b.
  function LeadLen(b: Byte): nat {
    if b < 0x80 then 1 else if b < 0xC0 then 0 else if b < 0xE0 then 2
    else if b < 0xF0 then 3 else if b < 0xF8 then 4 else 0
  }

  function LeadBits(b: Byte): nat {
    match LeadLen(b)
    case 2 => b % 0x20
    case 3 => b % 0x10
    case 4 => b % 8
    case _ => b
  }

  predicate IsTrail(b: Byte) {
    0x80 <= b < 0xC0
  }

  // v followed by the low six bits of each of the n bytes at p.
  function Gathered(str: seq<Byte>, p: nat, n: nat, v: nat): nat
    requires p + n <= |str|
  {
    if n == 0 then v else Gathered(str, p, n - 1, v) * 0x40 + str[p + n - 1] % 0x40
  }

  // The n bytes at p denote cp, in a form that may be longer than the shortest one. Only
  // values that fit one byte are refused as overlong.
  predicate FormAt(str: seq<Byte>, p: nat, n: nat, cp: int) {
    && 0 < n && p + n <= |str| && LeadLen(str[p]) == n
    && (forall k :: p < k < p + n ==> IsTrail(str[k]))
    && cp == Gathered(str, p + 1, n - 1, LeadBits(str[p]))
    && (n > 1 ==> cp >= 0x80)
    && Scalar(cp)
  }

  lemma GatheredUnfolds(str: seq<Byte>, p: nat, n: nat, v: nat)
    requires p + n <= |str| && n <= 3
    ensures n == 0 ==> Gathered(str, p, n, v) == v
    ensures n == 1 ==> Gathered(str, p, n, v) == v * 0x40 + str[p] % 0x40
    ensures n == 2 ==> Gathered(str, p, n, v) == (v * 0x40 + str[p] % 0x40) * 0x40 + str[p + 1] % 0x40
    ensures n == 3 ==> Gathered(str, p, n, v) ==
                       ((v * 0x40 + str[p] % 0x40) * 0x40 + str[p + 1] % 0x40) * 0x40 + str[p + 2] % 0x40
  {
    if n > 0 {
      GatheredUnfolds(str, p, n - 1, v);
    }
  }

  predicate HoldsAt(str: seq<Byte>, p: nat, s: seq<Byte>) {
    p + |s| <= |str| && forall k :: 0 <= k < |s| ==> str[p + k] == s[k]
  }

  // Six-bit groups and the number they make up determine each other.
  lemma Sextet(x: nat, h: nat, l: nat)
    requires l < 0x40
    ensures x == h * 0x40 + l <==> h == High(x) && l == Low6(x)
  {
  }

  // The decoder reads the shortest form of a character as that character.
  lemma ShortestIsForm(str: seq<Byte>, p: nat, cp: CodePoint)
    requires HoldsAt(str, p, Utf8(cp))
    ensures FormAt(str, p, |Utf8(cp)|, cp)
  {
    hide Utf8, LeadLen, LeadBits, IsTrail, Gathered;
    var s := Utf8(cp);
    var n := |s|;
    assert forall k {:trigger s[k]} :: 0 <= k < n ==> str[p + k] == s[k];
    assert forall k :: p < k < p + n ==> IsTrail(str[k]) by {
      forall k | p < k < p + n ensures IsTrail(str[k]) {
        assert str[k] == s[k - p];
        ShortestTrails(cp, k - p);
      }
    }
    ShortestLead(cp);
    Utf8Length(cp);
    assert str[p + 0] == s[0];
    GatheredUnfolds(str, p + 1, n - 1, LeadBits(str[p]));
    ShortestValue(cp);
  }

  lemma ShortestLead(cp: CodePoint)
    ensures LeadLen(Utf8(cp)[0]) == |Utf8(cp)|
  {
  }

  lemma ShortestTrails(cp: CodePoint, k: nat)
    requires 0 < k < |Utf8(cp)|
    ensures IsTrail(Utf8(cp)[k])
  {
  }

  lemma ShortestValue(cp: CodePoint)
    ensures var s := Utf8(cp); var v := LeadBits(s[0]);
            && (|s| == 1 ==> cp == v)
            && (|s| == 2 ==> cp == v * 0x40 + s[1] % 0x40)
            && (|s| == 3 ==> cp == (v * 0x40 + s[1] % 0x40) * 0x40 + s[2] % 0x40)
            && (|s| == 4 ==> cp == ((v * 0x40 + s[1] % 0x40) * 0x40 + s[2] % 0x40) * 0x40 + s[3] % 0x40)
  {
    hide High, Low6, LeadBits;
    var h := High(cp);
    Sextet(cp, h, Low6(cp));
    Sextet(h, High(h), Low6(h));
    Sextet(High(h), High(High(h)), Low6(High(h)));
    Stripped(Low6(cp));
    Stripped(Low6(h));
    Stripped(Low6(High(h)));
    if cp < 0x80 {
      LeadStripped(1, cp);
    } else if cp < 0x800 {
      LeadStripped(2, h);
    } else if cp < 0x1_0000 {
      LeadStripped(3, High(h));
    } else {
      LeadStripped(4, High(High(h)));
    }
  }

  lemma Stripped(l: Byte)
    requires l < 0x40
    ensures (0x80 + l) % 0x40 == l
  {
  }

  lemma LeadStripped(n: nat, h: nat)
    ensures n == 1 && h < 0x80 ==> LeadBits(h) == h
    ensures n == 2 && h < 0x20 ==> LeadBits(0xC0 + h) == h
    ensures n == 3 && h < 0x10 ==> LeadBits(0xE0 + h) == h
    ensures n == 4 && h < 8 ==> LeadBits(0xF0 + h) == h
  {
  }

  lemma FormBytes2(cp: CodePoint, b0: Byte, b1: Byte)
    requires LeadLen(b0) == 2 && IsTrail(b1)
    requires cp == LeadBits(b0) * 0x40 + b1 % 0x40 >= 0x80
    ensures Utf8(cp) == [b0, b1]
  {
  }

  lemma FormBytes3(cp: CodePoint, b0: Byte, b1: Byte, b2: Byte)
    requires LeadLen(b0) == 3 && IsTrail(b1) && IsTrail(b2)
    requires cp == (LeadBits(b0) * 0x40 + b1 % 0x40) * 0x40 + b2 % 0x40
    ensures cp < 0x1_0000
    ensures cp >= 0x800 ==> Utf8(cp) == [b0, b1, b2]
  {
    hide High, Low6;
    Sextet(cp, LeadBits(b0) * 0x40 + b1 % 0x40, b2 % 0x40);
    Sextet(High(cp), LeadBits(b0), b1 % 0x40);
  }

  lemma FormBytes4(cp: CodePoint, b0: Byte, b1: Byte, b2: Byte, b3: Byte)
    requires LeadLen(b0) == 4 && IsTrail(b1) && IsTrail(b2) && IsTrail(b3)
    requires cp == ((LeadBits(b0) * 0x40 + b1 % 0x40) * 0x40 + b2 % 0x40) * 0x40 + b3 % 0x40
    ensures cp >= 0x1_0000 ==> Utf8(cp) == [b0, b1, b2, b3]
  {
    hide High, Low6;
    Sextet(cp, (LeadBits(b0) * 0x40 + b1 % 0x40) * 0x40 + b2 % 0x40, b3 % 0x40);
    Sextet(High(cp), LeadBits(b0) * 0x40 + b1 % 0x40, b2 % 0x40);
    Sextet(High(High(cp)), LeadBits(b0), b1 % 0x40);
  }

  // No form is shorter than the RFC's, and only that form has its length.
  lemma FormIsShortest(str: seq<Byte>, p: nat, n: nat, cp: CodePoint)
    requires FormAt(str, p, n, cp)
    ensures |Utf8(cp)| <= n <= 4
    ensures HoldsAt(str, p, Utf8(cp)) <==> n == |Utf8(cp)|
  {
    hide Utf8, IsTrail, LeadLen, LeadBits;
    LeadAtMost4(str[p]);
    GatheredUnfolds(str, p + 1, n - 1, LeadBits(str[p]));
    if n == 2 {
      FormBytes2(cp, str[p], str[p + 1]);
    } else if n == 3 {
      FormBytes3(cp, str[p], str[p + 1], str[p + 2]);
    } else if n == 4 {
      FormBytes4(cp, str[p], str[p + 1], str[p + 2], str[p + 3]);
    } else {
      OneByteForm(cp, str[p]);
    }
    Utf8Length(cp);
    if HoldsAt(str, p, Utf8(cp)) {
      ShortestIsForm(str, p, cp);
    }
  }

  lemma LeadAtMost4(b: Byte)
    ensures LeadLen(b) <= 4
  {
  }

  lemma OneByteForm(cp: CodePoint, b: Byte)
    requires LeadLen(b) == 1 && cp == LeadBits(b)
    ensures Utf8(cp) == [b]
  {
  }

  lemma Utf8Length(cp: CodePoint)
    ensures |Utf8(cp)| == if cp < 0x80 then 1 else if cp < 0x800 then 2 else if cp < 0x1_0000 then 3 else 4
  {
  }

  // A missing trail byte, or a byte that starts no sequence, leaves no form at p.
  lemma NoFormAt(str: seq<Byte>, p: nat, k: nat)
    requires p <= k < |str|
    requires if k == p then LeadLen(str[p]) == 0 else k < p + LeadLen(str[p]) && !IsTrail(str[k])
    ensures forall n, c :: !FormAt(str, p, n, c)
  {
  }

  // The announced bytes denote one value, which is the only character at p, if any.
  lemma OneForm(str: seq<Byte>, p: nat, v: nat)
    requires p < |str| && 0 < LeadLen(str[p]) && p + LeadLen(str[p]) <= |str|
    requires forall k :: p < k < p + LeadLen(str[p]) ==> IsTrail(str[k])
    requires v == Gathered(str, p + 1, LeadLen(str[p]) - 1, LeadBits(str[p]))
    ensures FormAt(str, p, LeadLen(str[p]), v) <==> Scalar(v) && (LeadLen(str[p]) > 1 ==> v >= 0x80)
    ensures forall n, c :: FormAt(str, p, n, c) ==> n == LeadLen(str[p]) && c == v
  {
  }

  lemma PackedFormula(cp: int)
    requires Scalar(cp)
    ensures Packed(cp) == if cp < 0x1_0000 then cp
                          else 0xD800_DC00 + (cp - 0x1_0000) / 0x400 * 0x1_0000 + (cp - 0x1_0000) % 0x400
  {
  }

  // tchar2uni: reads the character at p of a NUL-terminated string.
  method TcharToUni(str: seq<Byte>, start: nat) returns (uc: nat, q: nat, ghost cp: CodePoint)
    requires start < |str| && str[|str| - 1] == 0
    ensures uc == BAD ==> forall n, c :: !FormAt(str, start, n, c)
    ensures uc != BAD ==> start < q && FormAt(str, start, q - start, cp) && uc == Packed(cp)
  {
    hide Packed, Utf16, FormAt;
    var p := start;
    uc := str[p];
    cp := 0;
    p := p + 1;
    if uc >= 0x80 {
      var nf: nat;
      if 0xC0 <= uc < 0xE0 {
        uc := uc % 0x20;
        nf := 1;
      } else if 0xE0 <= uc < 0xF0 {
        uc := uc % 0x10;
        nf := 2;
      } else if 0xF0 <= uc < 0xF8 {
        uc := uc % 8;
        nf := 3;
      } else {
        NoFormAt(str, start, start);
        return BAD, start, cp;
      }
      ghost var len := nf + 1;
      while nf != 0
        invariant nf < len == LeadLen(str[start]) <= 4
        invariant p == start + len - nf < |str|
        invariant forall k :: start < k < p ==> IsTrail(str[k])
        invariant uc == Gathered(str, start + 1, p - start - 1, LeadBits(str[start]))
      {
        var b := str[p];
        p := p + 1;
        if !(0x80 <= b < 0xC0) {
          NoFormAt(str, start, p - 1);
          return BAD, start, cp;
        }
        uc := uc * 0x40 + b % 0x40;
        nf := nf - 1;
      }
      OneForm(str, start, uc);
      if uc < 0x80 || IsSurrogate(uc) || uc >= 0x11_0000 {
        return BAD, start, cp;
      }
      cp := uc;
      PackedFormula(uc);
      if uc >= 0x1_0000 {
        uc := 0xD800_DC00 + (uc - 0x1_0000) / 0x400 * 0x1_0000 + (uc - 0x1_0000) % 0x400;
      }
    } else {
      cp := uc;
      OneForm(str, start, uc);
      PackedFormula(uc);
    }
    q := p;
  }

  // ---- put_utf -----------------------------------------------------------------------

  // Every character packed as chr needs more than szb bytes.
  ghost predicate NoRoom(chr: nat, szb: nat) {
    forall c: CodePoint :: Packed(c) == chr ==> szb < |Utf8(c)|
  }

  // Words below 0x10000 stand for themselves, surrogates for nothing.
  lemma PackedSmall(chr: nat)
    requires chr < 0x1_0000
    ensures forall c: CodePoint :: Packed(c) == chr ==> c == chr
    ensures Scalar(chr) ==> Packed(chr) == chr
  {
  }

  // put_utf's wrapping subtractions accept exactly the surrogate pairs.
  lemma PairTest(chr: nat, hc: nat, lo: nat)
    requires 0x1_0000 <= chr < 0x1_0000_0000
    requires hc == (chr - chr % 0x1_0000 + 0x1_0000_0000 - 0xD800_0000) % 0x1_0000_0000 / 0x40
    requires lo == (chr % 0x1_0000 + 0x1_0000_0000 - 0xDC00) % 0x1_0000_0000
    ensures hc < 0x10_0000 && lo < 0x400 ==>
              Scalar(hc + lo + 0x1_0000) && Packed(hc + lo + 0x1_0000) == chr
    ensures forall c: CodePoint :: Packed(c) == chr ==> hc < 0x10_0000 && lo < 0x400
  {
    var h, l := chr / 0x1_0000, chr % 0x1_0000;
    HighTen(h, hc);
    assert lo < 0x400 <==> 0xDC00 <= l < 0xE000;
    if hc < 0x10_0000 && lo < 0x400 {
      PackedPair(h - 0xD800, lo, hc + lo + 0x1_0000);
    }
    forall c: CodePoint | Packed(c) == chr ensures hc < 0x10_0000 && lo < 0x400 {
      PairOf(c, h, l);
    }
  }

  lemma HighTen(h: nat, hc: nat)
    requires h < 0x1_0000
    requires hc == (h * 0x1_0000 + 0x1_0000_0000 - 0xD800_0000) % 0x1_0000_0000 / 0x40
    ensures hc < 0x10_0000 <==> 0xD800 <= h < 0xDC00
    ensures hc < 0x10_0000 ==> hc == (h - 0xD800) * 0x400
  {
    if h >= 0xD800 {
      assert hc == (h - 0xD800) * 0x1_0000 / 0x40;
    } else {
      assert hc == (h + 0x2800) * 0x1_0000 / 0x40;
    }
  }

  lemma PackedPair(a: nat, b: nat, cp: nat)
    requires a < 0x400 && b < 0x400 && cp == a * 0x400 + b + 0x1_0000
    ensures Scalar(cp) && Packed(cp) == (0xD800 + a) * 0x1_0000 + 0xDC00 + b
  {
    assert (cp - 0x1_0000) / 0x400 == a;
  }

  lemma PairOf(c: CodePoint, h: nat, l: nat)
    requires l < 0x1_0000 <= h * 0x1_0000 + l == Packed(c)
    ensures 0xD800 <= h < 0xDC00 <= l < 0xE000
    ensures Utf16(c) == [h, l]
  {
    assert c >= 0x1_0000;
    var u := Utf16(c);
    assert h == u[0];
  }

  // The bytes put_utf computes are the RFC's.
  lemma PutBytes(c: CodePoint)
    ensures 0x80 <= c < 0x800 ==> Utf8(c) == [0xC0 + c / 0x40 % 0x20, 0x80 + c % 0x40]
    ensures 0x800 <= c < 0x1_0000 ==>
              Utf8(c) == [0xE0 + c / 0x1000 % 0x10, 0x80 + c / 0x40 % 0x40, 0x80 + c % 0x40]
    ensures 0x1_0000 <= c ==>
              Utf8(c) == [0xF0 + c / 0x4_0000 % 8, 0x80 + c / 0x1000 % 0x40, 0x80 + c / 0x40 % 0x40, 0x80 + c % 0x40]
  {
    DivDiv(c);
  }

  lemma DivDiv(x: nat)
    ensures High(High(x)) == x / 0x1000
    ensures High(High(High(x))) == x / 0x4_0000
  {
  }

  // put_utf: stores the UTF-8 form of a packed character in buf[ofs..ofs + szb]. It
  // writes nothing, and says 0, when the word is no character or its form does not fit.
  method PutUtf(chr: nat, buf: array<Byte>, ofs: nat, szb: nat) returns (n: nat, ghost cp: CodePoint)
    requires chr < 0x1_0000_0000 && ofs + szb <= buf.Length
    modifies buf
    ensures n == 0 ==> buf[..] == old(buf[..]) && NoRoom(chr, szb)
    ensures n > 0 ==> Packed(cp) == chr && n == |Utf8(cp)| <= szb && HoldsAt(buf[..], ofs, Utf8(cp))
    ensures forall k :: 0 <= k < buf.Length && !(ofs <= k < ofs + n) ==> buf[k] == old(buf[k])
  {
    hide Packed, Utf16, Utf8;
    cp := 0;
    if chr < 0x1_0000 {
      PackedSmall(chr);
      if !IsSurrogate(chr) {
        cp := chr;
        PutBytes(cp);
        Utf8Length(cp);
      }
    }
    if chr < 0x80 {
      if szb < 1 { return 0, cp; }
      OneByteForm(cp, chr);
      buf[ofs] := chr;
      return 1, cp;
    }
    if chr < 0x800 {
      if szb < 2 { return 0, cp; }
      buf[ofs] := 0xC0 + chr / 0x40 % 0x20;
      buf[ofs + 1] := 0x80 + chr % 0x40;
      return 2, cp;
    }
    if chr < 0x1_0000 {
      if szb < 3 || IsSurrogate(chr) { return 0, cp; }
      buf[ofs] := 0xE0 + chr / 0x1000 % 0x10;
      buf[ofs + 1] := 0x80 + chr / 0x40 % 0x40;
      buf[ofs + 2] := 0x80 + chr % 0x40;
      return 3, cp;
    }
    if szb < 4 {
      PairsNeedFour(chr);
      return 0, cp;
    }
    var hc := (chr - chr % 0x1_0000 + 0x1_0000_0000 - 0xD800_0000) % 0x1_0000_0000 / 0x40;
    var lo := (chr % 0x1_0000 + 0x1_0000_0000 - 0xDC00) % 0x1_0000_0000;
    PairTest(chr, hc, lo);
    if hc >= 0x10_0000 || lo >= 0x400 { return 0, cp; }
    var c := hc + lo + 0x1_0000;
    cp := c;
    PutBytes(cp);
    buf[ofs] := 0xF0 + c / 0x4_0000 % 8;
    buf[ofs + 1] := 0x80 + c / 0x1000 % 0x40;
    buf[ofs + 2] := 0x80 + c / 0x40 % 0x40;
    buf[ofs + 3] := 0x80 + c % 0x40;
    return 4, cp;
  }

  lemma PairsNeedFour(chr: nat)
    requires chr >= 0x1_0000
    ensures forall c: CodePoint :: Packed(c) == chr ==> |Utf8(c)| == 4
  {
  }

  // ---- Whole strings -----------------------------------------------------------------

  function Utf8s(cps: seq<CodePoint>): seq<Byte> {
    if cps == [] then [] else Utf8(cps[0]) + Utf8s(cps[1..])
  }

  function Utf16s(cps: seq<CodePoint>): seq<Word> {
    if cps == [] then [] else Utf16(cps[0]) + Utf16s(cps[1..])
  }

  lemma {:induction false} Utf8sAppend(a: seq<CodePoint>, b: seq<CodePoint>)
    ensures Utf8s(a + b) == Utf8s(a) + Utf8s(b)
  {
    if a == [] {
      assert a + b == b;
    } else {
      Utf8sAppend(a[1..], b);
      assert (a + b)[1..] == a[1..] + b && (a + b)[0] == a[0];
    }
  }

  lemma {:induction false} Utf16sAppend(a: seq<CodePoint>, b: seq<CodePoint>)
    ensures Utf16s(a + b) == Utf16s(a) + Utf16s(b)
  {
    if a == [] {
      assert a + b == b;
    } else {
      Utf16sAppend(a[1..], b);
      assert (a + b)[1..] == a[1..] + b && (a + b)[0] == a[0];
    }
  }

  // The bytes p..q read as the characters cps.
  predicate Reads(str: seq<Byte>, p: nat, q: nat, cps: seq<CodePoint>)
    decreases |cps|
  {
    if cps == [] then p == q
    else p < |str| && FormAt(str, p, LeadLen(str[p]), cps[0]) && Reads(str, p + LeadLen(str[p]), q, cps[1..])
  }

  lemma {:induction false} ReadsAppend(str: seq<Byte>, p: nat, q: nat, cps: seq<CodePoint>, n: nat, c: CodePoint)
    requires Reads(str, p, q, cps) && FormAt(str, q, n, c)
    ensures Reads(str, p, q + n, cps + [c])
    decreases |cps|
  {
    if cps == [] {
      assert (cps + [c])[1..] == [];
    } else {
      ReadsAppend(str, p + LeadLen(str[p]), q, cps[1..], n, c);
      assert (cps + [c])[1..] == cps[1..] + [c];
    }
  }

  // Of two readings from the same place, the shorter one starts the longer.
  lemma {:induction false} ReadsPrefix(str: seq<Byte>, p: nat, q: nat, a: seq<CodePoint>, r: nat, b: seq<CodePoint>)
    requires Reads(str, p, q, a) && Reads(str, p, r, b) && |a| <= |b|
    ensures a <= b && Reads(str, q, r, b[|a|..])
    decreases |a|
  {
    if a == [] {
      assert b[|a|..] == b;
    } else {
      ReadsPrefix(str, p + LeadLen(str[p]), q, a[1..], r, b[1..]);
      assert a == [a[0]] + a[1..] && b == [b[0]] + b[1..];
      assert b[1..][|a| - 1..] == b[|a|..];
    }
  }

  // A stretch of bytes has one reading.
  lemma OneReading(str: seq<Byte>, p: nat, q: nat, a: seq<CodePoint>, b: seq<CodePoint>)
    requires Reads(str, p, q, a) && Reads(str, p, q, b)
    ensures a == b
  {
    hide Reads;
    if |a| <= |b| {
      ReadsPrefix(str, p, q, a, q, b);
      ReadsLength(str, q, q, b[|a|..]);
    } else {
      ReadsPrefix(str, p, q, b, q, a);
      ReadsLength(str, q, q, a[|b|..]);
    }
  }

  lemma {:induction false} ReadsLength(str: seq<Byte>, p: nat, q: nat, cps: seq<CodePoint>)
    requires Reads(str, p, q, cps)
    ensures p + |cps| <= q && (p <= |str| ==> q <= |str|)
    decreases |cps|
  {
    if cps != [] {
      ReadsLength(str, p + LeadLen(str[p]), q, cps[1..]);
    }
  }

  // A string of shortest forms reads as its own characters.
  lemma {:induction false} ShortestReads(str: seq<Byte>, p: nat, cps: seq<CodePoint>)
    requires HoldsAt(str, p, Utf8s(cps))
    ensures Reads(str, p, p + |Utf8s(cps)|, cps)
    decreases |cps|
  {
    hide Utf8, FormAt;
    if cps != [] {
      FirstHeld(str, p, Utf8(cps[0]), Utf8s(cps[1..]));
      ShortestIsForm(str, p, cps[0]);
      FormLead(str, p, |Utf8(cps[0])|, cps[0]);
      ShortestReads(str, p + |Utf8(cps[0])|, cps[1..]);
    }
  }

  lemma FormLead(str: seq<Byte>, p: nat, n: nat, cp: int)
    requires FormAt(str, p, n, cp)
    ensures p < |str| && LeadLen(str[p]) == n
  {
  }

  lemma FirstHeld(str: seq<Byte>, p: nat, x: seq<Byte>, y: seq<Byte>)
    requires HoldsAt(str, p, x + y)
    ensures HoldsAt(str, p, x) && HoldsAt(str, p + |x|, y)
  {
    forall k | 0 <= k < |x| ensures str[p + k] == x[k] { assert (x + y)[k] == x[k]; }
    forall k | 0 <= k < |y| ensures str[p + |x| + k] == y[k] { assert (x + y)[|x| + k] == y[k]; }
  }

  // UTF-16 text starts with the characters read so far, whatever follows.
  lemma {:induction false} Utf16Prefix(a: seq<CodePoint>, rest: seq<Word>, b: seq<CodePoint>)
    requires Utf16s(a) + rest == Utf16s(b)
    ensures a <= b && rest == Utf16s(b[|a|..])
    decreases |a|
  {
    if a == [] {
      assert rest == Utf16s(a) + rest;
    } else {
      var u, v := Utf16s(a) + rest, Utf16s(b);
      assert u == Utf16(a[0]) + (Utf16s(a[1..]) + rest);
      assert b != [] by { assert |u| > 0; }
      assert u[0] == Utf16(a[0])[0] && v[0] == Utf16(b[0])[0];
      if |Utf16(a[0])| == 2 {
        assert u[1] == Utf16(a[0])[1];
        assert v[1] == Utf16(b[0])[1];
      }
      assert Utf16(a[0]) == Utf16(b[0]) && a[0] == b[0];
      assert Utf16s(a[1..]) + rest == u[|Utf16(a[0])|..] == Utf16s(b[1..]);
      Utf16Prefix(a[1..], rest, b[1..]);
      assert b[1..][|a| - 1..] == b[|a|..];
    }
  }

  // A reading is never shorter than the characters' shortest forms, and as long as those
  // only if it consists of them.
  lemma {:induction false} ReadsAtLeast(str: seq<Byte>, p: nat, q: nat, cps: seq<CodePoint>)
    requires Reads(str, p, q, cps)
    ensures p + |Utf8s(cps)| <= q
    decreases |cps|
  {
    if cps != [] {
      var n := LeadLen(str[p]);
      FormIsShortest(str, p, n, cps[0]);
      ReadsAtLeast(str, p + n, q, cps[1..]);
    }
  }

  // The form of a character that has n bytes, when its bits fit them.
  function Form(cp: CodePoint, n: nat): (r: seq<Byte>)
    requires |Utf8(cp)| <= n <= 4
    ensures |r| == n
  {
    if n == 1 then [cp]
    else if n == 2 then [0xC0 + High(cp), 0x80 + Low6(cp)]
    else if n == 3 then [0xE0 + High(High(cp)), 0x80 + Low6(High(cp)), 0x80 + Low6(cp)]
    else [0xF0 + High(High(High(cp))), 0x80 + Low6(High(High(cp))), 0x80 + Low6(High(cp)), 0x80 + Low6(cp)]
  }

  lemma FormShape(cp: CodePoint, n: nat)
    requires |Utf8(cp)| <= n <= 4
    ensures LeadLen(Form(cp, n)[0]) == n && forall k :: 0 < k < n ==> IsTrail(Form(cp, n)[k])
  {
    Utf8Length(cp);
    DivDiv(cp);
  }

  lemma FormBits(cp: CodePoint, n: nat)
    requires |Utf8(cp)| <= n <= 4
    ensures var s := Form(cp, n);
            LeadBits(s[0]) == (if n == 1 then cp else if n == 2 then High(cp) else if n == 3 then High(High(cp)) else High(High(High(cp))))
    ensures var s := Form(cp, n);
            && s[n - 1] % 0x40 == (if n == 1 then cp % 0x40 else Low6(cp))
            && (n >= 3 ==> s[n - 2] % 0x40 == Low6(High(cp))) && (n == 4 ==> s[1] % 0x40 == Low6(High(High(cp))))
  {
    hide LeadBits, Low6;
    Utf8Length(cp);
    DivDiv(cp);
    Stripped(Low6(cp));
    Stripped(Low6(High(cp)));
    Stripped(Low6(High(High(cp))));
    LeadStripped(n, if n == 1 then cp else if n == 2 then High(cp) else if n == 3 then High(High(cp)) else High(High(High(cp))));
  }

  lemma FormReads(cp: CodePoint, n: nat)
    requires |Utf8(cp)| <= n <= 4 && (n == 1 || cp >= 0x80)
    ensures FormAt(Form(cp, n), 0, n, cp)
  {
    hide Utf8, LeadLen, LeadBits, High, Low6, Gathered, Form, IsTrail;
    var h, s := High(cp), Form(cp, n);
    Sextet(cp, h, Low6(cp));
    Sextet(h, High(h), Low6(h));
    Sextet(High(h), High(High(h)), Low6(High(h)));
    FormShape(cp, n);
    FormBits(cp, n);
    GatheredUnfolds(s, 1, n - 1, LeadBits(s[0]));
  }

  // Which lengths of form the decoder accepts for a character: the shortest and every
  // longer one, except that a character of one byte has no longer one.
  lemma FormLengths(cp: CodePoint, n: nat)
    ensures (exists str: seq<Byte> :: FormAt(str, 0, n, cp)) <==> |Utf8(cp)| <= n <= 4 && (n == 1 || cp >= 0x80)
  {
    hide Utf8, LeadLen, LeadBits, Gathered, IsTrail, Form;
    if |Utf8(cp)| <= n <= 4 && (n == 1 || cp >= 0x80) {
      FormReads(cp, n);
    }
    forall str: seq<Byte> | FormAt(str, 0, n, cp) ensures |Utf8(cp)| <= n <= 4 && (n == 1 || cp >= 0x80) {
      FormIsShortest(str, 0, n, cp);
    }
  }

  // The decoder takes some three-byte forms of characters that need two.
  lemma OverlongAccepted()
    ensures FormAt([0xE0, 0x82, 0x80], 0, 3, 0x80) && |Utf8(0x80)| == 2
  {
    GatheredUnfolds([0xE0, 0x82, 0x80], 1, 2, 0);
  }
}
