/** A long name from the path a caller passes to the name a directory listing returns
    (thirdparty/fatfs/ff.c: the long-name halves of create_name and get_fileinfo, with
    module Lfn's entries in between). */
module LongName {
  import opened Disk
  import opened Utf
  import opened Lfn
  import opened LfnRead
  import opened LfnKeep

  const LFN_BUF: nat := 255

  // The end of a path segment: a control character or a separator.
  predicate Ends(c: nat) {
    c < 0x20 || c == 0x2F || c == 0x5C
  }

  // " * : < > ? | DEL
  predicate Illegal(c: nat) {
    c in {0x22, 0x2A, 0x3A, 0x3C, 0x3E, 0x3F, 0x7C, 0x7F}
  }

  predicate NameChars(cps: seq<CodePoint>) {
    forall k :: 0 <= k < |cps| ==> !Ends(cps[k]) && !Illegal(cps[k])
  }

  // Trailing spaces and dots are cut off.
  function Trim(u: seq<Word>): (r: seq<Word>)
    ensures r <= u
    ensures r != [] ==> r[|r| - 1] != 0x20 && r[|r| - 1] != 0x2E
    ensures forall k :: |r| <= k < |u| ==> u[k] in {0x20, 0x2E}
  {
    if u != [] && (u[|u| - 1] == 0x20 || u[|u| - 1] == 0x2E) then Trim(u[..|u| - 1]) else u
  }

  // Why create_name refuses a segment that reads as cps up to `end`: no character follows,
  // or one that is illegal or too much, or nothing is left after trimming.
  ghost predicate Refused(path: seq<Byte>, end: nat, cps: seq<CodePoint>) {
    if end < |path| && Ends(path[end]) then Trim(Utf16s(cps)) == []
    else forall n, c: CodePoint :: FormAt(path, end, n, c) ==>
           Illegal(c) || |Utf16s(cps)| + |Utf16(c)| > MAX_LFN
  }

  // A legal, short enough and nonempty segment starts at `start`.
  ghost predicate Acceptable(path: seq<Byte>, start: nat) {
    exists end: nat, cps :: Segment(path, start, end, cps) && Trim(Utf16s(cps)) != []
  }

  ghost predicate Segment(path: seq<Byte>, start: nat, end: nat, cps: seq<CodePoint>) {
    && Reads(path, start, end, cps) && NameChars(cps) && |Utf16s(cps)| <= MAX_LFN
    && end < |path| && Ends(path[end])
  }

  // No legal character starts where a segment ends.
  lemma CannotStopEarly(path: seq<Byte>, e: nat, q: nat, r: seq<CodePoint>)
    requires e < |path| && Ends(path[e]) && Reads(path, e, q, r) && NameChars(r)
    ensures r == []
  {
    if r != [] {
      EndByte(path, e, LeadLen(path[e]), r[0]);
    }
  }

  // What follows a refused prefix is too long.
  lemma CannotGoOn(path: seq<Byte>, end: nat, cps: seq<CodePoint>, q: nat, r: seq<CodePoint>)
    requires end < |path| && Refused(path, end, cps)
    requires Reads(path, end, q, r) && NameChars(r) && r != []
    ensures |Utf16s(cps + r)| > MAX_LFN
  {
    hide FormAt, Utf16, Trim;
    EndByte(path, end, LeadLen(path[end]), r[0]);
    Utf16sAppend(cps, r);
  }

  // A refusal is final: no other reading of the path is acceptable.
  lemma RefusedForGood(path: seq<Byte>, start: nat, end: nat, cps: seq<CodePoint>, e: nat, b: seq<CodePoint>)
    requires Reads(path, start, end, cps) && NameChars(cps) && end < |path|
    requires Refused(path, end, cps) && Segment(path, start, e, b)
    ensures Trim(Utf16s(b)) == []
  {
    hide FormAt, Utf16, Utf16s, Reads, Trim;
    if |b| <= |cps| {
      ReadsPrefix(path, start, e, b, end, cps);
      assert b + cps[|b|..] == cps;
      CannotStopEarly(path, e, end, cps[|b|..]);
      assert b == cps;
      ReadsSame(path, start, end, e, cps);
    } else {
      ReadsPrefix(path, start, end, cps, e, b);
      assert cps + b[|cps|..] == b;
      CannotGoOn(path, end, cps, e, b[|cps|..]);
    }
  }

  lemma {:induction false} ReadsSame(path: seq<Byte>, p: nat, q: nat, r: nat, cps: seq<CodePoint>)
    requires Reads(path, p, q, cps) && Reads(path, p, r, cps)
    ensures q == r
    decreases |cps|
  {
    if cps != [] {
      ReadsSame(path, p + LeadLen(path[p]), q, r, cps[1..]);
    }
  }

  lemma Utf16sLast(cps: seq<CodePoint>, c: CodePoint)
    ensures Utf16s(cps + [c]) == Utf16s(cps) + Utf16(c)
  {
    Utf16sAppend(cps, [c]);
    assert Utf16s([c]) == Utf16(c) + Utf16s([c][1..]);
  }

  lemma Utf8sLast(cps: seq<CodePoint>, c: CodePoint)
    ensures Utf8s(cps + [c]) == Utf8s(cps) + Utf8(c)
  {
    Utf8sAppend(cps, [c]);
    assert Utf8s([c]) == Utf8(c) + Utf8s([c][1..]);
  }

  // The units a packed character splits into.
  lemma UnitsOf(c: CodePoint, uc: nat)
    requires uc == Packed(c)
    ensures uc != BAD
    ensures uc < 0x1_0000 ==> Utf16(c) == [uc] && c == uc
    ensures uc >= 0x1_0000 ==>
              && uc / 0x1_0000 < 0x1_0000 && Utf16(c) == [uc / 0x1_0000, uc % 0x1_0000]
              && uc % 0x1_0000 >= 0xDC00 && c >= 0x1_0000
  {
    if c >= 0x1_0000 {
      var u := Utf16(c);
      assert uc / 0x1_0000 == u[0] && uc % 0x1_0000 == u[1];
    }
  }

  // A byte that ends a segment is a character of its own.
  lemma EndByte(path: seq<Byte>, p: nat, n: nat, c: nat)
    requires FormAt(path, p, n, c)
    ensures Ends(c) <==> Ends(path[p])
    ensures Ends(c) ==> n == 1
    ensures !Ends(c) && path[|path| - 1] == 0 ==> p + n < |path|
  {
  }

  lemma EndIsForm(path: seq<Byte>, p: nat)
    requires p < |path|
    ensures Ends(path[p]) ==> FormAt(path, p, 1, path[p])
  {
  }

  lemma NoNul(cps: seq<CodePoint>)
    requires NameChars(cps)
    ensures 0 !in Utf16s(cps)
    decreases |cps|
  {
    if cps != [] {
      NoNul(cps[1..]);
      assert !Ends(cps[0]);
    }
  }

  // create_name's trimming loop, and the terminator.
  method TrimTail(lfn: array<Word>, len: nat, ghost u: seq<Word>) returns (di: nat)
    requires lfn.Length == MAX_LFN + 1 && len == |u| <= MAX_LFN && lfn[..len] == u && 0 !in u
    modifies lfn
    ensures di == |Trim(u)| && Holds(lfn[..], Trim(u))
  {
    hide Trim, Holds;
    di := len;
    assert u[..di] == u;
    while di != 0
      invariant di <= |u| && lfn[..di] == u[..di] && Trim(u[..di]) == Trim(u)
    {
      var wc := lfn[di - 1];
      assert wc == u[..di][di - 1];
      TrimStep(u[..di]);
      if wc != 0x20 && wc != 0x2E { break; }
      assert u[..di][..di - 1] == u[..di - 1];
      di := di - 1;
    }
    TrimStep(u[..di]);
    lfn[di] := 0;
    HeldName(lfn[..], Trim(u), u);
  }

  // create_name up to the finished long name: decodes the segment at `start` into the
  // working buffer.
  method CreateLfn(path: seq<Byte>, start: nat, lfn: array<Word>)
    returns (ok: bool, end: nat, di: nat, ghost cps: seq<CodePoint>)
    requires start < |path| && path[|path| - 1] == 0 && lfn.Length == MAX_LFN + 1
    modifies lfn
    ensures start <= end < |path|
    ensures Reads(path, start, end, cps) && NameChars(cps) && |Utf16s(cps)| <= MAX_LFN
    ensures ok ==> Ends(path[end]) && Trim(Utf16s(cps)) != [] && Holds(lfn[..], Trim(Utf16s(cps)))
    ensures !ok ==> Refused(path, end, cps)
    ensures ok <==> Acceptable(path, start)
  {
    ok, end, di, cps := DecodeName(path, start, lfn);
    if ok {
      assert Segment(path, start, end, cps);
    } else {
      forall e: nat, b | Segment(path, start, e, b) ensures Trim(Utf16s(b)) == [] {
        RefusedForGood(path, start, end, cps, e, b);
      }
    }
  }

  method DecodeName(path: seq<Byte>, start: nat, lfn: array<Word>)
    returns (ok: bool, end: nat, di: nat, ghost cps: seq<CodePoint>)
    requires start < |path| && path[|path| - 1] == 0 && lfn.Length == MAX_LFN + 1
    modifies lfn
    ensures start <= end < |path|
    ensures Reads(path, start, end, cps) && NameChars(cps) && |Utf16s(cps)| <= MAX_LFN
    ensures ok ==> Ends(path[end]) && Trim(Utf16s(cps)) != [] && Holds(lfn[..], Trim(Utf16s(cps)))
    ensures !ok ==> Refused(path, end, cps)
  {
    hide FormAt, Utf16, Packed, Utf16s, Trim, Holds;
    var p := start;
    end, di, cps := start, 0, [];
    assert Utf16s(cps) == [] by { EmptyUnits(); }
    while true
      invariant start <= end == p < |path|
      invariant Reads(path, start, p, cps) && NameChars(cps)
      invariant di == |Utf16s(cps)| <= MAX_LFN && lfn[..di] == Utf16s(cps)
      decreases |path| - p
    {
      var uc, q, c := TcharToUni(path, p);
      if uc == BAD {
        UnreadableIsRefused(path, p, cps);
        return false, p, di, cps;
      }
      UnitsOf(c, uc);
      EndByte(path, p, q - p, c);
      if uc >= 0x1_0000 {
        lfn[di] := uc / 0x1_0000;
        di := di + 1;
      }
      var wc: Word := uc % 0x1_0000;
      if wc < 0x20 || wc == 0x2F || wc == 0x5C { break; }
      NextIsRefused(path, p, q - p, c, cps);
      if wc < 0x80 && Illegal(wc) { return false, p, di, cps; }
      if di >= MAX_LFN { return false, p, di, cps; }
      lfn[di] := wc;
      di := di + 1;
      Utf16sLast(cps, c);
      ReadsAppend(path, start, p, cps, q - p, c);
      cps := cps + [c];
      p := q;
      end := p;
    }
    NoNul(cps);
    di := TrimTail(lfn, di, Utf16s(cps));
    ok := di != 0;
  }

  lemma EmptyUnits()
    ensures Utf16s([]) == []
  {
  }

  lemma UnreadableIsRefused(path: seq<Byte>, p: nat, cps: seq<CodePoint>)
    requires p < |path| && forall n, c :: !FormAt(path, p, n, c)
    ensures Refused(path, p, cps)
  {
    EndIsForm(path, p);
  }

  lemma NextIsRefused(path: seq<Byte>, p: nat, n: nat, c: CodePoint, cps: seq<CodePoint>)
    requires FormAt(path, p, n, c) && !Ends(c)
    ensures Illegal(c) || |Utf16s(cps)| + |Utf16(c)| > MAX_LFN ==> Refused(path, p, cps)
  {
    OneForm(path, p, c);
    EndByte(path, p, n, c);
  }

  lemma TrimStep(u: seq<Word>)
    ensures u == [] ==> Trim(u) == []
    ensures u != [] && u[|u| - 1] in {0x20, 0x2E} ==> Trim(u) == Trim(u[..|u| - 1])
    ensures u != [] && u[|u| - 1] !in {0x20, 0x2E} ==> Trim(u) == u
  {
  }

  lemma HeldName(buf: seq<Word>, t: seq<Word>, u: seq<Word>)
    requires t <= u && 0 !in u
    requires |t| < |buf| && buf[..|t|] == t && buf[|t|] == 0
    ensures Holds(buf, t)
  {
  }

  // ---- get_fileinfo ------------------------------------------------------------------

  function PairWord(hs: nat, wc: nat): nat {
    hs * 0x1_0000 + wc
  }

  // Every way to read the text as UTF-16 needs more bytes than the listing has room for.
  ghost predicate NoListing(text: seq<Word>) {
    forall c: seq<CodePoint> :: Utf16s(c) == text ==> |Utf8s(c)| > LFN_BUF
  }

  // The text starts with cps; the rest, one pending high half included, cannot go on.
  lemma Stuck(text: seq<Word>, cps: seq<CodePoint>, hs: Word, si: nat, chr: nat, room: nat)
    requires si < |text| && 0 !in text
    requires if hs == 0 then Utf16s(cps) == text[..si] && !IsSurrogate(text[si])
             else IsSurrogate(hs) && Utf16s(cps) + [hs] == text[..si]
    requires chr == PairWord(hs, text[si]) && NoRoom(chr, room)
    requires |Utf8s(cps)| + room == LFN_BUF
    ensures NoListing(text)
  {
    hide Utf8, Utf16, Packed, NoRoom;
    forall c: seq<CodePoint> | Utf16s(c) == text ensures |Utf8s(c)| > LFN_BUF {
      var k := |Utf16s(cps)|;
      assert text == text[..si] + text[si..];
      assert Utf16s(cps) + text[k..] == text;
      Utf16Prefix(cps, text[k..], c);
      var r := c[|cps|..];
      assert c == cps + r && r != [];
      Utf8sAppend(cps, r);
      NextUnits(r[0], text[k..]);
      assert text[k..][0] == text[k];
      assert Packed(r[0]) == chr;
      RoomOf(r[0], chr, room);
    }
  }

  lemma RoomOf(c: CodePoint, chr: nat, room: nat)
    requires NoRoom(chr, room) && Packed(c) == chr
    ensures |Utf8(c)| > room
  {
  }

  // The first unit of a text tells how many units its first character has.
  lemma NextUnits(c: CodePoint, text: seq<Word>)
    requires Utf16(c) <= text
    ensures if IsSurrogate(text[0]) then |text| >= 2 && Packed(c) == PairWord(text[0], text[1])
            else Packed(c) == text[0]
  {
    var u := Utf16(c);
    assert u[0] == text[0];
    if |u| == 2 { assert u[1] == text[1]; }
  }

  // A text that ends in the middle of a pair has no reading.
  lemma Broken(text: seq<Word>, cps: seq<CodePoint>, hs: Word)
    requires IsSurrogate(hs) && Utf16s(cps) + [hs] == text
    ensures NoListing(text)
  {
    forall c: seq<CodePoint> ensures Utf16s(c) != text {
      BrokenOnce(text, cps, hs, c);
    }
  }

  lemma BrokenOnce(text: seq<Word>, cps: seq<CodePoint>, hs: Word, c: seq<CodePoint>)
    requires IsSurrogate(hs) && Utf16s(cps) + [hs] == text
    ensures Utf16s(c) != text
  {
    hide Utf16;
    if Utf16s(c) == text {
      Utf16Prefix(cps, [hs], c);
      NextUnits(c[|cps|], [hs]);
    }
  }

  lemma AppendedAt(buf: seq<Byte>, buf': seq<Byte>, di: nat, s: seq<Byte>)
    requires HoldsAt(buf', di, s) && |buf| == |buf'|
    requires forall k :: 0 <= k < di ==> buf'[k] == buf[k]
    ensures buf'[..di + |s|] == buf[..di] + s
  {
    assert forall k :: 0 <= k < |s| ==> buf'[di + k] == s[k];
    forall k | 0 <= k < di + |s| ensures buf'[k] == (buf[..di] + s)[k] {
      if k >= di { assert buf'[di + (k - di)] == s[k - di]; }
    }
  }

  // The character a finished pair or single unit adds to the text read so far.
  lemma Extended(text: seq<Word>, cps: seq<CodePoint>, hs: Word, si: nat, c: CodePoint)
    requires si < |text|
    requires if hs == 0 then Utf16s(cps) == text[..si] && !IsSurrogate(text[si])
             else IsSurrogate(hs) && Utf16s(cps) + [hs] == text[..si]
    requires Packed(c) == PairWord(hs, text[si])
    ensures Utf16s(cps + [c]) == text[..si + 1]
  {
    hide Utf16, Packed, Utf16s;
    Utf16sLast(cps, c);
    UnitsOf(c, PairWord(hs, text[si]));
    assert text[..si + 1] == text[..si] + [text[si]];
  }

  // get_fileinfo's long name: the working buffer's text in UTF-8, zero-terminated; the
  // empty string when the text is broken or too long.
  method FileInfo(lfnbuf: array<Word>, fname: array<Byte>, ghost text: seq<Word>)
    returns (di: nat, ghost cps: seq<CodePoint>)
    requires Holds(lfnbuf[..], text) && fname.Length == LFN_BUF + 1
    modifies fname
    ensures di <= LFN_BUF && fname[di] == 0
    ensures di > 0 ==> Utf16s(cps) == text && fname[..di] == Utf8s(cps)
    ensures di == 0 ==> text == [] || NoListing(text)
  {
    hide Utf8, Utf16, Packed, NoRoom, NoListing, HoldsAt;
    var si: nat := 0;
    var hs: Word := 0;
    di, cps := 0, [];
    var broken := false;
    while lfnbuf[si] != 0
      invariant si <= |text| && lfnbuf[..|text|] == text && di <= LFN_BUF
      invariant if hs == 0 then Utf16s(cps) == text[..si] else IsSurrogate(hs) && Utf16s(cps) + [hs] == text[..si]
      invariant fname[..][..di] == Utf8s(cps)
      decreases |text| - si
    {
      var wc := lfnbuf[si];
      assert wc == lfnbuf[..|text|][si];
      if hs == 0 && IsSurrogate(wc) {
        hs := wc;
        si := si + 1;
        assert text[..si] == text[..si - 1] + [wc];
        continue;
      }
      ghost var before := fname[..];
      var n, c := PutUtf(PairWord(hs, wc), fname, di, LFN_BUF - di);
      if n == 0 {
        Stuck(text, cps, hs, si, PairWord(hs, wc), LFN_BUF - di);
        broken := true;
        break;
      }
      Extended(text, cps, hs, si, c);
      AppendedAt(before, fname[..], di, Utf8(c));
      Utf8sLast(cps, c);
      di := di + n;
      cps := cps + [c];
      si := si + 1;
      hs := 0;
    }
    if broken {
      di := 0;
    } else if hs != 0 {
      Broken(text, cps, hs);
      di := 0;
    }
    fname[di] := 0;
  }
}
