/** Collecting a stored long name again (thirdparty/fatfs/ff.c, the long-name part of
    dir_read), and what of a name survives being stored and collected: all of it, except
    that the value 0xFFFF, which also pads an entry, may swallow what follows it. */
module LfnRead {
  import opened Disk
  import opened Utf
  import opened Lfn

  // What dir_read knows between two slots: nothing, or a run of entries of which `left`
  // parts are still to come and whose units so far read `tail`.
  datatype Gather = Lost | Got(left: nat, sum: Byte, tail: seq<Word>)

  function Attr(dir: seq<Byte>, d: nat): nat
    requires d + SZDIRE <= |dir|
  {
    dir[d + 11] % 0x40
  }

  // A deleted slot, a dot entry or the volume label.
  predicate Skipped(dir: seq<Byte>, d: nat)
    requires d + SZDIRE <= |dir|
  {
    dir[d] == DDEM || dir[d] == 0x2E || Attr(dir, d) in {0x08, 0x28}
  }

  // The short-name entry that ends the search.
  predicate IsSfn(dir: seq<Byte>, d: nat) {
    d + SZDIRE <= |dir| && dir[d] != 0 && !Skipped(dir, d) && Attr(dir, d) != AM_LFN
  }

  function Next(g: Gather, dir: seq<Byte>, d: nat): Gather
    requires d + SZDIRE <= |dir|
  {
    var b := dir[d];
    var st := if HasLlef(b) then Got(NoLlef(b), dir[d + 13], []) else g;
    if Skipped(dir, d) then Lost
    else if st.Got? && st.left == NoLlef(b) && st.sum == dir[d + 13] && Pickable(dir, d) then
      var z := ZeroFrom(dir, d, 0);
      assert st.left > 0;
      Got(st.left - 1, st.sum, Units(dir, d, z) + if z < 13 then [] else st.tail)
    else Lost
  }

  // The state after the first n slots.
  function After(dir: seq<Byte>, base: nat, n: nat): Gather
    requires base + SZDIRE * n <= |dir|
  {
    if n == 0 then Lost else Next(After(dir, base, n - 1), dir, base + SZDIRE * (n - 1))
  }

  // The slot at d is an acceptable part of a long name: part `ord` of it, marked as the last
  // one or not, with this checksum. Deleted slots, dot entries and labels are none.
  predicate IsLink(dir: seq<Byte>, d: nat, ord: nat, last: bool, sum: Byte)
    requires d + SZDIRE <= |dir|
  {
    && dir[d] == (if last then 0x40 + ord else ord) && dir[d + 13] == sum && Pickable(dir, d)
    && ord / 0x40 % 2 == 0
    && dir[d] != 0xE5 && dir[d] != 0x2E && dir[d + 11] % 0x40 != 0x08 && dir[d + 11] % 0x40 != 0x28
  }

  // The last m of the first k slots are a run down to part left + 1 that began with the part
  // marked as the last one, all with one checksum.
  predicate IsRun(dir: seq<Byte>, base: nat, k: nat, m: nat, left: nat, sum: Byte)
    requires base + SZDIRE * k <= |dir|
    decreases m
  {
    && 0 < m <= k && IsLink(dir, base + SZDIRE * (k - 1), left + 1, m == 1, sum)
    && (m > 1 ==> IsRun(dir, base, k - 1, m - 1, left + 1, sum))
  }

  lemma TakenIsLink(g: Gather, dir: seq<Byte>, d: nat)
    requires d + SZDIRE <= |dir| && Next(g, dir, d).Got?
    ensures var g' := Next(g, dir, d);
            && IsLink(dir, d, g'.left + 1, HasLlef(dir[d]), g'.sum)
            && (!HasLlef(dir[d]) ==> g.Got? && g.left == g'.left + 1 && g.sum == g'.sum)
  {
    hide Pickable, ZeroFrom, Units;
  }

  // Only behind such a run the driver is in the middle of a name,
  lemma {:induction false} GatheredIsRun(dir: seq<Byte>, base: nat, k: nat) returns (m: nat)
    requires base + SZDIRE * k <= |dir| && After(dir, base, k).Got?
    ensures IsRun(dir, base, k, m, After(dir, base, k).left, After(dir, base, k).sum)
  {
    hide IsLink, Next, HasLlef;
    TakenIsLink(After(dir, base, k - 1), dir, base + SZDIRE * (k - 1));
    m := 1;
    if !HasLlef(dir[base + SZDIRE * (k - 1)]) {
      m := GatheredIsRun(dir, base, k - 1);
      m := m + 1;
    }
  }

  // and behind every one.
  lemma {:induction false} RunIsGathered(dir: seq<Byte>, base: nat, k: nat, m: nat, left: nat, sum: Byte)
    requires base + SZDIRE * k <= |dir| && IsRun(dir, base, k, m, left, sum)
    ensures After(dir, base, k).Got? && After(dir, base, k).left == left && After(dir, base, k).sum == sum
    decreases m
  {
    hide Pickable;
    if m > 1 { RunIsGathered(dir, base, k - 1, m - 1, left + 1, sum); }
    assert HasLlef(dir[base + SZDIRE * (k - 1)]) <==> m == 1;
  }

  // The working buffer holds what was gathered, at its final place.
  predicate InBuf(g: Gather, buf: seq<Word>) {
    g.Got? ==>
      var i := 13 * g.left;
      && i + |g.tail| < |buf|
      && buf[i..i + |g.tail|] == g.tail
      && buf[i + |g.tail|] == 0
      && 0 !in g.tail
  }

  // sum_sfn: the checksum that ties the long name to the short-name entry at d.
  function SumSfn(dir: seq<Byte>, d: nat, n: nat): Byte
    requires d + n <= |dir|
  {
    if n == 0 then 0
    else var s: nat := SumSfn(dir, d, n - 1); (s / 2 + s % 2 * 0x80 + dir[d + n - 1]) % 0x100
  }

  function Rotated(s: nat): nat {
    s / 2 + s % 2 * 0x80
  }

  lemma RotationTells(s: nat, s': nat)
    requires s < 0x100 && s' < 0x100 && s != s'
    ensures Rotated(s) < 0x100 && Rotated(s') < 0x100 && Rotated(s) != Rotated(s')
  {
    var h, l, h', l' := s / 2, s % 2, s' / 2, s' % 2;
    assert s == 2 * h + l && s' == 2 * h' + l';
  }

  lemma ModTells(x: nat, y: nat)
    requires x < y < x + 0x100
    ensures x % 0x100 != y % 0x100
  {
  }

  lemma SumStep(s: nat, s': nat, b: Byte, b': Byte)
    requires s < 0x100 && s' < 0x100 && ((s == s') != (b == b'))
    ensures (s / 2 + s % 2 * 0x80 + b) % 0x100 != (s' / 2 + s' % 2 * 0x80 + b') % 0x100
  {
    assert (s / 2 + s % 2 * 0x80 + b) % 0x100 == (Rotated(s) + b) % 0x100;
    assert (s' / 2 + s' % 2 * 0x80 + b') % 0x100 == (Rotated(s') + b') % 0x100;
    hide Rotated;
    if s != s' { RotationTells(s, s'); }
    var x: nat, y: nat := Rotated(s) + b, Rotated(s') + b';
    if x < y { ModTells(x, y); } else { ModTells(y, x); }
  }

  // Changing one character of the short name changes the checksum, so a long name never
  // stays tied to an entry renamed in one place.
  lemma {:induction false} SumTellsOne(a: seq<Byte>, b: seq<Byte>, n: nat, i: nat)
    requires i < n <= |a| == |b| && a[i] != b[i] && forall j :: 0 <= j < n && j != i ==> a[j] == b[j]
    ensures SumSfn(a, 0, n) != SumSfn(b, 0, n)
    decreases n
  {
    if i < n - 1 {
      SumTellsOne(a, b, n - 1, i);
    } else {
      SumSame(a, b, n - 1);
    }
    SumStep(SumSfn(a, 0, n - 1), SumSfn(b, 0, n - 1), a[n - 1], b[n - 1]);
  }

  lemma {:induction false} SumSame(a: seq<Byte>, b: seq<Byte>, n: nat)
    requires n <= |a| == |b| && forall j :: 0 <= j < n ==> a[j] == b[j]
    ensures SumSfn(a, 0, n) == SumSfn(b, 0, n)
  {
    if n > 0 { SumSame(a, b, n - 1); }
  }

  // The checksum of "README  TXT".
  lemma SumOfReadme()
    ensures SumSfn([0x52, 0x45, 0x41, 0x44, 0x4D, 0x45, 0x20, 0x20, 0x54, 0x58, 0x54], 0, 11) == 0x73
  {
    var d: seq<Byte> := [0x52, 0x45, 0x41, 0x44, 0x4D, 0x45, 0x20, 0x20, 0x54, 0x58, 0x54];
    assert SumSfn(d, 0, 0) == 0;
    assert SumSfn(d, 0, 1) == 0x52; assert SumSfn(d, 0, 2) == 0x6E; assert SumSfn(d, 0, 3) == 0x78; assert SumSfn(d, 0, 4) == 0x80;
    assert SumSfn(d, 0, 5) == 0x8D; assert SumSfn(d, 0, 6) == 0x0B; assert SumSfn(d, 0, 7) == 0xA5; assert SumSfn(d, 0, 8) == 0xF2;
    assert SumSfn(d, 0, 9) == 0xCD; assert SumSfn(d, 0, 10) == 0x3E; assert SumSfn(d, 0, 11) == 0x73;
  }

  // Units in place at i, in front of the rest of the name, make up the longer rest.
  lemma Joined(buf: seq<Word>, i: nat, u: seq<Word>, rest: seq<Word>)
    requires i + |u| + |rest| < |buf| && buf[i + |u| + |rest|] == 0
    requires buf[i..i + |u|] == u && 0 !in u
    requires buf[i + |u|..i + |u| + |rest|] == rest && 0 !in rest
    ensures buf[i..i + |u + rest|] == u + rest && 0 !in u + rest
  {
    assert buf[i..i + |u + rest|] == buf[i..i + |u|] + buf[i + |u|..i + |u| + |rest|];
  }

  // What an earlier entry leaves alone keeps the rest of the name.
  lemma RestKept(buf: seq<Word>, buf': seq<Word>, j: nat, n: nat)
    requires j + n < |buf| == |buf'| && buf'[j..] == buf[j..]
    ensures buf'[j..j + n] == buf[j..j + n] && buf'[j + n] == buf[j + n]
  {
    assert buf'[j..j + n] == buf'[j..][..n];
    assert buf'[j + n] == buf'[j..][n];
  }

  // Where an accepted slot's units go, and what follows them.
  lemma NextTail(g: Gather, dir: seq<Byte>, d: nat)
    requires d + SZDIRE <= |dir| && Next(g, dir, d).Got?
    ensures Pickable(dir, d)
    ensures var g', z := Next(g, dir, d), ZeroFrom(dir, d, 0);
            && 13 * g'.left == PickOffset(NoLlef(dir[d]))
            && if z < 13 || HasLlef(dir[d]) then g'.tail == Units(dir, d, z)
               else g.Got? && g.left == g'.left + 1 && g'.tail == Units(dir, d, 13) + g.tail
  {
    hide ZeroFrom, UnitAt, Skipped;
    var z := ZeroFrom(dir, d, 0);
    assert Units(dir, d, z) + [] == Units(dir, d, z);
  }

  lemma PickedIsInBuf(g: Gather, dir: seq<Byte>, d: nat, buf: seq<Word>, buf': seq<Word>)
    requires d + SZDIRE <= |dir| && |buf| == |buf'| == MAX_LFN + 1
    requires InBuf(g, buf) && Next(g, dir, d).Got? && Pickable(dir, d) && Picked(dir, d, buf, buf')
    ensures InBuf(Next(g, dir, d), buf')
  {
    hide UnitAt, ZeroFrom, Next, Units, NoLlef, HasLlef, PickOffset, Pickable, Picked, InBuf;
    var i, z := PickOffset(NoLlef(dir[d])), ZeroFrom(dir, d, 0);
    var u, g' := Units(dir, d, z), Next(g, dir, d);
    NextTail(g, dir, d);
    PickedParts(dir, d, buf, buf');
    if z < 13 || HasLlef(dir[d]) {
      Joined(buf', i, u, []);
      assert u + [] == u;
    } else {
      Held(g, buf);
      RestKept(buf, buf', i + 13, |g.tail|);
      Joined(buf', i, u, g.tail);
    }
    Holding(g', buf');
  }

  lemma Held(g: Gather, buf: seq<Word>)
    requires g.Got? && InBuf(g, buf)
    ensures 13 * g.left + |g.tail| < |buf| && buf[13 * g.left + |g.tail|] == 0
    ensures buf[13 * g.left..13 * g.left + |g.tail|] == g.tail && 0 !in g.tail
  {
  }

  lemma Holding(g: Gather, buf: seq<Word>)
    requires g.Got? && 13 * g.left + |g.tail| < |buf| && buf[13 * g.left + |g.tail|] == 0
    requires buf[13 * g.left..13 * g.left + |g.tail|] == g.tail && 0 !in g.tail
    ensures InBuf(g, buf)
  {
  }

  // What an accepted slot leaves in the working buffer.
  lemma PickedParts(dir: seq<Byte>, d: nat, buf: seq<Word>, buf': seq<Word>)
    requires d + SZDIRE <= |dir| && |buf| == |buf'| == MAX_LFN + 1
    requires Pickable(dir, d) && Picked(dir, d, buf, buf')
    ensures var i, z := PickOffset(NoLlef(dir[d])), ZeroFrom(dir, d, 0);
            && z <= 13 && i + z <= |buf'| && buf'[i..i + z] == Units(dir, d, z) && 0 !in Units(dir, d, z)
            && (z < 13 || HasLlef(dir[d]) ==> i + z < |buf'| && buf'[i + z] == 0)
            && (!HasLlef(dir[d]) && i + 13 <= |buf| ==> buf'[i + 13..] == buf[i + 13..])
  {
    hide UnitAt, ZeroFrom, Units, PickOffset, HasLlef, NoLlef;
  }

  // dir_read's ord and sum say the same as the gathered state.
  predicate Matches(g: Gather, ord: Byte, sum: Byte) {
    if g.Got? then ord == g.left < 0xFF && sum == g.sum else ord == 0xFF
  }

  // A long-name slot continues the run exactly when its number and checksum are the
  // expected ones and pick_lfn accepts it.
  lemma NextTakes(g: Gather, dir: seq<Byte>, d: nat, ord: Byte, sum: Byte)
    requires d + SZDIRE <= |dir| && !Skipped(dir, d) && Matches(g, ord, sum)
    ensures var o, s := (if HasLlef(dir[d]) then NoLlef(dir[d]) else ord), if HasLlef(dir[d]) then dir[d + 13] else sum;
            var g' := Next(g, dir, d);
            && (g'.Got? <==> NoLlef(dir[d]) == o && s == dir[d + 13] && Pickable(dir, d))
            && (g'.Got? ==> o > 0 && g'.left == o - 1 < 0xFF && g'.sum == s)
  {
    hide ZeroFrom, UnitAt;
  }

  lemma SkippedLoses(g: Gather, dir: seq<Byte>, d: nat)
    requires d + SZDIRE <= |dir| && Skipped(dir, d)
    ensures Next(g, dir, d) == Lost
    ensures forall buf :: InBuf(Next(g, dir, d), buf)
  {
  }

  lemma LostInBuf(g: Gather, buf: seq<Word>)
    ensures g == Lost ==> InBuf(g, buf)
  {
  }

  lemma HeldInBuf(g: Gather, buf: seq<Word>)
    requires InBuf(g, buf)
    ensures g.Got? && g.left == 0 ==> Holds(buf, g.tail)
  {
  }

  // dir_read: scans the slots from `base` for a short-name entry, and collects the long
  // name stored in front of it.
  method CollectName(dir: array<Byte>, base: nat, n: nat, buf: array<Word>) returns (found: bool, k: nat, has: bool)
    requires base + SZDIRE * n <= dir.Length && buf.Length == MAX_LFN + 1
    modifies buf
    ensures k <= n
    ensures forall j {:trigger base + SZDIRE * j} :: 0 <= j < k ==>
              dir[base + SZDIRE * j] != 0 && !IsSfn(dir[..], base + SZDIRE * j)
    ensures found <==> k < n && IsSfn(dir[..], base + SZDIRE * k)
    ensures !found ==> k == n || dir[base + SZDIRE * k] == 0
    ensures found ==> var g := After(dir[..], base, k);
              && (has <==> g.Got? && g.left == 0 && g.sum == SumSfn(dir[..], base + SZDIRE * k, 11))
              && (has ==> Holds(buf[..], g.tail))
  {
    hide Pickable, Picked, UnitAt, ZeroFrom, PickOffset, Next, InBuf;
    found, has, k := false, false, 0;
    var ord: Byte, sum: Byte := 0xFF, 0xFF;
    ghost var e, g := dir[..], Lost;
    LostInBuf(g, buf[..]);
    while k < n
      invariant k <= n && e == dir[..]
      invariant g == After(e, base, k)
      invariant Matches(g, ord, sum)
      invariant InBuf(g, buf[..])
      invariant forall j {:trigger base + SZDIRE * j} :: 0 <= j < k ==>
                  dir[base + SZDIRE * j] != 0 && !IsSfn(e, base + SZDIRE * j)
    {
      var d := base + SZDIRE * k;
      var b := dir[d];
      if b == 0 { return; }
      var attr := dir[d + 11] % 0x40;
      if b == DDEM || b == 0x2E || attr == 0x08 || attr == 0x28 {
        ord := 0xFF;
        SkippedLoses(g, e, d);
      } else if attr == AM_LFN {
        NextTakes(g, e, d, ord, sum);
        if HasLlef(b) {
          sum := dir[d + 13];
          b := b - LLEF;
          ord := b;
        }
        ghost var before := buf[..];
        var ok := b == ord && sum == dir[d + 13];
        if ok {
          ok := PickLfn(buf, dir, d);
        }
        if ok {
          PickedIsInBuf(g, e, d, before, buf[..]);
        }
        LostInBuf(Next(g, e, d), buf[..]);
        ord := if ok then ord - 1 else 0xFF;
      } else {
        found := true;
        HeldInBuf(g, buf[..]);
        has := !(ord != 0 || sum != SumSfn(dir[..], d, 11));
        return;
      }
      g := Next(g, e, d);
      k := k + 1;
    }
  }
}
