/** Loading a boot image (source/arm9/firm.c): the checks of loadVerifyFirm and the
    section copies of firmLaunchStub, over the memory map of include/mem_map.h. */
module Firm {
  type Byte = x: int | 0 <= x < 256

  const WORD: nat := 0x1_0000_0000

  // include/mem_map.h
  const ITCM: nat := 0x01FF_8000
  const ITCM_SIZE: nat := 0x8000
  const A9_RAM: nat := 0x0800_0000
  const A9_RAM_SIZE: nat := 0x18_0000   // with the extension of the newer model
  const IO_MEM: nat := 0x1000_0000
  const VRAM: nat := 0x1800_0000
  const VRAM_SIZE: nat := 0x60_0000
  const DSP_MEM: nat := 0x1FF0_0000
  const DSP_AXI_SIZE: nat := 0x10_0000  // DSP memory and AXI WRAM, which follows it
  const FCRAM: nat := 0x2000_0000
  const FCRAM_SIZE: nat := 0x1000_0000  // with the extension of the newer model

  const FIRM_LOAD: nat := VRAM + 0x20_0000
  const FIRM_MAX: nat := 0x40_0000
  const HEADER: nat := 0x200

  datatype Range = Range(start: nat, size: nat) {
    function End(): nat { start + size }
    predicate Has(x: nat) { start <= x < start + size }
    predicate Within(r: Range) { r.start <= start && End() <= r.End() }
  }

  const BOOT_WHITELIST: seq<Range> := [
    Range(ITCM, ITCM_SIZE - 0x4800),
    Range(A9_RAM + 0x40, A9_RAM_SIZE - 0x40),
    Range(VRAM, VRAM_SIZE - 0x40_0000),
    Range(DSP_MEM, DSP_AXI_SIZE - 0x220),
    Range(FCRAM, FCRAM_SIZE)]

  const INSTALL_WHITELIST: seq<Range> := [
    Range(ITCM, ITCM_SIZE + ITCM_SIZE),
    Range(A9_RAM, A9_RAM_SIZE),
    Range(IO_MEM, 0x40_0000),
    Range(VRAM, VRAM_SIZE),
    Range(DSP_MEM, DSP_AXI_SIZE)]

  // What launching needs to survive.
  const FIRM_BUFFER := Range(FIRM_LOAD, FIRM_MAX)
  const A9_STUB := Range(ITCM + ITCM_SIZE - 0x200, 0x200)
  const A11_STUB := Range(DSP_MEM + DSP_AXI_SIZE - 0x200, 0x1A0)
  const ARGV := Range(ITCM + 0x7470, 0x120)

  // hashOk: the section's hash matches, or checking is skipped.
  datatype Section = Section(offset: nat, address: nat, size: nat, method_: nat, hashOk: bool) {
    predicate IsWord() { offset < WORD && address < WORD && size < WORD && method_ < WORD }
    function Source(): Range { Range(FIRM_LOAD + offset, size) }
    function Dest(): Range { Range(address, size) }
  }

  datatype Header = Header(magicOk: bool, entry9: nat, sections: seq<Section>) {
    predicate Ok() { |sections| == 4 && forall i :: 0 <= i < 4 ==> sections[i].IsWord() }
  }

  function Whitelist(installMode: bool): seq<Range> {
    if installMode then INSTALL_WHITELIST else BOOT_WHITELIST
  }

  predicate Allowed(s: Section, list: seq<Range>) {
    exists n :: 0 <= n < |list| && s.Dest().Within(list[n])
  }

  // What is wrong with a section; 0: nothing.
  function SectionError(s: Section, firmSize: nat, list: seq<Range>): int {
    if s.size == 0 then 0
    else if s.offset >= firmSize || s.offset < HEADER then -12
    else if s.size >= firmSize || s.size + s.offset > firmSize then -13
    else if s.address + s.size >= WORD then -14
    else if !Allowed(s, list) then -15
    else if !s.hashOk then -16
    else 0
  }

  // The result of the first section in error among the first n.
  function SectionsError(ss: seq<Section>, n: nat, firmSize: nat, list: seq<Range>): int
    requires n <= |ss|
  {
    if n == 0 then 0 else
      var e := SectionsError(ss, n - 1, firmSize, list);
      if e != 0 then e else SectionError(ss[n - 1], firmSize, list)
  }

  function ImageError(h: Header, firmSize: nat, list: seq<Range>): int
    requires h.Ok()
  {
    if firmSize <= HEADER then -9
    else if !h.magicOk then -10
    else if h.entry9 == 0 then -11
    else SectionsError(h.sections, 4, firmSize, list)
  }

  lemma {:induction false} NoSectionError(ss: seq<Section>, n: nat, firmSize: nat, list: seq<Range>)
    requires n <= |ss|
    ensures SectionsError(ss, n, firmSize, list) == 0 <==> forall i :: 0 <= i < n ==> SectionError(ss[i], firmSize, list) == 0
    decreases n
  {
    if n > 0 {
      NoSectionError(ss, n - 1, firmSize, list);
    }
  }

  // A section that takes part in the boot, as it should be: its bytes are in the image
  // behind the header, they go to one of the places on the list, and their hash is right.
  predicate Sound(s: Section, firmSize: nat, list: seq<Range>)
    requires firmSize >= HEADER
  {
    s.size != 0 ==>
      && s.Source().Within(Range(FIRM_LOAD + HEADER, firmSize - HEADER)) && Allowed(s, list)
      && s.hashOk
  }

  lemma SoundIffNoError(s: Section, firmSize: nat, list: seq<Range>)
    requires firmSize > HEADER && s.IsWord() && forall n :: 0 <= n < |list| ==> list[n].End() < WORD
    ensures SectionError(s, firmSize, list) == 0 <==> Sound(s, firmSize, list)
  {
  }

  // An image is accepted exactly when it is longer than its header, has the magic and an
  // ARM9 entry point, and every section is sound.
  lemma AcceptedIff(h: Header, firmSize: nat, installMode: bool)
    requires h.Ok() && firmSize <= FIRM_MAX
    ensures ImageError(h, firmSize, Whitelist(installMode)) == 0 <==>
              && HEADER < firmSize && h.magicOk && h.entry9 != 0
              && forall i :: 0 <= i < 4 ==> Sound(h.sections[i], firmSize, Whitelist(installMode))
  {
    if firmSize > HEADER {
      WhitelistsAreWords();
      var list := Whitelist(installMode);
      NoSectionError(h.sections, 4, firmSize, list);
      forall i | 0 <= i < 4 ensures SectionError(h.sections[i], firmSize, list) == 0 <==> Sound(h.sections[i], firmSize, list) {
        SoundIffNoError(h.sections[i], firmSize, list);
      }
    }
  }

  // A refused section is the first unsound one, and the code tells what is wrong with it.
  ghost predicate FaultAt(h: Header, firmSize: nat, list: seq<Range>, i: nat, res: int)
    requires h.Ok() && firmSize > HEADER
  {
    && i < 4 && (forall j :: 0 <= j < i ==> Sound(h.sections[j], firmSize, list)) && h.sections[i].size != 0
    && var s, image := h.sections[i], Range(FIRM_LOAD + HEADER, firmSize - HEADER);
    && (res == -12 <==> !image.Has(s.Source().start))
    && (res == -13 <==> image.Has(s.Source().start) && !s.Source().Within(image))
    && (res == -14 <==> s.Source().Within(image) && s.Dest().End() > WORD - 1)
    && (res == -15 <==> s.Source().Within(image) && s.Dest().End() <= WORD - 1 && !Allowed(s, list))
    && (res == -16 <==> s.Source().Within(image) && Allowed(s, list) && !s.hashOk)
  }

  lemma {:induction false} FirstFault(h: Header, firmSize: nat, installMode: bool, n: nat)
    requires h.Ok() && HEADER < firmSize <= FIRM_MAX && n <= 4
    ensures var e, list := SectionsError(h.sections, n, firmSize, Whitelist(installMode)), Whitelist(installMode);
            if e == 0 then forall j :: 0 <= j < n ==> Sound(h.sections[j], firmSize, list)
            else -16 <= e <= -12 && exists i: nat :: i < n && FaultAt(h, firmSize, list, i, e)
  {
    WhitelistsAreWords();
    if n > 0 {
      FirstFault(h, firmSize, installMode, n - 1);
      SoundIffNoError(h.sections[n - 1], firmSize, Whitelist(installMode));
      var e := SectionsError(h.sections, n, firmSize, Whitelist(installMode));
      if SectionsError(h.sections, n - 1, firmSize, Whitelist(installMode)) == 0 && e != 0 {
        assert FaultAt(h, firmSize, Whitelist(installMode), n - 1, e);
      }
    }
  }

  // Which result loadVerifyFirm gives for a refused image.
  lemma RefusedBecause(h: Header, firmSize: nat, installMode: bool)
    requires h.Ok() && firmSize <= FIRM_MAX
    ensures var e, list := ImageError(h, firmSize, Whitelist(installMode)), Whitelist(installMode);
            && (e == -9 <==> firmSize <= HEADER)
            && (e == -10 <==> firmSize > HEADER && !h.magicOk)
            && (e == -11 <==> firmSize > HEADER && h.magicOk && h.entry9 == 0)
            && (e !in {0, -9, -10, -11} ==> firmSize > HEADER && -16 <= e <= -12 && exists i: nat :: FaultAt(h, firmSize, list, i, e))
  {
    if firmSize > HEADER && h.magicOk && h.entry9 != 0 {
      FirstFault(h, firmSize, installMode, 4);
    }
  }

  // The places a section may go to.
  predicate Between(s: Section, lo: nat, hi: nat) {
    lo <= s.address && s.address + s.size <= hi
  }

  lemma BootPlaces(s: Section)
    ensures Allowed(s, BOOT_WHITELIST) <==>
              || Between(s, 0x01FF_8000, 0x01FF_B800) || Between(s, 0x0800_0040, 0x0818_0000)
              || Between(s, 0x1800_0000, 0x1820_0000) || Between(s, 0x1FF0_0000, 0x1FFF_FDE0)
              || Between(s, 0x2000_0000, 0x3000_0000)
  {
    var w := BOOT_WHITELIST;
    assert Allowed(s, w) <==> s.Dest().Within(w[0]) || s.Dest().Within(w[1]) || s.Dest().Within(w[2])
                              || s.Dest().Within(w[3]) || s.Dest().Within(w[4]);
  }

  lemma InstallPlaces(s: Section)
    ensures Allowed(s, INSTALL_WHITELIST) <==>
              || Between(s, 0x01FF_8000, 0x0200_8000) || Between(s, 0x0800_0000, 0x0818_0000)
              || Between(s, 0x1000_0000, 0x1040_0000) || Between(s, 0x1800_0000, 0x1860_0000)
              || Between(s, 0x1FF0_0000, 0x2000_0000)
  {
    var w := INSTALL_WHITELIST;
    assert Allowed(s, w) <==> s.Dest().Within(w[0]) || s.Dest().Within(w[1]) || s.Dest().Within(w[2])
                              || s.Dest().Within(w[3]) || s.Dest().Within(w[4]);
  }

  // loadVerifyFirm's whitelist scan for one section, in 32-bit arithmetic.
  method CheckRange(s: Section, list: seq<Range>) returns (res: int)
    requires s.IsWord() && |list| > 0 && forall n :: 0 <= n < |list| ==> list[n].End() < WORD
    ensures res == if s.address + s.size >= WORD then -14 else if Allowed(s, list) then 0 else -15
  {
    res := -15;
    for n := 0 to |list|
      invariant res == -15
      invariant n > 0 ==> s.address + s.size < WORD
      invariant forall k :: 0 <= k < n ==> !s.Dest().Within(list[k])
    {
      if s.address > WORD - 1 - s.size { return -14; }
      var end, limit := (s.address + s.size) % WORD, (list[n].start + list[n].size) % WORD;
      assert end == s.Dest().End() && limit == list[n].End();
      if s.address >= list[n].start && end <= limit { return 0; }
    }
  }

  // The checks of loadVerifyFirm once the image is in the buffer.
  method CheckImage(h: Header, firmSize: nat, installMode: bool) returns (res: int)
    requires h.Ok() && firmSize <= FIRM_MAX
    ensures res == ImageError(h, firmSize, Whitelist(installMode))
  {
    if firmSize <= HEADER { return -9; }
    if !h.magicOk { return -10; }
    if h.entry9 == 0 { return -11; }
    var list := Whitelist(installMode);
    WhitelistsAreWords();
    for i := 0 to 4
      invariant SectionsError(h.sections, i, firmSize, list) == 0
    {
      res := CheckSection(h.sections[i], firmSize, list);
      SectionsFail(h.sections, i + 1, 4, firmSize, list);
      if res != 0 { return; }
    }
    res := 0;
  }

  method CheckSection(s: Section, firmSize: nat, list: seq<Range>) returns (res: int)
    requires s.IsWord() && firmSize <= FIRM_MAX && |list| > 0 && forall n :: 0 <= n < |list| ==> list[n].End() < WORD
    ensures res == SectionError(s, firmSize, list)
  {
    if s.size == 0 { return 0; }
    if s.offset >= firmSize || s.offset < HEADER { return -12; }
    if s.size >= firmSize || (s.size + s.offset) % WORD > firmSize { return -13; }
    res := CheckRange(s, list);
    if res != 0 { return; }
    if !s.hashOk { return -16; }
  }

  lemma WhitelistsAreWords()
    ensures forall n :: 0 <= n < |BOOT_WHITELIST| ==> BOOT_WHITELIST[n].End() < WORD
    ensures forall n :: 0 <= n < |INSTALL_WHITELIST| ==> INSTALL_WHITELIST[n].End() < WORD
  {
  }

  lemma {:induction false} SectionsFail(ss: seq<Section>, n: nat, m: nat, firmSize: nat, list: seq<Range>)
    requires n <= m <= |ss|
    ensures SectionsError(ss, n, firmSize, list) != 0 ==> SectionsError(ss, m, firmSize, list) == SectionsError(ss, n, firmSize, list)
    decreases m
  {
    if n < m { SectionsFail(ss, n, m - 1, firmSize, list); }
  }

  // -- What acceptance means --

  predicate Apart(r: Range, s: Range) {
    r.End() <= s.start || s.End() <= r.start
  }

  // Accepted for booting, every section comes from the loaded image and goes where
  // neither the image, nor the launch stubs, nor the arguments are.
  lemma AcceptedIsSafe(h: Header, firmSize: nat, i: nat)
    requires h.Ok() && firmSize <= FIRM_MAX && ImageError(h, firmSize, BOOT_WHITELIST) == 0
    requires i < 4 && h.sections[i].size != 0
    ensures var s := h.sections[i];
            && s.Source().Within(Range(FIRM_LOAD + HEADER, firmSize - HEADER)) && Allowed(s, BOOT_WHITELIST)
            && Apart(s.Dest(), FIRM_BUFFER) && Apart(s.Dest(), A9_STUB) && Apart(s.Dest(), A11_STUB) && Apart(s.Dest(), ARGV)
  {
    NoSectionError(h.sections, 4, firmSize, BOOT_WHITELIST);
    var s := h.sections[i];
    assert SectionError(s, firmSize, BOOT_WHITELIST) == 0;
    WhitelistIsApart(s);
  }

  lemma WhitelistIsApart(s: Section)
    requires Allowed(s, BOOT_WHITELIST)
    ensures Apart(s.Dest(), FIRM_BUFFER) && Apart(s.Dest(), A9_STUB) && Apart(s.Dest(), A11_STUB) && Apart(s.Dest(), ARGV)
  {
    var n :| 0 <= n < |BOOT_WHITELIST| && s.Dest().Within(BOOT_WHITELIST[n]);
    if n == 0 {} else if n == 1 {} else if n == 2 {} else if n == 3 {} else {}
  }

  // The whitelist for installing gives no such guarantee: this image passes every check
  // and its one section lands on the image itself. For booting it is refused.
  lemma InstallMayOverlap()
    ensures var s, none := Section(HEADER, FIRM_LOAD, 0x10, 2, true), Section(0, 0, 0, 0, true);
            var h := Header(true, FIRM_LOAD, [s, none, none, none]);
            && h.Ok() && ImageError(h, 0x400, INSTALL_WHITELIST) == 0 && ImageError(h, 0x400, BOOT_WHITELIST) == -15
            && s.Dest().Within(FIRM_BUFFER)
  {
    var s, none := Section(HEADER, FIRM_LOAD, 0x10, 2, true), Section(0, 0, 0, 0, true);
    var ss := [s, none, none, none];
    assert s.Dest().Within(INSTALL_WHITELIST[3]);
    NoSectionError(ss, 4, 0x400, INSTALL_WHITELIST);
    assert !Allowed(s, BOOT_WHITELIST) by {
      if Allowed(s, BOOT_WHITELIST) { WhitelistIsApart(s); }
    }
    assert SectionsError(ss, 0, 0x400, BOOT_WHITELIST) == 0;
    assert SectionsError(ss, 1, 0x400, BOOT_WHITELIST) == -15;
    SectionsFail(ss, 1, 4, 0x400, BOOT_WHITELIST);
  }

  // -- Copying --

  // m with the len bytes at src copied to dst.
  function Blit(m: seq<Byte>, dst: nat, src: nat, len: nat): (r: seq<Byte>)
    requires dst + len <= |m| && src + len <= |m|
    ensures |r| == |m|
    ensures forall x {:trigger r[x]} :: 0 <= x < |m| ==> r[x] == if dst <= x < dst + len then m[src + (x - dst)] else m[x]
  {
    m[..dst] + m[src..src + len] + m[dst + len..]
  }

  // Bytes the CPU copy of a section moves: words, in groups of four.
  function CpuBytes(size: nat): nat {
    (size / 4 + 3) / 4 * 16
  }

  // Bytes the copy engine moves: whole words.
  function EngineBytes(size: nat): nat {
    size / 4 * 4
  }

  // The CPU copy stays within its section exactly when the size is whole groups, up to
  // three odd bytes that it leaves out.
  lemma CpuBytesFit(size: nat)
    ensures CpuBytes(size) == size <==> size % 16 == 0
    ensures CpuBytes(size) <= size <==> size % 16 < 4
  {
    var q, r := size / 16, size % 16;
    assert size / 4 == 4 * q + r / 4;
    assert (size / 4 + 3) / 4 == q + (r / 4 + 3) / 4;
  }

  // dst[n] = src[n] for one word
  method CopyWord(mem: array<Byte>, dst: nat, src: nat)
    requires dst + 4 <= mem.Length && src + 4 <= mem.Length
    modifies mem
    ensures mem[..] == Blit(old(mem[..]), dst, src, 4)
  {
    mem[dst], mem[dst + 1], mem[dst + 2], mem[dst + 3] := mem[src], mem[src + 1], mem[src + 2], mem[src + 3];
  }

  lemma BlitMore(m: seq<Byte>, dst: nat, src: nat, n: nat, k: nat)
    requires dst + n + k <= |m| && src + n + k <= |m| && Apart(Range(dst, n + k), Range(src, n + k))
    ensures Blit(Blit(m, dst, src, n), dst + n, src + n, k) == Blit(m, dst, src, n + k)
  {
    hide Blit;
  }

  method CopyGroup(mem: array<Byte>, dst: nat, src: nat)
    requires dst + 16 <= mem.Length && src + 16 <= mem.Length && Apart(Range(dst, 16), Range(src, 16))
    modifies mem
    ensures mem[..] == Blit(old(mem[..]), dst, src, 16)
  {
    hide Blit;
    ghost var m := mem[..];
    CopyWord(mem, dst, src);
    CopyWord(mem, dst + 4, src + 4);
    BlitMore(m, dst, src, 4, 4);
    CopyWord(mem, dst + 8, src + 8);
    BlitMore(m, dst, src, 8, 4);
    CopyWord(mem, dst + 12, src + 12);
    BlitMore(m, dst, src, 12, 4);
  }

  // Copy method 2.
  method CpuCopy(mem: array<Byte>, dst: nat, src: nat, size: nat)
    requires dst + CpuBytes(size) <= mem.Length && src + CpuBytes(size) <= mem.Length
    requires Apart(Range(dst, CpuBytes(size)), Range(src, CpuBytes(size)))
    modifies mem
    ensures mem[..] == Blit(old(mem[..]), dst, src, CpuBytes(size))
  {
    hide Blit;
    var n := 0;
    ghost var m := mem[..];
    assert Blit(m, dst, src, 0) == m;
    while n < size / 4
      invariant n % 4 == 0 && n * 4 <= CpuBytes(size) && mem[..] == Blit(m, dst, src, 4 * n)
    {
      CopyGroup(mem, dst + 4 * n, src + 4 * n);
      BlitMore(m, dst, src, 4 * n, 16);
      n := n + 4;
    }
  }

  // The copy engine's work on one channel.
  method EngineCopy(mem: array<Byte>, dst: nat, src: nat, size: nat)
    requires dst + EngineBytes(size) <= mem.Length && src + EngineBytes(size) <= mem.Length
    requires Apart(Range(dst, EngineBytes(size)), Range(src, EngineBytes(size)))
    modifies mem
    ensures mem[..] == Blit(old(mem[..]), dst, src, EngineBytes(size))
  {
    hide Blit;
    ghost var m := mem[..];
    assert Blit(m, dst, src, 0) == m;
    for n := 0 to size / 4
      invariant mem[..] == Blit(m, dst, src, 4 * n)
    {
      CopyWord(mem, dst + 4 * n, src + 4 * n);
      BlitMore(m, dst, src, 4 * n, 4);
    }
  }

  // What is copied of a section: by the copy engine whole words, by the CPU whole groups.
  function Moved(s: Section): nat {
    if s.method_ < 2 then EngineBytes(s.size) else CpuBytes(s.size)
  }

  // An image accepted for booting whose sections go to different places; those the CPU
  // copies leave less than a word behind their last whole group, so that it stays inside.
  ghost predicate Bootable(h: Header, firmSize: nat) {
    && h.Ok() && firmSize <= FIRM_MAX && ImageError(h, firmSize, BOOT_WHITELIST) == 0
    && (forall i :: 0 <= i < 4 && h.sections[i].method_ >= 2 ==> h.sections[i].size % 16 < 4)
    && (forall i, j :: 0 <= i < j < 4 && h.sections[i].size != 0 && h.sections[j].size != 0 ==>
          Apart(h.sections[i].Dest(), h.sections[j].Dest()))
  }

  predicate Wanted(h: Header, i: nat)
    requires h.Ok()
  {
    i < 4 && h.sections[i].size != 0
  }

  // The copy engine copies section i.
  predicate ByEngine(h: Header, i: nat)
    requires h.Ok()
  {
    i < 4 && h.sections[i].method_ < 2
  }

  // The sections in `done` are in place; everything outside their destinations is as
  // it was.
  ghost predicate Progress(h: Header, m0: seq<Byte>, m: seq<Byte>, done: set<nat>)
    requires h.Ok()
  {
    && |m0| == |m| == WORD
    && (forall i :: i in done ==> Wanted(h, i) && InPlace(h, i, m0, m))
    && (forall x {:trigger m[x]} :: 0 <= x < WORD && (forall i :: i in done ==> i < 4 && !h.sections[i].Dest().Has(x)) ==> m[x] == m0[x])
  }

  ghost predicate InPlace(h: Header, i: nat, m0: seq<Byte>, m: seq<Byte>)
    requires h.Ok() && i < 4 && |m0| == |m| == WORD
  {
    var s := h.sections[i];
    s.address + s.size <= WORD && FIRM_LOAD + s.offset + s.size <= WORD && Moved(s) <= s.size
    && forall x {:trigger m[x]} :: s.address <= x < s.address + Moved(s) ==> m[x] == m0[FIRM_LOAD + s.offset + (x - s.address)]
  }

  // A section arrives whole exactly when its size is whole words, or whole groups.
  lemma MovedWhole(s: Section)
    ensures Moved(s) == s.size <==> s.size % (if s.method_ < 2 then 4 else 16) == 0
  {
    CpuBytesFit(s.size);
  }

  lemma MovedFits(h: Header, firmSize: nat, i: nat)
    requires Bootable(h, firmSize) && i < 4
    ensures Moved(h.sections[i]) <= h.sections[i].size
  {
    CpuBytesFit(h.sections[i].size);
  }

  // Copying one more section.
  lemma CopyProgress(h: Header, firmSize: nat, m0: seq<Byte>, m: seq<Byte>, done: set<nat>, i: nat)
    requires Bootable(h, firmSize) && Progress(h, m0, m, done) && Wanted(h, i) && i !in done
    ensures var s := h.sections[i];
            && s.address + s.size <= WORD && FIRM_LOAD + s.offset + s.size <= WORD && Apart(s.Dest(), s.Source())
            && Moved(s) <= s.size
            && Progress(h, m0, Blit(m, s.address, FIRM_LOAD + s.offset, Moved(s)), done + {i})
  {
    hide Bootable, ImageError, Allowed, InPlace;
    BootableHeader(h, firmSize);
    var s := h.sections[i];
    Placed(h, firmSize, m0, m, done, i);
    var m' := Blit(m, s.address, FIRM_LOAD + s.offset, Moved(s));
    forall j | j in done ensures Wanted(h, j) && InPlace(h, j, m0, m') { OthersStay(h, firmSize, m0, m, m', i, j); }
  }

  lemma Placed(h: Header, firmSize: nat, m0: seq<Byte>, m: seq<Byte>, done: set<nat>, i: nat)
    requires Bootable(h, firmSize) && Progress(h, m0, m, done) && Wanted(h, i) && i !in done
    ensures var s := h.sections[i];
            && s.address + s.size <= WORD && FIRM_LOAD + s.offset + s.size <= WORD && Apart(s.Dest(), s.Source())
            && Moved(s) <= s.size
            && InPlace(h, i, m0, Blit(m, s.address, FIRM_LOAD + s.offset, Moved(s)))
  {
    hide Progress;
    AcceptedIsSafe(h, firmSize, i);
    var s := h.sections[i];
    AllowedInMemory(s);
    LengthOf(h, m0, m, done);
    MovedFits(h, firmSize, i);
    var m' := Blit(m, s.address, FIRM_LOAD + s.offset, Moved(s));
    forall x | s.address <= x < s.address + Moved(s) ensures m'[x] == m0[FIRM_LOAD + s.offset + (x - s.address)] {
      SourceUntouched(h, firmSize, m0, m, done, FIRM_LOAD + s.offset + (x - s.address));
    }
  }

  lemma LengthOf(h: Header, m0: seq<Byte>, m: seq<Byte>, done: set<nat>)
    requires h.Ok() && Progress(h, m0, m, done)
    ensures |m0| == |m| == WORD
  {
  }

  lemma AllowedInMemory(s: Section)
    requires Allowed(s, BOOT_WHITELIST)
    ensures s.Dest().End() <= WORD
  {
    WhitelistsAreWords();
    var n :| 0 <= n < |BOOT_WHITELIST| && s.Dest().Within(BOOT_WHITELIST[n]);
  }

  // The image itself is never overwritten.
  lemma SourceUntouched(h: Header, firmSize: nat, m0: seq<Byte>, m: seq<Byte>, done: set<nat>, x: nat)
    requires Bootable(h, firmSize) && Progress(h, m0, m, done) && FIRM_BUFFER.Has(x)
    ensures x < |m| == |m0| && m[x] == m0[x]
  {
    forall j | j in done ensures j < 4 && !h.sections[j].Dest().Has(x) { AcceptedIsSafe(h, firmSize, j); }
  }

  lemma OthersStay(h: Header, firmSize: nat, m0: seq<Byte>, m: seq<Byte>, m': seq<Byte>, i: nat, j: nat)
    requires Bootable(h, firmSize) && Wanted(h, i) && Wanted(h, j) && i != j && |m0| == |m| == |m'| == WORD && InPlace(h, j, m0, m)
    requires forall x {:trigger m'[x]} :: 0 <= x < WORD && !h.sections[i].Dest().Has(x) ==> m'[x] == m[x]
    ensures InPlace(h, j, m0, m')
  {
    assert Apart(h.sections[i].Dest(), h.sections[j].Dest());
  }

  // One section, by the copy engine or by the CPU.
  method CopySection(mem: array<Byte>, h: Header, firmSize: nat, i: nat, engine: bool, ghost m0: seq<Byte>, ghost done: set<nat>)
    requires mem.Length == WORD && Bootable(h, firmSize) && Wanted(h, i) && i !in done && Progress(h, m0, mem[..], done)
    requires engine <==> ByEngine(h, i)
    modifies mem
    ensures Progress(h, m0, mem[..], done + {i})
  {
    hide Blit, InPlace, Progress, CpuBytes, EngineBytes;
    var s := h.sections[i];
    CopyProgress(h, firmSize, m0, mem[..], done, i);
    if engine {
      EngineCopy(mem, s.address, FIRM_LOAD + s.offset, s.size);
    } else {
      CpuCopy(mem, s.address, FIRM_LOAD + s.offset, s.size);
    }
  }

  // The stub's loop over the sections. The engine's channels finish at any time; the stub
  // waits for all of them.
  method CopyAll(mem: array<Byte>, h: Header, firmSize: nat) returns (ghost done: set<nat>)
    requires mem.Length == WORD && Bootable(h, firmSize)
    modifies mem
    ensures h.Ok() && Progress(h, old(mem[..]), mem[..], done)
    ensures forall k: nat :: k < 4 && Wanted(h, k) ==> k in done
  {
    hide Bootable, Blit, InPlace, Progress, CpuBytes, EngineBytes, Moved, Wanted, ByEngine;
    var i, pending: set<nat> := 0, {};
    ghost var m0 := mem[..];
    done := {};
    BootableHeader(h, firmSize);
    NothingDone(h, m0);
    while i < 4 || pending != {}
      invariant i <= 4 && Progress(h, m0, mem[..], done)
      invariant pending !! done && forall k :: k in pending ==> Wanted(h, k) && ByEngine(h, k) && k < i
      invariant forall k :: k in done ==> k < i
      invariant forall k: nat :: k < i && Wanted(h, k) ==> k in pending || k in done
      decreases 2 * (4 - i) + |pending|
    {
      var some: bool := *;
      if pending != {} && (i == 4 || some) {
        var c :| c in pending;
        CopySection(mem, h, firmSize, c, true, m0, done);
        pending, done := pending - {c}, done + {c};
      } else {
        var s := h.sections[i];
        WantedIs(h, i);
        if s.size != 0 {
          if s.method_ < 2 {
            pending := pending + {i};
          } else {
            CopySection(mem, h, firmSize, i, false, m0, done);
            done := done + {i};
          }
        }
        i := i + 1;
      }
    }
  }

  // firmLaunchStub's copies. Every section ends up in place and nothing else changes.
  method CopySections(mem: array<Byte>, h: Header, firmSize: nat)
    requires mem.Length == WORD && Bootable(h, firmSize)
    modifies mem
    ensures forall i: nat :: Wanted(h, i) ==> InPlace(h, i, old(mem[..]), mem[..])
    ensures forall x {:trigger mem[..][x]} :: 0 <= x < WORD && (forall i :: 0 <= i < 4 ==> !h.sections[i].Dest().Has(x)) ==>
              mem[..][x] == old(mem[..])[x]
  {
    hide Bootable, Blit, InPlace, Progress, CpuBytes, EngineBytes, Moved, Wanted, ByEngine, Section.Dest;
    ghost var m0 := mem[..];
    BootableHeader(h, firmSize);
    ghost var done := CopyAll(mem, h, firmSize);
    WantedOnlyFour(h);
    AllDone(h, m0, mem[..], done);
  }

  lemma BootableHeader(h: Header, firmSize: nat)
    requires Bootable(h, firmSize)
    ensures h.Ok()
  {
  }

  lemma WantedIs(h: Header, i: nat)
    requires h.Ok() && i < 4
    ensures Wanted(h, i) <==> h.sections[i].size != 0
    ensures ByEngine(h, i) <==> h.sections[i].method_ < 2
  {
  }

  lemma WantedOnlyFour(h: Header)
    requires h.Ok()
    ensures forall i: nat :: Wanted(h, i) ==> i < 4
  {
  }

  lemma NothingDone(h: Header, m: seq<Byte>)
    requires h.Ok() && |m| == WORD
    ensures Progress(h, m, m, {})
  {
  }

  lemma AllDone(h: Header, m0: seq<Byte>, m: seq<Byte>, done: set<nat>)
    requires h.Ok() && Progress(h, m0, m, done)
    ensures |m0| == |m| == WORD && forall i :: i in done ==> Wanted(h, i) && InPlace(h, i, m0, m)
    ensures forall x {:trigger m[x]} :: 0 <= x < WORD && (forall i :: 0 <= i < 4 ==> !h.sections[i].Dest().Has(x)) ==> m[x] == m0[x]
  {
  }

  // In particular the image, both stubs and the arguments survive the copies.
  lemma LaunchDataSurvives(h: Header, firmSize: nat, x: nat)
    requires Bootable(h, firmSize) && (FIRM_BUFFER.Has(x) || A9_STUB.Has(x) || A11_STUB.Has(x) || ARGV.Has(x))
    ensures forall i :: 0 <= i < 4 ==> !h.sections[i].Dest().Has(x)
  {
    forall i | 0 <= i < 4 ensures !h.sections[i].Dest().Has(x) {
      if h.sections[i].size != 0 { AcceptedIsSafe(h, firmSize, i); }
    }
  }

  // -- firm_size --

  // The scan goes backwards and looks only at sections that lie behind all those
  // looked at before.
  method FirmSize(h: Header) returns (ok: bool, size: nat)
    requires h.Ok()
    ensures ok ==> HEADER <= size <= FIRM_MAX
    ensures ok ==> forall i :: 0 <= i < 4 && Leads(h.sections, i) ==> h.sections[i].offset + h.sections[i].size <= size
    ensures ok ==> size == HEADER || exists i :: 0 <= i < 4 && Leads(h.sections, i) && h.sections[i].offset + h.sections[i].size == size
    ensures !ok <==> exists i :: 0 <= i < 4 && Leads(h.sections, i) && TooBig(h.sections[i])
    ensures ok ==> (Furthest(h.sections, size) <==> LeadersReach(h.sections))
  {
    var curLen, curOffset := HEADER, 0;
    size := 0;
    var i := 3;
    while i >= 0
      invariant -1 <= i < 4 && HEADER <= curLen <= FIRM_MAX && curOffset < FIRM_MAX
      invariant forall j :: i < j < 4 && h.sections[j].size != 0 ==> h.sections[j].offset <= curOffset
      invariant curOffset == 0 || exists j :: i < j < 4 && h.sections[j].size != 0 && h.sections[j].offset == curOffset
      invariant forall j :: i < j < 4 && Leads(h.sections, j) ==> h.sections[j].offset + h.sections[j].size <= curLen && !TooBig(h.sections[j])
      invariant curLen == HEADER || exists j :: i < j < 4 && Leads(h.sections, j) && h.sections[j].offset + h.sections[j].size == curLen
    {
      var s := h.sections[i];
      if s.size != 0 && s.offset > curOffset {
        assert Leads(h.sections, i);
        curOffset := s.offset;
        if s.size > FIRM_MAX || curOffset >= FIRM_MAX { return false, 0; }
        if curLen < curOffset + s.size { curLen := curOffset + s.size; }
        if curLen > FIRM_MAX { return false, 0; }
      }
      i := i - 1;
    }
    return true, curLen;
  }

  // The end of the image: no section ends behind it, and one ends there unless there is
  // only the header.
  predicate Furthest(ss: seq<Section>, size: nat)
    requires |ss| == 4
  {
    && (forall i :: 0 <= i < 4 && ss[i].size != 0 ==> ss[i].offset + ss[i].size <= size)
    && (size == HEADER || exists i :: 0 <= i < 4 && ss[i].size != 0 && ss[i].offset + ss[i].size == size)
  }

  // Every section that the scan passes over ends inside the header or in front of the
  // end of one that it looks at.
  predicate LeadersReach(ss: seq<Section>)
    requires |ss| == 4
  {
    forall i :: 0 <= i < 4 && ss[i].size != 0 && !Leads(ss, i) ==>
      ss[i].offset + ss[i].size <= HEADER
      || exists j :: 0 <= j < 4 && Leads(ss, j) && ss[i].offset + ss[i].size <= ss[j].offset + ss[j].size
  }

  // Sections that share no byte of the image do, in whatever order they come.
  lemma SeparateReach(ss: seq<Section>)
    requires |ss| == 4 && (forall i :: 0 <= i < 4 && ss[i].size != 0 ==> ss[i].offset > 0)
    requires forall i, j :: 0 <= i < j < 4 && ss[i].size != 0 && ss[j].size != 0 ==>
               Apart(Range(ss[i].offset, ss[i].size), Range(ss[j].offset, ss[j].size))
    ensures LeadersReach(ss)
  {
    forall i | 0 <= i < 4 && ss[i].size != 0
      ensures exists j :: i <= j < 4 && Leads(ss, j) && ss[i].offset + ss[i].size <= ss[j].offset + ss[j].size
    {
      LeaderBehind(ss, i);
    }
  }

  lemma {:induction false} LeaderBehind(ss: seq<Section>, i: nat)
    requires i < |ss| == 4 && ss[i].size != 0 && (forall i :: 0 <= i < 4 && ss[i].size != 0 ==> ss[i].offset > 0)
    requires forall i, j :: 0 <= i < j < 4 && ss[i].size != 0 && ss[j].size != 0 ==>
               Apart(Range(ss[i].offset, ss[i].size), Range(ss[j].offset, ss[j].size))
    ensures exists j :: i <= j < 4 && Leads(ss, j) && ss[i].offset + ss[i].size <= ss[j].offset + ss[j].size
    decreases 4 - i
  {
    if !Leads(ss, i) {
      var j: nat :| i < j < 4 && ss[j].size != 0 && ss[j].offset >= ss[i].offset;
      assert Apart(Range(ss[i].offset, ss[i].size), Range(ss[j].offset, ss[j].size));
      LeaderBehind(ss, j);
    }
  }

  // Otherwise the size may be short: a section inside another one hides its end.
  lemma HiddenEnd()
    ensures var none := Section(0, 0, 0, 0, true);
            var ss := [Section(0x200, 0, 0x1000, 2, true), Section(0x400, 0, 0x10, 2, true), none, none];
            !LeadersReach(ss) && Leads(ss, 1) && !Leads(ss, 0)
  {
    var none := Section(0, 0, 0, 0, true);
    var ss := [Section(0x200, 0, 0x1000, 2, true), Section(0x400, 0, 0x10, 2, true), none, none];
    assert ss[1].offset >= ss[0].offset && ss[1].size != 0;
    forall j | 0 <= j < 4 && Leads(ss, j) ensures ss[j].offset + ss[j].size < 0x1200 {}
  }

  // Section i is not empty and starts behind every later one.
  predicate Leads(ss: seq<Section>, i: nat)
    requires i < |ss| == 4
  {
    ss[i].size != 0 && ss[i].offset > 0 && forall j :: i < j < 4 && ss[j].size != 0 ==> ss[j].offset < ss[i].offset
  }

  predicate TooBig(s: Section) {
    s.size > FIRM_MAX || s.offset >= FIRM_MAX || s.offset + s.size > FIRM_MAX
  }
}
