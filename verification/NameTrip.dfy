/** The long-name round trip: the listing of a stored name against the path segment it
    was created from, for every segment create_name accepts. */
module NameTrip {
  import opened Disk
  import opened Utf
  import opened Lfn
  import opened LfnRead
  import opened LfnKeep
  import opened LongName

  // The segment comes back unchanged: it is in shortest form, ends in no dot or space, has
  // no misplaced filler value and fits the caller's buffer.
  ghost predicate Durable(path: seq<Byte>, start: nat, end: nat, cps: seq<CodePoint>)
    requires start <= end <= |path|
  {
    && path[start..end] == Utf8s(cps)
    && (cps != [] ==> cps[|cps| - 1] != 0x20 && cps[|cps| - 1] != 0x2E)
    && Keeps(Utf16s(cps))
    && end - start <= LFN_BUF
  }

  lemma LastUnit(cps: seq<CodePoint>, c: int)
    requires cps != [] && c in {0x20, 0x2E}
    ensures Utf16s(cps) != []
    ensures Utf16s(cps)[|Utf16s(cps)| - 1] == c <==> cps[|cps| - 1] == c
  {
    var n := |cps| - 1;
    Utf16sLast(cps[..n], cps[n]);
    assert cps[..n] + [cps[n]] == cps;
  }

  lemma UntrimmedIff(cps: seq<CodePoint>)
    requires cps != []
    ensures Trim(Utf16s(cps)) == Utf16s(cps) <==> cps[|cps| - 1] != 0x20 && cps[|cps| - 1] != 0x2E
  {
    hide Utf16s, Trim;
    LastUnit(cps, 0x20);
    LastUnit(cps, 0x2E);
    TrimStep(Utf16s(cps));
  }

  // Filler never stands in for a trimmed dot or space.
  lemma SpeltOfTrimmed(u: seq<Word>)
    requires Spelt(Trim(u)) == u
    ensures Trim(u) == u && Keeps(u)
  {
    hide Trim, Keeps;
    var t := Trim(u);
    if |t| < |u| {
      SpeltTail(t, |u| - 1);
    }
    SpeltIsName(u);
  }

  lemma SpeltTail(t: seq<Word>, j: nat)
    requires |t| <= j < |Spelt(t)|
    ensures Spelt(t)[j] == FILL
  {
  }

  lemma SameText(a: seq<CodePoint>, b: seq<CodePoint>)
    requires Utf16s(a) == Utf16s(b)
    ensures a == b
  {
    assert Utf16s(a) + [] == Utf16s(b);
    Utf16Prefix(a, [], b);
    assert Utf16s(b) + [] == Utf16s(a);
    Utf16Prefix(b, [], a);
  }

  // A durable segment is listed as itself.
  lemma DurableIsListed(path: seq<Byte>, start: nat, end: nat, cps: seq<CodePoint>,
                        listed: seq<Byte>, back: seq<CodePoint>)
    requires start <= end <= |path| && Durable(path, start, end, cps)
    requires Trim(Utf16s(cps)) != []
    requires listed != [] ==> Utf16s(back) == Spelt(Trim(Utf16s(cps))) && listed == Utf8s(back)
    requires listed == [] ==> Spelt(Trim(Utf16s(cps))) == [] || NoListing(Spelt(Trim(Utf16s(cps))))
                              || |Spelt(Trim(Utf16s(cps)))| > MAX_LFN
    requires |Utf16s(cps)| <= MAX_LFN
    ensures listed == path[start..end]
  {
    hide Utf16s, Trim, Keeps;
    assert cps != [] by { EmptyUnits(); }
    UntrimmedIff(cps);
    SpeltIsName(Utf16s(cps));
    if listed != [] {
      SameText(back, cps);
    }
  }

  // Only a durable segment is listed as itself.
  lemma ListedIsDurable(path: seq<Byte>, start: nat, end: nat, cps: seq<CodePoint>,
                        listed: seq<Byte>, back: seq<CodePoint>)
    requires start <= end <= |path| && Reads(path, start, end, cps)
    requires Utf16s(back) == Spelt(Trim(Utf16s(cps))) && listed == Utf8s(back) && 0 < |listed| <= LFN_BUF
    requires listed == path[start..end]
    ensures Durable(path, start, end, cps)
  {
    hide Utf16s, Utf8s, Trim, Keeps, Reads;
    assert HoldsAt(path, start, Utf8s(back));
    ShortestReads(path, start, back);
    OneReading(path, start, end, back, cps);
    SpeltOfTrimmed(Utf16s(cps));
    if cps != [] {
      UntrimmedIff(cps);
    }
  }

  method CopyEntry(dir: array<Byte>, d: nat, entry: seq<Byte>)
    requires |entry| == SZDIRE && d + SZDIRE <= dir.Length
    modifies dir
    ensures dir[..][d..d + SZDIRE] == entry
    ensures forall i :: 0 <= i < dir.Length && !(d <= i < d + SZDIRE) ==> dir[i] == old(dir[i])
  {
    for k := 0 to SZDIRE
      invariant forall i :: 0 <= i < dir.Length && !(d <= i < d + SZDIRE) ==> dir[i] == old(dir[i])
      invariant forall i :: 0 <= i < k ==> dir[d + i] == entry[i]
    {
      dir[d + k] := entry[k];
    }
    assert forall i {:trigger entry[i]} :: 0 <= i < SZDIRE ==> dir[..][d..d + SZDIRE][i] == dir[d + i] == entry[i];
  }

  lemma {:induction false} SumMoves(a: seq<Byte>, d: nat, b: seq<Byte>, n: nat)
    requires d + n <= |a| && n <= |b| && forall i :: 0 <= i < n ==> a[d + i] == b[i]
    ensures SumSfn(a, d, n) == SumSfn(b, 0, n)
  {
    if n > 0 {
      SumMoves(a, d, b, n - 1);
      assert a[d + (n - 1)] == b[n - 1];
    }
  }

  // The short-name entry behind the stored parts is the one the search ends at, and ties
  // the gathered name to it.
  lemma FoundAtEnd(dir: seq<Byte>, base: nat, name: seq<Word>, sfn: seq<Byte>, k: nat, found: bool)
    requires 0 < |name| <= MAX_LFN && |dir| == base + SZDIRE * 21 && |sfn| == SZDIRE && IsSfn(sfn, 0)
    requires AreParts(dir, base, name, Parts(|name|), SumSfn(sfn, 0, 11))
    requires dir[base + SZDIRE * Parts(|name|)..base + SZDIRE * Parts(|name|) + SZDIRE] == sfn
    requires k <= 21
    requires forall j {:trigger base + SZDIRE * j} :: 0 <= j < k ==>
               dir[base + SZDIRE * j] != 0 && !IsSfn(dir, base + SZDIRE * j)
    requires found <==> k < 21 && IsSfn(dir, base + SZDIRE * k)
    requires !found ==> k == 21 || dir[base + SZDIRE * k] == 0
    ensures found && k == Parts(|name|)
    ensures SumSfn(dir, base + SZDIRE * k, 11) == SumSfn(sfn, 0, 11)
  {
    hide AreParts, SumSfn;
    var n := Parts(|name|);
    var d := base + SZDIRE * n;
    forall i | 0 <= i < SZDIRE ensures dir[d + i] == sfn[i] {
      assert dir[d..d + SZDIRE][i] == dir[d + i];
    }
    assert dir[d + 0] == sfn[0] && dir[d + 11] == sfn[11];
    assert IsSfn(dir, base + SZDIRE * n);
    if k < n {
      StoredIsScanned(dir, base, name, SumSfn(sfn, 0, 11), k);
    }
    SumMoves(dir, d, sfn, 11);
  }

  // Creating a file under a name and listing it: the segment is decoded, stored in front
  // of its short-name entry, collected and encoded again. An empty listing stands for a
  // long name that could not be read back.
  method StoreThenList(path: seq<Byte>, start: nat, sfn: seq<Byte>, lfn: array<Word>, dir: array<Byte>, base: nat,
                       back: array<Word>, fname: array<Byte>)
    returns (ok: bool, len: nat, ghost end: nat, ghost cps: seq<CodePoint>)
    requires start < |path| && path[|path| - 1] == 0
    requires |sfn| == SZDIRE && IsSfn(sfn, 0)
    requires lfn.Length == back.Length == MAX_LFN + 1 && lfn != back
    requires dir.Length == base + SZDIRE * 21 && fname.Length == LFN_BUF + 1 && dir != fname
    modifies lfn, dir, back, fname
    ensures ok <==> Acceptable(path, start)
    ensures ok ==> Segment(path, start, end, cps) && start <= end && len <= LFN_BUF
    ensures ok ==> (fname[..len] == path[start..end] <==> Durable(path, start, end, cps))
  {
    hide Utf16s, Utf8s, Trim, Keeps, Reads, IsSfn, SumSfn, AreParts, After, Holds, Durable, NoListing, Spelt, NameChars;
    var di, e;
    ok, e, di, cps := CreateLfn(path, start, lfn);
    end, len := e, 0;
    if !ok { return; }
    ghost var name := Trim(Utf16s(cps));
    NoNul(cps);
    TrimmedName(Utf16s(cps));
    var sum := SumSfn(sfn, 0, 11);
    var n := StoreName(lfn, dir, base, sum, name);
    ghost var stored := dir[..];
    PartsFit(|name|);
    CopyEntry(dir, base + SZDIRE * n, sfn);
    PartsKept(stored, dir[..], base, name, n, sum);
    var found, k, has := CollectName(dir, base, 21, back);
    FoundAtEnd(dir[..], base, name, sfn, k, found);
    StoredIsSpelt(dir[..], base, name, sum);
    ghost var cps': seq<CodePoint> := [];
    if has {
      assert Holds(back[..], Spelt(name));
      len, cps' := FileInfo(back, fname, Spelt(name));
    }
    Judged(path, start, end, cps, fname[..len], cps');
  }

  lemma TrimmedName(u: seq<Word>)
    requires 0 !in u && Trim(u) != []
    ensures |Trim(u)| <= |u| && 0 !in Trim(u)
  {
  }

  lemma PartsFit(len: nat)
    requires len <= MAX_LFN
    ensures SZDIRE * Parts(len) + SZDIRE <= SZDIRE * 21
  {
  }

  lemma PartsKept(dir: seq<Byte>, dir': seq<Byte>, base: nat, name: seq<Word>, n: nat, sum: Byte)
    requires AreParts(dir, base, name, n, sum) && |dir| == |dir'|
    requires forall i :: 0 <= i < |dir| && !(base + SZDIRE * n <= i < base + SZDIRE * n + SZDIRE) ==> dir'[i] == dir[i]
    ensures AreParts(dir', base, name, n, sum)
  {
    hide PartUnit, MarkedLast, UnitAt;
    forall j | 0 <= j < n ensures IsPart(dir', base + SZDIRE * j, name, n - j, sum) {
      PartKept(dir, dir', base + SZDIRE * j, name, n - j, sum);
    }
  }

  lemma Judged(path: seq<Byte>, start: nat, end: nat, cps: seq<CodePoint>, listed: seq<Byte>, back: seq<CodePoint>)
    requires start <= end <= |path| && Reads(path, start, end, cps) && |Utf16s(cps)| <= MAX_LFN
    requires Trim(Utf16s(cps)) != [] && |listed| <= LFN_BUF
    requires listed != [] ==> Utf16s(back) == Spelt(Trim(Utf16s(cps))) && listed == Utf8s(back)
    requires listed == [] ==> Spelt(Trim(Utf16s(cps))) == [] || NoListing(Spelt(Trim(Utf16s(cps))))
                              || |Spelt(Trim(Utf16s(cps)))| > MAX_LFN
    ensures listed == path[start..end] <==> Durable(path, start, end, cps)
  {
    hide Utf16s, Utf8s, Trim, Durable, Reads, NoListing, Spelt;
    assert cps != [] by { EmptyUnits(); }
    ReadsLength(path, start, end, cps);
    if listed == path[start..end] {
      ListedIsDurable(path, start, end, cps, listed, back);
    }
    if Durable(path, start, end, cps) {
      DurableIsListed(path, start, end, cps, listed, back);
    }
  }
}
