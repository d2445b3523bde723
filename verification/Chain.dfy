/** Cluster chains over the FAT seen as one number per cluster
    (thirdparty/fatfs/ff.c, create_chain, remove_chain, f_truncate, f_expand).
    A value of 0 means free, 2..n-1 links to the next cluster, n or more ends a chain. */
module Chain {
  ghost predicate IsChain(f: seq<nat>, s: seq<nat>) {
    && |s| > 0
    && (forall i :: 0 <= i < |s| ==> 2 <= s[i] < |f|)
    && (forall i {:trigger f[s[i]]} :: 0 <= i < |s| - 1 ==> f[s[i]] == s[i + 1])
    && f[s[|s| - 1]] >= |f|
  }

  // The FAT is the set cs of chains: every allocated cluster lies in exactly one.
  ghost predicate Chains(f: seq<nat>, cs: set<seq<nat>>) {
    AllChains(f, cs) && Disjoint(cs) && Covered(f, cs)
  }

  ghost predicate AllChains(f: seq<nat>, cs: set<seq<nat>>) {
    forall s :: s in cs ==> IsChain(f, s)
  }

  ghost predicate Disjoint(cs: set<seq<nat>>) {
    forall s, t, c :: s in cs && t in cs && c in s && c in t ==> s == t
  }

  ghost predicate Covered(f: seq<nat>, cs: set<seq<nat>>) {
    forall c :: 2 <= c < |f| && f[c] != 0 ==> InSome(cs, c)
  }

  ghost predicate InSome(cs: set<seq<nat>>, c: nat) {
    exists s :: s in cs && c in s
  }

  // A chain never revisits a cluster.
  lemma {:induction false} ChainDistinct(f: seq<nat>, s: seq<nat>, i: nat, j: nat)
    requires IsChain(f, s) && i < j < |s|
    ensures s[i] != s[j]
    decreases |s| - j
  {
    if s[i] == s[j] {
      assert f[s[i]] == s[i + 1];
      if j + 1 < |s| {
        assert f[s[j]] == s[j + 1];
        ChainDistinct(f, s, i + 1, j + 1);
      }
    }
  }

  // Chains that share their first cluster are equal.
  lemma {:induction false} ChainDetermined(f: seq<nat>, s: seq<nat>, t: seq<nat>)
    requires IsChain(f, s) && IsChain(f, t) && s[0] == t[0]
    ensures s == t
  {
    HeadLinks(f, s);
    HeadLinks(f, t);
    if |s| == 1 {
      assert s == [s[0]] && t == [t[0]];
    } else {
      SuffixIsChain(f, s, 1);
      SuffixIsChain(f, t, 1);
      assert s[1..][0] == t[1..][0];
      ChainDetermined(f, s[1..], t[1..]);
      assert s == [s[0]] + s[1..];
      assert t == [t[0]] + t[1..];
    }
  }

  lemma HeadLinks(f: seq<nat>, s: seq<nat>)
    requires IsChain(f, s)
    ensures if |s| == 1 then f[s[0]] >= |f| else f[s[0]] == s[1] < |f|
  {
    if |s| > 1 {
      assert f[s[0]] == s[0 + 1];
    }
  }

  lemma SuffixIsChain(f: seq<nat>, s: seq<nat>, k: nat)
    requires IsChain(f, s) && k < |s|
    ensures IsChain(f, s[k..])
  {
    forall i | 0 <= i < |s[k..]| - 1 ensures f[s[k..][i]] == s[k..][i + 1] {
      assert f[s[k + i]] == s[k + i + 1];
    }
  }

  // A chain only looks at its own clusters.
  lemma ChainKept(f: seq<nat>, f': seq<nat>, s: seq<nat>)
    requires IsChain(f, s) && |f'| == |f|
    requires forall c :: c in s ==> f'[c] == f[c]
    ensures IsChain(f', s)
  {
  }

  // The FAT alone determines its chains.
  lemma ChainsUnique(f: seq<nat>, cs: set<seq<nat>>, ds: set<seq<nat>>)
    requires Chains(f, cs) && Chains(f, ds)
    ensures cs == ds
  {
    forall s | s in cs ensures s in ds {
      ChainInBoth(f, cs, ds, s);
    }
    forall s | s in ds ensures s in cs {
      ChainInBoth(f, ds, cs, s);
    }
  }

  lemma ChainInBoth(f: seq<nat>, cs: set<seq<nat>>, ds: set<seq<nat>>, s: seq<nat>)
    requires Chains(f, cs) && Chains(f, ds) && s in cs
    ensures s in ds
  {
    AllocatedInChain(f, s, 0);
    assert InSome(ds, s[0]);
    var t :| t in ds && s[0] in t;
    var i :| 0 <= i < |t| && t[i] == s[0];
    HeadIsHead(f, cs, s, t, i);
    ChainDetermined(f, s, t);
  }

  // A predecessor of s[0] would put s[0] in the middle of s.
  lemma HeadIsHead(f: seq<nat>, cs: set<seq<nat>>, s: seq<nat>, t: seq<nat>, i: nat)
    requires Chains(f, cs) && s in cs && IsChain(f, t)
    requires i < |t| && t[i] == s[0]
    ensures i == 0
  {
    if i > 0 {
      var p := t[i - 1];
      MiddleLink(f, t, i - 1);
      AllocatedInChain(f, t, i - 1);
      assert InSome(cs, p);
      var u :| u in cs && p in u;
      HeadHasNoPredecessor(f, cs, s, u, p);
    }
  }

  lemma HeadHasNoPredecessor(f: seq<nat>, cs: set<seq<nat>>, s: seq<nat>, u: seq<nat>, p: nat)
    requires AllChains(f, cs) && Disjoint(cs) && s in cs && u in cs && p in u
    ensures p < |f| && f[p] != s[0]
  {
    var j :| 0 <= j < |u| && u[j] == p;
    if f[p] == s[0] {
      assert s[0] in s;
      MiddleLink(f, u, j);
      assert u[j + 1] in u;
      ChainDistinct(f, s, 0, j + 1);
    }
  }

  lemma MiddleLink(f: seq<nat>, u: seq<nat>, j: nat)
    requires IsChain(f, u) && j < |u| && (f[u[j]] < |f| || j + 1 < |u|)
    ensures j + 1 < |u| && u[j + 1] == f[u[j]]
  {
    if j + 1 < |u| {
      assert f[u[j]] == u[j + 1];
    }
  }

  lemma AllocatedInChain(f: seq<nat>, s: seq<nat>, i: nat)
    requires IsChain(f, s) && i < |s|
    ensures f[s[i]] != 0
  {
    if i + 1 < |s| {
      assert f[s[i]] == s[i + 1];
    }
  }

  // -- The operations on chains --

  function Zeroed(f: seq<nat>, s: seq<nat>): (f': seq<nat>)
    ensures |f'| == |f|
    ensures forall c :: 0 <= c < |f| ==> f'[c] == if c in s then 0 else f[c]
  {
    seq(|f|, c requires 0 <= c < |f| => if c in s then 0 else f[c])
  }

  function Run(first: nat, n: nat): (s: seq<nat>)
    ensures |s| == n && forall i :: 0 <= i < n ==> s[i] == first + i
  {
    seq(n, i => first + i)
  }

  // Links first, first + 1, .. into one chain.
  function Linked(f: seq<nat>, first: nat, n: nat, eoc: nat): (f': seq<nat>)
    requires n > 0 && first + n <= |f|
    ensures |f'| == |f|
    ensures forall c :: 0 <= c < |f| ==>
              f'[c] == if !(first <= c < first + n) then f[c] else if c == first + n - 1 then eoc else c + 1
    decreases n
  {
    if n == 1 then f[first := eoc] else Linked(f[first := first + 1], first + 1, n - 1, eoc)
  }

  datatype Op =
    | New(ncl: nat)                        // create_chain(0)
    | Append(s: seq<nat>, ncl: nat)        // create_chain(tail)
    | Drop(s: seq<nat>)                    // remove_chain(head, 0)
    | Shorten(s: seq<nat>, k: nat)         // remove_chain(s[k], s[k - 1])
    | Expand(first: nat, n: nat)           // f_expand

  ghost predicate Enabled(f: seq<nat>, cs: set<seq<nat>>, op: Op) {
    match op
    case New(ncl) => 2 <= ncl < |f| && f[ncl] == 0
    case Append(s, ncl) => s in cs && 2 <= ncl < |f| && f[ncl] == 0
    case Drop(s) => s in cs
    case Shorten(s, k) => s in cs && 0 < k < |s|
    case Expand(first, n) => 2 <= first && n > 0 && first + n <= |f| && forall c :: first <= c < first + n ==> f[c] == 0
  }

  ghost function Apply(f: seq<nat>, cs: set<seq<nat>>, op: Op, eoc: nat): (f': seq<nat>)
    requires Chains(f, cs) && Enabled(f, cs, op)
    ensures |f'| == |f|
  {
    match op
    case New(ncl) => f[ncl := eoc]
    case Append(s, ncl) => f[ncl := eoc][s[|s| - 1] := ncl]
    case Drop(s) => Zeroed(f, s)
    case Shorten(s, k) => Zeroed(f[s[k - 1] := eoc], s[k..])
    case Expand(first, n) => Linked(f, first, n, eoc)
  }

  // What the operation does to the set of chains.
  ghost function ApplyChains(cs: set<seq<nat>>, op: Op): set<seq<nat>> {
    match op
    case New(ncl) => cs + {[ncl]}
    case Append(s, ncl) => cs - {s} + {s + [ncl]}
    case Drop(s) => cs - {s}
    case Shorten(s, k) => if k <= |s| then cs - {s} + {s[..k]} else cs
    case Expand(first, n) => cs + {Run(first, n)}
  }

  // Every operation leaves the FAT a set of disjoint chains: exactly the chain named by
  // the operation appears, grows, shrinks or disappears.
  lemma ApplyKeepsChains(f: seq<nat>, cs: set<seq<nat>>, op: Op, eoc: nat)
    requires Chains(f, cs) && Enabled(f, cs, op) && eoc >= |f|
    ensures Chains(Apply(f, cs, op, eoc), ApplyChains(cs, op))
  {
    hide Chains, Linked, Zeroed, GivesWay, Run;
    match op
    case New(ncl) => ApplyNew(f, cs, ncl, eoc);
    case Append(s, ncl) => ApplyAppend(f, cs, s, ncl, eoc);
    case Drop(s) => DropChain(f, Zeroed(f, s), cs, s);
    case Shorten(s, k) => ApplyShorten(f, cs, s, k, eoc);
    case Expand(first, n) => ApplyExpand(f, cs, first, n, eoc);
  }

  lemma ApplyAppend(f: seq<nat>, cs: set<seq<nat>>, s: seq<nat>, ncl: nat, eoc: nat)
    requires Chains(f, cs) && s in cs && 2 <= ncl < |f| && f[ncl] == 0 && eoc >= |f|
    ensures Chains(f[ncl := eoc][s[|s| - 1] := ncl], cs - {s} + {s + [ncl]})
  {
    var f', t := f[ncl := eoc][s[|s| - 1] := ncl], s + [ncl];
    assert IsChain(f', t) by { AppendIsChain(f, s, ncl, eoc); }
    assert GivesWay(f, f', s, t) by { AppendGivesWay(f, s, ncl, eoc); }
    ReplaceChain(f, f', cs, s, t);
  }

  lemma AppendGivesWay(f: seq<nat>, s: seq<nat>, ncl: nat, eoc: nat)
    requires IsChain(f, s) && 2 <= ncl < |f| && f[ncl] == 0
    ensures GivesWay(f, f[ncl := eoc][s[|s| - 1] := ncl], s, s + [ncl])
  {
    assert s[|s| - 1] in s;
  }

  lemma ApplyShorten(f: seq<nat>, cs: set<seq<nat>>, s: seq<nat>, k: nat, eoc: nat)
    requires Chains(f, cs) && s in cs && 0 < k < |s| && eoc >= |f|
    ensures Chains(Zeroed(f[s[k - 1] := eoc], s[k..]), cs - {s} + {s[..k]})
  {
    ShortenIsChain(f, s, k, eoc);
    ShortenGivesWay(f, s, k, eoc);
    ReplaceChain(f, Zeroed(f[s[k - 1] := eoc], s[k..]), cs, s, s[..k]);
  }

  lemma ShortenGivesWay(f: seq<nat>, s: seq<nat>, k: nat, eoc: nat)
    requires IsChain(f, s) && 0 < k < |s|
    ensures GivesWay(f, Zeroed(f[s[k - 1] := eoc], s[k..]), s, s[..k])
  {
    assert s[..k] + s[k..] == s;
    assert s[k - 1] in s && s[..k][k - 1] == s[k - 1];
  }

  lemma ApplyNew(f: seq<nat>, cs: set<seq<nat>>, ncl: nat, eoc: nat)
    requires Chains(f, cs) && 2 <= ncl < |f| && f[ncl] == 0 && eoc >= |f|
    ensures Chains(f[ncl := eoc], cs + {[ncl]})
  {
    assert IsChain(f[ncl := eoc], [ncl]);
    AddChain(f, f[ncl := eoc], cs, [ncl]);
  }

  lemma ApplyExpand(f: seq<nat>, cs: set<seq<nat>>, first: nat, n: nat, eoc: nat)
    requires Chains(f, cs) && eoc >= |f|
    requires 2 <= first && n > 0 && first + n <= |f| && forall c :: first <= c < first + n ==> f[c] == 0
    ensures Chains(Linked(f, first, n, eoc), cs + {Run(first, n)})
  {
    var f', t := Linked(f, first, n, eoc), Run(first, n);
    assert t[n - 1] == first + (n - 1);
    forall c | c in t ensures first <= c < first + n {
      var i :| 0 <= i < n && t[i] == c;
    }
    forall c | first <= c < first + n ensures c in t {
      assert t[c - first] == c;
    }
    AddChain(f, f', cs, t);
  }

  // The chains other than s survive any change confined to s and to free clusters.
  lemma OthersSurvive(f: seq<nat>, f': seq<nat>, cs: set<seq<nat>>, s: seq<nat>, u: seq<nat>)
    requires Chains(f, cs) && |f'| == |f| && u in cs && (s == [] || (s in cs && u != s))
    requires forall c :: 2 <= c < |f| && c !in s && f[c] != 0 ==> f'[c] == f[c]
    ensures IsChain(f', u)
    ensures forall c :: c in u ==> c !in s && c < |f| && f[c] != 0
  {
    forall c | c in u ensures c !in s && c < |f| && f[c] != 0 && f'[c] == f[c] {
      var i :| 0 <= i < |u| && u[i] == c;
      AllocatedInChain(f, u, i);
    }
    ChainKept(f, f', u);
  }

  lemma DisjointAfter(cs: set<seq<nat>>, s: seq<nat>, t: seq<nat>)
    requires Disjoint(cs)
    requires forall u, c :: u in cs && u != s && c in u ==> c !in t
    ensures Disjoint(cs - {s} + {t})
  {
    forall u, v, c | u in cs - {s} + {t} && v in cs - {s} + {t} && c in u && c in v ensures u == v {
      if u != t && v != t {
        assert u in cs && v in cs;
      }
    }
  }

  lemma CoveredAfter(f: seq<nat>, f': seq<nat>, cs: set<seq<nat>>, s: seq<nat>, t: seq<nat>)
    requires Covered(f, cs) && |f'| == |f|
    requires forall c :: 2 <= c < |f| && c !in t && f'[c] != 0 ==> c !in s && f[c] != 0
    ensures Covered(f', cs - {s} + {t})
  {
    forall c | 2 <= c < |f'| && f'[c] != 0 ensures InSome(cs - {s} + {t}, c) {
      if c in t {
        assert t in cs - {s} + {t};
      } else {
        assert InSome(cs, c);
        var u :| u in cs && c in u;
        assert u in cs - {s} + {t};
      }
    }
  }

  lemma AllAfter(f': seq<nat>, cs: set<seq<nat>>, s: seq<nat>, t: seq<nat>)
    requires forall u :: u in cs && u != s ==> IsChain(f', u)
    requires IsChain(f', t)
    ensures AllChains(f', cs - {s} + {t})
  {
  }

  lemma AddChain(f: seq<nat>, f': seq<nat>, cs: set<seq<nat>>, t: seq<nat>)
    requires Chains(f, cs) && |f'| == |f| && IsChain(f', t)
    requires forall c :: c in t ==> 2 <= c < |f| && f[c] == 0
    requires forall c :: 2 <= c < |f| && c !in t ==> f'[c] == f[c]
    ensures Chains(f', cs + {t})
  {
    forall u | u in cs ensures IsChain(f', u) && forall c :: c in u ==> c !in t {
      OthersSurvive(f, f', cs, [], u);
    }
    DisjointAfter(cs, [], t);
    CoveredAfter(f, f', cs, [], t);
    assert [] !in cs;
    assert cs - {[]} + {t} == cs + {t};
  }

  lemma DropChain(f: seq<nat>, f': seq<nat>, cs: set<seq<nat>>, s: seq<nat>)
    requires Chains(f, cs) && |f'| == |f| && s in cs
    requires forall c :: 2 <= c < |f| ==> f'[c] == if c in s then 0 else f[c]
    ensures Chains(f', cs - {s})
  {
    forall u | u in cs - {s} ensures IsChain(f', u) {
      OthersSurvive(f, f', cs, s, u);
    }
    forall c | 2 <= c < |f'| && f'[c] != 0 ensures InSome(cs - {s}, c) {
      assert InSome(cs, c);
      var u :| u in cs && c in u;
      assert u in cs - {s};
    }
  }

  // The change from f to f' is confined to s and t, frees what s leaves, and t takes
  // only clusters of s and free clusters.
  ghost predicate GivesWay(f: seq<nat>, f': seq<nat>, s: seq<nat>, t: seq<nat>) {
    && |f'| == |f|
    && (forall c :: c in t && c !in s ==> 2 <= c < |f| && f[c] == 0)
    && (forall c :: 2 <= c < |f| && c !in s && c !in t ==> f'[c] == f[c])
    && (forall c :: c in s && c !in t && c < |f| ==> f'[c] == 0)
  }

  lemma ReplaceChain(f: seq<nat>, f': seq<nat>, cs: set<seq<nat>>, s: seq<nat>, t: seq<nat>)
    requires Chains(f, cs) && s in cs && IsChain(f', t) && GivesWay(f, f', s, t)
    ensures Chains(f', cs - {s} + {t})
  {
    forall u | u in cs && u != s ensures IsChain(f', u) {
      OthersSurvive(f, f', cs, s, u);
    }
    AllAfter(f', cs, s, t);
    forall u, c | u in cs && u != s && c in u ensures c !in t {
      OthersSurvive(f, f', cs, s, u);
    }
    DisjointAfter(cs, s, t);
    CoveredAfter(f, f', cs, s, t);
  }

  lemma AppendIsChain(f: seq<nat>, s: seq<nat>, ncl: nat, eoc: nat)
    requires IsChain(f, s) && 2 <= ncl < |f| && f[ncl] == 0 && eoc >= |f|
    ensures IsChain(f[ncl := eoc][s[|s| - 1] := ncl], s + [ncl])
  {
    var f', t, m := f[ncl := eoc][s[|s| - 1] := ncl], s + [ncl], |s|;
    forall i | 0 <= i < m ensures t[i] != ncl {
      AllocatedInChain(f, s, i);
    }
    forall i | 0 <= i < m ensures f'[t[i]] == t[i + 1] {
      if i < m - 1 {
        ChainDistinct(f, s, i, m - 1);
        assert f[s[i]] == s[i + 1];
      }
    }
  }

  lemma ShortenIsChain(f: seq<nat>, s: seq<nat>, k: nat, eoc: nat)
    requires IsChain(f, s) && 0 < k < |s| && eoc >= |f|
    requires forall c :: c in s[k..] ==> c < |f|
    ensures IsChain(Zeroed(f[s[k - 1] := eoc], s[k..]), s[..k])
    ensures forall c :: c in s[k..] ==> c !in s[..k]
  {
    forall i, j | 0 <= i < k <= j < |s| ensures s[i] != s[j] {
      ChainDistinct(f, s, i, j);
    }
    forall c | c in s[k..] ensures c !in s[..k] {
      var j :| 0 <= j < |s[k..]| && s[k..][j] == c;
      assert s[k + j] == c;
    }
    forall i | 0 <= i < k - 1 ensures s[i] != s[k - 1] {
      ChainDistinct(f, s, i, k - 1);
    }
    var f' := Zeroed(f[s[k - 1] := eoc], s[k..]);
    forall i | 0 <= i < k ensures f'[s[i]] == if i == k - 1 then eoc else s[i + 1] {
      assert s[..k][i] == s[i];
      assert i < k - 1 ==> f[s[i]] == s[i + 1];
    }
  }

  // -- Counting free clusters --

  function FreeSet(f: seq<nat>): set<nat> {
    set c | 2 <= c < |f| && f[c] == 0
  }

  function CountFree(f: seq<nat>): nat {
    |FreeSet(f)|
  }

  // free_clst is either unknown (out of range) or exact.
  ghost predicate FreeOk(freeClst: nat, f: seq<nat>) {
    freeClst > |f| - 2 || freeClst == CountFree(f)
  }

  lemma CountUpdate(f: seq<nat>, c: nat, v: nat)
    requires 2 <= c < |f|
    ensures f[c] == 0 && v != 0 ==> CountFree(f[c := v]) + 1 == CountFree(f)
    ensures f[c] != 0 && v == 0 ==> CountFree(f[c := v]) == CountFree(f) + 1
    ensures (f[c] == 0 <==> v == 0) ==> CountFree(f[c := v]) == CountFree(f)
  {
    if v == 0 {
      assert FreeSet(f[c := v]) == FreeSet(f) + {c};
    } else {
      assert FreeSet(f[c := v]) == FreeSet(f) - {c};
    }
  }

  lemma CountBound(f: seq<nat>)
    requires |f| >= 2
    ensures CountFree(f) <= |f| - 2
    ensures (exists c :: 2 <= c < |f| && f[c] != 0) ==> CountFree(f) < |f| - 2
  {
    SubsetSize(FreeSet(f), Clusters(|f|));
    if exists c :: 2 <= c < |f| && f[c] != 0 {
      var c :| 2 <= c < |f| && f[c] != 0;
      SubsetSize(FreeSet(f), Clusters(|f|) - {c});
    }
  }

  function Clusters(n: nat): (cs: set<nat>)
    requires n >= 2
    ensures |cs| == n - 2
    ensures forall c :: c in cs <==> 2 <= c < n
  {
    if n == 2 then {} else Clusters(n - 1) + {n - 1}
  }

  lemma {:induction false} SubsetSize<T>(a: set<T>, b: set<T>)
    requires a <= b
    ensures |a| <= |b|
  {
    if a != {} {
      var x :| x in a;
      SubsetSize(a - {x}, b - {x});
    }
  }

  // No free cluster is left exactly when the count is zero.
  lemma CountZero(f: seq<nat>)
    ensures CountFree(f) == 0 <==> forall c :: 2 <= c < |f| ==> f[c] != 0
  {
    if c :| 2 <= c < |f| && f[c] == 0 {
      assert c in FreeSet(f);
    } else {
      assert FreeSet(f) == {};
    }
  }

  // Zero entries among clusters lo..hi-1.
  function CountZeros(f: seq<nat>, lo: nat, hi: nat): (n: nat)
    requires lo <= hi <= |f|
    ensures n <= hi - lo
    decreases hi - lo
  {
    if lo == hi then 0 else CountZeros(f, lo, hi - 1) + (if f[hi - 1] == 0 then 1 else 0)
  }

  lemma {:induction false} CountZerosIsCountFree(f: seq<nat>, hi: nat)
    requires 2 <= hi <= |f|
    ensures CountZeros(f, 2, hi) == CountFree(f[..hi])
  {
    if hi == 2 {
      assert FreeSet(f[..2]) == {};
    } else {
      CountZerosIsCountFree(f, hi - 1);
      var a, b := FreeSet(f[..hi - 1]), FreeSet(f[..hi]);
      assert b == if f[hi - 1] == 0 then a + {hi - 1} else a;
    }
  }

  lemma {:induction false} CountZerosSplit(f: seq<nat>, hi: nat)
    requires 2 <= hi <= |f|
    ensures CountZeros(f, 0, hi) == CountZeros(f, 0, 2) + CountZeros(f, 2, hi)
  {
    if hi > 2 {
      CountZerosSplit(f, hi - 1);
    }
  }

  // -- remove_chain's walk, on any FAT whatsoever --

  function Used(f: seq<nat>): set<nat> {
    set c | 2 <= c < |f| && f[c] != 0
  }

  // The FAT after freeing from c until a free cluster, an end mark, or the reserved
  // value 1. Each step clears a used entry, so the walk ends on every FAT, also on
  // cyclic and cross-linked ones.
  function Freed(f: seq<nat>, c: nat): (f': seq<nat>)
    requires 2 <= c < |f|
    ensures |f'| == |f|
    decreases |Used(f)|
  {
    var nxt := f[c];
    if nxt == 0 || nxt == 1 then f else
      assert Used(f[c := 0]) == Used(f) - {c} && c in Used(f);
      if nxt >= |f| then f[c := 0] else Freed(f[c := 0], nxt)
  }

  // The walk ran into the reserved value 1.
  predicate HitsReserved(f: seq<nat>, c: nat)
    requires 2 <= c < |f|
    decreases |Used(f)|
  {
    var nxt := f[c];
    if nxt == 0 || nxt >= |f| then false
    else if nxt == 1 then true
    else
      assert Used(f[c := 0]) == Used(f) - {c} && c in Used(f);
      HitsReserved(f[c := 0], nxt)
  }

  // The walk clears entries and does nothing else; a used entry it starts from is cleared.
  lemma {:induction false} FreedOnlyClears(f: seq<nat>, c: nat)
    requires 2 <= c < |f|
    ensures forall k :: 0 <= k < |f| ==> Freed(f, c)[k] == 0 || Freed(f, c)[k] == f[k]
    ensures f[c] >= 2 ==> Freed(f, c)[c] == 0
    decreases |Used(f)|
  {
    var nxt := f[c];
    if 2 <= nxt < |f| {
      assert Used(f[c := 0]) == Used(f) - {c} && c in Used(f);
      FreedOnlyClears(f[c := 0], nxt);
    }
  }

  // On a chain the walk frees exactly the chain.
  lemma {:induction false} FreedIsZeroed(f: seq<nat>, s: seq<nat>)
    requires IsChain(f, s)
    ensures Freed(f, s[0]) == Zeroed(f, s) && !HitsReserved(f, s[0])
    decreases |s|
  {
    HeadLinks(f, s);
    if |s| > 1 {
      SuffixIsChain(f, s, 1);
      forall c | c in s[1..] ensures c != s[0] {
        var i :| 0 <= i < |s[1..]| && s[1..][i] == c;
        ChainDistinct(f, s, 0, i + 1);
      }
      ChainKept(f, f[s[0] := 0], s[1..]);
      FreedIsZeroed(f[s[0] := 0], s[1..]);
      assert s == [s[0]] + s[1..];
      assert Zeroed(f[s[0] := 0], s[1..]) == Zeroed(f, s);
    } else {
      assert s == [s[0]];
      assert Zeroed(f, s) == f[s[0] := 0];
    }
  }

  lemma {:induction false} CountZeroed(f: seq<nat>, s: seq<nat>)
    requires IsChain(f, s)
    ensures CountFree(Zeroed(f, s)) == CountFree(f) + |s|
    decreases |s|
  {
    HeadLinks(f, s);
    CountUpdate(f, s[0], 0);
    if |s| > 1 {
      SuffixIsChain(f, s, 1);
      forall c | c in s[1..] ensures c != s[0] {
        var i :| 0 <= i < |s[1..]| && s[1..][i] == c;
        ChainDistinct(f, s, 0, i + 1);
      }
      ChainKept(f, f[s[0] := 0], s[1..]);
      CountZeroed(f[s[0] := 0], s[1..]);
      assert s == [s[0]] + s[1..];
      assert Zeroed(f[s[0] := 0], s[1..]) == Zeroed(f, s);
    } else {
      assert s == [s[0]];
      assert Zeroed(f, s) == f[s[0] := 0];
    }
  }

  lemma {:induction false} CountLinked(f: seq<nat>, first: nat, n: nat, eoc: nat)
    requires 2 <= first && n > 0 && first + n <= |f| && eoc != 0
    requires forall c :: first <= c < first + n ==> f[c] == 0
    ensures CountFree(Linked(f, first, n, eoc)) + n == CountFree(f)
    decreases n
  {
    if n == 1 {
      CountUpdate(f, first, eoc);
    } else {
      CountUpdate(f, first, first + 1);
      CountLinked(f[first := first + 1], first + 1, n - 1, eoc);
    }
  }

  // -- Whole runs --

  // Clusters an operation takes from (positive) or returns to (negative) the free ones.
  function Taken(op: Op): int {
    match op
    case New(_) => 1
    case Append(_, _) => 1
    case Drop(s) => -|s|
    case Shorten(s, k) => k - |s|
    case Expand(_, n) => n
  }

  lemma CountAppend(f: seq<nat>, s: seq<nat>, ncl: nat, eoc: nat)
    requires IsChain(f, s) && 2 <= ncl < |f| && f[ncl] == 0 && eoc != 0
    ensures CountFree(f[ncl := eoc][s[|s| - 1] := ncl]) + 1 == CountFree(f)
  {
    AllocatedInChain(f, s, |s| - 1);
    CountUpdate(f, ncl, eoc);
    CountUpdate(f[ncl := eoc], s[|s| - 1], ncl);
  }

  lemma ApplyCounts(f: seq<nat>, cs: set<seq<nat>>, op: Op, eoc: nat)
    requires Chains(f, cs) && Enabled(f, cs, op) && eoc >= |f|
    ensures CountFree(Apply(f, cs, op, eoc)) == CountFree(f) - Taken(op)
  {
    hide CountFree, IsChain, Disjoint, Covered;
    match op
    case New(ncl) => CountUpdate(f, ncl, eoc);
    case Append(s, ncl) => CountAppend(f, s, ncl, eoc);
    case Drop(s) => CountZeroed(f, s);
    case Shorten(s, k) => CountShorten(f, s, k, eoc);
    case Expand(first, n) => CountLinked(f, first, n, eoc);
  }

  // The tail of a chain is still a chain once its predecessor carries the end mark.
  lemma TailIsChain(f: seq<nat>, s: seq<nat>, k: nat, eoc: nat)
    requires IsChain(f, s) && 0 < k < |s|
    ensures IsChain(f[s[k - 1] := eoc], s[k..])
  {
    SuffixIsChain(f, s, k);
    forall c | c in s[k..] ensures c != s[k - 1] {
      var i :| 0 <= i < |s[k..]| && s[k..][i] == c;
      ChainDistinct(f, s, k - 1, k + i);
    }
    ChainKept(f, f[s[k - 1] := eoc], s[k..]);
  }

  lemma CountShorten(f: seq<nat>, s: seq<nat>, k: nat, eoc: nat)
    requires IsChain(f, s) && 0 < k < |s| && eoc >= |f|
    ensures CountFree(Zeroed(f[s[k - 1] := eoc], s[k..])) == CountFree(f) + |s| - k
  {
    AllocatedInChain(f, s, k - 1);
    CountUpdate(f, s[k - 1], eoc);
    assert IsChain(f[s[k - 1] := eoc], s[k..]) by { TailIsChain(f, s, k, eoc); }
    CountZeroed(f[s[k - 1] := eoc], s[k..]);
  }

  // A run applies operations one after another, each enabled where it is applied.
  ghost predicate RunEnabled(f: seq<nat>, cs: set<seq<nat>>, ops: seq<Op>, eoc: nat)
    requires Chains(f, cs) && eoc >= |f|
    decreases |ops|
  {
    ops == [] ||
    (&& Enabled(f, cs, ops[0])
     && (ApplyKeepsChains(f, cs, ops[0], eoc);
         RunEnabled(Apply(f, cs, ops[0], eoc), ApplyChains(cs, ops[0]), ops[1..], eoc)))
  }

  ghost function RunFat(f: seq<nat>, cs: set<seq<nat>>, ops: seq<Op>, eoc: nat): (r: (seq<nat>, set<seq<nat>>))
    requires Chains(f, cs) && eoc >= |f| && RunEnabled(f, cs, ops, eoc)
    ensures |r.0| == |f|
    decreases |ops|
  {
    if ops == [] then (f, cs) else
      ApplyKeepsChains(f, cs, ops[0], eoc);
      RunFat(Apply(f, cs, ops[0], eoc), ApplyChains(cs, ops[0]), ops[1..], eoc)
  }

  function TakenInAll(ops: seq<Op>): int {
    if ops == [] then 0 else Taken(ops[0]) + TakenInAll(ops[1..])
  }

  // Over any run the FAT stays a set of disjoint, acyclic chains, and the number of
  // free clusters drops by what the run took.
  lemma {:induction false} RunKeepsChains(f: seq<nat>, cs: set<seq<nat>>, ops: seq<Op>, eoc: nat)
    requires Chains(f, cs) && eoc >= |f| && RunEnabled(f, cs, ops, eoc)
    ensures var (f', cs') := RunFat(f, cs, ops, eoc);
            Chains(f', cs') && CountFree(f') == CountFree(f) - TakenInAll(ops)
    decreases |ops|
  {
    if ops != [] {
      ApplyKeepsChains(f, cs, ops[0], eoc);
      ApplyCounts(f, cs, ops[0], eoc);
      RunKeepsChains(Apply(f, cs, ops[0], eoc), ApplyChains(cs, ops[0]), ops[1..], eoc);
    }
  }
}
