/** The config file as text: lines of the form `KEY = value`, and what editing the text
    does to the list of definitions a fresh parse finds
    (source/arm11/config.c, findNextDefinition and parseDefinition). */
module ConfigText {
  datatype Option<T> = None | Some(value: T)

  // A definition of keys[key] whose value is the len characters from position at on.
  datatype Def = Def(key: nat, at: nat, len: nat)

  // LF, CR and 0x15
  predicate IsEol(c: char) {
    c == '\n' || c == '\r' || c == '\U{15}'
  }

  predicate Clean(s: string) {
    forall i :: 0 <= i < |s| ==> !IsEol(s[i]) && s[i] != ' ' && s[i] != '=' && s[i] != '\0'
  }

  predicate GoodKeys(keys: seq<string>) {
    && (forall k :: 0 <= k < |keys| ==> keys[k] != "" && Clean(keys[k]))
    && (forall i, j :: 0 <= i < j < |keys| ==> keys[i] != keys[j])
  }

  // A value that reads back as written.
  predicate GoodValue(v: string) {
    && (forall i :: 0 <= i < |v| ==> !IsEol(v[i]) && v[i] != '\0')
    && (v != "" ==> v[0] != ' ')
  }

  // The longest of the first n keys that starts the line; -1: none does.
  function BestKey(keys: seq<string>, line: string, n: nat): (k: int)
    requires n <= |keys|
    ensures -1 <= k < n
    ensures k == -1 ==> forall i :: 0 <= i < n ==> !(keys[i] <= line)
    ensures k >= 0 ==> keys[k] <= line && forall i :: 0 <= i < n && keys[i] <= line ==> |keys[i]| <= |keys[k]|
  {
    if n == 0 then -1 else
      var k := BestKey(keys, line, n - 1);
      if keys[n - 1] <= line && (k < 0 || |keys[n - 1]| > |keys[k]|) then n - 1 else k
  }

  lemma BestKeyStep(keys: seq<string>, line: string, n: nat)
    requires n <= |keys|
    ensures BestKey(keys, line, n) ==
            if n == 0 then -1 else
              var k := BestKey(keys, line, n - 1);
              if keys[n - 1] <= line && (k < 0 || |keys[n - 1]| > |keys[k]|) then n - 1 else k
  {
  }

  // The first position from p on that is not a space.
  function Spaces(s: string, p: nat): (q: nat)
    requires p <= |s|
    ensures p <= q <= |s| && (forall i :: p <= i < q ==> s[i] == ' ') && (q < |s| ==> s[q] != ' ')
    decreases |s| - p
  {
    if p == |s| || s[p] != ' ' then p else Spaces(s, p + 1)
  }

  // The definition a line holds.
  function LineDef(keys: seq<string>, line: string): (d: Option<Def>)
    ensures d.Some? ==> d.value.key < |keys| && 0 < d.value.at && d.value.at + d.value.len == |line|
  {
    var k := BestKey(keys, line, |keys|);
    if k < 0 then None else
      var p := Spaces(line, |keys[k]|);
      if p == |line| || line[p] != '=' then None else
        var s := Spaces(line, p + 1);
        Some(Def(k, s, |line| - s))
  }

  function LineEnd(t: string, p: nat): (e: nat)
    requires p <= |t|
    ensures p <= e <= |t| && (forall i :: p <= i < e ==> !IsEol(t[i])) && (e < |t| ==> IsEol(t[e]))
    decreases |t| - p
  {
    if p == |t| || IsEol(t[p]) then p else LineEnd(t, p + 1)
  }

  function NextLine(t: string, p: nat): (n: nat)
    requires p <= |t|
    ensures p <= n <= |t| && (p < |t| ==> p < n)
  {
    var e := LineEnd(t, p);
    if e == |t| then e else e + 1
  }

  function DefAt(keys: seq<string>, t: string, p: nat): (ds: seq<Def>)
    requires p <= |t|
    ensures |ds| <= 1
    ensures forall i :: 0 <= i < |ds| ==> ds[i].key < |keys| && p < ds[i].at && ds[i].at + ds[i].len == LineEnd(t, p)
  {
    match LineDef(keys, t[p..LineEnd(t, p)])
    case None => []
    case Some(d) => [Def(d.key, p + d.at, d.len)]
  }

  // All definitions from the line at p on.
  function Defs(keys: seq<string>, t: string, p: nat): (ds: seq<Def>)
    requires p <= |t|
    ensures forall i :: 0 <= i < |ds| ==> ds[i].key < |keys| && p < ds[i].at && ds[i].at + ds[i].len <= |t|
    decreases |t| - p
  {
    if p == |t| then [] else DefAt(keys, t, p) + Defs(keys, t, NextLine(t, p))
  }

  // -- Scanning --

  lemma SpacesIs(s: string, p: nat, q: nat)
    requires p <= q <= |s| && (forall i :: p <= i < q ==> s[i] == ' ') && (q < |s| ==> s[q] != ' ')
    ensures Spaces(s, p) == q
  {
  }

  lemma LineEndIs(t: string, p: nat, e: nat)
    requires p <= e <= |t| && (forall i :: p <= i < e ==> !IsEol(t[i])) && (e < |t| ==> IsEol(t[e]))
    ensures LineEnd(t, p) == e
  {
  }

  // The longest matching key is unique.
  lemma BestKeyIs(keys: seq<string>, line: string, k: nat)
    requires GoodKeys(keys) && k < |keys| && keys[k] <= line
    requires forall i :: 0 <= i < |keys| && keys[i] <= line ==> |keys[i]| <= |keys[k]|
    ensures BestKey(keys, line, |keys|) == k
  {
    var b := BestKey(keys, line, |keys|);
    assert keys[b] == line[..|keys[b]|] && keys[k] == line[..|keys[k]|];
  }

  // A key that starts the line ends before any space or equals sign.
  lemma KeyEnds(key: string, line: string, n: nat)
    requires Clean(key) && key <= line && n < |line| && line[n] in {' ', '='}
    ensures |key| <= n
  {
    assert forall i :: 0 <= i < |key| ==> line[i] == key[i] && line[i] != ' ' && line[i] != '=';
  }

  // The line defines key k, with a value from position s on.
  predicate Defines(keys: seq<string>, line: string, k: nat, s: nat) {
    var d := LineDef(keys, line);
    d.Some? && d.value.key == k && d.value.at == s && d.value.len == |line| - s
  }

  // The line is a key, spaces, an equals sign at p, spaces, and a value from s on.
  ghost predicate Shaped(keys: seq<string>, line: string, k: nat, p: nat, s: nat) {
    && k < |keys| && keys[k] <= line
    && |keys[k]| <= p < s <= |line| && line[p] == '='
    && (forall i {:trigger line[i]} :: |keys[k]| <= i < p || p < i < s ==> line[i] == ' ')
    && (s < |line| ==> line[s] != ' ')
  }

  // Such a line defines that key.
  lemma LineDefIs(keys: seq<string>, line: string, k: nat, p: nat, s: nat)
    requires GoodKeys(keys) && Shaped(keys, line, k, p, s)
    ensures Defines(keys, line, k, s)
  {
    forall i | 0 <= i < |keys| && keys[i] <= line ensures |keys[i]| <= |keys[k]| {
      KeyEnds(keys[i], line, |keys[k]|);
    }
    BestKeyIs(keys, line, k);
    SpacesIs(line, |keys[k]|, p);
    SpacesIs(line, p + 1, s);
  }

  // Conversely, every definition has that shape.
  lemma LineDefShape(keys: seq<string>, line: string) returns (p: nat)
    requires LineDef(keys, line).Some?
    ensures var d := LineDef(keys, line).value; Shaped(keys, line, d.key, p, d.at)
  {
    var k := BestKey(keys, line, |keys|);
    p := Spaces(line, |keys[k]|);
  }

  // Another value behind the same beginning of a line; its leading spaces are skipped.
  lemma ShapeReplaced(keys: seq<string>, line: string, k: nat, p: nat, s: nat, v: string)
    requires Shaped(keys, line, k, p, s)
    ensures Shaped(keys, line[..s] + v, k, p, s + Spaces(v, 0))
  {
    var line' := line[..s] + v;
    assert line'[..|keys[k]|] == line[..|keys[k]|] == keys[k];
    forall i | |keys[k]| <= i < p || p < i < s + Spaces(v, 0) ensures line'[i] == ' ' {
      assert line'[i] == if i < s then line[i] else v[i - s];
    }
  }

  lemma LineDefReplaced(keys: seq<string>, line: string, v: string)
    requires GoodKeys(keys) && LineDef(keys, line).Some?
    ensures var d := LineDef(keys, line).value;
            Defines(keys, line[..d.at] + v, d.key, d.at + Spaces(v, 0))
  {
    hide Shaped, LineDef, Defines, GoodKeys;
    var d := LineDef(keys, line).value;
    var p := LineDefShape(keys, line);
    ShapeReplaced(keys, line, d.key, p, d.at, v);
    LineDefIs(keys, line[..d.at] + v, d.key, p, d.at + Spaces(v, 0));
  }

  // Scanning the text inside a line is scanning the line.
  lemma SpacesInLine(t: string, p: nat, x: nat)
    requires p <= |t| && x <= LineEnd(t, p) - p
    ensures Spaces(t, p + x) == p + Spaces(t[p..LineEnd(t, p)], x)
  {
    var line := t[p..LineEnd(t, p)];
    var q := Spaces(line, x);
    forall i | p + x <= i < p + q ensures t[i] == ' ' { assert t[i] == line[i - p]; }
    assert q < |line| ==> t[p + q] == line[q];
    SpacesIs(t, p + x, p + q);
  }

  lemma KeyInLine(t: string, p: nat, key: string)
    requires p <= |t| && Clean(key)
    ensures key <= t[p..] <==> key <= t[p..LineEnd(t, p)]
  {
    var e := LineEnd(t, p);
    var line := t[p..e];
    assert line == t[p..][..e - p];
    if key <= t[p..] {
      forall i | 0 <= i < |key| ensures t[p + i] == key[i] && !IsEol(t[p + i]) { assert t[p..][i] == key[i]; }
      assert e == |t| || IsEol(t[p + (e - p)]);
      assert key == t[p..][..|key|] == line[..|key|];
    }
  }

  lemma LineEndFrom(t: string, p: nat, q: nat)
    requires p <= |t| && p <= q <= LineEnd(t, p)
    ensures LineEnd(t, q) == LineEnd(t, p) && NextLine(t, q) == NextLine(t, p)
  {
    LineEndIs(t, q, LineEnd(t, p));
  }

  // -- Lists of definitions --

  function Shift(ds: seq<Def>, n: int): (r: seq<Def>)
    requires forall i :: 0 <= i < |ds| ==> ds[i].at + n >= 0
    ensures |r| == |ds| && forall i :: 0 <= i < |ds| ==> r[i] == Def(ds[i].key, ds[i].at + n, ds[i].len)
  {
    seq(|ds|, i requires 0 <= i < |ds| => Def(ds[i].key, ds[i].at + n, ds[i].len))
  }

  // Equal text from some line on has equal definitions, up to their position.
  lemma {:induction false} DefsShift(keys: seq<string>, t: string, p: nat, t': string, p': nat)
    requires p <= |t| && p' <= |t'| && t[p..] == t'[p'..]
    ensures Defs(keys, t', p') == Shift(Defs(keys, t, p), p' - p)
    decreases |t| - p
  {
    hide LineDef, LineEnd, DefAt, NextLine, Shift;
    assert |t| - p == |t[p..]| && |t'| - p' == |t'[p'..]|;
    if p < |t| {
      SameLine(t, p, t', p');
      DefAtShift(keys, t, p, t', p');
      var n, n' := NextLine(t, p), NextLine(t', p');
      assert t[n..] == t'[n'..] by {
        assert t[n..] == t[p..][n - p..] && t'[n'..] == t'[p'..][n - p..];
      }
      DefsShift(keys, t, n, t', n');
      ShiftConcat(DefAt(keys, t, p), Defs(keys, t, n), p' - p);
    }
  }

  lemma ShiftConcat(a: seq<Def>, b: seq<Def>, n: int)
    requires forall i :: 0 <= i < |a| ==> a[i].at + n >= 0
    requires forall i :: 0 <= i < |b| ==> b[i].at + n >= 0
    ensures Shift(a + b, n) == Shift(a, n) + Shift(b, n)
  {
  }

  lemma SameLine(t: string, p: nat, t': string, p': nat)
    requires p <= |t| && p' <= |t'| && t[p..] == t'[p'..]
    ensures LineEnd(t', p') - p' == LineEnd(t, p) - p && NextLine(t', p') - p' == NextLine(t, p) - p
    ensures t'[p'..LineEnd(t', p')] == t[p..LineEnd(t, p)]
  {
    hide LineEnd;
    SuffixChars(t, p, t', p');
    LineEndIs(t', p', LineEnd(t, p) - p + p');
  }

  lemma SuffixChars(t: string, p: nat, t': string, p': nat)
    requires p <= |t| && p' <= |t'| && t[p..] == t'[p'..]
    ensures |t'| - p' == |t| - p && forall i {:trigger t'[i]} :: p' <= i < |t'| ==> t'[i] == t[i - p' + p]
  {
    assert |t| - p == |t[p..]| && |t'| - p' == |t'[p'..]|;
    forall i | p' <= i < |t'| ensures t'[i] == t[i - p' + p] {
      assert t'[i] == t'[p'..][i - p'] && t[i - p' + p] == t[p..][i - p'];
    }
  }

  lemma DefAtShift(keys: seq<string>, t: string, p: nat, t': string, p': nat)
    requires p <= |t| && p' <= |t'| && t[p..] == t'[p'..]
    ensures DefAt(keys, t', p') == Shift(DefAt(keys, t, p), p' - p)
  {
    hide LineDef, LineEnd;
    SameLine(t, p, t', p');
  }

  lemma DefsStep(keys: seq<string>, t: string, p: nat)
    requires p <= |t|
    ensures Defs(keys, t, p) == if p == |t| then [] else DefAt(keys, t, p) + Defs(keys, t, NextLine(t, p))
  {
  }

  // Cutting the text at an end-of-line character cuts the list of definitions.
  lemma {:induction false} DefsSplit(keys: seq<string>, t: string, p: nat, m: nat)
    requires p <= m < |t| && IsEol(t[m])
    ensures Defs(keys, t, p) == Defs(keys, t[..m], p) + Defs(keys, t, m + 1)
    decreases m - p
  {
    hide *;
    LineEndKept(t, p, m);
    SameLineBefore(keys, t, p, m);
    if LineEnd(t, p) < m {
      DefsSplit(keys, t, LineEnd(t, p) + 1, m);
      SplitLater(keys, t, p, m);
    } else if p < m {
      SplitHere(keys, t, p, m);
    } else {
      SplitAtStart(keys, t, m);
    }
  }

  lemma LineEndKept(t: string, p: nat, m: nat)
    requires p <= m < |t| && IsEol(t[m])
    ensures LineEnd(t, p) <= m && LineEnd(t[..m], p) == LineEnd(t, p)
  {
    LineEndIs(t[..m], p, LineEnd(t, p));
  }

  lemma SplitLater(keys: seq<string>, t: string, p: nat, m: nat)
    requires p <= m < |t| && LineEnd(t, p) < m && LineEnd(t[..m], p) == LineEnd(t, p)
    requires DefAt(keys, t[..m], p) == DefAt(keys, t, p)
    requires var e := LineEnd(t, p); Defs(keys, t, e + 1) == Defs(keys, t[..m], e + 1) + Defs(keys, t, m + 1)
    ensures Defs(keys, t, p) == Defs(keys, t[..m], p) + Defs(keys, t, m + 1)
  {
    hide LineDef, DefAt, LineEnd, Defs;
    var e := LineEnd(t, p);
    DefsStep(keys, t, p);
    DefsStep(keys, t[..m], p);
    Regroup(DefAt(keys, t, p), Defs(keys, t[..m], e + 1), Defs(keys, t, m + 1));
  }

  lemma SplitHere(keys: seq<string>, t: string, p: nat, m: nat)
    requires p < m < |t| && LineEnd(t, p) == LineEnd(t[..m], p) == m
    requires DefAt(keys, t[..m], p) == DefAt(keys, t, p)
    ensures Defs(keys, t, p) == Defs(keys, t[..m], p) + Defs(keys, t, m + 1)
  {
    hide LineDef, DefAt, LineEnd, Defs;
    DefsStep(keys, t, p);
    DefsStep(keys, t[..m], p);
    DefsStep(keys, t[..m], m);
    Regroup(DefAt(keys, t, p), [], Defs(keys, t, m + 1));
  }

  lemma SplitAtStart(keys: seq<string>, t: string, m: nat)
    requires m < |t| && IsEol(t[m])
    ensures Defs(keys, t, m) == Defs(keys, t[..m], m) + Defs(keys, t, m + 1)
  {
    hide Defs;
    DefsStep(keys, t[..m], m);
    EmptyLine(keys, t, m);
    Regroup([], [], Defs(keys, t, m + 1));
  }

  lemma Regroup(a: seq<Def>, b: seq<Def>, c: seq<Def>)
    ensures a + (b + c) == (a + b) + c
    ensures a + [] == a && [] + a == a
  {
  }

  lemma SameLineBefore(keys: seq<string>, t: string, p: nat, m: nat)
    requires p <= m < |t| && IsEol(t[m])
    ensures DefAt(keys, t[..m], p) == DefAt(keys, t, p)
  {
    hide LineDef;
    var e := LineEnd(t, p);
    LineEndIs(t[..m], p, e);
    assert t[..m][p..e] == t[p..e];
  }

  // A line without characters holds no definition.
  lemma EmptyLine(keys: seq<string>, t: string, p: nat)
    requires p < |t| && IsEol(t[p])
    ensures Defs(keys, t, p) == Defs(keys, t, p + 1)
  {
    assert LineEnd(t, p) == p && t[p..p] == "";
    assert DefAt(keys, t, p) == [];
  }

  // p starts a line.
  predicate LineStart(t: string, p: nat) {
    p <= |t| && (p == 0 || IsEol(t[p - 1]))
  }

  lemma DefsFrom(keys: seq<string>, t: string, p: nat)
    requires LineStart(t, p)
    ensures Defs(keys, t, 0) == Defs(keys, t[..p], 0) + Defs(keys, t, p)
  {
    hide DefAt, LineEnd;
    if p > 0 {
      DefsSplit(keys, t, 0, p - 1);
      DefsSplit(keys, t[..p], 0, p - 1);
      assert t[..p][..p - 1] == t[..p - 1];
    }
  }

  // The line that holds the i-th definition.
  lemma {:induction false} LineOf(keys: seq<string>, t: string, p0: nat, i: nat) returns (p: nat)
    requires LineStart(t, p0) && i < |Defs(keys, t, p0)|
    ensures p0 <= p < |t| && LineStart(t, p) && DefAt(keys, t, p) == [Defs(keys, t, p0)[i]]
    ensures |Defs(keys, t, p)| == |Defs(keys, t, p0)| - i
    decreases |t| - p0
  {
    var ds := DefAt(keys, t, p0);
    if i < |ds| {
      p := p0;
    } else {
      p := LineOf(keys, t, NextLine(t, p0), i - |ds|);
    }
  }

  // Definitions do not overlap and come in order.
  lemma {:induction false} DefsSorted(keys: seq<string>, t: string, p: nat, i: nat, j: nat)
    requires p <= |t| && i < j < |Defs(keys, t, p)|
    ensures Defs(keys, t, p)[i].at + Defs(keys, t, p)[i].len < Defs(keys, t, p)[j].at
    decreases |t| - p
  {
    hide LineDef;
    var ds := DefAt(keys, t, p);
    if i >= |ds| {
      DefsSorted(keys, t, NextLine(t, p), i - |ds|, j - |ds|);
    }
  }

  // The index of key k's first definition; -1: none.
  function First(ds: seq<Def>, k: nat): (i: int)
    ensures -1 <= i < |ds|
    ensures i >= 0 ==> ds[i].key == k
    ensures forall j :: 0 <= j < (if i < 0 then |ds| else i) ==> ds[j].key != k
  {
    if ds == [] then -1
    else if ds[0].key == k then 0
    else var i := First(ds[1..], k); if i < 0 then -1 else i + 1
  }

  // The value a fresh parse finds for key k.
  function Lookup(keys: seq<string>, t: string, k: nat): Option<string> {
    var ds := Defs(keys, t, 0);
    var i := First(ds, k);
    if i < 0 then None else Some(Text(t, ds[i]))
  }

  function Text(t: string, d: Def): string
    requires d.at + d.len <= |t|
  {
    t[d.at..d.at + d.len]
  }

  // -- A sample --

  const SAMPLE_KEYS := ["A", "AB"]
  const SAMPLE := "A = x\r\nAB=y\U{15}A=z"

  // Three definitions: LF, CR and 0x15 each end a line, the longer key is the one meant,
  // blanks around '=' do not count, and the first definition is the one found.
  lemma SampleText()
    ensures Defs(SAMPLE_KEYS, SAMPLE, 0) == [Def(0, 4, 1), Def(1, 10, 1), Def(0, 14, 1)]
    ensures Lookup(SAMPLE_KEYS, SAMPLE, 0) == Some("x") && Lookup(SAMPLE_KEYS, SAMPLE, 1) == Some("y")
  {
    hide DefAt, Defs, First, NextLine;
    SampleLines();
    DefsStep(SAMPLE_KEYS, SAMPLE, 0);
    DefsStep(SAMPLE_KEYS, SAMPLE, 6);
    DefsStep(SAMPLE_KEYS, SAMPLE, 7);
    DefsStep(SAMPLE_KEYS, SAMPLE, 12);
    DefsEnd(SAMPLE_KEYS, SAMPLE);
    assert Defs(SAMPLE_KEYS, SAMPLE, 0) == [Def(0, 4, 1), Def(1, 10, 1), Def(0, 14, 1)];
    SampleFirst();
    assert SAMPLE[4..5] == "x" && SAMPLE[10..11] == "y";
  }

  lemma DefsEnd(keys: seq<string>, t: string)
    ensures Defs(keys, t, |t|) == []
  {
  }

  lemma SampleLines()
    ensures |SAMPLE| == 15
    ensures NextLine(SAMPLE, 0) == 6 && DefAt(SAMPLE_KEYS, SAMPLE, 0) == [Def(0, 4, 1)]
    ensures NextLine(SAMPLE, 6) == 7 && DefAt(SAMPLE_KEYS, SAMPLE, 6) == []
    ensures NextLine(SAMPLE, 7) == 12 && DefAt(SAMPLE_KEYS, SAMPLE, 7) == [Def(1, 10, 1)]
    ensures NextLine(SAMPLE, 12) == 15 && DefAt(SAMPLE_KEYS, SAMPLE, 12) == [Def(0, 14, 1)]
  {
    hide LineEnd;
    SampleLine(SAMPLE, 0, 5, "A = x", 0, 2, 4);
    SampleLine(SAMPLE, 7, 11, "AB=y", 1, 2, 3);
    SampleLine(SAMPLE, 12, 15, "A=z", 0, 1, 2);
    LineEndIs(SAMPLE, 6, 6);
    NoKey(SAMPLE[6..6]);
  }

  lemma NoKey(line: string)
    requires line == ""
    ensures LineDef(SAMPLE_KEYS, line) == None
  {
  }

  lemma SampleLine(t: string, p: nat, e: nat, line: string, k: nat, eq: nat, at: nat)
    requires p <= e <= |t| && t[p..e] == line && |line| == at + 1
    requires (line, k, eq, at) in {("A = x", 0, 2, 4), ("AB=y", 1, 2, 3), ("A=z", 0, 1, 2)} && (e < |t| ==> IsEol(t[e]))
    ensures LineEnd(t, p) == e && DefAt(SAMPLE_KEYS, t, p) == [Def(k, p + at, 1)]
  {
    hide LineDef, LineEnd;
    forall i | p <= i < e ensures !IsEol(t[i]) { assert t[i] == line[i - p]; }
    LineEndIs(t, p, e);
    assert GoodKeys(SAMPLE_KEYS);
    assert SAMPLE_KEYS[k] <= line;
    LineDefIs(SAMPLE_KEYS, line, k, eq, at);
  }

  lemma SampleFirst()
    ensures var ds := [Def(0, 4, 1), Def(1, 10, 1), Def(0, 14, 1)]; First(ds, 0) == 0 && First(ds, 1) == 1
  {
  }

  // -- The table of slices --

  const NULL := -1

  datatype Attr = Attr(textData: int, textLength: nat)

  predicate SliceIs(a: Attr, ds: seq<Def>, k: nat) {
    var i := First(ds, k);
    if i < 0 then a.textData == NULL else a == Attr(ds[i].at, ds[i].len)
  }

  // The table agrees with a fresh parse of the text: longest key, first definition wins.
  predicate Indexes(keys: seq<string>, t: string, table: seq<Attr>) {
    |table| == |keys| && forall k :: 0 <= k < |keys| ==> SliceIs(table[k], Defs(keys, t, 0), k)
  }

  // -- Replacing a value --

  function Updated(t: string, at: nat, len: nat, v: string): string
    requires at + len <= |t|
  {
    t[..at] + v + t[at + len..]
  }

  // Every slice behind position at moves by diff.
  function Moved(table: seq<Attr>, at: nat, diff: int): (r: seq<Attr>)
    ensures |r| == |table|
    ensures forall k :: 0 <= k < |r| ==> r[k] == if table[k].textData > at then Attr(table[k].textData + diff, table[k].textLength) else table[k]
  {
    seq(|table|, k requires 0 <= k < |table| =>
      if table[k].textData > at then Attr(table[k].textData + diff, table[k].textLength) else table[k])
  }

  // The list of definitions around the i-th one, which the line at p holds.
  lemma Around(keys: seq<string>, t: string, i: nat) returns (p: nat)
    requires i < |Defs(keys, t, 0)|
    ensures p < |t| && LineStart(t, p) && DefAt(keys, t, p) == [Defs(keys, t, 0)[i]]
    ensures Defs(keys, t, 0)[..i] == Defs(keys, t[..p], 0)
    ensures Defs(keys, t, 0)[i + 1..] == Defs(keys, t, NextLine(t, p))
  {
    hide LineDef, LineEnd, DefAt, Defs, NextLine;
    p := LineOf(keys, t, 0, i);
    DefsFrom(keys, t, p);
    DefsHere(keys, t, p);
    Middle(Defs(keys, t[..p], 0), DefAt(keys, t, p), Defs(keys, t, NextLine(t, p)), i);
  }

  lemma DefsHere(keys: seq<string>, t: string, p: nat)
    requires p < |t|
    ensures Defs(keys, t, p) == DefAt(keys, t, p) + Defs(keys, t, NextLine(t, p))
  {
  }

  lemma Middle(a: seq<Def>, b: seq<Def>, c: seq<Def>, i: nat)
    requires |b| == 1 && |a| == i
    ensures (a + (b + c))[..i] == a && (a + (b + c))[i + 1..] == c
  {
  }

  lemma SubSlice(t: string, p: nat, e: nat, q: nat)
    requires p <= q <= e <= |t|
    ensures t[p..e][..q - p] == t[p..q]
  {
  }

  lemma UpdatedLine(t: string, at: nat, len: nat, v: string, p: nat, m: nat)
    requires p <= at && at + len <= |t| && m <= |v|
    ensures at + m <= |Updated(t, at, len, v)|
    ensures Updated(t, at, len, v)[p..at + m] == t[p..at] + v[..m]
  {
  }

  // The line at p with its value replaced, in place: the new value ends where v does,
  // or at the first end of line in it.
  lemma LineReplaced(keys: seq<string>, t: string, p: nat, v: string)
    requires GoodKeys(keys) && p <= |t| && DefAt(keys, t, p) != []
    ensures var d, m := DefAt(keys, t, p)[0], LineEnd(v, 0);
            var n := Spaces(v[..m], 0);
            DefAt(keys, Updated(t, d.at, d.len, v), p) == [Def(d.key, d.at + n, m - n)]
  {
    hide LineDef;
    var d, e, m := DefAt(keys, t, p)[0], LineEnd(t, p), LineEnd(v, 0);
    var t', line := Updated(t, d.at, d.len, v), t[p..e];
    LineEndIs(t', p, d.at + m);
    LineDefReplaced(keys, line, v[..m]);
    UpdatedLine(t, d.at, d.len, v, p, m);
    SubSlice(t, p, e, d.at);
  }

  lemma LineUpdated(keys: seq<string>, t: string, p: nat, v: string)
    requires GoodKeys(keys) && p <= |t| && DefAt(keys, t, p) != [] && GoodValue(v)
    ensures var d := DefAt(keys, t, p)[0];
            var t' := Updated(t, d.at, d.len, v);
            && DefAt(keys, t', p) == [Def(d.key, d.at, |v|)]
            && NextLine(t', p) == NextLine(t, p) + |v| - d.len
            && t'[NextLine(t', p)..] == t[NextLine(t, p)..]
  {
    hide LineDef;
    var d, e := DefAt(keys, t, p)[0], LineEnd(t, p);
    var t' := Updated(t, d.at, d.len, v);
    LineEndIs(t', p, e + |v| - d.len);
    LineEndIs(v, 0, |v|);
    LineReplaced(keys, t, p, v);
    assert v[..|v|] == v;
  }

  lemma Later(keys: seq<string>, t: string, i: nat)
    requires i < |Defs(keys, t, 0)|
    ensures var ds := Defs(keys, t, 0); forall j :: i < j < |ds| ==> ds[j].at > ds[i].at + ds[i].len
  {
    hide Defs;
    var ds := Defs(keys, t, 0);
    forall j | i < j < |ds| ensures ds[j].at > ds[i].at + ds[i].len { DefsSorted(keys, t, 0, i, j); }
  }

  // Text that changes only behind p has the same definitions before p.
  lemma SameBefore(keys: seq<string>, t: string, t': string, p: nat)
    requires LineStart(t, p) && p <= |t'| && t'[..p] == t[..p]
    ensures Defs(keys, t', 0) == Defs(keys, t[..p], 0) + Defs(keys, t', p)
  {
    hide Defs;
    assert p > 0 ==> t'[..p][p - 1] == t[..p][p - 1];
    DefsFrom(keys, t', p);
  }

  // The definitions from the line on whose value is replaced.
  lemma UpdatedFrom(keys: seq<string>, t: string, p: nat, v: string)
    requires GoodKeys(keys) && p < |t| && DefAt(keys, t, p) != [] && GoodValue(v)
    ensures var d, rest := DefAt(keys, t, p)[0], Defs(keys, t, NextLine(t, p));
            && (forall j :: 0 <= j < |rest| ==> rest[j].at > d.at + d.len)
            && Defs(keys, Updated(t, d.at, d.len, v), p) == [Def(d.key, d.at, |v|)] + Shift(rest, |v| - d.len)
  {
    hide LineDef, LineEnd, DefAt, Shift, GoodKeys, GoodValue;
    var d := DefAt(keys, t, p)[0];
    var t' := Updated(t, d.at, d.len, v);
    LineUpdated(keys, t, p, v);
    DefsShift(keys, t, NextLine(t, p), t', NextLine(t', p));
    assert Defs(keys, t', p) == DefAt(keys, t', p) + Defs(keys, t', NextLine(t', p));
  }

  lemma UpdatedBehind(t: string, at: nat, len: nat, v: string, p: nat)
    requires p <= at && at + len <= |t|
    ensures p <= |Updated(t, at, len, v)| && Updated(t, at, len, v)[..p] == t[..p]
  {
  }

  lemma UpdatedDefs(keys: seq<string>, t: string, i: nat, v: string)
    requires GoodKeys(keys) && i < |Defs(keys, t, 0)| && GoodValue(v)
    ensures var ds := Defs(keys, t, 0);
            var d := ds[i];
            && (forall j :: i < j < |ds| ==> ds[j].at > d.at + d.len)
            && Defs(keys, Updated(t, d.at, d.len, v), 0) == ds[..i] + [Def(d.key, d.at, |v|)] + Shift(ds[i + 1..], |v| - d.len)
  {
    hide LineDef, LineEnd, DefAt, Shift, NextLine, GoodKeys, GoodValue, Updated, Defs;
    Later(keys, t, i);
    var ds := Defs(keys, t, 0);
    var d := ds[i];
    var p := Around(keys, t, i);
    assert DefAt(keys, t, p)[0] == d;
    UpdatedBehind(t, d.at, d.len, v, p);
    SameBefore(keys, t, Updated(t, d.at, d.len, v), p);
    UpdatedFrom(keys, t, p, v);
  }

  lemma SameKeys(ds: seq<Def>, ds': seq<Def>, k: nat)
    requires |ds'| == |ds| && forall i :: 0 <= i < |ds| ==> ds'[i].key == ds[i].key
    ensures First(ds', k) == First(ds, k)
  {
  }

  // What the value reads back as decides whether the table still agrees: exactly the
  // values without end-of-line characters and without a leading space do.
  lemma UpdateKeepsIndex(keys: seq<string>, t: string, table: seq<Attr>, k: nat, v: string)
    requires GoodKeys(keys) && Indexes(keys, t, table) && k < |keys| && table[k].textData != NULL
    requires '\0' !in v
    ensures var a := table[k];
            && 0 <= a.textData && a.textData + a.textLength <= |t|
            && (Indexes(keys, Updated(t, a.textData, a.textLength, v),
                        Moved(table, a.textData, |v| - a.textLength)[k := Attr(a.textData, |v|)])
                <==> GoodValue(v))
  {
    hide Indexes, Updated, Moved, GoodKeys, GoodValue;
    if GoodValue(v) {
      GoodUpdate(keys, t, table, k, v);
    } else {
      BadUpdate(keys, t, table, k, v);
    }
  }

  lemma GoodUpdate(keys: seq<string>, t: string, table: seq<Attr>, k: nat, v: string)
    requires GoodKeys(keys) && Indexes(keys, t, table) && k < |keys| && table[k].textData != NULL && GoodValue(v)
    ensures var a := table[k];
            && 0 <= a.textData && a.textData + a.textLength <= |t|
            && Indexes(keys, Updated(t, a.textData, a.textLength, v),
                       Moved(table, a.textData, |v| - a.textLength)[k := Attr(a.textData, |v|)])
  {
    hide Defs, GoodKeys, GoodValue, Indexes, SliceIs, Shift, Updated;
    SliceOf(keys, t, table, k);
    var ds, a := Defs(keys, t, 0), table[k];
    HasFirst(ds, a, k);
    var i: nat := First(ds, k);
    UpdatedDefs(keys, t, i, v);
    Earlier(keys, t, i);
    var t' := Updated(t, a.textData, a.textLength, v);
    var ds', table' := Defs(keys, t', 0), Moved(table, a.textData, |v| - a.textLength)[k := Attr(a.textData, |v|)];
    forall j | 0 <= j < |keys| && j != k ensures SliceIs(table'[j], ds', j) {
      SliceOf(keys, t, table, j);
      SliceMoves(ds, ds', i, table[j], |v|, j);
    }
    SliceReplaced(ds, ds', i, |v|, k);
    AllButOne(keys, t', table', k);
  }

  lemma Earlier(keys: seq<string>, t: string, i: nat)
    requires i < |Defs(keys, t, 0)|
    ensures var ds := Defs(keys, t, 0); forall j :: 0 <= j < i ==> ds[j].at < ds[i].at
  {
    hide Defs;
    var ds := Defs(keys, t, 0);
    forall j | 0 <= j < i ensures ds[j].at < ds[i].at { DefsSorted(keys, t, 0, j, i); }
  }

  // The slices of the other keys follow their text.
  lemma SliceMoves(ds: seq<Def>, ds': seq<Def>, i: nat, a: Attr, len: nat, k: nat)
    requires i < |ds| && ds[i].key != k && SliceIs(a, ds, k)
    requires (forall j :: i < j < |ds| ==> ds[j].at > ds[i].at + ds[i].len) && (forall j :: 0 <= j < i ==> ds[j].at < ds[i].at)
    requires ds' == ds[..i] + [Def(ds[i].key, ds[i].at, len)] + Shift(ds[i + 1..], len - ds[i].len)
    ensures SliceIs(Moved([a], ds[i].at, len - ds[i].len)[0], ds', k)
  {
    hide Shift;
    forall m | 0 <= m < |ds| ensures EditedAt(ds, ds', i, len, m) { EditedOne(ds, ds', i, len, m); }
    SameKeys(ds, ds', k);
    if First(ds, k) >= 0 { EditedOne(ds, ds', i, len, First(ds, k)); }
  }

  // Where the m-th definition ends up when the i-th gets a value of another length.
  predicate EditedAt(ds: seq<Def>, ds': seq<Def>, i: nat, len: nat, m: nat)
    requires i < |ds| && m < |ds|
  {
    && |ds'| == |ds| && ds'[m].key == ds[m].key
    && ds'[m].at == ds[m].at + (if m > i then len - ds[i].len else 0)
    && ds'[m].len == if m == i then len else ds[m].len
  }

  lemma EditedOne(ds: seq<Def>, ds': seq<Def>, i: nat, len: nat, m: nat)
    requires i < |ds| && m < |ds| && forall j :: i < j < |ds| ==> ds[j].at > ds[i].at + ds[i].len
    requires ds' == ds[..i] + [Def(ds[i].key, ds[i].at, len)] + Shift(ds[i + 1..], len - ds[i].len)
    ensures EditedAt(ds, ds', i, len, m)
  {
  }

  lemma SliceReplaced(ds: seq<Def>, ds': seq<Def>, i: nat, len: nat, k: nat)
    requires i < |ds| && i == First(ds, k)
    requires forall j :: i < j < |ds| ==> ds[j].at > ds[i].at + ds[i].len
    requires ds' == ds[..i] + [Def(ds[i].key, ds[i].at, len)] + Shift(ds[i + 1..], len - ds[i].len)
    ensures SliceIs(Attr(ds[i].at, len), ds', k)
  {
    SameKeys(ds, ds', k);
  }

  // What any new value reads back as.
  lemma ReplacedDef(keys: seq<string>, t: string, i: nat, v: string)
    requires GoodKeys(keys) && i < |Defs(keys, t, 0)|
    ensures var ds, m := Defs(keys, t, 0), LineEnd(v, 0);
            var ds', n := Defs(keys, Updated(t, ds[i].at, ds[i].len, v), 0), Spaces(v[..m], 0);
            i < |ds'| && ds'[..i] == ds[..i] && ds'[i] == Def(ds[i].key, ds[i].at + n, m - n)
  {
    hide LineDef, DefAt, GoodKeys, Spaces, LineEnd, NextLine;
    var ds := Defs(keys, t, 0);
    var p := Around(keys, t, i);
    var t' := Updated(t, ds[i].at, ds[i].len, v);
    LineReplaced(keys, t, p, v);
    SameBefore(keys, t, t', p);
    assert Defs(keys, t', p) == DefAt(keys, t', p) + Defs(keys, t', NextLine(t', p));
  }

  lemma BadUpdate(keys: seq<string>, t: string, table: seq<Attr>, k: nat, v: string)
    requires GoodKeys(keys) && Indexes(keys, t, table) && k < |keys| && table[k].textData != NULL
    requires '\0' !in v && !GoodValue(v)
    ensures var a := table[k];
            && 0 <= a.textData && a.textData + a.textLength <= |t|
            && !Indexes(keys, Updated(t, a.textData, a.textLength, v),
                        Moved(table, a.textData, |v| - a.textLength)[k := Attr(a.textData, |v|)])
  {
    hide Defs, GoodKeys, GoodValue, Spaces, LineEnd, Updated, Moved;
    var ds, a := Defs(keys, t, 0), table[k];
    var i := First(ds, k);
    var ds' := Defs(keys, Updated(t, a.textData, a.textLength, v), 0);
    BadValue(v);
    ReplacedDef(keys, t, i, v);
    FirstIs(ds', k, i);
    var table' := Moved(table, a.textData, |v| - a.textLength)[k := Attr(a.textData, |v|)];
    assert !SliceIs(table'[k], ds', k);
  }

  lemma FirstIs(ds: seq<Def>, k: nat, i: nat)
    requires i < |ds| && ds[i].key == k && forall j :: 0 <= j < i ==> ds[..i][j].key != k
    ensures First(ds, k) == i
  {
    forall j | 0 <= j < i ensures ds[j].key != k { assert ds[..i][j] == ds[j]; }
  }

  // A value with an end of line or a leading space reads back shorter.
  lemma BadValue(v: string)
    requires '\0' !in v && !GoodValue(v)
    ensures LineEnd(v, 0) < |v| || Spaces(v[..LineEnd(v, 0)], 0) > 0
  {
    if LineEnd(v, 0) == |v| { assert v[..|v|] == v; }
  }

  // -- Adding a definition --

  // The text a new line is added to.
  function Terminated(t: string): (r: string)
    ensures |t| <= |r| <= |t| + 2 && r[..|t|] == t && LineStart(r, |r|)
  {
    if t != "" && !IsEol(t[|t| - 1]) then t + "\r\n" else t
  }

  const EQUALS := " = "
  const CRLF := "\r\n"

  // The formatter that prints a new line writes no more than this (source/arm11/fmt.c,
  // ee_sprintf).
  const PRINT_MAX: nat := 0xFFF

  function Printed(line: string): (r: string)
    ensures r <= line && |r| == if |line| < PRINT_MAX then |line| else PRINT_MAX
  {
    if |line| < PRINT_MAX then line else line[..PRINT_MAX]
  }

  function NewLine(keys: seq<string>, k: nat, v: string): (line: string)
    requires k < |keys|
    ensures |line| == |keys[k]| + 3 + |v| + 2
  {
    keys[k] + EQUALS + v + CRLF
  }

  // The text after a definition was added.
  function Added(keys: seq<string>, t: string, k: nat, v: string): (r: string)
    requires k < |keys|
    ensures |r| == |Terminated(t)| + |Printed(NewLine(keys, k, v))|
  {
    Terminated(t) + Printed(NewLine(keys, k, v))
  }

  // Where the value of the added definition starts.
  function ValueAt(keys: seq<string>, t: string, k: nat): nat
    requires k < |keys|
  {
    |Terminated(t)| + |keys[k]| + 3
  }

  // The value is printed whole.
  predicate Prints(keys: seq<string>, k: nat, v: string)
    requires k < |keys|
  {
    |keys[k]| + 3 + |v| <= PRINT_MAX
  }

  // What is printed of the line end.
  function PrintedEnd(keys: seq<string>, k: nat, v: string): (r: string)
    requires k < |keys| && Prints(keys, k, v)
    ensures r in {"", "\r", "\r\n"}
  {
    var left := PRINT_MAX - (|keys[k]| + 3 + |v|);
    if left >= 2 then CRLF else if left == 1 then "\r" else ""
  }

  lemma PrintedWhole(keys: seq<string>, k: nat, v: string)
    requires k < |keys| && Prints(keys, k, v)
    ensures Printed(NewLine(keys, k, v)) == keys[k] + EQUALS + v + PrintedEnd(keys, k, v)
  {
    var line, left := keys[k] + EQUALS + v, PRINT_MAX - (|keys[k]| + 3 + |v|);
    if left < 2 { assert (line + CRLF)[..|line| + left] == line + PrintedEnd(keys, k, v); }
  }

  // The text gains the whole terminated line exactly when the line end fits too.
  lemma LineIsWhole(keys: seq<string>, t: string, k: nat, v: string)
    requires k < |keys|
    ensures Added(keys, t, k, v) == Terminated(t) + NewLine(keys, k, v) <==> |keys[k]| + 3 + |v| + 2 <= PRINT_MAX
  {
  }

  lemma TerminatedDefs(keys: seq<string>, t: string)
    ensures Defs(keys, Terminated(t), 0) == Defs(keys, t, 0)
  {
    var r := Terminated(t);
    if r != t {
      DefsSplit(keys, r, 0, |t|);
      EmptyLine(keys, r, |t| + 1);
    }
  }

  lemma KeyShape(keys: seq<string>, k: nat)
    requires k < |keys|
    ensures Shaped(keys, keys[k] + EQUALS, k, |keys[k]| + 1, |keys[k]| + 3)
  {
  }

  // `KEY = w` defines the key.
  lemma KeyLine(keys: seq<string>, k: nat, w: string)
    requires GoodKeys(keys) && k < |keys|
    ensures Defines(keys, keys[k] + EQUALS + w, k, |keys[k]| + 3 + Spaces(w, 0))
  {
    hide Defines, GoodKeys, Spaces, Shaped;
    var line, n := keys[k] + EQUALS, |keys[k]|;
    KeyShape(keys, k);
    ShapeReplaced(keys, line, k, n + 1, n + 3, w);
    assert line[..n + 3] == line;
    LineDefIs(keys, line + w, k, n + 1, n + 3 + Spaces(w, 0));
  }

  // The added line.
  lemma AddedLine(keys: seq<string>, t: string, k: nat, v: string)
    requires GoodKeys(keys) && k < |keys| && Prints(keys, k, v)
    ensures var t', p, at, m := Added(keys, t, k, v), |Terminated(t)|, ValueAt(keys, t, k), LineEnd(v, 0);
            && t'[..p] == Terminated(t) && at + |v| + |PrintedEnd(keys, k, v)| == |t'|
            && DefAt(keys, t', p) == [Def(k, at + Spaces(v[..m], 0), m - Spaces(v[..m], 0))]
  {
    hide LineDef, GoodKeys, Spaces, LineEnd, Terminated, Printed, PrintedEnd;
    PrintedWhole(keys, k, v);
    KeyLine(keys, k, v[..LineEnd(v, 0)]);
    AddedLineEnd(keys, t, k, v);
  }

  lemma AddedHolds(a: string, b: string, v: string, c: string, m: nat)
    requires m <= |v|
    ensures (a + b + v + c)[|a|..|a| + |b| + m] == b + v[..m]
  {
    var t := a + b + v + c;
    forall i | |a| <= i < |a| + |b| + m ensures t[i] == (b + v[..m])[i - |a|] {
    }
  }

  lemma AddedLineEnd(keys: seq<string>, t: string, k: nat, v: string)
    requires GoodKeys(keys) && k < |keys| && Prints(keys, k, v)
    ensures var t', p, m := Added(keys, t, k, v), |Terminated(t)|, LineEnd(v, 0);
            && LineEnd(t', p) == p + |keys[k]| + 3 + m
            && t'[p..LineEnd(t', p)] == keys[k] + EQUALS + v[..m]
  {
    hide Printed, PrintedEnd;
    var t', p, m, c := Added(keys, t, k, v), |Terminated(t)|, LineEnd(v, 0), PrintedEnd(keys, k, v);
    var line := keys[k] + EQUALS + v[..m];
    PrintedWhole(keys, k, v);
    AddedHolds(Terminated(t), keys[k] + EQUALS, v, c, m);
    assert t' == Terminated(t) + (keys[k] + EQUALS) + v + c;
    forall i | p <= i < p + |line| ensures !IsEol(t'[i]) {
      assert t'[i] == line[i - p];
      assert Clean(keys[k]);
    }
    LineEndIs(t', p, p + |line|);
  }

  lemma AddedDefs(keys: seq<string>, t: string, k: nat, v: string)
    requires GoodKeys(keys) && k < |keys| && Prints(keys, k, v)
    ensures var ds, ds' := Defs(keys, t, 0), Defs(keys, Added(keys, t, k, v), 0);
            var m := LineEnd(v, 0);
            var n := Spaces(v[..m], 0);
            && |ds| < |ds'| && ds'[..|ds|] == ds
            && ds'[|ds|] == Def(k, ValueAt(keys, t, k) + n, m - n)
            && (GoodValue(v) ==> |ds'| == |ds| + 1)
  {
    hide LineDef, GoodKeys, Spaces, LineEnd, Terminated, DefAt, GoodValue, NextLine, Printed, PrintedEnd;
    var t', p := Added(keys, t, k, v), |Terminated(t)|;
    AddedLine(keys, t, k, v);
    TerminatedDefs(keys, t);
    DefsFrom(keys, t', p);
    DefsStep(keys, t', p);
    if GoodValue(v) { AddedEnds(keys, t, k, v); }
  }

  lemma AddedEnds(keys: seq<string>, t: string, k: nat, v: string)
    requires GoodKeys(keys) && k < |keys| && GoodValue(v) && Prints(keys, k, v)
    ensures Defs(keys, Added(keys, t, k, v), NextLine(Added(keys, t, k, v), |Terminated(t)|)) == []
  {
    hide LineDef, GoodKeys, DefAt, Terminated, LineEnd, Defs, Printed;
    var t', p, c := Added(keys, t, k, v), |Terminated(t)|, PrintedEnd(keys, k, v);
    PrintedWhole(keys, k, v);
    AddedLineEnd(keys, t, k, v);
    LineEndIs(v, 0, |v|);
    NoMoreDefs(keys, t');
    if c == CRLF {
      assert NextLine(t', p) == |t'| - 1 && t'[|t'| - 1] == '\n';
      EmptyLine(keys, t', |t'| - 1);
    } else {
      assert NextLine(t', p) == |t'|;
    }
  }

  lemma NoMoreDefs(keys: seq<string>, t: string)
    ensures Defs(keys, t, |t|) == []
  {
  }

  // Adding a key the text does not define: the table agrees exactly when the value
  // reads back as written and is printed whole.
  lemma AddKeepsIndex(keys: seq<string>, t: string, table: seq<Attr>, k: nat, v: string)
    requires GoodKeys(keys) && Indexes(keys, t, table) && k < |keys| && table[k].textData == NULL
    requires '\0' !in v
    ensures Indexes(keys, Added(keys, t, k, v), table[k := Attr(ValueAt(keys, t, k), |v|)])
            <==> GoodValue(v) && Prints(keys, k, v)
  {
    hide Indexes, Defs, SliceIs, GoodKeys, GoodValue, Added, ValueAt, Prints;
    Missing(keys, t, table, k);
    if !Prints(keys, k, v) {
      CutIsWrong(keys, t, k, v);
      WrongSlice(keys, Added(keys, t, k, v), table, k, Attr(ValueAt(keys, t, k), |v|));
    } else if GoodValue(v) {
      GoodAdd(keys, t, table, k, v);
    } else {
      BadAdd(keys, t, k, v);
      WrongSlice(keys, Added(keys, t, k, v), table, k, Attr(ValueAt(keys, t, k), |v|));
    }
  }

  lemma WrongSlice(keys: seq<string>, t: string, table: seq<Attr>, k: nat, a: Attr)
    requires k < |keys| && !SliceIs(a, Defs(keys, t, 0), k)
    ensures k < |table| ==> !Indexes(keys, t, table[k := a])
  {
    hide Defs, SliceIs;
    if k < |table| { assert table[k := a][k] == a; }
  }

  lemma Missing(keys: seq<string>, t: string, table: seq<Attr>, k: nat)
    requires Indexes(keys, t, table) && k < |keys|
    ensures |table| == |keys| && (table[k].textData == NULL <==> First(Defs(keys, t, 0), k) < 0)
  {
    hide Defs;
    assert SliceIs(table[k], Defs(keys, t, 0), k);
  }

  // The definitions gain just the one that was added.
  lemma AddedOne(keys: seq<string>, t: string, k: nat, v: string)
    requires GoodKeys(keys) && k < |keys| && GoodValue(v) && Prints(keys, k, v)
    ensures Defs(keys, Added(keys, t, k, v), 0) == Defs(keys, t, 0) + [Def(k, ValueAt(keys, t, k), |v|)]
  {
    hide Defs, GoodKeys, GoodValue, Spaces, LineEnd, Added, ValueAt, Prints;
    AddedDefs(keys, t, k, v);
    ValueIsWhole(v);
    OneMore(Defs(keys, t, 0), Defs(keys, Added(keys, t, k, v), 0));
  }

  lemma OneMore(ds: seq<Def>, ds': seq<Def>)
    requires |ds'| == |ds| + 1 && ds'[..|ds|] == ds
    ensures ds' == ds + [ds'[|ds|]]
  {
  }

  lemma SliceGrows(a: Attr, ds: seq<Def>, d: Def, j: nat)
    requires SliceIs(a, ds, j) && (d.key == j ==> First(ds, j) < 0)
    ensures SliceIs(if d.key == j then Attr(d.at, d.len) else a, ds + [d], j)
  {
    FirstOfConcat(ds, d, j);
  }

  lemma GoodAdd(keys: seq<string>, t: string, table: seq<Attr>, k: nat, v: string)
    requires GoodKeys(keys) && Indexes(keys, t, table) && k < |keys| && table[k].textData == NULL
    requires GoodValue(v) && Prints(keys, k, v)
    ensures Indexes(keys, Added(keys, t, k, v), table[k := Attr(ValueAt(keys, t, k), |v|)])
  {
    hide Defs, SliceIs, GoodKeys, GoodValue, Added, ValueAt, Prints;
    var table' := table[k := Attr(ValueAt(keys, t, k), |v|)];
    Missing(keys, t, table, k);
    AddedOne(keys, t, k, v);
    forall j | 0 <= j < |keys| ensures SliceIs(table'[j], Defs(keys, Added(keys, t, k, v), 0), j) {
      SliceGrows(table[j], Defs(keys, t, 0), Def(k, ValueAt(keys, t, k), |v|), j);
    }
  }

  lemma BadAdd(keys: seq<string>, t: string, k: nat, v: string)
    requires GoodKeys(keys) && k < |keys| && First(Defs(keys, t, 0), k) < 0 && Prints(keys, k, v)
    requires '\0' !in v && !GoodValue(v)
    ensures !SliceIs(Attr(ValueAt(keys, t, k), |v|), Defs(keys, Added(keys, t, k, v), 0), k)
  {
    hide Defs, GoodKeys, GoodValue, Spaces, LineEnd, Added, ValueAt, Prints;
    var ds, ds' := Defs(keys, t, 0), Defs(keys, Added(keys, t, k, v), 0);
    AddedDefs(keys, t, k, v);
    FirstIs(ds', k, |ds|);
    BadValue(v);
  }

  // The slice recorded for a value that was cut reaches past the end of the text.
  lemma CutIsWrong(keys: seq<string>, t: string, k: nat, v: string)
    requires k < |keys| && !Prints(keys, k, v)
    ensures ValueAt(keys, t, k) + |v| > |Added(keys, t, k, v)|
    ensures !SliceIs(Attr(ValueAt(keys, t, k), |v|), Defs(keys, Added(keys, t, k, v), 0), k)
  {
    hide Defs;
  }

  lemma ValueIsWhole(v: string)
    requires GoodValue(v)
    ensures LineEnd(v, 0) == |v| && Spaces(v[..LineEnd(v, 0)], 0) == 0
  {
    LineEndIs(v, 0, |v|);
    assert v[..|v|] == v;
  }

  lemma FirstOfConcat(ds: seq<Def>, d: Def, k: nat)
    ensures First(ds + [d], k) == if First(ds, k) >= 0 then First(ds, k) else if d.key == k then |ds| else -1
  {
    var i, e := First(ds, k), ds + [d];
    var i' := First(e, k);
    if i >= 0 {
      FirstIs(e, k, i);
    } else if d.key == k {
      FirstIs(e, k, |ds|);
    }
  }

  // -- Removing a definition --

  // lb..le covers the definition's line at p, possibly with the empty line before it
  // (only at the very start of the text) or after it.
  predicate Covers(t: string, p: nat, lb: nat, le: nat)
    requires p <= |t|
  {
    var n := NextLine(t, p);
    && (lb == p || (lb == 0 && p == 1 && IsEol(t[0])))
    && (le == n || (n < |t| && IsEol(t[n]) && le == n + 1))
  }

  function Removed(t: string, lb: nat, le: nat): string
    requires lb <= le <= |t|
  {
    t[..lb] + t[le..]
  }

  // The line at p holds key k's first definition, and lb..le covers it.
  ghost predicate CutsDefinition(keys: seq<string>, t: string, k: nat, p: nat, lb: nat, le: nat) {
    var ds := Defs(keys, t, 0);
    var i := First(ds, k);
    && i >= 0 && p < |t| && LineStart(t, p) && lb <= le <= |t| && Covers(t, p, lb, le)
    && ds[..i] == Defs(keys, t[..p], 0) && ds[i + 1..] == Defs(keys, t, NextLine(t, p))
  }

  // Empty lines next to the line may go with it.
  lemma EmptyNeighbours(keys: seq<string>, t: string, p: nat, lb: nat, le: nat)
    requires p <= |t| && LineStart(t, p) && Covers(t, p, lb, le)
    ensures lb <= p <= le <= |t| && LineStart(t, lb)
    ensures Defs(keys, t[..lb], 0) == Defs(keys, t[..p], 0) && Defs(keys, t, le) == Defs(keys, t, NextLine(t, p))
  {
    hide Defs;
    if le != NextLine(t, p) { EmptyLine(keys, t, NextLine(t, p)); }
    if lb != p { FirstLineEmpty(keys, t); }
  }

  lemma FirstLineEmpty(keys: seq<string>, t: string)
    requires |t| >= 1 && IsEol(t[0])
    ensures Defs(keys, t[..1], 0) == Defs(keys, t[..0], 0)
  {
    EmptyLine(keys, t[..1], 0);
  }

  // The line that holds a slice.
  lemma SliceLine(keys: seq<string>, t: string, a: Attr, k: nat) returns (p: nat)
    requires SliceIs(a, Defs(keys, t, 0), k) && a.textData != NULL
    ensures var ds := Defs(keys, t, 0);
            var i := First(ds, k);
            && i >= 0 && p < |t| && LineStart(t, p)
            && p < a.textData && a.textData + a.textLength == LineEnd(t, p)
            && ds[..i] == Defs(keys, t[..p], 0) && ds[i + 1..] == Defs(keys, t, NextLine(t, p))
  {
    hide Defs, LineEnd, NextLine;
    p := Around(keys, t, First(Defs(keys, t, 0), k));
  }

  // Where the line of the character at `at` is taken to begin: behind the last end-of-line
  // character up to there. The character at position 0 is looked at only when it is that one.
  function LineBack(t: string, at: nat): (lb: nat)
    requires at < |t|
    ensures lb <= at + 1
  {
    if IsEol(t[at]) then at + 1 else if at <= 1 then 0 else LineBack(t, at - 1)
  }

  // And where it is taken to end: past the end of the line, and past one more end-of-line
  // character if there is one.
  function LineAhead(t: string, from: nat): (le: nat)
    requires from <= |t|
    ensures from <= le <= |t|
  {
    var n := NextLine(t, from);
    if LineEnd(t, from) < n < |t| && IsEol(t[n]) then n + 1 else n
  }

  lemma {:induction false} BackIsLine(t: string, p: nat, at: nat)
    requires LineStart(t, p) && p < at < LineEnd(t, p)
    ensures LineBack(t, at) == p || (LineBack(t, at) == 0 && p == 1)
  {
    if at - 1 > p {
      BackIsLine(t, p, at - 1);
    } else if p > 1 {
      assert LineBack(t, at) == LineBack(t, p) == LineBack(t, p - 1);
    }
  }

  lemma {:induction false} AheadIsLine(t: string, p: nat, from: nat)
    requires p <= |t| && p <= from <= LineEnd(t, p)
    ensures LineEnd(t, from) == LineEnd(t, p) && NextLine(t, from) == NextLine(t, p)
    decreases from - p
  {
    if p < from { AheadIsLine(t, p + 1, from); }
  }

  // A slice removeDefinition accepts: not empty, in the text, and not at its very start,
  // where the code stops with an error, unless an end-of-line character stands there.
  predicate Backed(t: string, a: Attr) {
    && a.textData != NULL && a.textLength != 0 && 0 <= a.textData && a.textData + a.textLength <= |t|
    && (a.textData > 0 || IsEol(t[0]))
  }

  // For a right slice that is the line of its definition.
  lemma RightCut(keys: seq<string>, t: string, k: nat, a: Attr) returns (p: nat)
    requires SliceIs(a, Defs(keys, t, 0), k) && a.textData != NULL && a.textLength != 0
    ensures Backed(t, a)
    ensures CutsDefinition(keys, t, k, p, LineBack(t, a.textData), LineAhead(t, a.textData + a.textLength))
  {
    hide Defs, LineEnd, NextLine;
    p := SliceLine(keys, t, a, k);
    BackIsLine(t, p, a.textData);
    AheadIsLine(t, p, a.textData + a.textLength);
    EmptyNeighbours(keys, t, p, LineBack(t, a.textData), LineAhead(t, a.textData + a.textLength));
  }

  lemma {:induction false} BackOverLine(t: string, p: nat, at: nat)
    requires p < at < |t| && LineStart(t, p) && forall i :: p <= i <= at ==> !IsEol(t[i])
    ensures LineBack(t, at) == if p == 1 then 0 else p
  {
    if at > p + 1 {
      BackOverLine(t, p, at - 1);
    } else if p > 1 {
      assert LineBack(t, p) == LineBack(t, p - 1) == p;
    }
  }

  // A line that ends with CR LF is cut with both characters, and nothing else goes: unless
  // the text in front of it is a single end-of-line character, which goes too.
  lemma WholeLineIsCut(a: string, line: string, b: string, at: nat, len: nat)
    requires LineStart(a, |a|) && (forall i :: 0 <= i < |line| ==> !IsEol(line[i]))
    requires |a| < at && len > 0 && at + len == |a| + |line|
    ensures var t := a + line + CRLF + b;
            && LineBack(t, at) <= LineAhead(t, at + len)
            && Removed(t, LineBack(t, at), LineAhead(t, at + len)) == if |a| == 1 then b else a + b
  {
    var t, p := a + line + CRLF + b, |a|;
    forall i | p <= i < p + |line| ensures t[i] == line[i - p] {}
    assert t[p + |line|] == '\r' && t[p + |line| + 1] == '\n';
    assert LineStart(t, p);
    BackOverLine(t, p, at);
    LineEndIs(t, at + len, at + len);
    assert LineAhead(t, at + len) == p + |line| + 2;
    assert t[p + |line| + 2..] == b && t[..p] == a;
  }

  // Deleting a key that was just added takes its line away again.
  lemma AddThenCut(keys: seq<string>, t: string, k: nat, v: string)
    requires GoodKeys(keys) && k < |keys| && GoodValue(v) && v != "" && |keys[k]| + 3 + |v| + 2 <= PRINT_MAX
    ensures var t', at := Added(keys, t, k, v), ValueAt(keys, t, k);
            && LineBack(t', at) <= LineAhead(t', at + |v|)
            && Removed(t', LineBack(t', at), LineAhead(t', at + |v|)) == if |Terminated(t)| == 1 then "" else Terminated(t)
  {
    hide LineBack, LineAhead, Removed, GoodKeys;
    var a, line := Terminated(t), keys[k] + EQUALS + v;
    assert Clean(keys[k]) by { KeyIsClean(keys, k); }
    forall i | 0 <= i < |line| ensures !IsEol(line[i]) {}
    assert Added(keys, t, k, v) == a + line + CRLF + "";
    WholeLineIsCut(a, line, "", ValueAt(keys, t, k), |v|);
    assert a + "" == a;
  }

  lemma AddedBegins(keys: seq<string>, t: string, k: nat, v: string)
    requires GoodKeys(keys) && k < |keys| && GoodValue(v) && v != "" && |keys[k]| + 3 + |v| + 2 <= PRINT_MAX
    requires |Terminated(t)| != 1
    ensures LineBack(Added(keys, t, k, v), ValueAt(keys, t, k)) == |Terminated(t)|
  {
    hide GoodKeys;
    var a, line, t' := Terminated(t), keys[k] + EQUALS + v, Added(keys, t, k, v);
    assert Clean(keys[k]) by { KeyIsClean(keys, k); }
    assert t' == a + line + CRLF;
    forall i | |a| <= i <= ValueAt(keys, t, k) ensures !IsEol(t'[i]) { assert t'[i] == line[i - |a|]; }
    BackOverLine(t', |a|, ValueAt(keys, t, k));
  }

  lemma KeyIsClean(keys: seq<string>, k: nat)
    requires GoodKeys(keys) && k < |keys|
    ensures Clean(keys[k])
  {
  }

  lemma UpdatedIsRemoved(t: string, lb: nat, le: nat)
    requires lb <= le <= |t|
    ensures Updated(t, lb, le - lb, "") == Removed(t, lb, le)
  {
  }

  lemma RemovedConcat(keys: seq<string>, t: string, lb: nat, le: nat)
    requires lb <= le <= |t| && LineStart(t, lb)
    ensures (forall j :: 0 <= j < |Defs(keys, t, le)| ==> Defs(keys, t, le)[j].at + (lb - le) >= 0)
    ensures Defs(keys, Removed(t, lb, le), 0) == Defs(keys, t[..lb], 0) + Shift(Defs(keys, t, le), lb - le)
  {
    hide Defs, Shift;
    var t' := Removed(t, lb, le);
    SameBefore(keys, t, t', lb);
    DefsShift(keys, t, le, t', lb);
  }

  lemma RemovedDefs(keys: seq<string>, t: string, i: nat, p: nat, lb: nat, le: nat)
    requires i < |Defs(keys, t, 0)| && p < |t| && LineStart(t, p) && Covers(t, p, lb, le)
    requires Defs(keys, t, 0)[..i] == Defs(keys, t[..p], 0)
    requires Defs(keys, t, 0)[i + 1..] == Defs(keys, t, NextLine(t, p))
    ensures var ds := Defs(keys, t, 0);
            && lb <= le <= |t|
            && (forall j :: i < j < |ds| ==> ds[j].at > le)
            && (forall j :: 0 <= j < i ==> ds[j].at <= lb)
            && Defs(keys, Removed(t, lb, le), 0) == ds[..i] + Shift(ds[i + 1..], lb - le)
  {
    hide Defs, Shift, Removed, Covers, LineStart, NextLine;
    var ds := Defs(keys, t, 0);
    EmptyNeighbours(keys, t, p, lb, le);
    RemovedConcat(keys, t, lb, le);
    forall j | i < j < |ds| ensures ds[j].at > le { assert ds[j] == ds[i + 1..][j - i - 1]; }
    forall j | 0 <= j < i ensures ds[j].at <= lb { assert ds[j] == ds[..i][j]; }
  }

  // Removing the first definition of a key: the table agrees exactly when the key is
  // not defined again further down.
  lemma RemoveKeepsIndex(keys: seq<string>, t: string, table: seq<Attr>, k: nat, p: nat, lb: nat, le: nat)
    requires Indexes(keys, t, table) && k < |keys| && table[k].textData != NULL
    requires var i := First(Defs(keys, t, 0), k);
             && p < |t| && LineStart(t, p) && Covers(t, p, lb, le)
             && Defs(keys, t, 0)[..i] == Defs(keys, t[..p], 0)
             && Defs(keys, t, 0)[i + 1..] == Defs(keys, t, NextLine(t, p))
    ensures var ds := Defs(keys, t, 0);
            && lb <= le <= |t|
            && (Indexes(keys, Removed(t, lb, le), Moved(table, lb, lb - le)[k := Attr(NULL, 0)])
                <==> forall j :: First(ds, k) < j < |ds| ==> ds[j].key != k)
  {
    hide Defs, Removed, Covers, LineStart, NextLine, Shift, SliceIs, Indexes;
    var ds := Defs(keys, t, 0);
    SliceOf(keys, t, table, k);
    HasFirst(ds, table[k], k);
    var i: nat := First(ds, k);
    RemovedDefs(keys, t, i, p, lb, le);
    var ds' := Defs(keys, Removed(t, lb, le), 0);
    var table' := Moved(table, lb, lb - le)[k := Attr(NULL, 0)];
    SlicesFollow(keys, t, table, ds', i, k, lb, le, table');
    OnlyDefinition(ds, ds', i, lb - le, k);
    AllButOne(keys, Removed(t, lb, le), table', k);
  }

  // The slices of all other keys follow their text.
  lemma SlicesFollow(keys: seq<string>, t: string, table: seq<Attr>, ds': seq<Def>, i: nat, k: nat, lb: nat, le: nat,
                     table': seq<Attr>)
    requires Indexes(keys, t, table) && |table| == |keys| && k < |keys| && lb <= le
    requires table' == Moved(table, lb, lb - le)[k := Attr(NULL, 0)]
    requires var ds := Defs(keys, t, 0);
             && i < |ds| && ds[i].key == k
             && (forall j :: i < j < |ds| ==> ds[j].at > le) && (forall j :: 0 <= j < i ==> ds[j].at <= lb)
             && ds' == ds[..i] + Shift(ds[i + 1..], lb - le)
    ensures forall j :: 0 <= j < |keys| && j != k ==> SliceIs(table'[j], ds', j)
  {
    hide Defs, SliceIs, Shift;
    var ds := Defs(keys, t, 0);
    forall j | 0 <= j < |keys| && j != k ensures SliceIs(table'[j], ds', j) {
      SliceOf(keys, t, table, j);
      SliceFollows(ds, ds', i, table[j], lb, le, j);
    }
  }

  lemma AllButOne(keys: seq<string>, t: string, table: seq<Attr>, k: nat)
    requires |table| == |keys| && k < |keys|
    requires forall j :: 0 <= j < |keys| && j != k ==> SliceIs(table[j], Defs(keys, t, 0), j)
    ensures Indexes(keys, t, table) <==> SliceIs(table[k], Defs(keys, t, 0), k)
  {
    hide SliceIs, Defs;
  }

  lemma SliceOf(keys: seq<string>, t: string, table: seq<Attr>, k: nat)
    requires Indexes(keys, t, table) && k < |keys|
    ensures |table| == |keys| && SliceIs(table[k], Defs(keys, t, 0), k)
  {
  }

  lemma HasFirst(ds: seq<Def>, a: Attr, k: nat)
    requires SliceIs(a, ds, k) && a.textData != NULL
    ensures First(ds, k) >= 0
  {
  }

  // The slices of the other keys follow their text.
  lemma SliceFollows(ds: seq<Def>, ds': seq<Def>, i: nat, a: Attr, lb: nat, le: nat, k: nat)
    requires i < |ds| && ds[i].key != k && SliceIs(a, ds, k) && lb <= le
    requires (forall j :: i < j < |ds| ==> ds[j].at > le) && (forall j :: 0 <= j < i ==> ds[j].at <= lb)
    requires ds' == ds[..i] + Shift(ds[i + 1..], lb - le)
    ensures SliceIs(Moved([a], lb, lb - le)[0], ds', k)
  {
    assert Without(ds, ds', i);
    FirstWithout(ds, ds', i, k);
  }

  lemma OnlyDefinition(ds: seq<Def>, ds': seq<Def>, i: nat, n: int, k: nat)
    requires i < |ds| && i == First(ds, k)
    requires forall j :: i < j < |ds| ==> ds[j].at + n >= 0
    requires ds' == ds[..i] + Shift(ds[i + 1..], n)
    ensures SliceIs(Attr(NULL, 0), ds', k) <==> forall j :: i < j < |ds| ==> ds[j].key != k
  {
    if First(ds', k) < 0 {
      forall j | i < j < |ds| ensures ds[j].key != k { assert ds'[j - 1].key == ds[j].key; }
    } else {
      var m := First(ds', k);
      assert forall j {:trigger ds'[j]} :: 0 <= j < i ==> ds'[j] == ds[j] && ds[j].key != k;
      assert ds[m + 1].key == k;
    }
  }

  // ds without its i-th definition, up to positions.
  predicate Without(ds: seq<Def>, ds': seq<Def>, i: nat)
    requires i < |ds|
  {
    && |ds'| == |ds| - 1
    && (forall j {:trigger ds'[j]} :: 0 <= j < i ==> ds'[j].key == ds[j].key)
    && (forall j {:trigger ds'[j]} :: i <= j < |ds'| ==> ds'[j].key == ds[j + 1].key)
  }

  // The first definition of another key stays the first.
  lemma FirstWithout(ds: seq<Def>, ds': seq<Def>, i: nat, k: nat)
    requires i < |ds| && ds[i].key != k && Without(ds, ds', i)
    ensures First(ds', k) == if First(ds, k) > i then First(ds, k) - 1 else First(ds, k)
  {
    var m := First(ds, k);
    if m > i {
      FirstAt(ds', k, m - 1);
    } else if m >= 0 {
      FirstAt(ds', k, m);
    }
  }

  lemma FirstAt(ds: seq<Def>, k: nat, i: nat)
    requires i < |ds| && ds[i].key == k && forall j :: 0 <= j < i ==> ds[j].key != k
    ensures First(ds, k) == i
  {
  }

  // -- What a reader of the text sees --

  // The texts of all definitions after one was replaced.
  lemma UpdatedText(keys: seq<string>, t: string, i: nat, v: string, m: nat)
    requires GoodKeys(keys) && GoodValue(v) && i < |Defs(keys, t, 0)| && m < |Defs(keys, t, 0)|
    ensures var ds := Defs(keys, t, 0);
            var t' := Updated(t, ds[i].at, ds[i].len, v);
            var ds' := Defs(keys, t', 0);
            |ds'| == |ds| && ds'[m].key == ds[m].key && Text(t', ds'[m]) == if m == i then v else Text(t, ds[m])
  {
    hide Defs, GoodKeys, GoodValue, Updated;
    var ds := Defs(keys, t, 0);
    UpdatedDefs(keys, t, i, v);
    if m < i { DefsSorted(keys, t, 0, m, i); }
    UpdatedSlices(t, ds[i].at, ds[i].len, v, ds[m].at, ds[m].len);
  }

  // Setting a defined key changes its value and no other.
  lemma UpdateSetsValue(keys: seq<string>, t: string, k: nat, v: string, j: nat)
    requires GoodKeys(keys) && GoodValue(v) && First(Defs(keys, t, 0), k) >= 0
    ensures var d := Defs(keys, t, 0)[First(Defs(keys, t, 0), k)];
            Lookup(keys, Updated(t, d.at, d.len, v), j) == if j == k then Some(v) else Lookup(keys, t, j)
  {
    hide Defs, GoodKeys, GoodValue, Updated, Text;
    var ds := Defs(keys, t, 0);
    var i: nat := First(ds, k);
    var ds' := Defs(keys, Updated(t, ds[i].at, ds[i].len, v), 0);
    UpdatedText(keys, t, i, v, i);
    forall m | 0 <= m < |ds| ensures ds'[m].key == ds[m].key { UpdatedText(keys, t, i, v, m); }
    SameKeys(ds, ds', j);
    if First(ds, j) >= 0 { UpdatedText(keys, t, i, v, First(ds, j)); }
  }

  lemma UpdatedSlices(t: string, at: nat, len: nat, v: string, from: nat, cnt: nat)
    requires at + len <= |t| && from + cnt <= |t|
    ensures var t' := Updated(t, at, len, v);
            && at + |v| <= |t'| && t'[at..at + |v|] == v
            && (from + cnt <= at ==> from + cnt <= |t'| && t'[from..from + cnt] == t[from..from + cnt])
            && (from >= at + len ==>
                  var from' := from + |v| - len;
                  from' + cnt <= |t'| && t'[from'..from' + cnt] == t[from..from + cnt])
  {
    var t' := Updated(t, at, len, v);
    if from + cnt <= at {
      assert t'[..at] == t[..at];
      SliceOfPrefix(t, t', at, from, cnt);
    } else if from >= at + len {
      assert t'[at + |v|..] == t[at + len..];
      SliceOfSuffix(t, at + len, t', at + |v|, from, cnt);
    }
  }

  lemma SliceOfPrefix(t: string, t': string, n: nat, at: nat, len: nat)
    requires at + len <= n <= |t| && n <= |t'| && t'[..n] == t[..n]
    ensures t'[at..at + len] == t[at..at + len]
  {
    forall i | at <= i < at + len ensures t'[i] == t[i] { assert t'[..n][i] == t[..n][i]; }
  }

  lemma SliceOfSuffix(t: string, n: nat, t': string, n': nat, at: nat, len: nat)
    requires n <= at && at + len <= |t| && n' <= |t'| && t'[n'..] == t[n..]
    ensures at + n' - n + len <= |t'| && t'[at + n' - n..at + n' - n + len] == t[at..at + len]
  {
    assert |t'[n'..]| == |t[n..]|;
    var m := at + n' - n;
    var x, y := t'[m..m + len], t[at..at + len];
    forall i | 0 <= i < len ensures x[i] == y[i] {
      assert t'[n'..][m - n' + i] == t[n..][at - n + i];
    }
  }

  // Adding a key gives it its value and changes no other.
  lemma AddSetsValue(keys: seq<string>, t: string, k: nat, v: string, j: nat)
    requires GoodKeys(keys) && GoodValue(v) && k < |keys| && Prints(keys, k, v) && First(Defs(keys, t, 0), k) < 0
    ensures Lookup(keys, Added(keys, t, k, v), j) == if j == k then Some(v) else Lookup(keys, t, j)
  {
    hide Defs, GoodKeys, GoodValue, Added, Text, Prints, ValueAt;
    var ds, d := Defs(keys, t, 0), Def(k, ValueAt(keys, t, k), |v|);
    AddedOne(keys, t, k, v);
    FirstOfConcat(ds, d, j);
    AddedTexts(keys, t, k, v);
    assert First(ds, j) >= 0 ==> (ds + [d])[First(ds, j)] == ds[First(ds, j)];
  }

  lemma AddedTexts(keys: seq<string>, t: string, k: nat, v: string)
    requires k < |keys| && Prints(keys, k, v)
    ensures var t', at := Added(keys, t, k, v), ValueAt(keys, t, k);
            && |t| <= at && at + |v| <= |t'| && Text(t', Def(k, at, |v|)) == v
            && forall d: Def {:trigger Text(t', d)} :: d.at + d.len <= |t| ==> Text(t', d) == Text(t, d)
  {
    hide Printed, PrintedEnd;
    var t' := Added(keys, t, k, v);
    PrintedWhole(keys, k, v);
    assert t'[..|t|] == t;
    forall d: Def | d.at + d.len <= |t| ensures Text(t', d) == Text(t, d) {
      SliceOfPrefix(t, t', |t|, d.at, d.len);
    }
  }

  // The texts of the other definitions after one was removed.
  lemma RemovedText(keys: seq<string>, t: string, i: nat, p: nat, lb: nat, le: nat, m: nat)
    requires i < |Defs(keys, t, 0)| && p < |t| && LineStart(t, p) && Covers(t, p, lb, le)
    requires Defs(keys, t, 0)[..i] == Defs(keys, t[..p], 0)
    requires Defs(keys, t, 0)[i + 1..] == Defs(keys, t, NextLine(t, p))
    requires m < |Defs(keys, t, 0)| && m != i
    ensures lb <= le <= |t|
    ensures var ds, t' := Defs(keys, t, 0), Removed(t, lb, le);
            var ds', m' := Defs(keys, t', 0), if m < i then m else m - 1;
            |ds'| == |ds| - 1 && ds'[m'].key == ds[m].key && Text(t', ds'[m']) == Text(t, ds[m])
  {
    hide Defs, Covers, LineStart, NextLine, Removed;
    RemovedDefs(keys, t, i, p, lb, le);
    BeforeLine(keys, t, i, p, lb, le);
    RemovedSlices(t, lb, le, Defs(keys, t, 0)[m].at, Defs(keys, t, 0)[m].len);
  }

  // Removing a definition changes no other key's value.
  lemma RemoveKeepsValues(keys: seq<string>, t: string, i: nat, p: nat, lb: nat, le: nat, j: nat)
    requires i < |Defs(keys, t, 0)| && p < |t| && LineStart(t, p) && Covers(t, p, lb, le)
    requires Defs(keys, t, 0)[..i] == Defs(keys, t[..p], 0)
    requires Defs(keys, t, 0)[i + 1..] == Defs(keys, t, NextLine(t, p))
    requires Defs(keys, t, 0)[i].key != j
    ensures lb <= le <= |t| && Lookup(keys, Removed(t, lb, le), j) == Lookup(keys, t, j)
  {
    hide Defs, Covers, LineStart, NextLine, Removed, Text;
    RemovedKeys(keys, t, i, p, lb, le);
    var ds, ds' := Defs(keys, t, 0), Defs(keys, Removed(t, lb, le), 0);
    FirstWithout(ds, ds', i, j);
    if First(ds, j) >= 0 { RemovedText(keys, t, i, p, lb, le, First(ds, j)); }
  }

  lemma RemovedKeys(keys: seq<string>, t: string, i: nat, p: nat, lb: nat, le: nat)
    requires i < |Defs(keys, t, 0)| && p < |t| && LineStart(t, p) && Covers(t, p, lb, le)
    requires Defs(keys, t, 0)[..i] == Defs(keys, t[..p], 0)
    requires Defs(keys, t, 0)[i + 1..] == Defs(keys, t, NextLine(t, p))
    ensures lb <= le <= |t|
    ensures var ds, ds' := Defs(keys, t, 0), Defs(keys, Removed(t, lb, le), 0);
            Without(ds, ds', i)
  {
    hide Defs, Covers, LineStart, NextLine, Removed;
    RemovedDefs(keys, t, i, p, lb, le);
  }

  lemma RemovedSlices(t: string, lb: nat, le: nat, from: nat, cnt: nat)
    requires lb <= le <= |t| && from + cnt <= |t|
    ensures var t' := Removed(t, lb, le);
            && (from + cnt <= lb ==> from + cnt <= |t'| && t'[from..from + cnt] == t[from..from + cnt])
            && (from >= le ==> var from' := from + lb - le; from' + cnt <= |t'| && t'[from'..from' + cnt] == t[from..from + cnt])
  {
    UpdatedSlices(t, lb, le - lb, "", from, cnt);
    assert Removed(t, lb, le) == Updated(t, lb, le - lb, "");
  }

  lemma BeforeLine(keys: seq<string>, t: string, i: nat, p: nat, lb: nat, le: nat)
    requires i < |Defs(keys, t, 0)| && p < |t| && LineStart(t, p) && Covers(t, p, lb, le)
    requires Defs(keys, t, 0)[..i] == Defs(keys, t[..p], 0)
    ensures forall j :: 0 <= j < i ==> Defs(keys, t, 0)[j].at + Defs(keys, t, 0)[j].len <= lb
  {
    EmptyNeighbours(keys, t, p, lb, le);
    forall j | 0 <= j < i ensures Defs(keys, t, 0)[j].at + Defs(keys, t, 0)[j].len <= lb {
      assert Defs(keys, t, 0)[j] == Defs(keys, t[..lb], 0)[j];
    }
  }
}
