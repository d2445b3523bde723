/** Runs of edits on the config file: the table stays an index of the text, and the text
    behaves as a map from keys to values (source/arm11/config.c, configSetKeyData and
    configDeleteKey). */
module ConfigRun {
  import opened ConfigText

  const MAX_FILE_SIZE: nat := 0x4000 - 1

  datatype State = State(text: string, table: seq<Attr>)

  datatype Edit = SetText(key: nat, value: string) | DeleteKey(key: nat)

  // There is room for the new value: the check counts the old value as still there, and a
  // new line at its full length.
  predicate Fits(keys: seq<string>, s: State, k: nat, v: string)
    requires k < |keys| == |s.table|
  {
    if s.table[k].textData == NULL then |Terminated(s.text)| + |NewLine(keys, k, v)| <= MAX_FILE_SIZE
    else |v| + |s.text| <= MAX_FILE_SIZE
  }

  // What setting key k to v does when it fits.
  function SetState(keys: seq<string>, s: State, k: nat, v: string): State
    requires k < |keys| == |s.table|
    requires s.table[k].textData != NULL ==> 0 <= s.table[k].textData && s.table[k].textData + s.table[k].textLength <= |s.text|
  {
    var a := s.table[k];
    if a.textData == NULL then
      State(Added(keys, s.text, k, v), s.table[k := Attr(ValueAt(keys, s.text, k), |v|)])
    else
      State(Updated(s.text, a.textData, a.textLength, v), Moved(s.table, a.textData, |v| - a.textLength)[k := Attr(a.textData, |v|)])
  }

  // What setting key k to v does when it does not fit: the text stays and the slice is cut
  // to nothing, or stays missing.
  function Unfitted(s: State, k: nat, v: string): State
    requires k < |s.table|
  {
    s.(table := s.table[k := if s.table[k].textData == NULL then Attr(NULL, |v|) else Attr(s.table[k].textData, 0)])
  }

  // Deleting does nothing to a key that is missing or has an empty value.
  predicate Deletable(a: Attr) {
    a.textData != NULL && a.textLength != 0
  }

  // The table has a slot per key, and its slices lie in the text.
  predicate InText(keys: seq<string>, s: State) {
    && |s.table| == |keys|
    && forall k :: 0 <= k < |keys| && s.table[k].textData != NULL ==>
         0 <= s.table[k].textData && s.table[k].textData + s.table[k].textLength <= |s.text|
  }

  ghost predicate Step(keys: seq<string>, s: State, e: Edit, s': State) {
    InText(keys, s) && e.key < |keys| &&
    match e
    case SetText(k, v) => '\0' !in v && Fits(keys, s, k, v) && s' == SetState(keys, s, k, v)
    case DeleteKey(k) =>
      if !Deletable(s.table[k]) then s' == s
      else exists p: nat, lb: nat, le: nat :: Cut(keys, s, k, p, lb, le, s')
  }

  ghost predicate Cut(keys: seq<string>, s: State, k: nat, p: nat, lb: nat, le: nat, s': State)
    requires k < |s.table|
  {
    && CutsDefinition(keys, s.text, k, p, lb, le)
    && s' == State(Removed(s.text, lb, le), Moved(s.table, lb, lb - le)[k := Attr(NULL, 0)])
  }

  // What deleting a key leaves, whatever its slice is.
  function CutOut(s: State, k: nat): State
    requires k < |s.table| && Backed(s.text, s.table[k])
  {
    var a := s.table[k];
    var lb, le := LineBack(s.text, a.textData), LineAhead(s.text, a.textData + a.textLength);
    BackBeforeAhead(s.text, a);
    State(Removed(s.text, lb, le), Moved(s.table, lb, lb - le)[k := Attr(NULL, 0)])
  }

  lemma BackBeforeAhead(t: string, a: Attr)
    requires Backed(t, a)
    ensures LineBack(t, a.textData) <= LineAhead(t, a.textData + a.textLength)
  {
  }

  lemma HasSlots(keys: seq<string>, s: State)
    requires InText(keys, s)
    ensures |s.table| == |keys|
  {
  }

  // With a right slice, that is the step of a run.
  lemma CutOutIsStep(keys: seq<string>, s: State, k: nat)
    requires InText(keys, s) && k < |keys| && Deletable(s.table[k]) && SliceIs(s.table[k], Defs(keys, s.text, 0), k)
    ensures Backed(s.text, s.table[k]) && Step(keys, s, Edit.DeleteKey(k), CutOut(s, k))
    ensures Indexes(keys, s.text, s.table) ==>
              (Indexes(keys, CutOut(s, k).text, CutOut(s, k).table) <==> DefinedOnce(keys, s.text, k))
  {
    hide Defs, CutsDefinition, Removed, Moved, InText, Indexes, LineBack, LineAhead, DefinedOnce;
    HasSlots(keys, s);
    var a := s.table[k];
    var p := RightCut(keys, s.text, k, a);
    var lb, le := LineBack(s.text, a.textData), LineAhead(s.text, a.textData + a.textLength);
    assert Cut(keys, s, k, p, lb, le, CutOut(s, k));
    if Indexes(keys, s.text, s.table) { DeleteKeepsIndex(keys, s, k, p, lb, le); }
  }

  // Setting a missing key and deleting it again gives the state back, up to the line end a
  // text without one has gained.
  lemma SetThenDelete(keys: seq<string>, s: State, k: nat, v: string)
    requires GoodKeys(keys) && InText(keys, s) && k < |keys| && s.table[k].textData == NULL && |Terminated(s.text)| != 1
    requires GoodValue(v) && v != "" && |keys[k]| + 3 + |v| + 2 <= PRINT_MAX
    ensures var s' := SetState(keys, s, k, v);
            && Deletable(s'.table[k]) && Backed(s'.text, s'.table[k])
            && CutOut(s', k) == State(Terminated(s.text), s.table[k := Attr(NULL, 0)])
  {
    hide GoodKeys, GoodValue, LineBack, LineAhead, Printed, NewLine;
    var t', at := Added(keys, s.text, k, v), ValueAt(keys, s.text, k);
    LineIsWhole(keys, s.text, k, v);
    AddThenCut(keys, s.text, k, v);
    AddedBegins(keys, s.text, k, v);
    assert CutOut(SetState(keys, s, k, v), k).table == s.table[k := Attr(NULL, 0)];
  }

  lemma IndexedIsInText(keys: seq<string>, s: State)
    requires Indexes(keys, s.text, s.table)
    ensures InText(keys, s)
  {
    hide Defs;
    forall k | 0 <= k < |keys| && s.table[k].textData != NULL
      ensures 0 <= s.table[k].textData && s.table[k].textData + s.table[k].textLength <= |s.text|
    {
      assert SliceIs(s.table[k], Defs(keys, s.text, 0), k);
    }
  }

  // Key k is defined at most once.
  predicate DefinedOnce(keys: seq<string>, t: string, k: nat) {
    Once(Defs(keys, t, 0), k)
  }

  predicate Once(ds: seq<Def>, k: nat) {
    forall j :: First(ds, k) < j < |ds| && First(ds, k) >= 0 ==> ds[j].key != k
  }

  predicate NoDuplicates(keys: seq<string>, t: string) {
    forall k :: 0 <= k < |keys| ==> DefinedOnce(keys, t, k)
  }

  // A value that reads back as written, and that is printed whole when its line is new.
  predicate Settable(keys: seq<string>, k: nat, v: string, isNew: bool)
    requires k < |keys|
  {
    GoodValue(v) && (isNew ==> Prints(keys, k, v))
  }

  // A set keeps the index exactly when the value reads back as written and, for a key that
  // was missing, is not cut by the formatter.
  lemma SetKeepsIndex(keys: seq<string>, s: State, k: nat, v: string)
    requires GoodKeys(keys) && Indexes(keys, s.text, s.table) && k < |keys| && '\0' !in v
    ensures InText(keys, s)
    ensures var s' := SetState(keys, s, k, v); Indexes(keys, s'.text, s'.table) <==> Settable(keys, k, v, s.table[k].textData == NULL)
  {
    hide Indexes, Added, ValueAt, Prints, Updated, Moved, GoodValue, GoodKeys, Defs;
    IndexedIsInText(keys, s);
    if s.table[k].textData == NULL {
      AddKeepsIndex(keys, s.text, s.table, k, v);
    } else {
      UpdateKeepsIndex(keys, s.text, s.table, k, v);
    }
  }

  // A value that does not fit: the text stays and the slice is cut to nothing, or
  // stays missing.
  lemma Unfitting(keys: seq<string>, s: State, k: nat, v: string)
    requires Indexes(keys, s.text, s.table) && k < |keys|
    ensures |s.table| == |keys|
    ensures s.table[k].textData == NULL ==> Indexes(keys, s.text, s.table[k := Attr(NULL, |v|)])
    ensures s.table[k].textData != NULL ==>
              (Indexes(keys, s.text, s.table[k := Attr(s.table[k].textData, 0)]) <==> s.table[k].textLength == 0)
  {
    hide Defs, SliceIs;
    var a := s.table[k];
    AllButOne(keys, s.text, s.table[k := Attr(a.textData, 0)], k);
    AllButOne(keys, s.text, s.table[k := Attr(NULL, |v|)], k);
    SliceLengths(Defs(keys, s.text, 0), a, k, |v|);
  }

  lemma SliceLengths(ds: seq<Def>, a: Attr, k: nat, n: nat)
    requires SliceIs(a, ds, k)
    ensures a.textData == NULL ==> SliceIs(Attr(NULL, n), ds, k)
    ensures a.textData != NULL ==> (SliceIs(Attr(a.textData, 0), ds, k) <==> a.textLength == 0)
  {
  }

  // A file of n empty lines.
  function Blank(n: nat): (t: string)
    ensures |t| == n && forall i :: 0 <= i < n ==> t[i] == '\n'
  {
    seq(n, _ => '\n')
  }

  lemma {:induction false} BlankDefs(keys: seq<string>, n: nat, p: nat)
    requires p <= n
    ensures Defs(keys, Blank(n), p) == []
    decreases n - p
  {
    hide Defs;
    if p < n {
      EmptyLine(keys, Blank(n), p);
      BlankDefs(keys, n, p + 1);
    } else {
      NoMoreDefs(keys, Blank(n));
    }
  }

  // The state in which the table is cut although the text stays: for every key, one value
  // that just fits a file of empty lines, and then another that does not.
  function FullFile(keys: seq<string>, k: nat): State
    requires k < |keys| && |keys[k]| + 6 <= PRINT_MAX
  {
    SetState(keys, State(Blank(MAX_FILE_SIZE - |keys[k]| - 6), Missings(keys)), k, "a")
  }

  lemma BlankIndexes(keys: seq<string>, n: nat)
    ensures Indexes(keys, Blank(n), Missings(keys))
  {
    hide Defs;
    BlankDefs(keys, n, 0);
  }

  lemma BlankEnds(n: nat)
    ensures Terminated(Blank(n)) == Blank(n)
  {
    if n > 0 { assert Blank(n)[n - 1] == '\n'; }
  }

  lemma UnfittingExists(keys: seq<string>, k: nat)
    requires GoodKeys(keys) && k < |keys| && |keys[k]| + 6 <= PRINT_MAX
    ensures var s := FullFile(keys, k);
            && Indexes(keys, s.text, s.table) && |s.text| == MAX_FILE_SIZE
            && s.table[k].textLength == 1 && s.table[k].textData != NULL
            && !Fits(keys, s, k, "b") && GoodValue("b")
            && !Indexes(keys, s.text, s.table[k := Attr(s.table[k].textData, 0)])
  {
    hide GoodKeys, Indexes, Blank, Terminated, Printed, NewLine, Missings;
    var n: nat := MAX_FILE_SIZE - |keys[k]| - 6;
    var was := State(Blank(n), Missings(keys));
    var s := FullFile(keys, k);
    BlankIndexes(keys, n);
    SetKeepsIndex(keys, was, k, "a");
    assert Terminated(Blank(n)) == Blank(n) by { BlankEnds(n); }
    assert GoodValue("a") && GoodValue("b");
    Unfitting(keys, s, k, "b");
  }

  // A delete keeps the index exactly when the key was not defined twice.
  lemma DeleteKeepsIndex(keys: seq<string>, s: State, k: nat, p: nat, lb: nat, le: nat)
    requires Indexes(keys, s.text, s.table) && k < |keys| && Deletable(s.table[k])
    requires CutsDefinition(keys, s.text, k, p, lb, le)
    ensures Indexes(keys, Removed(s.text, lb, le), Moved(s.table, lb, lb - le)[k := Attr(NULL, 0)])
            <==> DefinedOnce(keys, s.text, k)
  {
    hide Defs, Removed, Moved, Covers, LineStart, NextLine;
    RemoveKeepsIndex(keys, s.text, s.table, k, p, lb, le);
  }

  // -- No key is ever defined twice --

  lemma OnceFor(keys: seq<string>, t: string, k: nat)
    requires NoDuplicates(keys, t) && k < |keys|
    ensures DefinedOnce(keys, t, k)
  {
  }

  lemma OnceUpdated(ds: seq<Def>, ds': seq<Def>, k: nat)
    requires Once(ds, k) && |ds'| == |ds| && forall i :: 0 <= i < |ds| ==> ds'[i].key == ds[i].key
    ensures Once(ds', k)
  {
    SameKeys(ds, ds', k);
  }

  lemma OnceAdded(ds: seq<Def>, d: Def, k: nat)
    requires Once(ds, k) && First(ds, d.key) < 0
    ensures Once(ds + [d], k)
  {
    FirstOfConcat(ds, d, k);
  }

  lemma OnceRemoved(ds: seq<Def>, ds': seq<Def>, i: nat, k: nat)
    requires Once(ds, k) && i < |ds| && Without(ds, ds', i)
    ensures Once(ds', k)
  {
    var m' := First(ds', k);
    forall j | m' < j < |ds'| && m' >= 0 ensures ds'[j].key != k {
      var a, b := if m' < i then m' else m' + 1, if j < i then j else j + 1;
      assert ds[a].key == k;
    }
  }

  lemma SetKeepsOnce(keys: seq<string>, s: State, k: nat, v: string)
    requires GoodKeys(keys) && Indexes(keys, s.text, s.table) && NoDuplicates(keys, s.text)
    requires k < |keys| && Settable(keys, k, v, s.table[k].textData == NULL)
    ensures InText(keys, s) && NoDuplicates(keys, SetState(keys, s, k, v).text)
  {
    hide Defs, ValueAt, Prints, GoodKeys, GoodValue, Added, Updated, Moved, Spaces, LineEnd;
    IndexedIsInText(keys, s);
    var ds, t' := Defs(keys, s.text, 0), SetState(keys, s, k, v).text;
    assert SliceIs(s.table[k], ds, k);
    if s.table[k].textData == NULL {
      AddedOne(keys, s.text, k, v);
      var d := Def(k, ValueAt(keys, s.text, k), |v|);
      forall j | 0 <= j < |keys| ensures DefinedOnce(keys, t', j) {
        OnceFor(keys, s.text, j);
        OnceAdded(ds, d, j);
      }
    } else {
      UpdatedKeys(keys, s.text, First(ds, k), v);
      forall j | 0 <= j < |keys| ensures DefinedOnce(keys, t', j) {
        OnceFor(keys, s.text, j);
        OnceUpdated(ds, Defs(keys, t', 0), j);
      }
    }
  }

  lemma UpdatedKeys(keys: seq<string>, t: string, i: nat, v: string)
    requires GoodKeys(keys) && i < |Defs(keys, t, 0)| && GoodValue(v)
    ensures var ds := Defs(keys, t, 0);
            var ds' := Defs(keys, Updated(t, ds[i].at, ds[i].len, v), 0);
            |ds'| == |ds| && forall m :: 0 <= m < |ds| ==> ds'[m].key == ds[m].key
  {
    hide Defs, GoodKeys, GoodValue, Updated;
    UpdatedDefs(keys, t, i, v);
  }

  lemma DeleteKeepsOnce(keys: seq<string>, t: string, k: nat, p: nat, lb: nat, le: nat)
    requires NoDuplicates(keys, t) && CutsDefinition(keys, t, k, p, lb, le)
    ensures NoDuplicates(keys, Removed(t, lb, le))
  {
    hide Defs, Removed, Covers, LineStart, NextLine;
    var ds := Defs(keys, t, 0);
    RemovedKeys(keys, t, First(ds, k), p, lb, le);
    forall j | 0 <= j < |keys| ensures DefinedOnce(keys, Removed(t, lb, le), j) {
      OnceFor(keys, t, j);
      OnceRemoved(ds, Defs(keys, Removed(t, lb, le), 0), First(ds, k), j);
    }
  }

  // -- The text as a map --

  // What a fresh parse finds for every key.
  function View(keys: seq<string>, t: string): (view: seq<Option<string>>)
    ensures |view| == |keys| && forall k :: 0 <= k < |keys| ==> view[k] == Lookup(keys, t, k)
  {
    seq(|keys|, k requires 0 <= k => Lookup(keys, t, k))
  }

  function AfterEdit(view: seq<Option<string>>, e: Edit): seq<Option<string>>
    requires e.key < |view|
  {
    match e
    case SetText(k, v) => view[k := Some(v)]
    case DeleteKey(k) => if view[k] in {None, Some("")} then view else view[k := None]
  }

  lemma SetChangesView(keys: seq<string>, s: State, k: nat, v: string)
    requires GoodKeys(keys) && Indexes(keys, s.text, s.table) && k < |keys| && Settable(keys, k, v, s.table[k].textData == NULL)
    ensures InText(keys, s) && View(keys, SetState(keys, s, k, v).text) == AfterEdit(View(keys, s.text), SetText(k, v))
  {
    hide Defs, GoodKeys, GoodValue, Added, Updated, Moved, Lookup;
    IndexedIsInText(keys, s);
    assert SliceIs(s.table[k], Defs(keys, s.text, 0), k);
    forall j | 0 <= j < |keys|
      ensures Lookup(keys, SetState(keys, s, k, v).text, j) == if j == k then Some(v) else Lookup(keys, s.text, j)
    {
      if s.table[k].textData == NULL {
        AddSetsValue(keys, s.text, k, v, j);
      } else {
        UpdateSetsValue(keys, s.text, k, v, j);
      }
    }
  }

  lemma DeleteChangesView(keys: seq<string>, s: State, k: nat, p: nat, lb: nat, le: nat)
    requires Indexes(keys, s.text, s.table) && k < |keys| && Deletable(s.table[k]) && DefinedOnce(keys, s.text, k)
    requires CutsDefinition(keys, s.text, k, p, lb, le)
    ensures View(keys, Removed(s.text, lb, le)) == AfterEdit(View(keys, s.text), DeleteKey(k))
  {
    hide Defs, Removed, Covers, LineStart, NextLine, Lookup;
    DeleteKeepsIndex(keys, s, k, p, lb, le);
    DeletableValue(keys, s, k);
    forall j | 0 <= j < |keys|
      ensures Lookup(keys, Removed(s.text, lb, le), j) == if j == k then None else Lookup(keys, s.text, j)
    {
      if j == k {
        GoneValue(keys, Removed(s.text, lb, le), Moved(s.table, lb, lb - le)[k := Attr(NULL, 0)], k);
      } else {
        CutKeepsValue(keys, s.text, k, p, lb, le, j);
      }
    }
  }

  lemma DeletableValue(keys: seq<string>, s: State, k: nat)
    requires Indexes(keys, s.text, s.table) && k < |keys| && Deletable(s.table[k])
    ensures Lookup(keys, s.text, k) !in {None, Some("")}
  {
    hide Defs;
    assert SliceIs(s.table[k], Defs(keys, s.text, 0), k);
  }

  lemma GoneValue(keys: seq<string>, t: string, table: seq<Attr>, k: nat)
    requires Indexes(keys, t, table) && k < |keys| && table[k] == Attr(NULL, 0)
    ensures Lookup(keys, t, k) == None
  {
    hide Defs;
    assert SliceIs(table[k], Defs(keys, t, 0), k);
  }

  lemma CutKeepsValue(keys: seq<string>, t: string, k: nat, p: nat, lb: nat, le: nat, j: nat)
    requires CutsDefinition(keys, t, k, p, lb, le) && j != k
    ensures Lookup(keys, Removed(t, lb, le), j) == Lookup(keys, t, j)
  {
    hide Defs, Removed, Covers, LineStart, NextLine, Lookup;
    RemoveKeepsValues(keys, t, First(Defs(keys, t, 0), k), p, lb, le, j);
  }

  // -- Any sequence of edits --

  predicate Ok(keys: seq<string>, s: State) {
    Indexes(keys, s.text, s.table) && NoDuplicates(keys, s.text)
  }

  // What the map says of a key tells whether its line is new.
  predicate GoodEdit(keys: seq<string>, view: seq<Option<string>>, e: Edit)
    requires e.key < |keys| == |view|
  {
    e.SetText? ==> Settable(keys, e.key, e.value, view[e.key] == None)
  }

  lemma MissingIsNone(keys: seq<string>, s: State, k: nat)
    requires Indexes(keys, s.text, s.table) && k < |keys|
    ensures |s.table| == |keys| && (s.table[k].textData == NULL <==> View(keys, s.text)[k] == None)
  {
    hide Defs;
    Missing(keys, s.text, s.table, k);
  }

  // A step keeps the index exactly when the edit is a good one, and then it does to the
  // text what it says.
  lemma StepKeepsOk(keys: seq<string>, s: State, e: Edit, s': State)
    requires GoodKeys(keys) && Ok(keys, s) && Step(keys, s, e, s')
    ensures Indexes(keys, s'.text, s'.table) <==> GoodEdit(keys, View(keys, s.text), e)
    ensures GoodEdit(keys, View(keys, s.text), e) ==>
              Ok(keys, s') && View(keys, s'.text) == AfterEdit(View(keys, s.text), e)
  {
    hide Indexes, NoDuplicates, View, SetState, GoodKeys, GoodValue, Fits, Lookup, Settable;
    match e
    case SetText(k, v) =>
      MissingIsNone(keys, s, k);
      SetKeepsIndex(keys, s, k, v);
      if Settable(keys, k, v, s.table[k].textData == NULL) {
        SetKeepsOnce(keys, s, k, v);
        SetChangesView(keys, s, k, v);
      }
    case DeleteKey(k) =>
      if Deletable(s.table[k]) {
        var p: nat, lb: nat, le: nat :| Cut(keys, s, k, p, lb, le, s');
        OnceFor(keys, s.text, k);
        DeleteKeepsIndex(keys, s, k, p, lb, le);
        DeleteKeepsOnce(keys, s.text, k, p, lb, le);
        DeleteChangesView(keys, s, k, p, lb, le);
      } else {
        NotDeletable(keys, s, k);
      }
  }

  lemma NotDeletable(keys: seq<string>, s: State, k: nat)
    requires Indexes(keys, s.text, s.table) && k < |keys| && !Deletable(s.table[k])
    ensures View(keys, s.text) == AfterEdit(View(keys, s.text), DeleteKey(k))
  {
    hide Defs;
    assert SliceIs(s.table[k], Defs(keys, s.text, 0), k);
    var ds := Defs(keys, s.text, 0);
    if First(ds, k) >= 0 {
      assert Text(s.text, ds[First(ds, k)]) == "";
    }
  }

  ghost predicate Reaches(keys: seq<string>, s: State, edits: seq<Edit>, s': State)
    decreases |edits|
  {
    if edits == [] then s' == s
    else exists m :: Step(keys, s, edits[0], m) && Reaches(keys, m, edits[1..], s')
  }

  function AfterEdits(view: seq<Option<string>>, edits: seq<Edit>): seq<Option<string>>
    requires forall i :: 0 <= i < |edits| ==> edits[i].key < |view|
    decreases |edits|
  {
    if edits == [] then view else AfterEdits(AfterEdit(view, edits[0]), edits[1..])
  }

  // Every edit is a good one for what the map has become by then.
  predicate GoodEdits(keys: seq<string>, view: seq<Option<string>>, edits: seq<Edit>)
    requires |view| == |keys| && forall i :: 0 <= i < |edits| ==> edits[i].key < |keys|
    decreases |edits|
  {
    edits == [] || (GoodEdit(keys, view, edits[0]) && GoodEdits(keys, AfterEdit(view, edits[0]), edits[1..]))
  }

  // After any sequence of good edits the table is exactly what a fresh parse would build,
  // and the text holds exactly the map the edits describe.
  lemma {:induction false} EditsKeepOk(keys: seq<string>, s: State, edits: seq<Edit>, s': State)
    requires GoodKeys(keys) && Ok(keys, s) && Reaches(keys, s, edits, s')
    requires forall i :: 0 <= i < |edits| ==> edits[i].key < |keys|
    requires GoodEdits(keys, View(keys, s.text), edits)
    ensures Ok(keys, s') && View(keys, s'.text) == AfterEdits(View(keys, s.text), edits)
    decreases |edits|
  {
    hide Ok, View, GoodKeys, GoodEdit, Step;
    if edits != [] {
      var m :| Step(keys, s, edits[0], m) && Reaches(keys, m, edits[1..], s');
      StepKeepsOk(keys, s, edits[0], m);
      EditsKeepOk(keys, m, edits[1..], s');
    }
  }

  // -- A value that the formatter cuts --

  function Letters(n: nat): (v: string)
    ensures |v| == n && forall i :: 0 <= i < n ==> v[i] == 'a'
  {
    seq(n, _ => 'a')
  }

  function Missings(keys: seq<string>): (table: seq<Attr>)
    ensures |table| == |keys| && forall k :: 0 <= k < |table| ==> table[k] == Attr(NULL, 0)
  {
    seq(|keys|, _ => Attr(NULL, 0))
  }

  // In an empty file a boot path of 4110 characters fits and could read back, but only
  // 4095 characters of its line are printed: the slice recorded for it ends 30 characters
  // behind the text.
  lemma LongPath(keys: seq<string>, k: nat)
    requires GoodKeys(keys) && k < |keys| && |keys[k]| == |"BOOT_OPTION1"|
    ensures var v, s := "sdmc:/" + Letters(4104), State("", Missings(keys));
            && Indexes(keys, s.text, s.table) && Fits(keys, s, k, v) && GoodValue(v)
            && var s' := SetState(keys, s, k, v);
               && |s'.text| == 4095 && s'.table[k] == Attr(15, 4110) && !Indexes(keys, s'.text, s'.table)
  {
    hide GoodKeys, Indexes, Defs;
    var v, s := "sdmc:/" + Letters(4104), State("", Missings(keys));
    NoDefs(keys);
    assert GoodValue(v) by { PathIsGood(v); }
    SetKeepsIndex(keys, s, k, v);
  }

  lemma PathIsGood(v: string)
    requires v == "sdmc:/" + Letters(4104)
    ensures GoodValue(v) && '\0' !in v
  {
    var head := "sdmc:/";
    forall i | 0 <= i < |v| ensures !IsEol(v[i]) && v[i] != '\0' {
      if i < |head| { assert v[i] == head[i] && head[i] in "sdmc:/"; } else { assert v[i] == 'a'; }
    }
    assert v[0] == 's';
  }

  lemma NoDefs(keys: seq<string>)
    ensures Indexes(keys, "", Missings(keys))
  {
  }
}
