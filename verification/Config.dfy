/** The config editor (source/arm11/config.c): a NUL-terminated text buffer edited in
    place, and a table of slices into it that must always agree with a fresh parse. */
module Config {
  import opened ConfigText
  import opened ConfigRun

  class ConfigFile {
    const keys: seq<string>
    const filebuf: array<char>
    const attributes: array<Attr>
    var configLoaded: bool
    var configDirty: bool
    ghost var text: string   // the buffer's contents up to the terminator

    ghost predicate Valid()
      reads this, filebuf
    {
      && GoodKeys(keys) && attributes.Length == |keys|
      && filebuf.Length == MAX_FILE_SIZE + 1 && |text| <= MAX_FILE_SIZE
      && filebuf[..|text|] == text && filebuf[|text|] == '\0' && '\0' !in text
    }

    // A buffer just read from a file.
    constructor (keys: seq<string>, contents: string)
      requires GoodKeys(keys) && |contents| <= MAX_FILE_SIZE && '\0' !in contents
      ensures Valid() && this.keys == keys && text == contents && fresh(filebuf) && fresh(attributes)
      ensures !configLoaded && !configDirty
    {
      this.keys := keys;
      filebuf := new char[MAX_FILE_SIZE + 1](i requires 0 <= i => if i < |contents| then contents[i] else '\0');
      attributes := new Attr[|keys|](_ => Attr(NULL, 0));
      configLoaded, configDirty := false, false;
      text := contents;
      new;
      assert filebuf[..|contents|] == contents;
    }

    lemma CharAt(i: nat)
      requires Valid() && i <= |text|
      ensures filebuf[i] == if i < |text| then text[i] else '\0'
      ensures i < |text| ==> filebuf[i] != '\0'
    {
      assert i < |text| ==> filebuf[..|text|][i] == text[i];
    }

    // The length of the text in the buffer.
    method StrLen() returns (n: nat)
      requires Valid()
      ensures n == |text|
    {
      n := 0;
      CharAt(0);
      while filebuf[n] != '\0'
        invariant n <= |text| && filebuf[n] == (if n < |text| then text[n] else '\0')
        decreases |text| - n
      {
        n := n + 1;
        CharAt(n);
      }
    }

    // Whether the text at pos starts with the key.
    method StartsWith(pos: nat, key: string) returns (found: bool)
      requires Valid() && pos <= |text| && Clean(key)
      ensures found <==> key <= text[pos..]
    {
      var i := 0;
      while i < |key|
        invariant i <= |key| && pos + i <= |text|
        invariant forall j :: 0 <= j < i ==> text[pos + j] == key[j]
      {
        CharAt(pos + i);
        if filebuf[pos + i] != key[i] {
          assert i < |text[pos..]| ==> text[pos..][i] == text[pos + i];
          return false;
        }
        i := i + 1;
      }
      assert text[pos..][..|key|] == key;
      found := true;
    }
  
    // The longest key that starts the line at pos; -1: none.
    method MatchKey(pos: nat) returns (k: int)
      requires Valid() && pos <= |text|
      ensures k == BestKey(keys, text[pos..LineEnd(text, pos)], |keys|)
    {
      hide LineEnd, BestKey;
      ghost var line := text[pos..LineEnd(text, pos)];
      k := -1;
      var keyLen := 0;
      BestKeyStep(keys, line, 0);
      for i := 0 to |keys|
        invariant k == BestKey(keys, line, i)
        invariant keyLen == if k < 0 then 0 else |keys[k]|
      {
        BestKeyStep(keys, line, i + 1);
        KeyInLine(text, pos, keys[i]);
        var curLen := |keys[i]|;
        var found := StartsWith(pos, keys[i]);
        if found && curLen > keyLen {
          k := i;
          keyLen := curLen;
        }
      }
    }

    // The first position from pos on that is not a space.
    method SkipSpaces(pos: nat) returns (q: nat)
      requires Valid() && pos <= |text|
      ensures q == Spaces(text, pos)
    {
      q := pos;
      CharAt(q);
      while filebuf[q] == ' '
        invariant pos <= q <= |text| && Spaces(text, q) == Spaces(text, pos)
        invariant filebuf[q] == if q < |text| then text[q] else '\0'
        decreases |text| - q
      {
        q := q + 1;
        CharAt(q);
      }
    }

    // Advances to a new line.
    method SkipLine(pos: nat) returns (q: nat)
      requires Valid() && pos <= |text|
      ensures q == NextLine(text, pos)
    {
      q := pos;
      CharAt(q);
      while filebuf[q] != '\0'
        invariant pos <= q <= |text| && NextLine(text, q) == NextLine(text, pos)
        invariant filebuf[q] == if q < |text| then text[q] else '\0'
        decreases |text| - q
      {
        if IsEol(filebuf[q]) {
          q := q + 1;
          break;
        }
        q := q + 1;
        CharAt(q);
      }
    }

    // The definition on the line at cur, if any: its key and where its value starts.
    method LineDefinition(cur: nat) returns (start: int, key: nat)
      requires Valid() && cur <= |text|
      ensures start == NULL || (cur <= start <= LineEnd(text, cur) && key < |keys|)
      ensures DefAt(keys, text, cur) == if start == NULL then [] else [Def(key, start, LineEnd(text, cur) - start)]
    {
      hide Spaces, LineEnd, BestKey, GoodKeys, DefAt;
      start, key := NULL, 0;
      var k := MatchKey(cur);
      DefinitionAt(keys, text, cur);
      if k >= 0 {
        var p := SkipSpaces(cur + |keys[k]|);
        CharAt(p);
        if filebuf[p] == '=' {
          p := p + 1;
          p := SkipSpaces(p);
          start, key := p, k;
        }
      }
    }

    // findNextDefinition: the next definition from the line at cur on, and the line
    // behind it. start == NULL: there is none.
    method FindNextDefinition(cur: nat) returns (start: int, key: nat, next: nat)
      requires Valid() && cur <= |text|
      ensures cur <= next <= |text|
      ensures start == NULL ==> Defs(keys, text, cur) == []
      ensures start != NULL ==>
                && cur < next <= |text| && 0 <= start <= |text| && key < |keys|
                && Defs(keys, text, cur) == [Def(key, start, LineEnd(text, start) - start)] + Defs(keys, text, next)
    {
      hide LineEnd, DefAt, GoodKeys;
      start, key, next := NULL, 0, cur;
      CharAt(next);
      while filebuf[next] != '\0'
        invariant start == NULL && cur <= next <= |text| && Defs(keys, text, next) == Defs(keys, text, cur)
        invariant filebuf[next] == if next < |text| then text[next] else '\0'
        decreases |text| - next
      {
        start, key := LineDefinition(next);
        if start != NULL {
          LineEndFrom(text, next, start);
          next := SkipLine(start);
          return;
        }
        next := SkipLine(next);
        CharAt(next);
      }
    }

    // parseDefinition: the length of a value.
    method ParseDefinition(attrData: nat) returns (len: nat)
      requires Valid() && attrData <= |text|
      ensures len == LineEnd(text, attrData) - attrData
    {
      len := 0;
      var cur := attrData;
      CharAt(cur);
      while filebuf[cur] != '\0'
        invariant attrData <= cur <= |text| && len == cur - attrData && LineEnd(text, cur) == LineEnd(text, attrData)
        invariant filebuf[cur] == if cur < |text| then text[cur] else '\0'
        decreases |text| - cur
      {
        if IsEol(filebuf[cur]) { break; }
        len := len + 1;
        cur := cur + 1;
        CharAt(cur);
      }
    }

    // Enters definition d, which starts at `start`, unless its key was already parsed.
    method EnterSlice(i: nat, start: nat, ghost seen: seq<Def>, ghost d: Def)
      requires Valid() && i < |keys| && start <= |text| && d == Def(i, start, LineEnd(text, start) - start)
      requires forall k :: 0 <= k < |keys| ==> SliceIs(attributes[k], seen, k)
      modifies attributes
      ensures forall k :: 0 <= k < |keys| ==> SliceIs(attributes[k], seen + [d], k)
    {
      hide LineEnd, GoodKeys, First;
      forall k | 0 <= k < |keys|
        ensures First(seen + [d], k) == if First(seen, k) >= 0 then First(seen, k) else if k == i then |seen| else -1
      {
        FirstOfConcat(seen, d, k);
      }
      assert SliceIs(attributes[i], seen, i);
      if attributes[i].textData == NULL {
        var len := ParseDefinition(start);
        attributes[i] := Attr(start, len);
      }
    }

    // parseConfigFile: builds the table; the first definition of a key wins.
    method ParseConfigFile()
      requires Valid()
      modifies attributes, this`configLoaded
      ensures Indexes(keys, text, attributes[..]) && configLoaded
    {
      hide GoodKeys, LineEnd, Defs, SliceIs;
      ClearTable();
      var curp: nat := 0;
      ghost var seen: seq<Def>, rest := [], Defs(keys, text, 0);
      NothingSeen();
      while true
        invariant curp <= |text| && rest == Defs(keys, text, curp) && seen + rest == Defs(keys, text, 0)
        invariant forall k :: 0 <= k < |keys| ==> SliceIs(attributes[k], seen, k)
        decreases |text| - curp
      {
        var start, i, next := FindNextDefinition(curp);
        if start == NULL { break; }
        EnterSlice(i, start, seen, rest[0]);
        seen, rest := seen + [rest[0]], rest[1..];
        curp := next;
      }
      assert seen == Defs(keys, text, 0);
      configLoaded := true;
    }

    // Empties every slot of the table.
    method ClearTable()
      modifies attributes
      ensures forall k :: 0 <= k < attributes.Length ==> attributes[k] == Attr(NULL, 0)
    {
      for i := 0 to attributes.Length
        invariant forall k :: 0 <= k < i ==> attributes[k] == Attr(NULL, 0)
      {
        attributes[i] := Attr(NULL, 0);
      }
    }
  
    // -- Editing --

    // Writes s at pos; what follows is left alone.
    method Put(pos: nat, s: string)
      requires pos + |s| <= filebuf.Length
      modifies filebuf
      ensures var b := old(filebuf[..]); filebuf[..] == b[..pos] + s + b[pos + |s|..]
    {
      for i := 0 to |s|
        invariant filebuf[..pos] == old(filebuf[..pos]) && filebuf[pos + i..] == old(filebuf[pos + i..])
        invariant filebuf[pos..pos + i] == s[..i]
      {
        ghost var before := filebuf[pos..pos + i];
        filebuf[pos + i] := s[i];
        assert filebuf[pos..pos + i + 1] == before + [s[i]];
      }
    }

    // Copies the text behind `from` to a lower position.
    method MoveDown(to: nat, from: nat)
      requires to <= from <= filebuf.Length
      modifies filebuf
      ensures var b, b' := old(filebuf[..]), filebuf[..];
              b'[..to] == b[..to] && b'[to..to + (|b| - from)] == b[from..]
    {
      var n := filebuf.Length - from;
      for i := 0 to n
        invariant forall m :: 0 <= m < to ==> filebuf[m] == old(filebuf[m])
        invariant forall m :: to <= m < to + i ==> filebuf[m] == old(filebuf[..])[m + (from - to)]
        invariant forall m :: to + i <= m < filebuf.Length ==> filebuf[m] == old(filebuf[m])
      {
        filebuf[to + i] := filebuf[from + i];
      }
    }

    lemma ValidBuffer()
      requires Valid()
      ensures filebuf.Length == MAX_FILE_SIZE + 1 && |text| <= MAX_FILE_SIZE
      ensures filebuf[..][..|text|] == text && filebuf[..][|text|] == '\0'
    {
      hide GoodKeys;
      assert filebuf[..][..|text|] == filebuf[..|text|];
    }

    // The part from..end moves up to `to` by way of a temporary copy.
    method MoveUp(at: nat, to: nat, from: nat, end: nat)
      requires at <= to && from <= end && to + (end - from) <= filebuf.Length && end <= filebuf.Length
      modifies filebuf
      ensures var b, b' := old(filebuf[..]), filebuf[..];
              b'[..at] == b[..at] && b'[to..to + (end - from)] == b[from..end]
    {
      var tempBuf := filebuf[..][from..end];
      Put(to, tempBuf);
      PutParts(old(filebuf[..]), filebuf[..], at, to, tempBuf);
    }

    // Moves the text behind a value, terminator included, so that newLen characters fit.
    method MoveTail(textData: nat, curTextLen: nat, newLen: nat, curLen: nat)
      requires Valid() && curLen == |text| && textData + curTextLen <= |text| && newLen <= MAX_FILE_SIZE - |text|
      modifies filebuf
      ensures var b := filebuf[..];
              && b[..textData] == text[..textData]
              && b[textData + newLen..|text| + newLen - curTextLen + 1] == text[textData + curTextLen..] + ['\0']
    {
      hide GoodKeys, Valid;
      ValidBuffer();
      BufferParts(filebuf[..], text, textData, curTextLen);
      var to, from := textData + newLen, textData + curTextLen;
      ghost var b, tail, n := filebuf[..], text[from..] + ['\0'], curLen + 1 - from;
      assert b[from..from + n] == tail;
      if newLen > curTextLen {
        MoveUp(textData, to, from, curLen + 1);
        assert filebuf[..][to..to + n] == b[from..from + n];
      } else if newLen < curTextLen {
        MoveDown(to, from);
        MovedParts(b, filebuf[..], textData, to, from, curLen + 1);
        assert filebuf[..][to..to + n] == b[from..from + n];
      }
      assert filebuf[..][to..to + n] == tail && to + n == |text| + newLen - curTextLen + 1;
    }

    // The shift loop: every slice behind textData moves by diff.
    method ShiftSlices(textData: nat, diff: int)
      modifies attributes
      ensures attributes[..] == Moved(old(attributes[..]), textData, diff)
    {
      for key := 0 to attributes.Length
        invariant forall k :: 0 <= k < key ==> attributes[k] == Moved(old(attributes[..]), textData, diff)[k]
        invariant forall k :: key <= k < attributes.Length ==> attributes[k] == old(attributes[k])
      {
        if attributes[key].textData > textData {
          attributes[key] := Attr(attributes[key].textData + diff, attributes[key].textLength);
        }
      }
    }

    method ReplaceInBuffer(textData: nat, curTextLen: nat, newText: string, curLen: nat)
      requires Valid() && curLen == |text| && textData + curTextLen <= |text| && '\0' !in newText
      requires |newText| <= MAX_FILE_SIZE - |text|
      modifies filebuf, this`text
      ensures Valid() && text == Updated(old(text), textData, curTextLen, newText)
    {
      hide GoodKeys;
      MoveTail(textData, curTextLen, |newText|, curLen);
      label moved:
      Put(textData, newText);
      AfterPut(old@moved(filebuf[..]), filebuf[..], textData, newText);
      TextInBuffer(filebuf[..], text, textData, curTextLen, newText);
      text := Updated(text, textData, curTextLen, newText);
    }

    // Replaces the value at textData and repairs every other slice. 0: it does not fit.
    method WriteUpdateDefinitionText(textData: nat, curTextLen: nat, newText: string) returns (n: nat)
      requires Valid() && textData + curTextLen <= |text| && '\0' !in newText
      modifies filebuf, attributes, this`text
      ensures Valid()
      ensures |newText| > MAX_FILE_SIZE - |old(text)| ==>
                n == 0 && text == old(text) && attributes[..] == old(attributes[..])
      ensures |newText| <= MAX_FILE_SIZE - |old(text)| ==>
                && n == |newText| && text == Updated(old(text), textData, curTextLen, newText)
                && attributes[..] == Moved(old(attributes[..]), textData, |newText| - curTextLen)
    {
      hide GoodKeys, Updated, Moved;
      var newLen := |newText|;
      var curLen := StrLen();
      var remainingLen := MAX_FILE_SIZE - curLen;
      if newLen > remainingLen { return 0; }
      ReplaceInBuffer(textData, curTextLen, newText, curLen);
      if newLen != curTextLen {
        ShiftSlices(textData, newLen - curTextLen);
      } else {
        NothingMoved(attributes[..], textData);
      }
      n := newLen;
    }

    // Appends a definition; the result is where its value starts, NULL when it does not fit.
    method WriteAddDefinitionText(key: nat, textData: string) returns (at: int)
      requires Valid() && key < |keys| && '\0' !in textData
      modifies filebuf, this`text
      ensures Valid()
      ensures if |Terminated(old(text))| + |NewLine(keys, key, textData)| > MAX_FILE_SIZE then at == NULL && text == old(text)
              else text == Added(keys, old(text), key, textData) && at == ValueAt(keys, old(text), key)
    {
      var curLen := StrLen();
      var remainingLen := MAX_FILE_SIZE - curLen;
      var totalLen := |textData|;
      var keyLen, defLen := |keys[key]|, |EQUALS|;
      if totalLen > remainingLen { return NULL; }
      totalLen := totalLen + keyLen;
      totalLen := totalLen + defLen;
      if totalLen > remainingLen { return NULL; }
      totalLen := totalLen + 2;
      if totalLen > remainingLen { return NULL; }
      if curLen != 0 {
        CharAt(curLen - 1);
      }
      ghost var r := Terminated(text);
      if curLen != 0 && !IsEol(filebuf[curLen - 1]) {
        totalLen := totalLen + 2;
        if totalLen > remainingLen { return NULL; }
        filebuf[curLen], filebuf[curLen + 1] := '\r', '\n';
        curLen := curLen + 2;
      }
      AppendLine(curLen, key, textData);
      at := curLen + keyLen + defLen;
    }

    // The formatted print of a definition, as far as the formatter goes, and its terminator.
    method AppendLine(curLen: nat, key: nat, textData: string)
      requires GoodKeys(keys) && attributes.Length == |keys| && '\0' !in text
      requires filebuf.Length == MAX_FILE_SIZE + 1 && key < |keys| && '\0' !in textData
      requires curLen == |Terminated(text)| && curLen + |NewLine(keys, key, textData)| <= MAX_FILE_SIZE
      requires filebuf[..curLen] == Terminated(text)
      modifies filebuf, this`text
      ensures Valid() && text == Added(keys, old(text), key, textData)
    {
      hide GoodKeys, Terminated, Printed, NewLine;
      ghost var b := filebuf[..];
      var line := Printed(NewLine(keys, key, textData));
      NoTerminator(keys, text, key, textData);
      Put(curLen, line + ['\0']);
      AfterPut(b, filebuf[..], curLen, line + ['\0']);
      text := Added(keys, text, key, textData);
      Terminate(filebuf[..], b[..curLen], line);
    }

    // From a value back to the beginning of its line.
    method LineBegin(at: nat) returns (lineBegin: nat)
      requires Valid() && at < |text| && (at > 0 || IsEol(text[0]))
      ensures lineBegin == LineBack(text, at)
    {
      var c;
      var q: int := at;
      while true
        invariant 0 <= q <= at && (q == 0 ==> at == 0) && LineBack(text, at) == LineBack(text, q)
        decreases q
      {
        CharAt(q);
        c := filebuf[q];
        q := q - 1;
        if IsEol(c) { break; }
        if q <= 0 { break; }
      }
      if IsEol(c) {
        lineBegin := q + 2;
      } else {
        lineBegin := q;
      }
    }

    // From the end of a value on to where its line is taken to end.
    method LineEndAfter(from: nat) returns (lineEnd: nat)
      requires Valid() && from <= |text|
      ensures lineEnd == LineAhead(text, from)
    {
      var q := from;
      var c;
      while true
        invariant from <= q <= LineEnd(text, from) && LineEnd(text, q) == LineEnd(text, from)
        decreases |text| + 1 - q
      {
        CharAt(q);
        c := filebuf[q];
        q := q + 1;
        if IsEol(c) || c == '\0' { break; }
      }
      if c == '\0' {
        lineEnd := q - 1;
      } else {
        CharAt(q);
        if IsEol(filebuf[q]) {
          lineEnd := q + 1;
        } else {
          lineEnd := q;
        }
      }
    }

    // removeDefinition: cuts the line that the slice of attribute `key` lies in. The code
    // stops with an error for a slice at the very start of the text.
    method RemoveDefinition(key: nat) returns (ok: bool)
      requires Valid() && key < |keys| && (Deletable(attributes[key]) ==> Backed(text, attributes[key]))
      modifies filebuf, attributes, this`text
      ensures Valid()
      ensures ok <==> Deletable(old(attributes[key]))
      ensures !ok ==> text == old(text) && attributes[..] == old(attributes[..])
      ensures ok ==> State(text, attributes[..][key := Attr(NULL, 0)]) == CutOut(old(Now()), key)
    {
      hide GoodKeys, Defs, LineEnd, NextLine, Moved, Updated, LineBack, LineAhead, Removed;
      var attrText, attrLength := attributes[key].textData, attributes[key].textLength;
      if attrText == NULL || attrLength == 0 { return false; }
      var lineBegin := LineBegin(attrText);
      var lineEnd := LineEndAfter(attrText + attrLength);
      UpdatedIsRemoved(text, lineBegin, lineEnd);
      BackBeforeAhead(text, attributes[key]);
      var n := WriteUpdateDefinitionText(lineBegin, lineEnd - lineBegin, "");
      ok := n == 0;
    }

    ghost function Now(): (s: State)
      reads this, attributes
    {
      State(text, attributes[..])
    }

    // writeAttributeText. A value that does not fit leaves the text alone but is
    // recorded with length 0.
    method WriteAttributeText(key: nat, newText: string)
      requires Valid() && key < |keys| && InText(keys, Now()) && '\0' !in newText
      modifies filebuf, attributes, this`text
      ensures Valid()
      ensures Fits(keys, old(Now()), key, newText) ==> Now() == SetState(keys, old(Now()), key, newText)
      ensures !Fits(keys, old(Now()), key, newText) ==> Now() == Unfitted(old(Now()), key, newText)
      ensures Indexes(keys, old(text), old(attributes[..])) ==>
                (Indexes(keys, text, attributes[..]) <==>
                   if Fits(keys, old(Now()), key, newText)
                   then Settable(keys, key, newText, old(attributes[key].textData == NULL))
                   else old(attributes[key].textData == NULL || attributes[key].textLength == 0))
    {
      hide GoodKeys, Settable, Indexes, Added, ValueAt, NewLine, Updated, Moved;
      ghost var before := Now();
      if Indexes(keys, before.text, before.table) {
        SetKeepsIndex(keys, before, key, newText);
        Unfitting(keys, before, key, newText);
      }
      if attributes[key].textData == NULL {
        var at := WriteAddDefinitionText(key, newText);
        attributes[key] := Attr(at, |newText|);
      } else {
        var len := WriteUpdateDefinitionText(attributes[key].textData, attributes[key].textLength, newText);
        attributes[key] := Attr(attributes[key].textData, len);
      }
    }

    // configSetKeyData, given the text the key's writer makes of the data (None: refused).
    // It reports success even when the text did not fit.
    method SetKeyData(key: int, value: Option<string>) returns (ok: bool)
      requires Valid() && (configLoaded ==> InText(keys, Now()))
      requires value.Some? ==> '\0' !in value.value
      modifies filebuf, attributes, this`text, this`configDirty
      ensures Valid()
      ensures ok <==> configLoaded && 0 <= key < |keys| && value.Some?
      ensures !ok ==> Now() == old(Now()) && configDirty == old(configDirty)
      ensures ok ==> configDirty
      ensures ok && Fits(keys, old(Now()), key, value.value) ==>
                Step(keys, old(Now()), Edit.SetText(key, value.value), Now())
      ensures ok && !Fits(keys, old(Now()), key, value.value) ==> Now() == Unfitted(old(Now()), key, value.value)
      ensures ok && Indexes(keys, old(text), old(attributes[..])) ==>
                (Indexes(keys, text, attributes[..]) <==>
                   if Fits(keys, old(Now()), key, value.value)
                   then Settable(keys, key, value.value, old(attributes[key].textData == NULL))
                   else old(attributes[key].textData == NULL || attributes[key].textLength == 0))
    {
      hide GoodKeys, Settable, Indexes, SetState, InText, Fits;
      ok := false;
      if configLoaded && 0 <= key < |keys| {
        match value {
          case None =>
          case Some(v) =>
            WriteAttributeText(key, v);
            configDirty := true;
            ok := true;
        }
      }
    }

    // configDeleteKey, for any slice it does not stop at. With a right slice the key's first
    // definition goes, and an index stays one exactly when the key is not defined twice.
    method DeleteKey(key: int) returns (ok: bool)
      requires Valid() && (configLoaded ==> InText(keys, Now()))
      requires configLoaded && 0 <= key < |keys| && Deletable(attributes[key]) ==> Backed(text, attributes[key])
      modifies filebuf, attributes, this`text, this`configDirty
      ensures Valid()
      ensures ok <==> configLoaded && 0 <= key < |keys| && Deletable(old(attributes[key]))
      ensures !ok ==> Now() == old(Now()) && configDirty == old(configDirty)
      ensures ok ==> configDirty && Now() == CutOut(old(Now()), key)
      ensures ok && old(SliceIs(attributes[key], Defs(keys, text, 0), key)) ==>
                && Step(keys, old(Now()), Edit.DeleteKey(key), Now())
                && (Indexes(keys, old(text), old(attributes[..])) ==>
                      (Indexes(keys, text, attributes[..]) <==> DefinedOnce(keys, old(text), key)))
    {
      hide GoodKeys, Indexes, InText, Defs, CutOut, DefinedOnce, Step, Backed;
      ok := false;
      if !configLoaded || key < 0 || key >= |keys| { return; }
      ghost var before := Now();
      ok := RemoveDefinition(key);
      if ok {
        if SliceIs(before.table[key], Defs(keys, before.text, 0), key) { CutOutIsStep(keys, before, key); }
        attributes[key] := Attr(NULL, 0);
        configDirty := true;
        assert attributes[..] == Now().table;
      }
    }
  }

  // The definition on the line at cur, in terms of positions in the text.
  lemma DefinitionAt(keys: seq<string>, t: string, cur: nat)
    requires cur <= |t|
    ensures var e, k := LineEnd(t, cur), BestKey(keys, t[cur..LineEnd(t, cur)], |keys|);
            if k < 0 then DefAt(keys, t, cur) == []
            else
              && cur + |keys[k]| <= e
              && var p := Spaces(t, cur + |keys[k]|);
                 if p == |t| || t[p] != '=' then DefAt(keys, t, cur) == []
                 else p < e && Spaces(t, p + 1) <= e && DefAt(keys, t, cur) == [Def(k, Spaces(t, p + 1), e - Spaces(t, p + 1))]
  {
    hide Spaces, LineEnd, BestKey;
    var line := t[cur..LineEnd(t, cur)];
    var k := BestKey(keys, line, |keys|);
    if k >= 0 {
      SpacesInLine(t, cur, |keys[k]|);
      var p := Spaces(line, |keys[k]|);
      if p < |line| {
        assert line[p] == t[cur + p];
        if line[p] == '=' { SpacesInLine(t, cur, p + 1); }
      }
    }
  }

  lemma NoTerminator(keys: seq<string>, t: string, k: nat, v: string)
    requires GoodKeys(keys) && k < |keys| && '\0' !in t && '\0' !in v
    ensures '\0' !in Added(keys, t, k, v)
  {
    assert Clean(keys[k]) && '\0' !in NewLine(keys, k, v);
  }

  lemma Terminate(b: seq<char>, a: string, line: string)
    requires |a| + |line| < |b| && b[..|a|] == a && b[|a|..|a| + |line| + 1] == line + ['\0']
    ensures b[..|a + line|] == a + line && b[|a + line|] == '\0'
  {
    var tail := b[|a|..|a| + |line| + 1];
    assert tail[|line|] == b[|a| + |line|];
    assert b[|a|..|a| + |line|] == tail[..|line|] == line;
    assert b[..|a| + |line|] == b[..|a|] + b[|a|..|a| + |line|];
  }

  lemma NothingSeen()
    ensures forall k :: SliceIs(Attr(NULL, 0), [], k)
  {
  }

  lemma NothingMoved(table: seq<Attr>, at: nat)
    ensures Moved(table, at, 0) == table
  {
  }

  lemma TextInBuffer(b: seq<char>, t: string, at: nat, len: nat, v: string)
    requires at + len <= |t| && '\0' !in t && '\0' !in v && |Updated(t, at, len, v)| < |b|
    requires b[..at] == t[..at] && b[at..at + |v|] == v
    requires b[at + |v|..|t| + |v| - len + 1] == t[at + len..] + ['\0']
    ensures var t' := Updated(t, at, len, v); b[..|t'|] == t' && b[|t'|] == '\0' && '\0' !in t'
  {
    var t', m := Updated(t, at, len, v), |t| - (at + len);
    var tail := b[at + |v|..at + |v| + m + 1];
    assert tail[m] == b[|t'|] && tail[..m] == b[at + |v|..|t'|] == t[at + len..];
    assert b[..|t'|] == b[..at] + b[at..at + |v|] + b[at + |v|..|t'|];
  }

  lemma BufferParts(b: seq<char>, t: string, at: nat, len: nat)
    requires at + len <= |t| < |b| && b[..|t|] == t && b[|t|] == '\0'
    ensures b[..at] == t[..at] && b[at + len..|t| + 1] == t[at + len..] + ['\0']
  {
    assert b[..at] == b[..|t|][..at];
    assert b[at + len..|t|] == b[..|t|][at + len..];
    assert b[at + len..|t| + 1] == b[at + len..|t|] + [b[|t|]];
  }

  lemma AfterPut(b: seq<char>, b': seq<char>, at: nat, v: string)
    requires at + |v| <= |b| && b' == b[..at] + v + b[at + |v|..]
    ensures b'[..at] == b[..at] && b'[at..at + |v|] == v && b'[at + |v|..] == b[at + |v|..]
    ensures forall n {:trigger b'[at + |v|..n]} :: at + |v| <= n <= |b| ==> b'[at + |v|..n] == b[at + |v|..n]
  {
  }

  lemma PutParts(b: seq<char>, b': seq<char>, at: nat, pos: nat, v: string)
    requires at <= pos && pos + |v| <= |b| && b' == b[..pos] + v + b[pos + |v|..]
    ensures b'[..at] == b[..at] && b'[pos..pos + |v|] == v
  {
  }

  lemma MovedParts(b: seq<char>, b': seq<char>, at: nat, to: nat, from: nat, end: nat)
    requires |b'| == |b| && at <= to <= from <= end <= |b|
    requires b'[..to] == b[..to] && b'[to..to + (|b| - from)] == b[from..]
    ensures b'[..at] == b[..at] && b'[to..to + (end - from)] == b[from..end]
  {
    assert b'[..at] == b'[..to][..at] && b[..at] == b[..to][..at];
    assert b'[to..to + (end - from)] == b'[to..to + (|b| - from)][..end - from];
    assert b[from..end] == b[from..][..end - from];
  }
}
