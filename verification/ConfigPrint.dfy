/** The line that adds a definition, as the formatter prints it (source/arm11/config.c,
    writeAddDefinitionText, and source/arm11/fmt.c, ee_sprintf). */
module ConfigPrint {
  import opened ConfigText
  import F = FmtText
  import opened FmtNumber

  const LINE_FORMAT := "%s%s%s\r\n"

  // A plain %s gives its argument as it is.
  lemma StringDirective(fmt: string, p: nat, args: seq<F.Arg>)
    requires '\0' !in fmt && p + 1 < |fmt| && fmt[p] == '%' && fmt[p + 1] == 's' && args != [] && args[0].Str?
    ensures F.Pieces(fmt, p, args) == [Text(args[0].text)] + F.Pieces(fmt, p + 2, args[1..])
  {
    hide F.Pieces;
    var s := F.Directive(fmt, p + 1, args);
    assert s == F.State(p + 1, args, F.NO_FLAGS, -1, -1, 0) by { NoOptions(fmt, p + 1, args); }
    PlainField(args[0].text);
    PiecesStep(fmt, p, args);
  }

  lemma NoOptions(fmt: string, p: nat, args: seq<F.Arg>)
    requires p < |fmt| && fmt[p] == 's'
    ensures F.Directive(fmt, p, args) == F.State(p, args, F.NO_FLAGS, -1, -1, 0)
  {
  }

  lemma PlainField(t: string)
    ensures F.Field(t, -1, false) == Text(t)
  {
    assert "" + t + "" == t;
  }

  lemma PiecesStep(fmt: string, p: nat, args: seq<F.Arg>)
    requires '\0' !in fmt && p < |fmt| && fmt[p] == '%'
    ensures var s := F.Directive(fmt, p + 1, args);
            && p < F.Beyond(fmt, s) <= |fmt|
            && F.Pieces(fmt, p, args) == [F.Convert(fmt, s)] + F.Pieces(fmt, F.Beyond(fmt, s), F.ArgsLeft(fmt, s))
  {
    hide F.Directive, F.Convert;
    F.DirectiveEnd(fmt, p + 1, args);
  }

  lemma LiteralStep(fmt: string, p: nat, args: seq<F.Arg>)
    requires '\0' !in fmt && p < |fmt| && fmt[p] != '%'
    ensures F.Pieces(fmt, p, args) == [Text([fmt[p]])] + F.Pieces(fmt, p + 1, args)
  {
  }

  lemma LinePieces(a: string, b: string, c: string)
    ensures F.Pieces(LINE_FORMAT, 0, [F.Str(a), F.Str(b), F.Str(c)]) == [Text(a), Text(b), Text(c), Text("\r"), Text("\n")]
  {
    hide F.Pieces;
    var args := [F.Str(a), F.Str(b), F.Str(c)];
    StringDirective(LINE_FORMAT, 0, args);
    StringDirective(LINE_FORMAT, 2, args[1..]);
    StringDirective(LINE_FORMAT, 4, args[1..][1..]);
    LiteralStep(LINE_FORMAT, 6, []);
    LiteralStep(LINE_FORMAT, 7, []);
    assert args[1..][1..][1..] == [];
    assert F.Pieces(LINE_FORMAT, 8, []) == [] by { NothingLeft(); }
  }

  lemma NothingLeft()
    ensures F.Pieces(LINE_FORMAT, 8, []) == []
  {
  }

  lemma LineText(a: string, b: string, c: string)
    ensures F.FullText([Text(a), Text(b), Text(c), Text("\r"), Text("\n")]) == a + b + c + CRLF
  {
    hide F.FullText;
    var ps := [Text(a), Text(b), Text(c), Text("\r"), Text("\n")];
    F.FullFirst(ps);
    F.FullFirst(ps[1..]);
    F.FullFirst(ps[1..][1..]);
    F.FullFirst(ps[1..][1..][1..]);
    F.FullFirst(ps[1..][1..][1..][1..]);
    assert F.FullText([]) == "" by { F.FullEmpty(); }
    assert ps[1..][1..][1..][1..][1..] == [];
    assert a + (b + (c + ("\r" + ("\n" + "")))) == a + b + c + CRLF;
  }

  // With room for 0xFFF characters the formatter prints that much of the line.
  lemma PrintedIsRendered(keys: seq<string>, k: nat, v: string)
    requires k < |keys|
    ensures F.Render(F.Pieces(LINE_FORMAT, 0, [F.Str(keys[k]), F.Str(EQUALS), F.Str(v)]), PRINT_MAX) == Printed(NewLine(keys, k, v))
  {
    hide F.Pieces, F.Render, F.FullText;
    LinePieces(keys[k], EQUALS, v);
    LineText(keys[k], EQUALS, v);
    F.RenderIsPrefix([Text(keys[k]), Text(EQUALS), Text(v), Text("\r"), Text("\n")], PRINT_MAX);
  }
}
