/**
 * What becomes of a read error. It ends the run, unless it is met where spaces are skipped or inside a quoted value:
 * there the parser goes on with the bytes after it, if there are any, and the error is never reported.
 */
module ReadErrors {
  import opened Wrappers
  import opened Bytes
  import opened Lexing
  import opened Namespaces
  import opened Events
  import opened PrintedLexing

  /** Bytes only. */
  predicate Clean(s: seq<Item>) {
    s != [] ==> s[0].Data? && Clean(s[1..])
  }

  /** Bytes and one error, which is neither the end of the input nor one the parser reports itself. */
  predicate OneFail(s: seq<Item>, e: Error) {
    && e != EOF && e != Syntax
    && s != [] && if s[0].Data? then OneFail(s[1..], e) else s[0] == Fail(e) && Clean(s[1..])
  }

  lemma {:induction false} DeliverClean(data: seq<Byte>)
    ensures Clean(Deliver(data, None, []))
    decreases |data|
  {
    if data != [] {
      DeliverClean(data[1..]);
    }
  }

  /** Any bytes, then the error, then any bytes. */
  lemma {:induction false} DeliverOneFail(data: seq<Byte>, e: Error, after: seq<Byte>)
    requires e != EOF && e != Syntax
    ensures OneFail(Deliver(data, Some(e), Deliver(after, None, [])), e)
    decreases |data|
  {
    if data == [] {
      DeliverClean(after);
    } else {
      DeliverOneFail(data[1..], e, after);
    }
  }

  /**
   * s has been read as far as rest, which left err: an error in s is still to come, or it has been met and is in err.
   */
  predicate Kept(s: seq<Item>, rest: seq<Item>, err: Option<Error>, e: Error) {
    && (Clean(s) ==> Clean(rest) && err != Some(e))
    && (OneFail(s, e) ==> (OneFail(rest, e) && err != Some(e)) || (Clean(rest) && err == Some(e)))
  }

  /** The same, unless it has been met and lost. */
  predicate KeptUnless(lost: bool, s: seq<Item>, rest: seq<Item>, err: Option<Error>, e: Error) {
    && (Clean(s) ==> !lost)
    && if lost then OneFail(s, e) ==> Clean(rest) && err != Some(e) else Kept(s, rest, err, e)
  }

  predicate Normal(e: Error) {
    e != EOF && e != Syntax
  }

  // ---- Within a token ----

  lemma GetcKept(s: seq<Item>, e: Error)
    requires Normal(e)
    ensures Kept(s, Getc(s).rest, Getc(s).err, e)
  {
  }

  lemma {:induction false} SpaceKept(s: seq<Item>, e: Error)
    requires Normal(e)
    ensures Kept(s, SkipSpace(s).0, SkipSpace(s).1, e)
    decreases |s|
  {
    GetcKept(s, e);
    if Getc(s).b.Some? && IsSpace(Getc(s).b.value) {
      SpaceKept(Getc(s).rest, e);
    }
  }

  lemma {:induction false} NameTailKept(s: seq<Item>, acc: seq<Byte>, e: Error)
    requires Normal(e)
    ensures Kept(s, NameTail(s, acc).rest, NameTail(s, acc).err, e) &&
        (NameTail(s, acc).ok ==> NameTail(s, acc).err.None?)
    decreases |s|
  {
    var g := Getc(s);
    GetcKept(s, e);
    if g.b.Some? && InName(g.b.value) {
      NameTailKept(g.rest, acc + [g.b.value], e);
    }
  }

  lemma ReadNameKept(s: seq<Item>, e: Error)
    requires Normal(e)
    ensures Kept(s, ReadName(s).rest, ReadName(s).err, e) && (ReadName(s).ok ==> ReadName(s).err.None?)
  {
    var g := Getc(s);
    GetcKept(s, e);
    if g.b.Some? && InName(g.b.value) {
      NameTailKept(g.rest, [g.b.value], e);
    }
  }

  lemma {:induction false} DigitsKept(base: nat, s: seq<Item>, n: nat, value: nat, e: Error)
    requires Normal(e)
    ensures Kept(s, Digits(base, s, n, value).rest, Digits(base, s, n, value).err, e)
    decreases |s|
  {
    var g := Getc(s);
    GetcKept(s, e);
    if g.b.Some? && IsDigit(g.b.value, base) {
      DigitsKept(base, g.rest, n + 1, base * value + DigitValue(g.b.value), e);
    }
  }

  lemma ReferenceKept(s: seq<Item>, e: Error)
    requires Normal(e)
    ensures Kept(s, Reference(s).rest, Reference(s).err, e)
  {
    var g := Getc(s);
    GetcKept(s, e);
    if g.b == Some('#') {
      GetcKept(g.rest, e);
      DigitsKept(16, Getc(g.rest).rest, 0, 0, e);
      DigitsKept(10, g.rest, 0, 0, e);
    } else if g.b.Some? {
      ReadNameKept(s, e);
      GetcKept(ReadName(s).rest, e);
    }
  }

  /** Text is ended by the error, which is reported beside it. */
  lemma {:induction false} TextKept(quote: Option<Byte>, s: seq<Item>, acc: seq<Byte>, before: Byte, e: Error)
    requires Normal(e)
    ensures Kept(s, Text(quote, s, acc, before).rest, Text(quote, s, acc, before).err, e)
    decreases |s|
  {
    var g := Getc(s);
    GetcKept(s, e);
    if g.b.Some? {
      var b, r := g.b.value, Reference(g.rest);
      if b == '<' || quote == Some(b) {
      } else if b == '&' {
        ReferenceKept(g.rest, e);
        if r.text.Some? {
          TextKept(quote, r.rest, acc + r.text.value, '\0', e);
        }
      } else {
        var acc1 := if b == '\r' then acc + ['\n'] else if before == '\r' && b == '\n' then acc else acc + [b];
        TextKept(quote, g.rest, acc1, b, e);
      }
    }
  }

  lemma AttrValueKept(s: seq<Item>, e: Error)
    requires Normal(e)
    ensures Kept(s, AttrValue(s).rest, AttrValue(s).err, e)
  {
    var g := Getc(s);
    GetcKept(s, e);
    if g.b == Some('"') || g.b == Some('\'') {
      TextKept(g.b, g.rest, [], '\0', e);
    }
  }

  // ---- Where it is lost ----

  /** Spaces are skipped, and the error is met before anything else. */
  predicate LostInSpace(s: seq<Item>, e: Error) {
    SkipSpace(s).1 == Some(e)
  }

  /** A quoted value is read, and the error is met before its closing quote. */
  predicate LostInValue(s: seq<Item>, e: Error) {
    AttrValue(s).text.Some? && AttrValue(s).err == Some(e)
  }

  /** At one of these places in an attribute: after its name, after its equals sign, or in its value. */
  predicate LostInAttr(s: seq<Item>, e: Error) {
    var n := ReadName(s);
    && n.ok
    && (LostInSpace(n.rest, e) ||
        var h := Getc(SkipSpace(n.rest).0);
        h.b == Some('=') && (LostInSpace(h.rest, e) || LostInValue(SkipSpace(h.rest).0, e)))
  }

  /** In the attributes of a start tag, or in the spaces between them. */
  predicate LostInTail(s: seq<Item>, name: Name, acc: seq<Attr>, e: Error)
    decreases |s|
  {
    LostInSpace(s, e) ||
    var s1 := SkipSpace(s).0;
    var g := Getc(s1);
    g.b.Some? && g.b.value != '/' && g.b.value != '>' &&
    var a := OneAttr(s1);
    LostInAttr(s1, e) || (a.0.Some? && LostInTail(a.2, name, acc + [a.0.value], e))
  }

  /** In a token: in a start tag, or in the spaces after the name of an end tag or the target of an instruction. */
  predicate LostInToken(s: seq<Item>, e: Error) {
    Getc(s).b == Some('<') && LostInMarkup(Getc(s).rest, e)
  }

  predicate LostInMarkup(s: seq<Item>, e: Error) {
    var g := Getc(s);
    g.b.Some? &&
    if g.b.value == '/' || g.b.value == '?' then LostAfterName(g.rest, e)
    else
      var n := ReadName(s);
      n.ok && LostInTail(n.rest, SplitName(n.run), [], e)
  }

  predicate LostAfterName(s: seq<Item>, e: Error) {
    ReadName(s).ok && LostInSpace(ReadName(s).rest, e)
  }

  lemma OneAttrKept(s: seq<Item>, e: Error)
    requires Normal(e)
    ensures KeptUnless(LostInAttr(s, e), s, OneAttr(s).2, if OneAttr(s).0.Some? then None else OneAttr(s).1, e)
  {
    var n := ReadName(s);
    ReadNameKept(s, e);
    if n.ok {
      var s1 := SkipSpace(n.rest).0;
      SpaceKept(n.rest, e);
      GetcKept(s1, e);
      var h := Getc(s1);
      if h.b == Some('=') {
        SpaceKept(h.rest, e);
        AttrValueKept(SkipSpace(h.rest).0, e);
      }
    }
  }

  lemma {:induction false} StartTailKept(s: seq<Item>, name: Name, acc: seq<Attr>, e: Error)
    requires Normal(e)
    ensures KeptUnless(LostInTail(s, name, acc, e), s, StartTail(s, name, acc).rest, StartTail(s, name, acc).err, e)
    decreases |s|
  {
    var s1 := SkipSpace(s).0;
    var g := Getc(s1);
    SpaceKept(s, e);
    GetcKept(s1, e);
    if g.b == Some('/') {
      GetcKept(g.rest, e);
    } else if g.b.Some? && g.b != Some('>') {
      var a := OneAttr(s1);
      OneAttrKept(s1, e);
      if a.0.Some? {
        StartTailKept(a.2, name, acc + [a.0.value], e);
      }
    }
  }

  lemma {:induction false} InstructionTailKept(s: seq<Item>, before: Byte, e: Error)
    requires Normal(e)
    ensures Kept(s, InstructionTail(s, before).rest, InstructionTail(s, before).err, e)
    decreases |s|
  {
    var g := Getc(s);
    GetcKept(s, e);
    if g.b.Some? && !(before == '?' && g.b.value == '>') {
      InstructionTailKept(g.rest, g.b.value, e);
    }
  }

  lemma EndTagKept(s: seq<Item>, e: Error)
    requires Normal(e)
    ensures KeptUnless(LostAfterName(s, e), s, EndTag(s).rest, EndTag(s).err, e)
  {
    var n := ReadName(s);
    ReadNameKept(s, e);
    SpaceKept(n.rest, e);
    GetcKept(SkipSpace(n.rest).0, e);
  }

  lemma ProcInstKept(s: seq<Item>, e: Error)
    requires Normal(e)
    ensures KeptUnless(LostAfterName(s, e), s, ProcInst(s).rest, ProcInst(s).err, e)
  {
    var n := ReadName(s);
    ReadNameKept(s, e);
    SpaceKept(n.rest, e);
    InstructionTailKept(SkipSpace(n.rest).0, '\0', e);
  }

  lemma MarkupKept(s: seq<Item>, e: Error)
    requires Normal(e)
    ensures KeptUnless(LostInMarkup(s, e), s, Markup(s).rest, Markup(s).err, e)
  {
    var g := Getc(s);
    GetcKept(s, e);
    if g.b == Some('/') {
      EndTagKept(g.rest, e);
    } else if g.b == Some('?') {
      ProcInstKept(g.rest, e);
    } else if g.b.Some? {
      ReadNameKept(s, e);
      StartTailKept(ReadName(s).rest, SplitName(ReadName(s).run), [], e);
    }
  }

  /** What one token does with the error. */
  lemma TokenKept(s: seq<Item>, e: Error)
    requires Normal(e)
    ensures KeptUnless(LostInToken(s, e), s, NextToken(s).rest, NextToken(s).err, e)
  {
    var g := Getc(s);
    GetcKept(s, e);
    if g.b == Some('<') {
      MarkupKept(g.rest, e);
    } else {
      TextKept(None, s, [], '\0', e);
    }
  }

  // ---- Over a run ----

  /** The error is lost in some token of the stream. */
  predicate Lost(s: seq<Item>, e: Error)
    decreases |s|
  {
    LostInToken(s, e) ||
    var l := NextToken(s);
    !l.tok.Broken? && l.err.None? && Lost(l.rest, e)
  }

  /** What a run leaves unread. */
  function Left(st: State): seq<Item>
    decreases Budget(st)
  {
    if Step(st).ret.Some? then Step(st).st.input
    else
      StepProgress(st);
      Left(Step(st).st)
  }

  lemma {:induction false} NotBoth(s: seq<Item>, e: Error)
    ensures !(Clean(s) && OneFail(s, e))
    decreases |s|
  {
    if s != [] {
      NotBoth(s[1..], e);
    }
  }

  lemma {:induction false} CleanRun(st: State, e: Error)
    requires Normal(e) && Clean(st.input) && st.err != Some(e)
    ensures RunAll(st).err != e
    decreases Budget(st)
  {
    TokenKept(st.input, e);
    if Step(st).ret.None? {
      StepProgress(st);
      CleanRun(Step(st).st, e);
    }
  }

  /** A run returns the read error exactly if it gets as far as the error and does not lose it. */
  lemma {:induction false} ReportedExactly(st: State, e: Error)
    requires st.err.None? && OneFail(st.input, e)
    ensures RunAll(st).err == e <==> !OneFail(Left(st), e) && !Lost(st.input, e)
    decreases Budget(st)
  {
    var l, r := NextToken(st.input), Step(st);
    TokenKept(st.input, e);
    NotBoth(l.rest, e);
    if r.ret.None? {
      StepProgress(st);
      if r.st.err.None? && OneFail(r.st.input, e) {
        ReportedExactly(r.st, e);
      } else if r.st.err != Some(e) && Clean(r.st.input) {
        CleanRun(r.st, e);
      }
    }
  }

  /** The same for a whole file: any bytes, the error, and any bytes that may be read after it. */
  lemma FileErrorReportedExactly(data: seq<Byte>, e: Error, after: seq<Byte>)
    requires Normal(e)
    ensures var s := Deliver(data, Some(e), Deliver(after, None, []));
            RunAll(Initial(s)).err == e <==> !OneFail(Left(Initial(s)), e) && !Lost(s, e)
  {
    DeliverOneFail(data, e, after);
    ReportedExactly(Initial(Deliver(data, Some(e), Deliver(after, None, []))), e);
  }

  // ---- Two files whose read error is lost ----

  const A := Name([], "a")
  const B := Name([], "b")

  /** One element, which closes itself. */
  lemma RunOfOne(s: seq<Item>, attrs: seq<Attr>)
    requires NextToken(s) == Lexed(Start(A, attrs, true), None, []) && attrs in {[], [Attr(B, "x")]}
    ensures RunAll(Initial(s)) == Ran([OnStart(A, attrs), OnEnd(A)], EOF)
  {
    var st := Initial(s);
    assert A.local[0] == 'a' && XMLNS[0] == 'x' && B.local[0] == 'b';
    if attrs != [] {
      assert attrs[1..] == [];
    }
    CloseAfterOpen(st.scope, A, attrs);
    assert TranslateAttrs(map[], attrs) == attrs;
    var st1 := Step(st).st;
    assert Step(st).ev == Some(OnStart(A, attrs));
    assert Step(st1) == Stepped(Initial([]), Some(OnEnd(A)), None);
    assert RunAll(Initial([])) == Ran([], EOF);
    assert RunAll(st1) == Ran([OnEnd(A)], EOF);
    assert [OnStart(A, attrs)] + [OnEnd(A)] == [OnStart(A, attrs), OnEnd(A)];
  }

  lemma Tail(e: Error)
    ensures StartTail(Deliver("/>", None, []), A, []) == Lexed(Start(A, [], true), None, [])
    ensures StartTail(Deliver("/>", None, []), A, [Attr(B, "x")]) == Lexed(Start(A, [Attr(B, "x")], true), None, [])
  {
    GetcDeliver("/>", []);
    assert "/>"[1..] == ">";
    GetcOne('>', []);
  }

  /** The start of the tag, up to a space. */
  lemma TagName(s: seq<Item>, e: Error)
    requires Getc(s).b == Some(' ')
    ensures var all := Deliver("<", None, Deliver("a", None, s));
            NextToken(all) == StartTail(s, A, []) && (LostInToken(all, e) <==> LostInTail(s, A, [], e))
  {
    GetcOne('<', Deliver("a", None, s));
    GetcDeliver("a", s);
    ReadWholeName("a", s);
    SplitQualified([], "a");
  }

  /** The error comes after a space: the tag is read as if nothing had happened. */
  lemma LostAfterSpace(e: Error)
    requires Normal(e)
    ensures var s := Deliver("<a ", Some(e), Deliver("/>", None, []));
            Lost(s, e) && RunAll(Initial(s)) == Ran([OnStart(A, []), OnEnd(A)], EOF)
  {
    var tail := Deliver("/>", None, []);
    var s1 := Deliver(" ", Some(e), tail);
    DeliverAppend("<" + "a", " ", Some(e), tail);
    DeliverAppend("<", "a", None, s1);
    assert "<" + "a" + " " == "<a ";
    SpaceThenFail(e, tail);
    TagName(s1, e);
    Tail(e);
    assert SkipSpace(tail).0 == tail by {
      GetcDeliver("/>", []);
    }
    RunOfOne(Deliver("<a ", Some(e), tail), []);
  }

  lemma SpaceThenFail(e: Error, tail: seq<Item>)
    ensures SkipSpace(Deliver(" ", Some(e), tail)) == (tail, Some(e))
    ensures Getc(Deliver(" ", Some(e), tail)).b == Some(' ')
  {
    var s := Deliver(" ", Some(e), tail);
    var t := Deliver([], Some(e), tail);
    assert " "[1..] == [];
    assert s == [Data(' ')] + t && t == [Fail(e)] + tail;
    assert s[1..] == t && t[1..] == tail;
  }

  /** A quoted value that the error ends. */
  lemma TextThenFail(e: Error, tail: seq<Item>)
    ensures Text(Some('"'), Deliver("x", Some(e), tail), [], '\0') == TextScan(Some("x"), Some(e), tail)
  {
    var s, t := Deliver("x", Some(e), tail), Deliver([], Some(e), tail);
    assert "x"[1..] == [] && t[1..] == tail && s == [Data('x')] + t && s[1..] == t;
    assert [] + ['x'] == "x" && Getc(s) == Got(Some('x'), None, t);
    assert Text(Some('"'), s, [], '\0') == Text(Some('"'), t, "x", 'x');
  }

  lemma ValueThenFail(e: Error, tail: seq<Item>)
    ensures var s := Deliver("b", None, Deliver("=\"", None, Deliver("x", Some(e), tail)));
            OneAttr(s) == (Some(Attr(B, "x")), Some(e), tail) && LostInAttr(s, e) && Getc(s).b == Some('b')
  {
    var s3 := Deliver("x", Some(e), tail);
    var q, s2 := Deliver("\"", None, s3), Deliver("=\"", None, s3);
    GetcDeliver("=\"", s3);
    assert "=\""[1..] == "\"";
    GetcOne('"', s3);
    TextThenFail(e, tail);
    assert AttrValue(q) == TextScan(Some("x"), Some(e), tail);
    GetcDeliver("b", s2);
    ReadWholeName("b", s2);
    SplitQualified([], "b");
    assert SkipSpace(s2) == (s2, None) && SkipSpace(q) == (q, None);
  }

  /** The error comes inside a quoted value: the value is taken without its closing quote. */
  lemma LostInQuotes(e: Error)
    requires Normal(e)
    ensures var s := Deliver("<a b=\"x", Some(e), Deliver("/>", None, []));
            Lost(s, e) && RunAll(Initial(s)) == Ran([OnStart(A, [Attr(B, "x")]), OnEnd(A)], EOF)
  {
    var tail := Deliver("/>", None, []);
    var s3 := Deliver("x", Some(e), tail);
    var s2 := Deliver("b", None, Deliver("=\"", None, s3));
    var s1 := Deliver(" ", None, s2);
    DeliverSix("<", "a", " ", "b", "=\"", "x", Some(e), tail);
    assert "<" + "a" + " " + "b" + "=\"" + "x" == "<a b=\"x";
    InTag(e, tail, s1, s2);
    RunOfOne(Deliver("<a b=\"x", Some(e), tail), [Attr(B, "x")]);
  }

  lemma DeliverSix(a: seq<Byte>, b: seq<Byte>, c: seq<Byte>, d: seq<Byte>, f: seq<Byte>, g: seq<Byte>,
                   err: Option<Error>, rest: seq<Item>)
    ensures Deliver(a + b + c + d + f + g, err, rest) ==
            Deliver(a, None,
                Deliver(b, None, Deliver(c, None, Deliver(d, None, Deliver(f, None, Deliver(g, err, rest))))))
  {
    DeliverAppend(a + b + c + d + f, g, err, rest);
    DeliverAppend(a + b + c + d, f, None, Deliver(g, err, rest));
    DeliverAppend(a + b + c, d, None, Deliver(f, None, Deliver(g, err, rest)));
    DeliverAppend(a + b, c, None, Deliver(d, None, Deliver(f, None, Deliver(g, err, rest))));
    DeliverAppend(a, b, None, Deliver(c, None, Deliver(d, None, Deliver(f, None, Deliver(g, err, rest)))));
  }

  lemma InTag(e: Error, tail: seq<Item>, s1: seq<Item>, s2: seq<Item>)
    requires Normal(e) && tail == Deliver("/>", None, []) && s1 == Deliver(" ", None, s2)
    requires s2 == Deliver("b", None, Deliver("=\"", None, Deliver("x", Some(e), tail)))
    ensures var all := Deliver("<", None, Deliver("a", None, s1));
            LostInToken(all, e) && NextToken(all) == Lexed(Start(A, [Attr(B, "x")], true), None, [])
  {
    ValueThenFail(e, tail);
    GetcOne(' ', s2);
    TagName(s1, e);
    assert SkipSpace(s1) == (s2, None);
    assert LostInTail(s1, A, [], e) && StartTail(s1, A, []) == StartTail(tail, A, [] + [Attr(B, "x")]);
    assert [] + [Attr(B, "x")] == [Attr(B, "x")];
    Tail(e);
  }
}
