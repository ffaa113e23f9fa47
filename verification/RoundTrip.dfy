/**
 * The printer and the parser against each other: whatever tokens are printed, balanced or not, wherever they declare
 * their namespaces, what the parser reports of the bytes is a function of the names alone; and it is what was printed
 * exactly if every name means the same written and read.
 */
module RoundTrip {
  import opened Wrappers
  import opened Bytes
  import opened BufferedReader
  import opened Lexing
  import opened Namespaces
  import opened Events
  import opened Printer
  import opened PrintedLexing

  // ---- Names and attributes as they are written ----

  predicate IsName(q: seq<Byte>) {
    q != [] && forall c <- q :: InName(c)
  }

  /** The raw name of an element, as it is read from what the printer writes for it. */
  function WrittenName(prefixes: Prefixes, n: Name): Name {
    SplitName(Qualified(prefixes, n))
  }

  function AttrName(prefixes: Prefixes, a: Attr): seq<Byte> {
    if a.name.space == [] then a.name.local else AttrPrefix(prefixes, a).0 + ":" + a.name.local
  }

  /** The attribute as it is read: none if it has no name, as then none is written. */
  function WrittenAttr(prefixes: Prefixes, a: Attr): seq<Attr> {
    if a.name.local == [] then [] else [Attr(SplitName(AttrName(prefixes, a)), a.value)]
  }

  function WrittenAttrs(prefixes: Prefixes, attrs: seq<Attr>, raw: bool): seq<Attr>
    decreases |attrs|
  {
    if attrs == [] then []
    else WrittenAttr(prefixes, attrs[0]) + WrittenAttrs(PrintAttr(prefixes, attrs[0], raw).prefixes, attrs[1..], raw)
  }

  predicate AttrWritable(prefixes: Prefixes, a: Attr, raw: bool) {
    a.name.local == [] || (IsName(AttrName(prefixes, a)) && ValueOk(a.value, raw))
  }

  predicate AttrsWritable(prefixes: Prefixes, attrs: seq<Attr>, raw: bool)
    decreases |attrs|
  {
    attrs == [] ||
    (AttrWritable(prefixes, attrs[0], raw) &&
     AttrsWritable(PrintAttr(prefixes, attrs[0], raw).prefixes, attrs[1..], raw))
  }

  // ---- Tags ----

  lemma ReadSpacedAttr(q: seq<Byte>, value: seq<Byte>, raw: bool, name: Name, acc: seq<Attr>, rest: seq<Item>)
    requires q != [] && (forall c <- q :: InName(c)) && ValueOk(value, raw)
    ensures StartTail(Deliver(" " + q + "=\"" + Written(value, raw) + "\"", None, rest), name, acc)
         == StartTail(rest, name, acc + [Attr(SplitName(q), value)])
  {
    var w := Written(value, raw);
    DeliverAttr(q, w, rest);
    var s1 := Deliver(q, None, Deliver("=\"", None, Deliver(w, None, Deliver("\"", None, rest))));
    ReadPrintedAttr(q, value, raw, rest);
    GetcDeliver(q, Deliver("=\"", None, Deliver(w, None, Deliver("\"", None, rest))));
    assert q[0] in q;
    SkipOne(s1);
    NextAttr(Deliver(" ", None, s1), s1, Attr(SplitName(q), value), name, acc, rest);
  }

  lemma SkipOne(s: seq<Item>)
    requires Getc(s).b.Some? && !IsSpace(Getc(s).b.value)
    ensures SkipSpace(Deliver(" ", None, s)).0 == s
  {
    GetcOne(' ', s);
  }

  lemma NextAttr(s: seq<Item>, s1: seq<Item>, a: Attr, name: Name, acc: seq<Attr>, rest: seq<Item>)
    requires SkipSpace(s).0 == s1 && Getc(s1).b.Some? && InName(Getc(s1).b.value) &&
        OneAttr(s1) == (Some(a), None, rest)
    ensures StartTail(s, name, acc) == StartTail(rest, name, acc + [a])
  {
  }

  lemma DeliverAttr(q: seq<Byte>, w: seq<Byte>, rest: seq<Item>)
    ensures Deliver(" " + q + "=\"" + w + "\"", None, rest)
         == Deliver(" ", None, Deliver(q, None, Deliver("=\"", None, Deliver(w, None, Deliver("\"", None, rest)))))
  {
    DeliverFive(" ", q, "=\"", w, "\"", rest);
  }

  lemma DeliverFour(a: seq<Byte>, b: seq<Byte>, c: seq<Byte>, d: seq<Byte>, rest: seq<Item>)
    ensures Deliver(a + b + c + d, None, rest)
        == Deliver(a, None, Deliver(b, None, Deliver(c, None, Deliver(d, None, rest))))
  {
    DeliverAppend(a + b + c, d, None, rest);
    DeliverAppend(a + b, c, None, Deliver(d, None, rest));
    DeliverAppend(a, b, None, Deliver(c, None, Deliver(d, None, rest)));
  }

  lemma DeliverFive(a: seq<Byte>, b: seq<Byte>, c: seq<Byte>, d: seq<Byte>, e: seq<Byte>, rest: seq<Item>)
    ensures Deliver(a + b + c + d + e, None, rest)
         == Deliver(a, None, Deliver(b, None, Deliver(c, None, Deliver(d, None, Deliver(e, None, rest)))))
  {
    DeliverAppend(a + b + c + d, e, None, rest);
    DeliverFour(a, b, c, d, Deliver(e, None, rest));
  }

  lemma ReadOneAttr(prefixes: Prefixes, a: Attr, raw: bool, name: Name, acc: seq<Attr>, rest: seq<Item>)
    requires AttrWritable(prefixes, a, raw)
    ensures StartTail(Deliver(PrintAttr(prefixes, a, raw).out, None, rest), name, acc)
         == StartTail(rest, name, acc + WrittenAttr(prefixes, a))
  {
    if a.name.local == [] {
      assert acc + [] == acc;
    } else {
      ReadSpacedAttr(AttrName(prefixes, a), a.value, raw, name, acc, rest);
    }
  }

  lemma {:induction false} ReadPrintedAttrs(prefixes: Prefixes, attrs: seq<Attr>, raw: bool, name: Name,
      acc: seq<Attr>, rest: seq<Item>)
    requires AttrsWritable(prefixes, attrs, raw)
    ensures StartTail(Deliver(PrintAttrs(prefixes, attrs, raw).out, None, rest), name, acc)
         == StartTail(rest, name, acc + WrittenAttrs(prefixes, attrs, raw))
    decreases |attrs|
  {
    if attrs == [] {
      assert acc + [] == acc;
    } else {
      var a, p := attrs[0], PrintAttr(prefixes, attrs[0], raw);
      var more := PrintAttrs(p.prefixes, attrs[1..], raw).out;
      DeliverAppend(p.out, more, None, rest);
      ReadOneAttr(prefixes, a, raw, name, acc, Deliver(more, None, rest));
      ReadPrintedAttrs(p.prefixes, attrs[1..], raw, name, acc + WrittenAttr(prefixes, a), rest);
      Assoc(acc, WrittenAttr(prefixes, a), WrittenAttrs(p.prefixes, attrs[1..], raw));
    }
  }

  lemma ReadTagEnd(autoClose: bool, name: Name, acc: seq<Attr>, rest: seq<Item>)
    ensures StartTail(Deliver(if autoClose then "/>" else ">", None, rest), name, acc)
        == Lexed(Start(name, acc, autoClose), None, rest)
  {
    if autoClose {
      GetcDeliver("/>", rest);
      assert "/>"[1..] == ">";
    }
    GetcOne('>', rest);
  }

  /** The bytes of a start tag are read as its start token. */
  lemma LexStart(prefixes: Prefixes, n: Name, attrs: seq<Attr>, autoClose: bool, raw: bool, rest: seq<Item>)
    requires IsName(Qualified(prefixes, n)) && AttrsWritable(prefixes, attrs, raw)
    ensures NextToken(Deliver(PrintStart(prefixes, n, attrs, autoClose, raw).out, None, rest))
         == Lexed(Start(WrittenName(prefixes, n), WrittenAttrs(prefixes, attrs, raw), autoClose), None, rest)
  {
    var q, end := Qualified(prefixes, n), if autoClose then "/>" else ">";
    var a, w := PrintAttrs(prefixes, attrs, raw).out, WrittenAttrs(prefixes, attrs, raw);
    DeliverFour("<", q, a, end, rest);
    var s3 := Deliver(end, None, rest);
    AfterName(prefixes, attrs, raw, end, rest);
    MarkupStart(q, Deliver(a, None, s3));
    ReadPrintedAttrs(prefixes, attrs, raw, SplitName(q), [], s3);
    assert [] + w == w;
    ReadTagEnd(autoClose, SplitName(q), w, rest);
  }

  lemma MarkupStart(q: seq<Byte>, rest: seq<Item>)
    requires q != [] && (forall c <- q :: InName(c)) && Getc(rest).b.Some? && !InName(Getc(rest).b.value)
    ensures NextToken(Deliver("<", None, Deliver(q, None, rest))) == StartTail(rest, SplitName(q), [])
  {
    GetcOne('<', Deliver(q, None, rest));
    GetcDeliver(q, rest);
    assert q[0] in q;
    ReadWholeName(q, rest);
  }

  lemma {:induction false} AttrsHead(prefixes: Prefixes, attrs: seq<Attr>, raw: bool)
    ensures var out := PrintAttrs(prefixes, attrs, raw).out; out == [] || out[0] == ' '
    decreases |attrs|
  {
    if attrs != [] {
      AttrsHead(PrintAttr(prefixes, attrs[0], raw).prefixes, attrs[1..], raw);
    }
  }

  /** What follows an element name, a space or the end of the tag, cannot belong to the name. */
  lemma AfterName(prefixes: Prefixes, attrs: seq<Attr>, raw: bool, end: seq<Byte>, rest: seq<Item>)
    requires end in {">", "/>"}
    ensures var g := Getc(Deliver(PrintAttrs(prefixes, attrs, raw).out, None, Deliver(end, None, rest)));
            g.b.Some? && !InName(g.b.value)
  {
    var out := PrintAttrs(prefixes, attrs, raw).out;
    AttrsHead(prefixes, attrs, raw);
    GetcDeliver(end, rest);
    if out != [] {
      GetcDeliver(out, Deliver(end, None, rest));
    }
  }

  lemma LexEnd(prefixes: Prefixes, n: Name, rest: seq<Item>)
    requires IsName(Qualified(prefixes, n))
    ensures NextToken(Deliver(PrintEnd(prefixes, n), None, rest)) == Lexed(End(WrittenName(prefixes, n)), None, rest)
  {
    var q := Qualified(prefixes, n);
    DeliverAppend("</" + q, ">", None, rest);
    var s2 := Deliver(">", None, rest);
    DeliverAppend("</", q, None, s2);
    var s1 := Deliver(q, None, s2);
    GetcDeliver("</", s1);
    assert "</"[1..] == "/";
    GetcOne('/', s1);
    ReadWholeName(q, s2);
    GetcOne('>', rest);
  }

  /** Escaped text up to the next tag, or to the end of the input, is read as that text. */
  lemma LexText(d: seq<Byte>, rest: seq<Item>)
    requires Legal(d) && d != [] && (rest == [] || Getc(rest).b == Some('<'))
    ensures NextToken(Deliver(Escape(d), None, rest))
         == Lexed(Chars(d), if rest == [] then Some(EOF) else None, rest)
  {
    var last := ReadEscaped(None, d, rest, [], '\0');
    assert [] + d == d && d[0] in d;
    EscapeByteHead(d[0]);
    GetcDeliver(Escape(d), rest);
  }

  lemma EscapeByteHead(b: Byte)
    requires Legal([b])
    ensures EscapeByte(b) != [] && EscapeByte(b)[0] != '<'
  {
    assert b in [b];
  }

  // ---- Tokens ----

  /** A token to print, with the encoder flags it is printed under. */
  datatype Token =
    | TStart(name: Name, attrs: seq<Attr>, autoClose: bool, raw: bool)
    | TEnd(name: Name)
    | TChars(data: seq<Byte>)

  /** The bytes of one token, and the prefixes known afterwards. */
  function PrintOne(prefixes: Prefixes, t: Token): Printed {
    match t
    case TStart(n, attrs, autoClose, raw) => PrintStart(prefixes, n, attrs, autoClose, raw)
    case TEnd(n) => Printed(PrintEnd(prefixes, n), prefixes)
    case TChars(d) => Printed(Escape(d), prefixes)
  }

  /** The bytes of a token sequence, each token printed under the prefixes known after those before it. */
  function PrintTokens(prefixes: Prefixes, toks: seq<Token>): seq<Byte>
    decreases |toks|
  {
    if toks == [] then []
    else
      var p := PrintOne(prefixes, toks[0]);
      p.out + PrintTokens(p.prefixes, toks[1..])
  }

  function Flatten(parts: seq<seq<Byte>>): seq<Byte> {
    if parts == [] then [] else parts[0] + Flatten(parts[1..])
  }

  lemma {:induction false} FlattenAppend(a: seq<seq<Byte>>, b: seq<seq<Byte>>)
    ensures Flatten(a + b) == Flatten(a) + Flatten(b)
  {
    if a == [] {
      assert a + b == b;
    } else {
      assert (a + b)[1..] == a[1..] + b;
      FlattenAppend(a[1..], b);
      Assoc(a[0], Flatten(a[1..]), Flatten(b));
    }
  }

  function Each(f: Byte -> seq<Byte>, s: seq<Byte>): (r: seq<seq<Byte>>)
    ensures |r| == |s| && forall i :: 0 <= i < |s| ==> r[i] == f(s[i])
  {
    seq(|s|, i requires 0 <= i < |s| => f(s[i]))
  }

  lemma {:induction false} EscapeIsFlat(s: seq<Byte>, parts: seq<seq<Byte>>)
    requires parts == Each(EscapeByte, s)
    ensures Escape(s) == Flatten(parts)
  {
    if s != [] {
      assert parts[1..] == Each(EscapeByte, s[1..]);
      EscapeIsFlat(s[1..], parts[1..]);
    }
  }

  lemma EscapeAppend(a: seq<Byte>, b: seq<Byte>)
    ensures Escape(a + b) == Escape(a) + Escape(b)
  {
    var p, q := Each(EscapeByte, a), Each(EscapeByte, b);
    EscapeIsFlat(a, p);
    EscapeIsFlat(b, q);
    EscapeIsFlat(a + b, p + q);
    FlattenAppend(p, q);
  }

  /**
   * Only the names and values have to be ones that can be written; nothing is said of how they nest or what they mean.
   */
  predicate Writable(prefixes: Prefixes, toks: seq<Token>)
    decreases |toks|
  {
    toks == [] ||
    (Writable(PrintOne(prefixes, toks[0]).prefixes, toks[1..]) &&
     match toks[0]
     case TStart(n, attrs, _, raw) => IsName(Qualified(prefixes, n)) && AttrsWritable(prefixes, attrs, raw)
     case TEnd(n) => IsName(Qualified(prefixes, n))
     case TChars(d) => Legal(d))
  }

  // ---- What is read of what is written ----

  function Before(events: seq<Event>, r: Ran): Ran {
    Ran(events + r.events, r.err)
  }

  lemma BeforeBefore(a: seq<Event>, b: seq<Event>, r: Ran)
    ensures Before(a + b, r) == Before(a, Before(b, r))
  {
    Assoc(a, b, r.events);
  }

  /**
   * What the parser reports of printed tokens when text is already due: adjacent text is one event, empty text is none.
   * The printer's prefixes only grow, while the parser's scope goes back at every end.
   */
  function ReadBack(prefixes: Prefixes, sc: Scope, toks: seq<Token>, text: seq<Byte>): Ran
    decreases |toks|, |text|
  {
    if toks != [] && toks[0].TChars? then ReadBack(prefixes, sc, toks[1..], text + toks[0].data)
    else if text != [] then Before([OnChar(text)], ReadBack(prefixes, sc, toks, []))
    else if toks == [] then Ran([], AtEnd(EOF, sc))
    else match toks[0]
      case TStart(n, attrs, autoClose, raw) =>
        var o := Open(sc, WrittenName(prefixes, n), WrittenAttrs(prefixes, attrs, raw));
        var known := PrintAttrs(prefixes, attrs, raw).prefixes;
        if autoClose then
          Before([OnStart(o.name, o.attrs), OnEnd(o.name)], ReadBack(known, sc, toks[1..], []))
        else Before([OnStart(o.name, o.attrs)], ReadBack(known, o.scope, toks[1..], []))
      case TEnd(n) =>
        var c := Close(sc, WrittenName(prefixes, n));
        if c.ok then Before([OnEnd(c.name)], ReadBack(prefixes, c.scope, toks[1..], [])) else Ran([], Syntax)
  }

  /** A parser with nothing pending. */
  function Reading(input: seq<Item>, sc: Scope): State {
    State(input, sc, None, None)
  }

  lemma RunStart(prefixes: Prefixes, sc: Scope, n: Name, attrs: seq<Attr>, autoClose: bool, raw: bool, rest: seq<Item>)
    requires IsName(Qualified(prefixes, n)) && AttrsWritable(prefixes, attrs, raw) && TopIsStart(sc)
    ensures var o := Open(sc, WrittenName(prefixes, n), WrittenAttrs(prefixes, attrs, raw));
            RunAll(Reading(Deliver(PrintStart(prefixes, n, attrs, autoClose, raw).out, None, rest), sc))
            == if autoClose then Before([OnStart(o.name, o.attrs), OnEnd(o.name)], RunAll(Reading(rest, sc)))
               else Before([OnStart(o.name, o.attrs)], RunAll(Reading(rest, o.scope)))
  {
    var st := Reading(Deliver(PrintStart(prefixes, n, attrs, autoClose, raw).out, None, rest), sc);
    var w := WrittenAttrs(prefixes, attrs, raw);
    var o := Open(sc, WrittenName(prefixes, n), w);
    LexStart(prefixes, n, attrs, autoClose, raw, rest);
    CloseAfterOpen(sc, WrittenName(prefixes, n), w);
    assert Step(st).ev == Some(OnStart(o.name, o.attrs));
    if autoClose {
      assert Step(Step(st).st) == Stepped(Reading(rest, sc), Some(OnEnd(o.name)), None);
      BeforeBefore([OnStart(o.name, o.attrs)], [OnEnd(o.name)], RunAll(Reading(rest, sc)));
      assert [OnStart(o.name, o.attrs)] + [OnEnd(o.name)] == [OnStart(o.name, o.attrs), OnEnd(o.name)];
    }
  }

  lemma RunEnd(prefixes: Prefixes, sc: Scope, n: Name, rest: seq<Item>)
    requires IsName(Qualified(prefixes, n))
    ensures var c := Close(sc, WrittenName(prefixes, n));
            RunAll(Reading(Deliver(PrintEnd(prefixes, n), None, rest), sc))
            == if c.ok then Before([OnEnd(c.name)], RunAll(Reading(rest, c.scope))) else Ran([], Syntax)
  {
    LexEnd(prefixes, n, rest);
  }

  lemma RunText(text: seq<Byte>, sc: Scope, rest: seq<Item>)
    requires Legal(text) && text != [] && (rest == [] || Getc(rest).b == Some('<'))
    ensures RunAll(Reading(Deliver(Escape(text), None, rest), sc)) == Before([OnChar(text)], RunAll(Reading(rest, sc)))
  {
    LexText(text, rest);
    var st1 := Step(Reading(Deliver(Escape(text), None, rest), sc)).st;
    if rest == [] {
      assert RunAll(st1) == Ran([], AtEnd(EOF, sc)) == RunAll(Reading(rest, sc));
    }
  }

  lemma TagHead(prefixes: Prefixes, toks: seq<Token>)
    requires toks != [] && !toks[0].TChars?
    ensures Getc(Deliver(PrintTokens(prefixes, toks), None, [])).b == Some('<')
  {
    GetcDeliver(PrintTokens(prefixes, toks), []);
  }

  lemma PrintedHead(prefixes: Prefixes, toks: seq<Token>)
    requires toks != []
    ensures var p := PrintOne(prefixes, toks[0]);
            Deliver(PrintTokens(prefixes, toks), None, [])
            == Deliver(p.out, None, Deliver(PrintTokens(p.prefixes, toks[1..]), None, []))
  {
    var p := PrintOne(prefixes, toks[0]);
    DeliverAppend(p.out, PrintTokens(p.prefixes, toks[1..]), None, []);
  }

  /** The bytes that are printed, with escaped text before them. */
  function Input(prefixes: Prefixes, toks: seq<Token>, text: seq<Byte>): seq<Item> {
    Deliver(Escape(text), None, Deliver(PrintTokens(prefixes, toks), None, []))
  }

  /** Printing any tokens, and parsing the bytes in any scope, reports what their names mean there. */
  lemma {:induction false} ReadPrinted(prefixes: Prefixes, sc: Scope, toks: seq<Token>, text: seq<Byte>)
    requires Writable(prefixes, toks) && Legal(text) && TopIsStart(sc)
    ensures RunAll(Reading(Input(prefixes, toks, text), sc)) == ReadBack(prefixes, sc, toks, text)
    decreases |toks|, |text|
  {
    if toks != [] {
      PrintedHead(prefixes, toks);
    }
    if toks != [] && toks[0].TChars? {
      var d := toks[0].data;
      DeliverAppend(Escape(text), Escape(d), None, Deliver(PrintTokens(prefixes, toks[1..]), None, []));
      EscapeAppend(text, d);
      ReadPrinted(prefixes, sc, toks[1..], text + d);
    } else if text != [] {
      if toks != [] {
        TagHead(prefixes, toks);
      }
      RunText(text, sc, Deliver(PrintTokens(prefixes, toks), None, []));
      ReadPrinted(prefixes, sc, toks, []);
    } else if toks != [] {
      ReadTag(prefixes, sc, toks);
    }
  }

  lemma {:induction false} ReadTag(prefixes: Prefixes, sc: Scope, toks: seq<Token>)
    requires Writable(prefixes, toks) && TopIsStart(sc) && toks != [] && !toks[0].TChars?
    ensures RunAll(Reading(Input(prefixes, toks, []), sc)) == ReadBack(prefixes, sc, toks, [])
    decreases |toks|, 0, 0
  {
    PrintedHead(prefixes, toks);
    match toks[0]
    case TStart(n, attrs, autoClose, raw) =>
      var w, known := WrittenAttrs(prefixes, attrs, raw), PrintAttrs(prefixes, attrs, raw).prefixes;
      RunStart(prefixes, sc, n, attrs, autoClose, raw, Deliver(PrintTokens(known, toks[1..]), None, []));
      var inner := if autoClose then sc else Open(sc, WrittenName(prefixes, n), w).scope;
      ReadPrinted(known, inner, toks[1..], []);
    case TEnd(n) =>
      var c := Close(sc, WrittenName(prefixes, n));
      RunEnd(prefixes, sc, n, Deliver(PrintTokens(prefixes, toks[1..]), None, []));
      if c.ok {
        ReadPrinted(prefixes, c.scope, toks[1..], []);
      }
  }

  const EMPTY := Scope(map[], [])

  /** What is read of a document, or of any other tokens. */
  function ReadDoc(toks: seq<Token>): Ran {
    ReadBack(map[], EMPTY, toks, [])
  }

  lemma DocReadBack(toks: seq<Token>)
    requires Writable(map[], toks)
    ensures RunAll(Initial(Deliver(PrintTokens(map[], toks), None, []))) == ReadDoc(toks)
  {
    ReadPrinted(map[], EMPTY, toks, []);
  }

  /** The same through the buffered reader, however the bytes are cut into reads. */
  lemma DocReadInReads(toks: seq<Token>, chunks: seq<Chunk>)
    requires Writable(map[], toks) && Flows(chunks, 0) && Contents(chunks) == PrintTokens(map[], toks)
    ensures RunAll(Initial(Stream(chunks, 0))) == ReadDoc(toks)
  {
    StreamIsContents(chunks, 0);
    DocReadBack(toks);
  }

  // ---- What tokens mean ----

  /** The scope that declarations make, and the scopes around it, outermost first. */
  datatype Scopes = Scopes(ns: Prefixes, outer: seq<Prefixes>)

  const NO_SCOPES := Scopes(map[], [])

  /** What a token leaves: a start tag is entered with its declarations, and an end goes back to the scope around. */
  function AfterToken(s: Scopes, t: Token): Scopes {
    match t
    case TStart(_, attrs, autoClose, _) => if autoClose then s else Scopes(Declared(s.ns, attrs), s.outer + [s.ns])
    case TEnd(_) => if s.outer == [] then s else Scopes(s.outer[|s.outer| - 1], s.outer[..|s.outer| - 1])
    case TChars(_) => s
  }

  function AfterTokens(s: Scopes, toks: seq<Token>): Scopes
    decreases |toks|
  {
    if toks == [] then s else AfterTokens(AfterToken(s, toks[0]), toks[1..])
  }

  /** The name a tag stands for where it is written: without a namespace, the name in the default one. */
  function MeaningOf(s: Scopes, t: Token): Name {
    match t
    case TStart(n, attrs, _, _) => Meaning(Declared(s.ns, attrs), n)
    case TEnd(n) => Meaning(s.ns, n)
    case TChars(_) => NO_NAME
  }

  function Meanings(s: Scopes, toks: seq<Token>): (means: seq<Name>)
    ensures |means| == |toks|
    decreases |toks|
  {
    if toks == [] then [] else [MeaningOf(s, toks[0])] + Meanings(AfterToken(s, toks[0]), toks[1..])
  }

  /** The names as they are. */
  function OwnNames(toks: seq<Token>): (means: seq<Name>)
    ensures |means| == |toks|
  {
    seq(|toks|, i requires 0 <= i < |toks| => if toks[i].TChars? then NO_NAME else toks[i].name)
  }

  lemma {:induction false} MeaningsAppend(s: Scopes, a: seq<Token>, b: seq<Token>)
    ensures Meanings(s, a + b) == Meanings(s, a) + Meanings(AfterTokens(s, a), b)
    ensures AfterTokens(s, a + b) == AfterTokens(AfterTokens(s, a), b)
    decreases |a|
  {
    if a == [] {
      assert a + b == b;
    } else {
      assert (a + b)[1..] == a[1..] + b;
      MeaningsAppend(AfterToken(s, a[0]), a[1..], b);
    }
  }

  // ---- When it is what is read ----

  /** The events of tokens that stand for these names: an auto-closed start is also an end. */
  function EventsOf(toks: seq<Token>, means: seq<Name>, text: seq<Byte>): seq<Event>
    requires |means| == |toks|
    decreases |toks|, |text|
  {
    if toks != [] && toks[0].TChars? then EventsOf(toks[1..], means[1..], text + toks[0].data)
    else if text != [] then [OnChar(text)] + EventsOf(toks, means, [])
    else if toks == [] then []
    else match toks[0]
      case TStart(_, attrs, autoClose, _) =>
        (if autoClose then [OnStart(means[0], attrs), OnEnd(means[0])] else [OnStart(means[0], attrs)])
        + EventsOf(toks[1..], means[1..], [])
      case TEnd(_) => [OnEnd(means[0])] + EventsOf(toks[1..], means[1..], [])
  }

  /**
   * Under the prefixes it is written with, every name is read, in the scope it is read in, as the one it stands for;
   * every end is that of the innermost open element, and none is left open.
   */
  predicate Faithful(prefixes: Prefixes, sc: Scope, toks: seq<Token>, means: seq<Name>)
    requires |means| == |toks|
    decreases |toks|
  {
    if toks == [] then sc.stk == []
    else match toks[0]
      case TStart(n, attrs, autoClose, raw) =>
        var o := Open(sc, WrittenName(prefixes, n), WrittenAttrs(prefixes, attrs, raw));
        && o.name == means[0] && o.attrs == attrs
        && Faithful(PrintAttrs(prefixes, attrs, raw).prefixes, if autoClose then sc else o.scope, toks[1..], means[1..])
      case TEnd(n) =>
        var c := Close(sc, WrittenName(prefixes, n));
        c.ok && c.name == means[0] && Faithful(prefixes, c.scope, toks[1..], means[1..])
      case TChars(_) => Faithful(prefixes, sc, toks[1..], means[1..])
  }

  lemma SameHead(a: seq<Event>, b: seq<Event>, r: Ran, events: seq<Event>)
    requires |a| == |b|
    ensures Before(a, r) == Ran(b + events, EOF) <==> a == b && r == Ran(events, EOF)
  {
    assert (a + r.events)[..|a|] == a && (a + r.events)[|a|..] == r.events;
    assert (b + events)[..|b|] == b && (b + events)[|b|..] == events;
  }

  /** Printed tokens are read as what they stand for, to a clean end, exactly if they are faithful to it. */
  lemma {:induction false} ReadBackExactly(prefixes: Prefixes, sc: Scope, toks: seq<Token>, means: seq<Name>,
      text: seq<Byte>)
    requires |means| == |toks|
    ensures ReadBack(prefixes, sc, toks, text) == Ran(EventsOf(toks, means, text), EOF)
       <==> Faithful(prefixes, sc, toks, means)
    decreases |toks|, |text|
  {
    if toks != [] && toks[0].TChars? {
      ReadBackExactly(prefixes, sc, toks[1..], means[1..], text + toks[0].data);
    } else if text != [] {
      ReadBackExactly(prefixes, sc, toks, means, []);
      SameHead([OnChar(text)], [OnChar(text)], ReadBack(prefixes, sc, toks, []), EventsOf(toks, means, []));
    } else if toks != [] && toks[0].TStart? {
      StartExactly(prefixes, sc, toks, means);
    } else if toks != [] {
      var c, more := Close(sc, WrittenName(prefixes, toks[0].name)), EventsOf(toks[1..], means[1..], []);
      ReadBackExactly(prefixes, c.scope, toks[1..], means[1..], []);
      SameHead([OnEnd(c.name)], [OnEnd(means[0])], ReadBack(prefixes, c.scope, toks[1..], []), more);
    }
  }

  lemma {:induction false} StartExactly(prefixes: Prefixes, sc: Scope, toks: seq<Token>, means: seq<Name>)
    requires |means| == |toks| && toks != [] && toks[0].TStart?
    ensures ReadBack(prefixes, sc, toks, []) == Ran(EventsOf(toks, means, []), EOF)
       <==> Faithful(prefixes, sc, toks, means)
    decreases |toks|, 0, 0
  {
    var TStart(n, attrs, autoClose, raw) := toks[0];
    var o, e := Open(sc, WrittenName(prefixes, n), WrittenAttrs(prefixes, attrs, raw)), means[0];
    var known, inner := PrintAttrs(prefixes, attrs, raw).prefixes, if autoClose then sc else o.scope;
    var a := if autoClose then [OnStart(o.name, o.attrs), OnEnd(o.name)] else [OnStart(o.name, o.attrs)];
    var b := if autoClose then [OnStart(e, attrs), OnEnd(e)] else [OnStart(e, attrs)];
    ReadBackExactly(known, inner, toks[1..], means[1..], []);
    SameHead(a, b, ReadBack(known, inner, toks[1..], []), EventsOf(toks[1..], means[1..], []));
    assert a == b <==> o.name == e && o.attrs == attrs by {
      assert a[0] == OnStart(o.name, o.attrs) && b[0] == OnStart(e, attrs);
    }
  }

  /** Printing a document and parsing the bytes reports the names it stands for exactly if it is faithful to them. */
  lemma DocExactly(toks: seq<Token>, means: seq<Name>)
    requires |means| == |toks| && Writable(map[], toks)
    ensures RunAll(Initial(Deliver(PrintTokens(map[], toks), None, []))) == Ran(EventsOf(toks, means, []), EOF)
       <==> Faithful(map[], EMPTY, toks, means)
  {
    DocReadBack(toks);
    ReadBackExactly(map[], EMPTY, toks, means, []);
  }

  // ---- When it is malformed ----

  /** How many more elements the tokens open than they close. */
  function Depth(toks: seq<Token>): int {
    if toks == [] then 0
    else Depth(toks[1..]) + match toks[0]
      case TStart(_, _, autoClose, _) => if autoClose then 0 else 1
      case TEnd(_) => -1
      case TChars(_) => 0
  }

  /** What is read to a clean end closes all it opens, and loses no event. */
  lemma {:induction false} CleanIsBalanced(prefixes: Prefixes, sc: Scope, toks: seq<Token>, means: seq<Name>,
      text: seq<Byte>)
    requires TopIsStart(sc) && |means| == |toks|
    ensures var r := ReadBack(prefixes, sc, toks, text);
            && r.err in {EOF, Syntax}
            && (r.err == EOF ==> |OpenNames(sc.stk)| + Depth(toks) == 0 && |r.events| == |EventsOf(toks, means, text)|)
    decreases |toks|, |text|
  {
    if toks != [] && toks[0].TChars? {
      CleanIsBalanced(prefixes, sc, toks[1..], means[1..], text + toks[0].data);
    } else if text != [] {
      CleanIsBalanced(prefixes, sc, toks, means, []);
    } else if toks != [] {
      match toks[0]
      case TStart(n, attrs, autoClose, raw) =>
        var w := WrittenAttrs(prefixes, attrs, raw);
        CloseAfterOpen(sc, WrittenName(prefixes, n), w);
        var inner := if autoClose then sc else Open(sc, WrittenName(prefixes, n), w).scope;
        CleanIsBalanced(PrintAttrs(prefixes, attrs, raw).prefixes, inner, toks[1..], means[1..], []);
      case TEnd(n) =>
        var c := Close(sc, WrittenName(prefixes, n));
        if c.ok {
          CloseIsInnermost(sc, WrittenName(prefixes, n));
          CleanIsBalanced(prefixes, c.scope, toks[1..], means[1..], []);
        }
    }
  }

  /** Tokens that do not close what they open are printed as a malformed file. */
  lemma UnbalancedIsMalformed(toks: seq<Token>)
    requires Writable(map[], toks) && Depth(toks) != 0
    ensures RunAll(Initial(Deliver(PrintTokens(map[], toks), None, []))).err == Syntax
  {
    DocReadBack(toks);
    CleanIsBalanced(map[], EMPTY, toks, OwnNames(toks), []);
  }

  // ---- The XML header ----

  const VERSION: seq<Byte> := "version=\"1.0\" "
  const ENCODING: seq<Byte> := "encoding=\"UTF-8\""

  /** xml.Header, without the line end that follows it. */
  const HEADER: seq<Byte> := "<?" + XML + ([' '] + (VERSION + ENCODING)) + "?>"

  lemma VersionAndEncoding()
    ensures VERSION + ENCODING == "version=\"1.0\" encoding=\"UTF-8\""
  {
  }

  lemma SpaceBefore()
    ensures [' '] + (VERSION + ENCODING) == " version=\"1.0\" encoding=\"UTF-8\""
  {
    VersionAndEncoding();
  }

  lemma Opening(a: seq<Byte>, b: seq<Byte>)
    requires a == "<?xml" && b == " version=\"1.0\" encoding=\"UTF-8\""
    ensures a + b == "<?xml version=\"1.0\" encoding=\"UTF-8\""
  {
  }

  lemma HeaderStart()
    ensures "<?" + XML + ([' '] + (VERSION + ENCODING)) == "<?xml version=\"1.0\" encoding=\"UTF-8\""
  {
    SpaceBefore();
    assert "<?" + XML == "<?xml";
    Opening("<?" + XML, [' '] + (VERSION + ENCODING));
  }

  lemma HeaderIs()
    ensures HEADER == "<?xml version=\"1.0\" encoding=\"UTF-8\"?>"
  {
    HeaderStart();
  }

  lemma {:induction false} SkipInstruction(w: seq<Byte>, before: Byte, rest: seq<Item>)
    requires '?' !in w && before != '?'
    ensures InstructionTail(Deliver(w, None, Deliver("?>", None, rest)), before) == Lexed(Instruction, None, rest)
    decreases |w|
  {
    if w == [] {
      GetcDeliver("?>", rest);
      assert "?>"[1..] == ">";
      GetcOne('>', rest);
    } else {
      assert w[0] in w;
      GetcDeliver(w, Deliver("?>", None, rest));
      SkipInstruction(w[1..], w[0], rest);
    }
  }

  /** An instruction is skipped by one step. */
  lemma LexInstruction(name: seq<Byte>, w: seq<Byte>, rest: seq<Item>)
    requires name != [] && (forall c <- name :: InName(c)) && w != [] && !IsSpace(w[0]) && '?' !in w
    ensures NextToken(Deliver("<?" + name + ([' '] + w) + "?>", None, rest)) == Lexed(Instruction, None, rest)
  {
    var s4 := Deliver("?>", None, rest);
    var s3 := Deliver([' '] + w, None, s4);
    var s2 := Deliver(name, None, s3);
    DeliverAppend("<?" + name + ([' '] + w), "?>", None, rest);
    DeliverAppend("<?" + name, [' '] + w, None, s4);
    DeliverAppend("<?", name, None, s3);
    GetcDeliver("<?", s2);
    assert "<?"[1..] == "?";
    GetcOne('?', s2);
    GetcDeliver([' '] + w, s4);
    ReadWholeName(name, s3);
    HeaderSpace(w, s4);
    SkipInstruction(w, '\0', rest);
  }

  lemma LexHeader(rest: seq<Item>)
    ensures NextToken(Deliver(HEADER, None, rest)) == Lexed(Instruction, None, rest)
  {
    assert '?' !in VERSION && VERSION[0] == 'v';
    assert '?' !in ENCODING;
    LexInstruction(XML, VERSION + ENCODING, rest);
  }

  lemma HeaderSpace(w: seq<Byte>, rest: seq<Item>)
    requires w != [] && !IsSpace(w[0])
    ensures SkipSpace(Deliver([' '] + w, None, rest)).0 == Deliver(w, None, rest)
  {
    GetcDeliver([' '] + w, rest);
    assert ([' '] + w)[1..] == w;
    GetcDeliver(w, rest);
  }

  lemma LexLineEnd(line: seq<Item>, doc: seq<Item>)
    requires line == Deliver("\n", None, doc) && Getc(doc).b == Some('<')
    ensures NextToken(line) == Lexed(Chars("\n"), None, doc)
  {
    GetcOne('\n', doc);
    assert Getc(line) == Got(Some('\n'), None, doc);
    assert [] + ['\n'] == "\n";
    assert Text(None, line, [], '\0') == Text(None, doc, "\n", '\n');
  }

  /** A part of a package: the header, a line end, and a document. The line end is reported as text. */
  lemma PartReadBack(toks: seq<Token>)
    requires Writable(map[], toks) && toks != [] && !toks[0].TChars?
    ensures RunAll(Initial(Deliver(HEADER + "\n" + PrintTokens(map[], toks), None, [])))
         == Before([OnChar("\n")], ReadDoc(toks))
  {
    var out := PrintTokens(map[], toks);
    var doc := Deliver(out, None, []);
    DeliverAppend(HEADER + "\n", out, None, []);
    DeliverAppend(HEADER, "\n", None, doc);
    var line := Deliver("\n", None, doc);
    LexHeader(line);
    assert Step(Initial(Deliver(HEADER, None, line))) == Stepped(Initial(line), None, None);
    TagHead(map[], toks);
    LexLineEnd(line, doc);
    assert Step(Initial(line)) == Stepped(Initial(doc), Some(OnChar("\n")), None);
    DocReadBack(toks);
  }

  // ---- The encoder above the printer ----

  /** What is printed for an xml.Token while the encoder has these flags. */
  function Flagged(e: Event, autoClose: bool, raw: bool): Token {
    match e
    case OnStart(n, attrs) => TStart(n, attrs, autoClose, raw)
    case OnEnd(n) => TEnd(n)
    case OnChar(d) => TChars(d)
  }

  /** EncodeToken, under the flags the encoder has. */
  method EncodeToken(p: XmlPrinter, e: Event)
    modifies p`out, p`attrPrefix
    ensures var one := PrintOne(old(p.attrPrefix), Flagged(e, p.autoClose, p.skipAttrEscape));
            p.out == old(p.out) + one.out && p.attrPrefix == one.prefixes
  {
    match e
    case OnStart(n, attrs) => p.WriteStart(n, attrs);
    case OnEnd(n) => p.WriteEnd(n);
    case OnChar(d) => p.EscapeString(d);
  }

  /** SetAutoClose and SetSkipAttrEscape, as the token wants them. */
  method SetFlags(p: XmlPrinter, t: Token) returns (e: Event)
    modifies p`autoClose, p`skipAttrEscape
    ensures Flagged(e, p.autoClose, p.skipAttrEscape) == t
  {
    match t
    case TStart(n, attrs, autoClose, raw) =>
      p.autoClose, p.skipAttrEscape := autoClose, raw;
      e := OnStart(n, attrs);
    case TEnd(n) => e := OnEnd(n);
    case TChars(d) => e := OnChar(d);
  }

  /** Encodes tokens one after the other, setting the flags where they change, as the model writer does. */
  method EncodeTokens(p: XmlPrinter, toks: seq<Token>)
    modifies p
    ensures p.out == old(p.out) + PrintTokens(old(p.attrPrefix), toks)
  {
    ghost var was, all := p.out, PrintTokens(p.attrPrefix, toks);
    for i := 0 to |toks|
      invariant p.out + PrintTokens(p.attrPrefix, toks[i..]) == was + all
    {
      assert toks[i..][1..] == toks[i + 1..];
      ghost var one := PrintOne(p.attrPrefix, toks[i]);
      Assoc(p.out, one.out, PrintTokens(one.prefixes, toks[i + 1..]));
      var e := SetFlags(p, toks[i]);
      EncodeToken(p, e);
    }
    assert toks[|toks|..] == [];
  }
}
