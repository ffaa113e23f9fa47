/**
 * Documents that declare every namespace on the root: when they are read back, with names that are written bare taken
 * into the default namespace.
 */
module Documents {
  import opened Wrappers
  import opened Bytes
  import opened BufferedReader
  import opened Lexing
  import opened Namespaces
  import opened Events
  import opened Printer
  import opened PrintedLexing
  import opened RoundTrip

  // ---- Names and attributes ----

  /** Prefixes the printer may know: each is a proper prefix, which the parser has bound to the same namespace. */
  predicate Agree(prefixes: Prefixes, ns: Prefixes) {
    && Lookup(prefixes, XMLNS) == [] && XML_URL !in ns
    && forall url <- prefixes :: prefixes[url] != [] ==>
         && NcName(prefixes[url]) && prefixes[url] != XML && prefixes[url] != XMLNS
         && prefixes[url] in ns && ns[prefixes[url]] == url
  }

  /** An attribute the printer can write: its namespace is none, xml's, declared before it, or it declares one. */
  predicate AttrOk(prefixes: Prefixes, a: Attr, raw: bool) {
    && NcName(a.name.local) && ValueOk(a.value, raw)
    && (a.name.space == XMLNS ==> a.name.local != XML && a.name.local != XMLNS && a.value != XMLNS)
    && (a.name.space in {[], XMLNS, XML_URL} || Lookup(prefixes, a.name.space) != [])
  }

  predicate AttrsOk(prefixes: Prefixes, attrs: seq<Attr>, raw: bool)
    decreases |attrs|
  {
    attrs == [] ||
    (AttrOk(prefixes, attrs[0], raw) && AttrsOk(PrintAttr(prefixes, attrs[0], raw).prefixes, attrs[1..], raw))
  }

  /** No prefix is declared twice, nor one that is bound already. */
  predicate DeclaresFresh(ns: Prefixes, attrs: seq<Attr>)
    decreases |attrs|
  {
    attrs == [] ||
    var a := attrs[0];
    if a.name.space == XMLNS then a.name.local !in ns && DeclaresFresh(ns[a.name.local := a.value], attrs[1..])
    else if IsDefault(a) then [] !in ns && DeclaresFresh(ns[[] := a.value], attrs[1..])
    else DeclaresFresh(ns, attrs[1..])
  }

  /** The attribute as it is written. */
  function RawAttr(prefixes: Prefixes, a: Attr): Attr {
    Attr(Name(if a.name.space == [] then [] else AttrPrefix(prefixes, a).0, a.name.local), a.value)
  }

  function RawAttrs(prefixes: Prefixes, attrs: seq<Attr>, raw: bool): seq<Attr>
    decreases |attrs|
  {
    if attrs == [] then []
    else [RawAttr(prefixes, attrs[0])] + RawAttrs(PrintAttr(prefixes, attrs[0], raw).prefixes, attrs[1..], raw)
  }

  lemma LookupOk(prefixes: Prefixes, ns: Prefixes, space: seq<Byte>)
    requires Agree(prefixes, ns) && Lookup(prefixes, space) != []
    ensures var p := Lookup(prefixes, space);
            NcName(p) && p != XML && p != XMLNS && p in ns && ns[p] == space && space != XMLNS
  {
  }

  /** The head of an attribute list: what the parser does with it keeps printer and parser in agreement. */
  lemma DeclareOne(prefixes: Prefixes, sc: Scope, a: Attr, raw: bool)
    requires Agree(prefixes, sc.ns) && AttrOk(prefixes, a, raw) && DeclaresFresh(sc.ns, [a])
    ensures var sc1 := Declare(sc, [RawAttr(prefixes, a)]);
            && Agree(PrintAttr(prefixes, a, raw).prefixes, sc1.ns)
            && sc1.ns == Bound(sc.ns, a)
  {
    assert XML_URL[4] == ':' && XML_URL != XMLNS;
    var r := RawAttr(prefixes, a);
    if a.name.space != [] && Lookup(prefixes, a.name.space) != [] {
      LookupOk(prefixes, sc.ns, a.name.space);
    }
    assert [r][1..] == [];
    if a.name.space == XMLNS {
      assert r.name == a.name;
      assert XML_URL != a.name.local by { assert XML_URL[4] in XML_URL; }
    }
  }

  /** An attribute name expands to itself in every scope that extends the one it was printed in. */
  lemma ExpandOne(prefixes: Prefixes, ns: Prefixes, final: Prefixes, a: Attr, raw: bool)
    requires Agree(prefixes, ns) && AttrOk(prefixes, a, raw)
    requires ns.Keys <= final.Keys && (forall k <- ns :: final[k] == ns[k]) && XML_URL !in final
    ensures Translate(final, RawAttr(prefixes, a).name, false) == a.name
  {
    assert XML_URL[4] == ':' && XML_URL != XMLNS && XML != XMLNS;
    if a.name.space != [] && Lookup(prefixes, a.name.space) != [] {
      LookupOk(prefixes, ns, a.name.space);
    }
  }

  /** Printed declarations bind what the printer means by its prefixes, on top of what was bound before. */
  lemma {:induction false} DeclarePrinted(prefixes: Prefixes, sc: Scope, attrs: seq<Attr>, raw: bool)
    requires Agree(prefixes, sc.ns) && AttrsOk(prefixes, attrs, raw) && DeclaresFresh(sc.ns, attrs)
    ensures Declare(sc, RawAttrs(prefixes, attrs, raw)).ns == Declared(sc.ns, attrs)
    ensures Agree(PrintAttrs(prefixes, attrs, raw).prefixes, Declared(sc.ns, attrs))
    decreases |attrs|
  {
    if attrs != [] {
      var a, p1 := attrs[0], PrintAttr(prefixes, attrs[0], raw).prefixes;
      var r, more := RawAttr(prefixes, a), RawAttrs(p1, attrs[1..], raw);
      DeclareOne(prefixes, sc, a, raw);
      DeclareAppend(sc, r, more);
      DeclarePrinted(p1, Declare(sc, [r]), attrs[1..], raw);
    }
  }

  lemma {:induction false} DeclaredExtends(ns: Prefixes, attrs: seq<Attr>)
    requires DeclaresFresh(ns, attrs)
    ensures ns.Keys <= Declared(ns, attrs).Keys && forall k <- ns :: Declared(ns, attrs)[k] == ns[k]
    decreases |attrs|
  {
    if attrs != [] {
      DeclaredExtends(Bound(ns, attrs[0]), attrs[1..]);
    }
  }

  /** And every attribute name comes back. */
  lemma {:induction false} ExpandPrinted(prefixes: Prefixes, sc: Scope, attrs: seq<Attr>, raw: bool)
    requires Agree(prefixes, sc.ns) && AttrsOk(prefixes, attrs, raw) && DeclaresFresh(sc.ns, attrs)
    ensures TranslateAttrs(Declare(sc, RawAttrs(prefixes, attrs, raw)).ns, RawAttrs(prefixes, attrs, raw)) == attrs
    decreases |attrs|
  {
    if attrs != [] {
      var a, p1 := attrs[0], PrintAttr(prefixes, attrs[0], raw).prefixes;
      var r, more := RawAttr(prefixes, a), RawAttrs(p1, attrs[1..], raw);
      DeclarePrinted(prefixes, sc, attrs, raw);
      DeclaredExtends(sc.ns, attrs);
      DeclareOne(prefixes, sc, a, raw);
      DeclareAppend(sc, r, more);
      ExpandPrinted(p1, Declare(sc, [r]), attrs[1..], raw);
      ExpandHead(prefixes, sc.ns, Declare(sc, [r] + more).ns, a, raw, more);
      assert attrs == [a] + attrs[1..];
    }
  }

  lemma ExpandHead(prefixes: Prefixes, ns: Prefixes, final: Prefixes, a: Attr, raw: bool, more: seq<Attr>)
    requires Agree(prefixes, ns) && AttrOk(prefixes, a, raw)
    requires ns.Keys <= final.Keys && (forall k <- ns :: final[k] == ns[k]) && XML_URL !in final
    ensures TranslateAttrs(final, [RawAttr(prefixes, a)] + more) == [a] + TranslateAttrs(final, more)
  {
    ExpandOne(prefixes, ns, final, a, raw);
    TranslateCons(final, RawAttr(prefixes, a), more);
  }

  /** An element as it is written: with the prefix of its namespace, or bare if it has none. */
  function RawName(prefixes: Prefixes, n: Name): Name {
    Name(if n.space == [] then [] else Lookup(prefixes, n.space), n.local)
  }

  /** An element the printer can write so that it is read as an element. */
  predicate NameOk(prefixes: Prefixes, n: Name) {
    NcName(n.local) && (RawName(prefixes, n).space == [] ==> n.local != XMLNS)
  }

  /** What the parser reports for an element: one that is written bare is in the default namespace. */
  function Expanded(prefixes: Prefixes, ns: Prefixes, n: Name): Name {
    if RawName(prefixes, n).space != [] then n else if [] in ns then Name(ns[[]], n.local) else Name([], n.local)
  }

  /**
   * A name comes back unchanged exactly if its namespace has a prefix, is the default one, or is none without a
   * default.
   */
  lemma ExpandedExactly(prefixes: Prefixes, ns: Prefixes, n: Name)
    ensures Expanded(prefixes, ns, n) == n <==>
              || (n.space != [] && Lookup(prefixes, n.space) != [])
              || n.space == if [] in ns then ns[[]] else []
  {
    assert n == Name(n.space, n.local);
  }

  lemma ExpandName(prefixes: Prefixes, ns: Prefixes, final: Prefixes, n: Name)
    requires Agree(prefixes, ns) && NameOk(prefixes, n)
    requires ns.Keys <= final.Keys && forall k <- ns :: final[k] == ns[k]
    ensures Translate(final, RawName(prefixes, n), true) == Expanded(prefixes, final, n)
  {
    if RawName(prefixes, n).space != [] {
      LookupOk(prefixes, ns, n.space);
    }
  }

  // ---- They can be written ----

  lemma AttrPrefixOk(prefixes: Prefixes, ns: Prefixes, a: Attr, raw: bool)
    requires Agree(prefixes, ns) && AttrOk(prefixes, a, raw) && a.name.space != []
    ensures NcName(AttrPrefix(prefixes, a).0)
  {
    if Lookup(prefixes, a.name.space) != [] {
      LookupOk(prefixes, ns, a.name.space);
    }
  }

  lemma WrittenOne(prefixes: Prefixes, ns: Prefixes, a: Attr, raw: bool)
    requires Agree(prefixes, ns) && AttrOk(prefixes, a, raw)
    ensures AttrWritable(prefixes, a, raw) && WrittenAttr(prefixes, a) == [RawAttr(prefixes, a)]
  {
    if a.name.space != [] {
      AttrPrefixOk(prefixes, ns, a, raw);
    }
    SplitQualified(RawAttr(prefixes, a).name.space, a.name.local);
  }

  lemma {:induction false} WrittenAsRaw(prefixes: Prefixes, ns: Prefixes, attrs: seq<Attr>, raw: bool)
    requires Agree(prefixes, ns) && AttrsOk(prefixes, attrs, raw) && DeclaresFresh(ns, attrs)
    ensures AttrsWritable(prefixes, attrs, raw) && WrittenAttrs(prefixes, attrs, raw) == RawAttrs(prefixes, attrs, raw)
    decreases |attrs|
  {
    if attrs != [] {
      var a, p := attrs[0], PrintAttr(prefixes, attrs[0], raw);
      WrittenOne(prefixes, ns, a, raw);
      DeclareOne(prefixes, Scope(ns, []), a, raw);
      WrittenAsRaw(p.prefixes, Declare(Scope(ns, []), [RawAttr(prefixes, a)]).ns, attrs[1..], raw);
    }
  }

  lemma WrittenAsRawName(prefixes: Prefixes, ns: Prefixes, n: Name)
    requires Agree(prefixes, ns) && NameOk(prefixes, n)
    ensures IsName(Qualified(prefixes, n)) && WrittenName(prefixes, n) == RawName(prefixes, n)
  {
    if RawName(prefixes, n).space != [] {
      LookupOk(prefixes, ns, n.space);
    }
    SplitQualified(RawName(prefixes, n).space, n.local);
  }

  // ---- Content without declarations ----

  predicate NoDeclarations(attrs: seq<Attr>) {
    forall a <- attrs :: a.name.space != XMLNS && !IsDefault(a)
  }

  /** Balanced content of the open elements, ending with the end of the outermost one. */
  predicate BodyOk(prefixes: Prefixes, toks: seq<Token>, open: seq<Name>)
    decreases |toks|
  {
    if toks == [] || open == [] then toks == [] && open == []
    else match toks[0]
      case TStart(n, attrs, autoClose, raw) =>
        && NameOk(prefixes, n) && AttrsOk(prefixes, attrs, raw) && NoDeclarations(attrs)
        && BodyOk(prefixes, toks[1..], if autoClose then open else open + [n])
      case TEnd(n) => n == open[|open| - 1] && BodyOk(prefixes, toks[1..], open[..|open| - 1])
      case TChars(d) => Legal(d) && BodyOk(prefixes, toks[1..], open)
  }

  /** The events of one tag: an auto-closed start is also an end. */
  function TagEvents(prefixes: Prefixes, ns: Prefixes, tok: Token): seq<Event>
    requires !tok.TChars?
  {
    match tok
    case TStart(n, attrs, autoClose, _) =>
      if autoClose then [OnStart(Expanded(prefixes, ns, n), attrs), OnEnd(Expanded(prefixes, ns, n))]
          else [OnStart(Expanded(prefixes, ns, n), attrs)]
    case TEnd(n) => [OnEnd(Expanded(prefixes, ns, n))]
  }

  /** The events of a body when text is already due: adjacent text is one event, empty text is none. */
  function BodyEvents(prefixes: Prefixes, ns: Prefixes, toks: seq<Token>, text: seq<Byte>): seq<Event>
    decreases |toks|, |text|
  {
    if toks != [] && toks[0].TChars? then BodyEvents(prefixes, ns, toks[1..], text + toks[0].data)
    else if text != [] then [OnChar(text)] + BodyEvents(prefixes, ns, toks, [])
    else if toks == [] then []
    else TagEvents(prefixes, ns, toks[0]) + BodyEvents(prefixes, ns, toks[1..], [])
  }

  /** The parser's stack while elements are open above base. */
  function StackOf(prefixes: Prefixes, ns: Prefixes, open: seq<Name>, base: seq<Entry>): seq<Entry> {
    if open == [] then base
    else [StartEntry(Expanded(prefixes, ns, open[|open| - 1]))] + StackOf(prefixes, ns, open[..|open| - 1], base)
  }

  lemma PlainAttr(prefixes: Prefixes, sc: Scope, a: Attr, raw: bool)
    requires Agree(prefixes, sc.ns) && AttrOk(prefixes, a, raw) && a.name.space != XMLNS && !IsDefault(a)
    ensures PrintAttr(prefixes, a, raw).prefixes == prefixes && Declare(sc, [RawAttr(prefixes, a)]) == sc
  {
    if a.name.space != [] && Lookup(prefixes, a.name.space) != [] {
      LookupOk(prefixes, sc.ns, a.name.space);
    }
    assert [RawAttr(prefixes, a)][1..] == [];
  }

  lemma {:induction false} NoDeclarationsDeclare(prefixes: Prefixes, sc: Scope, attrs: seq<Attr>, raw: bool)
    requires Agree(prefixes, sc.ns) && AttrsOk(prefixes, attrs, raw) && NoDeclarations(attrs)
    ensures DeclaresFresh(sc.ns, attrs) && Declare(sc, RawAttrs(prefixes, attrs, raw)) == sc
    ensures PrintAttrs(prefixes, attrs, raw).prefixes == prefixes
    decreases |attrs|
  {
    if attrs != [] {
      assert attrs[0] in attrs && forall b <- attrs[1..] :: b in attrs;
      PlainAttr(prefixes, sc, attrs[0], raw);
      DeclareAppend(sc, RawAttr(prefixes, attrs[0]), RawAttrs(prefixes, attrs[1..], raw));
      NoDeclarationsDeclare(prefixes, sc, attrs[1..], raw);
    }
  }

  lemma {:induction false} BodyWritable(prefixes: Prefixes, ns: Prefixes, toks: seq<Token>, open: seq<Name>)
    requires Agree(prefixes, ns) && BodyOk(prefixes, toks, open) && forall n <- open :: NameOk(prefixes, n)
    ensures Writable(prefixes, toks)
    decreases |toks|
  {
    if toks != [] {
      match toks[0]
      case TStart(n, attrs, autoClose, raw) =>
        WrittenAsRawName(prefixes, ns, n);
        NoDeclarationsDeclare(prefixes, Scope(ns, []), attrs, raw);
        WrittenAsRaw(prefixes, ns, attrs, raw);
        BodyWritable(prefixes, ns, toks[1..], if autoClose then open else open + [n]);
      case TEnd(n) =>
        WrittenAsRawName(prefixes, ns, n);
        BodyWritable(prefixes, ns, toks[1..], open[..|open| - 1]);
      case TChars(_) => BodyWritable(prefixes, ns, toks[1..], open);
    }
  }

  /** A start tag that declares nothing: it is opened under its expanded name, in the scope it stands in. */
  lemma OpenPlain(prefixes: Prefixes, sc: Scope, n: Name, attrs: seq<Attr>, raw: bool)
    requires Agree(prefixes, sc.ns) && NameOk(prefixes, n) && AttrsOk(prefixes, attrs, raw) && NoDeclarations(attrs)
    ensures PrintAttrs(prefixes, attrs, raw).prefixes == prefixes
    ensures var e := Expanded(prefixes, sc.ns, n);
            Open(sc, WrittenName(prefixes, n), WrittenAttrs(prefixes, attrs, raw))
            == Opened(e, attrs, Scope(sc.ns, [StartEntry(e)] + sc.stk))
  {
    NoDeclarationsDeclare(prefixes, sc, attrs, raw);
    WrittenAsRaw(prefixes, sc.ns, attrs, raw);
    WrittenAsRawName(prefixes, sc.ns, n);
    ExpandPrinted(prefixes, sc, attrs, raw);
    ExpandName(prefixes, sc.ns, sc.ns, n);
  }

  lemma CloseNamed(prefixes: Prefixes, sc: Scope, n: Name, e: Name, stk: seq<Entry>)
    requires Agree(prefixes, sc.ns) && NameOk(prefixes, n) && sc.stk == [StartEntry(e)] + stk
    ensures var c, x := Close(sc, WrittenName(prefixes, n)), Expanded(prefixes, sc.ns, n);
            c.name == x && (c.ok <==> e == x) && (c.ok ==> c.scope == Undo(Scope(sc.ns, stk)))
  {
    WrittenAsRawName(prefixes, sc.ns, n);
    ExpandName(prefixes, sc.ns, sc.ns, n);
    assert sc.stk[1..] == stk;
  }

  /** A run that ends cleanly, or one whose last event, an end, is refused. */
  function Ended(ok: bool, events: seq<Event>): Ran
    requires events != []
  {
    if ok then Ran(events, EOF) else Ran(events[..|events| - 1], Syntax)
  }

  lemma EndedBefore(ok: bool, a: seq<Event>, b: seq<Event>)
    requires b != []
    ensures Before(a, Ended(ok, b)) == Ended(ok, a + b)
  {
    assert (a + b)[..|a + b| - 1] == a + b[..|b| - 1];
  }

  /** What the parser is in, inside a root that was opened as e, and inner elements. */
  predicate Inside(prefixes: Prefixes, ns: Prefixes, root: Name, e: Name, base: seq<Entry>, inner: seq<Name>,
      sc: Scope) {
    && Agree(prefixes, ns) && Undo(Scope(ns, base)) == EMPTY
    && NameOk(prefixes, root) && (forall n <- inner :: NameOk(prefixes, n))
    && sc == Scope(ns, StackOf(prefixes, ns, inner, [StartEntry(e)] + base))
  }

  /** Every event of the content comes out in order, but the last one only if the root ends under the name it had. */
  lemma {:induction false} BodyReadBack(prefixes: Prefixes, ns: Prefixes, root: Name, e: Name, base: seq<Entry>,
      toks: seq<Token>, inner: seq<Name>, text: seq<Byte>, sc: Scope)
    requires Inside(prefixes, ns, root, e, base, inner, sc) && BodyOk(prefixes, toks, [root] + inner)
    ensures BodyEvents(prefixes, ns, toks, text) != []
    ensures ReadBack(prefixes, sc, toks, text)
         == Ended(e == Expanded(prefixes, ns, root), BodyEvents(prefixes, ns, toks, text))
    decreases |toks|, |text|
  {
    var ok := e == Expanded(prefixes, ns, root);
    if toks[0].TChars? {
      BodyReadBack(prefixes, ns, root, e, base, toks[1..], inner, text + toks[0].data, sc);
    } else if text != [] {
      BodyReadBack(prefixes, ns, root, e, base, toks, inner, [], sc);
      EndedBefore(ok, [OnChar(text)], BodyEvents(prefixes, ns, toks, []));
    } else if toks[0].TStart? {
      BodyStart(prefixes, ns, root, e, base, toks, inner, sc);
    } else {
      BodyEnd(prefixes, ns, root, e, base, toks, inner, sc);
    }
  }

  lemma OneMoreInside(prefixes: Prefixes, ns: Prefixes, root: Name, e: Name, base: seq<Entry>, inner: seq<Name>,
      n: Name, sc: Scope)
    requires Inside(prefixes, ns, root, e, base, inner, sc) && NameOk(prefixes, n)
    ensures [root] + inner + [n] == [root] + (inner + [n])
    ensures Inside(prefixes, ns, root, e, base, inner + [n],
                   Scope(ns, [StartEntry(Expanded(prefixes, ns, n))] + sc.stk))
  {
    assert (inner + [n])[..|inner|] == inner;
  }

  lemma {:induction false} BodyStart(prefixes: Prefixes, ns: Prefixes, root: Name, e: Name, base: seq<Entry>,
      toks: seq<Token>, inner: seq<Name>, sc: Scope)
    requires Inside(prefixes, ns, root, e, base, inner, sc) && BodyOk(prefixes, toks, [root] + inner)
    requires toks[0].TStart?
    ensures BodyEvents(prefixes, ns, toks, []) != []
    ensures ReadBack(prefixes, sc, toks, [])
         == Ended(e == Expanded(prefixes, ns, root), BodyEvents(prefixes, ns, toks, []))
    decreases |toks|, 0, 0
  {
    var TStart(n, attrs, autoClose, raw) := toks[0];
    OpenPlain(prefixes, sc, n, attrs, raw);
    var inner1 := if autoClose then inner else inner + [n];
    var sc1 := if autoClose then sc else Scope(ns, [StartEntry(Expanded(prefixes, ns, n))] + sc.stk);
    OneMoreInside(prefixes, ns, root, e, base, inner, n, sc);
    BodyReadBack(prefixes, ns, root, e, base, toks[1..], inner1, [], sc1);
    EndedBefore(e == Expanded(prefixes, ns, root), TagEvents(prefixes, ns, toks[0]),
                BodyEvents(prefixes, ns, toks[1..], []));
  }

  lemma {:induction false} BodyEnd(prefixes: Prefixes, ns: Prefixes, root: Name, e: Name, base: seq<Entry>,
      toks: seq<Token>, inner: seq<Name>, sc: Scope)
    requires Inside(prefixes, ns, root, e, base, inner, sc) && BodyOk(prefixes, toks, [root] + inner)
    requires toks[0].TEnd?
    ensures BodyEvents(prefixes, ns, toks, []) != []
    ensures ReadBack(prefixes, sc, toks, [])
         == Ended(e == Expanded(prefixes, ns, root), BodyEvents(prefixes, ns, toks, []))
    decreases |toks|, 0, 0
  {
    var n := toks[0].name;
    if inner == [] {
      assert ([root] + inner)[..0] == [];
      CloseNamed(prefixes, sc, n, e, base);
    } else {
      var last := |inner| - 1;
      var stk := StackOf(prefixes, ns, inner[..last], [StartEntry(e)] + base);
      assert ([root] + inner)[..|inner|] == [root] + inner[..last];
      CloseNamed(prefixes, sc, n, Expanded(prefixes, ns, n), stk);
      BodyReadBack(prefixes, ns, root, e, base, toks[1..], inner[..last], [], Scope(ns, stk));
      EndedBefore(e == Expanded(prefixes, ns, root), TagEvents(prefixes, ns, toks[0]),
                  BodyEvents(prefixes, ns, toks[1..], []));
    }
  }

  // ---- Documents ----

  /** The prefixes the printer knows once it has written the root. */
  function RootPrefixes(root: Token): Prefixes
    requires root.TStart?
  {
    PrintAttrs(map[], root.attrs, root.raw).prefixes
  }

  /** A document with one root, which declares every namespace, each prefix once. */
  predicate DocOk(toks: seq<Token>) {
    && toks != [] && toks[0].TStart?
    && var TStart(n, attrs, autoClose, raw) := toks[0];
    && NameOk(map[], n) && NameOk(RootPrefixes(toks[0]), n)
    && AttrsOk(map[], attrs, raw) && DeclaresFresh(map[], attrs)
    && BodyOk(RootPrefixes(toks[0]), toks[1..], if autoClose then [] else [n])
  }

  /** The root is read under the same name at its start, where no prefix is known, and at its end. */
  predicate RootStays(root: Token)
    requires root.TStart?
  {
    var ns := Declared(map[], root.attrs);
    root.autoClose || Expanded(map[], ns, root.name) == Expanded(RootPrefixes(root), ns, root.name)
  }

  /** The events of a document: names written bare are in the default namespace its root declares. */
  function DocEvents(toks: seq<Token>): (r: seq<Event>)
    requires DocOk(toks)
    ensures r != []
  {
    var prefixes, ns := RootPrefixes(toks[0]), Declared(map[], toks[0].attrs);
    TagEvents(map[], ns, toks[0]) + BodyEvents(prefixes, ns, toks[1..], [])
  }

  /** The root's start tag: its declarations are in force, and can be undone. */
  lemma OpenRoot(n: Name, attrs: seq<Attr>, raw: bool) returns (base: seq<Entry>)
    requires NameOk(map[], n) && AttrsOk(map[], attrs, raw) && DeclaresFresh(map[], attrs)
    ensures var ns := Declared(map[], attrs);
            var e := Expanded(map[], ns, n);
            && IsName(Qualified(map[], n)) && AttrsWritable(map[], attrs, raw)
            && Agree(PrintAttrs(map[], attrs, raw).prefixes, ns) && Undo(Scope(ns, base)) == EMPTY
            && Open(EMPTY, WrittenName(map[], n), WrittenAttrs(map[], attrs, raw))
               == Opened(e, attrs, Scope(ns, [StartEntry(e)] + base))
  {
    var rawAttrs := RawAttrs(map[], attrs, raw);
    WrittenAsRaw(map[], map[], attrs, raw);
    WrittenAsRawName(map[], map[], n);
    DeclarePrinted(map[], EMPTY, attrs, raw);
    DeclaredExtends(map[], attrs);
    ExpandPrinted(map[], EMPTY, attrs, raw);
    UndoDeclare(EMPTY, rawAttrs);
    ExpandName(map[], map[], Declare(EMPTY, rawAttrs).ns, n);
    base := Declare(EMPTY, rawAttrs).stk;
  }

  lemma DocWritable(toks: seq<Token>)
    requires DocOk(toks)
    ensures Writable(map[], toks)
  {
    var TStart(n, attrs, autoClose, raw) := toks[0];
    var base := OpenRoot(n, attrs, raw);
    BodyWritable(RootPrefixes(toks[0]), Declared(map[], attrs), toks[1..], if autoClose then [] else [n]);
  }

  lemma ClosedRoot(toks: seq<Token>, prefixes: Prefixes, ns: Prefixes, e: Name)
    requires DocOk(toks) && toks[0].autoClose && prefixes == RootPrefixes(toks[0]) &&
        ns == Declared(map[], toks[0].attrs)
    requires e == Expanded(map[], ns, toks[0].name)
    requires var TStart(n, attrs, _, raw) := toks[0];
             var o := Open(EMPTY, WrittenName(map[], n), WrittenAttrs(map[], attrs, raw));
             o.name == e && o.attrs == attrs
    ensures ReadDoc(toks) == Ran(DocEvents(toks), EOF)
  {
    assert toks[1..] == [];
    assert ReadBack(prefixes, EMPTY, [], []) == Ran([], EOF);
    assert BodyEvents(prefixes, ns, [], []) == [];
    var evs := [OnStart(e, toks[0].attrs), OnEnd(e)];
    assert evs + [] == evs;
    assert DocEvents(toks) == evs;
    assert ReadDoc(toks) == Before(evs, Ran([], EOF));
  }

  lemma DocReads(toks: seq<Token>)
    requires DocOk(toks)
    ensures ReadDoc(toks) == Ended(RootStays(toks[0]), DocEvents(toks))
  {
    var TStart(n, attrs, autoClose, raw) := toks[0];
    var prefixes, ns := RootPrefixes(toks[0]), Declared(map[], attrs);
    var base := OpenRoot(n, attrs, raw);
    var e := Expanded(map[], ns, n);
    if autoClose {
      ClosedRoot(toks, prefixes, ns, e);
    } else {
      assert [n] + [] == [n];
      BodyReadBack(prefixes, ns, n, e, base, toks[1..], [], [], Scope(ns, [StartEntry(e)] + base));
      EndedBefore(RootStays(toks[0]), TagEvents(map[], ns, toks[0]), BodyEvents(prefixes, ns, toks[1..], []));
    }
  }

  /**
   * Printing any such document and parsing the bytes reports the document, and nothing else, exactly if its root stays;
   * if not, the end tag of the root is refused, and what was written is malformed.
   */
  lemma DocRoundTrip(toks: seq<Token>)
    requires DocOk(toks)
    ensures RunAll(Initial(Deliver(PrintTokens(map[], toks), None, [])))
         == if RootStays(toks[0]) then Ran(DocEvents(toks), EOF)
            else Ran(DocEvents(toks)[..|DocEvents(toks)| - 1], Syntax)
  {
    DocWritable(toks);
    DocReadBack(toks);
    DocReads(toks);
  }

  /** The same through the buffered reader, however the bytes are cut into reads. */
  lemma DocRoundTripInReads(toks: seq<Token>, chunks: seq<Chunk>)
    requires DocOk(toks) && Flows(chunks, 0) && Contents(chunks) == PrintTokens(map[], toks)
    ensures RunAll(Initial(Stream(chunks, 0))) == Ended(RootStays(toks[0]), DocEvents(toks))
  {
    DocWritable(toks);
    DocReadInReads(toks, chunks);
    DocReads(toks);
  }

  /** And behind the XML header, as a part of a package is written. */
  lemma PartRoundTrip(toks: seq<Token>)
    requires DocOk(toks)
    ensures RunAll(Initial(Deliver(HEADER + "\n" + PrintTokens(map[], toks), None, [])))
         == Before([OnChar("\n")], Ended(RootStays(toks[0]), DocEvents(toks)))
  {
    DocWritable(toks);
    PartReadBack(toks);
    DocReads(toks);
  }

  /** A root in a namespace that it declares under a prefix: it starts without the prefix and ends with it. */
  lemma RootInItsOwnNamespace(u: seq<Byte>, r: seq<Byte>, url: seq<Byte>)
    requires NcName(u) && u != XML && u != XMLNS && NcName(r) && r != XMLNS
    requires Legal(url) && url != [] && url != XMLNS && url != XML_URL
    ensures var n, attrs := Name(url, r), [Attr(Name(XMLNS, u), url)];
            var toks := [TStart(n, attrs, false, false), TEnd(n)];
            DocOk(toks) && RunAll(Initial(Deliver(PrintTokens(map[], toks), None, [])))
                        == Ran([OnStart(Name([], r), attrs)], Syntax)
  {
    var n, attrs := Name(url, r), [Attr(Name(XMLNS, u), url)];
    var root := TStart(n, attrs, false, false);
    var toks := [root, TEnd(n)];
    assert attrs[1..] == [] && toks[1..] == [TEnd(n)] && toks[1..][1..] == [] && [n][..0] == [];
    var known := map[url := u];
    assert AttrPrefix(map[], attrs[0]) == (XMLNS, known);
    assert PrintAttr(map[], attrs[0], false).prefixes == known;
    assert PrintAttrs(known, [], false).prefixes == known;
    assert RootPrefixes(root) == known;
    assert Declared(map[], attrs) == map[u := url];
    NcXmlns();
    assert AttrsOk(map[], attrs, false) && DeclaresFresh(map[], attrs);
    assert DocOk(toks);
    assert BodyEvents(known, map[u := url], toks[1..], []) == [OnEnd(n)] + BodyEvents(known, map[u := url], [], []);
    assert DocEvents(toks) == [OnStart(Name([], r), attrs), OnEnd(n)];
    DocRoundTrip(toks);
  }
}
