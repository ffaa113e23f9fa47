/**
 * Documents that declare each namespace once, on any element: they are read back exactly if no element is in a
 * namespace that its own start tag gives a prefix, as such a tag is started without the prefix and ended with it.
 */
module Declarations {
  import opened Wrappers
  import opened Bytes
  import opened Lexing
  import opened Namespaces
  import opened Events
  import opened Printer
  import opened PrintedLexing
  import opened RoundTrip

  type Urls = set<seq<Byte>>

  /** The namespaces declared so far, and that of the attribute if it declares one. */
  function Used(used: Urls, a: Attr): Urls {
    if a.name.space == XMLNS || (IsDefault(a) && a.value != []) then used + {a.value} else used
  }

  function UsedAll(used: Urls, attrs: seq<Attr>): Urls
    decreases |attrs|
  {
    if attrs == [] then used else UsedAll(Used(used, attrs[0]), attrs[1..])
  }

  predicate HasPrefix(ns: Prefixes, url: seq<Byte>) {
    exists p <- ns :: p != [] && ns[p] == url
  }

  /** An element that can be named where ns is in force: without a namespace, or in one that is declared there. */
  predicate Nameable(ns: Prefixes, n: Name) {
    NcName(n.local) && n.local != XMLNS && (n.space == [] || n.space == Default(ns) || HasPrefix(ns, n.space))
  }

  /**
   * An attribute of a tag with the scope final: a declaration of a namespace not declared before, or an attribute in
   * a namespace that was given a prefix before it and still has one.
   */
  predicate AttrOnce(prefixes: Prefixes, used: Urls, a: Attr, raw: bool, final: Prefixes) {
    && NcName(a.name.local) && ValueOk(a.value, raw)
    && (a.name.space == XMLNS ==>
          a.name.local != XML && a.name.local != XMLNS && a.value !in used + {[], XMLNS, XML_URL})
    && (IsDefault(a) ==> a.value !in used + {XMLNS, XML_URL})
    && (a.name.space in {[], XMLNS, XML_URL} ||
        (Lookup(prefixes, a.name.space) != [] && HasPrefix(final, a.name.space)))
  }

  predicate AttrsOnce(prefixes: Prefixes, used: Urls, attrs: seq<Attr>, raw: bool, final: Prefixes)
    decreases |attrs|
  {
    attrs == [] ||
    (AttrOnce(prefixes, used, attrs[0], raw, final) &&
     AttrsOnce(PrintAttr(prefixes, attrs[0], raw).prefixes, Used(used, attrs[0]), attrs[1..], raw, final))
  }

  /** An open element, and the scope around it. */
  datatype Frame = Frame(name: Name, outer: Prefixes)

  predicate TagOnce(prefixes: Prefixes, ns: Prefixes, used: Urls, n: Name, attrs: seq<Attr>, raw: bool) {
    AttrsOnce(prefixes, used, attrs, raw, Declared(ns, attrs)) && Nameable(Declared(ns, attrs), n)
  }

  /** Balanced tokens, in which each element is bare or in a namespace in scope, and each namespace is declared once. */
  predicate Once(prefixes: Prefixes, ns: Prefixes, used: Urls, open: seq<Frame>, toks: seq<Token>)
    decreases |toks|
  {
    if toks == [] then open == []
    else match toks[0]
      case TStart(n, attrs, autoClose, raw) =>
        && TagOnce(prefixes, ns, used, n, attrs, raw)
        && Once(PrintAttrs(prefixes, attrs, raw).prefixes, if autoClose then ns else Declared(ns, attrs),
                UsedAll(used, attrs), if autoClose then open else open + [Frame(n, ns)], toks[1..])
      case TEnd(n) =>
        && open != [] && open[|open| - 1].name == n
        && Once(prefixes, open[|open| - 1].outer, used, open[..|open| - 1], toks[1..])
      case TChars(d) => Legal(d) && Once(prefixes, ns, used, open, toks[1..])
  }

  /** The start tag declares a prefix for its own namespace. */
  predicate PrefixesItself(n: Name, attrs: seq<Attr>) {
    exists a <- attrs :: a.name.space == XMLNS && a.value == n.space
  }

  predicate NonePrefixesItself(toks: seq<Token>) {
    forall t <- toks :: t.TStart? ==> !PrefixesItself(t.name, t.attrs)
  }

  // ---- What printer and parser agree on ----

  /** Every namespace that has a prefix has been declared. */
  predicate Recorded(prefixes: Prefixes, used: Urls) {
    forall url <- prefixes :: prefixes[url] != [] ==> url in used
  }

  /** The prefixes of a scope are those the printer knows, and for the default namespace it knows none. */
  predicate Known(prefixes: Prefixes, ns: Prefixes, used: Urls) {
    && XML_URL !in ns && XMLNS !in used && XML_URL !in used && [] !in used
    && (forall p <- ns :: p != [] ==>
          NcName(p) && p != XML && p != XMLNS && ns[p] in used && Lookup(prefixes, ns[p]) == p)
    && (Default(ns) != [] ==> Default(ns) in used && Lookup(prefixes, Default(ns)) == [])
    && Recorded(prefixes, used)
  }

  /** The prefixes, where only namespaces were added that were not declared before. */
  predicate Grown(prefixes: Prefixes, used: Urls, more: Prefixes, usedMore: Urls) {
    && used <= usedMore && (forall url <- used :: Lookup(more, url) == Lookup(prefixes, url))
    && Recorded(more, usedMore)
    && XMLNS !in usedMore && XML_URL !in usedMore && [] !in usedMore
  }

  lemma KnownGrows(prefixes: Prefixes, ns: Prefixes, used: Urls, more: Prefixes, usedMore: Urls)
    requires Known(prefixes, ns, used) && Grown(prefixes, used, more, usedMore)
    ensures Known(more, ns, usedMore)
  {
  }

  lemma NotAPrefix(p: seq<Byte>)
    requires p == [] || NcName(p)
    ensures p != XML_URL && XML_URL != XMLNS && XML != XMLNS && XML_URL != []
  {
    assert XML_URL[4] == ':' && XML_URL[4] in XML_URL;
  }

  lemma KnownOne(prefixes: Prefixes, ns: Prefixes, used: Urls, a: Attr, raw: bool, final: Prefixes)
    requires Known(prefixes, ns, used) && AttrOnce(prefixes, used, a, raw, final)
    ensures var more := PrintAttr(prefixes, a, raw).prefixes;
            && Known(more, Bound(ns, a), Used(used, a)) && Grown(prefixes, used, more, Used(used, a))
            && forall url :: Lookup(more, url) != Lookup(prefixes, url) ==> a.name.space == XMLNS && a.value == url
  {
    NotAPrefix(a.name.local);
    assert Lookup(prefixes, XMLNS) == [];
  }

  lemma {:induction false} KnownAll(prefixes: Prefixes, ns: Prefixes, used: Urls, attrs: seq<Attr>, raw: bool,
      final: Prefixes)
    requires Known(prefixes, ns, used) && AttrsOnce(prefixes, used, attrs, raw, final)
    ensures var more := PrintAttrs(prefixes, attrs, raw).prefixes;
            && Known(more, Declared(ns, attrs), UsedAll(used, attrs))
            && Grown(prefixes, used, more, UsedAll(used, attrs))
            && forall url :: Lookup(more, url) != Lookup(prefixes, url) ==>
                 exists a <- attrs :: a.name.space == XMLNS && a.value == url
    decreases |attrs|
  {
    if attrs != [] {
      var a, more := attrs[0], PrintAttr(prefixes, attrs[0], raw).prefixes;
      KnownOne(prefixes, ns, used, a, raw, final);
      KnownAll(more, Bound(ns, a), Used(used, a), attrs[1..], raw, final);
      assert a in attrs && forall b <- attrs[1..] :: b in attrs;
    }
  }

  /** A namespace that the tag gives a prefix had none before, and has one afterwards. */
  lemma {:induction false} GivenPrefix(prefixes: Prefixes, ns: Prefixes, used: Urls, attrs: seq<Attr>, raw: bool,
      final: Prefixes, url: seq<Byte>)
    requires Known(prefixes, ns, used) && AttrsOnce(prefixes, used, attrs, raw, final)
    requires exists a <- attrs :: a.name.space == XMLNS && a.value == url
    ensures url != [] && Lookup(prefixes, url) == [] && Lookup(PrintAttrs(prefixes, attrs, raw).prefixes, url) != []
    decreases |attrs|
  {
    var a, p := attrs[0], PrintAttr(prefixes, attrs[0], raw).prefixes;
    KnownOne(prefixes, ns, used, a, raw, final);
    if a.name.space == XMLNS && a.value == url {
      KnownAll(p, Bound(ns, a), Used(used, a), attrs[1..], raw, final);
    } else {
      GivenPrefix(p, Bound(ns, a), Used(used, a), attrs[1..], raw, final, url);
    }
  }

  // ---- What names mean ----

  /**
   * An element written under the prefixes known before its tag is read as it is meant unless the tag gave it a prefix.
   */
  lemma ElementMeans(prefixes: Prefixes, used: Urls, more: Prefixes, usedMore: Urls, final: Prefixes, n: Name)
    requires Known(more, final, usedMore) && Grown(prefixes, used, more, usedMore)
    requires Recorded(prefixes, used)
    requires Nameable(final, n)
    ensures IsName(Qualified(prefixes, n))
    ensures Translate(final, WrittenName(prefixes, n), true) == Meaning(final, n)
       <==> n.space == [] || Lookup(more, n.space) == Lookup(prefixes, n.space)
  {
    var p := if n.space == [] then [] else Lookup(prefixes, n.space);
    if HasPrefix(final, n.space) {
      var q :| q in final && q != [] && final[q] == n.space;
      assert Lookup(more, n.space) == q && NcName(q);
    }
    assert p != [] ==> NcName(p);
    SplitQualified(p, n.local);
    assert WrittenName(prefixes, n) == Name(p, n.local);
  }

  lemma ReadsAs(prefixes: Prefixes, a: Attr, raw: bool, p: seq<Byte>)
    requires NcName(a.name.local) && ValueOk(a.value, raw)
    requires if a.name.space == [] then p == [] else NcName(p) && p == AttrPrefix(prefixes, a).0
    ensures AttrWritable(prefixes, a, raw) && WrittenAttr(prefixes, a) == [Attr(Name(p, a.name.local), a.value)]
  {
    SplitQualified(p, a.name.local);
  }

  /** A prefix that stands for the namespace, by itself or as it is declared. */
  predicate StandsFor(final: Prefixes, p: seq<Byte>, url: seq<Byte>) {
    || (p == url && p in {[], XMLNS})
    || (p == XML && url == XML_URL)
    || (p in final && final[p] == url && NcName(p) && p != XML && p != XMLNS && url !in {[], XMLNS, XML_URL})
  }

  lemma NameMeans(final: Prefixes, p: seq<Byte>, a: Attr)
    requires XML_URL !in final && StandsFor(final, p, a.name.space)
    ensures var w := Name(p, a.name.local);
            && Translate(final, w, false) == a.name && (w.space == XMLNS <==> a.name.space == XMLNS)
            && (IsDefault(Attr(w, a.value)) <==> IsDefault(a))
  {
    NotAPrefix([]);
  }

  lemma AttrMeans(prefixes: Prefixes, used: Urls, more: Prefixes, usedMore: Urls, final: Prefixes, a: Attr, raw: bool)
    requires Known(more, final, usedMore) && Grown(prefixes, used, more, usedMore)
    requires Recorded(prefixes, used)
    requires AttrOnce(prefixes, used, a, raw, final)
    ensures AttrWritable(prefixes, a, raw)
    ensures var w := Name(if a.name.space == [] then [] else AttrPrefix(prefixes, a).0, a.name.local);
            && WrittenAttr(prefixes, a) == [Attr(w, a.value)] && Translate(final, w, false) == a.name
            && (w.space == XMLNS <==> a.name.space == XMLNS) && (IsDefault(Attr(w, a.value)) <==> IsDefault(a))
  {
    NotAPrefix(a.name.local);
    var p := if a.name.space == [] then [] else AttrPrefix(prefixes, a).0;
    if a.name.space != [] && Lookup(prefixes, a.name.space) != [] {
      PrefixMeans(prefixes, used, more, usedMore, final, a.name.space);
    }
    assert StandsFor(final, p, a.name.space);
    ReadsAs(prefixes, a, raw, p);
    NameMeans(final, p, a);
  }

  /** A prefix that the printer knows, of a namespace that still has one, is the one it has. */
  lemma PrefixMeans(prefixes: Prefixes, used: Urls, more: Prefixes, usedMore: Urls, final: Prefixes, url: seq<Byte>)
    requires Known(more, final, usedMore) && Grown(prefixes, used, more, usedMore)
    requires Recorded(prefixes, used)
    requires Lookup(prefixes, url) != [] && HasPrefix(final, url)
    ensures var p := Lookup(prefixes, url);
            p in final && final[p] == url && NcName(p) && p != XML && p != XMLNS && url in used && url in usedMore
  {
    assert url in used;
    var q :| q in final && q != [] && final[q] == url;
  }

  /** The written attributes declare what the tag declares, and their names mean what they meant. */
  lemma {:induction false} AttrsMean(prefixes: Prefixes, sc: Scope, used: Urls, attrs: seq<Attr>, raw: bool,
      final: Prefixes)
    requires Known(prefixes, sc.ns, used) && AttrsOnce(prefixes, used, attrs, raw, final)
    requires final == Declared(sc.ns, attrs)
    ensures AttrsWritable(prefixes, attrs, raw)
    ensures Declare(sc, WrittenAttrs(prefixes, attrs, raw)).ns == final
    ensures TranslateAttrs(final, WrittenAttrs(prefixes, attrs, raw)) == attrs
    decreases |attrs|
  {
    if attrs != [] {
      var a, p := attrs[0], PrintAttr(prefixes, attrs[0], raw).prefixes;
      KnownAll(prefixes, sc.ns, used, attrs, raw, final);
      KnownOne(prefixes, sc.ns, used, a, raw, final);
      AttrMeans(prefixes, used, PrintAttrs(prefixes, attrs, raw).prefixes, UsedAll(used, attrs), final, a, raw);
      var prefix := if a.name.space == [] then [] else AttrPrefix(prefixes, a).0;
      var w, more := Attr(Name(prefix, a.name.local), a.value), WrittenAttrs(p, attrs[1..], raw);
      var sc1 := Declare(sc, [w]);
      DeclareAppend(sc, w, more);
      DeclareOneNs(sc, w);
      AttrsMean(p, sc1, Used(used, a), attrs[1..], raw, final);
      TranslateCons(final, w, more);
      assert attrs == [a] + attrs[1..];
    }
  }

  lemma DeclareOneNs(sc: Scope, a: Attr)
    ensures Declare(sc, [a]).ns == Bound(sc.ns, a)
  {
    assert [a][1..] == [];
  }

  // ---- Tags ----

  lemma OpenOnce(prefixes: Prefixes, sc: Scope, used: Urls, n: Name, attrs: seq<Attr>, raw: bool)
    requires Known(prefixes, sc.ns, used) && TagOnce(prefixes, sc.ns, used, n, attrs, raw)
    ensures IsName(Qualified(prefixes, n)) && AttrsWritable(prefixes, attrs, raw)
    ensures var final := Declared(sc.ns, attrs);
            var o := Open(sc, WrittenName(prefixes, n), WrittenAttrs(prefixes, attrs, raw));
            && o.attrs == attrs && o.scope.ns == final && (o.name == Meaning(final, n) <==> !PrefixesItself(n, attrs))
            && Known(PrintAttrs(prefixes, attrs, raw).prefixes, final, UsedAll(used, attrs))
            && Grown(prefixes, used, PrintAttrs(prefixes, attrs, raw).prefixes, UsedAll(used, attrs))
  {
    var final, more := Declared(sc.ns, attrs), PrintAttrs(prefixes, attrs, raw).prefixes;
    KnownAll(prefixes, sc.ns, used, attrs, raw, final);
    AttrsMean(prefixes, sc, used, attrs, raw, final);
    ElementMeans(prefixes, used, more, UsedAll(used, attrs), final, n);
    if PrefixesItself(n, attrs) {
      GivenPrefix(prefixes, sc.ns, used, attrs, raw, final, n.space);
    }
  }

  lemma CloseOnce(prefixes: Prefixes, ns: Prefixes, used: Urls, n: Name)
    requires Known(prefixes, ns, used) && Nameable(ns, n)
    ensures IsName(Qualified(prefixes, n)) && Translate(ns, WrittenName(prefixes, n), true) == Meaning(ns, n)
  {
    ElementMeans(prefixes, used, prefixes, used, ns, n);
  }

  // ---- Documents ----

  predicate FramesKnown(prefixes: Prefixes, used: Urls, ns: Prefixes, open: seq<Frame>)
    decreases |open|
  {
    && Known(prefixes, ns, used)
    && (open != [] ==>
          var f := open[|open| - 1];
          Nameable(ns, f.name) && FramesKnown(prefixes, used, f.outer, open[..|open| - 1]))
  }

  lemma {:induction false} FramesGrow(prefixes: Prefixes, used: Urls, more: Prefixes, usedMore: Urls, ns: Prefixes,
      open: seq<Frame>)
    requires FramesKnown(prefixes, used, ns, open) && Grown(prefixes, used, more, usedMore)
    ensures FramesKnown(more, usedMore, ns, open)
    decreases |open|
  {
    KnownGrows(prefixes, ns, used, more, usedMore);
    if open != [] {
      FramesGrow(prefixes, used, more, usedMore, open[|open| - 1].outer, open[..|open| - 1]);
    }
  }

  /** The parser's stack is that of the open elements, each with the scope around it. */
  predicate Matches(sc: Scope, ns: Prefixes, open: seq<Frame>)
    decreases |open|
  {
    && sc.ns == ns && TopIsStart(sc)
    && if open == [] then sc.stk == []
       else
         && sc.stk != [] && sc.stk[0] == StartEntry(Meaning(ns, open[|open| - 1].name))
         && Matches(CloseTop(sc), open[|open| - 1].outer, open[..|open| - 1])
  }

  lemma OnceMore(prefixes: Prefixes, sc: Scope, used: Urls, open: seq<Frame>, n: Name, attrs: seq<Attr>, raw: bool)
    requires FramesKnown(prefixes, used, sc.ns, open) && TagOnce(prefixes, sc.ns, used, n, attrs, raw)
    ensures var more, usedMore := PrintAttrs(prefixes, attrs, raw).prefixes, UsedAll(used, attrs);
            && FramesKnown(more, usedMore, sc.ns, open)
            && FramesKnown(more, usedMore, Declared(sc.ns, attrs), open + [Frame(n, sc.ns)])
  {
    OpenOnce(prefixes, sc, used, n, attrs, raw);
    FramesGrow(prefixes, used, PrintAttrs(prefixes, attrs, raw).prefixes, UsedAll(used, attrs), sc.ns, open);
    assert (open + [Frame(n, sc.ns)])[..|open|] == open;
  }

  lemma MatchesMore(sc: Scope, open: seq<Frame>, n: Name, w: Name, attrs: seq<Attr>)
    requires Matches(sc, sc.ns, open) && Open(sc, w, attrs).name == Meaning(Open(sc, w, attrs).scope.ns, n)
    ensures Matches(Open(sc, w, attrs).scope, Open(sc, w, attrs).scope.ns, open + [Frame(n, sc.ns)])
  {
    CloseAfterOpen(sc, w, attrs);
    assert (open + [Frame(n, sc.ns)])[..|open|] == open;
  }

  lemma TailPrefixes(toks: seq<Token>)
    requires toks != []
    ensures NonePrefixesItself(toks) <==>
              (toks[0].TStart? ==> !PrefixesItself(toks[0].name, toks[0].attrs)) && NonePrefixesItself(toks[1..])
  {
    assert forall t :: t in toks <==> t == toks[0] || t in toks[1..];
  }

  lemma {:induction false} OnceWritable(prefixes: Prefixes, ns: Prefixes, used: Urls, open: seq<Frame>,
      toks: seq<Token>)
    requires FramesKnown(prefixes, used, ns, open) && Once(prefixes, ns, used, open, toks)
    ensures Writable(prefixes, toks)
    decreases |toks|
  {
    if toks != [] {
      match toks[0]
      case TStart(n, attrs, autoClose, raw) =>
        OpenOnce(prefixes, Scope(ns, []), used, n, attrs, raw);
        OnceMore(prefixes, Scope(ns, []), used, open, n, attrs, raw);
        OnceWritable(PrintAttrs(prefixes, attrs, raw).prefixes, if autoClose then ns else Declared(ns, attrs),
                     UsedAll(used, attrs), if autoClose then open else open + [Frame(n, ns)], toks[1..]);
      case TEnd(n) =>
        CloseOnce(prefixes, ns, used, n);
        OnceWritable(prefixes, open[|open| - 1].outer, used, open[..|open| - 1], toks[1..]);
      case TChars(_) => OnceWritable(prefixes, ns, used, open, toks[1..]);
    }
  }

  /** The scopes around, as the open elements have them. */
  function Outers(open: seq<Frame>): (r: seq<Prefixes>)
    ensures |r| == |open|
  {
    seq(|open|, i requires 0 <= i < |open| => open[i].outer)
  }

  lemma OutersMore(open: seq<Frame>, f: Frame)
    ensures Outers(open + [f]) == Outers(open) + [f.outer]
    ensures open != [] ==> Outers(open[..|open| - 1]) == Outers(open)[..|open| - 1]
  {
  }

  /** Names that have a namespace stand for themselves. */
  predicate Plausible(toks: seq<Token>, means: seq<Name>)
    requires |means| == |toks|
    decreases |toks|
  {
    toks == [] ||
    ((if toks[0].TChars? then means[0] == NO_NAME else toks[0].name.space != [] ==> means[0] == toks[0].name) &&
     Plausible(toks[1..], means[1..]))
  }

  lemma {:induction false} OnceFaithful(prefixes: Prefixes, sc: Scope, used: Urls, open: seq<Frame>, toks: seq<Token>,
      means: seq<Name>)
    requires FramesKnown(prefixes, used, sc.ns, open) && Once(prefixes, sc.ns, used, open, toks)
    requires Matches(sc, sc.ns, open) && |means| == |toks| && Plausible(toks, means)
    ensures Faithful(prefixes, sc, toks, means)
       <==> NonePrefixesItself(toks) && means == Meanings(Scopes(sc.ns, Outers(open)), toks)
    decreases |toks|
  {
    if toks != [] {
      var s := Scopes(sc.ns, Outers(open));
      TailPrefixes(toks);
      HeadMeans(s, toks, means);
      match toks[0]
      case TStart(n, attrs, autoClose, raw) => StartFaithful(prefixes, sc, used, open, toks, means);
      case TEnd(n) =>
        CloseOnce(prefixes, sc.ns, used, n);
        OutersMore(open, open[|open| - 1]);
        OnceFaithful(prefixes, CloseTop(sc), used, open[..|open| - 1], toks[1..], means[1..]);
      case TChars(_) => OnceFaithful(prefixes, sc, used, open, toks[1..], means[1..]);
    }
  }

  lemma HeadMeans(s: Scopes, toks: seq<Token>, means: seq<Name>)
    requires toks != [] && |means| == |toks|
    ensures means == Meanings(s, toks)
       <==> means[0] == MeaningOf(s, toks[0]) && means[1..] == Meanings(AfterToken(s, toks[0]), toks[1..])
  {
    assert means == [means[0]] + means[1..];
  }

  lemma {:induction false} StartFaithful(prefixes: Prefixes, sc: Scope, used: Urls, open: seq<Frame>, toks: seq<Token>,
      means: seq<Name>)
    requires FramesKnown(prefixes, used, sc.ns, open) && Once(prefixes, sc.ns, used, open, toks)
    requires Matches(sc, sc.ns, open) && |means| == |toks| && Plausible(toks, means) && toks != [] && toks[0].TStart?
    ensures Faithful(prefixes, sc, toks, means)
       <==> NonePrefixesItself(toks) && means == Meanings(Scopes(sc.ns, Outers(open)), toks)
    decreases |toks|, 0
  {
    var TStart(n, attrs, autoClose, raw) := toks[0];
    var w := WrittenAttrs(prefixes, attrs, raw);
    var o := Open(sc, WrittenName(prefixes, n), w);
    TailPrefixes(toks);
    HeadMeans(Scopes(sc.ns, Outers(open)), toks, means);
    OpenOnce(prefixes, sc, used, n, attrs, raw);
    if o.name == Meaning(o.scope.ns, n) {
      OnceMore(prefixes, sc, used, open, n, attrs, raw);
      MatchesMore(sc, open, n, WrittenName(prefixes, n), w);
      OutersMore(open, Frame(n, sc.ns));
      StartUnfolds(prefixes, sc, toks, means, o);
      OnceFaithful(PrintAttrs(prefixes, attrs, raw).prefixes, if autoClose then sc else o.scope, UsedAll(used, attrs),
                   if autoClose then open else open + [Frame(n, sc.ns)], toks[1..], means[1..]);
    } else {
      ItselfIsNamed(n, attrs, prefixes, sc.ns, used, raw);
      StartUnfolds(prefixes, sc, toks, means, o);
    }
  }

  lemma StartUnfolds(prefixes: Prefixes, sc: Scope, toks: seq<Token>, means: seq<Name>, o: Opened)
    requires |means| == |toks| && toks != [] && toks[0].TStart?
    requires var TStart(n, attrs, _, raw) := toks[0];
             o == Open(sc, WrittenName(prefixes, n), WrittenAttrs(prefixes, attrs, raw)) && o.attrs == attrs
    ensures var TStart(_, attrs, autoClose, raw) := toks[0];
            var known, inner := PrintAttrs(prefixes, attrs, raw).prefixes, if autoClose then sc else o.scope;
            Faithful(prefixes, sc, toks, means)
            <==> o.name == means[0] && Faithful(known, inner, toks[1..], means[1..])
  {
  }

  lemma ItselfIsNamed(n: Name, attrs: seq<Attr>, prefixes: Prefixes, ns: Prefixes, used: Urls, raw: bool)
    requires Known(prefixes, ns, used) && AttrsOnce(prefixes, used, attrs, raw, Declared(ns, attrs))
    requires PrefixesItself(n, attrs)
    ensures n.space != []
  {
    GivenPrefix(prefixes, ns, used, attrs, raw, Declared(ns, attrs), n.space);
  }

  lemma {:induction false} MeaningsPlausible(s: Scopes, toks: seq<Token>)
    ensures Plausible(toks, Meanings(s, toks))
    decreases |toks|
  {
    if toks != [] {
      MeaningsPlausible(AfterToken(s, toks[0]), toks[1..]);
    }
  }

  /** A document in which each namespace is declared once. */
  predicate DeclaredOnce(toks: seq<Token>) {
    Once(map[], map[], {}, [], toks)
  }

  lemma OnceExactly(toks: seq<Token>, means: seq<Name>)
    requires DeclaredOnce(toks) && |means| == |toks| && Plausible(toks, means)
    ensures Writable(map[], toks)
    ensures Faithful(map[], EMPTY, toks, means) <==> NonePrefixesItself(toks) && means == Meanings(NO_SCOPES, toks)
  {
    OnceWritable(map[], map[], {}, [], toks);
    OnceFaithful(map[], EMPTY, {}, [], toks, means);
    assert Outers([]) == [];
  }

  /** It is printed and parsed back as what it means exactly if no start tag gives a prefix to its own namespace. */
  lemma DeclaredOnceExactly(toks: seq<Token>)
    requires DeclaredOnce(toks)
    ensures Writable(map[], toks)
    ensures RunAll(Initial(Deliver(PrintTokens(map[], toks), None, [])))
            == Ran(EventsOf(toks, Meanings(NO_SCOPES, toks), []), EOF)
       <==> NonePrefixesItself(toks)
  {
    MeaningsPlausible(NO_SCOPES, toks);
    OnceExactly(toks, Meanings(NO_SCOPES, toks));
    DocExactly(toks, Meanings(NO_SCOPES, toks));
  }
}
