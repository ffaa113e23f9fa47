/**
 * Unknown elements that are read, kept, written and read again: exactly when they survive, and what becomes of the file
 * when they do not.
 */
module Survival {
  import opened Wrappers
  import opened Bytes
  import opened Lexing
  import opened Namespaces
  import opened Events
  import opened Handlers
  import opened Printer
  import opened PrintedLexing
  import opened RoundTrip
  import opened Declarations
  import opened UnknownElements

  // ---- Written and read again ----

  lemma {:induction false} TagsAreTags(events: seq<Event>)
    ensures forall e <- Tags(events) :: !e.OnChar?
    decreases |events|
  {
    if events != [] {
      TagsAreTags(events[1..]);
    }
  }

  /** What comes before a tag does not depend on what comes after it: the tag ends any text. */
  lemma {:induction false} EventsSplit(before: seq<Token>, bm: seq<Name>, more: seq<Token>, mm: seq<Name>,
      text: seq<Byte>)
    requires |bm| == |before| && |mm| == |more| && more != [] && !more[0].TChars?
    ensures EventsOf(before + more, bm + mm, text) == EventsOf(before, bm, text) + EventsOf(more, mm, [])
    decreases |before|, |text|
  {
    var last := EventsOf(more, mm, []);
    if before == [] {
      assert before + more == more && bm + mm == mm;
      if text == [] {
        assert [] + last == last;
      }
    } else {
      assert (before + more)[1..] == before[1..] + more && (bm + mm)[1..] == bm[1..] + mm;
      if before[0].TChars? {
        EventsSplit(before[1..], bm[1..], more, mm, text + before[0].data);
      } else if text != [] {
        EventsSplit(before, bm, more, mm, []);
        Assoc([OnChar(text)], EventsOf(before, bm, []), last);
      } else {
        EventsSplit(before[1..], bm[1..], more, mm, []);
        EventsHead(before, bm);
        EventsHead(before + more, bm + mm);
        Assoc(TagEvents(before[0], bm[0]), EventsOf(before[1..], bm[1..], []), last);
      }
    }
  }

  function TagEvents(t: Token, n: Name): seq<Event> {
    match t
    case TStart(_, attrs, autoClose, _) => if autoClose then [OnStart(n, attrs), OnEnd(n)] else [OnStart(n, attrs)]
    case TEnd(_) => [OnEnd(n)]
    case TChars(_) => []
  }

  lemma EventsHead(toks: seq<Token>, means: seq<Name>)
    requires |means| == |toks| && toks != [] && !toks[0].TChars?
    ensures EventsOf(toks, means, []) == TagEvents(toks[0], means[0]) + EventsOf(toks[1..], means[1..], [])
  {
  }

  /** Tags that stand for themselves. */
  lemma {:induction false} EventsOfTags(tags: seq<Event>, more: seq<Token>, mm: seq<Name>)
    requires |mm| == |more| && forall e <- tags :: !e.OnChar?
    ensures EventsOf(AsTokens(tags) + more, OwnNames(AsTokens(tags)) + mm, []) == tags + EventsOf(more, mm, [])
    decreases |tags|
  {
    var toks := AsTokens(tags);
    var own := OwnNames(toks);
    if tags == [] {
      assert toks + more == more && own + mm == mm && tags + EventsOf(more, mm, []) == EventsOf(more, mm, []);
    } else {
      assert tags[0] in tags && forall e <- tags[1..] :: e in tags;
      assert (toks + more)[1..] == AsTokens(tags[1..]) + more;
      assert (own + mm)[1..] == OwnNames(AsTokens(tags[1..])) + mm;
      EventsOfTags(tags[1..], more, mm);
      EventsHead(toks + more, own + mm);
      assert TagEvents(toks[0], own[0]) == [tags[0]];
      Assoc([tags[0]], tags[1..], EventsOf(more, mm, []));
      assert [tags[0]] + tags[1..] == tags;
    }
  }

  /** Some tokens, tags, and some tokens. */
  function Around(before: seq<Token>, tags: seq<Event>, after: seq<Token>): seq<Token> {
    before + (AsTokens(tags) + after)
  }

  /** What comes after the tags stands for, in the scopes they leave. */
  function MeaningsAfter(before: seq<Token>, tags: seq<Event>, after: seq<Token>): (means: seq<Name>)
    ensures |means| == |after|
  {
    Meanings(AfterTokens(AfterTokens(NO_SCOPES, before), AsTokens(tags)), after)
  }

  /** The tags stand for themselves, and what is around them for what it means there. */
  function MeaningsAround(before: seq<Token>, tags: seq<Event>, after: seq<Token>): (means: seq<Name>)
    ensures |means| == |Around(before, tags, after)|
  {
    Meanings(NO_SCOPES, before) + (OwnNames(AsTokens(tags)) + MeaningsAfter(before, tags, after))
  }

  /** The events of the tags in their place. */
  function EventsAround(before: seq<Token>, tags: seq<Event>, after: seq<Token>): seq<Event> {
    EventsOf(before, Meanings(NO_SCOPES, before), []) + (tags + EventsOf(after, MeaningsAfter(before, tags, after), []))
  }

  lemma EventsAroundTags(before: seq<Token>, tags: seq<Event>, after: seq<Token>)
    requires tags != [] && forall e <- tags :: !e.OnChar?
    ensures EventsOf(Around(before, tags, after), MeaningsAround(before, tags, after), [])
         == EventsAround(before, tags, after)
  {
    var more, mm := AsTokens(tags) + after, OwnNames(AsTokens(tags)) + MeaningsAfter(before, tags, after);
    assert tags[0] in tags && more[0] == Flagged(tags[0], false, false);
    EventsSplit(before, Meanings(NO_SCOPES, before), more, mm, []);
    EventsOfTags(tags, after, MeaningsAfter(before, tags, after));
  }

  /**
   * Kept tags written among any tokens are read back as the same tags, in their place, exactly if all is faithful: the
   * tags to themselves, and what is around them, where bare names are in the default namespace, to what it means.
   */
  lemma Replayed(before: seq<Token>, tags: seq<Event>, after: seq<Token>)
    requires tags != [] && (forall e <- tags :: !e.OnChar?) && Writable(map[], Around(before, tags, after))
    ensures RunAll(Initial(Deliver(PrintTokens(map[], Around(before, tags, after)), None, [])))
            == Ran(EventsAround(before, tags, after), EOF)
       <==> Faithful(map[], EMPTY, Around(before, tags, after), MeaningsAround(before, tags, after))
  {
    EventsAroundTags(before, tags, after);
    DocExactly(Around(before, tags, after), MeaningsAround(before, tags, after));
  }

  /** An unknown element, as it is read. */
  function Element(name: Name, attrs: seq<Attr>, content: seq<Event>): seq<Event> {
    [OnStart(name, attrs)] + content + [OnEnd(name)]
  }

  predicate Whole(name: Name, content: seq<Event>) {
    OnEnd(name) !in content && forall e <- content :: !e.OnChar?
  }

  lemma KeptSize<D>(rules: Rules<D>, h: Handlers.Stack<D>, d: D, name: Name, attrs: seq<Attr>, content: seq<Event>)
    requires |h.state| == |h.names| && rules.isParent(h.current) && rules.child(h.current, name, h.calls) == Some(d)
    requires OnlyRecords(rules, d)
    ensures var kept := KeptOf(rules, h, name, attrs, content);
            && kept != [] && (forall e <- kept :: !e.OnChar?)
            && if Whole(name, content) then kept == Element(name, attrs, content)
               else |kept| < |Element(name, attrs, content)|
  {
    var inside := content[..FirstEnd(name, content)];
    KeptUpToEnd(rules, h, d, name, attrs, content);
    KeptExactly(rules, h, d, name, attrs, content);
    TagsAreTags(inside);
    LosslessIffNoText(inside);
    assert |inside| == |content| ==> inside == content;
  }

  lemma {:induction false} EventCount(toks: seq<Token>, means: seq<Name>, more: seq<Name>, text: seq<Byte>)
    requires |means| == |more| == |toks|
    ensures |EventsOf(toks, means, text)| == |EventsOf(toks, more, text)|
    decreases |toks|, |text|
  {
    if toks != [] && toks[0].TChars? {
      EventCount(toks[1..], means[1..], more[1..], text + toks[0].data);
    } else if text != [] {
      EventCount(toks, means, more, []);
    } else if toks != [] {
      EventCount(toks[1..], means[1..], more[1..], []);
    }
  }

  /**
   * Decoded, kept, and written among any tokens, an unknown element is read back as itself, in its place and to a clean
   * end, exactly if it has no text, no end tag of its own name inside, and all is faithful there.
   */
  lemma SurvivesExactly<D>(rules: Rules<D>, h: Handlers.Stack<D>, d: D, name: Name, attrs: seq<Attr>,
      content: seq<Event>, before: seq<Token>, after: seq<Token>)
    requires |h.state| == |h.names| && rules.isParent(h.current) && rules.child(h.current, name, h.calls) == Some(d)
    requires OnlyRecords(rules, d) && Writable(map[], Around(before, KeptOf(rules, h, name, attrs, content), after))
    ensures var kept, element := KeptOf(rules, h, name, attrs, content), Element(name, attrs, content);
            RunAll(Initial(Deliver(PrintTokens(map[], Around(before, kept, after)), None, [])))
              == Ran(EventsAround(before, element, after), EOF)
            <==> Whole(name, content)
                 && Faithful(map[], EMPTY, Around(before, element, after), MeaningsAround(before, element, after))
  {
    var kept, element := KeptOf(rules, h, name, attrs, content), Element(name, attrs, content);
    KeptSize(rules, h, d, name, attrs, content);
    if Whole(name, content) {
      Replayed(before, kept, after);
    } else {
      LessIsRead(before, kept, after, MeaningsAfter(before, element, after));
    }
  }

  /** Of fewer tags, no more events are read to a clean end. */
  lemma LessIsRead(before: seq<Token>, kept: seq<Event>, after: seq<Token>, mm: seq<Name>)
    requires kept != [] && (forall e <- kept :: !e.OnChar?) && Writable(map[], Around(before, kept, after))
    requires |mm| == |after|
    ensures var r := RunAll(Initial(Deliver(PrintTokens(map[], Around(before, kept, after)), None, [])));
      r.err == EOF ==>
        |r.events| == |EventsOf(before, Meanings(NO_SCOPES, before), [])| + |kept| + |EventsOf(after, mm, [])|
  {
    var toks := Around(before, kept, after);
    DocReadBack(toks);
    EventsAroundTags(before, kept, after);
    CleanIsBalanced(map[], EMPTY, toks, MeaningsAround(before, kept, after), []);
    EventCount(after, MeaningsAfter(before, kept, after), mm, []);
  }

  /** The tags stand for themselves: those without a namespace are not where there is a default one. */
  predicate StandAlone(before: seq<Token>, tags: seq<Event>) {
    Meanings(AfterTokens(NO_SCOPES, before), AsTokens(tags)) == OwnNames(AsTokens(tags))
  }

  /**
   * In a document that declares each namespace once, on any element: exactly if it has no text, no end tag of its own
   * name inside, no tag without a namespace where there is a default one, and no start tag that gives its own namespace
   * a prefix.
   */
  lemma SurvivesOnce<D>(rules: Rules<D>, h: Handlers.Stack<D>, d: D, name: Name, attrs: seq<Attr>,
      content: seq<Event>, before: seq<Token>, after: seq<Token>)
    requires |h.state| == |h.names| && rules.isParent(h.current) && rules.child(h.current, name, h.calls) == Some(d)
    requires OnlyRecords(rules, d) && Writable(map[], Around(before, KeptOf(rules, h, name, attrs, content), after))
    requires DeclaredOnce(Around(before, Element(name, attrs, content), after)) && NonePrefixesItself(before + after)
    ensures var kept, element := KeptOf(rules, h, name, attrs, content), Element(name, attrs, content);
            RunAll(Initial(Deliver(PrintTokens(map[], Around(before, kept, after)), None, [])))
              == Ran(EventsAround(before, element, after), EOF)
            <==> Whole(name, content) && StandAlone(before, element) && NonePrefixesItself(AsTokens(element))
  {
    SurvivesExactly(rules, h, d, name, attrs, content, before, after);
    OnceAround(before, Element(name, attrs, content), after);
  }

  lemma OnceAround(before: seq<Token>, element: seq<Event>, after: seq<Token>)
    requires DeclaredOnce(Around(before, element, after)) && NonePrefixesItself(before + after)
    ensures Faithful(map[], EMPTY, Around(before, element, after), MeaningsAround(before, element, after))
       <==> StandAlone(before, element) && NonePrefixesItself(AsTokens(element))
  {
    var toks, means := Around(before, element, after), MeaningsAround(before, element, after);
    var s, mid := AfterTokens(NO_SCOPES, before), AsTokens(element);
    MeaningsAppend(NO_SCOPES, before, mid + after);
    MeaningsAppend(s, mid, after);
    SameMiddleNames(Meanings(NO_SCOPES, before), OwnNames(mid), Meanings(s, mid),
        MeaningsAfter(before, element, after));
    MeaningsPlausible(NO_SCOPES, before);
    MeaningsPlausible(AfterTokens(s, mid), after);
    OwnPlausible(mid);
    PlausibleAppend(mid, OwnNames(mid), after, MeaningsAfter(before, element, after));
    PlausibleAppend(before, Meanings(NO_SCOPES, before), mid + after,
        OwnNames(mid) + MeaningsAfter(before, element, after));
    OnceExactly(toks, means);
    assert forall t :: t in toks <==> t in before + after || t in mid;
  }

  lemma SameMiddleNames(a: seq<Name>, b: seq<Name>, c: seq<Name>, d: seq<Name>)
    requires |b| == |c|
    ensures a + (b + d) == a + (c + d) <==> b == c
  {
    Assoc(a, b, d);
    Assoc(a, c, d);
    SameMiddle(a, b, c, d);
  }

  lemma {:induction false} OwnPlausible(toks: seq<Token>)
    ensures Plausible(toks, OwnNames(toks))
    decreases |toks|
  {
    if toks != [] {
      assert OwnNames(toks)[1..] == OwnNames(toks[1..]);
      OwnPlausible(toks[1..]);
    }
  }

  lemma {:induction false} PlausibleAppend(a: seq<Token>, am: seq<Name>, b: seq<Token>, bm: seq<Name>)
    requires |am| == |a| && |bm| == |b| && Plausible(a, am) && Plausible(b, bm)
    ensures Plausible(a + b, am + bm)
    decreases |a|
  {
    if a == [] {
      assert a + b == b && am + bm == bm;
    } else {
      assert (a + b)[1..] == a[1..] + b && (am + bm)[1..] == am[1..] + bm;
      PlausibleAppend(a[1..], am[1..], b, bm);
    }
  }

  // ---- Malformed files ----

  lemma {:induction false} DepthAppend(a: seq<Token>, b: seq<Token>)
    ensures Depth(a + b) == Depth(a) + Depth(b)
    decreases |a|
  {
    if a == [] {
      assert a + b == b;
    } else {
      assert (a + b)[1..] == a[1..] + b;
      DepthAppend(a[1..], b);
    }
  }

  lemma {:induction false} DepthOfTags(events: seq<Event>)
    ensures Depth(AsTokens(Tags(events))) == Depth(AsTokens(events))
    decreases |events|
  {
    if events != [] {
      DepthOfTags(events[1..]);
      assert AsTokens(events)[1..] == AsTokens(events[1..]);
      if !events[0].OnChar? {
        assert AsTokens(Tags(events))[1..] == AsTokens(Tags(events[1..]));
      }
    }
  }

  /** Where balanced events have an end, an element is open that they opened. */
  lemma {:induction false} OpenAtEnd(open: seq<Name>, a: seq<Event>, name: Name, b: seq<Event>)
    requires Nest(open, a + ([OnEnd(name)] + b)).Some?
    ensures |open| + Depth(AsTokens(a)) >= 1
    decreases |a|
  {
    var all := a + ([OnEnd(name)] + b);
    if a == [] {
      assert all[0] == OnEnd(name);
    } else {
      assert all[1..] == a[1..] + ([OnEnd(name)] + b) && all[0] == a[0];
      assert AsTokens(a)[1..] == AsTokens(a[1..]);
      match a[0]
      case OnStart(n, _) => OpenAtEnd(open + [n], a[1..], name, b);
      case OnEnd(_) => OpenAtEnd(open[..|open| - 1], a[1..], name, b);
      case OnChar(_) => OpenAtEnd(open, a[1..], name, b);
    }
  }

  /**
   * Whatever balanced element has a descendant of its own name: what is kept of it, written among any tokens that are
   * balanced without it, makes a malformed file.
   */
  lemma NestedIsMalformed<D>(rules: Rules<D>, h: Handlers.Stack<D>, d: D, name: Name, attrs: seq<Attr>,
      content: seq<Event>, before: seq<Token>, after: seq<Token>)
    requires |h.state| == |h.names| && rules.isParent(h.current) && rules.child(h.current, name, h.calls) == Some(d)
    requires OnlyRecords(rules, d) && Writable(map[], Around(before, KeptOf(rules, h, name, attrs, content), after))
    requires Nest([], content) == Some([]) && OnEnd(name) in content && Depth(before) + Depth(after) == 0
    ensures var kept := KeptOf(rules, h, name, attrs, content);
            RunAll(Initial(Deliver(PrintTokens(map[], Around(before, kept, after)), None, []))).err == Syntax
  {
    var kept := KeptOf(rules, h, name, attrs, content);
    KeptUpToEnd(rules, h, d, name, attrs, content);
    OpensMore(name, attrs, content, kept);
    DepthAppend(before, AsTokens(kept) + after);
    DepthAppend(AsTokens(kept), after);
    UnbalancedIsMalformed(Around(before, kept, after));
  }

  /** What is kept of such an element opens more than it closes. */
  lemma OpensMore(name: Name, attrs: seq<Attr>, content: seq<Event>, kept: seq<Event>)
    requires Nest([], content) == Some([]) && OnEnd(name) in content
    requires kept == [OnStart(name, attrs)] + Tags(content[..FirstEnd(name, content)]) + [OnEnd(name)]
    ensures Depth(AsTokens(kept)) >= 1
  {
    var k := FirstEnd(name, content);
    var inside, start, end := content[..k], AsTokens([OnStart(name, attrs)]), AsTokens([OnEnd(name)]);
    assert k < |content| by {
      assert content[..|content|] == content;
    }
    assert content == inside + ([OnEnd(name)] + content[k + 1..]);
    OpenAtEnd([], inside, name, content[k + 1..]);
    DepthOfTags(inside);
    var tags := AsTokens(Tags(inside));
    assert AsTokens(kept) == start + (tags + end);
    DepthAppend(start, tags + end);
    DepthAppend(tags, end);
    DepthOfOne(name, attrs);
  }

  lemma DepthOfOne(name: Name, attrs: seq<Attr>)
    ensures Depth(AsTokens([OnStart(name, attrs)])) == 1 && Depth(AsTokens([OnEnd(name)])) == -1
  {
    assert AsTokens([OnStart(name, attrs)])[1..] == [] && AsTokens([OnEnd(name)])[1..] == [];
  }

  /** A tag after which its name is written so that it is read as another refuses its own end. */
  lemma EndDiffers(prefixes: Prefixes, sc: Scope, toks: seq<Token>, o: Opened, known: Prefixes)
    requires |toks| > 1 && toks[0].TStart? && !toks[0].autoClose && toks[1] == TEnd(toks[0].name)
    requires var TStart(n, attrs, _, raw) := toks[0];
             && o == Open(sc, WrittenName(prefixes, n), WrittenAttrs(prefixes, attrs, raw))
             && known == PrintAttrs(prefixes, attrs, raw).prefixes
    requires Translate(o.scope.ns, WrittenName(known, toks[0].name), true) != o.name
    ensures ReadBack(prefixes, sc, toks, []).err == Syntax
  {
    StartThen(prefixes, sc, toks, o, known);
    RefusedEnd(known, o.scope, toks[0].name, toks[1..], o.name);
  }

  lemma StartThen(prefixes: Prefixes, sc: Scope, toks: seq<Token>, o: Opened, known: Prefixes)
    requires toks != [] && toks[0].TStart? && !toks[0].autoClose
    requires var TStart(n, attrs, _, raw) := toks[0];
             && o == Open(sc, WrittenName(prefixes, n), WrittenAttrs(prefixes, attrs, raw))
             && known == PrintAttrs(prefixes, attrs, raw).prefixes
    ensures ReadBack(prefixes, sc, toks, []).err == ReadBack(known, o.scope, toks[1..], []).err
  {
  }

  lemma RefusedEnd(prefixes: Prefixes, sc: Scope, n: Name, toks: seq<Token>, e: Name)
    requires toks != [] && toks[0] == TEnd(n) && sc.stk != [] && sc.stk[0] == StartEntry(e)
    requires Translate(sc.ns, WrittenName(prefixes, n), true) != e
    ensures ReadBack(prefixes, sc, toks, []) == Ran([], Syntax)
  {
  }

  lemma OneAttrOnly(prefixes: Prefixes, sc: Scope, w: Name, a: Attr)
    ensures PrintAttrs(prefixes, [a], false).prefixes == PrintAttr(prefixes, a, false).prefixes
    ensures WrittenAttrs(prefixes, [a], false) == WrittenAttr(prefixes, a)
    ensures AttrsWritable(prefixes, [a], false) <==> AttrWritable(prefixes, a, false)
    ensures Open(sc, w, [a]).scope.ns == Bound(sc.ns, a) && Open(sc, w, [a]).name == Translate(Bound(sc.ns, a), w, true)
  {
    assert [a][1..] == [];
    assert WrittenAttr(prefixes, a) + [] == WrittenAttr(prefixes, a);
    DeclareOneNs(sc, a);
  }

  /** A declaration of a prefix for a namespace that the printer does not know, as an attribute. */
  predicate DeclaresUrl(a: Attr, v: seq<Byte>, url: seq<Byte>) {
    && a == Attr(Name(XMLNS, v), url) && NcName(v) && v != XML && v != XMLNS
    && Legal(url) && url != [] && url != XMLNS && url != XML_URL
  }

  /**
   * An element f that declares the prefix v of its own namespace, inside a root in a default namespace, which may be
   * named bare: it is kept whole, and what is written is malformed, as the start tag is bare and the end tag is not.
   */
  lemma SelfDeclaredIsMalformed<D>(rules: Rules<D>, h: Handlers.Stack<D>, d: D, root: Name, f: seq<Byte>,
      v: seq<Byte>, default: seq<Byte>, url: seq<Byte>)
    requires var name := Name(url, f);
             |h.state| == |h.names| && rules.isParent(h.current) && rules.child(h.current, name, h.calls) == Some(d)
    requires OnlyRecords(rules, d) && DeclaresUrl(Attr(Name(XMLNS, v), url), v, url)
    requires NcName(root.local) && root.local != XMLNS && NcName(f) && f != XMLNS && Legal(default) && default != url
    ensures var attrs := [Attr(Name(XMLNS, v), url)];
            var before, after := [TStart(root, [Attr(Name([], XMLNS), default)], false, false)], [TEnd(root)];
            var kept := KeptOf(rules, h, Name(url, f), attrs, []);
            && kept == Element(Name(url, f), attrs, [])
            && RunAll(Initial(Deliver(PrintTokens(map[], Around(before, kept, after)), None, []))).err == Syntax
  {
    var n, a, rootAttr, after := Name(url, f), Attr(Name(XMLNS, v), url), Attr(Name([], XMLNS), default), [TEnd(root)];
    KeptSize(rules, h, d, n, [a], []);
    assert Element(n, [a], []) == [OnStart(n, [a]), OnEnd(n)];
    var kept := [OnStart(n, [a]), OnEnd(n)];
    var toks := Around([TStart(root, [rootAttr], false, false)], kept, after);
    var more := [TStart(n, [a], false, false), TEnd(n)] + after;
    assert AsTokens(kept) == [TStart(n, [a], false, false), TEnd(n)];
    assert toks == [TStart(root, [rootAttr], false, false)] + more && toks[1..] == more;
    InnerWritable(n, v, a, more, root);
    SelfDeclaredTags(n, v, root, rootAttr, more, a);
    DocReadBack(toks);
  }

  lemma SelfDeclaredTags(n: Name, v: seq<Byte>, root: Name, rootAttr: Attr, more: seq<Token>, a: Attr)
    requires NcName(root.local) && NcName(n.local) && n.local != XMLNS && DeclaresUrl(a, v, n.space)
    requires rootAttr.name == Name([], XMLNS) && Legal(rootAttr.value) && rootAttr.value != n.space
    requires |more| > 1 && more[0] == TStart(n, [a], false, false) && more[1] == TEnd(n) && Writable(map[], more)
    ensures var toks := [TStart(root, [rootAttr], false, false)] + more;
            Writable(map[], toks) && ReadDoc(toks).err == Syntax
  {
    var toks := [TStart(root, [rootAttr], false, false)] + more;
    NcXmlns();
    SplitQualified([], XMLNS);
    SplitQualified([], root.local);
    OneAttrOnly(map[], EMPTY, Name([], root.local), rootAttr);
    var o := Open(EMPTY, Name([], root.local), [rootAttr]);
    assert WrittenName(map[], root) == Name([], root.local);
    assert toks[1..] == more;
    SelfDeclaredInner(n, v, a, o.scope, more);
    assert PrintAttrs(map[], [rootAttr], false).prefixes == map[];
    StartThen(map[], EMPTY, toks, o, map[]);
  }

  lemma InnerWritable(n: Name, v: seq<Byte>, a: Attr, more: seq<Token>, root: Name)
    requires NcName(n.local) && NcName(root.local) && DeclaresUrl(a, v, n.space)
    requires more == [TStart(n, [a], false, false), TEnd(n)] + [TEnd(root)]
    ensures Writable(map[], more)
  {
    var known := map[n.space := v];
    NcXmlns();
    OneAttrOnly(map[], EMPTY, n, a);
    assert Qualified(known, root) in {root.local, v + ":" + root.local} && Qualified(known, n) == v + ":" + n.local;
    TwoEnds(known, n, root);
    assert more[1..] == [TEnd(n), TEnd(root)];
  }

  lemma TwoEnds(prefixes: Prefixes, n: Name, root: Name)
    requires IsName(Qualified(prefixes, n)) && IsName(Qualified(prefixes, root))
    ensures Writable(prefixes, [TEnd(n), TEnd(root)])
  {
    assert [TEnd(n), TEnd(root)][1..] == [TEnd(root)] && [TEnd(root)][1..] == [];
    assert Writable(prefixes, [TEnd(root)]);
  }

  lemma SelfDeclaredInner(n: Name, v: seq<Byte>, a: Attr, sc: Scope, toks: seq<Token>)
    requires NcName(n.local) && n.local != XMLNS && DeclaresUrl(a, v, n.space) && n.space != Default(sc.ns)
    requires |toks| > 1 && toks[0] == TStart(n, [a], false, false) && toks[1] == TEnd(n)
    ensures ReadBack(map[], sc, toks, []).err == Syntax
  {
    SplitQualified([], n.local);
    SplitQualified(v, n.local);
    DeclarationWritten(a, v, n.space);
    OneAttrOnly(map[], sc, Name([], n.local), a);
    var o := Open(sc, Name([], n.local), [a]);
    assert o.name.space == Default(sc.ns);
    EndDiffers(map[], sc, toks, o, map[n.space := v]);
  }

  lemma DeclarationWritten(a: Attr, v: seq<Byte>, url: seq<Byte>)
    requires DeclaresUrl(a, v, url)
    ensures WrittenAttr(map[], a) == [a] && PrintAttr(map[], a, false).prefixes == map[url := v]
  {
    NcXmlns();
    SplitQualified(XMLNS, v);
  }

  // ---- An attribute without a prefix ----

  /** A name that ends where neither a space nor an equals sign follows is not that of an attribute. */
  lemma NoAttrName(w: seq<Byte>, c: Byte, name: Name, rest: seq<Item>)
    requires IsName(w) && !InName(c) && !IsSpace(c) && c != '='
    ensures StartTail(Deliver(" ", None, Deliver(w, None, Deliver([c], None, rest))), name, [])
         == Lexed(Broken, Some(Syntax), rest)
  {
    var s2 := Deliver([c], None, rest);
    var s1 := Deliver(w, None, s2);
    GetcOne(c, rest);
    GetcDeliver(w, s2);
    assert w[0] in w;
    SkipOne(s1);
    ReadWholeName(w, s2);
    assert SkipSpace(s2).0 == s2;
  }

  /** A namespace that is not a name, and that has no prefix. */
  predicate Unprefixed(prefixes: Prefixes, w: seq<Byte>, c: Byte, url: seq<Byte>) {
    && IsName(w) && !InName(c) && !IsSpace(c) && c != '=' && w + [c] <= url
    && Lookup(prefixes, url) == [] && url != XML_URL && url != XMLNS
  }

  lemma PrefixedOut(prefixes: Prefixes, a: Attr, raw: bool)
    requires Lookup(prefixes, a.name.space) == [] && a.name.space !in {[], XML_URL, XMLNS} && a.name.local != []
    ensures PrintAttr(prefixes, a, raw).out
         == " " + (a.name.space + ":" + a.name.local) + "=\"" + Written(a.value, raw) + "\""
  {
  }

  lemma FirstByteOut(w: seq<Byte>, c: Byte, url: seq<Byte>, local: seq<Byte>)
    requires w + [c] <= url
    ensures url + ":" + local == w + ([c] + (url[|w| + 1..] + (":" + local)))
  {
    assert url == w + [c] + url[|w| + 1..];
  }

  lemma StartBytes(prefixes: Prefixes, n: Name, a: Attr, attrs: seq<Attr>, autoClose: bool, raw: bool, w: seq<Byte>,
      c: Byte) returns (tail: seq<Byte>)
    requires Unprefixed(prefixes, w, c, a.name.space) && a.name.local != []
    ensures PrintStart(prefixes, n, [a] + attrs, autoClose, raw).out
         == "<" + Qualified(prefixes, n) + (" " + (w + ([c] + tail)))
  {
    var first, name := PrintAttr(prefixes, a, raw), a.name.space[|w| + 1..] + (":" + a.name.local);
    var more, end, value := PrintAttrs(first.prefixes, attrs, raw).out, if autoClose then "/>"
        else ">", Written(a.value, raw);
    assert ([a] + attrs)[1..] == attrs;
    PrefixedOut(prefixes, a, raw);
    FirstByteOut(w, c, a.name.space, a.name.local);
    OutParts(w, [c], name, "=\"", value, "\"", more, end);
    TagParts("<", Qualified(prefixes, n), first.out, more, end);
    tail := name + "=\"" + value + "\"" + more + end;
  }

  lemma OutParts(w: seq<Byte>, c: seq<Byte>, name: seq<Byte>, eq: seq<Byte>, value: seq<Byte>, quote: seq<Byte>,
      more: seq<Byte>, end: seq<Byte>)
    ensures " " + (w + (c + name)) + eq + value + quote + more + end
         == " " + (w + (c + (name + eq + value + quote + more + end)))
  {
  }

  lemma TagParts(open: seq<Byte>, q: seq<Byte>, first: seq<Byte>, more: seq<Byte>, end: seq<Byte>)
    ensures open + q + (first + more) + end == open + q + (first + more + end)
  {
  }

  /**
   * In any scope, a tag whose first attribute is in a namespace that has no prefix, and that is not a name itself, is
   * written so that it is not even read: the namespace is written for the prefix.
   */
  lemma UnprefixedIsMalformed(prefixes: Prefixes, sc: Scope, n: Name, a: Attr, attrs: seq<Attr>, autoClose: bool,
      raw: bool, toks: seq<Token>, w: seq<Byte>, c: Byte)
    requires IsName(Qualified(prefixes, n)) && Unprefixed(prefixes, w, c, a.name.space) && a.name.local != []
    requires toks != [] && toks[0] == TStart(n, [a] + attrs, autoClose, raw)
    ensures RunAll(Reading(Deliver(PrintTokens(prefixes, toks), None, []), sc)) == Ran([], Syntax)
  {
    var q, p := Qualified(prefixes, n), PrintOne(prefixes, toks[0]);
    var tail := StartBytes(prefixes, n, a, attrs, autoClose, raw, w, c);
    var rest := Deliver(PrintTokens(p.prefixes, toks[1..]), None, []);
    PrintedHead(prefixes, toks);
    DeliverTag(q, w, c, tail, rest);
    var s := Deliver(" ", None, Deliver(w, None, Deliver([c], None, Deliver(tail, None, rest))));
    GetcOne(' ', Deliver(w, None, Deliver([c], None, Deliver(tail, None, rest))));
    MarkupStart(q, s);
    NoAttrName(w, c, SplitName(q), Deliver(tail, None, rest));
  }

  lemma DeliverTag(q: seq<Byte>, w: seq<Byte>, c: Byte, tail: seq<Byte>, rest: seq<Item>)
    ensures Deliver("<" + q + (" " + (w + ([c] + tail))), None, rest)
         == Deliver("<", None, Deliver(q, None,
              Deliver(" ", None, Deliver(w, None, Deliver([c], None, Deliver(tail, None, rest))))))
  {
    DeliverAppend("<" + q, " " + (w + ([c] + tail)), None, rest);
    DeliverAppend("<", q, None, Deliver(" " + (w + ([c] + tail)), None, rest));
    DeliverAppend(" ", w + ([c] + tail), None, rest);
    DeliverAppend(w, [c] + tail, None, rest);
    DeliverAppend([c], tail, None, rest);
  }

  /** The same after any other tokens. */
  lemma {:induction false} MalformedAfter(prefixes: Prefixes, sc: Scope, before: seq<Token>, text: seq<Byte>, a: Attr,
      more: seq<Token>, w: seq<Byte>, c: Byte)
    requires Writable(prefixes, before) && Legal(text) && TopIsStart(sc)
    requires more != [] && more[0].TStart? && IsName(Qualified(KnownAfter(prefixes, before), more[0].name))
    requires more[0].attrs == [a] && Unprefixed(KnownAfter(prefixes, before), w, c, a.name.space) && a.name.local != []
    ensures RunAll(Reading(Input(prefixes, before + more, text), sc)).err == Syntax
    decreases |before|, |text|
  {
    var toks := before + more;
    if before != [] && before[0].TChars? {
      var d := before[0].data;
      PrintedHead(prefixes, toks);
      assert toks[1..] == before[1..] + more;
      DeliverAppend(Escape(text), Escape(d), None, Deliver(PrintTokens(prefixes, toks[1..]), None, []));
      EscapeAppend(text, d);
      MalformedAfter(prefixes, sc, before[1..], text + d, a, more, w, c);
    } else if text != [] {
      TagHead(prefixes, toks);
      RunText(text, sc, Deliver(PrintTokens(prefixes, toks), None, []));
      MalformedAfter(prefixes, sc, before, [], a, more, w, c);
    } else if before == [] {
      assert toks == more && [a] + [] == [a];
      UnprefixedIsMalformed(prefixes, sc, more[0].name, a, [], more[0].autoClose, more[0].raw, more, w, c);
    } else if before[0].TStart? {
      MalformedAfterStart(prefixes, sc, before, a, more, w, c);
    } else {
      MalformedAfterEnd(prefixes, sc, before, a, more, w, c);
    }
  }

  lemma {:induction false} MalformedAfterStart(prefixes: Prefixes, sc: Scope, before: seq<Token>, a: Attr,
      more: seq<Token>, w: seq<Byte>, c: Byte)
    requires Writable(prefixes, before) && TopIsStart(sc) && before != [] && before[0].TStart?
    requires more != [] && more[0].TStart? && IsName(Qualified(KnownAfter(prefixes, before), more[0].name))
    requires more[0].attrs == [a] && Unprefixed(KnownAfter(prefixes, before), w, c, a.name.space) && a.name.local != []
    ensures RunAll(Reading(Input(prefixes, before + more, []), sc)).err == Syntax
    decreases |before|, 0, 0
  {
    var toks := before + more;
    PrintedHead(prefixes, toks);
    assert toks[1..] == before[1..] + more;
    var t := before[0];
    var written, known := WrittenAttrs(prefixes, t.attrs, t.raw), PrintAttrs(prefixes, t.attrs, t.raw).prefixes;
    RunStart(prefixes, sc, t.name, t.attrs, t.autoClose, t.raw, Deliver(PrintTokens(known, toks[1..]), None, []));
    var inner := if t.autoClose then sc else Open(sc, WrittenName(prefixes, t.name), written).scope;
    MalformedAfter(known, inner, before[1..], [], a, more, w, c);
  }

  lemma {:induction false} MalformedAfterEnd(prefixes: Prefixes, sc: Scope, before: seq<Token>, a: Attr,
      more: seq<Token>, w: seq<Byte>, c: Byte)
    requires Writable(prefixes, before) && TopIsStart(sc) && before != [] && before[0].TEnd?
    requires more != [] && more[0].TStart? && IsName(Qualified(KnownAfter(prefixes, before), more[0].name))
    requires more[0].attrs == [a] && Unprefixed(KnownAfter(prefixes, before), w, c, a.name.space) && a.name.local != []
    ensures RunAll(Reading(Input(prefixes, before + more, []), sc)).err == Syntax
    decreases |before|, 0, 0
  {
    var toks := before + more;
    PrintedHead(prefixes, toks);
    assert toks[1..] == before[1..] + more;
    var n := before[0].name;
    var closed := Close(sc, WrittenName(prefixes, n));
    RunEnd(prefixes, sc, n, Deliver(PrintTokens(prefixes, toks[1..]), None, []));
    if closed.ok {
      MalformedAfter(prefixes, closed.scope, before[1..], [], a, more, w, c);
    }
  }

  /**
   * An unknown element with an attribute in its own namespace, whose declaration stood on an element that is known and
   * has been left out: it is kept whole, and makes any file that it is written to malformed.
   */
  lemma LostDeclarationIsMalformed<D>(rules: Rules<D>, h: Handlers.Stack<D>, d: D, name: Name, a: Attr,
      before: seq<Token>, after: seq<Token>, w: seq<Byte>, c: Byte)
    requires |h.state| == |h.names| && rules.isParent(h.current) && rules.child(h.current, name, h.calls) == Some(d)
    requires OnlyRecords(rules, d) && IsName(Qualified(KnownAfter(map[], before), name)) && a.name.local != []
    requires Writable(map[], before) && a.name.space == name.space
    requires Unprefixed(KnownAfter(map[], before), w, c, name.space)
    ensures var kept := KeptOf(rules, h, name, [a], []);
            && kept == Element(name, [a], [])
            && RunAll(Initial(Deliver(PrintTokens(map[], Around(before, kept, after)), None, []))).err == Syntax
  {
    KeptSize(rules, h, d, name, [a], []);
    var more := AsTokens(KeptOf(rules, h, name, [a], [])) + after;
    assert more[0] == TStart(name, [a], false, false);
    MalformedAfter(map[], EMPTY, before, [], a, more, w, c);
  }

  // ---- The file the encoder writes ----

  /**
   * A model that declares the default namespace and one prefix, and is named bare, with an empty element in it: every
   * name comes back, the bare ones in the default namespace.
   */
  lemma ModelIsRead(m: seq<Byte>, core: seq<Byte>, v: seq<Byte>, url: seq<Byte>, n: Name)
    requires NcName(m) && m != XMLNS && NcName(n.local) && n.local != XMLNS && n.space in {url, []}
    requires DeclaresUrl(Attr(Name(XMLNS, v), url), v, url) && Legal(core) && core !in {[], XMLNS, XML_URL, url}
    ensures var attrs := [Attr(Name([], XMLNS), core), Attr(Name(XMLNS, v), url)];
            var before, after := [TStart(Name([], m), attrs, false, false)], [TEnd(Name([], m))];
            var toks := Around(before, Element(n, [], []), after);
            var e := if n.space == [] then Name(core, n.local) else n;
            && DeclaredOnce(toks)
            && RunAll(Initial(Deliver(PrintTokens(map[], toks), None, [])))
               == Ran([OnStart(Name(core, m), attrs)] + Element(e, [], []) + [OnEnd(Name(core, m))], EOF)
  {
    var attrs := [Attr(Name([], XMLNS), core), Attr(Name(XMLNS, v), url)];
    var root, element := Name([], m), Element(n, [], []);
    assert element == [OnStart(n, []), OnEnd(n)];
    var toks := Around([TStart(root, attrs, false, false)], element, [TEnd(root)]);
    assert toks == [TStart(root, attrs, false, false), TStart(n, [], false, false), TEnd(n), TEnd(root)];
    PrefixedOnce(attrs, root, n, v, core, url, toks);
    DeclaredOnceExactly(toks);
    PrefixedMeans(attrs, root, n, v, core, url, toks);
  }

  /** An unknown element of the other namespace survives in such a model. */
  lemma PrefixedSurvives(m: seq<Byte>, core: seq<Byte>, v: seq<Byte>, url: seq<Byte>, f: seq<Byte>)
    requires NcName(m) && m != XMLNS && NcName(f) && f != XMLNS && DeclaresUrl(Attr(Name(XMLNS, v), url), v, url)
    requires Legal(core) && core !in {[], XMLNS, XML_URL, url}
    ensures var attrs := [Attr(Name([], XMLNS), core), Attr(Name(XMLNS, v), url)];
            var before, after := [TStart(Name([], m), attrs, false, false)], [TEnd(Name([], m))];
            var element := Element(Name(url, f), [], []);
            RunAll(Initial(Deliver(PrintTokens(map[], Around(before, element, after)), None, [])))
            == Ran([OnStart(Name(core, m), attrs)] + element + [OnEnd(Name(core, m))], EOF)
  {
    ModelIsRead(m, core, v, url, Name(url, f));
  }

  /** One without a namespace does not: it comes back in the default namespace. */
  lemma BareIsTakenIn(m: seq<Byte>, core: seq<Byte>, v: seq<Byte>, url: seq<Byte>, f: seq<Byte>)
    requires NcName(m) && m != XMLNS && NcName(f) && f != XMLNS && DeclaresUrl(Attr(Name(XMLNS, v), url), v, url)
    requires Legal(core) && core !in {[], XMLNS, XML_URL, url}
    ensures var attrs := [Attr(Name([], XMLNS), core), Attr(Name(XMLNS, v), url)];
            var before, after := [TStart(Name([], m), attrs, false, false)], [TEnd(Name([], m))];
            var element, other := Element(Name([], f), [], []), Element(Name(core, f), [], []);
            RunAll(Initial(Deliver(PrintTokens(map[], Around(before, element, after)), None, [])))
            == Ran([OnStart(Name(core, m), attrs)] + other + [OnEnd(Name(core, m))], EOF)
  {
    ModelIsRead(m, core, v, url, Name([], f));
  }

  lemma OneUsed(used: Urls, a: Attr)
    ensures UsedAll(used, [a]) == Used(used, a)
  {
    assert [a][1..] == [];
    assert UsedAll(Used(used, a), []) == Used(used, a);
  }

  lemma TwoDeclarations(attrs: seq<Attr>, core: seq<Byte>, v: seq<Byte>, url: seq<Byte>)
    requires attrs == [Attr(Name([], XMLNS), core), Attr(Name(XMLNS, v), url)] && v != [] && core != []
    ensures Declared(map[], attrs) == map[[] := core, v := url] && UsedAll({}, attrs) == {core, url}
    ensures PrintAttrs(map[], attrs, false).prefixes == map[url := v]
  {
    var a, b := attrs[0], attrs[1];
    assert attrs[1..] == [b] && [b][1..] == [];
    var ns: Prefixes := map[[] := core];
    assert XMLNS != [] && Bound(map[], a) == ns && Used({}, a) == {core};
    OneUsed({core}, b);
    assert Declared(ns, [b]) == Bound(ns, b);
    assert PrintAttr(map[], a, false).prefixes == map[];
    OneAttrOnly(map[], EMPTY, NO_NAME, b);
  }

  lemma PrefixedOnce(attrs: seq<Attr>, root: Name, n: Name, v: seq<Byte>, core: seq<Byte>, url: seq<Byte>,
      toks: seq<Token>)
    requires attrs == [Attr(Name([], XMLNS), core), Attr(Name(XMLNS, v), url)] && DeclaresUrl(attrs[1], v, url)
    requires NcName(root.local) && root.local != XMLNS && root.space == [] && NcName(n.local) && n.local != XMLNS
    requires Legal(core) && core !in {[], XMLNS, XML_URL, url} && n.space in {url, []}
    requires toks == [TStart(root, attrs, false, false), TStart(n, [], false, false), TEnd(n), TEnd(root)]
    ensures DeclaredOnce(toks) && NonePrefixesItself(toks)
  {
    var ns, used, known: Prefixes := map[[] := core, v := url], {core, url}, map[url := v];
    TwoDeclarations(attrs, core, v, url);
    TwoOnce(attrs, core, v, url, ns);
    assert HasPrefix(ns, url) by {
      assert v in ns && v != [] && ns[v] == url;
    }
    var out := [Frame(root, map[])];
    InnerOnce(known, ns, used, out, n, toks[1..], root);
    assert [] + out == out;
  }

  lemma TwoOnce(attrs: seq<Attr>, core: seq<Byte>, v: seq<Byte>, url: seq<Byte>, ns: Prefixes)
    requires attrs == [Attr(Name([], XMLNS), core), Attr(Name(XMLNS, v), url)] && DeclaresUrl(attrs[1], v, url)
    requires Legal(core) && core !in {[], XMLNS, XML_URL, url}
    ensures AttrsOnce(map[], {}, attrs, false, ns)
  {
    var b := attrs[1];
    NcXmlns();
    assert attrs[1..] == [b] && [b][1..] == [];
    assert PrintAttr(map[], attrs[0], false).prefixes == map[] && Used({}, attrs[0]) == {core};
    assert AttrOnce(map[], {core}, b, false, ns);
    assert AttrsOnce(map[], {core}, [b], false, ns);
    assert AttrOnce(map[], {}, attrs[0], false, ns);
  }

  lemma InnerOnce(known: Prefixes, ns: Prefixes, used: Urls, out: seq<Frame>, n: Name, toks: seq<Token>, root: Name)
    requires Nameable(ns, n) && out == [Frame(root, map[])]
    requires toks == [TStart(n, [], false, false), TEnd(n), TEnd(root)]
    ensures Once(known, ns, used, out, toks)
  {
    var in1 := Frame(n, ns);
    assert toks[1..] == [TEnd(n), TEnd(root)] && toks[1..][1..] == [TEnd(root)] && [TEnd(root)][1..] == [];
    assert out[..0] == [] && (out + [in1])[..1] == out;
    assert Once(known, map[], used, [], []);
    assert Once(known, ns, used, out, [TEnd(root)]);
    assert Once(known, ns, used, out + [in1], toks[1..]);
  }

  lemma PrefixedMeans(attrs: seq<Attr>, root: Name, n: Name, v: seq<Byte>, core: seq<Byte>, url: seq<Byte>,
      toks: seq<Token>)
    requires attrs == [Attr(Name([], XMLNS), core), Attr(Name(XMLNS, v), url)]
    requires v != [] && core != [] && url != [] && n.local != XMLNS
    requires root.local != XMLNS && root.space == []
    requires toks == [TStart(root, attrs, false, false), TStart(n, [], false, false), TEnd(n), TEnd(root)]
    ensures var r, e := Name(core, root.local), if n.space == [] then Name(core, n.local) else n;
            EventsOf(toks, Meanings(NO_SCOPES, toks), []) == [OnStart(r, attrs)] + Element(e, [], []) + [OnEnd(r)]
  {
    var ns := map[[] := core, v := url];
    var r, e := Name(core, root.local), if n.space == [] then Name(core, n.local) else n;
    TwoDeclarations(attrs, core, v, url);
    assert Default(ns) == core && toks[1..] == [TStart(n, [], false, false), TEnd(n), TEnd(root)];
    InnerMeanings(ns, n, root, r, e, toks[1..]);
    assert AfterToken(NO_SCOPES, toks[0]) == Scopes(ns, [map[]]);
    assert Meanings(NO_SCOPES, toks) == [r] + [e, e, r] == [r, e, e, r];
    FourEvents(attrs, root, n, r, e, toks, [r, e, e, r]);
  }

  lemma InnerMeanings(ns: Prefixes, n: Name, root: Name, r: Name, e: Name, toks: seq<Token>)
    requires e == Meaning(ns, n) && root.space == [] && root.local != XMLNS && r == Name(Default(ns), root.local)
    requires toks == [TStart(n, [], false, false), TEnd(n), TEnd(root)]
    ensures Meanings(Scopes(ns, [map[]]), toks) == [e, e, r]
  {
    var s1 := Scopes(ns, [map[]]);
    var s2 := AfterToken(s1, toks[0]);
    assert Declared(ns, []) == ns && s2.ns == ns && s2.outer[..1] == s1.outer;
    assert toks[1..] == [TEnd(n), TEnd(root)] && toks[1..][1..] == [TEnd(root)] && [TEnd(root)][1..] == [];
    assert AfterToken(s2, TEnd(n)) == s1;
    assert Meanings(s1, [TEnd(root)]) == [r] + [];
    assert Meanings(s2, toks[1..]) == [e] + [r];
  }

  lemma FourEvents(attrs: seq<Attr>, root: Name, n: Name, r: Name, e: Name, toks: seq<Token>, means: seq<Name>)
    requires toks == [TStart(root, attrs, false, false), TStart(n, [], false, false), TEnd(n), TEnd(root)]
    requires means == [r, e, e, r]
    ensures EventsOf(toks, means, []) == [OnStart(r, attrs)] + Element(e, [], []) + [OnEnd(r)]
  {
    var t1, t2, t3 := toks[1..], [TEnd(n), TEnd(root)], [TEnd(root)];
    assert t1[1..] == t2 && t2[1..] == t3 && t3[1..] == [];
    assert means[1..] == [e, e, r] && [e, e, r][1..] == [e, r] && [e, r][1..] == [r] && [r][1..] == [];
    assert EventsOf(t3, [r], []) == [OnEnd(r)];
    assert EventsOf(t2, [e, r], []) == [OnEnd(e), OnEnd(r)];
    assert EventsOf(t1, [e, e, r], []) == [OnStart(e, []), OnEnd(e), OnEnd(r)];
  }
}
