/** Elements no extension knows: how their tokens are recorded while decoding, and written while encoding. */
module UnknownElements {
  import opened Wrappers
  import opened Bytes
  import opened Lexing
  import opened Namespaces
  import opened Events
  import opened Handlers
  import opened Printer
  import opened RoundTrip

  /** The start and end tags among some events. */
  function Tags(events: seq<Event>): seq<Event>
    decreases |events|
  {
    if events == [] then []
    else if events[0].OnChar? then Tags(events[1..])
    else [events[0]] + Tags(events[1..])
  }

  /** What a handler that takes tokens is given for some events inside its element. */
  function Recorded<D>(d: D, events: seq<Event>): seq<Call<D>>
    decreases |events|
  {
    if events == [] then []
    else if events[0].OnChar? then Recorded(d, events[1..])
    else [Appended(d, events[0])] + Recorded(d, events[1..])
  }

  /** A handler that only records: it takes tokens, offers no children and takes no text. */
  predicate OnlyRecords<D>(rules: Rules<D>, d: D) {
    rules.takesTokens(d) && !rules.isParent(d) && !rules.takesText(d)
  }

  /**
   * Inside an unknown element every tag is recorded, in order, and no text, as long as no element in it has its name.
   */
  lemma {:induction false} ContentRecorded<D>(rules: Rules<D>, h: Handlers.Stack<D>, events: seq<Event>)
    requires |h.state| == |h.names| && OnlyRecords(rules, h.current) && OnEnd(h.currentName) !in events
    ensures ReactAll(rules, h, events) == h.(calls := h.calls + Recorded(h.current, events))
    decreases |events|
  {
    if events == [] {
      assert h.calls + [] == h.calls;
    } else {
      ContentRecorded(rules, React(rules, h, events[0]), events[1..]);
      Assoc(h.calls, [Appended(h.current, events[0])], Recorded(h.current, events[1..]));
    }
  }

  lemma {:induction false} ReactAllAppend<D>(rules: Rules<D>, h: Handlers.Stack<D>, a: seq<Event>, b: seq<Event>)
    requires |h.state| == |h.names|
    ensures ReactAll(rules, h, a + b) == ReactAll(rules, ReactAll(rules, h, a), b)
    decreases |a|
  {
    if a == [] {
      assert a + b == b;
    } else {
      assert (a + b)[1..] == a[1..] + b;
      ReactAllAppend(rules, React(rules, h, a[0]), a[1..], b);
    }
  }

  /**
   * A whole unknown element leaves the handlers as they were; its handler has been started, given the tags of the
   * content, and ended.
   */
  lemma ElementRecorded<D>(rules: Rules<D>, h: Handlers.Stack<D>, d: D, name: Name, attrs: seq<Attr>,
      content: seq<Event>)
    requires |h.state| == |h.names| && rules.isParent(h.current) && rules.child(h.current, name, h.calls) == Some(d)
    requires OnlyRecords(rules, d) && OnEnd(name) !in content
    ensures ReactAll(rules, h, [OnStart(name, attrs)] + content + [OnEnd(name)])
         == h.(calls := h.calls + [Started(d, attrs)] + Recorded(d, content) + [Ended(d)],
               errs := React(rules, h, OnStart(name, attrs)).errs)
  {
    var h1 := React(rules, h, OnStart(name, attrs));
    ContentRecorded(rules, h1, content);
    var h2 := ReactAll(rules, h1, content);
    ElementSteps(rules, h, name, attrs, content);
    assert h2.state[..|h.state|] == h.state && h2.names[..|h.names|] == h.names;
    assert ReactAll(rules, h2, [OnEnd(name)]) == React(rules, h2, OnEnd(name));
  }

  lemma ElementSteps<D>(rules: Rules<D>, h: Handlers.Stack<D>, name: Name, attrs: seq<Attr>, content: seq<Event>)
    requires |h.state| == |h.names|
    ensures ReactAll(rules, h, [OnStart(name, attrs)] + content + [OnEnd(name)])
         == ReactAll(rules, ReactAll(rules, React(rules, h, OnStart(name, attrs)), content), [OnEnd(name)])
  {
    ReactAllAppend(rules, h, [OnStart(name, attrs)] + content, [OnEnd(name)]);
    ReactAllAppend(rules, h, [OnStart(name, attrs)], content);
    assert ReactAll(rules, h, [OnStart(name, attrs)]) == React(rules, h, OnStart(name, attrs));
  }

  // ---- An end tag of the same name inside ----

  /** How many events there are before the first end tag of that name. */
  function FirstEnd(name: Name, events: seq<Event>): (k: nat)
    ensures k <= |events| && OnEnd(name) !in events[..k] && (k < |events| ==> events[k] == OnEnd(name))
    decreases |events|
  {
    if events == [] || events[0] == OnEnd(name) then 0
    else
      var k := 1 + FirstEnd(name, events[1..]);
      assert events[..k] == [events[0]] + events[1..][..k - 1];
      k
  }

  lemma {:induction false} CallsGrow<D>(rules: Rules<D>, h: Handlers.Stack<D>, events: seq<Event>)
    requires |h.state| == |h.names|
    ensures h.calls <= ReactAll(rules, h, events).calls
    decreases |events|
  {
    if events != [] {
      var h1 := React(rules, h, events[0]);
      assert h.calls <= h1.calls;
      CallsGrow(rules, h1, events[1..]);
    }
  }

  /** Whatever the content, the handler is called with its tags up to the first end tag of its name, and then ended. */
  lemma ElementCalls<D>(rules: Rules<D>, h: Handlers.Stack<D>, d: D, name: Name, attrs: seq<Attr>, content: seq<Event>)
    requires |h.state| == |h.names| && rules.isParent(h.current) && rules.child(h.current, name, h.calls) == Some(d)
    requires OnlyRecords(rules, d)
    ensures h.calls + [Started(d, attrs)] + Recorded(d, content[..FirstEnd(name, content)]) + [Ended(d)]
         <= ReactAll(rules, h, [OnStart(name, attrs)] + content + [OnEnd(name)]).calls
  {
    var k := FirstEnd(name, content);
    var all, rest := content + [OnEnd(name)], (content + [OnEnd(name)])[k + 1..];
    assert content[..k] == all[..k] && all[k] == OnEnd(name);
    assert [OnStart(name, attrs)] + content + [OnEnd(name)]
        == [OnStart(name, attrs)] + content[..k] + [OnEnd(name)] + rest;
    ReactAllAppend(rules, h, [OnStart(name, attrs)] + content[..k] + [OnEnd(name)], rest);
    ElementRecorded(rules, h, d, name, attrs, content[..k]);
    CallsGrow(rules, ReactAll(rules, h, [OnStart(name, attrs)] + content[..k] + [OnEnd(name)]), rest);
  }

  lemma {:induction false} RecordedAppend<D>(d: D, a: seq<Event>, b: seq<Event>)
    ensures Recorded(d, a + b) == Recorded(d, a) + Recorded(d, b)
    decreases |a|
  {
    if a == [] {
      assert a + b == b;
    } else {
      assert (a + b)[1..] == a[1..] + b;
      RecordedAppend(d, a[1..], b);
    }
  }

  /** An unknown element is recorded whole exactly if no end tag of its own name lies inside. */
  lemma RecordedExactly<D>(rules: Rules<D>, h: Handlers.Stack<D>, d: D, name: Name, attrs: seq<Attr>,
      content: seq<Event>)
    requires |h.state| == |h.names| && rules.isParent(h.current) && rules.child(h.current, name, h.calls) == Some(d)
    requires OnlyRecords(rules, d)
    ensures ReactAll(rules, h, [OnStart(name, attrs)] + content + [OnEnd(name)]).calls
              == h.calls + [Started(d, attrs)] + Recorded(d, content) + [Ended(d)]
            <==> OnEnd(name) !in content
  {
    if OnEnd(name) !in content {
      ElementRecorded(rules, h, d, name, attrs, content);
    } else {
      var inside, more := SplitAtEnd(d, name, content);
      ElementCalls(rules, h, d, name, attrs, content);
      Differ(h.calls + [Started(d, attrs)], inside, Ended(d), Appended(d, OnEnd(name)), more, [Ended(d)],
             ReactAll(rules, h, [OnStart(name, attrs)] + content + [OnEnd(name)]).calls);
    }
  }

  lemma SplitAtEnd<D>(d: D, name: Name, content: seq<Event>) returns (inside: seq<Call<D>>, more: seq<Call<D>>)
    requires OnEnd(name) in content
    ensures inside == Recorded(d, content[..FirstEnd(name, content)])
    ensures Recorded(d, content) == inside + ([Appended(d, OnEnd(name))] + more)
  {
    var k := FirstEnd(name, content);
    assert k < |content| by {
      assert content[..|content|] == content;
    }
    inside, more := Recorded(d, content[..k]), Recorded(d, content[k..][1..]);
    RecordedAppend(d, content[..k], content[k..]);
    assert content == content[..k] + content[k..];
  }

  lemma Differ<T>(a: seq<T>, b: seq<T>, x: T, y: T, c: seq<T>, d: seq<T>, all: seq<T>)
    requires a + b + [x] <= all && x != y
    ensures all != a + (b + ([y] + c)) + d
  {
    assert (a + b + [x])[|a| + |b|] == all[|a| + |b|] && (a + (b + ([y] + c)) + d)[|a| + |b|] == y;
  }

  /** UnknownTokensDecoder */
  class TokensDecoder {
    var name: Name
    var tokens: seq<Event>

    constructor (name: Name)
      ensures this.name == name && tokens == []
    {
      this.name, tokens := name, [];
    }

    method Start(attrs: seq<Attr>)
      modifies this`tokens
      ensures tokens == old(tokens) + [OnStart(name, attrs)]
    {
      AppendToken(OnStart(name, attrs));
    }

    method End()
      modifies this`tokens
      ensures tokens == old(tokens) + [OnEnd(name)]
    {
      AppendToken(OnEnd(name));
    }

    method AppendToken(t: Event)
      modifies this`tokens
      ensures tokens == old(tokens) + [t]
    {
      tokens := tokens + [t];
    }

    /** Takes the calls made on this handler, one after the other. */
    method Take<D>(calls: seq<Call<D>>)
      modifies this`tokens
      ensures tokens == old(tokens) + Kept(name, calls)
    {
      for i := 0 to |calls|
        invariant tokens + Kept(name, calls[i..]) == old(tokens) + Kept(name, calls)
      {
        assert calls[i..][1..] == calls[i + 1..];
        match calls[i]
        case Started(_, attrs) => Start(attrs);
        case Ended(_) => End();
        case Appended(_, t) => AppendToken(t);
        case Text(_, _) =>
      }
    }
  }

  /** The tokens as they are printed while the encoder has these flags. */
  function Flags(events: seq<Event>, autoClose: bool, raw: bool): (r: seq<Token>)
    ensures |r| == |events| && forall i :: 0 <= i < |r| ==> r[i] == Flagged(events[i], autoClose, raw)
  {
    seq(|events|, i requires 0 <= i < |events| => Flagged(events[i], autoClose, raw))
  }

  /** With both flags off. */
  function AsTokens(events: seq<Event>): (r: seq<Token>)
    ensures |r| == |events|
  {
    Flags(events, false, false)
  }

  /** UnknownTokens.Marshal3MF: every token is encoded, in order, under the flags the encoder has. */
  method Marshal(p: XmlPrinter, tokens: seq<Event>)
    modifies p`out, p`attrPrefix
    ensures p.out == old(p.out) + PrintTokens(old(p.attrPrefix), Flags(tokens, p.autoClose, p.skipAttrEscape))
  {
    ghost var was, toks := p.out, Flags(tokens, p.autoClose, p.skipAttrEscape);
    ghost var all := PrintTokens(p.attrPrefix, toks);
    for i := 0 to |tokens|
      invariant p.out + PrintTokens(p.attrPrefix, toks[i..]) == was + all
    {
      assert toks[i..][1..] == toks[i + 1..];
      ghost var one := PrintOne(p.attrPrefix, toks[i]);
      Assoc(p.out, one.out, PrintTokens(one.prefixes, toks[i + 1..]));
      EncodeToken(p, tokens[i]);
    }
    assert toks[|tokens|..] == [];
  }

  /** Any.encode, over unknown elements: the first one is written without an error, which ends the loop. */
  method EncodeAny(p: XmlPrinter, elements: seq<seq<Event>>)
    modifies p`out, p`attrPrefix
    ensures p.out == old(p.out) + PrintTokens(old(p.attrPrefix),
                       Flags(if elements == [] then [] else elements[0], p.autoClose, p.skipAttrEscape))
  {
    if |elements| > 0 {
      Marshal(p, elements[0]);
      return;
    }
    assert Flags([], p.autoClose, p.skipAttrEscape) == [];
  }

  function Joined(elements: seq<seq<Event>>): seq<Event> {
    if elements == [] then [] else elements[0] + Joined(elements[1..])
  }

  /** The prefixes known once tokens have been printed. */
  function KnownAfter(prefixes: Prefixes, toks: seq<Token>): Prefixes
    decreases |toks|
  {
    if toks == [] then prefixes else KnownAfter(PrintOne(prefixes, toks[0]).prefixes, toks[1..])
  }

  lemma {:induction false} PrintAppend(prefixes: Prefixes, a: seq<Token>, b: seq<Token>)
    ensures PrintTokens(prefixes, a + b) == PrintTokens(prefixes, a) + PrintTokens(KnownAfter(prefixes, a), b)
    decreases |a|
  {
    if a == [] {
      assert a + b == b;
    } else {
      assert (a + b)[1..] == a[1..] + b;
      PrintAppend(PrintOne(prefixes, a[0]).prefixes, a[1..], b);
      var p := PrintOne(prefixes, a[0]);
      Assoc(p.out, PrintTokens(p.prefixes, a[1..]), PrintTokens(KnownAfter(prefixes, a), b));
    }
  }

  /** Of unknown elements, each of which starts with a tag, all are written exactly if there is not more than one. */
  lemma AllWrittenExactly(prefixes: Prefixes, elements: seq<seq<Event>>)
    requires elements != []
    requires forall i :: 0 <= i < |elements| ==> elements[i] != [] && !elements[i][0].OnChar?
    ensures PrintTokens(prefixes, AsTokens(elements[0])) == PrintTokens(prefixes, AsTokens(Joined(elements)))
       <==> |elements| == 1
  {
    var a, b := AsTokens(elements[0]), AsTokens(Joined(elements[1..]));
    assert AsTokens(Joined(elements)) == a + b;
    PrintAppend(prefixes, a, b);
    if |elements| > 1 {
      assert b[0] == Flagged(elements[1][0], false, false);
      assert PrintTokens(KnownAfter(prefixes, a), b)[0] == '<';
    } else {
      assert elements[1..] == [] && PrintTokens(prefixes, a) + [] == PrintTokens(prefixes, a);
    }
  }

  /** The tokens a TokensDecoder with this name keeps of the calls made on it. */
  function Kept<D>(name: Name, calls: seq<Call<D>>): seq<Event>
    decreases |calls|
  {
    if calls == [] then []
    else
      var rest := Kept(name, calls[1..]);
      match calls[0]
      case Started(_, attrs) => [OnStart(name, attrs)] + rest
      case Ended(_) => [OnEnd(name)] + rest
      case Appended(_, t) => [t] + rest
      case Text(_, _) => rest
  }

  lemma {:induction false} KeptAppend<D>(name: Name, a: seq<Call<D>>, b: seq<Call<D>>)
    ensures Kept(name, a + b) == Kept(name, a) + Kept(name, b)
    decreases |a|
  {
    if a == [] {
      assert a + b == b;
    } else {
      assert (a + b)[1..] == a[1..] + b;
      KeptAppend(name, a[1..], b);
    }
  }

  lemma {:induction false} KeptRecorded<D>(name: Name, d: D, events: seq<Event>)
    ensures Kept(name, Recorded(d, events)) == Tags(events)
    decreases |events|
  {
    if events != [] {
      KeptRecorded(name, d, events[1..]);
      if !events[0].OnChar? {
        assert Recorded(d, events)[1..] == Recorded(d, events[1..]);
      }
    }
  }

  /** The tokens kept of an unknown element are its tags, from its own start to its own end. */
  lemma KeptElement<D>(d: D, name: Name, attrs: seq<Attr>, content: seq<Event>)
    ensures Kept(name, [Started(d, attrs)] + Recorded(d, content) + [Ended(d)])
         == [OnStart(name, attrs)] + Tags(content) + [OnEnd(name)]
  {
    KeptAppend(name, [Started(d, attrs)] + Recorded(d, content), [Ended(d)]);
    KeptAppend(name, [Started(d, attrs)], Recorded(d, content));
    KeptRecorded(name, d, content);
    assert Kept(name, [Started(d, attrs)]) == [OnStart(name, attrs)] && Kept<D>(name, [Ended(d)]) == [OnEnd(name)];
  }

  /** What is left when text is dropped nests as it did before, so recorded tags are balanced. */
  lemma {:induction false} TagsNest(open: seq<Name>, events: seq<Event>)
    ensures Nest(open, Tags(events)) == Nest(open, events)
    decreases |events|
  {
    if events != [] {
      match events[0]
      case OnStart(name, _) => TagsNest(open + [name], events[1..]);
      case OnEnd(name) =>
        if open != [] {
          TagsNest(open[..|open| - 1], events[1..]);
        }
      case OnChar(_) => TagsNest(open, events[1..]);
    }
  }

  /** Nothing is lost exactly when there is no text. */
  lemma {:induction false} LosslessIffNoText(content: seq<Event>)
    ensures Tags(content) == content <==> forall e <- content :: !e.OnChar?
    ensures |Tags(content)| <= |content| && (|Tags(content)| == |content| <==> forall e <- content :: !e.OnChar?)
    decreases |content|
  {
    if content != [] {
      LosslessIffNoText(content[1..]);
      assert content == [content[0]] + content[1..];
      if !content[0].OnChar? {
        assert ([content[0]] + Tags(content[1..]))[1..] == Tags(content[1..]);
      }
    }
  }

  // ---- What is kept ----

  /** The calls up to the first end of a handler: those that were made on it. */
  function Own<D>(calls: seq<Call<D>>): seq<Call<D>>
    decreases |calls|
  {
    if calls == [] then []
    else if calls[0].Ended? then [calls[0]]
    else [calls[0]] + Own(calls[1..])
  }

  lemma {:induction false} OwnPrefix<D>(a: seq<Call<D>>, d: D, calls: seq<Call<D>>)
    requires a + [Ended(d)] <= calls && forall c <- a :: !c.Ended?
    ensures Own(calls) == a + [Ended(d)]
    decreases |a|
  {
    if a == [] {
      assert calls[0] == [Ended(d)][0];
    } else {
      assert calls[0] == (a + [Ended(d)])[0] == a[0] && a[0] in a;
      assert (a + [Ended(d)])[1..] == a[1..] + [Ended(d)];
      OwnPrefix(a[1..], d, calls[1..]);
    }
  }

  lemma {:induction false} RecordedOpen<D>(d: D, events: seq<Event>)
    ensures forall c <- Recorded(d, events) :: c.Appended?
    decreases |events|
  {
    if events != [] {
      RecordedOpen(d, events[1..]);
    }
  }

  /** The tokens that the decoder of an unknown element holds once its parent element has gone on. */
  function KeptOf<D>(rules: Rules<D>, h: Handlers.Stack<D>, name: Name, attrs: seq<Attr>,
      content: seq<Event>): seq<Event>
    requires |h.state| == |h.names|
  {
    CallsGrow(rules, h, [OnStart(name, attrs)] + content + [OnEnd(name)]);
    Kept(name, Own(ReactAll(rules, h, [OnStart(name, attrs)] + content + [OnEnd(name)]).calls[|h.calls|..]))
  }

  /** They are its tags, up to the first end tag of its name. */
  lemma KeptUpToEnd<D>(rules: Rules<D>, h: Handlers.Stack<D>, d: D, name: Name, attrs: seq<Attr>, content: seq<Event>)
    requires |h.state| == |h.names| && rules.isParent(h.current) && rules.child(h.current, name, h.calls) == Some(d)
    requires OnlyRecords(rules, d)
    ensures KeptOf(rules, h, name, attrs, content)
         == [OnStart(name, attrs)] + Tags(content[..FirstEnd(name, content)]) + [OnEnd(name)]
  {
    var inside := content[..FirstEnd(name, content)];
    var calls := ReactAll(rules, h, [OnStart(name, attrs)] + content + [OnEnd(name)]).calls;
    ElementCalls(rules, h, d, name, attrs, content);
    var own := [Started(d, attrs)] + Recorded(d, inside);
    RecordedOpen(d, inside);
    DropPrefix(h.calls, own + [Ended(d)], calls);
    assert h.calls + [Started(d, attrs)] + Recorded(d, inside) + [Ended(d)] == h.calls + (own + [Ended(d)]);
    OwnPrefix(own, d, calls[|h.calls|..]);
    KeptElement(d, name, attrs, inside);
  }

  lemma DropPrefix<T>(a: seq<T>, b: seq<T>, all: seq<T>)
    ensures a + b <= all ==> b <= all[|a|..]
  {
    if a + b <= all {
      assert all[|a|..][..|b|] == (a + b)[|a|..] == b;
    }
  }

  /** The whole element is kept exactly if it has no text and no end tag of its own name inside. */
  lemma KeptExactly<D>(rules: Rules<D>, h: Handlers.Stack<D>, d: D, name: Name, attrs: seq<Attr>, content: seq<Event>)
    requires |h.state| == |h.names| && rules.isParent(h.current) && rules.child(h.current, name, h.calls) == Some(d)
    requires OnlyRecords(rules, d)
    ensures KeptOf(rules, h, name, attrs, content) == [OnStart(name, attrs)] + content + [OnEnd(name)] <==>
              OnEnd(name) !in content && forall e <- content :: !e.OnChar?
  {
    var k := FirstEnd(name, content);
    KeptUpToEnd(rules, h, d, name, attrs, content);
    LosslessIffNoText(content[..k]);
    if k == |content| {
      assert content[..k] == content;
      SameMiddle([OnStart(name, attrs)], Tags(content), content, [OnEnd(name)]);
    } else {
      assert |Tags(content[..k])| < |content|;
    }
  }

  lemma SameMiddle<T>(a: seq<T>, b: seq<T>, c: seq<T>, d: seq<T>)
    ensures a + b + d == a + c + d <==> b == c
  {
    if a + b + d == a + c + d {
      assert |b| == |c|;
      assert b == (a + b + d)[|a|..|a| + |b|] == (a + c + d)[|a|..|a| + |c|] == c;
    }
  }

  /** An element inside one of the same name: the outer end tag is not kept, and what is kept is not balanced. */
  lemma NestedSameName<D>(rules: Rules<D>, h: Handlers.Stack<D>, d: D, name: Name)
    requires |h.state| == |h.names| && rules.isParent(h.current) && rules.child(h.current, name, h.calls) == Some(d)
    requires OnlyRecords(rules, d)
    ensures var kept := KeptOf(rules, h, name, [], [OnStart(name, []), OnEnd(name)]);
            kept == [OnStart(name, []), OnStart(name, []), OnEnd(name)] && Nest([], kept) == Some([name])
  {
    var content := [OnStart(name, []), OnEnd(name)];
    KeptUpToEnd(rules, h, d, name, [], content);
    assert content[1..] == [OnEnd(name)];
    assert FirstEnd(name, content) == 1 + FirstEnd(name, content[1..]) == 1;
    assert content[..1] == [OnStart(name, [])];
    assert Tags([OnStart(name, [])]) == [OnStart(name, [])];
    var kept := [OnStart(name, []), OnStart(name, []), OnEnd(name)];
    assert [] + [name] + [name] == [name, name] && [name, name][..1] == [name];
    assert kept[1..] == [OnStart(name, []), OnEnd(name)] && kept[1..][1..] == [OnEnd(name)];
    assert Nest([name, name], [OnEnd(name)]) == Some([name]);
    assert Nest([name], kept[1..]) == Some([name]);
  }
}
