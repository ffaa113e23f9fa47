/** decodeModelFile: the parser drives the handlers until the input ends, or, in strict mode, until the first error. */
module ModelFile {
  import opened Wrappers
  import opened Bytes
  import opened BufferedReader
  import opened Lexing
  import opened Namespaces
  import opened Events
  import opened Errors
  import opened Handlers
  import opened Calls
  import opened XmlDecoder
  import opened PrintedLexing

  /**
   * The error decodeModelFile returns: none, the parser's, or the handlers' (a list of more than one only in lenient
   * mode).
   */
  datatype Outcome = Ok | Failed(err: Error) | Faults(leaves: seq<Leaf>) | Panic

  function Conclude<D>(h: Handlers.Stack<D>, ret: Option<Error>, strict: bool): Outcome {
    if h.crashed then Panic
    else if ret.Some? && ret != Some(EOF) then Failed(ret.value)
    else if h.errs == [] then Ok
    else if strict || |h.errs| == 1 then Faults([h.errs[0]])
    else Faults(h.errs)
  }

  function Advance<D>(rules: Rules<D>, h: Handlers.Stack<D>, ev: Option<Event>): (r: Handlers.Stack<D>)
    requires |h.state| == |h.names|
    ensures |r.state| == |r.names|
  {
    if ev.Some? then React(rules, h, ev.value) else h
  }

  datatype Decoded<D> = Decoded(h: Handlers.Stack<D>, outcome: Outcome)

  /** The whole decoding of a file, from any point on. */
  function Decode<D>(rules: Rules<D>, strict: bool, st: State, h: Handlers.Stack<D>): (d: Decoded<D>)
    requires |h.state| == |h.names|
    ensures |d.h.state| == |d.h.names|
    decreases Budget(st)
  {
    var r := Step(st);
    var h1 := Advance(rules, h, r.ev);
    if h1.crashed || r.ret.Some? || (strict && h1.errs != []) then Decoded(h1, Conclude(h1, r.ret, strict))
    else
      StepProgress(st);
      Decode(rules, strict, r.st, h1)
  }

  method DecodeModelFile<D>(rd: Source, rules: Rules<D>, top: D, strict: bool) returns (outcome: Outcome, m: Machine<D>)
    modifies rd
    ensures fresh(m) && m.rules == rules
    ensures Decoded(m.Abs(), outcome) == Decode(rules, strict, Initial(Stream(old(rd.chunks), 0)), TopLevel(top))
  {
    var x := new Decoder(rd);
    m := new Machine(rules, top);
    ghost var all := Decode(rules, strict, x.Abs(), m.Abs());
    while true
      invariant x.Valid() && fresh(x) && fresh(x.r) && fresh(x.r.buf) && fresh(x.elems) && fresh(x.elems.nodes) &&
          x.r.rd == rd
      invariant fresh(m) && m.rules == rules && |m.state| == |m.names|
      invariant Decode(rules, strict, x.Abs(), m.Abs()) == all
      decreases Budget(x.Abs())
    {
      var err := DecodeToken(x, m, strict);
      if m.crashed || err.Some? || (strict && m.errs != []) {
        outcome := Result(m, err, strict);
        return;
      }
    }
  }

  /** One turn of the loop: a token, and what the handlers do with it. */
  method DecodeToken<D>(x: Decoder, m: Machine<D>, strict: bool) returns (err: Option<Error>)
    requires x.Valid() && |m.state| == |m.names|
    modifies x, x.r, x.r.buf, x.r.rd, x.elems, x.elems.nodes, m
    ensures x.Valid() && fresh(x.elems.nodes - old(x.elems.nodes)) && |m.state| == |m.names|
    ensures old(Decode(m.rules, strict, x.Abs(), m.Abs())) ==
              if m.crashed || err.Some? || (strict && m.errs != [])
                  then Decoded(m.Abs(), Conclude(m.Abs(), err, strict))
              else Decode(m.rules, strict, x.Abs(), m.Abs())
    ensures err.None? ==> Budget(x.Abs()) < old(Budget(x.Abs()))
  {
    ghost var st := x.Abs();
    var ev;
    ev, err := x.RawToken();
    if err.None? {
      StepProgress(st);
    }
    if ev.Some? {
      m.Dispatch(ev.value);
    }
  }

  /** The last lines of decodeModelFile. */
  method Result<D>(m: Machine<D>, ret: Option<Error>, strict: bool) returns (outcome: Outcome)
    ensures outcome == Conclude(m.Abs(), ret, strict)
  {
    if m.crashed { return Panic; }
    var err := ret;
    if err == Some(EOF) {
      err := None;
    }
    if err.Some? { return Failed(err.value); }
    if m.errs == [] { return Ok; }
    outcome := if strict || |m.errs| == 1 then Faults([m.errs[0]]) else Faults(m.errs);
  }

  // ---- The handler stack over every run ----

  lemma AdvanceFollows<D>(rules: Rules<D>, st: State, h: Handlers.Stack<D>)
    requires Inv(st) && Follows(h, Names(st)) && !Advance(rules, h, Step(st).ev).crashed
    ensures Step(st).ret.None? ==> Inv(Step(st).st) && Follows(Advance(rules, h, Step(st).ev), Names(Step(st).st))
    ensures Step(st).ret.Some? ==> Advance(rules, h, Step(st).ev) == h
  {
    StepInv(st);
    var r := Step(st);
    match r.ev {
      case Some(OnStart(name, attrs)) => StartFollows(rules, h, name, attrs, Names(st));
      case Some(OnEnd(name)) => EndFollows(rules, h, name, Names(r.st));
      case Some(OnChar(data)) => CharFollows(rules, h, data, Names(st));
      case None =>
    }
  }

  /**
   * For every input and all handlers: at the clean end of a file every started handler has been ended, exactly once,
   * after the handlers started later than it.
   */
  lemma {:induction false} AllHandlersEnded<D>(rules: Rules<D>, strict: bool, st: State, h: Handlers.Stack<D>)
    requires Inv(st) && Follows(h, Names(st)) && !h.crashed
    ensures var d := Decode(rules, strict, st, h);
            d.outcome.Ok? || (d.outcome.Faults? && !strict) ==>
              HandlerNames(d.h) == [] && Replay(d.h.calls) == Some([])
    decreases Budget(st)
  {
    var r := Step(st);
    var h1 := Advance(rules, h, r.ev);
    if !h1.crashed {
      AdvanceFollows(rules, st, h);
      if r.ret == Some(EOF) {
        EofIsClean(st);
        assert HandlerNames(h) == [];
        assert |h.names| == 0 && HandlerStack(h) == [];
      } else if r.ret.None? && !(strict && h1.errs != []) {
        StepProgress(st);
        AllHandlersEnded(rules, strict, r.st, h1);
      }
    }
  }

  lemma TopFollows<D>(top: D, input: seq<Item>)
    ensures Inv(Initial(input)) && Follows(TopLevel(top), Names(Initial(input)))
  {
    assert HandlerNames(TopLevel(top)) == [] && HandlerStack(TopLevel(top)) == [];
  }

  // ---- Strict and lenient ----

  lemma {:induction false} ErrsGrow<D>(rules: Rules<D>, strict: bool, st: State, h: Handlers.Stack<D>)
    requires |h.state| == |h.names|
    ensures h.errs <= Decode(rules, strict, st, h).h.errs
    decreases Budget(st)
  {
    var r := Step(st);
    var h1 := Advance(rules, h, r.ev);
    assert h.errs <= h1.errs;
    if !(h1.crashed || r.ret.Some? || (strict && h1.errs != [])) {
      StepProgress(st);
      ErrsGrow(rules, strict, r.st, h1);
    }
  }

  /**
   * Strict decoding succeeds exactly when lenient decoding does, and otherwise, unless the file is broken, returns
   * the first of the errors that lenient decoding returns. If it reports a broken file, so does lenient decoding.
   */
  lemma {:induction false} StrictIsFirstError<D>(rules: Rules<D>, st: State, h: Handlers.Stack<D>)
    requires |h.state| == |h.names| && h.errs == [] && !h.crashed
    ensures var strict, lenient := Decode(rules, true, st, h).outcome, Decode(rules, false, st, h).outcome;
            && (strict.Ok? <==> lenient.Ok?)
            && (lenient.Faults? ==> lenient.leaves != [] && strict == Faults([lenient.leaves[0]]))
            && (!strict.Faults? ==> strict == lenient)
    decreases Budget(st)
  {
    var r := Step(st);
    var h1 := Advance(rules, h, r.ev);
    if !h1.crashed && r.ret.None? {
      StepProgress(st);
      if h1.errs == [] {
        StrictIsFirstError(rules, r.st, h1);
      } else {
        ErrsGrow(rules, false, r.st, h1);
        assert Decode(rules, false, r.st, h1).h.errs[0] == h1.errs[0];
        var ret := LenientConclusion(rules, r.st, h1);
      }
    }
  }

  /** Lenient decoding always reads on to the parser's error, and its outcome is made of all the errors. */
  lemma {:induction false} LenientConclusion<D>(rules: Rules<D>, st: State, h: Handlers.Stack<D>)
      returns (ret: Option<Error>)
    requires |h.state| == |h.names|
    ensures var d := Decode(rules, false, st, h); d.outcome == Conclude(d.h, ret, false)
    decreases Budget(st)
  {
    var r := Step(st);
    var h1 := Advance(rules, h, r.ev);
    if h1.crashed || r.ret.Some? {
      ret := r.ret;
    } else {
      StepProgress(st);
      ret := LenientConclusion(rules, r.st, h1);
    }
  }

  // ---- When the handler stack underflows ----

  /** Some nameless element ends while no handler is started, in strict decoding before any handler reports an error. */
  predicate Underflows<D>(rules: Rules<D>, strict: bool, h: Handlers.Stack<D>, events: seq<Event>)
    requires |h.state| == |h.names|
    decreases |events|
  {
    events != [] &&
    ((HandlerNames(h) == [] && events[0] == OnEnd(NO_NAME)) ||
     var h1 := React(rules, h, events[0]);
     !(strict && h1.errs != []) && Underflows(rules, strict, h1, events[1..]))
  }

  /** Decoding panics exactly when the handler stack underflows. */
  lemma {:induction false} PanicExactly<D>(rules: Rules<D>, strict: bool, st: State, h: Handlers.Stack<D>)
    requires Inv(st) && Follows(h, Names(st)) && !h.crashed && (strict ==> h.errs == [])
    ensures Decode(rules, strict, st, h).outcome.Panic? <==> Underflows(rules, strict, h, RunAll(st).events)
    decreases Budget(st)
  {
    var r := Step(st);
    var h1 := Advance(rules, h, r.ev);
    if r.ev.Some? {
      CrashExactly(rules, h, r.ev.value, Names(st));
    }
    if r.ret.None? {
      StepProgress(st);
      if r.ev.Some? {
        assert ([r.ev.value] + RunAll(r.st).events)[1..] == RunAll(r.st).events;
      }
      if !h1.crashed && !(strict && h1.errs != []) {
        AdvanceFollows(rules, st, h);
        PanicExactly(rules, strict, r.st, h1);
      }
    } else {
      StepInv(st);
    }
  }

  /** A file in which no element has an empty name never makes the handler stack underflow. */
  lemma {:induction false} NamedNeverUnderflows<D>(rules: Rules<D>, strict: bool, h: Handlers.Stack<D>,
      events: seq<Event>)
    requires |h.state| == |h.names| && OnEnd(NO_NAME) !in events
    ensures !Underflows(rules, strict, h, events)
    decreases |events|
  {
    if events != [] {
      NamedNeverUnderflows(rules, strict, React(rules, h, events[0]), events[1..]);
    }
  }

  /** The file <:/> does: a top-level handler that rejects the nameless element is popped when it ends. */
  lemma NamelessUnderflows<D>(rules: Rules<D>, top: D, strict: bool)
    requires rules.isParent(top) && rules.child(top, NO_NAME, []).None?
    ensures Decode(rules, strict, Initial(Deliver("<:/>", None, [])), TopLevel(top)).outcome.Panic?
  {
    var st := Initial(Deliver("<:/>", None, []));
    GetcDeliver("<:/>", []);
    GetcDeliver(":/>", []);
    GetcDeliver("/>", []);
    GetcDeliver(">", []);
    assert "<:/>"[1..] == ":/>" && ":/>"[1..] == "/>" && "/>"[1..] == ">" && ">"[1..] == [];
    ReadWholeName(":", Deliver("/>", None, []));
    DeliverAppend(":", "/>", None, []);
    assert ":" + "/>" == ":/>";
    assert NextToken(st.input) == Lexed(Start(NO_NAME, [], true), None, []);
    var st1 := Step(st).st;
    assert Step(st).ev == Some(OnStart(NO_NAME, []));
    CloseAfterOpen(st.scope, NO_NAME, []);
    assert Step(st1).ev == Some(OnEnd(NO_NAME));
    StepProgress(st);
  }

  // ---- Whole files ----

  /** A file that is read to its end without a panic or a broken token has ended every handler it started. */
  lemma FileEndsHandlers<D>(rules: Rules<D>, top: D, strict: bool, input: seq<Item>)
    ensures var d := Decode(rules, strict, Initial(input), TopLevel(top));
            d.outcome.Ok? || (d.outcome.Faults? && !strict) ==>
              HandlerNames(d.h) == [] && Replay(d.h.calls) == Some([])
  {
    TopFollows(top, input);
    AllHandlersEnded(rules, strict, Initial(input), TopLevel(top));
  }

  /** A file makes the decoder panic exactly when its events underflow the handlers. */
  lemma FilePanicsExactly<D>(rules: Rules<D>, top: D, strict: bool, input: seq<Item>)
    ensures Decode(rules, strict, Initial(input), TopLevel(top)).outcome.Panic?
       <==> Underflows(rules, strict, TopLevel(top), RunAll(Initial(input)).events)
  {
    TopFollows(top, input);
    PanicExactly(rules, strict, Initial(input), TopLevel(top));
  }

  /** A file decodes strictly exactly when it decodes leniently, and else fails with the first of the lenient errors. */
  lemma FileStrictIsFirst<D>(rules: Rules<D>, top: D, input: seq<Item>)
    ensures var strict, lenient := Decode(rules, true, Initial(input), TopLevel(top)).outcome,
                                   Decode(rules, false, Initial(input), TopLevel(top)).outcome;
            && (strict.Ok? <==> lenient.Ok?)
            && (lenient.Faults? ==> lenient.leaves != [] && strict == Faults([lenient.leaves[0]]))
            && (!strict.Faults? ==> strict == lenient)
  {
    StrictIsFirstError(rules, Initial(input), TopLevel(top));
  }

  // ---- What is called, and what is returned ----

  /** Lenient decoding that does not panic is the handlers' reaction to all events of the parser. */
  lemma {:induction false} DecodeReactsToAll<D>(rules: Rules<D>, st: State, h: Handlers.Stack<D>)
    requires |h.state| == |h.names| && !h.crashed && !Decode(rules, false, st, h).h.crashed && Inv(st)
    ensures Decode(rules, false, st, h).h == ReactAll(rules, h, RunAll(st).events)
    decreases Budget(st)
  {
    var r := Step(st);
    var h1 := Advance(rules, h, r.ev);
    StepInv(st);
    if !h1.crashed && r.ret.None? {
      StepProgress(st);
      DecodeReactsToAll(rules, r.st, h1);
      if r.ev.Some? {
        assert ([r.ev.value] + RunAll(r.st).events)[1..] == RunAll(r.st).events;
      }
    }
  }

  /** Strict decoding is their reaction to the events up to some point: that of the first error, if there is one. */
  lemma {:induction false} StrictReactsToSome<D>(rules: Rules<D>, st: State, h: Handlers.Stack<D>) returns (k: nat)
    requires |h.state| == |h.names| && !h.crashed && h.errs == [] && !Decode(rules, true, st, h).h.crashed && Inv(st)
    ensures k <= |RunAll(st).events| && Decode(rules, true, st, h).h == ReactAll(rules, h, RunAll(st).events[..k])
    ensures Decode(rules, true, st, h).h.errs == [] ==> k == |RunAll(st).events|
    decreases Budget(st)
  {
    var r := Step(st);
    var h1 := Advance(rules, h, r.ev);
    StepInv(st);
    k := 0;
    if !h1.crashed && r.ret.None? {
      StepProgress(st);
      var more := RunAll(r.st).events;
      if r.ev.Some? {
        assert RunAll(st).events == [r.ev.value] + more;
      }
      if h1.errs == [] {
        var l := StrictReactsToSome(rules, r.st, h1);
        k := if r.ev.Some? then l + 1 else l;
        if r.ev.Some? {
          assert ([r.ev.value] + more)[..k] == [r.ev.value] + more[..l];
          assert ([r.ev.value] + more[..l])[1..] == more[..l];
        }
      } else {
        k := 1;
        assert ([r.ev.value] + more)[..1] == [r.ev.value] && [r.ev.value][1..] == [];
      }
    }
  }

  /**
   * For every file and all handlers, decoded without a panic: the errors are those that the Start of each started
   * handler reported, in order and within the levels of its parents; and in lenient decoding all text is delivered, in
   * order, that comes while the innermost handler takes text.
   */
  lemma FileAccounted<D>(rules: Rules<D>, top: D, strict: bool, input: seq<Item>)
    requires !Decode(rules, strict, Initial(input), TopLevel(top)).h.crashed
    ensures var d, events := Decode(rules, strict, Initial(input), TopLevel(top)), RunAll(Initial(input)).events;
            && d.h.errs == StartErrors(rules, top, d.h.calls)
            && (!strict ==> Texts(d.h.calls) == TextFor(rules, top, TopLevel(top), events))
  {
    var st, h := Initial(input), TopLevel(top);
    TopFollows(top, input);
    TopIsSteady(top);
    assert Texts(h.calls) == [] &&
        [] + TextFor(rules, top, h, RunAll(st).events) == TextFor(rules, top, h, RunAll(st).events);
    if strict {
      var k := StrictReactsToSome(rules, st, h);
      RunAccounted(rules, top, h, RunAll(st).events[..k]);
    } else {
      DecodeReactsToAll(rules, st, h);
      RunAccounted(rules, top, h, RunAll(st).events);
    }
  }

  /**
   * What lenient decoding returns: a panic if the handlers underflowed; the parser's error if it ended with any but the
   * end of the input; else nothing if there is no error, and all the errors if there are any.
   */
  lemma {:induction false} LenientReturnsAll<D>(rules: Rules<D>, st: State, h: Handlers.Stack<D>)
    requires |h.state| == |h.names| && !h.crashed && Inv(st)
    ensures var d, e := Decode(rules, false, st, h), RunAll(st).err;
            && (d.outcome.Panic? <==> d.h.crashed)
            && (d.outcome == Ok <==> !d.h.crashed && e == EOF && d.h.errs == [])
            && (forall x :: d.outcome == Failed(x) <==> !d.h.crashed && e == x && x != EOF)
            && (forall leaves :: d.outcome == Faults(leaves) <==>
                  !d.h.crashed && e == EOF && leaves != [] && leaves == d.h.errs)
    decreases Budget(st)
  {
    var r := Step(st);
    var h1 := Advance(rules, h, r.ev);
    StepInv(st);
    if !h1.crashed && r.ret.None? {
      StepProgress(st);
      LenientReturnsAll(rules, r.st, h1);
    } else if |h1.errs| == 1 {
      assert [h1.errs[0]] == h1.errs;
    }
  }

  /** The same of strict decoding, which returns the first error, and the parser's only if there is none before it. */
  lemma {:induction false} StrictReturnsFirst<D>(rules: Rules<D>, st: State, h: Handlers.Stack<D>)
    requires |h.state| == |h.names| && !h.crashed && h.errs == [] && Inv(st)
    ensures var d, e := Decode(rules, true, st, h), RunAll(st).err;
            && (d.outcome.Panic? <==> d.h.crashed)
            && (d.outcome == Ok <==> !d.h.crashed && e == EOF && d.h.errs == [])
            && (forall x :: d.outcome == Failed(x) <==> !d.h.crashed && d.h.errs == [] && e == x && x != EOF)
            && (forall leaves :: d.outcome == Faults(leaves) <==>
                  !d.h.crashed && d.h.errs != [] && leaves == [d.h.errs[0]])
    decreases Budget(st)
  {
    var r := Step(st);
    var h1 := Advance(rules, h, r.ev);
    StepInv(st);
    if !h1.crashed && r.ret.None? && h1.errs == [] {
      StepProgress(st);
      StrictReturnsFirst(rules, r.st, h1);
    }
  }

  /** For whole files: lenient decoding returns the errors of all handlers started. */
  lemma FileReturnsAll<D>(rules: Rules<D>, top: D, input: seq<Item>)
    ensures var d := Decode(rules, false, Initial(input), TopLevel(top));
            forall leaves :: d.outcome == Faults(leaves) ==>
              leaves != [] && leaves == StartErrors(rules, top, d.h.calls)
  {
    TopFollows(top, input);
    LenientReturnsAll(rules, Initial(input), TopLevel(top));
    if !Decode(rules, false, Initial(input), TopLevel(top)).h.crashed {
      FileAccounted(rules, top, false, input);
    }
  }
}
