/**
 * What handlers are called with, and the errors that come of it, read off the calls alone: which handlers are open
 * after some calls is told by playing their starts and ends, and no other state is looked at.
 */
module Calls {
  import opened Wrappers
  import opened Bytes
  import opened Lexing
  import opened Events
  import opened Errors
  import opened Handlers

  /** The open handlers, outermost first: the one at the top, and those started and not ended. */
  ghost function Open<D>(top: D, calls: seq<Call<D>>): (r: seq<D>)
    ensures r != []
  {
    [top] + if Replay(calls).Some? then Replay(calls).value else []
  }

  ghost function Innermost<D>(top: D, calls: seq<Call<D>>): D {
    Open(top, calls)[|Open(top, calls)| - 1]
  }

  /** The handlers agree with their calls. */
  ghost predicate Steady<D>(top: D, h: Handlers.Stack<D>) {
    |h.state| == |h.names| && !h.crashed && Replay(h.calls).Some? && Open(top, h.calls) == h.state + [h.current]
  }

  lemma TopIsSteady<D>(top: D)
    ensures Steady(top, TopLevel(top))
  {
    assert Open(top, []) == [top];
  }

  lemma SteadyStep<D>(rules: Rules<D>, top: D, h: Handlers.Stack<D>, ev: Event)
    requires Steady(top, h) && !React(rules, h, ev).crashed
    ensures Steady(top, React(rules, h, ev))
  {
    var r := React(rules, h, ev);
    if r.calls != h.calls {
      var c := r.calls[|h.calls|];
      assert r.calls == h.calls + [c];
      SteadyCall(top, h, r, c);
    }
  }

  /** How the handlers move with each call. */
  ghost predicate Moves<D>(h: Handlers.Stack<D>, r: Handlers.Stack<D>, c: Call<D>) {
    match c
    case Started(d, _) => r.state == h.state + [h.current] && r.current == d
    case Ended(d) =>
      var n := |h.state| - 1;
      h.current == d && h.state != [] && r.state == h.state[..n] && r.current == h.state[n]
    case Text(_, _) => r.state == h.state && r.current == h.current
    case Appended(_, _) => r.state == h.state && r.current == h.current
  }

  lemma SteadyCall<D>(top: D, h: Handlers.Stack<D>, r: Handlers.Stack<D>, c: Call<D>)
    requires Steady(top, h) && Moves(h, r, c) && r.calls == h.calls + [c] && |r.state| == |r.names| && !r.crashed
    ensures Steady(top, r)
  {
    ReplayOne(h.calls, c);
    if c.Ended? {
      OpenShrinks(top, Replay(h.calls).value, h.state, h.current);
    } else if c.Started? {
      OpenGrows(top, Replay(h.calls).value, c.d);
    }
  }

  lemma OpenShrinks<D>(top: D, open: seq<D>, state: seq<D>, current: D)
    requires [top] + open == state + [current] && state != []
    ensures open != [] && open[|open| - 1] == current
    ensures [top] + open[..|open| - 1] == state[..|state| - 1] + [state[|state| - 1]]
  {
    assert |open| == |state| && ([top] + open)[|open|] == current;
    assert [top] + open[..|open| - 1] == ([top] + open)[..|open|] == state;
  }

  lemma OpenGrows<D>(top: D, open: seq<D>, d: D)
    ensures [top] + (open + [d]) == [top] + open + [d]
  {
  }

  // ---- Errors ----

  /** The levels that handlers add, outermost first: that of the outermost comes last. */
  function Levels<D>(rules: Rules<D>, calls: seq<Call<D>>, open: seq<D>): seq<Level> {
    if open == [] then []
    else
      var level := rules.level(open[0], calls);
      Levels(rules, calls, open[1..]) + if level.Some? then [level.value] else []
  }

  lemma {:induction false} LevelsOutward<D>(rules: Rules<D>, calls: seq<Call<D>>, open: seq<D>)
    ensures Outward(rules, calls, open) == Levels(rules, calls, open)
    decreases |open|
  {
    if |open| > 1 {
      var n := |open| - 1;
      LevelsOutward(rules, calls, open[..n]);
      LevelsOutward(rules, calls, open[1..]);
      LevelsOutward(rules, calls, open[1..][..n - 1]);
      assert open[1..][..n - 1] == open[..n][1..];
      var last, first := rules.level(open[n], calls), rules.level(open[0], calls);
      Assoc(if last.Some? then [last.value] else [], Levels(rules, calls, open[..n][1..]),
            if first.Some? then [first.value] else []);
    } else if |open| == 1 {
      assert open[..0] == [] && open[1..] == [];
    }
  }

  /** Errors with more levels around them. */
  function Around(errs: seq<Leaf>, levels: seq<Level>): (r: seq<Leaf>)
    ensures |r| == |errs|
    ensures forall i :: 0 <= i < |r| ==> r[i] == Leaf(errs[i].cause, errs[i].levels + levels, errs[i].path)
  {
    seq(|errs|, i requires 0 <= i < |errs| => Leaf(errs[i].cause, errs[i].levels + levels, errs[i].path))
  }

  /**
   * The errors of calls: for every handler started, those its Start reports, each within the levels of the handlers
   * that were open, from its parent outwards.
   */
  ghost function StartErrors<D>(rules: Rules<D>, top: D, calls: seq<Call<D>>): seq<Leaf>
    decreases |calls|
  {
    if calls == [] then []
    else
      var n := |calls| - 1;
      StartErrors(rules, top, calls[..n]) +
      match calls[n]
      case Started(d, attrs) =>
        Around(rules.start(d, attrs, calls[..n]), Levels(rules, calls, Open(top, calls[..n])))
      case _ => []
  }

  lemma StartErrorsOne<D>(rules: Rules<D>, top: D, calls: seq<Call<D>>, c: Call<D>)
    ensures StartErrors(rules, top, calls + [c]) == StartErrors(rules, top, calls) +
              if c.Started? then Around(rules.start(c.d, c.attrs, calls), Levels(rules, calls + [c], Open(top, calls)))
              else []
  {
    assert (calls + [c])[..|calls|] == calls;
  }

  lemma WrappedIsAround<D>(rules: Rules<D>, calls: seq<Call<D>>, open: seq<D>, errs: seq<Leaf>)
    ensures WrapAll(rules, calls, open, errs) == Around(errs, Levels(rules, calls, open))
  {
    WrapAllAddsPath(rules, calls, open, errs);
    LevelsOutward(rules, calls, open);
  }

  /** Every event adds exactly the errors of the handlers it starts. */
  lemma ErrorsStep<D>(rules: Rules<D>, top: D, h: Handlers.Stack<D>, ev: Event)
    requires Steady(top, h) && h.errs == StartErrors(rules, top, h.calls)
    ensures React(rules, h, ev).errs == StartErrors(rules, top, React(rules, h, ev).calls)
  {
    var r := React(rules, h, ev);
    if r.calls != h.calls {
      var c := r.calls[|h.calls|];
      assert r.calls == h.calls + [c];
      StartErrorsOne(rules, top, h.calls, c);
      if c.Started? {
        WrappedIsAround(rules, r.calls, h.state + [h.current], rules.start(c.d, c.attrs, h.calls));
      } else {
        assert StartErrors(rules, top, h.calls) + [] == StartErrors(rules, top, h.calls);
      }
    }
  }

  // ---- Starts and texts ----

  /** What a start tag calls: the start of the child that the innermost handler offers; or the tag is appended. */
  lemma StartCalls<D>(rules: Rules<D>, top: D, h: Handlers.Stack<D>, name: Name, attrs: seq<Attr>)
    requires Steady(top, h)
    ensures var inner := Innermost(top, h.calls);
            React(rules, h, OnStart(name, attrs)).calls == h.calls +
              if rules.isParent(inner) then
                if rules.child(inner, name, h.calls).Some? then
                  [Started(rules.child(inner, name, h.calls).value, attrs)]
                else []
              else if rules.takesTokens(inner) then [Appended(inner, OnStart(name, attrs))]
              else []
  {
    assert h.calls + [] == h.calls;
  }

  function Texts<D>(calls: seq<Call<D>>): seq<Call<D>>
    decreases |calls|
  {
    if calls == [] then []
    else
      var n := |calls| - 1;
      Texts(calls[..n]) + if calls[n].Text? then [calls[n]] else []
  }

  /** The text among some events, each for the handler that is innermost when it comes, if that one takes text. */
  ghost function TextFor<D>(rules: Rules<D>, top: D, h: Handlers.Stack<D>, events: seq<Event>): seq<Call<D>>
    requires |h.state| == |h.names|
    decreases |events|
  {
    if events == [] then []
    else
      var inner := Innermost(top, h.calls);
      (if events[0].OnChar? && rules.takesText(inner) then [Text(inner, events[0].data)] else [])
      + TextFor(rules, top, React(rules, h, events[0]), events[1..])
  }

  lemma TextStep<D>(rules: Rules<D>, top: D, h: Handlers.Stack<D>, ev: Event)
    requires Steady(top, h)
    ensures var inner := Innermost(top, h.calls);
            Texts(React(rules, h, ev).calls) == Texts(h.calls) +
              if ev.OnChar? && rules.takesText(inner) then [Text(inner, ev.data)] else []
  {
    var r := React(rules, h, ev);
    if r.calls != h.calls {
      var c := r.calls[|h.calls|];
      assert r.calls == h.calls + [c] && r.calls[..|h.calls|] == h.calls;
    }
    assert Texts(h.calls) + [] == Texts(h.calls);
  }

  lemma {:induction false} CrashStays<D>(rules: Rules<D>, h: Handlers.Stack<D>, events: seq<Event>)
    requires |h.state| == |h.names| && h.crashed
    ensures ReactAll(rules, h, events).crashed
    decreases |events|
  {
    if events != [] {
      CrashStays(rules, React(rules, h, events[0]), events[1..]);
    }
  }

  /**
   * Over all events, whatever they are: the errors are those of the handlers started, and the text is delivered in
   * order, all of it to which there was a handler that takes text.
   */
  lemma {:induction false} RunAccounted<D>(rules: Rules<D>, top: D, h: Handlers.Stack<D>, events: seq<Event>)
    requires Steady(top, h) && h.errs == StartErrors(rules, top, h.calls) && !ReactAll(rules, h, events).crashed
    ensures var r := ReactAll(rules, h, events);
            && Steady(top, r) && r.errs == StartErrors(rules, top, r.calls)
            && Texts(r.calls) == Texts(h.calls) + TextFor(rules, top, h, events)
    decreases |events|
  {
    if events == [] {
      assert Texts(h.calls) + [] == Texts(h.calls);
    } else {
      var h1 := React(rules, h, events[0]);
      if h1.crashed {
        CrashStays(rules, h1, events[1..]);
      }
      SteadyStep(rules, top, h, events[0]);
      ErrorsStep(rules, top, h, events[0]);
      TextStep(rules, top, h, events[0]);
      RunAccounted(rules, top, h1, events[1..]);
      var inner := Innermost(top, h.calls);
      Assoc(Texts(h.calls), if events[0].OnChar? && rules.takesText(inner) then [Text(inner, events[0].data)] else [],
            TextFor(rules, top, h1, events[1..]));
    }
  }
}
