/**
 * The pull parser as a state machine over whole tokens: each step is one call of RawToken.
 * The properties here hold of every run over every input, well formed or not.
 */
module Events {
  import opened Wrappers
  import opened Bytes
  import opened Lexing
  import opened Namespaces

  /** What the parser calls back with. */
  datatype Event =
    | OnStart(name: Name, attrs: seq<Attr>)
    | OnEnd(name: Name)
    | OnChar(data: seq<Byte>)

  /** toClose is the raw name of a self-closing element whose end is still to be reported. */
  datatype State = State(input: seq<Item>, scope: Scope, toClose: Option<Name>, err: Option<Error>)

  datatype Stepped = Stepped(st: State, ev: Option<Event>, ret: Option<Error>)

  function Initial(input: seq<Item>): State {
    State(input, Scope(map[], []), None, None)
  }

  /** The end of the input is an error while elements are open. */
  function AtEnd(e: Error, sc: Scope): Error {
    if e == EOF && sc.stk != [] then Syntax else e
  }

  function Finish(st: State, name: Name): Stepped {
    var c := Close(st.scope, name);
    if c.ok then Stepped(st.(scope := c.scope), Some(OnEnd(c.name)), None)
    else Stepped(st.(scope := c.scope, err := Some(Syntax)), None, Some(Syntax))
  }

  /** What becomes of a token just read. */
  function Handle(st: State, tok: RawToken): Stepped
    requires tok.Broken? ==> st.err.Some?
  {
    match tok
    case Broken =>
      var e := AtEnd(st.err.value, st.scope);
      Stepped(st.(err := Some(e)), None, Some(e))
    case Chars(data) => Stepped(st, Some(OnChar(data)), None)
    case Instruction => Stepped(st, None, None)
    case End(name) => Finish(st, name)
    case Start(name, attrs, empty) =>
      var o := Open(st.scope, name, attrs);
      Stepped(st.(scope := o.scope, toClose := if empty then Some(name) else st.toClose),
          Some(OnStart(o.name, o.attrs)), None)
  }

  /** RawToken */
  function Step(st: State): Stepped {
    if st.err.Some? then
      var e := AtEnd(st.err.value, st.scope);
      Stepped(st.(err := Some(e)), None, Some(e))
    else if st.toClose.Some? then Finish(st.(toClose := None), st.toClose.value)
    else
      var l := NextToken(st.input);
      Handle(st.(input := l.rest, err := l.err), l.tok)
  }

  /** Strictly smaller after every step that returns no error, so that every run ends. */
  function Budget(st: State): nat {
    2 * |st.input| + if st.toClose.Some? then 1 else 0
  }

  lemma StepProgress(st: State)
    requires Step(st).ret.None?
    ensures Budget(Step(st).st) < Budget(st)
  {
  }

  /** The events of a whole run, and the error that ends it. */
  datatype Ran = Ran(events: seq<Event>, err: Error)

  function RunAll(st: State): Ran
    decreases Budget(st)
  {
    var r := Step(st);
    if r.ret.Some? then Ran([], r.ret.value)
    else
      StepProgress(st);
      var t := RunAll(r.st);
      Ran(if r.ev.Some? then [r.ev.value] + t.events else t.events, t.err)
  }

  /** What holds between calls: a self-closing element still to be closed is the innermost one. */
  predicate Inv(st: State) {
    && TopIsStart(st.scope)
    && (st.toClose.Some? ==>
          && st.err.None? && st.scope.stk != []
          && st.scope.stk[0] == StartEntry(Translate(st.scope.ns, st.toClose.value, true)))
  }

  function Names(st: State): seq<Name> {
    OpenNames(st.scope.stk)
  }

  /** Every step that does not fail keeps the invariant, and its event says exactly how the open elements changed. */
  lemma StepInv(st: State)
    requires Inv(st)
    ensures var r := Step(st);
            && (r.ret.None? ==> Inv(r.st))
            && (r.ret.Some? ==> r.ev.None?)
            && match r.ev {
                 case None => r.ret.None? ==> r.st.scope == st.scope
                 case Some(OnChar(_)) => r.st.scope == st.scope
                 case Some(OnStart(name, _)) => Names(r.st) == Names(st) + [name] && CloseTop(r.st.scope) == st.scope
                 case Some(OnEnd(name)) => Names(st) == Names(r.st) + [name] && st.scope.stk != [] &&
                     r.st.scope == CloseTop(st.scope)
               }
  {
    var r := Step(st);
    if r.ev.Some? && r.ev.value.OnStart? {
      var tok := NextToken(st.input).tok;
      CloseAfterOpen(st.scope, tok.name, tok.attrs);
    } else if r.ev.Some? && r.ev.value.OnEnd? {
      CloseIsInnermost(st.scope, if st.toClose.Some? then st.toClose.value else NextToken(st.input).tok.name);
    }
  }

  /** A self-closing element always closes, on the very next call, and leaves the scope before it. */
  lemma SelfClosingCloses(st: State)
    requires Inv(st) && st.err.None? && st.toClose.Some?
    ensures var r := Step(st);
            && r.ret.None? && r.ev.Some? && r.ev.value.OnEnd?
            && r.st == st.(scope := CloseTop(st.scope), toClose := None)
  {
    CloseIsInnermost(st.scope, st.toClose.value);
  }

  /** EOF is returned only when no element is open. */
  lemma EofIsClean(st: State)
    requires Inv(st) && Step(st).ret == Some(EOF)
    ensures Names(st) == [] && Step(st).st.scope == st.scope
  {
  }

  /** n calls in a row, none of which returns an error. */
  predicate Runs(st: State, n: nat)
    decreases n
  {
    n == 0 || (Step(st).ret.None? && Runs(Step(st).st, n - 1))
  }

  function After(st: State, n: nat): State
    requires Runs(st, n)
    decreases n
  {
    if n == 0 then st else After(Step(st).st, n - 1)
  }

  /** None of the n calls closes an element that was open at a depth of less than depth. */
  predicate StaysAbove(st: State, n: nat, depth: nat)
    requires Runs(st, n)
    decreases n
  {
    depth <= |Names(st)| && (n == 0 || StaysAbove(Step(st).st, n - 1, depth))
  }

  lemma UnwindStep(st: State, depth: nat)
    requires Inv(st) && Step(st).ret.None? && depth <= |Names(st)| && depth <= |Names(Step(st).st)|
    ensures Inv(Step(st).st) && Unwind(Step(st).st.scope, depth) == Unwind(st.scope, depth)
  {
    StepInv(st);
  }

  /** However deep a run goes, unwinding the elements it opened gives back the scope it started from. */
  lemma {:induction false} UnwindRun(st: State, n: nat, depth: nat)
    requires Inv(st) && Runs(st, n) && StaysAbove(st, n, depth)
    ensures Unwind(After(st, n).scope, depth) == Unwind(st.scope, depth)
    decreases n
  {
    if n != 0 {
      var next := Step(st).st;
      assert StaysAbove(next, n - 1, depth);
      assert depth <= |Names(next)|;
      UnwindStep(st, depth);
      UnwindRun(next, n - 1, depth);
    }
  }

  /**
   * Namespace scoping is an exact undo log: whatever a run opens, declares, shadows and closes in between,
   * when as many elements are open again as at its start, the prefix map and the stack are those of its start.
   */
  lemma ScopeRestored(st: State, n: nat)
    requires Inv(st) && Runs(st, n)
    requires StaysAbove(st, n, |Names(st)|) && |Names(After(st, n))| == |Names(st)|
    ensures After(st, n).scope == st.scope
  {
    UnwindRun(st, n, |Names(st)|);
  }

  /**
   * An end tag written like its start tag is always accepted: after any run over the content of the element,
   * the same raw name closes it under the same expanded name, and the scope is the one before the start tag.
   */
  lemma MatchingEndAccepted(sc: Scope, name: Name, attrs: seq<Attr>, st: State, n: nat)
    requires TopIsStart(sc) && st == State(st.input, Open(sc, name, attrs).scope, None, None)
    requires Runs(st, n) && StaysAbove(st, n, |Names(st)|) && |Names(After(st, n))| == |Names(st)|
    ensures Close(After(st, n).scope, name) == Closed(true, Open(sc, name, attrs).name, sc)
  {
    CloseAfterOpen(sc, name, attrs);
    ScopeRestored(st, n);
  }

  /** The elements open after some events; none if an end tag is not of the innermost open element. */
  function Nest(open: seq<Name>, events: seq<Event>): Option<seq<Name>>
    decreases |events|
  {
    if events == [] then Some(open)
    else match events[0]
      case OnStart(name, _) => Nest(open + [name], events[1..])
      case OnEnd(name) =>
        if open != [] && open[|open| - 1] == name then Nest(open[..|open| - 1], events[1..]) else None
      case OnChar(_) => Nest(open, events[1..])
  }

  /** The events of every run are well nested, and balanced when the run ends with EOF. */
  lemma {:induction false} WellNested(st: State)
    requires Inv(st)
    ensures var r := RunAll(st);
            Nest(Names(st), r.events).Some? && (r.err == EOF ==> Nest(Names(st), r.events) == Some([]))
    decreases Budget(st)
  {
    StepInv(st);
    var r := Step(st);
    if r.ret == Some(EOF) {
      EofIsClean(st);
    } else if r.ret.None? {
      StepProgress(st);
      WellNested(r.st);
      if r.ev.Some? {
        assert ([r.ev.value] + RunAll(r.st).events)[1..] == RunAll(r.st).events;
      }
    }
  }
}
