/**
 * The stack of element handlers that decodeModelFile keeps above the parser. A handler is pushed for an element its
 * parent knows, and popped when an element of the same name ends; every other element passes the stack by.
 */
module Handlers {
  import opened Wrappers
  import opened Bytes
  import opened Lexing
  import opened Namespaces
  import opened Events
  import opened Errors

  /**
   * What the handlers of a file can do, for handlers of any type D: which interfaces a handler implements, the child
   * it offers for a name, the errors its Start reports, and the level its Wrap adds. What a handler answers may depend
   * on everything that has been called before, so handlers can have state and share it.
   */
  datatype Rules<!D> = Rules(
    isParent: D -> bool,
    child: (D, Name, seq<Call<D>>) -> Option<D>,
    takesTokens: D -> bool,
    takesText: D -> bool,
    start: (D, seq<Attr>, seq<Call<D>>) -> seq<Leaf>,
    level: (D, seq<Call<D>>) -> Option<Level>)

  /** What has been called on the handlers. */
  datatype Call<D> =
    | Started(d: D, attrs: seq<Attr>)
    | Ended(d: D)
    | Appended(d: D, tok: Event)
    | Text(d: D, data: seq<Byte>)

  /** state and names hold the handlers below the current one; crashed is an index out of range in Go. */
  datatype Stack<D> = Stack(
    current: D, currentName: Name, state: seq<D>, names: seq<Name>, calls: seq<Call<D>>, errs: seq<Leaf>, crashed: bool)

  function TopLevel<D>(top: D): Stack<D> {
    Stack(top, NO_NAME, [], [], [], [], false)
  }

  /** Wraps errors in every handler below, from the innermost to the root. */
  function WrapAll<D>(rules: Rules<D>, calls: seq<Call<D>>, state: seq<D>, errs: seq<Leaf>): seq<Leaf>
  {
    if state == [] then errs
    else
      var level := rules.level(state[|state| - 1], calls);
      WrapAll(rules, calls, state[..|state| - 1], if level.Some? then AddLevels(errs, level.value, None) else errs)
  }

  /** The levels of the handlers that add one, from the innermost to the root. */
  function Outward<D>(rules: Rules<D>, calls: seq<Call<D>>, state: seq<D>): seq<Level>
  {
    if state == [] then []
    else
      var level := rules.level(state[|state| - 1], calls);
      (if level.Some? then [level.value] else []) + Outward(rules, calls, state[..|state| - 1])
  }

  /** Wrapping keeps the number and the order of the errors, and gives each the exact path out to the root. */
  lemma {:induction false} WrapAllAddsPath<D>(rules: Rules<D>, calls: seq<Call<D>>, state: seq<D>, errs: seq<Leaf>)
    ensures |WrapAll(rules, calls, state, errs)| == |errs|
    ensures forall i :: 0 <= i < |errs| ==>
              WrapAll(rules, calls, state, errs)[i] == Leaf(errs[i].cause,
                  errs[i].levels + Outward(rules, calls, state), errs[i].path)
    decreases |state|
  {
    if state == [] {
      forall i | 0 <= i < |errs| ensures errs[i].levels + [] == errs[i].levels {
      }
    } else {
      var n := |state| - 1;
      var level := rules.level(state[n], calls);
      var more := if level.Some? then AddLevels(errs, level.value, None) else errs;
      WrapAllAddsPath(rules, calls, state[..n], more);
      forall i | 0 <= i < |errs| ensures more[i].levels + Outward(rules, calls, state[..n])
          == errs[i].levels + Outward(rules, calls, state) {
        if level.Some? {
          Assoc(errs[i].levels, [level.value], Outward(rules, calls, state[..n]));
        } else {
          assert [] + Outward(rules, calls, state[..n]) == Outward(rules, calls, state[..n]);
        }
      }
    }
  }

  function React<D>(rules: Rules<D>, h: Stack<D>, ev: Event): (r: Stack<D>)
    requires |h.state| == |h.names|
    ensures |r.state| == |r.names|
  {
    match ev
    case OnStart(name, attrs) =>
      if rules.isParent(h.current) then
        var child := rules.child(h.current, name, h.calls);
        if child.None? then h
        else
          var state, calls := h.state + [h.current], h.calls + [Started(child.value, attrs)];
          Stack(child.value, name, state, h.names + [h.currentName], calls,
                h.errs + WrapAll(rules, calls, state, rules.start(child.value, attrs, h.calls)), h.crashed)
      else if rules.takesTokens(h.current) then h.(calls := h.calls + [Appended(h.current, ev)])
      else h
    case OnEnd(name) =>
      if h.currentName == name then
        var ended := h.calls + [Ended(h.current)];
        if h.state == [] then h.(calls := ended, crashed := true)
        else
          var n := |h.state| - 1;
          Stack(h.state[n], h.names[n], h.state[..n], h.names[..n], ended, h.errs, h.crashed)
      else if rules.takesTokens(h.current) then h.(calls := h.calls + [Appended(h.current, ev)])
      else h
    case OnChar(data) =>
      // The second type assertion is made on the result of the first, which has just failed: text is never appended.
      if rules.takesText(h.current) then h.(calls := h.calls + [Text(h.current, data)]) else h
  }

  /** The handlers after some events. */
  function ReactAll<D>(rules: Rules<D>, h: Stack<D>, events: seq<Event>): (r: Stack<D>)
    requires |h.state| == |h.names|
    ensures |r.state| == |r.names|
    decreases |events|
  {
    if events == [] then h else ReactAll(rules, React(rules, h, events[0]), events[1..])
  }

  /** The names of the started handlers, outermost first. */
  function HandlerNames<D>(h: Stack<D>): seq<Name>
    requires |h.state| == |h.names|
  {
    (h.names + [h.currentName])[1..]
  }

  /** a is b with some elements left out. */
  predicate Subsequence(a: seq<Name>, b: seq<Name>)
    decreases |b|
  {
    a == [] ||
    (b != [] &&
     if a[|a| - 1] == b[|b| - 1] then Subsequence(a[..|a| - 1], b[..|b| - 1]) else Subsequence(a, b[..|b| - 1]))
  }

  /** Subsequence means what it says: the positions of a in b are strictly increasing. */
  lemma {:induction false} SubsequencePositions(a: seq<Name>, b: seq<Name>) returns (at: seq<nat>)
    requires Subsequence(a, b)
    ensures |at| == |a| && (forall i :: 0 <= i < |a| ==> at[i] < |b| && b[at[i]] == a[i])
    ensures forall i, j :: 0 <= i < j < |at| ==> at[i] < at[j]
    decreases |b|
  {
    if a == [] {
      at := [];
    } else if a[|a| - 1] == b[|b| - 1] {
      at := SubsequencePositions(a[..|a| - 1], b[..|b| - 1]);
      at := at + [|b| - 1];
    } else {
      at := SubsequencePositions(a, b[..|b| - 1]);
    }
  }

  /** What holds of the handlers over every run: they are a subsequence of the elements open in the parser. */
  ghost predicate Follows<D>(h: Stack<D>, open: seq<Name>) {
    && |h.state| == |h.names|
    && (h.names == [] ==> h.currentName == NO_NAME)
    && (h.names != [] ==> h.names[0] == NO_NAME)
    && Subsequence(HandlerNames(h), open)
    && Replay(h.calls) == Some(HandlerStack(h))
  }

  /** The started handlers, outermost first. */
  function HandlerStack<D>(h: Stack<D>): seq<D> {
    (h.state + [h.current])[1..]
  }

  /** Plays the Started and Ended calls on an empty stack; none if an Ended is not of the innermost started handler. */
  ghost function Replay<D>(calls: seq<Call<D>>): Option<seq<D>>
    decreases |calls|
  {
    if calls == [] then Some([])
    else
      var r := Replay(calls[..|calls| - 1]);
      if r.None? then None
      else match calls[|calls| - 1]
        case Started(d, _) => Some(r.value + [d])
        case Ended(d) =>
          if r.value != [] && r.value[|r.value| - 1] == d then Some(r.value[..|r.value| - 1]) else None
        case _ => r
  }

  lemma ReplayOne<D>(calls: seq<Call<D>>, c: Call<D>)
    ensures Replay(calls + [c]) ==
              var r := Replay(calls);
              if r.None? then None
              else match c
                case Started(d, _) => Some(r.value + [d])
                case Ended(d) =>
                  if r.value != [] && r.value[|r.value| - 1] == d then Some(r.value[..|r.value| - 1]) else None
                case _ => r
  {
    assert (calls + [c])[..|calls|] == calls;
  }

  /** The one step on which the handler stack underflows: a nameless element ends where no handler is started. */
  lemma CrashExactly<D>(rules: Rules<D>, h: Stack<D>, ev: Event, open: seq<Name>)
    requires Follows(h, open) && !h.crashed
    ensures React(rules, h, ev).crashed <==> HandlerNames(h) == [] && ev == OnEnd(NO_NAME)
  {
    if h.names != [] {
      assert |HandlerNames(h)| == |h.names|;
    }
  }

  lemma StartFollows<D>(rules: Rules<D>, h: Stack<D>, name: Name, attrs: seq<Attr>, open: seq<Name>)
    requires Follows(h, open)
    ensures Follows(React(rules, h, OnStart(name, attrs)), open + [name])
  {
    var r := React(rules, h, OnStart(name, attrs));
    if rules.isParent(h.current) && rules.child(h.current, name, h.calls).Some? {
      PushFollows(h, name, rules.child(h.current, name, h.calls).value, attrs, open, r);
    } else {
      PassFollows(h, name, attrs, open, r);
    }
  }

  lemma PassFollows<D>(h: Stack<D>, name: Name, attrs: seq<Attr>, open: seq<Name>, r: Stack<D>)
    requires Follows(h, open) && (r == h || r == h.(calls := h.calls + [Appended(h.current, OnStart(name, attrs))]))
    ensures Follows(r, open + [name])
  {
    SkipLast(HandlerNames(h), open, name);
    ReplayOne(h.calls, Appended(h.current, OnStart(name, attrs)));
  }

  lemma PushFollows<D>(h: Stack<D>, name: Name, child: D, attrs: seq<Attr>, open: seq<Name>, r: Stack<D>)
    requires Follows(h, open) && r.current == child && r.currentName == name
    requires r.state == h.state + [h.current] && r.names == h.names + [h.currentName]
    requires r.calls == h.calls + [Started(child, attrs)]
    ensures Follows(r, open + [name])
  {
    ReplayOne(h.calls, Started(child, attrs));
    TailGrows(h.names, h.currentName, name);
    TailGrows(h.state, h.current, child);
    BothGrow(HandlerNames(h), open, name);
  }

  lemma TailGrows<T>(xs: seq<T>, top: T, next: T)
    ensures (xs + [top] + [next])[1..] == (xs + [top])[1..] + [next]
  {
  }

  lemma TailShrinks<T>(xs: seq<T>, top: T)
    requires xs != []
    ensures var n, tail := |xs| - 1, (xs + [top])[1..];
            (xs[..n] + [xs[n]])[1..] == tail[..|tail| - 1] && tail[|tail| - 1] == top && |tail| == |xs|
  {
    assert xs[..|xs| - 1] + [xs[|xs| - 1]] == xs && (xs + [top])[1..] == xs[1..] + [top];
  }

  lemma BothGrow(a: seq<Name>, b: seq<Name>, name: Name)
    requires Subsequence(a, b)
    ensures Subsequence(a + [name], b + [name])
  {
    assert (a + [name])[..|a|] == a && (b + [name])[..|b|] == b;
  }

  /** An element more does not disturb a subsequence, though the match may move to it. */
  lemma {:induction false} SkipLast(a: seq<Name>, b: seq<Name>, name: Name)
    requires Subsequence(a, b)
    ensures Subsequence(a, b + [name])
    decreases |b|, 1
  {
    assert (b + [name])[..|b|] == b;
    if a != [] && a[|a| - 1] == name {
      DropLast(a, b);
    }
  }

  lemma {:induction false} DropLast(a: seq<Name>, b: seq<Name>)
    requires a != [] && Subsequence(a, b)
    ensures Subsequence(a[..|a| - 1], b)
    decreases |b|, 0
  {
    if a[|a| - 1] == b[|b| - 1] {
      assert b == b[..|b| - 1] + [b[|b| - 1]];
      SkipLast(a[..|a| - 1], b[..|b| - 1], b[|b| - 1]);
    } else {
      DropLast(a, b[..|b| - 1]);
      assert b == b[..|b| - 1] + [b[|b| - 1]];
      SkipLast(a[..|a| - 1], b[..|b| - 1], b[|b| - 1]);
    }
  }

  /** The last name goes with the element of that name; any other element goes by itself. */
  lemma LastGoes(a: seq<Name>, b: seq<Name>, name: Name)
    requires Subsequence(a, b + [name])
    ensures if a != [] && a[|a| - 1] == name then Subsequence(a[..|a| - 1], b) else Subsequence(a, b)
  {
    assert (b + [name])[..|b|] == b;
  }

  lemma EndFollows<D>(rules: Rules<D>, h: Stack<D>, name: Name, open: seq<Name>)
    requires Follows(h, open + [name]) && !React(rules, h, OnEnd(name)).crashed
    ensures Follows(React(rules, h, OnEnd(name)), open)
  {
    LastGoes(HandlerNames(h), open, name);
    if h.currentName == name {
      PopFollows(h, name, open, React(rules, h, OnEnd(name)));
    } else {
      ReplayOne(h.calls, Appended(h.current, OnEnd(name)));
    }
  }

  lemma PopFollows<D>(h: Stack<D>, name: Name, open: seq<Name>, r: Stack<D>)
    requires Follows(h, open + [name]) && h.state != [] && h.currentName == name
    requires var n := |h.state| - 1;
             r == Stack(h.state[n], h.names[n], h.state[..n], h.names[..n], h.calls + [Ended(h.current)], h.errs,
                 h.crashed)
    ensures Follows(r, open)
  {
    ReplayOne(h.calls, Ended(h.current));
    TailShrinks(h.names, h.currentName);
    TailShrinks(h.state, h.current);
    LastGoes(HandlerNames(h), open, name);
  }

  lemma CharFollows<D>(rules: Rules<D>, h: Stack<D>, data: seq<Byte>, open: seq<Name>)
    requires Follows(h, open)
    ensures Follows(React(rules, h, OnChar(data)), open)
  {
    ReplayOne(h.calls, Text(h.current, data));
  }

  /** The callbacks of decodeModelFile: they push, pop and reassign in place. */
  class Machine<D> {
    const rules: Rules<D>
    var current: D
    var currentName: Name
    var state: seq<D>
    var names: seq<Name>
    var calls: seq<Call<D>>
    var errs: seq<Leaf>
    var crashed: bool

    ghost function Abs(): Stack<D>
      reads this
    {
      Stack(current, currentName, state, names, calls, errs, crashed)
    }

    constructor (rules: Rules<D>, top: D)
      ensures this.rules == rules && Abs() == TopLevel(top)
    {
      this.rules, current, currentName, state, names, calls, errs, crashed :=
          rules, top, NO_NAME, [], [], [], [], false;
    }

    method Dispatch(ev: Event)
      requires |state| == |names|
      modifies this
      ensures Abs() == React(rules, old(Abs()), ev)
    {
      match ev
      case OnStart(name, attrs) => Start(name, attrs);
      case OnEnd(name) => End(name);
      case OnChar(data) => Char(data);
    }

    method Start(name: Name, attrs: seq<Attr>)
      requires |state| == |names|
      modifies this
      ensures Abs() == React(rules, old(Abs()), OnStart(name, attrs))
    {
      if rules.isParent(current) {
        var child := rules.child(current, name, calls);
        if child.Some? {
          state := state + [current];
          names := names + [currentName];
          currentName := name;
          current := child.value;
          var err := rules.start(current, attrs, calls);
          calls := calls + [Started(current, attrs)];
          err := WrapError(err);
          errs := errs + err;
        }
      } else if rules.takesTokens(current) {
        calls := calls + [Appended(current, OnStart(name, attrs))];
      }
    }

    method WrapError(err: seq<Leaf>) returns (r: seq<Leaf>)
      ensures r == WrapAll(rules, calls, state, err)
    {
      r := err;
      var i := |state|;
      assert state[..i] == state;
      while i > 0
        invariant 0 <= i <= |state|
        invariant WrapAll(rules, calls, state[..i], r) == WrapAll(rules, calls, state, err)
      {
        i := i - 1;
        assert state[..i + 1][..i] == state[..i];
        var level := rules.level(state[i], calls);
        if level.Some? {
          r := AddLevels(r, level.value, None);
        }
      }
    }

    method End(name: Name)
      requires |state| == |names|
      modifies this
      ensures Abs() == React(rules, old(Abs()), OnEnd(name))
    {
      if currentName == name {
        calls := calls + [Ended(current)];
        var n := |state| - 1;
        if n < 0 {
          crashed := true;
          return;
        }
        current, state := state[n], state[..n];
        currentName, names := names[n], names[..n];
      } else if rules.takesTokens(current) {
        calls := calls + [Appended(current, OnEnd(name))];
      }
    }

    method Char(data: seq<Byte>)
      requires |state| == |names|
      modifies this
      ensures Abs() == React(rules, old(Abs()), OnChar(data))
    {
      if rules.takesText(current) {
        calls := calls + [Text(current, data)];
      }
    }
  }
}
