/**
 * Which namespace a prefix has: over every run, the prefix map is that of the declarations on the open elements, the
 * innermost one counting, and of those on one tag the last.
 */
module Scoping {
  import opened Wrappers
  import opened Bytes
  import opened Lexing
  import opened Namespaces
  import opened Events

  /** A start tag as it is written. */
  datatype Tag = Tag(name: Name, attrs: seq<Attr>)

  /** The attribute declares the prefix; the empty one is that of the default namespace. */
  predicate Declares(a: Attr, prefix: seq<Byte>) {
    a.name == Name(XMLNS, prefix) || (prefix == [] && a.name == Name([], XMLNS))
  }

  /** What a tag declares the prefix to be. */
  function OnTag(attrs: seq<Attr>, prefix: seq<Byte>): Option<seq<Byte>>
    decreases |attrs|
  {
    if attrs == [] then None
    else
      var a := attrs[|attrs| - 1];
      if Declares(a, prefix) then Some(a.value) else OnTag(attrs[..|attrs| - 1], prefix)
  }

  /** What the innermost of the open tags that declares the prefix declares it to be. */
  function Find(tags: seq<Tag>, prefix: seq<Byte>): Option<seq<Byte>>
    decreases |tags|
  {
    if tags == [] then None
    else
      var t := tags[|tags| - 1];
      if OnTag(t.attrs, prefix).Some? then OnTag(t.attrs, prefix) else Find(tags[..|tags| - 1], prefix)
  }

  /** The scope after these tags were opened, one inside the other. */
  predicate OpenedBy(sc: Scope, tags: seq<Tag>)
    decreases |tags|
  {
    if tags == [] then sc == Scope(map[], [])
    else
      var n := |tags| - 1;
      && sc.stk != [] && OpenedBy(CloseTop(sc), tags[..n])
      && sc == Open(CloseTop(sc), tags[n].name, tags[n].attrs).scope
  }

  function Get(ns: Prefixes, prefix: seq<Byte>): Option<seq<Byte>> {
    if prefix in ns then Some(ns[prefix]) else None
  }

  lemma DeclareSnoc(sc: Scope, attrs: seq<Attr>, a: Attr)
    ensures Declare(sc, attrs + [a]) == Declare(Declare(sc, attrs), [a])
    decreases |attrs|
  {
    if attrs == [] {
      assert attrs + [a] == [a];
    } else {
      assert attrs == [attrs[0]] + attrs[1..] && attrs + [a] == [attrs[0]] + (attrs[1..] + [a]);
      DeclareAppend(sc, attrs[0], attrs[1..] + [a]);
      DeclareAppend(sc, attrs[0], attrs[1..]);
      DeclareSnoc(Declare(sc, [attrs[0]]), attrs[1..], a);
    }
  }

  lemma DeclareOne(sc: Scope, a: Attr, prefix: seq<Byte>)
    ensures Get(Declare(sc, [a]).ns, prefix) == if Declares(a, prefix) then Some(a.value) else Get(sc.ns, prefix)
  {
    assert [a][1..] == [];
  }

  lemma {:induction false} DeclareMeans(sc: Scope, attrs: seq<Attr>, prefix: seq<Byte>)
    ensures Get(Declare(sc, attrs).ns, prefix)
         == if OnTag(attrs, prefix).Some? then OnTag(attrs, prefix) else Get(sc.ns, prefix)
    decreases |attrs|
  {
    if attrs != [] {
      var n := |attrs| - 1;
      DeclareMeans(sc, attrs[..n], prefix);
      assert attrs == attrs[..n] + [attrs[n]];
      DeclareSnoc(sc, attrs[..n], attrs[n]);
      DeclareOne(Declare(sc, attrs[..n]), attrs[n], prefix);
    }
  }

  /** The prefix map tells of each prefix what the innermost declaration says. */
  lemma {:induction false} InnermostCounts(sc: Scope, tags: seq<Tag>, prefix: seq<Byte>)
    requires OpenedBy(sc, tags)
    ensures Get(sc.ns, prefix) == Find(tags, prefix)
    decreases |tags|
  {
    if tags != [] {
      var n := |tags| - 1;
      InnermostCounts(CloseTop(sc), tags[..n], prefix);
      DeclareMeans(CloseTop(sc), tags[n].attrs, prefix);
    }
  }

  /** So a name with a prefix is in the namespace of the innermost declaration; xml is bound, and xmlns is itself. */
  lemma NameMeans(sc: Scope, tags: seq<Tag>, n: Name, isElement: bool)
    requires OpenedBy(sc, tags) && n != Name([], XMLNS)
    ensures Translate(sc.ns, n, isElement) ==
              if n.space == XMLNS || (n.space == [] && !isElement) then n
              else if n.space == XML then
                Name(if Find(tags, XML_URL).Some? then Find(tags, XML_URL).value else XML_URL, n.local)
              else if Find(tags, n.space).Some? then Name(Find(tags, n.space).value, n.local)
              else n
  {
    InnermostCounts(sc, tags, n.space);
    InnermostCounts(sc, tags, XML_URL);
  }

  // ---- Runs ----

  /**
   * A call that opens an element adds its tag, one that closes the innermost takes it away, and no other changes any.
   */
  lemma StepOpens(st: State, tags: seq<Tag>) returns (next: seq<Tag>)
    requires Inv(st) && OpenedBy(st.scope, tags) && Step(st).ret.None?
    ensures OpenedBy(Step(st).st.scope, next)
    ensures match Step(st).ev {
              case Some(OnStart(name, attrs)) =>
                && |next| == |tags| + 1 && next[..|tags|] == tags
                && name == Translate(Step(st).st.scope.ns, next[|tags|].name, true)
                && attrs == TranslateAttrs(Step(st).st.scope.ns, next[|tags|].attrs)
              case Some(OnEnd(_)) => tags != [] && next == tags[..|tags| - 1]
              case Some(OnChar(_)) => next == tags
              case None => next == tags
            }
  {
    var r := Step(st);
    next := tags;
    match r.ev
    case Some(OnStart(_, _)) =>
      var tok := NextToken(st.input).tok;
      CloseAfterOpen(st.scope, tok.name, tok.attrs);
      next := tags + [Tag(tok.name, tok.attrs)];
      assert next[..|tags|] == tags;
    case Some(OnEnd(_)) =>
      CloseIsInnermost(st.scope, if st.toClose.Some? then st.toClose.value else NextToken(st.input).tok.name);
      next := tags[..|tags| - 1];
    case Some(OnChar(_)) =>
    case None =>
  }

  lemma StepOpensAll(st: State, tags: seq<Tag>) returns (next: seq<Tag>)
    requires Inv(st) && OpenedBy(st.scope, tags) && |Names(st)| == |tags| && Step(st).ret.None?
    ensures Inv(Step(st).st) && OpenedBy(Step(st).st.scope, next) && |Names(Step(st).st)| == |next|
  {
    StepInv(st);
    next := StepOpens(st, tags);
  }

  /** From the start of any input on: there are tags that the scope is made of, as many as elements are open. */
  lemma {:induction false} RunOpens(st: State, tags: seq<Tag>, n: nat) returns (open: seq<Tag>)
    requires Inv(st) && OpenedBy(st.scope, tags) && |Names(st)| == |tags| && Runs(st, n)
    ensures OpenedBy(After(st, n).scope, open) && |open| == |Names(After(st, n))|
    decreases n
  {
    if n == 0 {
      return tags;
    }
    var next := StepOpensAll(st, tags);
    open := RunOpens(Step(st).st, next, n - 1);
  }

  /** Over every run over every input, each prefix is what the innermost declaration on the open elements says. */
  lemma PrefixesAfter(input: seq<Item>, n: nat) returns (open: seq<Tag>)
    requires Runs(Initial(input), n)
    ensures var st := After(Initial(input), n);
            && |open| == |Names(st)| && OpenedBy(st.scope, open)
            && forall prefix :: Get(st.scope.ns, prefix) == Find(open, prefix)
  {
    open := RunOpens(Initial(input), [], n);
    var sc := After(Initial(input), n).scope;
    forall prefix ensures Get(sc.ns, prefix) == Find(open, prefix) {
      InnermostCounts(sc, open, prefix);
    }
  }
}
