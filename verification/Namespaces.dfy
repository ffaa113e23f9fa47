/**
 * Namespace scoping: the prefix map of the open elements, and the stack that undoes it.
 *
 * The stack holds, top first, the start of every open element, each above the undo records of the
 * declarations its tag made.
 */
module Namespaces {
  import opened Bytes
  import opened Lexing

  const XMLNS: seq<Byte> := "xmlns"
  const XML: seq<Byte> := "xml"
  const XML_URL: seq<Byte> := "http://www.w3.org/XML/1998/namespace"

  type Prefixes = map<seq<Byte>, seq<Byte>>

  datatype Entry =
    | StartEntry(name: Name)
    | NsEntry(prefix: seq<Byte>, url: seq<Byte>, ok: bool)

  datatype Scope = Scope(ns: Prefixes, stk: seq<Entry>)

  /** translate: the expanded name. The default namespace applies to elements only. */
  function Translate(ns: Prefixes, n: Name, isElement: bool): Name {
    if n.space == XMLNS || (n.space == [] && !isElement) then n
    else if n.space == XML then
      if XML_URL in ns then Name(ns[XML_URL], n.local) else Name(XML_URL, n.local)
    else if n.space == [] && n.local == XMLNS then n
    else if n.space in ns then Name(ns[n.space], n.local)
    else n
  }

  function TranslateAttrs(ns: Prefixes, attrs: seq<Attr>): (r: seq<Attr>)
    ensures |r| == |attrs|
    ensures forall i :: 0 <= i < |r| ==> r[i] == Attr(Translate(ns, attrs[i].name, false), attrs[i].value)
  {
    seq(|attrs|, i requires 0 <= i < |attrs| => Attr(Translate(ns, attrs[i].name, false), attrs[i].value))
  }

  /** Binds a prefix and pushes what it was bound to. */
  function Bind(sc: Scope, prefix: seq<Byte>, url: seq<Byte>): Scope {
    var saved := if prefix in sc.ns then NsEntry(prefix, sc.ns[prefix], true) else NsEntry(prefix, [], false);
    Scope(sc.ns[prefix := url], [saved] + sc.stk)
  }

  /** The declarations among the attributes of a tag, in order. */
  function Declare(sc: Scope, attrs: seq<Attr>): Scope
    decreases |attrs|
  {
    if attrs == [] then sc
    else
      var a := attrs[0];
      var sc1 :=
        if a.name.space == XMLNS then Bind(sc, a.name.local, a.value)
        else if a.name.space == [] && a.name.local == XMLNS then Bind(sc, [], a.value)
        else sc;
      Declare(sc1, attrs[1..])
  }

  predicate IsDefault(a: Attr) {
    a.name.space == [] && a.name.local == XMLNS
  }

  function Default(ns: Prefixes): seq<Byte> {
    if [] in ns then ns[[]] else []
  }

  /** What an element name stands for in a scope: a bare one is in the default namespace. */
  function Meaning(ns: Prefixes, n: Name): Name {
    if n.space == [] && n.local != XMLNS then Name(Default(ns), n.local) else n
  }

  /** The prefix map after the declaration that an attribute may be. */
  function Bound(ns: Prefixes, a: Attr): Prefixes {
    if a.name.space == XMLNS then ns[a.name.local := a.value]
    else if IsDefault(a) then ns[[] := a.value]
    else ns
  }

  /** The prefix map after the declarations among attrs. */
  function Declared(ns: Prefixes, attrs: seq<Attr>): Prefixes
    decreases |attrs|
  {
    if attrs == [] then ns else Declared(Bound(ns, attrs[0]), attrs[1..])
  }

  lemma {:induction false} DeclareAppend(sc: Scope, a: Attr, attrs: seq<Attr>)
    ensures Declare(sc, [a] + attrs) == Declare(Declare(sc, [a]), attrs)
  {
    assert ([a] + attrs)[1..] == attrs && [a][1..] == [];
  }

  lemma TranslateCons(ns: Prefixes, a: Attr, attrs: seq<Attr>)
    ensures TranslateAttrs(ns, [a] + attrs) == [Attr(Translate(ns, a.name, false), a.value)] + TranslateAttrs(ns, attrs)
  {
  }

  /** An element just opened: its expanded name and attributes, and the scope inside it. */
  datatype Opened = Opened(name: Name, attrs: seq<Attr>, scope: Scope)

  /** An end tag just handled: whether it was accepted, its expanded name, and the scope it leaves. */
  datatype Closed = Closed(ok: bool, name: Name, scope: Scope)

  /** What a start tag does: it declares, and only then expands its own names. */
  function Open(sc: Scope, name: Name, attrs: seq<Attr>): Opened {
    var sc1 := Declare(sc, attrs);
    var expanded := Translate(sc1.ns, name, true);
    Opened(expanded, TranslateAttrs(sc1.ns, attrs), Scope(sc1.ns, [StartEntry(expanded)] + sc1.stk))
  }

  /** Takes undo records off the stack, restoring the prefix map, until a start is on top. */
  function Undo(sc: Scope): (r: Scope)
    ensures TopIsStart(r)
    decreases |sc.stk|
  {
    if sc.stk == [] || sc.stk[0].StartEntry? then sc
    else
      var e := sc.stk[0];
      Undo(Scope(if e.ok then sc.ns[e.prefix := e.url] else sc.ns - {e.prefix}, sc.stk[1..]))
  }

  /** What an end tag does: its expanded name must be the one on top of the stack, which is popped either way. */
  function Close(sc: Scope, name: Name): Closed {
    var expanded := Translate(sc.ns, name, true);
    if sc.stk == [] then Closed(false, expanded, sc)
    else
      var popped := Scope(sc.ns, sc.stk[1..]);
      if sc.stk[0] == StartEntry(expanded) then Closed(true, expanded, Undo(popped))
          else Closed(false, expanded, popped)
  }

  /** Between tags the stack is empty or a start is on its top. */
  predicate TopIsStart(sc: Scope) {
    sc.stk == [] || sc.stk[0].StartEntry?
  }

  /** The names of the open elements, outermost first. */
  function OpenNames(stk: seq<Entry>): (names: seq<Name>)
  {
    if stk == [] then []
    else if stk[0].StartEntry? then OpenNames(stk[1..]) + [stk[0].name]
    else OpenNames(stk[1..])
  }

  /** The undo records of any declarations, shadowed and repeated ones included, restore the scope exactly. */
  lemma {:induction false} UndoDeclare(sc: Scope, attrs: seq<Attr>)
    ensures Undo(Declare(sc, attrs)) == Undo(sc)
    ensures OpenNames(Declare(sc, attrs).stk) == OpenNames(sc.stk)
    decreases |attrs|
  {
    if attrs != [] {
      var a := attrs[0];
      if a.name.space == XMLNS {
        UndoBind(sc, a.name.local, a.value);
        UndoDeclare(Bind(sc, a.name.local, a.value), attrs[1..]);
      } else if a.name.space == [] && a.name.local == XMLNS {
        UndoBind(sc, [], a.value);
        UndoDeclare(Bind(sc, [], a.value), attrs[1..]);
      } else {
        UndoDeclare(sc, attrs[1..]);
      }
    }
  }

  lemma UndoBind(sc: Scope, prefix: seq<Byte>, url: seq<Byte>)
    ensures Undo(Bind(sc, prefix, url)) == Undo(sc)
    ensures OpenNames(Bind(sc, prefix, url).stk) == OpenNames(sc.stk)
  {
    var b := Bind(sc, prefix, url);
    assert b.stk[1..] == sc.stk;
    if prefix in sc.ns {
      assert b.ns[prefix := sc.ns[prefix]] == sc.ns;
    } else {
      assert b.ns - {prefix} == sc.ns;
    }
  }

  lemma {:induction false} UndoKeepsNames(sc: Scope)
    ensures OpenNames(Undo(sc).stk) == OpenNames(sc.stk)
    decreases |sc.stk|
  {
    if sc.stk != [] && !sc.stk[0].StartEntry? {
      var e := sc.stk[0];
      UndoKeepsNames(Scope(if e.ok then sc.ns[e.prefix := e.url] else sc.ns - {e.prefix}, sc.stk[1..]));
    }
  }

  /** The scope as it was before the innermost open element. */
  function CloseTop(sc: Scope): Scope
    requires sc.stk != []
  {
    Undo(Scope(sc.ns, sc.stk[1..]))
  }

  /** Closing an element straight after opening it changes nothing at all. */
  lemma CloseAfterOpen(sc: Scope, name: Name, attrs: seq<Attr>)
    requires TopIsStart(sc)
    ensures var o := Open(sc, name, attrs);
            && Close(o.scope, name) == Closed(true, o.name, sc)
            && CloseTop(o.scope) == sc
            && OpenNames(o.scope.stk) == OpenNames(sc.stk) + [o.name]
  {
    UndoDeclare(sc, attrs);
    assert Open(sc, name, attrs).scope.stk[1..] == Declare(sc, attrs).stk;
  }

  /** An accepted end tag closes the innermost open element, under that element's expanded name. */
  lemma CloseIsInnermost(sc: Scope, name: Name)
    requires Close(sc, name).ok
    ensures var c := Close(sc, name);
            && OpenNames(sc.stk) == OpenNames(c.scope.stk) + [c.name]
            && sc.stk != [] && c.scope == CloseTop(sc) && TopIsStart(c.scope)
  {
    UndoKeepsNames(Scope(sc.ns, sc.stk[1..]));
  }

  /** The scope as it was when only depth elements were open. */
  function Unwind(sc: Scope, depth: nat): Scope
    decreases |OpenNames(sc.stk)|
  {
    if |OpenNames(sc.stk)| <= depth || !TopIsStart(sc) then sc
    else
      UndoKeepsNames(Scope(sc.ns, sc.stk[1..]));
      Unwind(CloseTop(sc), depth)
  }
}
