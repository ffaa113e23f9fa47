/** Wrapped errors and error lists, which Append and the Wrap functions change in place. */
module Errors {
  import opened Wrappers

  /** One step of the path to the element at fault: the element and, where it has one, its index. */
  datatype Level = Level(element: int, index: int)

  /** An error as its reader sees it: the cause, the path from the innermost element outwards, and the part. */
  datatype Leaf = Leaf(cause: int, levels: seq<Level>, path: string)

  /** Go's error interface: nil, an error of another package, or a pointer to one of the two types below. */
  datatype Err = Nil | Plain(cause: int) | Wrapped(err: WrapError) | Many(list: ErrList)

  class WrapError {
    var target: seq<Level>
    var cause: int
    var path: string

    constructor (cause: int, target: seq<Level>, path: string)
      ensures this.cause == cause && this.target == target && this.path == path
    {
      this.cause, this.target, this.path := cause, target, path;
    }
  }

  class ErrList {
    var errors: seq<Err>
    /** The wrapped errors of the list, and what each of its errors stands for. */
    ghost var nodes: set<WrapError>
    ghost var leaves: seq<Leaf>

    /** No list inside a list, no nil, and no wrapped error twice. */
    ghost predicate Valid()
      reads this, nodes
    {
      && |leaves| == |errors|
      && (forall i :: 0 <= i < |errors| ==>
            (errors[i].Plain? || (errors[i].Wrapped? && errors[i].err in nodes)) && leaves[i] == LeafOf(errors[i]))
      && forall i, j :: 0 <= i < j < |errors| && errors[i].Wrapped? ==> errors[i] != errors[j]
    }

    constructor ()
      ensures Valid() && errors == [] && leaves == [] && nodes == {}
    {
      errors, leaves, nodes := [], [], {};
    }
  }

  ghost function LeafOf(e: Err): Leaf
    requires e.Plain? || e.Wrapped?
    reads if e.Wrapped? then {e.err} else {}
  {
    if e.Plain? then Leaf(e.cause, [], "") else Leaf(e.err.cause, e.err.target, e.err.path)
  }

  /** Everything reachable from an error. */
  ghost function Footprint(e: Err): set<object>
    reads if e.Many? then {e.list} else {}
  {
    match e
    case Wrapped(w) => {w}
    case Many(l) => {l} + l.nodes
    case _ => {}
  }

  ghost predicate Valid(e: Err)
    reads Footprint(e), if e.Many? then {e.list} else {}
  {
    e.Many? ==> e.list.Valid()
  }

  /** The single errors an error stands for, in order. */
  ghost function Leaves(e: Err): seq<Leaf>
    reads Footprint(e), if e.Many? then {e.list} else {}
  {
    match e
    case Nil => []
    case Many(l) => l.leaves
    case _ => [LeafOf(e)]
  }

  /** What wrapping does to one error: a level further out, and the part, if the wrapper names one. */
  function AddLevel(leaf: Leaf, level: Level, part: Option<string>): Leaf {
    Leaf(leaf.cause, leaf.levels + [level], if part.Some? then part.value else leaf.path)
  }

  function AddLevels(leaves: seq<Leaf>, level: Level, part: Option<string>): (r: seq<Leaf>)
    ensures |r| == |leaves| && forall i :: 0 <= i < |r| ==> r[i] == AddLevel(leaves[i], level, part)
  {
    seq(|leaves|, i requires 0 <= i < |leaves| => AddLevel(leaves[i], level, part))
  }

  /** WrapIndex and, for an error that is no list, WrapPath. */
  method WrapOne(err: Err, level: Level, part: Option<string>) returns (r: Err)
    requires !err.Many?
    modifies Footprint(err)
    ensures err.Nil? ==> r.Nil?
    ensures !err.Nil? ==>
        r.Wrapped? && LeafOf(r) == AddLevel(old(LeafOf(err)), level, part) && (r == err || fresh(r.err))
  {
    match err
    case Nil => r := Nil;
    case Wrapped(w) =>
      if part.Some? {
        w.path := part.value;
      }
      w.target := w.target + [level];
      r := err;
    case Plain(cause) =>
      var w := new WrapError(cause, [level], if part.Some? then part.value else "");
      r := Wrapped(w);
  }

  /** Wrapping keeps the number and the order of the errors, and adds the level to every one of them, once. */
  method Wrap(err: Err, level: Level, part: Option<string>) returns (r: Err)
    requires Valid(err)
    modifies Footprint(err)
    ensures Valid(r) && fresh(Footprint(r) - old(Footprint(err)))
    ensures Leaves(r) == AddLevels(old(Leaves(err)), level, part)
    ensures err.Many? ==> r == err
  {
    if !err.Many? {
      r := WrapOne(err, level, part);
      return;
    }
    var l := err.list;
    ghost var leaves := l.leaves;
    for i := 0 to |l.errors|
      invariant Partly(l, i, leaves, level, part) && fresh(l.nodes - old(l.nodes)) && |l.errors| == |leaves|
    {
      WrapAt(l, i, level, part, leaves);
    }
    l.leaves := AddLevels(leaves, level, part);
    r := err;
  }

  /** The first i errors are wrapped, and stand for their leaf with a level more. */
  ghost predicate Partly(l: ErrList, i: nat, leaves: seq<Leaf>, level: Level, part: Option<string>)
    reads l, l.nodes
  {
    && i <= |l.errors| == |leaves|
    && (forall j :: 0 <= j < |leaves| ==>
          && (l.errors[j].Plain? || (l.errors[j].Wrapped? && l.errors[j].err in l.nodes))
          && LeafOf(l.errors[j]) == if j < i then AddLevel(leaves[j], level, part) else leaves[j])
    && forall j, k :: 0 <= j < k < |leaves| && l.errors[j].Wrapped? ==> l.errors[j] != l.errors[k]
  }

  method WrapAt(l: ErrList, i: nat, level: Level, part: Option<string>, ghost leaves: seq<Leaf>)
    requires i < |leaves| && Partly(l, i, leaves, level, part)
    modifies l, l.nodes
    ensures Partly(l, i + 1, leaves, level, part) && fresh(l.nodes - old(l.nodes)) && |l.errors| == |leaves|
  {
    ghost var errors := l.errors;
    var e := WrapOne(l.errors[i], level, part);
    assert forall j :: 0 <= j < |leaves| && j != i ==> LeafOf(errors[j]) == old(LeafOf(l.errors[j]));
    l.errors := l.errors[i := e];
    l.nodes := l.nodes + {e.err};
  }

  /** Adds one error to a list; a list is flattened into it. */
  method Extend(l: ErrList, e: Err)
    requires l.Valid() && Valid(e) && Footprint(e) !! Footprint(Many(l))
    modifies l
    ensures l.Valid() && l.leaves == old(l.leaves) + old(Leaves(e))
    ensures Footprint(Many(l)) <= old(Footprint(Many(l))) + old(Footprint(e))
  {
    match e
    case Nil =>
    case Many(m) =>
      l.errors, l.leaves, l.nodes := l.errors + m.errors, l.leaves + m.leaves, l.nodes + m.nodes;
    case Plain(_) =>
      l.errors, l.leaves := l.errors + [e], l.leaves + [LeafOf(e)];
    case Wrapped(w) =>
      l.errors, l.leaves, l.nodes := l.errors + [e], l.leaves + [LeafOf(e)], l.nodes + {w};
  }

  /** Append: the errors of both, in order, in one flat list, which is the first one's if it is a list. */
  method Append(err: Err, e: Err) returns (r: Err)
    requires Valid(err) && Valid(e) && Footprint(err) !! Footprint(e)
    modifies if err.Many? then {err.list} else {}
    ensures Valid(r) && Leaves(r) == old(Leaves(err)) + old(Leaves(e))
    ensures if err.Nil? && e.Nil? then r.Nil? else r.Many? && (err.Many? ==> r == err)
    ensures fresh(Footprint(r) - old(Footprint(err)) - old(Footprint(e)))
  {
    if err.Many? {
      Extend(err.list, e);
      return err;
    }
    if err.Nil? && e.Nil? { return Nil; }
    var l := new ErrList();
    Extend(l, err);
    Extend(l, e);
    r := Many(l);
  }
}
