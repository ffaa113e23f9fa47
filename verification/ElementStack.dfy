/** The linked stack of open elements and undo records, and the free list its nodes are recycled through. */
module ElementStack {
  import opened Bytes
  import opened Lexing
  import opened Namespaces

  datatype Kind = StkStart | StkNs

  class Node {
    var next: Node?
    var kind: Kind
    var name: Name
    var ok: bool

    constructor ()
      ensures next == null
    {
      next, kind, name, ok := null, StkStart, Name([], []), false;
    }

    /** What the node records. The ok field of a start is whatever its node held before. */
    ghost function Record(): Entry
      reads this
    {
      if kind == StkStart then StartEntry(name) else NsEntry(name.local, name.space, ok)
    }
  }

  ghost function After(nodes: seq<Node>, i: nat): Node? {
    if i + 1 < |nodes| then nodes[i + 1] else null
  }

  /** nodes is the list that starts at head. */
  ghost predicate IsList(head: Node?, nodes: seq<Node>)
    reads nodes
  {
    && (head == if |nodes| == 0 then null else nodes[0])
    && (forall i :: 0 <= i < |nodes| ==> nodes[i].next == After(nodes, i))
  }

  class Stack {
    var stk: Node?
    var free: Node?
    /** The nodes in use and the nodes to recycle, both from the top. */
    ghost var live: seq<Node>
    ghost var spare: seq<Node>
    ghost var entries: seq<Entry>

    /** Every node on either list: all that was ever allocated, except one on its way from list to list. */
    ghost var nodes: set<Node>

    /** No node is on both lists or twice on one, and together they hold every node. */
    ghost predicate Split()
      reads this
    {
      && (forall n <- live :: n in nodes) && (forall n <- spare :: n in nodes)
      && (forall n <- nodes :: n in live || n in spare)
      && (forall i, j :: 0 <= i < j < |live| ==> live[i] != live[j])
      && (forall i, j :: 0 <= i < j < |spare| ==> spare[i] != spare[j])
      && (forall i, j :: 0 <= i < |live| && 0 <= j < |spare| ==> live[i] != spare[j])
    }

    ghost predicate Recorded()
      requires Split()
      reads this, nodes
    {
      |entries| == |live| && forall i :: 0 <= i < |live| ==> entries[i] == live[i].Record()
    }

    ghost predicate Linked()
      requires Split()
      reads this, nodes
    {
      IsList(stk, live) && IsList(free, spare)
    }

    /** Besides, both lists are chains that end, and entries is what the live nodes record. */
    ghost predicate Valid()
      reads this, nodes
    {
      Split() && Linked() && Recorded()
    }

    constructor ()
      ensures Valid() && entries == [] && nodes == {}
    {
      stk, free := null, null;
      live, spare, entries, nodes := [], [], [], {};
    }

    predicate IsEmpty()
      requires Valid()
      reads this, nodes
      ensures IsEmpty() <==> entries == []
    {
      stk == null
    }

    /** Takes a node off the free list, or allocates one when there is none to recycle. */
    method Take() returns (s: Node)
      requires Valid()
      modifies this
      ensures Valid() && live == old(live) && entries == old(entries)
      ensures s !in nodes && nodes == old(nodes) - {s}
      ensures if old(spare) == [] then fresh(s) && spare == [] else s == old(spare)[0] && spare == old(spare)[1..]
    {
      if free != null {
        s := free;
        assert s == spare[0];
        free := s.next;
        spare, nodes := spare[1..], nodes - {s};
      } else {
        s := new Node();
      }
    }

    /** Puts a node that is on neither list on top of the stack. */
    method Link(s: Node)
      requires Valid() && s !in nodes
      modifies this, s
      ensures Valid() && nodes == old(nodes) + {s}
      ensures live == [s] + old(live) && spare == old(spare) && entries == [old(s.Record())] + old(entries)
    {
      s.next := stk;
      stk := s;
      live, nodes, entries := [s] + live, nodes + {s}, [s.Record()] + entries;
    }

    /** Takes the top node off the stack. */
    method Unlink() returns (s: Node)
      requires Valid() && stk != null
      modifies this
      ensures Valid() && old(entries) != [] && s == old(live)[0] && s !in nodes && nodes == old(nodes) - {s}
      ensures live == old(live)[1..] && spare == old(spare) && entries == old(entries)[1..]
      ensures s.Record() == old(entries)[0]
    {
      s := stk;
      assert s == live[0];
      stk := s.next;
      live, nodes, entries := live[1..], nodes - {s}, entries[1..];
    }

    /** Puts a node that is on neither list on the free list. */
    method Recycle(s: Node)
      requires Valid() && s !in nodes
      modifies this, s`next
      ensures Valid() && nodes == old(nodes) + {s}
      ensures live == old(live) && spare == [s] + old(spare) && entries == old(entries)
    {
      s.next := free;
      free := s;
      spare, nodes := [s] + spare, nodes + {s};
    }

    /** Pops the top node and recycles it. */
    method Pop() returns (s: Node?)
      requires Valid()
      modifies this, nodes
      ensures Valid() && nodes == old(nodes)
      ensures if old(entries) == [] then s == null && entries == []
              else s != null && s.Record() == old(entries)[0] && entries == old(entries)[1..]
      ensures s != null ==> s == old(live)[0] && live == old(live)[1..] && spare == [s] + old(spare)
    {
      s := stk;
      if s != null {
        s := Unlink();
        Recycle(s);
      }
    }

    /** What a node records that is on neither list does not matter. */
    twostate lemma StaysValid(s: Node)
      requires old(Valid()) && unchanged(this) && s !in nodes && forall n <- nodes :: unchanged(n)
      ensures Valid()
    {
    }

    /** Opens an element. The ok field of its node is whatever the node held before. */
    method PushElement(name: Name)
      requires Valid()
      modifies this, nodes
      ensures Valid() && fresh(nodes - old(nodes)) && old(nodes) <= nodes
      ensures entries == [StartEntry(name)] + old(entries)
      ensures |spare| == if old(spare) == [] then 0 else |old(spare)| - 1
    {
      var s := Take();
      label taken:
      s.kind, s.name := StkStart, name;
      StaysValid@taken(s);
      Link(s);
    }

    /** Records what the prefix local was bound to. */
    method PushNs(local: seq<Byte>, url: seq<Byte>, ok: bool)
      requires Valid()
      modifies this, nodes
      ensures Valid() && fresh(nodes - old(nodes)) && old(nodes) <= nodes
      ensures entries == [NsEntry(local, url, ok)] + old(entries)
      ensures |spare| == if old(spare) == [] then 0 else |old(spare)| - 1
    {
      var s := Take();
      label taken:
      s.kind, s.name, s.ok := StkNs, Name(url, local), ok;
      StaysValid@taken(s);
      Link(s);
    }
  }
}
