/** The specification-tree node of the external `brief` decoder.

    A node is a value here: the generator only ever sees trees whose nodes are
    not shared, so updating a node in place and returning the updated value are
    the same thing. The weak `Parent` back-reference becomes an arena index. */
module Nodes {
  import opened Wrappers

  /** Identity of a node in the arena that holds the tree (the target of a Parent pointer). */
  type Ref = nat

  datatype Node = Node(
    Type: string,
    Name: string,
    Content: string,
    Keys: map<string, string>,
    Body: seq<Node>,
    Parent: Ref)

  /** Number of nodes in the tree rooted at `n`. */
  function Size(n: Node): nat
  {
    1 + TotalSize(n.Body)
  }

  /** Number of nodes in a forest. */
  function TotalSize(ns: seq<Node>): nat
  {
    if ns == [] then 0 else Size(ns[0]) + TotalSize(ns[1..])
  }

  lemma {:induction false} TotalSizeAppend(a: seq<Node>, b: seq<Node>)
    ensures TotalSize(a + b) == TotalSize(a) + TotalSize(b)
  {
    if a == [] {
      assert a + b == b;
    } else {
      assert (a + b)[0] == a[0];
      assert (a + b)[1..] == a[1..] + b;
      TotalSizeAppend(a[1..], b);
    }
  }

  /** Every element kind occurring in the tree rooted at `n`. */
  function TypesOf(n: Node): set<string>
  {
    {n.Type} + TypesOfAll(n.Body)
  }

  /** Every element kind occurring in a forest. */
  function TypesOfAll(ns: seq<Node>): set<string>
  {
    if ns == [] then {} else TypesOf(ns[0]) + TypesOfAll(ns[1..])
  }

  lemma {:induction false} TypesOfAllAppend(a: seq<Node>, b: seq<Node>)
    ensures TypesOfAll(a + b) == TypesOfAll(a) + TypesOfAll(b)
  {
    if a == [] {
      assert a + b == b;
    } else {
      assert (a + b)[0] == a[0];
      assert (a + b)[1..] == a[1..] + b;
      TypesOfAllAppend(a[1..], b);
    }
  }

  /** The first node of kind `t` in `ns`; brief's `Child` and `GetNode` lookups. */
  function FirstOfType(ns: seq<Node>, t: string): (r: Option<Node>)
    ensures r.Some? ==> r.value.Type == t && r.value in ns
    ensures r.None? <==> forall i :: 0 <= i < |ns| ==> ns[i].Type != t
    ensures r.Some? ==> exists i :: 0 <= i < |ns| && ns[i] == r.value &&
                          forall j :: 0 <= j < i ==> ns[j].Type != t
  {
    if ns == [] then None
    else if ns[0].Type == t then Some(ns[0])
    else
      var r := FirstOfType(ns[1..], t);
      assert forall i :: 1 <= i < |ns| ==> ns[i] == ns[1..][i - 1];
      r
  }

  /** `node.Child(t)`: the first child of kind `t`. */
  function Child(node: Node, t: string): Option<Node>
  {
    FirstOfType(node.Body, t)
  }
}
