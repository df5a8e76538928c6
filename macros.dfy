/** internal/generator/macros.go: the sibling merge and the macro-expansion loop.

    Go updates the target node in place; here each method returns the updated
    node, which is the same thing for the unshared trees the generator handles.
    Each method is proved equal to its reference definition in MergeSpec or
    ExpandSpec, where the merge and expansion properties are proved. */
module Macros {
  import opened Wrappers
  import opened Nodes
  import opened MergeSpec
  import opened ExpandSpec

  /** Name and keys of `other` merged into `node`; the left node takes precedence. */
  method MergeKeys(node: Node, other: Node) returns (r: Node)
    ensures r.Type == node.Type && r.Content == node.Content && r.Body == node.Body && r.Parent == node.Parent
    ensures r.Name == if node.Name == "" then other.Name else node.Name
    ensures forall k :: k in node.Keys ==> k in r.Keys && r.Keys[k] == node.Keys[k]
    ensures forall k :: k in other.Keys && k !in node.Keys ==> k in r.Keys && r.Keys[k] == other.Keys[k]
    ensures forall k :: k in r.Keys ==> k in node.Keys || k in other.Keys
  {
    r := node;
    if r.Name == "" {
      r := r.(Name := other.Name);
    }
    var keys := r.Keys;
    var todo := other.Keys.Keys;
    while todo != {}
      invariant todo <= other.Keys.Keys
      invariant forall k :: k in node.Keys ==> k in keys && keys[k] == node.Keys[k]
      invariant forall k :: k in other.Keys && k !in node.Keys && k !in todo ==> k in keys && keys[k] == other.Keys[k]
      invariant forall k :: k in keys ==> k in node.Keys || (k in other.Keys && k !in todo)
      decreases todo
    {
      // Go ranges over the map in an unspecified order; each key is treated once either way.
      var key :| key in todo;
      if key !in keys {
        keys := keys[key := other.Keys[key]];
      }
      todo := todo - {key};
    }
    r := r.(Keys := keys);
  }

  /** The children of both nodes concatenated and merged by Type and Name. */
  method MergeBody(node: Node, other: Node) returns (r: Node)
    ensures r == node.(Body := MergedNodes(node.Body + other.Body, true))
    decreases Size(node) + Size(other), 0
  {
    var body := node.Body + other.Body;
    TotalSizeAppend(node.Body, other.Body);
    var nodes := MergeNodes(body, true);
    r := node.(Body := nodes);
  }

  /** `other` merged into `node`, recursively. */
  method MergeNode(node: Node, other: Node) returns (r: Node)
    ensures r == MergedNode(node, other)
    decreases Size(node) + Size(other), 1
  {
    r := MergeKeys(node, other);
    r := MergeBody(r, other);
    if r.Content == "" {
      r := r.(Content := other.Content);
    }
    assert r.Keys == other.Keys + node.Keys;
  }

  lemma {:induction false} MergedIntoAppend(acc: Node, ms: seq<Node>, m: Node)
    ensures MergedInto(acc, ms + [m]) == MergedNode(MergedInto(acc, ms), m)
    decreases |ms|
  {
    if ms == [] {
      assert ms + [m] == [m];
    } else {
      assert (ms + [m])[1..] == ms[1..] + [m];
      MergedIntoAppend(MergedNode(acc, ms[0]), ms[1..], m);
    }
  }

  lemma MergeStepJoins(c0: Node, k: GroupKey, prefix: seq<Node>, next: Node, useNames: bool)
    requires Key(next, useNames) == k
    requires Key(MergedInto(c0, Group(k, prefix, useNames)), useNames) == k
    ensures MergedInto(c0, Group(k, prefix + [next], useNames)) == MergedNode(MergedInto(c0, Group(k, prefix, useNames)), next)
    ensures Others(k, prefix + [next], useNames) == Others(k, prefix, useNames)
    ensures Key(MergedNode(MergedInto(c0, Group(k, prefix, useNames)), next), useNames) == k
  {
    GroupAppend(k, prefix, [next], useNames);
    OthersAppend(k, prefix, [next], useNames);
    assert [next][1..] == [];
    assert Group(k, [next], useNames) == [next];
    MergedIntoAppend(c0, Group(k, prefix, useNames), next);
  }

  lemma MergeStepSkips(k: GroupKey, prefix: seq<Node>, next: Node, useNames: bool)
    requires Key(next, useNames) != k
    ensures Group(k, prefix + [next], useNames) == Group(k, prefix, useNames)
    ensures Others(k, prefix + [next], useNames) == Others(k, prefix, useNames) + [next]
  {
    GroupAppend(k, prefix, [next], useNames);
    OthersAppend(k, prefix, [next], useNames);
    assert [next][1..] == [];
  }

  lemma MergeRoundDone(current: seq<Node>, useNames: bool)
    requires current != []
    ensures var k := Key(current[0], useNames);
            && MergedNodes(current, useNames)
               == [MergedInto(current[0], Group(k, current[1..], useNames))] + MergedNodes(Others(k, current[1..], useNames), useNames)
            && TotalSize(Others(k, current[1..], useNames)) <= TotalSize(current)
            && |Others(k, current[1..], useNames)| < |current|
  {
    PartitionSize(Key(current[0], useNames), current[1..], useNames);
  }

  /** The result so far followed by the merge of what remains, one round later. */
  lemma MergeRoundAppends(result: seq<Node>, current: seq<Node>, useNames: bool)
    requires current != []
    ensures var k := Key(current[0], useNames);
            result + MergedNodes(current, useNames)
            == (result + [MergedInto(current[0], Group(k, current[1..], useNames))]) + MergedNodes(Others(k, current[1..], useNames), useNames)
  {
    MergeRoundDone(current, useNames);
  }

  /** One round of the merge: the rest of `head`'s group merged into `head`,
      in order, and the nodes outside the group kept in order. */
  method MergeRound(head: Node, rest: seq<Node>, useNames: bool) returns (first: Node, remain: seq<Node>)
    ensures first == MergedInto(head, Group(Key(head, useNames), rest, useNames))
    ensures remain == Others(Key(head, useNames), rest, useNames)
    decreases Size(head) + TotalSize(rest), 2
  {
    ghost var k := Key(head, useNames);
    first := head;
    remain := [];
    var i := 0;
    assert rest[..0] == [] && rest[0..] == rest;
    while i < |rest|
      invariant 0 <= i <= |rest|
      invariant first == MergedInto(head, Group(k, rest[..i], useNames))
      invariant remain == Others(k, rest[..i], useNames)
      invariant Key(first, useNames) == k
      invariant Size(first) + TotalSize(rest[i..]) <= Size(head) + TotalSize(rest)
    {
      var next := rest[i];
      ghost var prefix := rest[..i];
      assert rest[..i + 1] == prefix + [next];
      assert rest[i..][0] == next && rest[i..][1..] == rest[i + 1..];
      assert TotalSize(rest[i..]) == Size(next) + TotalSize(rest[i + 1..]);
      if first.Type == next.Type && (!useNames || first.Name == next.Name) {
        MergeStepJoins(head, k, prefix, next, useNames);
        ghost var before := first;
        first := MergeNode(first, next);
        assert Size(first) < Size(before) + Size(next);
      } else {
        MergeStepSkips(k, prefix, next, useNames);
        remain := remain + [next];
      }
      i := i + 1;
    }
    assert rest[..i] == rest;
  }

  /** Merge the nodes of `body` that share a Type (and a Name, when `useNames`):
      each round moves the first remaining node to the result, merges the rest
      of its group into it, and keeps the others for the next round. What the
      result holds is proved about MergedNodes (MergedNodesLength,
      MergedNodesDistinct, MergedNodesGroups). */
  method MergeNodes(body: seq<Node>, useNames: bool) returns (result: seq<Node>)
    ensures result == MergedNodes(body, useNames)
    decreases TotalSize(body), 3
  {
    var current := body;
    result := [];
    while |current| > 0
      invariant result + MergedNodes(current, useNames) == MergedNodes(body, useNames)
      invariant TotalSize(current) <= TotalSize(body)
      decreases |current|
    {
      assert TotalSize(current) == Size(current[0]) + TotalSize(current[1..]);
      var first, remain := MergeRound(current[0], current[1..], useNames);
      MergeRoundDone(current, useNames);
      MergeRoundAppends(result, current, useNames);
      result := result + [first];
      current := remain;
    }
  }

  /** One pass of `ExpandProjectMacros` over `current`: a node whose Type has
      a macro is replaced by its expansion, reparented to the node's parent; any
      other node is kept; the first failing expansion stops the pass. */
  method ExpandRound(current: seq<Node>, macros: MacroTable) returns (r: Result<Round, string>)
    ensures r == RoundOf(current, macros)
  {
    var kept: seq<Node> := [];
    var expanded: seq<Node> := [];
    var i := 0;
    assert current[..0] == [];
    while i < |current|
      invariant 0 <= i <= |current|
      invariant RoundOf(current[..i], macros) == Success(Round(kept, expanded))
    {
      var section := current[i];
      assert current[..i + 1][..i] == current[..i];
      assert current[..i + 1][i] == section;
      var macro := macros(section.Type);
      if macro.Some? {
        var nodes := macro.value(section);
        if nodes.Failure? {
          RoundFailurePersists(current, i + 1, macros);
          return Failure(nodes.error);
        }
        expanded := expanded + Reparented(nodes.value, section.Parent);
      } else {
        kept := kept + [section];
      }
      i := i + 1;
    }
    assert current[..i] == current;
    return Success(Round(kept, expanded));
  }

  /** Expand macros in the project's Body round after round until a round
      expands nothing (at most `fuel` rounds), then merge the kept nodes by Type
      and make the project their parent. `self` is the project's own reference;
      `macros` stands for the "@macro.<Type>" template lookup and its execution.
      What the result holds is proved about ExpandedProject (ExpandedProjectFacts). */
  method ExpandProjectMacros(project: Node, self: Ref, macros: MacroTable, fuel: nat)
    returns (r: Result<Node, ExpandError>)
    ensures r == ExpandedProject(project, self, macros, fuel)
  {
    var current := project.Body;
    var body: seq<Node> := [];
    var left := fuel;
    while true
      invariant Expanded(current, body, macros, left) == Expanded(project.Body, [], macros, fuel)
      decreases left
    {
      if left == 0 {
        return Failure(FuelExhausted);
      }
      var round := ExpandRound(current, macros);
      if round.Failure? {
        return Failure(MacroFailed(round.error));
      }
      body := body + round.value.Kept;
      left := left - 1;
      if |round.value.Expanded| == 0 {
        break;
      }
      current := round.value.Expanded;
    }
    var merged := MergeNodes(body, false);
    r := Success(project.(Body := Reparented(merged, self)));
  }

  lemma {:induction false} RoundFailurePersists(current: seq<Node>, n: nat, macros: MacroTable)
    requires n <= |current|
    requires RoundOf(current[..n], macros).Failure?
    ensures RoundOf(current, macros) == RoundOf(current[..n], macros)
    decreases |current| - n
  {
    if n < |current| {
      assert current[..n + 1][..n] == current[..n];
      RoundFailurePersists(current, n + 1, macros);
    } else {
      assert current[..n] == current;
    }
  }
}
