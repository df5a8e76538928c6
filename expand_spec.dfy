/** Reference definition of the macro-expansion fixpoint of
    internal/generator/macros.go, and what it guarantees.

    A node whose Type has a template named "@macro.<Type>" is replaced by the
    nodes its expansion decodes to; those nodes are examined again in the next
    round. Nodes without a macro are kept, across all rounds, in the order they
    were met. The rendering of the macro template and the decoding of its output
    are outside the model: a `MacroTable` says, for a Type, whether a macro
    exists and what it expands a node to. */
module ExpandSpec {
  import opened Wrappers
  import opened Nodes
  import opened MergeSpec

  /** The nodes decoded from one execution of a macro on a node, or the decoder's error. */
  type Expansion = Node -> Result<seq<Node>, string>

  /** For a Type, the expansion of its "@macro.<Type>" template, if there is one. */
  type MacroTable = string -> Option<Expansion>

  datatype ExpandError = MacroFailed(message: string) | FuelExhausted

  /** `ns` with every Parent reference set to `p`. */
  function Reparented(ns: seq<Node>, p: Ref): (r: seq<Node>)
    ensures |r| == |ns|
    ensures forall i :: 0 <= i < |ns| ==> r[i] == ns[i].(Parent := p)
  {
    seq(|ns|, i requires 0 <= i < |ns| => ns[i].(Parent := p))
  }

  /** What one round collects: the nodes kept, and the nodes its expansions produced. */
  datatype Round = Round(Kept: seq<Node>, Expanded: seq<Node>)

  /** One round over `current`, in order; the first failing expansion aborts it. */
  function RoundOf(current: seq<Node>, macros: MacroTable): Result<Round, string>
  {
    if current == [] then Success(Round([], []))
    else
      match RoundOf(current[..|current| - 1], macros)
      case Failure(e) => Failure(e)
      case Success(r) =>
        var section := current[|current| - 1];
        match macros(section.Type)
        case None => Success(Round(r.Kept + [section], r.Expanded))
        case Some(expand) =>
          match expand(section)
          case Failure(e) => Failure(e)
          case Success(nodes) => Success(Round(r.Kept, r.Expanded + Reparented(nodes, section.Parent)))
  }

  /** Rounds until one expands nothing, at most `fuel` of them; `kept` holds
      what earlier rounds collected. */
  function Expanded(current: seq<Node>, kept: seq<Node>, macros: MacroTable, fuel: nat): Result<seq<Node>, ExpandError>
    decreases fuel
  {
    if fuel == 0 then Failure(FuelExhausted)
    else
      match RoundOf(current, macros)
      case Failure(e) => Failure(MacroFailed(e))
      case Success(r) =>
        if r.Expanded == [] then Success(kept + r.Kept)
        else Expanded(r.Expanded, kept + r.Kept, macros, fuel - 1)
  }

  /** The project after expansion: the kept nodes merged by Type and reparented to the project. */
  function ExpandedProject(project: Node, self: Ref, macros: MacroTable, fuel: nat): Result<Node, ExpandError>
  {
    match Expanded(project.Body, [], macros, fuel)
    case Failure(e) => Failure(e)
    case Success(kept) => Success(project.(Body := Reparented(MergedNodes(kept, false), self)))
  }

  ghost predicate NoMacros(ns: seq<Node>, macros: MacroTable)
  {
    forall i :: 0 <= i < |ns| ==> macros(ns[i].Type).None?
  }

  /** The nodes of `ns` whose Type has no macro, in order. */
  function WithoutMacros(ns: seq<Node>, macros: MacroTable): seq<Node>
  {
    if ns == [] then []
    else (if macros(ns[0].Type).None? then [ns[0]] else []) + WithoutMacros(ns[1..], macros)
  }

  lemma {:induction false} WithoutMacrosAppend(a: seq<Node>, b: seq<Node>, macros: MacroTable)
    ensures WithoutMacros(a + b, macros) == WithoutMacros(a, macros) + WithoutMacros(b, macros)
  {
    if a == [] {
      assert a + b == b;
    } else {
      assert (a + b)[0] == a[0];
      assert (a + b)[1..] == a[1..] + b;
      WithoutMacrosAppend(a[1..], b, macros);
      var x := if macros(a[0].Type).None? then [a[0]] else [];
      assert WithoutMacros(a + b, macros) == x + WithoutMacros(a[1..] + b, macros);
      assert x + (WithoutMacros(a[1..], macros) + WithoutMacros(b, macros))
             == (x + WithoutMacros(a[1..], macros)) + WithoutMacros(b, macros);
    }
  }

  /** A successful round keeps exactly the nodes without a macro, in order. */
  lemma {:induction false} RoundKeptIsWithoutMacros(current: seq<Node>, macros: MacroTable)
    requires RoundOf(current, macros).Success?
    ensures RoundOf(current, macros).value.Kept == WithoutMacros(current, macros)
  {
    if current != [] {
      var init := current[..|current| - 1];
      var last := current[|current| - 1];
      assert current == init + [last];
      RoundKeptIsWithoutMacros(init, macros);
      WithoutMacrosAppend(init, [last], macros);
      assert WithoutMacros([last], macros) == if macros(last.Type).None? then [last] else [];
    }
  }

  /** A round over nodes none of which has a macro keeps them all and expands nothing. */
  lemma {:induction false} RoundWithoutMacros(current: seq<Node>, macros: MacroTable)
    requires NoMacros(current, macros)
    ensures RoundOf(current, macros) == Success(Round(current, []))
  {
    if current != [] {
      var init := current[..|current| - 1];
      assert current == init + [current[|current| - 1]];
      assert NoMacros(init, macros) by {
        forall i | 0 <= i < |init| ensures macros(init[i].Type).None? {
          assert init[i] == current[i];
        }
      }
      RoundWithoutMacros(init, macros);
    }
  }

  lemma {:induction false} WithoutMacrosHasNone(ns: seq<Node>, macros: MacroTable)
    ensures NoMacros(WithoutMacros(ns, macros), macros)
  {
    if ns != [] {
      WithoutMacrosHasNone(ns[1..], macros);
      var w := WithoutMacros(ns, macros);
      var head := if macros(ns[0].Type).None? then [ns[0]] else [];
      assert w == head + WithoutMacros(ns[1..], macros);
      forall i | 0 <= i < |w| ensures macros(w[i].Type).None? {
        if i >= |head| {
          assert w[i] == WithoutMacros(ns[1..], macros)[i - |head|];
        }
      }
    }
  }

  /** No node whose Type has a macro is ever kept. */
  lemma {:induction false} ExpandedHasNoMacros(current: seq<Node>, kept: seq<Node>, macros: MacroTable, fuel: nat)
    requires NoMacros(kept, macros)
    requires Expanded(current, kept, macros, fuel).Success?
    ensures NoMacros(Expanded(current, kept, macros, fuel).value, macros)
    decreases fuel
  {
    var r := RoundOf(current, macros).value;
    RoundKeptIsWithoutMacros(current, macros);
    WithoutMacrosHasNone(current, macros);
    var kept' := kept + r.Kept;
    assert NoMacros(kept', macros) by {
      forall i | 0 <= i < |kept'| ensures macros(kept'[i].Type).None? {
        if i >= |kept| {
          assert kept'[i] == r.Kept[i - |kept|];
        }
      }
    }
    if r.Expanded != [] {
      ExpandedHasNoMacros(r.Expanded, kept', macros, fuel - 1);
    }
  }

  /** Fuel only bounds the number of rounds: more fuel never changes a result that was reached. */
  lemma {:induction false} ExpandedFuelIrrelevant(current: seq<Node>, kept: seq<Node>, macros: MacroTable, fuel: nat, more: nat)
    requires Expanded(current, kept, macros, fuel).Success?
    requires fuel <= more
    ensures Expanded(current, kept, macros, more) == Expanded(current, kept, macros, fuel)
    decreases fuel
  {
    var r := RoundOf(current, macros).value;
    if r.Expanded != [] {
      ExpandedFuelIrrelevant(r.Expanded, kept + r.Kept, macros, fuel - 1, more - 1);
    }
  }

  /** When no node of the Body has a macro, one round is enough and the new Body
      is the original Body merged by Type. */
  lemma NoMacroIsOneRound(project: Node, self: Ref, macros: MacroTable, fuel: nat)
    requires NoMacros(project.Body, macros)
    requires fuel >= 1
    ensures RoundOf(project.Body, macros) == Success(Round(project.Body, []))
    ensures ExpandedProject(project, self, macros, fuel)
            == Success(project.(Body := Reparented(MergedNodes(project.Body, false), self)))
  {
    RoundWithoutMacros(project.Body, macros);
    assert [] + project.Body == project.Body;
  }

  /** After a successful expansion the project's Body has pairwise distinct
      Types, none of which has a macro, and every node's Parent is the project. */
  lemma ExpandedProjectFacts(project: Node, self: Ref, macros: MacroTable, fuel: nat)
    requires ExpandedProject(project, self, macros, fuel).Success?
    ensures var p := ExpandedProject(project, self, macros, fuel).value;
            && p.Type == project.Type && p.Name == project.Name && p.Keys == project.Keys
            && (forall i :: 0 <= i < |p.Body| ==> p.Body[i].Parent == self)
            && (forall i, j :: 0 <= i < j < |p.Body| ==> p.Body[i].Type != p.Body[j].Type)
            && NoMacros(p.Body, macros)
  {
    var kept := Expanded(project.Body, [], macros, fuel).value;
    ExpandedHasNoMacros(project.Body, [], macros, fuel);
    var merged := MergedNodes(kept, false);
    MergedNodesDistinct(kept, false);
    MergedNodesKeys(kept, false);
    var p := ExpandedProject(project, self, macros, fuel).value;
    assert p.Body == Reparented(merged, self);
    forall i | 0 <= i < |p.Body| ensures macros(p.Body[i].Type).None? {
      assert p.Body[i].Type == merged[i].Type;
      assert merged[i] in merged;
      assert merged[i].Type in TypeSet(kept);
      var x :| x in kept && x.Type == merged[i].Type;
      var j :| 0 <= j < |kept| && kept[j] == x;
    }
  }
}
