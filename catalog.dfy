/** The generator's mutable registries (internal/generator/generator.go):
    `Dictionary`, `Agenda` and `Catalog`, each related to the values of
    CatalogSpec. */
module Catalogs {
  import opened Nodes
  import opened CatalogSpec

  /** Nodes both in insertion order and indexed by Name. */
  class Dictionary {
    var Map: map<string, Node>
    var List: seq<Node>

    /** The index is the one the list determines. */
    ghost predicate Valid()
      reads this
    {
      Map == NameIndex(List)
    }

    function View(): DictionaryView
      reads this
    {
      DictionaryView(Map, List)
    }

    /** `NewDictionary`. */
    constructor ()
      ensures Valid() && View() == EmptyDictionary
    {
      Map := map[];
      List := [];
    }

    /** `Dictionary.Add`: append the node; index it by Name when it has one. */
    method Add(node: Node)
      modifies this
      ensures View() == Added(old(View()), node)
      ensures List == old(List) + [node]
      ensures |node.Name| > 0 ==> Map == old(Map)[node.Name := node]
      ensures |node.Name| == 0 ==> Map == old(Map)
      ensures old(Valid()) ==> Valid()
    {
      if Valid() {
        AddedIndexes(View(), node);
      }
      if |node.Name| > 0 {
        Map := Map[node.Name := node];
      }
      List := List + [node];
    }
  }

  /** The templates and actions of one element kind. */
  class Agenda {
    const Templates: Dictionary
    const Actions: Dictionary
    var Found: bool

    /** The two dictionaries are distinct objects, so adding to one leaves the other as it was. */
    ghost predicate Valid()
    {
      Templates != Actions
    }

    function View(): AgendaView
      reads this, Templates, Actions
    {
      AgendaView(Templates.View(), Actions.View(), Found)
    }

    /** `NewAgenda`. */
    constructor ()
      ensures Valid() && View() == EmptyAgenda
      ensures fresh(Templates) && fresh(Actions)
      ensures Templates.Valid() && Actions.Valid()
    {
      Templates := new Dictionary();
      Actions := new Dictionary();
      Found := false;
    }

    /** `Agenda.AddTemplate`. */
    method AddTemplate(node: Node)
      requires Valid()
      modifies Templates
      ensures old(Templates.Valid()) ==> Templates.Valid()
      ensures View() == old(View()).(Templates := Added(old(Templates.View()), node))
    {
      Templates.Add(node);
    }

    /** `Agenda.AddAction`. */
    method AddAction(node: Node)
      requires Valid()
      modifies Actions
      ensures old(Actions.Valid()) ==> Actions.Valid()
      ensures View() == old(View()).(Actions := Added(old(Actions.View()), node))
    {
      Actions.Add(node);
    }
  }

  /** The agendas by element kind (`type Catalog map[string]*Agenda`). The
      catalog holds each agenda as its value: the source reaches an agenda only
      through the catalog, so no agenda is shared between two kinds. */
  class Catalog {
    var Agendas: CatalogView

    /** An empty catalog (`Catalog{}`). */
    constructor ()
      ensures Agendas == map[]
    {
      Agendas := map[];
    }

    /** `Catalog.Add`: the agenda of `elem`, created empty and registered when missing. */
    method Add(elem: string) returns (agenda: AgendaView)
      modifies this
      ensures Agendas == Ensured(old(Agendas), elem)
      ensures agenda == Agendas[elem]
    {
      if elem !in Agendas {
        Agendas := Agendas[elem := EmptyAgenda];
      }
      agenda := Agendas[elem];
    }

    /** `agenda.AddTemplate(n)` or `agenda.AddAction(n)` on the agenda the
        catalog holds for `elem`. */
    method AddTo(kind: Kind, elem: string, n: Node)
      requires elem in Agendas
      modifies this
      ensures Agendas == old(Agendas)[elem := if kind.TemplateKind? then old(Agendas)[elem].(Templates := Added(old(Agendas)[elem].Templates, n))
                                               else old(Agendas)[elem].(Actions := Added(old(Agendas)[elem].Actions, n))]
    {
      var agenda := Agendas[elem];
      if kind.TemplateKind? {
        agenda := agenda.(Templates := Added(agenda.Templates, n));
      } else {
        agenda := agenda.(Actions := Added(agenda.Actions, n));
      }
      Agendas := Agendas[elem := agenda];
    }

    /** Set the Found flag of the agenda of kind `t`, if there is one. */
    method MarkAgenda(t: string)
      modifies this
      ensures Agendas == MarkFound(old(Agendas), {t})
    {
      MarkFoundOne(Agendas, t);
      if t in Agendas {
        Agendas := Agendas[t := Agendas[t].(Found := true)];
      }
    }

    /** `validateNode`: mark the agenda of every kind in the tree as found. */
    method ValidateNode(node: Node)
      modifies this
      ensures Agendas == MarkFound(old(Agendas), TypesOf(node))
      decreases node
    {
      ghost var before := Agendas;
      MarkAgenda(node.Type);
      ghost var seen := {node.Type};
      var i := 0;
      while i < |node.Body|
        invariant 0 <= i <= |node.Body|
        invariant seen == {node.Type} + TypesOfAll(node.Body[..i])
        invariant Agendas == MarkFound(before, seen)
      {
        ValidateNode(node.Body[i]);
        MarkFoundTwice(before, seen, TypesOf(node.Body[i]));
        ValidatedPrefix(node.Body, i);
        seen := seen + TypesOf(node.Body[i]);
        i := i + 1;
      }
      assert node.Body[..i] == node.Body;
    }
  }

  /** Marking one kind sets that agenda's flag and nothing else. */
  lemma MarkFoundOne(c: CatalogView, t: string)
    ensures MarkFound(c, {t}) == if t in c then c[t := c[t].(Found := true)] else c
  {
  }

  lemma ValidatedPrefix(ns: seq<Node>, i: nat)
    requires i < |ns|
    ensures TypesOfAll(ns[..i + 1]) == TypesOfAll(ns[..i]) + TypesOf(ns[i])
  {
    assert ns[..i + 1] == ns[..i] + [ns[i]];
    TypesOfAllAppend(ns[..i], [ns[i]]);
    assert [ns[i]][1..] == [];
  }
}
