/** The older generator's mutable types (internal/generate/generator.go):
    `Agenda`, `Catalog`, `Dictionary` and `Generator`, each method proved
    against its value in LegacySpec. */
module Legacy {
  import opened Wrappers
  import opened Nodes
  import opened Effects
  import opened LegacySpec

  /** The templates and actions of one element kind. */
  class Agenda {
    var Templates: seq<Node>
    var Actions: seq<Node>

    function View(): AgendaView
      reads this
    {
      AgendaView(Templates, Actions)
    }

    /** `NewAgenda`. */
    constructor ()
      ensures View() == EmptyAgenda
    {
      Templates := [];
      Actions := [];
    }

    /** `Agenda.AddTemplate`: append; the actions stay as they were. */
    method AddTemplate(node: Node)
      modifies this
      ensures Templates == old(Templates) + [node] && Actions == old(Actions)
      ensures View() == Appended(TemplateRole, old(View()), node)
    {
      Templates := Templates + [node];
    }

    /** `Agenda.AddAction`: append; the templates stay as they were. */
    method AddAction(node: Node)
      modifies this
      ensures Actions == old(Actions) + [node] && Templates == old(Templates)
      ensures View() == Appended(ActionRole, old(View()), node)
    {
      Actions := Actions + [node];
    }
  }

  /** `type Catalog map[string]*Agenda`. The catalog holds each agenda as its
      value: an agenda is only reached through the catalog, and the walk only
      reads the agendas. */
  class Catalog {
    var Agendas: CatalogView

    constructor ()
      ensures Agendas == map[]
    {
      Agendas := map[];
    }

    /** `Catalog.Get`: the agenda of `elem`, inserted empty when missing. */
    method Get(elem: string) returns (agenda: AgendaView)
      modifies this
      ensures Agendas == Got(old(Agendas), elem)
      ensures agenda == Agendas[elem]
      ensures elem in old(Agendas) ==> agenda == old(Agendas)[elem]
      ensures elem !in old(Agendas) ==> agenda == EmptyAgenda
    {
      if elem !in Agendas {
        Agendas := Agendas[elem := EmptyAgenda];
      }
      agenda := Agendas[elem];
    }

    /** `cat.Get(elem)` followed by `AddTemplate(n)` or `AddAction(n)` on the agenda. */
    method File(role: Role, elem: string, n: Node)
      modifies this
      ensures Agendas == Filed(role, old(Agendas), elem, n)
    {
      var agenda := Get(elem);
      Agendas := Agendas[elem := Appended(role, agenda, n)];
    }

    /** One loop of `NewGenerator`: file every node with an element, skip the others. */
    method Collect(role: Role, ns: seq<Node>)
      modifies this
      ensures Agendas == LegacySpec.Collect(role, old(Agendas), ns)
    {
      ghost var before := Agendas;
      var i := 0;
      while i < |ns|
        invariant 0 <= i <= |ns|
        invariant LegacySpec.Collect(role, before, ns) == LegacySpec.Collect(role, Agendas, ns[i..])
      {
        assert ns[i..][0] == ns[i] && ns[i..][1..] == ns[i + 1..];
        if "element" in ns[i].Keys {
          File(role, ns[i].Keys["element"], ns[i]);
        }
        i := i + 1;
      }
    }
  }

  /** `type Dictionary map[string]*brief.Node`: the node being visited for
      each kind, shared by the whole walk. */
  class Dictionary {
    var Entries: map<string, Node>

    constructor ()
      ensures Entries == map[]
    {
      Entries := map[];
    }
  }

  class Generator {
    const Catalog: Catalog
    /** The calls of the two step stubs so far. */
    var Visits: seq<Visit>

    function State(dict: Dictionary): WalkState
      reads this, Catalog, dict
    {
      WalkState(Catalog.Agendas, dict.Entries, Visits)
    }

    constructor (cat: Catalog)
      ensures Catalog == cat && Visits == []
    {
      Catalog := cat;
      Visits := [];
    }

    /** `NewGenerator`: the catalog of the `templates` and `actions` children,
        then the project templates of the `dir` key of `templates`, loaded by
        `load`. The catalog starts as an empty map here; the source's starts as
        a nil map, see `CatalogAsWritten`. */
    static method NewGenerator(gen: Node, load: (string, bool) -> Option<string>) returns (g: Generator?, err: Option<Error>)
      requires Child(gen, "templates").Some?
      ensures var t := Child(gen, "templates").value;
              var dir := if "dir" in t.Keys then t.Keys["dir"] else "";
              err == (match load(dir, "dir" in t.Keys) case None => None case Some(e) => Some(LoadFailed(e)))
      ensures err.None? ==> g != null && fresh(g) && fresh(g.Catalog) && g.Catalog.Agendas == CatalogOf(gen) && g.Visits == []
    {
      var cat := new Catalog();
      var templates := Child(gen, "templates");
      if templates.Some? {
        cat.Collect(TemplateRole, templates.value.Body);
      }
      var actions := Child(gen, "actions");
      if actions.Some? {
        cat.Collect(ActionRole, actions.value.Body);
      }
      var t := templates.value;
      var dir := if "dir" in t.Keys then t.Keys["dir"] else "";
      var loaded := load(dir, "dir" in t.Keys);
      if loaded.Some? {
        return null, Some(LoadFailed(loaded.value));
      }
      g := new Generator(cat);
      return g, None;
    }

    /** `FileTemplate`, a stub that succeeds: the call is recorded. */
    method FileTemplate(nth: nat, node: Node, dict: Dictionary) returns (err: Option<Error>)
      modifies this
      ensures Visits == old(Visits) + [TemplateVisit(nth, node, dict.Entries)] && err == None
    {
      Visits := Visits + [TemplateVisit(nth, node, dict.Entries)];
      return None;
    }

    /** `ExecAction`, a stub that succeeds: the call is recorded. */
    method ExecAction(nth: nat, node: Node, dict: Dictionary) returns (err: Option<Error>)
      modifies this
      ensures Visits == old(Visits) + [ActionVisit(nth, node, dict.Entries)] && err == None
    {
      Visits := Visits + [ActionVisit(nth, node, dict.Entries)];
      return None;
    }

    /** The templates loop of `NextNode`. */
    method FileTemplates(ts: seq<Node>, dict: Dictionary)
      modifies this
      ensures Visits == old(Visits) + TemplateVisits(ts, dict.Entries)
    {
      var i := 0;
      while i < |ts|
        invariant 0 <= i <= |ts|
        invariant Visits == old(Visits) + TemplateVisits(ts[..i], dict.Entries)
      {
        var _ := FileTemplate(i, ts[i], dict);
        i := i + 1;
      }
      assert ts[..i] == ts;
    }

    /** The actions loop of `NextNode`. */
    method ExecActions(acts: seq<Node>, dict: Dictionary)
      modifies this
      ensures Visits == old(Visits) + ActionVisits(acts, dict.Entries)
    {
      var i := 0;
      while i < |acts|
        invariant 0 <= i <= |acts|
        invariant Visits == old(Visits) + ActionVisits(acts[..i], dict.Entries)
      {
        var _ := ExecAction(i, acts[i], dict);
        i := i + 1;
      }
      assert acts[..i] == acts;
    }

    /** `NextNode`: the walk of `Walk`; the stubs' results are ignored and the
        walk always succeeds. */
    method NextNode(nth: nat, node: Node, dict: Dictionary) returns (err: Option<Error>)
      modifies this, Catalog, dict
      ensures State(dict) == Walk(old(State(dict)), node)
      ensures err == None
      decreases Size(node), 0
    {
      dict.Entries := dict.Entries[node.Type := node];
      var agenda := Catalog.Get(node.Type);
      FileTemplates(agenda.Templates, dict);
      NextNodes(node.Body, dict);
      ExecActions(agenda.Actions, dict);
      dict.Entries := dict.Entries - {node.Type};
      return None;
    }

    /** The children loop of `NextNode`, in Body order. */
    method NextNodes(ns: seq<Node>, dict: Dictionary)
      modifies this, Catalog, dict
      ensures State(dict) == WalkAll(old(State(dict)), ns)
      decreases TotalSize(ns), 1
    {
      ghost var s := State(dict);
      var k := 0;
      assert ns[0..] == ns;
      while k < |ns|
        invariant 0 <= k <= |ns|
        invariant WalkAll(s, ns) == WalkAll(State(dict), ns[k..])
        invariant TotalSize(ns[k..]) <= TotalSize(ns)
      {
        assert ns[k..][0] == ns[k] && ns[k..][1..] == ns[k + 1..];
        assert TotalSize(ns[k..]) == Size(ns[k]) + TotalSize(ns[k + 1..]);
        var _ := NextNode(k, ns[k], dict);
        k := k + 1;
      }
    }
  }
}
