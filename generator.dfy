/** The generator of internal/generator: its compile step, the section
    validator and the walk of generator.go, and the per-project and
    per-specification loops of command.go.

    Rendering a template, running an action and entering a project directory
    are effect steps appended to a trace; whether one fails is the oracle of
    the environment. Each method is proved against its reference definition
    in CatalogSpec, WalkSpec or CommandSpec. */
module Generators {
  import opened Wrappers
  import opened Nodes
  import opened Effects
  import opened CatalogSpec
  import opened ExpandSpec
  import opened WalkSpec
  import opened CommandSpec
  import opened Catalogs
  import opened Macros

  class Generator {
    const Catalog: Catalog
    /** Render mode, the step oracle and the other inputs not modelled as code. */
    const Env: Environment
    /** The names of the templates defined so far. */
    var Defined: set<string>

    ghost function State(): State
      reads this, Catalog
    {
      CommandSpec.State(Catalog.Agendas, Defined)
    }

    /** `Command.New`: an empty catalog and no template. */
    constructor (env: Environment)
      ensures fresh(Catalog) && Env == env
      ensures State() == CommandSpec.State(map[], {})
    {
      Catalog := new Catalog();
      Env := env;
      Defined := {};
    }

    /** One iteration of a `compile` loop: the agenda of the node's element,
        created if needed, receives the node. */
    method FileNode(kind: Kind, n: Node)
      requires "element" in n.Keys
      modifies Catalog
      ensures Catalog.Agendas == Filed(kind, old(Catalog.Agendas), n)
    {
      var elem := n.Keys["element"];
      ghost var before := Catalog.Agendas;
      var agenda := Catalog.Add(elem);
      ghost var mid := Catalog.Agendas;
      assert mid == Ensured(before, elem);
      Catalog.AddTo(kind, elem, n);
      FiledSplit(kind, before, n);
    }

    /** The body of a `compile` loop: validate the node at `pos` and, when it
        is valid, file it. */
    method RegisterNode(kind: Kind, n: Node, pos: nat) returns (err: Option<Error>)
      modifies Catalog
      ensures Registration(Catalog.Agendas, err) ==
              if Validate(kind, n, pos).Some? then Registration(old(Catalog.Agendas), Validate(kind, n, pos))
              else Registration(Filed(kind, old(Catalog.Agendas), n), None)
    {
      err := Validate(kind, n, pos);
      if err.None? {
        FileNode(kind, n);
      }
    }

    /** A `compile` loop: validate each node in Body order and file it; the
        first invalid node stops the loop and its error is returned. */
    method RegisterNodes(kind: Kind, ns: seq<Node>) returns (err: Option<Error>)
      modifies Catalog
      ensures Registration(Catalog.Agendas, err) == Register(kind, old(Catalog.Agendas), ns, 0)
    {
      ghost var before := Catalog.Agendas;
      var i := 0;
      assert ns[0..] == ns;
      while i < |ns|
        invariant 0 <= i <= |ns|
        invariant Register(kind, before, ns, 0) == Register(kind, Catalog.Agendas, ns[i..], i)
      {
        assert ns[i..][0] == ns[i] && ns[i..][1..] == ns[i + 1..];
        err := RegisterNode(kind, ns[i], i);
        if err.Some? {
          return;
        }
        i := i + 1;
      }
      assert ns[i..] == [];
      err := None;
    }

    /** `compile`: register the `templates` child's nodes, then the `actions`
        child's, each missing child being an error. */
    method Compile(gen: Node) returns (err: Option<Error>)
      modifies Catalog
      ensures Registration(Catalog.Agendas, err) == Compiled(old(Catalog.Agendas), gen)
    {
      var templates := Child(gen, "templates");
      if templates.None? {
        return Some(MissingNode("templates"));
      }
      err := RegisterNodes(TemplateKind, templates.value.Body);
      if err.Some? {
        return;
      }
      var actions := Child(gen, "actions");
      if actions.None? {
        return Some(MissingNode("actions"));
      }
      err := RegisterNodes(ActionKind, actions.value.Body);
    }

    /** `ValidateSection`: mark every kind of the section's tree as found, then
        report the kinds other than `project` that are still not found. */
    method ValidateSection(section: Node) returns (err: Option<Error>)
      modifies Catalog
      ensures Catalog.Agendas == MarkFound(old(Catalog.Agendas), TypesOf(section))
      ensures err == if Missing(Catalog.Agendas) == {} then None
                     else Some(MissingElements(section.Type, Missing(Catalog.Agendas)))
      ensures Stage(State(), err) == ValidatedSection(old(State()), section)
    {
      Catalog.ValidateNode(section);
      var todo := Catalog.Agendas.Keys;
      var missing: set<string> := {};
      while todo != {}
        invariant todo <= Catalog.Agendas.Keys
        invariant missing == set k | k in Catalog.Agendas && k !in todo && k != "project" && !Catalog.Agendas[k].Found
        decreases todo
      {
        // Go ranges over the map in an unspecified order; the result is the same set.
        var key :| key in todo;
        if key != "project" && !Catalog.Agendas[key].Found {
          missing := missing + {key};
        }
        todo := todo - {key};
      }
      assert missing == Missing(Catalog.Agendas);
      if missing != {} {
        return Some(MissingElements(section.Type, missing));
      }
      return None;
    }

    /** `GenFile`, `ExecAction` or entering a directory: perform one step
        after `trace` and report it when it fails. */
    method Perform(step: Step, trace: seq<Step>) returns (after: seq<Step>, err: Option<Error>)
      ensures after == trace + [step]
      ensures err == if Env.Fails(trace, step) then Some(StepFailed(step)) else None
      ensures Outcome(after, err) == Run(Env.Fails, trace, [step])
    {
      assert [step][1..] == [];
      after := trace + [step];
      if Env.Fails(trace, step) {
        return after, Some(StepFailed(step));
      }
      return after, None;
    }

    /** `ApplyTemplates`: render each template of the node's kind in list order,
        stopping at the first failure. */
    method ApplyTemplates(spec: Node, dir: string, trace: seq<Step>) returns (after: seq<Step>, err: Option<Error>)
      ensures Outcome(after, err) == Run(Env.Fails, trace, TemplateSteps(Catalog.Agendas, spec, dir))
    {
      ghost var steps := TemplateSteps(Catalog.Agendas, spec, dir);
      after := trace;
      if spec.Type !in Catalog.Agendas {
        return after, None;
      }
      var list := Catalog.Agendas[spec.Type].Templates.List;
      assert |steps| == |list|;
      var i := 0;
      while i < |list|
        invariant 0 <= i <= |list|
        invariant Run(Env.Fails, trace, steps) == Run(Env.Fails, after, steps[i..])
      {
        assert steps[i..][0] == GenFile(list[i], spec, dir) && steps[i..][1..] == steps[i + 1..];
        after, err := Perform(GenFile(list[i], spec, dir), after);
        if err.Some? {
          return;
        }
        i := i + 1;
      }
      return after, None;
    }

    /** `ApplyActions`: run each action of the node's kind in list order,
        stopping at the first failure; in render mode run none. */
    method ApplyActions(spec: Node, dir: string, trace: seq<Step>) returns (after: seq<Step>, err: Option<Error>)
      ensures Outcome(after, err) == Run(Env.Fails, trace, ActionSteps(Catalog.Agendas, Env.Render, spec, dir))
      ensures Env.Render ==> after == trace && err == None
    {
      ghost var steps := ActionSteps(Catalog.Agendas, Env.Render, spec, dir);
      after := trace;
      if spec.Type !in Catalog.Agendas {
        return after, None;
      }
      var agenda := Catalog.Agendas[spec.Type];
      if Env.Render {
        return after, None;
      }
      var list := agenda.Actions.List;
      assert |steps| == |list|;
      var i := 0;
      while i < |list|
        invariant 0 <= i <= |list|
        invariant Run(Env.Fails, trace, steps) == Run(Env.Fails, after, steps[i..])
      {
        assert steps[i..][0] == ExecAction(list[i], spec, dir) && steps[i..][1..] == steps[i + 1..];
        after, err := Perform(ExecAction(list[i], spec, dir), after);
        if err.Some? {
          return;
        }
        i := i + 1;
      }
      return after, None;
    }

    /** `NextNode`: the node's templates, each child's walk, then the node's
        actions; the first failure stops the walk. */
    method NextNode(node: Node, dir: string, trace: seq<Step>) returns (after: seq<Step>, err: Option<Error>)
      ensures Outcome(after, err) == WalkNode(Env.Fails, Catalog.Agendas, Env.Render, node, dir, trace)
      decreases Size(node), 0
    {
      after, err := ApplyTemplates(node, dir, trace);
      if err.Some? {
        return;
      }
      after, err := NextNodes(node.Body, dir, after);
      if err.Some? {
        return;
      }
      after, err := ApplyActions(node, dir, after);
    }

    /** The loop over a node's children, each walked in Body order. */
    method NextNodes(ns: seq<Node>, dir: string, trace: seq<Step>) returns (after: seq<Step>, err: Option<Error>)
      ensures Outcome(after, err) == WalkNodes(Env.Fails, Catalog.Agendas, Env.Render, ns, dir, trace)
      decreases TotalSize(ns), 1
    {
      after := trace;
      var i := 0;
      assert ns[0..] == ns;
      while i < |ns|
        invariant 0 <= i <= |ns|
        invariant WalkNodes(Env.Fails, Catalog.Agendas, Env.Render, ns, dir, trace)
                  == WalkNodes(Env.Fails, Catalog.Agendas, Env.Render, ns[i..], dir, after)
        invariant TotalSize(ns[i..]) <= TotalSize(ns)
      {
        assert ns[i..][0] == ns[i] && ns[i..][1..] == ns[i + 1..];
        assert TotalSize(ns[i..]) == Size(ns[i]) + TotalSize(ns[i + 1..]);
        after, err := NextNode(ns[i], dir, after);
        if err.Some? {
          return;
        }
        i := i + 1;
      }
      return after, None;
    }

    /** `CompileSection`: an empty catalog is an error before anything is
        loaded; then the section's templates are loaded, and having no
        template at all is an error. */
    method CompileSection(section: Node) returns (err: Option<Error>)
      modifies this
      ensures Stage(State(), err) == CompiledSection(Env, old(State()), section)
    {
      if |Catalog.Agendas| == 0 {
        assert Catalog.Agendas == map[];
        return Some(EmptyCatalog);
      }
      assert Catalog.Agendas != map[] by {
        var k :| k in Catalog.Agendas;
        assert k in Catalog.Agendas;
      }
      var loaded := Env.Load(section);
      if loaded.Failure? {
        return Some(LoadFailed(loaded.error));
      }
      Defined := Defined + loaded.value;
      if Defined == {} {
        return Some(NoTemplates(section.Type, section.Name));
      }
      return None;
    }

    /** `Project`'s first loop: compile and validate every section in order. */
    method PrepareSections(sections: seq<Node>) returns (err: Option<Error>)
      modifies this, Catalog
      ensures Stage(State(), err) == Prepared(Env, old(State()), sections)
    {
      ghost var before := State();
      var i := 0;
      while i < |sections|
        invariant 0 <= i <= |sections|
        invariant Stage(State(), None) == Prepared(Env, before, sections[..i])
      {
        assert sections[..i + 1][..i] == sections[..i];
        err := CompileSection(sections[i]);
        if err.Some? {
          PreparedFailurePersists(Env, before, sections, i + 1);
          return;
        }
        err := ValidateSection(sections[i]);
        if err.Some? {
          PreparedFailurePersists(Env, before, sections, i + 1);
          return;
        }
        i := i + 1;
      }
      assert sections[..i] == sections;
      return None;
    }

    /** `Project`'s apply loop for one section: the project's templates, the
        section's templates, each child's walk, the section's actions and the
        project's actions. The middle three phases are exactly `NextNode` of
        the section, which performs them here. */
    method ApplySection(project: Node, section: Node, dir: string, trace: seq<Step>)
      returns (after: seq<Step>, err: Option<Error>)
      ensures Outcome(after, err) == WalkSection(Env.Fails, Catalog.Agendas, Env.Render, project, section, dir, trace)
    {
      after, err := ApplyTemplates(project, dir, trace);
      if err.Some? {
        return;
      }
      after, err := NextNode(section, dir, after);
      if err.Some? {
        return;
      }
      after, err := ApplyActions(project, dir, after);
    }

    /** `Project`'s second loop: apply every section of the expanded project. */
    method ApplySections(project: Node, dir: string, trace: seq<Step>) returns (after: seq<Step>, err: Option<Error>)
      ensures Outcome(after, err) == WalkSections(Env.Fails, Catalog.Agendas, Env.Render, project, project.Body, dir, trace)
    {
      var sections := project.Body;
      after := trace;
      var i := 0;
      assert sections[0..] == sections;
      while i < |sections|
        invariant 0 <= i <= |sections|
        invariant WalkSections(Env.Fails, Catalog.Agendas, Env.Render, project, sections, dir, trace)
                  == WalkSections(Env.Fails, Catalog.Agendas, Env.Render, project, sections[i..], dir, after)
      {
        assert sections[i..][0] == sections[i] && sections[i..][1..] == sections[i + 1..];
        after, err := ApplySection(project, sections[i], dir, after);
        if err.Some? {
          return;
        }
        i := i + 1;
      }
      assert sections[i..] == [];
      return after, None;
    }

    /** `Project`: enter the project's directory, prepare every section,
        expand the macros, then apply every section of the expanded project;
        the effects are performed after `trace`. */
    method Project(project: Node, trace: seq<Step>) returns (after: seq<Step>, err: Option<Error>)
      modifies this, Catalog
      ensures Progress(State(), after, err) == ProjectSpec(Env, old(State()), trace, project)
    {
      if project.Name == "" {
        return trace, Some(ProjectNameRequired);
      }
      ghost var st0 := State();
      var dir := Env.Destination + "/" + project.Name;
      after, err := Perform(EnterProject(dir), trace);
      if err.Some? {
        return;
      }
      err := PrepareSections(project.Body);
      if err.Some? {
        return;
      }
      ghost var st2 := State();
      ProjectSpecApplied(Env, st0, trace, project);
      assert ProjectSpec(Env, st0, trace, project) == Applied(Env, st2, after, project);
      var expanded := ExpandProjectMacros(project, Env.Address(project), MacrosOf(Env, Defined), Env.Fuel);
      if expanded.Failure? {
        return after, Some(ExpandFailure(expanded.error));
      }
      after, err := ApplySections(expanded.value, dir, after);
    }

    /** `Generate`'s loop: each project in order, stopping at an unnamed
        project or at the first error; the effects are performed after `trace`. */
    method Generate(brevity: Node, trace: seq<Step>) returns (after: seq<Step>, err: Option<Error>)
      modifies this, Catalog
      ensures Progress(State(), after, err) == GenerateSpec(Env, old(State()), trace, brevity.Body)
    {
      ghost var before := State();
      var projects := brevity.Body;
      after := trace;
      var i := 0;
      while i < |projects|
        invariant 0 <= i <= |projects|
        invariant Progress(State(), after, None) == GenerateSpec(Env, before, trace, projects[..i])
      {
        if |projects[i].Name| == 0 {
          GenerateStopsAtUnnamed(Env, before, trace, projects, i);
          return after, Some(UnnamedProject);
        }
        GenerateStep(Env, before, trace, projects, i);
        after, err := Project(projects[i], after);
        if err.Some? {
          GenerateFailurePersists(Env, before, trace, projects, i + 1);
          return;
        }
        i := i + 1;
      }
      assert projects[..i] == projects;
      return after, None;
    }
  }
}
