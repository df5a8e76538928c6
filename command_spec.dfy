/** internal/generator/command.go: reading a specification and the order in
    which `Generate` and `Project` prepare, expand and apply each project.

    The brief decoder is not modelled: its result for a file is an input. So
    are the template loader of a section, the macro templates' execution and
    the reference the project node has once it is a parent. */
module CommandSpec {
  import opened Wrappers
  import opened Nodes
  import opened Effects
  import opened CatalogSpec
  import opened ExpandSpec
  import opened WalkSpec

  /** What `ReadNode` does with the decoder's forms, as written: more than one
      form is an error, and the first form is taken without checking that
      there is one. */
  datatype ReadOutcome = Read(node: Node) | ReadFailed(error: Error) | IndexOutOfRange

  function ReadNodeAsWritten(file: string, decoded: Result<seq<Node>, string>): ReadOutcome
  {
    match decoded
    case Failure(m) => ReadFailed(DecodeFailed(m))
    case Success(nodes) =>
      if |nodes| > 1 then ReadFailed(TooManyForms(file))
      else if |nodes| == 0 then IndexOutOfRange
      else Read(nodes[0])
  }

  /** A file that decodes to no form makes the as-written `ReadNode` index an
      empty slice. */
  lemma ReadNodeNoFormFails(file: string)
    ensures ReadNodeAsWritten(file, Success([])) == IndexOutOfRange
    ensures ReadNode(file, Success([])) == Failure(NoForms(file))
  {
  }

  /** `ReadNode` with the count check both ways: exactly one form is read. */
  function ReadNode(file: string, decoded: Result<seq<Node>, string>): (r: Result<Node, Error>)
    ensures r.Success? <==> decoded.Success? && |decoded.value| == 1
    ensures r.Success? ==> r.value == decoded.value[0]
    ensures decoded.Failure? ==> r == Failure(DecodeFailed(decoded.error))
    ensures decoded.Success? && |decoded.value| > 1 ==> r == Failure(TooManyForms(file))
  {
    match decoded
    case Failure(m) => Failure(DecodeFailed(m))
    case Success(nodes) =>
      if |nodes| > 1 then Failure(TooManyForms(file))
      else if |nodes| == 0 then Failure(NoForms(file))
      else Success(nodes[0])
  }

  /** The corrected `ReadNode` agrees with the written one wherever that one
      does not index out of range. */
  lemma ReadNodeAgrees(file: string, decoded: Result<seq<Node>, string>)
    ensures ReadNodeAsWritten(file, decoded) != IndexOutOfRange ==>
              match ReadNode(file, decoded)
              case Success(n) => ReadNodeAsWritten(file, decoded) == Read(n)
              case Failure(e) => ReadNodeAsWritten(file, decoded) == ReadFailed(e)
    ensures ReadNodeAsWritten(file, decoded) == IndexOutOfRange <==> decoded == Success([])
  {
  }

  /** The index of the first node of `ns` whose Type is not `project`, if any. */
  function FirstNonProject(ns: seq<Node>): (r: Option<nat>)
    ensures r.None? <==> forall i :: 0 <= i < |ns| ==> ns[i].Type == "project"
    ensures r.Some? ==> r.value < |ns| && ns[r.value].Type != "project" &&
                        forall i :: 0 <= i < r.value ==> ns[i].Type == "project"
  {
    if ns == [] then None
    else if ns[0].Type != "project" then Some(0)
    else match FirstNonProject(ns[1..])
         case None => None
         case Some(i) => Some(i + 1)
  }

  /** `ReadSpec`: the file holds one `brevity` node whose children are all projects. */
  function ReadSpec(file: string, decoded: Result<seq<Node>, string>): (r: Result<Node, Error>)
    ensures r.Success? <==>
              && ReadNode(file, decoded).Success?
              && ReadNode(file, decoded).value.Type == "brevity"
              && forall i :: 0 <= i < |ReadNode(file, decoded).value.Body| ==>
                   ReadNode(file, decoded).value.Body[i].Type == "project"
    ensures r.Success? ==> r == ReadNode(file, decoded)
    ensures ReadNode(file, decoded).Success? && ReadNode(file, decoded).value.Type != "brevity" ==> r == Failure(NotBrevity)
  {
    match ReadNode(file, decoded)
    case Failure(e) => Failure(e)
    case Success(spec) =>
      if spec.Type != "brevity" then Failure(NotBrevity)
      else if FirstNonProject(spec.Body).Some? then Failure(NotProject)
      else Success(spec)
  }

  /** The generator's inputs that are not modelled as code: render mode, the
      step oracle, the templates a section loads, the macro templates'
      execution, the expansion bound, the destination folder, and the
      reference each project node has as a parent. */
  datatype Environment = Environment(
    Render: bool,
    Fails: Oracle,
    Load: Node -> Result<set<string>, string>,
    Execute: (string, Node) -> Result<seq<Node>, string>,
    Fuel: nat,
    Destination: string,
    Address: Node -> Ref)

  /** The generator's own state: its catalog and the names of its defined templates. */
  datatype State = State(catalog: CatalogView, defined: set<string>)

  /** The state after some preparation, and the error that stopped it. */
  datatype Stage = Stage(state: State, err: Option<Error>)

  /** The state and the effects performed after some projects, and the error
      that stopped them. */
  datatype Progress = Progress(state: State, trace: seq<Step>, err: Option<Error>)

  /** `CompileSection`: an empty catalog is an error before anything is
      loaded; then the section's templates are loaded, and having no template
      at all is an error. */
  function CompiledSection(env: Environment, st: State, section: Node): (r: Stage)
    ensures r.state.catalog == st.catalog
    ensures st.catalog == map[] ==> r == Stage(st, Some(EmptyCatalog))
    ensures r.err.None? <==> st.catalog != map[] && env.Load(section).Success? && r.state.defined != {}
    ensures env.Load(section).Success? && st.catalog != map[] ==> r.state.defined == st.defined + env.Load(section).value
  {
    if st.catalog == map[] then Stage(st, Some(EmptyCatalog))
    else
      match env.Load(section)
      case Failure(m) => Stage(st, Some(LoadFailed(m)))
      case Success(names) =>
        var loaded := st.(defined := st.defined + names);
        if loaded.defined == {} then Stage(loaded, Some(NoTemplates(section.Type, section.Name)))
        else Stage(loaded, None)
  }

  /** `ValidateSection`: mark the section's kinds as found, then report the
      kinds still missing. */
  function ValidatedSection(st: State, section: Node): Stage
  {
    var c := MarkFound(st.catalog, TypesOf(section));
    Stage(st.(catalog := c), if Missing(c) == {} then None else Some(MissingElements(section.Type, Missing(c))))
  }

  /** `Project`'s first loop: compile and validate each section in order,
      stopping at the first error. */
  function Prepared(env: Environment, st: State, sections: seq<Node>): Stage
    decreases |sections|
  {
    if sections == [] then Stage(st, None)
    else
      var p := Prepared(env, st, sections[..|sections| - 1]);
      var section := sections[|sections| - 1];
      if p.err.Some? then p
      else
        var compiled := CompiledSection(env, p.state, section);
        if compiled.err.Some? then compiled else ValidatedSection(compiled.state, section)
  }

  /** A failed prefix of sections stops `Project`'s first loop. */
  lemma {:induction false} PreparedFailurePersists(env: Environment, st: State, sections: seq<Node>, n: nat)
    requires n <= |sections|
    requires Prepared(env, st, sections[..n]).err.Some?
    ensures Prepared(env, st, sections) == Prepared(env, st, sections[..n])
    decreases |sections| - n
  {
    if n < |sections| {
      assert sections[..n + 1][..n] == sections[..n];
      PreparedFailurePersists(env, st, sections, n + 1);
    } else {
      assert sections[..n] == sections;
    }
  }

  /** The macro of kind `t` is the template "@macro.<t>", when it is defined. */
  function MacrosOf(env: Environment, defined: set<string>): MacroTable
  {
    t => if "@macro." + t in defined then Some((n: Node) => env.Execute("@macro." + t, n)) else None
  }

  function ExpandFailure(e: ExpandError): Error
  {
    match e
    case MacroFailed(m) => Effects.MacroFailed(m)
    case FuelExhausted => OutOfFuel
  }

  /** The project's directory under the destination. */
  function ProjectDir(env: Environment, project: Node): string
  {
    env.Destination + "/" + project.Name
  }

  /** Expand the prepared project's macros, then apply every section's walk
      after `trace` (the apply phase performs ProjectPlan, by WalkSectionsRuns). */
  function Applied(env: Environment, st: State, trace: seq<Step>, project: Node): Progress
  {
    match ExpandedProject(project, env.Address(project), MacrosOf(env, st.defined), env.Fuel)
    case Failure(e) => Progress(st, trace, Some(ExpandFailure(e)))
    case Success(expanded) =>
      var o := WalkSections(env.Fails, st.catalog, env.Render, expanded, expanded.Body, ProjectDir(env, project), trace);
      Progress(st, o.trace, o.err)
  }

  /** `Project`: a named project's directory is entered, then every section
      is compiled and validated, then the macros are expanded, then every
      section of the expanded project is applied. */
  function ProjectSpec(env: Environment, st: State, trace: seq<Step>, project: Node): Progress
  {
    if project.Name == "" then Progress(st, trace, Some(ProjectNameRequired))
    else
      var e := EnterProject(ProjectDir(env, project));
      var t := trace + [e];
      if env.Fails(trace, e) then Progress(st, t, Some(StepFailed(e)))
      else
        var p := Prepared(env, st, project.Body);
        if p.err.Some? then Progress(p.state, t, p.err) else Applied(env, p.state, t, project)
  }

  /** A project whose directory is entered and whose sections are prepared
      goes on to the expansion and the apply phase. */
  lemma ProjectSpecApplied(env: Environment, st: State, trace: seq<Step>, project: Node)
    requires project.Name != ""
    requires !env.Fails(trace, EnterProject(ProjectDir(env, project)))
    requires Prepared(env, st, project.Body).err.None?
    ensures ProjectSpec(env, st, trace, project)
            == Applied(env, Prepared(env, st, project.Body).state, trace + [EnterProject(ProjectDir(env, project))], project)
  {
  }

  /** `Generate`'s loop: each project in order; an unnamed project or a
      failing one stops it. */
  function GenerateSpec(env: Environment, st: State, trace: seq<Step>, projects: seq<Node>): Progress
    decreases |projects|
  {
    if projects == [] then Progress(st, trace, None)
    else
      var g := GenerateSpec(env, st, trace, projects[..|projects| - 1]);
      var project := projects[|projects| - 1];
      if g.err.Some? then g
      else if |project.Name| == 0 then Progress(g.state, g.trace, Some(UnnamedProject))
      else ProjectSpec(env, g.state, g.trace, project)
  }

  /** An error while preparing leaves the trace at the project directory:
      no template is applied and no action runs. */
  lemma PreparationFailureAppliesNothing(env: Environment, st: State, trace: seq<Step>, project: Node)
    requires project.Name != ""
    requires !env.Fails(trace, EnterProject(ProjectDir(env, project)))
    requires Prepared(env, st, project.Body).err.Some?
    ensures ProjectSpec(env, st, trace, project).trace == trace + [EnterProject(ProjectDir(env, project))]
    ensures ProjectSpec(env, st, trace, project).err.Some?
  {
  }

  /** After a successful preparation and expansion, the steps of `Project`
      are its directory and then a prefix of the apply phase of the expanded
      project, computed with the prepared catalog; the whole phase exactly
      when no step fails. */
  lemma ProjectOrder(env: Environment, st: State, trace: seq<Step>, project: Node)
    requires project.Name != ""
    requires !env.Fails(trace, EnterProject(ProjectDir(env, project)))
    ensures var t := trace + [EnterProject(ProjectDir(env, project))];
            var p := Prepared(env, st, project.Body);
            p.err.None? ==>
              match ExpandedProject(project, env.Address(project), MacrosOf(env, p.state.defined), env.Fuel)
              case Failure(_) => ProjectSpec(env, st, trace, project).trace == t
              case Success(expanded) =>
                var plan := ProjectPlan(p.state.catalog, env.Render, expanded, ProjectDir(env, project));
                var r := ProjectSpec(env, st, trace, project);
                && (exists k :: 0 <= k <= |plan| && r.trace == t + plan[..k])
                && (r.err.None? <==> r.trace == t + plan && forall i :: 0 <= i < |plan| ==> !env.Fails(t + plan[..i], plan[i]))
  {
    var t := trace + [EnterProject(ProjectDir(env, project))];
    var p := Prepared(env, st, project.Body);
    if p.err.None? {
      match ExpandedProject(project, env.Address(project), MacrosOf(env, p.state.defined), env.Fuel)
      case Failure(_) =>
      case Success(expanded) =>
        var plan := ProjectPlan(p.state.catalog, env.Render, expanded, ProjectDir(env, project));
        ProjectSpecApplied(env, st, trace, project);
        WalkSectionsRuns(env.Fails, p.state.catalog, env.Render, expanded, expanded.Body, ProjectDir(env, project), t);
        var o := Run(env.Fails, t, plan);
        assert ProjectSpec(env, st, trace, project) == Progress(p.state, o.trace, o.err);
        RunPrefix(env.Fails, t, plan);
        RunSuccess(env.Fails, t, plan);
        var k := |o.trace| - |t|;
        assert o.trace == t + plan[..k];
    }
  }

  /** A failed prefix of projects stops `Generate`: later projects are not touched. */
  lemma {:induction false} GenerateFailurePersists(env: Environment, st: State, trace: seq<Step>, projects: seq<Node>, n: nat)
    requires n <= |projects|
    requires GenerateSpec(env, st, trace, projects[..n]).err.Some?
    ensures GenerateSpec(env, st, trace, projects) == GenerateSpec(env, st, trace, projects[..n])
    decreases |projects| - n
  {
    if n < |projects| {
      assert projects[..n + 1][..n] == projects[..n];
      GenerateFailurePersists(env, st, trace, projects, n + 1);
    } else {
      assert projects[..n] == projects;
    }
  }

  /** One more project: the progress so far, then that project. */
  lemma GenerateStep(env: Environment, st: State, trace: seq<Step>, projects: seq<Node>, i: nat)
    requires i < |projects| && |projects[i].Name| > 0
    requires GenerateSpec(env, st, trace, projects[..i]).err.None?
    ensures var g := GenerateSpec(env, st, trace, projects[..i]);
            GenerateSpec(env, st, trace, projects[..i + 1]) == ProjectSpec(env, g.state, g.trace, projects[i])
  {
    assert projects[..i + 1][..i] == projects[..i];
  }

  /** `Generate` stops at the first unnamed project: the projects before it
      are processed, it reports UnnamedProject, and nothing after it runs. */
  lemma GenerateStopsAtUnnamed(env: Environment, st: State, trace: seq<Step>, projects: seq<Node>, j: nat)
    requires j < |projects| && projects[j].Name == ""
    requires GenerateSpec(env, st, trace, projects[..j]).err.None?
    ensures var g := GenerateSpec(env, st, trace, projects[..j]);
            GenerateSpec(env, st, trace, projects) == Progress(g.state, g.trace, Some(UnnamedProject))
  {
    assert projects[..j + 1][..j] == projects[..j];
    GenerateFailurePersists(env, st, trace, projects, j + 1);
  }
}
