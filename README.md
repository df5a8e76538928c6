# brevity generator core, in Dafny

brevity generates a project tree from a *brief* specification. A library file
(`generator.brief`) lists **templates** and **actions**. Each has an `element`
keyword that names the spec node Type it applies to. The generator files these
into a **catalog**: one **agenda** per element kind, holding a templates
dictionary and an actions dictionary. It then checks a spec: every section is
compiled (its templates loaded) and validated (every catalogued element must
occur in it). Sections with an `@macro.<Type>` template are expanded until
none is left. The result is merged, and the tree is walked. The walk renders a
node's templates on the way down and runs its actions on the way back up.

This project models that engine and proves what it promises:

| module (file) | models |
|---|---|
| `Nodes` (nodes.dfy) | the brief node as a value: Type, Name, Content, Keys, Body; `Parent` as a reference number |
| `Effects` (effects.dfy) | the effects: writing a file from a template, running an action, entering a project directory. Each is a step appended to a trace; an oracle says whether a step fails after a given history |
| `MergeSpec`, `Macros` (merge_spec.dfy, macros.dfy) | `MergeKeys`, `MergeBody`, `MergeNode`, `MergeNodes` and `ExpandProjectMacros` of internal/generator/macros.go |
| `ExpandSpec` (expand_spec.dfy) | the macro fixpoint as a function with a round bound |
| `CatalogSpec`, `Catalogs` (catalog_spec.dfy, catalog.dfy) | `Dictionary`, `Agenda`, `Catalog`, the template/action validators, `compile`, `validateNode` and `ValidateSection` of internal/generator/generator.go |
| `WalkSpec` (walk_spec.dfy) | `ApplyTemplates`, `ApplyActions`, `NextNode` and the per-section order of `Project`, as plans of steps and as runs of those plans |
| `CommandSpec`, `Generators` (command_spec.dfy, generator.dfy) | `ReadNode`, `ReadSpec`, `CompileSection`, `Project` and `Generate` of internal/generator/command.go, driven by the `Generator` class |
| `Values` (values.dfy) | the fast path of `ExecValueTemplate` |
| `FileSets` (fileset.dfy) | `FileSet` of internal/generator/fileset.go |
| `Sections` (section.dfy) | `Section.Compile` and `define` of internal/generator/section.go |
| `LegacySpec`, `Legacy` (legacy_spec.dfy, legacy.dfy) | the older walker of internal/generate/generator.go, with its dictionary scoped by node Type |

The repository's mutable types are classes whose methods are proved against
specification functions:
- internal/generator: `Dictionary`, `Agenda`, `Catalog`, `Generator`, `FileSet`, `Section` and the template being filled.
- internal/generate: `Agenda`, `Catalog`, `Dictionary` and `Generator`.

The classes `Catalogs.Dictionary` and `Catalogs.Agenda` model `NewDictionary`,
`Dictionary.Add`, `NewAgenda`, `AddTemplate` and `AddAction` on their own.
`Catalogs.Catalog` and `Generators.Generator` hold each agenda as its value
(`AgendaView`) and file nodes through `Added`. That is the same function the
methods of `Catalogs.Agenda` are proved to apply to their views.

Each loop that updates state or performs effects is a `while` loop with its
invariants. Loops that only check a value are recursive functions, such as
`ReadSpec`'s check that every child is a project (`CommandSpec.FirstNonProject`).
Lemmas about the specification functions state the source's promises. Among them:
- merge precedence and first-occurrence order;
- distinct Types after expansion;
- fail-fast registration;
- the template, children, action order of the walk;
- the per-section order of a project;
- the definition round trip.

## Model

| member | source | states |
|---|---|---|
| Macros.MergeKeys | internal/generator/macros.go:27-37 | Name is adopted from `other` only when empty; every key the node had keeps its value; every key only `other` has is added with `other`'s value; no other key appears |
| Macros.MergeBody | internal/generator/macros.go:40-44 | the new Body is the merge, by (Type, Name), of the node's children followed by `other`'s |
| Macros.MergeNode | internal/generator/macros.go:47-53 | the result is `MergedNode`: keys and name merged, body merged, Content adopted only when empty, Type and Parent kept |
| MergeSpec.MergedNodePrecedence | internal/generator/macros.go:27-53 | the left node wins on keys, and on Name and Content when they are non-empty; Type and Parent are unchanged; Body is `MergedNodes(node.Body + other.Body, true)`; the key set is the union |
| MergeSpec.MergedNode | internal/generator/macros.go:47-53 | a merged node is smaller than the two it was made from (the recursion is well founded) |
| Macros.MergeRound | internal/generator/macros.go:65-78 | one round of the worklist: the first node absorbs every later node of its group, in order; the others form the next worklist, in order |
| Macros.MergeNodes | internal/generator/macros.go:57-81 | the worklist loop computes `MergedNodes` |
| MergeSpec.MergedNodes | internal/generator/macros.go:57-81 | the merged list is no larger than the input (the loop terminates) |
| MergeSpec.MergedNodesFront | internal/generator/macros.go:61-79 | the first result is the first node merged with the rest of its group; the rest is the merge of the nodes outside that group |
| MergeSpec.MergedNodesGroups | internal/generator/macros.go:61-80 | the i-th result belongs to the i-th distinct group key in input order, and is the group's first member merged with the group's later members in order |
| MergeSpec.MergedNodesDistinct | internal/generator/macros.go:65-76 | group keys of the result are pairwise distinct; with `useNames` false, Types are pairwise distinct |
| MergeSpec.MergedNodesLength | internal/generator/macros.go:61-80 | the result is no longer than the input, and empty exactly when the input is |
| MergeSpec.MergedNodesKeySequence | internal/generator/macros.go:61-80 | the result's keys are the input's keys at their first occurrences, in input order |
| MergeSpec.MergedNodesKeys | internal/generator/macros.go:61-80 | the result has a node of a key exactly when the input does; the set of Types is unchanged |
| MergeSpec.FirstOccurrencesFacts | internal/generator/macros.go:61-80 | first occurrences have the same members as the keys, are distinct, and are empty only for no keys |
| MergeSpec.PartitionSize | internal/generator/macros.go:68-76 | a round splits the worklist into a group and the rest, with nothing lost |
| ExpandSpec.Reparented | internal/generator/macros.go:97-99 | every expanded node gets the section's Parent and is otherwise unchanged |
| Macros.ExpandRound | internal/generator/macros.go:89-105 | one pass over the worklist computes `RoundOf`: macro sections are replaced by their reparented expansions, the others kept in order, and the first macro error is returned |
| Macros.ExpandProjectMacros | internal/generator/macros.go:84-119 | the fixpoint loop followed by the merge and reparenting computes `ExpandedProject` |
| Macros.RoundFailurePersists | internal/generator/macros.go:93-96 | a macro error stops expansion with that error |
| ExpandSpec.RoundKeptIsWithoutMacros | internal/generator/macros.go:89-105 | the nodes a round keeps are exactly the nodes without a macro, in order |
| ExpandSpec.ExpandedHasNoMacros | internal/generator/macros.go:89-112 | no kept node has a macro template |
| ExpandSpec.ExpandedFuelIrrelevant | internal/generator/macros.go:88-112 | once expansion finishes within a bound, a larger bound gives the same result |
| ExpandSpec.NoMacroIsOneRound | internal/generator/macros.go:89-117 | with no macro in the Body, one round keeps everything and the Body becomes `MergedNodes(Body, false)` reparented to the project |
| ExpandSpec.ExpandedProjectFacts | internal/generator/macros.go:84-119 | after expansion the project's Type, Name and Keys are unchanged; every child's Parent is the project; child Types are pairwise distinct; no child has a macro |
| CatalogSpec.Added | internal/generator/generator.go:35-40 | `Dictionary.Add` appends the node to the list |
| CatalogSpec.AddedIndexes | internal/generator/generator.go:35-40 | the name index stays the index of the list: last write wins, unnamed nodes are not indexed |
| CatalogSpec.NameIndexHas | internal/generator/generator.go:36-38 | a name is indexed exactly when it is non-empty and some listed node has it |
| CatalogSpec.NameIndexLast | internal/generator/generator.go:36-38 | the indexed node for a name is the last listed node with that name |
| Catalogs.Dictionary.constructor | internal/generator/generator.go:27-32 | a new dictionary is empty |
| Catalogs.Dictionary.Add | internal/generator/generator.go:35-40 | the list grows by exactly the node; Map is updated only for a named node; the index invariant is preserved |
| Catalogs.Agenda.constructor | internal/generator/generator.go:50-55 | a new agenda has two empty dictionaries and is not found |
| Catalogs.Agenda.AddTemplate | internal/generator/generator.go:58-60 | adds to the templates dictionary and changes nothing else of the agenda |
| Catalogs.Agenda.AddAction | internal/generator/generator.go:63-65 | adds to the actions dictionary and changes nothing else of the agenda |
| CatalogSpec.Ensured | internal/generator/generator.go:71-78 | the key set grows by at most the element; existing agendas are unchanged; a missing one is created empty |
| Catalogs.Catalog.constructor | internal/generator/generator.go:91 | a new catalog is empty |
| Catalogs.Catalog.Add | internal/generator/generator.go:71-78 | the catalog becomes `Ensured`; the returned agenda is the one now registered |
| Catalogs.Catalog.AddTo | internal/generator/generator.go:142-143 | filing a node changes only the agenda of its element, and only the list of its kind |
| CatalogSpec.Validate | internal/generator/generator.go:100-129 | a valid node has an `element` keyword |
| CatalogSpec.ValidateMeaning | internal/generator/generator.go:100-129 | a node is valid exactly when it has a Name, `element` and `file` (templates) or `exec` (actions); the error is the first failing check, in that order |
| CatalogSpec.RegisterSucceeds | internal/generator/generator.go:137-144 | registration succeeds exactly when every node is valid at its position |
| CatalogSpec.FirstInvalid | internal/generator/generator.go:137-140 | the index of the first invalid node lies within the list |
| CatalogSpec.FirstInvalidValid | internal/generator/generator.go:137-140 | every node before the first invalid one is valid, and that one is invalid |
| CatalogSpec.RegisterFirstError | internal/generator/generator.go:137-140 | the error of registration is the validation error of the first invalid node |
| CatalogSpec.RegisterStopsAt | internal/generator/generator.go:137-144 | the catalog after a failed registration holds the nodes before the first invalid one, and those stay registered |
| CatalogSpec.RegisterKeys | internal/generator/generator.go:141-142 | successful registration adds exactly the elements of the nodes as keys |
| CatalogSpec.RegisterLists | internal/generator/generator.go:137-144 | each element's list gains that element's nodes, in Body order |
| CatalogSpec.RegisterKeepsRest | internal/generator/generator.go:137-144 | registering templates leaves every action list and every Found flag unchanged, and the other way round |
| CatalogSpec.FiledList | internal/generator/generator.go:141-143 | filing a node appends it to its element's list of its kind and to no other list |
| CatalogSpec.CompiledMissingChild | internal/generator/generator.go:131-149 | no `templates` child: the catalog is unchanged and the error names it; a missing `actions` child is reported only after every template has been registered |
| CatalogSpec.CompiledFiles | internal/generator/generator.go:131-161 | a successful compile adds exactly the elements of templates and actions, and files each node under its element in Body order |
| CatalogSpec.MarkFound | internal/generator/generator.go:181-189 | marking adds no key, changes no list, and sets Found exactly for the marked kinds, never clearing it |
| CatalogSpec.MarkFoundTwice | internal/generator/generator.go:186-188 | marking two sets in turn is marking their union |
| CatalogSpec.MissingAfterMark | internal/generator/generator.go:164-179 | the missing kinds are the catalogued kinds other than `project` that were neither found before nor occur in the section |
| Catalogs.Catalog.MarkAgenda | internal/generator/generator.go:182-185 | only the agenda of this Type, if there is one, becomes found |
| Catalogs.Catalog.ValidateNode | internal/generator/generator.go:181-189 | the walk marks every Type of the subtree, and no other |
| Generators.Generator.ValidateSection | internal/generator/generator.go:164-179 | after marking, the error lists exactly the missing kinds, and there is none when nothing is missing |
| Generators.Generator.FileNode | internal/generator/generator.go:141-143 | a node is filed under its element |
| Generators.Generator.RegisterNode | internal/generator/generator.go:137-143 | an invalid node leaves the catalog unchanged and returns its error, a valid one is filed |
| Generators.Generator.RegisterNodes | internal/generator/generator.go:137-144 | the loop computes `Register` |
| Generators.Generator.Compile | internal/generator/generator.go:131-161 | `compile` computes `Compiled` on the catalog |
| WalkSpec.TemplateStepsMeaning | internal/generator/generator.go:261-272 | no agenda: no step; otherwise one file step per template, in list order |
| WalkSpec.ActionStepsMeaning | internal/generator/generator.go:275-294 | no agenda or rendering: no step; otherwise one action step per action, in list order |
| Generators.Generator.ApplyTemplates | internal/generator/generator.go:261-272 | the loop runs the template steps and stops at the first failure |
| Generators.Generator.ApplyActions | internal/generator/generator.go:275-294 | the loop runs the action steps and stops at the first failure; when rendering nothing is run and there is no error |
| Generators.Generator.Perform | internal/generator/generator.go:330-393 | a step is appended to the trace and fails exactly when the oracle says so |
| WalkSpec.PlanSplit | internal/generator/generator.go:297-311 | a node's plan is its templates, then its children's plans in Body order, then its actions |
| WalkSpec.PlanIsAbout | internal/generator/generator.go:297-311 | every step of a walk renders a catalogued template or runs a catalogued action on a node of the subtree |
| WalkSpec.RenderPlanRunsNoAction | internal/generator/generator.go:280-287 | when rendering, a walk only writes files |
| WalkSpec.PlanWithoutAgendas | internal/generator/generator.go:262-265 | a subtree whose Types have no agenda has an empty plan |
| WalkSpec.WalkNodeRuns | internal/generator/generator.go:297-311 | the recursive walk, stopping at the first error, is running its plan |
| WalkSpec.WalkNodesRuns | internal/generator/generator.go:302-306 | walking children in turn is running their concatenated plans |
| Generators.Generator.NextNode | internal/generator/generator.go:297-311 | the method computes `WalkNode` |
| Generators.Generator.NextNodes | internal/generator/generator.go:302-306 | the loop over children computes `WalkNodes` |
| Effects.RunShape | internal/generator/generator.go:266-270 | a run performs a prefix of its plan; it fails exactly when some step fails after the earlier ones, and then the last step performed is the one that failed |
| Effects.RunAppend | internal/generator/generator.go:297-311 | running two plans in turn is running their concatenation, and a failure in the first skips the second |
| Values.HasActionIff | internal/generator/generator.go:315 | the containment test finds `{{` exactly when two adjacent left braces occur |
| Values.ExecValueTemplate | internal/generator/generator.go:314-327 | a value without `{{` is returned unchanged with no error; a value containing `{{` gets the renderer's result, error or text |
| CommandSpec.ReadNode | internal/generator/command.go:60-76 | succeeds exactly when the decoder yields one form, and returns it; decoder errors pass through; more than one form is an error |
| CommandSpec.ReadNodeAgrees | internal/generator/command.go:68-75 | the corrected reader agrees with the source on every input except an empty decoding |
| CommandSpec.FirstNonProject | internal/generator/command.go:87-91 | the first child that is not a project, or none when all are |
| CommandSpec.ReadSpec | internal/generator/command.go:79-93 | succeeds exactly when the node was read, its Type is `brevity` and every child is a `project`; a wrong top Type is reported first |
| CommandSpec.CompiledSection | internal/generator/command.go:137-152 | an empty catalog is an error before any loading; otherwise the loaded templates are added, and the section fails when none are defined |
| Generators.Generator.CompileSection | internal/generator/command.go:137-152 | the method computes `CompiledSection` |
| CommandSpec.PreparedFailurePersists | internal/generator/command.go:169-177 | once a section fails to compile or validate, later sections change nothing |
| Generators.Generator.PrepareSections | internal/generator/command.go:169-177 | the compile-then-validate loop over sections computes `Prepared` |
| WalkSpec.SectionPlanWrapsWalk | internal/generator/command.go:181-203 | for one section: the project's templates, the section's walk, then the project's actions |
| WalkSpec.ProjectPlanLength | internal/generator/command.go:181-203 | the project's own templates and actions are planned once per section |
| WalkSpec.WalkSectionRuns | internal/generator/command.go:182-202 | applying one section, stopping at the first error, is running its plan |
| WalkSpec.WalkSectionsRuns | internal/generator/command.go:181-203 | applying the sections in turn is running their concatenated plans |
| Generators.Generator.ApplySection | internal/generator/command.go:182-202 | the method computes `WalkSection` |
| Generators.Generator.ApplySections | internal/generator/command.go:181-203 | the loop computes `WalkSections` over the expanded Body |
| CommandSpec.ProjectSpecApplied | internal/generator/command.go:155-205 | a named project whose directory is entered and whose sections prepare is then expanded and applied |
| CommandSpec.PreparationFailureAppliesNothing | internal/generator/command.go:169-180 | when preparation fails, nothing after entering the directory is performed |
| CommandSpec.ProjectOrder | internal/generator/command.go:155-205 | after preparation, a failed expansion performs nothing more; otherwise the trace is the directory step followed by a prefix of the expanded project's plan, all of it exactly when no step fails |
| Generators.Generator.Project | internal/generator/command.go:155-205 | the method computes `ProjectSpec` |
| CommandSpec.GenerateStep | internal/generator/command.go:125-132 | after the earlier projects succeed, the next named project is processed on their state and trace |
| CommandSpec.GenerateStopsAtUnnamed | internal/generator/command.go:125-128 | the first unnamed project stops generation with its error, after the earlier projects, and later ones are untouched |
| CommandSpec.GenerateFailurePersists | internal/generator/command.go:125-132 | an error in an earlier project is the result of the whole loop |
| Generators.Generator.Generate | internal/generator/command.go:115-134 | the loop over projects computes `GenerateSpec` |
| FileSets.FileSet.constructor | internal/generator/fileset.go:13-18 | a new set is empty, with no error, and valid |
| FileSets.FileSet.Add | internal/generator/fileset.go:21-30 | a new file is recorded and appended with the error kept; a repeated file changes nothing but the error; an error stays set; the receiver is returned; the no-duplicates invariant is preserved |
| FileSets.FileSet.ReverseFiles | internal/generator/fileset.go:33-40 | the result is the files reversed: same length, `res[i] == files[size-1-i]` |
| FileSets.Reversed | internal/generator/fileset.go:33-40 | reversal keeps the length |
| FileSets.ReversedAt | internal/generator/fileset.go:33-40 | element i of the reversal is element size-1-i |
| FileSets.ReversedTwice | internal/generator/fileset.go:33-40 | reversing twice gives the files back |
| Sections.ReadEscaped | internal/generator/section.go:50-52 | a quoted name reads back to the name and the rest of the text |
| Sections.DefineRoundTrip | internal/generator/section.go:50-52 | the definition string of a node parses back to its Name and Content |
| Sections.FirstUnnamed | internal/generator/section.go:32-34 | the index of the first unnamed sub-definitions node lies within the list |
| Sections.FirstUnnamedMeaning | internal/generator/section.go:32-34 | no node before that index is unnamed sub-definitions, and the node there is |
| Sections.ScanFrom | internal/generator/section.go:28-38 | scanning parses the top-level defines and indexes the named sub-definitions up to the first unnamed one, where it stops with the error |
| Sections.CompiledMeaning | internal/generator/section.go:25-48 | fails exactly when an unnamed sub-definitions node exists, after parsing the defines before it; otherwise parses every top-level define in order, then, for a named section only, the defines of `defn[subname]` |
| Sections.LastNamedMeaning | internal/generator/section.go:36 | the index found is the last sub-definitions node of that name |
| Sections.NamedDefinitionsLast | internal/generator/section.go:36 | a name is indexed exactly when some sub-definitions node has it, and the last such node wins |
| Sections.Template.Parse | internal/generator/section.go:31 | parsing appends one definition text |
| Sections.Template.ParseDefines | internal/generator/section.go:41-45 | the loop parses the definitions of the `define` children in order and skips the others |
| Sections.Section.constructor | internal/generator/section.go:17-22 | the section keeps its name and node |
| Sections.Section.Compile | internal/generator/section.go:25-48 | the template gains exactly the parsed definitions of `Compiled`, and the error is its error |
| LegacySpec.Appended | internal/generate/generator.go:28-35 | adding appends to one list and leaves the other unchanged |
| Legacy.Agenda.constructor | internal/generate/generator.go:20-25 | a new agenda has empty lists |
| Legacy.Agenda.AddTemplate | internal/generate/generator.go:28-30 | the template is appended and the actions are unchanged |
| Legacy.Agenda.AddAction | internal/generate/generator.go:33-35 | the action is appended and the templates are unchanged |
| LegacySpec.GotMeaning | internal/generate/generator.go:41-48 | `Get` adds at most the element; existing agendas are unchanged; a missing one is created empty |
| Legacy.Catalog.Get | internal/generate/generator.go:41-48 | the existing agenda is returned unchanged, or a fresh empty one is inserted and returned |
| Legacy.Catalog.File | internal/generate/generator.go:66-67 | the node is appended to its element's list |
| Legacy.Catalog.Collect | internal/generate/generator.go:60-79 | the loop computes `Collect` |
| LegacySpec.CollectLists | internal/generate/generator.go:60-79 | each element's list gains the nodes of that element in order; the other lists are unchanged |
| LegacySpec.CollectKeys | internal/generate/generator.go:60-79 | exactly the elements of nodes that have one become keys |
| LegacySpec.ElementNodesKeyed | internal/generate/generator.go:62-65 | only nodes with the element keyword are filed under it; nodes without one are skipped |
| LegacySpec.NewGeneratorCatalog | internal/generate/generator.go:57-90 | the corrected catalog's keys are the elements of templates and actions, each agenda lists exactly that element's nodes in order, and nodes without an element are skipped |
| LegacySpec.CollectNil | internal/generate/generator.go:58-68 | on a nil catalog the loop panics exactly when some node has an element |
| LegacySpec.NewGeneratorAsWrittenPanics | internal/generate/generator.go:45 | as written, `NewGenerator` panics exactly when the catalog would be non-empty |
| LegacySpec.OneTemplatePanics | internal/generate/generator.go:45 | a generator with one template of element `x` panics as written, while the corrected catalog files it under `x` |
| Legacy.Generator.NewGenerator | internal/generate/generator.go:57-90 | the load error is returned; on success the generator holds the corrected catalog and has performed nothing |
| Legacy.Generator.FileTemplate | internal/generate/generator.go:93-96 | the stub performs nothing and returns no error; the call is recorded with its position and the dictionary |
| Legacy.Generator.ExecAction | internal/generate/generator.go:99-103 | the stub performs nothing and returns no error; the call is recorded with its position and the dictionary |
| Legacy.Generator.FileTemplates | internal/generate/generator.go:110-112 | one call per template, in order |
| Legacy.Generator.ExecActions | internal/generate/generator.go:120-122 | one call per action, in order |
| Legacy.Generator.NextNode | internal/generate/generator.go:106-125 | computes `Walk`: the node is set in the dictionary, its agenda obtained, its templates called, its children walked, its actions called, its Type deleted; no error |
| Legacy.Generator.NextNodes | internal/generate/generator.go:114-116 | the loop over children computes `WalkAll` |
| LegacySpec.WalkDict | internal/generate/generator.go:106-125 | after a walk, the dictionary is the caller's without every Type of the subtree, even a Type the caller had set |
| LegacySpec.WalkCatalog | internal/generate/generator.go:109-116 | after a walk, the catalog has an agenda for every Type of the subtree; the others are unchanged |
| LegacySpec.WithEmptyTwice | internal/generate/generator.go:109 | creating missing agendas for two sets in turn is creating them for their union |
| LegacySpec.WalkSees | internal/generate/generator.go:106-125 | every template call sees, in the dictionary, a node of the element it belongs to; the invariants on the catalog and the dictionary are preserved |
| LegacySpec.WalkActionsDict | internal/generate/generator.go:107-123 | a node's action calls come last and get the dictionary as the children left it: the node's own entry is there, holding the node, exactly when no descendant has the same Type |

## Left out

- File generation and action execution (`GenFile`, `ExecAction` of internal/generator/generator.go) are effect steps. Their failure is an oracle; templates, files and commands are not modelled.
- Two things of the template engine are abstract. Which templates a section loads is an input (`Environment.Load`); macro expansion is an oracle. Rendering in the slow path of `ExecValueTemplate` is a parameter.
- The error that `ExecuteMacro` drops from `Execute` is not modelled: its output is whatever the oracle gives.
- The brief decoder is not modelled: its output (forms or an error) is an input of `ReadNode`.
- `LoadGlobTemplates`, `loadLocalTemplates`, `SectionNames` and `LoadSectionTemplates` are file system I/O and are abstract.
- Some process plumbing is not modelled: `filepath.Abs` and `ValidateFolder` of `Generate`, and `CompileLibrary`, `Execute` and the command-line entry points.
- `filepath.Join` of the destination and the project name is taken as given (`ProjectDir`).
- `MkdirAll` and `Chdir` of a project are one step.
- `Command` refers to `Destination` and `AddSection`, which `Generator` lacks. Only the control flow of those functions is modelled.
- Macro expansion carries a round bound, because the source has no cycle check. Running out is the model-only error `OutOfFuel`. The model does not decide whether an expansion diverges.
- Nodes are values. Updates in place of Keys, Name, Content, Body and Parent are modelled as returned nodes. `Parent` is a reference number, and aliasing between nodes is not modelled.
- The catalog holds each agenda as a value rather than as a shared `*Agenda`. The source reaches an agenda only through its catalog key, so nothing observable is lost.
- The missing elements of `ValidateSection` are a set: the source's list order follows Go map iteration.
- Debug and verbose printing are left out.
- Sections.Quote escapes only `"`, `\`, newline, tab and carriage return. The other escapes of Go's `%q` are not modelled.
- Sections.Section.Compile requires a `definitions` child and, for a named section whose scan succeeds, the entry `defn[subname]`. Without them the source dereferences nil.
- Legacy.Generator.NewGenerator requires a `templates` child: the source calls `Get` on a possibly nil node.
- In the legacy walker, a descendant of the same Type deletes the node's dictionary entry before the node's actions run (`LegacySpec.WalkActionsDict`). The stubs ignore the dictionary, so nothing observable follows from this today.
- The legacy `Template` field is not stored. `FileTemplate` and `ExecAction` are empty in the source; the model records their calls so that each call's arguments can be stated.
- The brief `Child` and `GetNode` look-ups are modelled as the first child of that Type.
- The snapshot copies in internal/generate (`catalog.go`, `project.go`, `command.go`, `generate.go`) repeat internal/generate/generator.go and are not modelled.
- project/ and internal/brevity are not part of this model.

## Findings

| source | as written | input that shows it | evidently intended | confidence | as-written member | corrected member |
|---|---|---|---|---|---|---|
| internal/generator/command.go:72-75 | only more than one form is rejected, then `nodes[0]` is returned | a spec file that decodes to no form at all: index out of range | a file must hold exactly one form, and an empty one is an error | not executed | CommandSpec.ReadNodeNoFormFails | CommandSpec.ReadNode |
| internal/generate/generator.go:58,45 | `var cat Catalog` is a nil map, and `Get` writes into it | a generator with one template whose element is `x`: assignment to an entry in a nil map | the catalog starts empty and collects an agenda per element | not executed | LegacySpec.OneTemplatePanics | LegacySpec.NewGeneratorCatalog |
