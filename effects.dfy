/** The generator's side effects and its errors.

    Writing a file from a template, running an action's command and creating
    and entering a project directory are not modelled as I/O: each is a step
    appended to a trace, and whether a step fails is an oracle that may depend
    on everything performed before it. */
module Effects {
  import opened Wrappers
  import opened Nodes

  /** One effect the generator performs. */
  datatype Step =
    | GenFile(template: Node, spec: Node, dir: string)   // GenFile: render `template` on `spec` into `dir`
    | ExecAction(action: Node, spec: Node, dir: string)  // ExecAction: run the action's exec command in `dir`
    | EnterProject(dir: string)                          // MkdirAll and Chdir of a project directory

  /** The errors the generator reports, one alternative per message of the source. */
  datatype Error =
    | Unnamed(kind: string, pos: nat)                               // "%s %d has no name"
    | MissingKeyword(kind: string, name: string, keyword: string)   // "missing %s:%q %s keyword"
    | MissingNode(name: string)                                     // "generator.brief missing %s node"
    | MissingElements(section: string, missing: set<string>)        // "invalid %s spec: missing elements %s"
    | StepFailed(step: Step)                                        // a GenFile, ExecAction or directory error
    | DecodeFailed(message: string)                                 // the brief decoder's error
    | TooManyForms(file: string)                                    // "... has more than one top level form"
    | NoForms(file: string)                                         // a file that decodes to no form at all
    | NotBrevity                                                    // "invalid brevity spec: top-level brevity"
    | NotProject                                                    // "invalid brevity project"
    | UnnamedProject                                                // "invalid brevity spec: project must be named"
    | ProjectNameRequired                                           // "project name is required"
    | EmptyCatalog                                                  // "empty generator catalog"
    | LoadFailed(message: string)                                   // a template loading error
    | NoTemplates(section: string, name: string)                    // "no templates found: section %s:%s"
    | MacroFailed(message: string)                                  // a macro expansion error
    | OutOfFuel                                                     // the expansion bound of the model was reached
    | UnnamedDefinitions(section: string)                           // "sub definitions must have names! ..."
    | RecursiveFiles(file: string)                                  // "resursive files at %q"

  /** Whether performing `step` after `history` fails. */
  type Oracle = (seq<Step>, Step) -> bool

  /** The trace after running some steps, and the error that stopped them. */
  datatype Outcome = Outcome(trace: seq<Step>, err: Option<Error>)

  /** Perform `plan` in order after `history`, stopping at the first step that fails. */
  function Run(fails: Oracle, history: seq<Step>, plan: seq<Step>): Outcome
    decreases |plan|
  {
    if plan == [] then Outcome(history, None)
    else if fails(history, plan[0]) then Outcome(history + [plan[0]], Some(StepFailed(plan[0])))
    else Run(fails, history + [plan[0]], plan[1..])
  }

  /** Running `p` then `q` is running `p + q`; a failure in `p` means `q` never starts. */
  lemma {:induction false} RunAppend(fails: Oracle, h: seq<Step>, p: seq<Step>, q: seq<Step>)
    ensures Run(fails, h, p + q) == (var o := Run(fails, h, p); if o.err.Some? then o else Run(fails, o.trace, q))
    decreases |p|
  {
    if p == [] {
      assert p + q == q;
    } else {
      assert (p + q)[0] == p[0];
      assert (p + q)[1..] == p[1..] + q;
      if !fails(h, p[0]) {
        RunAppend(fails, h + [p[0]], p[1..], q);
      }
    }
  }

  /** A run performs a prefix of the plan after the history. */
  lemma {:induction false} RunPrefix(fails: Oracle, h: seq<Step>, p: seq<Step>)
    ensures var o := Run(fails, h, p);
            && |h| <= |o.trace| <= |h| + |p|
            && o.trace == h + p[..|o.trace| - |h|]
    decreases |p|
  {
    if p != [] && !fails(h, p[0]) {
      var h' := h + [p[0]];
      RunPrefix(fails, h', p[1..]);
      var n := |Run(fails, h', p[1..]).trace| - |h|;
      assert p[..n] == [p[0]] + p[1..][..n - 1];
    } else if p != [] {
      assert p[..1] == [p[0]];
    }
  }

  /** A failed run ends with the step that failed, and its error names it. */
  lemma {:induction false} RunFailure(fails: Oracle, h: seq<Step>, p: seq<Step>)
    ensures var o := Run(fails, h, p);
            o.err.Some? ==>
              && |o.trace| > |h|
              && o.err == Some(StepFailed(o.trace[|o.trace| - 1]))
              && fails(o.trace[..|o.trace| - 1], o.trace[|o.trace| - 1])
    decreases |p|
  {
    if p != [] && !fails(h, p[0]) {
      RunFailure(fails, h + [p[0]], p[1..]);
    } else if p != [] {
      assert (h + [p[0]])[..|h|] == h;
    }
  }

  /** A run succeeds exactly when no step of the plan fails after the ones
      before it, and then it performs the whole plan. */
  lemma {:induction false} RunSuccess(fails: Oracle, h: seq<Step>, p: seq<Step>)
    ensures var o := Run(fails, h, p);
            && (o.err.None? <==> forall i :: 0 <= i < |p| ==> !fails(h + p[..i], p[i]))
            && (o.err.None? ==> o.trace == h + p)
    decreases |p|
  {
    if p == [] {
    } else if fails(h, p[0]) {
      assert h + p[..0] == h;
    } else {
      var h' := h + [p[0]];
      RunSuccess(fails, h', p[1..]);
      assert h' + p[1..] == h + p;
      StepsShifted(fails, h, p);
    }
  }

  /** The steps of `p` after the first, seen from the history extended by it. */
  lemma StepsShifted(fails: Oracle, h: seq<Step>, p: seq<Step>)
    requires p != [] && !fails(h, p[0])
    ensures (forall i :: 0 <= i < |p| ==> !fails(h + p[..i], p[i]))
            <==> (forall i :: 0 <= i < |p| - 1 ==> !fails(h + [p[0]] + p[1..][..i], p[1..][i]))
  {
    forall i | 0 <= i < |p| - 1
      ensures h + [p[0]] + p[1..][..i] == h + p[..i + 1] && p[1..][i] == p[i + 1]
    {
      assert p[..i + 1] == [p[0]] + p[1..][..i];
    }
    if forall i :: 0 <= i < |p| - 1 ==> !fails(h + [p[0]] + p[1..][..i], p[1..][i]) {
      forall i | 0 <= i < |p|
        ensures !fails(h + p[..i], p[i])
      {
        if i == 0 {
          assert h + p[..0] == h;
        } else {
          assert !fails(h + [p[0]] + p[1..][..i - 1], p[1..][i - 1]);
        }
      }
    }
  }

  /** Every step performed before the last one succeeded. */
  lemma {:induction false} RunEarlier(fails: Oracle, h: seq<Step>, p: seq<Step>)
    ensures var o := Run(fails, h, p);
            forall i :: 0 <= i < |p| && i < |o.trace| - |h| - 1 ==> !fails(h + p[..i], p[i])
    decreases |p|
  {
    if p != [] && !fails(h, p[0]) {
      var h' := h + [p[0]];
      RunEarlier(fails, h', p[1..]);
      var o := Run(fails, h, p);
      forall i | 0 <= i < |p| && i < |o.trace| - |h| - 1
        ensures !fails(h + p[..i], p[i])
      {
        if i > 0 {
          assert h' + p[1..][..i - 1] == h + p[..i];
          assert p[1..][i - 1] == p[i];
        } else {
          assert h + p[..0] == h;
        }
      }
    }
  }

  /** What a run means: it performs a prefix of the plan; every step but a
      failing last one succeeded; it fails exactly when some step fails, and then
      the error names the last step performed. */
  lemma RunShape(fails: Oracle, h: seq<Step>, p: seq<Step>)
    ensures var o := Run(fails, h, p);
            && |h| <= |o.trace| <= |h| + |p|
            && o.trace == h + p[..|o.trace| - |h|]
            && (o.err.None? <==> o.trace == h + p && forall i :: 0 <= i < |p| ==> !fails(h + p[..i], p[i]))
            && (o.err.Some? ==>
                  && |o.trace| > |h|
                  && o.err == Some(StepFailed(o.trace[|o.trace| - 1]))
                  && fails(o.trace[..|o.trace| - 1], o.trace[|o.trace| - 1]))
            && (forall i :: 0 <= i < |o.trace| - |h| - 1 ==> !fails(h + p[..i], p[i]))
  {
    RunPrefix(fails, h, p);
    RunFailure(fails, h, p);
    RunSuccess(fails, h, p);
    RunEarlier(fails, h, p);
  }
}
