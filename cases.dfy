/**
 * The resolver on the groups of the repository's test table: the five
 * groups that resolve, with the task specifications they resolve to, and
 * the two groups that fail.
 */
module ResolveCases {
  import opened Wrappers
  import opened Tekton
  import opened TaskGroup
  import opened Substitution
  import opened Resolver
  import opened ResolveProperties

  /** The inline step every successful case starts with. */
  function EchoFoo(): Step
  {
    InlineStep("bash:latest", "echo foo")
  }

  /** The step of the used task `foo`, running `script`. */
  function Baz(script: string): Step
  {
    Step("baz", "bash:latest", script)
  }

  /** A group of the inline step followed by a use of task `foo` with `bindings`. */
  function EchoThenFoo(params: seq<ParamSpec>, bindings: seq<ParamBinding>): TaskGroupSpec
  {
    TaskGroupSpec(params, [Inline(EchoFoo()), UsesStep("foo", "foo", bindings)])
  }

  /** The step the use of `foo` contributes, with its script as rewritten. */
  function FooBaz(script: string): Step
  {
    Step("foo-baz", "bash:latest", script)
  }

  /**
   * A group of the inline step and a use of `foo` resolves to the merged
   * parameters and the inline step followed by the expanded steps of `foo`.
   */
  lemma EchoThenFooResolves(params: seq<ParamSpec>, bindings: seq<ParamBinding>, used: TaskSpec, ps: seq<ParamSpec>)
    requires MergeParams(params, used.params, Bindings(bindings)) == Ok(ps)
    ensures Resolve(EchoThenFoo(params, bindings), map[1 := used])
      == Ok(TaskSpec(ps, [EchoFoo()] + ExpandSteps(Step("foo", "", ""), used.steps, Bindings(bindings))))
  {
    var g := EchoThenFoo(params, bindings);
    var refs := map[1 := used];
    var b := Bindings(bindings);
    var expanded := ExpandSteps(Step("foo", "", ""), used.steps, b);
    assert g.steps[0] == Inline(EchoFoo()) && g.steps[1].step == Step("foo", "", "");
    assert g.steps[1].uses == Some(Uses("foo", bindings));
    UnfoldInline(g, refs, 0, params, []);
    assert [] + [EchoFoo()] == [EchoFoo()];
    UnfoldUses(g, refs, 1, params, [EchoFoo()]);
    assert ResolveFrom(g, refs, 2, ps, [EchoFoo()] + expanded) == Ok(TaskSpec(ps, [EchoFoo()] + expanded));
  }

  /** The step of `foo` used by the step `foo` becomes `foo-baz`, with its script rewritten. */
  lemma ExpandBaz(script: string, b: map<string, string>, rewritten: string)
    requires Rewrite(script, b) == rewritten
    ensures ExpandSteps(Step("foo", "", ""), [Baz(script)], b) == [FooBaz(rewritten)]
  {
    assert "foo" + "-" + "baz" == "foo-baz";
    assert ExpandSteps(Step("foo", "", ""), [Baz(script)], b)[0] == Expanded(Step("foo", "", ""), Baz(script), b);
  }

  /** A group without `Uses` steps resolves to its steps and no parameters. */
  lemma NoUses()
    ensures Resolve(TaskGroupSpec([], [Inline(EchoFoo())]), map[]) == Ok(TaskSpec([], [EchoFoo()]))
  {
  }

  /** The used task's step follows the inline step, renamed after the `Uses` step. */
  lemma UsesSteps()
    ensures Resolve(EchoThenFoo([], []), map[1 := TaskSpec([], [Baz("echo bar")])])
      == Ok(TaskSpec([], [EchoFoo(), FooBaz("echo bar")]))
  {
    EchoBarExpanded();
    EchoThenFooResolves([], [], TaskSpec([], [Baz("echo bar")]), []);
  }

  /** The used task's parameter follows the group's, with its default and description. */
  lemma UsesStepsAndParams()
    ensures var param1 := ParamSpec("param1", StringType, Some(StringValue("value1")), "description1");
      Resolve(EchoThenFoo([StringParam("paramTaskGroup")], []),
              map[1 := TaskSpec([param1], [Baz("echo bar")])])
        == Ok(TaskSpec([StringParam("paramTaskGroup"), param1], [EchoFoo(), FooBaz("echo bar")]))
  {
    var param1 := ParamSpec("param1", StringType, Some(StringValue("value1")), "description1");
    EchoBarExpanded();
    Param1Appended(param1);
    EchoThenFooResolves([StringParam("paramTaskGroup")], [], TaskSpec([param1], [Baz("echo bar")]),
                        [StringParam("paramTaskGroup"), param1]);
  }

  /** Without bindings, the step of `foo` keeps its script `echo bar`. */
  lemma EchoBarExpanded()
    ensures [EchoFoo()] + ExpandSteps(Step("foo", "", ""), [Baz("echo bar")], Bindings([]))
      == [EchoFoo(), FooBaz("echo bar")]
  {
    RewriteNoBindings("echo bar");
    assert Bindings([]) == map[];
    ExpandBaz("echo bar", map[], "echo bar");
  }

  /** A parameter of a new name is appended after `paramTaskGroup`. */
  lemma Param1Appended(param1: ParamSpec)
    requires param1.name == "param1"
    ensures MergeParams([StringParam("paramTaskGroup")], [param1], Bindings([]))
      == Ok([StringParam("paramTaskGroup"), param1])
  {
    var gp := [StringParam("paramTaskGroup")];
    assert Bindings([]) == map[];
    assert Find(gp, "param1").None?;
    assert MergeParams(gp, [param1], map[]) == MergeParams(gp + [param1], [], map[]);
    assert gp + [param1] == [StringParam("paramTaskGroup"), param1];
  }

  /** A used task's parameter that repeats a group parameter of the same type is not added again. */
  lemma UsesStepsAndDuplicatedParams()
    ensures var gp := [StringParam("paramTaskGroup"), StringParam("paramFoo")];
      Resolve(EchoThenFoo(gp, []), map[1 := TaskSpec([StringParam("paramFoo")], [Baz("echo bar")])])
        == Ok(TaskSpec(gp, [EchoFoo(), FooBaz("echo bar")]))
  {
    var gp := [StringParam("paramTaskGroup"), StringParam("paramFoo")];
    EchoBarExpanded();
    assert Bindings([]) == map[];
    assert Find(gp, "paramFoo") == Some(1);
    assert MergeParams(gp, [StringParam("paramFoo")], map[]) == MergeParams(gp, [], map[]);
    EchoThenFooResolves(gp, [], TaskSpec([StringParam("paramFoo")], [Baz("echo bar")]), gp);
  }

  /** A bound parameter adds nothing, and its references are rewritten to the group parameter. */
  lemma UsesStepsAndParamBindings()
    ensures Resolve(EchoThenFoo([StringParam("paramFoo")], [ParamBinding("paramBar", "paramFoo")]),
                    map[1 := TaskSpec([StringParam("paramBar")], [Baz("echo $(params.paramBar)")])])
      == Ok(TaskSpec([StringParam("paramFoo")], [EchoFoo(), FooBaz("echo $(params.paramFoo)")]))
  {
    var b := map["paramBar" := "paramFoo"];
    assert Bindings([ParamBinding("paramBar", "paramFoo")]) == b;
    BarRewritten();
    ExpandBaz("echo $(params.paramBar)", b, "echo $(params.paramFoo)");
    assert [EchoFoo()] + [FooBaz("echo $(params.paramFoo)")] == [EchoFoo(), FooBaz("echo $(params.paramFoo)")];
    assert MergeParams([StringParam("paramFoo")], [StringParam("paramBar")], b)
      == MergeParams([StringParam("paramFoo")], [], b);
    EchoThenFooResolves([StringParam("paramFoo")], [ParamBinding("paramBar", "paramFoo")],
                        TaskSpec([StringParam("paramBar")], [Baz("echo $(params.paramBar)")]),
                        [StringParam("paramFoo")]);
  }

  /** The reference to `paramBar` is rewritten to one to `paramFoo`; the rest is kept. */
  lemma BarRewritten()
    ensures Rewrite("echo $(params.paramBar)", map["paramBar" := "paramFoo"]) == "echo $(params.paramFoo)"
  {
    var b := map["paramBar" := "paramFoo"];
    EchoBarRef();
    EchoFooRef();
    RewritePlain("echo ", Ref("paramBar"), b);
    assert Ref("paramBar") + "" == Ref("paramBar");
    BarHasNoClose();
    RewriteBoundRef("paramBar", "", b);
    assert Rewrite("", b) == "";
    assert Ref("paramFoo") + "" == Ref("paramFoo");
  }

  /** The used task's script in the bindings case is `echo ` followed by a reference. */
  lemma EchoBarRef()
    ensures "echo $(params.paramBar)" == "echo " + Ref("paramBar")
  {
  }

  /** The expected script in the bindings case is `echo ` followed by a reference. */
  lemma EchoFooRef()
    ensures "echo $(params.paramFoo)" == "echo " + Ref("paramFoo")
  {
  }

  lemma BarHasNoClose()
    ensures ')' !in "paramBar"
  {
  }

  /** A `Uses` step without a resolved reference makes the resolution fail. */
  lemma UsesWithoutReference()
    ensures Resolve(TaskGroupSpec([], [UsesStep("", "foo", [])]), map[]) == Err(MissingReference(0))
  {
  }

  /**
   * The failing group with a clashing parameter: its only step is at index 0
   * while its reference is keyed 1, so it fails for the missing reference.
   */
  lemma DuplicatedParamsWithDifferentTypes()
    ensures Resolve(TaskGroupSpec([StringParam("paramFoo")], [UsesStep("foo", "foo", [])]),
                    map[1 := TaskSpec([ParamSpec("paramFoo", ArrayType, None, "")], [Baz("echo bar")])])
      == Err(MissingReference(0))
  {
  }

  /**
   * The same group with its reference keyed at the step's index fails for
   * the clash: string for the group, array for the used task.
   */
  lemma DuplicatedParamsConflict()
    ensures Resolve(TaskGroupSpec([StringParam("paramFoo")], [UsesStep("foo", "foo", [])]),
                    map[0 := TaskSpec([ParamSpec("paramFoo", ArrayType, None, "")], [Baz("echo bar")])])
      == Err(ParamTypeConflict("paramFoo", StringType, ArrayType))
  {
  }
}
