# TaskGroup resolver

A Dafny model of the resolver of the Tekton task-group extension. A *task
group* is an ordered list of steps, each either an inline step or a `Uses`
step that refers to another task. The resolver flattens a group into one
Tekton task specification, given the specification of each referenced task
keyed by the position of its `Uses` step in the group:

- the output parameters start as the group's parameters; each parameter of a
  used task that the `Uses` step binds adds nothing, and each unbound one is
  appended unless a parameter of that name is already there, which must then
  have the same type (otherwise resolution fails with `ParamTypeConflict`);
- an inline step is copied through unchanged;
- a `Uses` step is replaced, in place, by the steps of the task it uses, in
  order: each is named `outer-inner` and has every `$(params.<name>)`
  reference to a bound parameter rewritten to the parameter it is bound to;
- a `Uses` step with no resolved reference makes resolution fail with
  `MissingReference`.

The resolver's own implementation is not part of this model. Its behaviour
is taken from the table of cases in `pkg/resolve/taskgroup_test.go`, which
the model reproduces exactly (module `ResolveCases`); it is summarised above.

Files:

- `wrappers.dfy` (`Wrappers`): `Option` and `Result`.
- `tekton.dfy` (`Tekton`): parameter declarations, steps and task specifications.
- `taskgroup.dfy` (`TaskGroup`): bindings, `Uses`, group steps and the group.
- `substitution.dfy` (`Substitution`): recognition and rewriting of `$(params.<name>)`.
- `resolve.dfy` (`Resolver`): the resolver as a left fold over the group's
  steps (`ResolveFrom`, `Resolve`). It also holds the resolver as a loop that
  accumulates parameters and steps (`ResolveTaskSpec`), which is proved equal
  to the fold.
- `seqs.dfy` (`Seqs`): concatenation of a sequence of sequences, and where each element lands in it.
- `properties.dfy` (`ResolveProperties`): what the resolver promises, proved about the fold.
  The flattened steps and the declarations in play are concatenations of
  per-step parts (`Flatten`, `Declared`).
- `cases.dfy` (`ResolveCases`): the resolver on each group of the test table.

Decisions where the cases leave the behaviour open:

- A name bound twice is bound along its last binding. The binding table is
  filled in binding order.
- The script rewrite is a single left-to-right pass. At each position where
  `$(params.` starts, the name runs to the first `)`. A bound name is replaced
  and scanning resumes after the reference. Anything else is copied one
  character at a time. A rewritten reference is never rewritten again.
- The type check compares an incoming parameter with the first output
  parameter of the same name. The output parameters include those appended
  from earlier used tasks.
- The reference map is keyed by `int` step index, as in the source.

## Model

| member | source | states |
|---|---|---|
| Resolver.ResolveTaskSpec | pkg/resolve/taskgroup_test.go:233-239 | The loop returns exactly what the fold `Resolve` gives for every group and reference map. |
| Resolver.ResolveFrom | pkg/resolve/taskgroup_test.go:244-287 | A result keeps the parameters and steps collected so far as prefixes. A `MissingReference` error names a later `Uses` step with no reference. A `ParamTypeConflict` error names two different types. |
| Resolver.MergeParams | pkg/resolve/taskgroup_test.go:75-178 | Merging keeps the collected parameters as a prefix. It appends only unbound parameters of the used task. A failure names an unbound incoming parameter of that name and type, and an existing type that differs from it. |
| ResolveProperties.MergeParamsConflict | pkg/resolve/taskgroup_test.go:260-286 | A failed merge names the existing type of a parameter of that name: one collected before, or an earlier unbound parameter of the used task. |
| Resolver.AddParams | pkg/resolve/taskgroup_test.go:75-178 | The loop over the used task's parameters computes `MergeParams`. |
| Resolver.Find | pkg/resolve/taskgroup_test.go:128-178 | The found index is the first parameter with the name. None means no parameter has it. |
| Resolver.Unbound | pkg/resolve/taskgroup_test.go:180-220 | A parameter is kept iff it is declared and its name is not bound. |
| Resolver.BindingTable | pkg/resolve/taskgroup_test.go:197-200 | The loop builds the binding table `Bindings`. |
| Resolver.BindingsDomain | pkg/resolve/taskgroup_test.go:197-200 | A name is bound iff some binding names it. |
| Resolver.BindingsLastWins | pkg/resolve/taskgroup_test.go:197-200 | A name is bound to the target of the last binding that names it. |
| Resolver.ExpandUsedSteps | pkg/resolve/taskgroup_test.go:56-73 | The loop over the used task's steps computes `ExpandSteps`: one step per used step, in order, each named `outer-inner` with its image kept and its script rewritten. |
| Substitution.RefAt | pkg/resolve/taskgroup_test.go:212 | A recognised reference is a prefix of the text. Its name holds no `)`. |
| Substitution.RefAtRef | pkg/resolve/taskgroup_test.go:212 | `$(params.n)` is recognised as a reference to exactly `n`. |
| Substitution.RewriteFree | pkg/resolve/taskgroup_test.go:157-160 | A script with no reference to a bound parameter comes out unchanged. |
| Substitution.RewriteNoBindings | pkg/resolve/taskgroup_test.go:103-106 | With no bindings, every script comes out unchanged. |
| Substitution.RewriteBoundRef | pkg/resolve/taskgroup_test.go:210-226 | A reference to a bound parameter becomes a reference to its target, and the rest of the script is rewritten after it. |
| Substitution.RewriteUnboundRef | pkg/resolve/taskgroup_test.go:210-226 | A reference to an unbound parameter is kept verbatim, and the rest of the script is rewritten after it. |
| Substitution.RewriteFreePrefix | pkg/resolve/taskgroup_test.go:210-226 | Text in which no position starts a reference to a bound parameter, such as a shell variable `$HOME`, is copied through, and the rest of the script is rewritten after it. |
| Substitution.RewritePlain | pkg/resolve/taskgroup_test.go:212-226 | Text without `$` is copied through, whatever follows it. |
| ResolveProperties.ResolveSucceedsIff | pkg/resolve/taskgroup_test.go:244-287 | The group's parameter names must be distinct. Under that, resolution succeeds iff two conditions hold: every `Uses` step has a reference, and same-named declarations share a type. |
| ResolveProperties.ResolvedParams | pkg/resolve/taskgroup_test.go:75-178 | The output parameters start with the group's and come only from the declarations. Their names are distinct. One of each declared name and type is present. |
| ResolveProperties.ResolvedParamsFirst | pkg/resolve/taskgroup_test.go:75-178 | With distinct group parameter names, the output parameters are exactly the first declaration of each name, in declaration order, each kept whole. |
| ResolveProperties.MergeParamsFirst | pkg/resolve/taskgroup_test.go:128-178 | Merging into the first declaration of each name yields the first declaration of each name once the used task's unbound parameters join. |
| ResolveProperties.ResolvedSteps | pkg/resolve/taskgroup_test.go:40-73 | The output steps are the expansions of the group steps, concatenated in group order. |
| ResolveProperties.StepCount | pkg/resolve/taskgroup_test.go:64-73 | Output step count = number of inline steps + step counts of the used tasks. |
| ResolveProperties.InlineStepInPlace | pkg/resolve/taskgroup_test.go:64-69 | An inline step is copied unchanged to its position after the expansions of the steps before it. |
| ResolveProperties.UsedStepInPlace | pkg/resolve/taskgroup_test.go:40-73 | The `j`-th step of a used task lands after the expansions of the earlier group steps. It is named after the `Uses` step and itself, keeps its image and has its script rewritten. |
| ResolveProperties.NoUsesIdentity | pkg/resolve/taskgroup_test.go:22-38 | A group without `Uses` steps resolves to its own steps and its own parameters. |
| ResolveProperties.ParamUnion | pkg/resolve/taskgroup_test.go:75-126 | If all names are distinct, the output parameters are the group's, then each used task's unbound ones in order, with default and description kept. |
| ResolveProperties.DedupKeepsGroupParams | pkg/resolve/taskgroup_test.go:128-178 | If every declaration repeats a group parameter's name and type, the output parameters are exactly the group's. |
| ResolveProperties.MergeParamsCollected | pkg/resolve/taskgroup_test.go:128-178 | Merging succeeds iff the declarations stay consistent once the used task's unbound parameters join them. The result then accounts for every declaration. |
| ResolveProperties.MergeParamsDisjoint | pkg/resolve/taskgroup_test.go:75-126 | Merging parameters with new names appends the unbound ones in order. |
| ResolveProperties.TypeConflictFails | pkg/resolve/taskgroup_test.go:260-286 | An unbound parameter of a used task that repeats a group parameter's name with another type makes resolution fail. |
| ResolveProperties.ConflictDeclared | pkg/resolve/taskgroup_test.go:260-286 | A `ParamTypeConflict(n, t, t')` result means the declarations hold one parameter named `n` of type `t` and one of type `t'`. |
| ResolveProperties.MissingReferenceFails | pkg/resolve/taskgroup_test.go:250-258 | A `Uses` step with no reference makes resolution fail. |
| ResolveCases.NoUses | pkg/resolve/taskgroup_test.go:22-38 | The "no uses" group resolves to the expected task. |
| ResolveCases.UsesSteps | pkg/resolve/taskgroup_test.go:40-73 | The "uses steps" group resolves to the expected task, whose second step is `foo-baz`. |
| ResolveCases.UsesStepsAndParams | pkg/resolve/taskgroup_test.go:75-126 | The "uses steps and params" group resolves to the expected task, with `param1`'s default and description kept. |
| ResolveCases.UsesStepsAndDuplicatedParams | pkg/resolve/taskgroup_test.go:128-178 | The "uses steps and duplicated params" group resolves to the expected task, with `paramFoo` declared once. |
| ResolveCases.UsesStepsAndParamBindings | pkg/resolve/taskgroup_test.go:180-228 | The "uses steps and param bindings" group resolves to the expected task. `paramBar` is not added and its reference is rewritten to `paramFoo`. |
| ResolveCases.BarRewritten | pkg/resolve/taskgroup_test.go:212-226 | `echo $(params.paramBar)` is rewritten to `echo $(params.paramFoo)` when `paramBar` is bound to `paramFoo`. |
| ResolveCases.UsesWithoutReference | pkg/resolve/taskgroup_test.go:250-258 | The group whose `Uses` step has no reference fails with `MissingReference(0)`. |
| ResolveCases.DuplicatedParamsWithDifferentTypes | pkg/resolve/taskgroup_test.go:260-286 | The group with clashing parameter types, as written, fails with `MissingReference(0)`, because its reference is keyed 1. |
| ResolveCases.DuplicatedParamsConflict | pkg/resolve/taskgroup_test.go:260-286 | The same group with its reference keyed 0 fails with `ParamTypeConflict("paramFoo", string, array)`. |

## Left out

- The resolver's implementation file is not part of this model. The model follows the cases of the test table and the description above.
- The knative informer and injection plumbing (`pkg/client/injection/informers/...`) is left out. It is cluster I/O with no logic.
- Container attributes other than name, image and script are left out, together with any parameter references they hold. Only the script's references are rewritten here.
- `Uses` steps nested inside a used task are left out. Callers supply already-flattened references, and the resolver does not recurse.
- Checking that a binding's group-side target is a group parameter is left out. Neither the cases nor the description above define it.
- Tekton substitution syntax other than `$(params.<name>)` is left out: other reference forms and names containing `)` are not recognised.
- A nil and an empty parameter list are the same value here, since both are the empty sequence. The output "never nil" rule therefore holds trivially.
- The test drivers (`t.Run`, `cmp.Diff`) are left out. Each case is a lemma instead.
- ResolveProperties.TypeConflictFails: requires the group's parameter names to be distinct. With a repeated group name, only the first declaration of that name is compared.
- ResolveProperties.ResolvedParamsFirst: requires the group's parameter names to be distinct. A repeated group name is kept twice, since group parameters are never merged with each other.
- ResolveProperties.ResolveSucceedsIff: requires the group's parameter names to be distinct. These are never merged with each other, so a group that clashes with itself can still resolve.

## Findings

| source | as written | input that shows it | evidently intended | confidence | as-written member | corrected member |
|---|---|---|---|---|---|---|
| pkg/resolve/taskgroup_test.go:260-286 | The "duplicated params with different types" case keys its reference at 1, but its only `Uses` step is at index 0. | That case's group and map: resolution fails with `MissingReference(0)` before any parameter is compared. | The reference keyed at the step's index 0, so that the case fails for the type conflict it is named after. | medium, not executed | ResolveCases.DuplicatedParamsWithDifferentTypes | ResolveCases.DuplicatedParamsConflict |
