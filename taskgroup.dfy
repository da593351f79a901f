/**
 * The TaskGroup resource: a group of steps, each either inline or a use of
 * another task whose parameters it may bind to the group's own parameters.
 */
module TaskGroup {
  import opened Wrappers
  import opened Tekton

  /** Binds the referenced task's parameter `name` to the group's parameter `param`. */
  datatype ParamBinding = ParamBinding(name: string, param: string)

  /** A use of the task `taskRef`, with its parameter bindings. */
  datatype Uses = Uses(taskRef: string, bindings: seq<ParamBinding>)

  /**
   * A step of a group: the step's own attributes and, when the step uses
   * another task, that use. The name of the step then prefixes the names of
   * the referenced task's steps.
   */
  datatype GroupStep = GroupStep(step: Step, uses: Option<Uses>)

  /** The specification of a task group: its parameters and ordered steps. */
  datatype TaskGroupSpec = TaskGroupSpec(params: seq<ParamSpec>, steps: seq<GroupStep>)

  /** A step of a group that does not use another task. */
  function Inline(s: Step): GroupStep
  {
    GroupStep(s, None)
  }

  /** A step of a group named `name` that uses `taskRef` with `bindings`. */
  function UsesStep(name: string, taskRef: string, bindings: seq<ParamBinding>): GroupStep
  {
    GroupStep(Step(name, "", ""), Some(Uses(taskRef, bindings)))
  }
}
