/**
 * The Tekton task types the resolver reads and produces: parameter
 * declarations, steps and task specifications.
 */
module Tekton {
  import opened Wrappers

  /** The declared type of a parameter. */
  datatype ParamType = StringType | ArrayType | ObjectType

  /** A parameter value: a single string or an array of strings. */
  datatype ParamValue = StringValue(text: string) | ArrayValue(items: seq<string>)

  /** A parameter declaration of a task or of a task group. */
  datatype ParamSpec = ParamSpec(
    name: string,
    paramType: ParamType,
    defaultValue: Option<ParamValue>,
    description: string)

  /**
   * A step: the container name, the container image and the script it runs.
   * The other container attributes, and any parameter references they hold,
   * are not modelled.
   */
  datatype Step = Step(name: string, image: string, script: string)

  /** A flat, executable task specification. */
  datatype TaskSpec = TaskSpec(params: seq<ParamSpec>, steps: seq<Step>)

  /** A step that runs `image` with `script` and has no container name. */
  function InlineStep(image: string, script: string): Step
  {
    Step("", image, script)
  }

  /** A string parameter with no default and no description. */
  function StringParam(name: string): ParamSpec
  {
    ParamSpec(name, StringType, None, "")
  }
}
