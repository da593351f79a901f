/**
 * The resolver: flattens a task group into one task specification, given
 * the already resolved specification of the task each `Uses` step refers to,
 * keyed by the position of that step in the group.
 */
module Resolver {
  import opened Wrappers
  import opened Tekton
  import opened TaskGroup
  import opened Substitution

  /** Why a group cannot be resolved. */
  datatype Error =
    /** The `Uses` step at `index` has no resolved reference. */
    | MissingReference(index: int)
    /** The parameter `name` is declared as `existing` and again as `incoming`. */
    | ParamTypeConflict(name: string, existing: ParamType, incoming: ParamType)

  /** The index of the first parameter of `ps` named `name`, if any. */
  function Find(ps: seq<ParamSpec>, name: string): (r: Option<nat>)
    ensures r.Some? ==> r.value < |ps| && ps[r.value].name == name
    ensures r.Some? ==> forall k :: 0 <= k < r.value ==> ps[k].name != name
    ensures r.None? ==> forall k :: 0 <= k < |ps| ==> ps[k].name != name
  {
    if ps == [] then None
    else if ps[0].name == name then Some(0)
    else match Find(ps[1..], name)
      case None => None
      case Some(k) => Some(k + 1)
  }

  /**
   * The binding table of a `Uses` step: referenced parameter name to group
   * parameter name. When a name is bound twice, the later binding wins.
   */
  function Bindings(bs: seq<ParamBinding>): map<string, string>
  {
    if bs == [] then map[]
    else Bindings(bs[..|bs| - 1])[bs[|bs| - 1].name := bs[|bs| - 1].param]
  }

  /** Exactly the names some binding mentions are bound. */
  lemma {:induction false} BindingsDomain(bs: seq<ParamBinding>, n: string)
    ensures n in Bindings(bs) <==> exists k :: 0 <= k < |bs| && bs[k].name == n
  {
    if bs != [] {
      var init := bs[..|bs| - 1];
      BindingsDomain(init, n);
      if n in Bindings(init) {
        var k :| 0 <= k < |init| && init[k].name == n;
        assert bs[k] == init[k];
      }
      if exists k :: 0 <= k < |bs| && bs[k].name == n {
        var k :| 0 <= k < |bs| && bs[k].name == n;
        if k < |init| { assert init[k] == bs[k]; }
      }
    }
  }

  /** A name bound more than once is bound to the target of its last binding. */
  lemma {:induction false} BindingsLastWins(bs: seq<ParamBinding>, k: nat)
    requires k < |bs| && BindsLast(bs, k)
    ensures bs[k].name in Bindings(bs) && Bindings(bs)[bs[k].name] == bs[k].param
  {
    var init := bs[..|bs| - 1];
    if k < |init| {
      assert init[k] == bs[k];
      assert BindsLast(init, k) by {
        forall k' | k < k' < |init| ensures init[k'].name != init[k].name {
          assert init[k'] == bs[k'];
        }
      }
      BindingsLastWins(init, k);
    }
  }

  /** No binding after the `k`-th binds the same name again. */
  predicate BindsLast(bs: seq<ParamBinding>, k: nat)
    requires k < |bs|
  {
    forall k' :: k < k' < |bs| ==> bs[k'].name != bs[k].name
  }

  /** The parameters of `ps` that `b` does not bind, in order. */
  function Unbound(ps: seq<ParamSpec>, b: map<string, string>): (r: seq<ParamSpec>)
    ensures forall p :: p in r <==> p in ps && p.name !in b
  {
    if ps == [] then []
    else if ps[0].name in b then Unbound(ps[1..], b)
    else [ps[0]] + Unbound(ps[1..], b)
  }

  /**
   * Adds the referenced parameters `incoming` to the parameters `acc`
   * collected so far: a parameter bound by `b` adds nothing; an unbound one
   * is appended unless a parameter of its name is already there, which must
   * then have the same type.
   */
  function MergeParams(acc: seq<ParamSpec>, incoming: seq<ParamSpec>, b: map<string, string>)
    : (r: Result<seq<ParamSpec>, Error>)
    decreases |incoming|
    ensures r.Ok? ==> |acc| <= |r.value| && r.value[..|acc|] == acc
    ensures r.Ok? ==> forall k :: |acc| <= k < |r.value| ==>
      r.value[k] in incoming && r.value[k].name !in b
    ensures r.Err? ==> r.error.ParamTypeConflict? && r.error.existing != r.error.incoming
    ensures r.Err? ==> exists p :: (p in incoming && p.name !in b
      && p.name == r.error.name && p.paramType == r.error.incoming)
  {
    if incoming == [] then Ok(acc)
    else
      var p := incoming[0];
      if p.name in b then MergeParams(acc, incoming[1..], b)
      else match Find(acc, p.name)
        case Some(i) =>
          if acc[i].paramType != p.paramType then Err(ParamTypeConflict(p.name, acc[i].paramType, p.paramType))
          else MergeParams(acc, incoming[1..], b)
        case None => MergeParams(acc + [p], incoming[1..], b)
  }

  /**
   * The step that a referenced step `inner` becomes inside the use `outer`:
   * its name prefixed by the outer step's name and a hyphen, its script
   * rewritten along the bindings `b`, its image kept.
   */
  function Expanded(outer: Step, inner: Step, b: map<string, string>): Step
  {
    inner.(name := outer.name + "-" + inner.name, script := Rewrite(inner.script, b))
  }

  /** The referenced steps `inner`, each expanded inside the use `outer`, in order. */
  function ExpandSteps(outer: Step, inner: seq<Step>, b: map<string, string>): seq<Step>
  {
    seq(|inner|, j requires 0 <= j < |inner| => Expanded(outer, inner[j], b))
  }

  /**
   * Resolution from the group step `i` on, with the parameters and steps
   * collected from the group steps before it.
   */
  function ResolveFrom(g: TaskGroupSpec, refs: map<int, TaskSpec>, i: nat,
                       params: seq<ParamSpec>, steps: seq<Step>): (r: Result<TaskSpec, Error>)
    requires i <= |g.steps|
    decreases |g.steps| - i
    ensures r.Ok? ==> |params| <= |r.value.params| && r.value.params[..|params|] == params
    ensures r.Ok? ==> |steps| <= |r.value.steps| && r.value.steps[..|steps|] == steps
    ensures r.Err? && r.error.MissingReference? ==>
      i <= r.error.index < |g.steps| && g.steps[r.error.index].uses.Some? && r.error.index !in refs
    ensures r.Err? && r.error.ParamTypeConflict? ==> r.error.existing != r.error.incoming
  {
    if i == |g.steps| then Ok(TaskSpec(params, steps))
    else
      var s := g.steps[i];
      match s.uses
      case None => ResolveFrom(g, refs, i + 1, params, steps + [s.step])
      case Some(u) =>
        if i !in refs then Err(MissingReference(i))
        else
          var used := refs[i];
          var b := Bindings(u.bindings);
          match MergeParams(params, used.params, b)
          case Err(e) => Err(e)
          case Ok(ps) =>
            var r := ResolveFrom(g, refs, i + 1, ps, steps + ExpandSteps(s.step, used.steps, b));
            assert r.Ok? ==> r.value.params[..|params|] == r.value.params[..|ps|][..|params|];
            var grown := steps + ExpandSteps(s.step, used.steps, b);
            assert r.Ok? ==> r.value.steps[..|steps|] == r.value.steps[..|grown|][..|steps|];
            r
  }

  /**
   * The resolver: the group's parameters, then the parameters the referenced
   * tasks add; the group's steps, each `Uses` step replaced by the steps of
   * the task it refers to.
   */
  function Resolve(g: TaskGroupSpec, refs: map<int, TaskSpec>): Result<TaskSpec, Error>
  {
    ResolveFrom(g, refs, 0, g.params, [])
  }

  /**
   * The resolver as the source runs it: one pass over the group steps that
   * accumulates the output parameters and steps, stopping at the first error.
   */
  method ResolveTaskSpec(g: TaskGroupSpec, refs: map<int, TaskSpec>) returns (r: Result<TaskSpec, Error>)
    ensures r == Resolve(g, refs)
  {
    var params := g.params;
    var steps: seq<Step> := [];
    var i := 0;
    while i < |g.steps|
      invariant 0 <= i <= |g.steps|
      invariant ResolveFrom(g, refs, i, params, steps) == Resolve(g, refs)
    {
      var s := g.steps[i];
      if s.uses.None? {
        steps := steps + [s.step];
      } else {
        if i !in refs {
          return Err(MissingReference(i));
        }
        var used := refs[i];
        var b := BindingTable(s.uses.value.bindings);
        var merged := AddParams(params, used.params, b);
        if merged.Err? {
          return Err(merged.error);
        }
        var expanded := ExpandUsedSteps(s.step, used.steps, b);
        params := merged.value;
        steps := steps + expanded;
      }
      i := i + 1;
    }
    r := Ok(TaskSpec(params, steps));
  }

  /** Builds the binding table of a `Uses` step, one binding after the other. */
  method BindingTable(bindings: seq<ParamBinding>) returns (b: map<string, string>)
    ensures b == Bindings(bindings)
  {
    b := map[];
    var k := 0;
    while k < |bindings|
      invariant 0 <= k <= |bindings|
      invariant b == Bindings(bindings[..k])
    {
      assert bindings[..k + 1][..k] == bindings[..k];
      b := b[bindings[k].name := bindings[k].param];
      k := k + 1;
    }
    assert bindings[..k] == bindings;
  }

  /** Adds the referenced parameters to the collected ones, one after the other. */
  method AddParams(params: seq<ParamSpec>, incoming: seq<ParamSpec>, b: map<string, string>)
    returns (r: Result<seq<ParamSpec>, Error>)
    ensures r == MergeParams(params, incoming, b)
  {
    var merged := params;
    var k := 0;
    while k < |incoming|
      invariant 0 <= k <= |incoming|
      invariant MergeParams(merged, incoming[k..], b) == MergeParams(params, incoming, b)
    {
      var p := incoming[k];
      assert incoming[k..][1..] == incoming[k + 1..];
      if p.name !in b {
        var found := Find(merged, p.name);
        if found.Some? {
          if merged[found.value].paramType != p.paramType {
            return Err(ParamTypeConflict(p.name, merged[found.value].paramType, p.paramType));
          }
        } else {
          merged := merged + [p];
        }
      }
      k := k + 1;
    }
    r := Ok(merged);
  }

  /** Renames and rewrites the referenced steps, one after the other. */
  method ExpandUsedSteps(outer: Step, inner: seq<Step>, b: map<string, string>) returns (expanded: seq<Step>)
    ensures expanded == ExpandSteps(outer, inner, b)
  {
    expanded := [];
    var k := 0;
    while k < |inner|
      invariant 0 <= k <= |inner|
      invariant expanded == ExpandSteps(outer, inner[..k], b)
    {
      ExpandStepsSnoc(outer, inner[..k], inner[k], b);
      assert inner[..k + 1] == inner[..k] + [inner[k]];
      expanded := expanded + [Expanded(outer, inner[k], b)];
      k := k + 1;
    }
    assert inner[..k] == inner;
  }

  /** Expanding one more referenced step appends exactly that step's expansion. */
  lemma ExpandStepsSnoc(outer: Step, inner: seq<Step>, s: Step, b: map<string, string>)
    ensures ExpandSteps(outer, inner + [s], b) == ExpandSteps(outer, inner, b) + [Expanded(outer, s, b)]
  {
    var r := ExpandSteps(outer, inner + [s], b);
    var l := ExpandSteps(outer, inner, b) + [Expanded(outer, s, b)];
    assert |r| == |l|;
    forall j | 0 <= j < |r| ensures r[j] == l[j] {
      assert (inner + [s])[j] == if j < |inner| then inner[j] else s;
    }
  }
}
