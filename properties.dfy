/**
 * What the resolver promises: when it succeeds, the shape of its steps and
 * parameters; when it fails, and why.
 */
module ResolveProperties {
  import opened Wrappers
  import opened Tekton
  import opened TaskGroup
  import opened Substitution
  import opened Resolver
  import opened Seqs

  /** No two parameters share a name. */
  predicate UniqueNames(ps: seq<ParamSpec>)
  {
    forall i, j :: 0 <= i < j < |ps| ==> ps[i].name != ps[j].name
  }

  /** Parameters that share a name share a type. */
  predicate Consistent(ps: seq<ParamSpec>)
  {
    forall i, j :: 0 <= i < |ps| && 0 <= j < |ps| && ps[i].name == ps[j].name ==>
      ps[i].paramType == ps[j].paramType
  }

  /** The first parameter of `ps` named like `p` exists and has the type of `p`. */
  predicate Covered(ps: seq<ParamSpec>, p: ParamSpec)
  {
    Find(ps, p.name).Some? && ps[Find(ps, p.name).value].paramType == p.paramType
  }

  /** Every `Uses` step from position `i` on has a resolved reference. */
  predicate AllReferencedFrom(g: TaskGroupSpec, refs: map<int, TaskSpec>, i: nat)
  {
    forall k :: i <= k < |g.steps| && g.steps[k].uses.Some? ==> k in refs
  }

  /** Every `Uses` step of the group has a resolved reference. */
  predicate AllReferenced(g: TaskGroupSpec, refs: map<int, TaskSpec>)
  {
    AllReferencedFrom(g, refs, 0)
  }

  /** The output steps that the group step `i` stands for. */
  function Expansion(g: TaskGroupSpec, refs: map<int, TaskSpec>, i: nat): seq<Step>
    requires i < |g.steps|
  {
    match g.steps[i].uses
    case None => [g.steps[i].step]
    case Some(u) =>
      if i in refs then ExpandSteps(g.steps[i].step, refs[i].steps, Bindings(u.bindings)) else []
  }

  /** The expansion of every group step, in group order. */
  function Expansions(g: TaskGroupSpec, refs: map<int, TaskSpec>): seq<seq<Step>>
  {
    seq(|g.steps|, i requires 0 <= i < |g.steps| => Expansion(g, refs, i))
  }

  /** The expansions of the first `n` group steps, in order. */
  function Flatten(g: TaskGroupSpec, refs: map<int, TaskSpec>, n: nat): seq<Step>
    requires n <= |g.steps|
  {
    Concat(Expansions(g, refs)[..n])
  }

  /** The parameters that the task used by group step `i` declares and does not bind. */
  function Contributed(g: TaskGroupSpec, refs: map<int, TaskSpec>, i: nat): seq<ParamSpec>
    requires i < |g.steps|
  {
    match g.steps[i].uses
    case None => []
    case Some(u) => if i in refs then Unbound(refs[i].params, Bindings(u.bindings)) else []
  }

  /** The parameters each group step contributes, in group order. */
  function Contributions(g: TaskGroupSpec, refs: map<int, TaskSpec>): seq<seq<ParamSpec>>
  {
    seq(|g.steps|, i requires 0 <= i < |g.steps| => Contributed(g, refs, i))
  }

  /**
   * Every parameter declaration in play after the first `n` group steps: the
   * group's own, then those contributed by each used task, in order.
   */
  function Declared(g: TaskGroupSpec, refs: map<int, TaskSpec>, n: nat): seq<ParamSpec>
    requires n <= |g.steps|
  {
    g.params + Concat(Contributions(g, refs)[..n])
  }

  /** The number of group steps that do not use another task. */
  function InlineCount(gs: seq<GroupStep>): nat
  {
    if gs == [] then 0
    else InlineCount(gs[..|gs| - 1]) + (if gs[|gs| - 1].uses.None? then 1 else 0)
  }

  /** The number of steps of the tasks that the first `n` group steps use. */
  function UsedStepCount(g: TaskGroupSpec, refs: map<int, TaskSpec>, n: nat): nat
    requires n <= |g.steps|
  {
    if n == 0 then 0
    else
      var used := if g.steps[n - 1].uses.Some? && n - 1 in refs then |refs[n - 1].steps| else 0;
      UsedStepCount(g, refs, n - 1) + used
  }

  /**
   * The parameters collected so far, `acc`, account for the declarations
   * `pool`: they have distinct names, each is one of the declarations, and
   * each declaration has a collected parameter of its name and type.
   */
  predicate Collected(acc: seq<ParamSpec>, pool: seq<ParamSpec>)
  {
    && UniqueNames(acc)
    && Consistent(pool)
    && (forall k :: 0 <= k < |acc| ==> acc[k] in pool)
    && (forall k :: 0 <= k < |pool| ==> Covered(acc, pool[k]))
  }

  // ----- parameters -----

  lemma UniqueIsCollected(ps: seq<ParamSpec>)
    requires UniqueNames(ps)
    ensures Collected(ps, ps)
  {
    forall k | 0 <= k < |ps| ensures Covered(ps, ps[k]) {
      FindUnique(ps, k);
    }
  }

  /** In parameters with distinct names, a parameter is found at its own index. */
  lemma FindUnique(ps: seq<ParamSpec>, k: nat)
    requires UniqueNames(ps) && k < |ps|
    ensures Find(ps, ps[k].name) == Some(k)
  {
  }

  /** A declaration that matches the collected parameter of its name is accounted for already. */
  lemma CollectedRepeat(acc: seq<ParamSpec>, pool: seq<ParamSpec>, p: ParamSpec)
    requires Collected(acc, pool) && Covered(acc, p)
    ensures Collected(acc, pool + [p])
  {
    var pool' := pool + [p];
    var i := Find(acc, p.name).value;
    assert Consistent(pool') by {
      forall i1, j1 | 0 <= i1 < |pool'| && 0 <= j1 < |pool'| && pool'[i1].name == pool'[j1].name
        ensures pool'[i1].paramType == pool'[j1].paramType
      {
        if i1 < |pool| { assert pool'[i1] == pool[i1] && Covered(acc, pool[i1]); }
        if j1 < |pool| { assert pool'[j1] == pool[j1] && Covered(acc, pool[j1]); }
      }
    }
    assert forall k :: 0 <= k < |pool'| ==> Covered(acc, pool'[k]) by {
      forall k | 0 <= k < |pool'| ensures Covered(acc, pool'[k]) {
        if k < |pool| { assert pool'[k] == pool[k]; }
      }
    }
    assert forall k :: 0 <= k < |acc| ==> acc[k] in pool' by {
      forall k | 0 <= k < |acc| ensures acc[k] in pool' {
        assert acc[k] in pool;
      }
    }
  }

  /** A declaration whose name is new is accounted for once it is appended. */
  lemma CollectedAppend(acc: seq<ParamSpec>, pool: seq<ParamSpec>, p: ParamSpec)
    requires Collected(acc, pool) && Find(acc, p.name).None?
    ensures Collected(acc + [p], pool + [p])
  {
    var acc', pool' := acc + [p], pool + [p];
    assert forall k :: 0 <= k < |pool| ==> pool[k].name != p.name by {
      forall k | 0 <= k < |pool| ensures pool[k].name != p.name {
        assert Covered(acc, pool[k]);
      }
    }
    assert Consistent(pool') by {
      forall i1, j1 | 0 <= i1 < |pool'| && 0 <= j1 < |pool'| && pool'[i1].name == pool'[j1].name
        ensures pool'[i1].paramType == pool'[j1].paramType
      {
        if i1 < |pool| { assert pool'[i1] == pool[i1]; }
        if j1 < |pool| { assert pool'[j1] == pool[j1]; }
      }
    }
    assert UniqueNames(acc') by {
      forall i1, j1 | 0 <= i1 < j1 < |acc'| ensures acc'[i1].name != acc'[j1].name {
        assert acc'[i1] == acc[i1];
        if j1 < |acc| { assert acc'[j1] == acc[j1]; }
      }
    }
    assert forall k :: 0 <= k < |pool'| ==> Covered(acc', pool'[k]) by {
      forall k | 0 <= k < |pool'| ensures Covered(acc', pool'[k]) {
        if k < |pool| {
          assert Covered(acc, pool[k]);
          var m := Find(acc, pool[k].name).value;
          assert acc'[m] == acc[m] && pool'[k] == pool[k];
          FindUnique(acc', m);
        } else {
          assert acc'[|acc|] == p && pool'[k] == p;
          FindUnique(acc', |acc|);
        }
      }
    }
    assert forall k :: 0 <= k < |acc'| ==> acc'[k] in pool' by {
      forall k | 0 <= k < |acc'| ensures acc'[k] in pool' {
        if k < |acc| { assert acc'[k] == acc[k] && acc[k] in pool; }
      }
    }
  }

  /**
   * Merging the parameters of a used task into collected parameters that
   * account for `pool` succeeds exactly when the declarations stay
   * consistent once the task's unbound parameters join them, and the result
   * accounts for all of them.
   */
  lemma {:induction false} MergeParamsCollected(acc: seq<ParamSpec>, pool: seq<ParamSpec>,
                                                incoming: seq<ParamSpec>, b: map<string, string>)
    requires Collected(acc, pool)
    ensures MergeParams(acc, incoming, b).Ok? <==> Consistent(pool + Unbound(incoming, b))
    ensures MergeParams(acc, incoming, b).Ok? ==>
      Collected(MergeParams(acc, incoming, b).value, pool + Unbound(incoming, b))
    decreases |incoming|
  {
    if incoming == [] {
      assert pool + [] == pool;
    } else {
      var p := incoming[0];
      var rest := incoming[1..];
      if p.name in b {
        MergeParamsCollected(acc, pool, rest, b);
      } else {
        var pool' := pool + [p];
        assert Unbound(incoming, b) == [p] + Unbound(rest, b);
        Regroup(pool, p, Unbound(rest, b));
        match Find(acc, p.name)
        case Some(i) =>
          if acc[i].paramType != p.paramType {
            Clash(acc, pool, p, Unbound(rest, b));
          } else {
            CollectedRepeat(acc, pool, p);
            MergeParamsCollected(acc, pool', rest, b);
          }
        case None =>
          CollectedAppend(acc, pool, p);
          MergeParamsCollected(acc + [p], pool', rest, b);
      }
    }
  }

  lemma Regroup<T>(a: seq<T>, x: T, c: seq<T>)
    ensures a + ([x] + c) == (a + [x]) + c
  {
  }

  /** A declaration whose type differs from the collected parameter of its name makes the declarations inconsistent. */
  lemma Clash(acc: seq<ParamSpec>, pool: seq<ParamSpec>, p: ParamSpec, later: seq<ParamSpec>)
    requires Collected(acc, pool) && Find(acc, p.name).Some?
    requires acc[Find(acc, p.name).value].paramType != p.paramType
    ensures !Consistent(pool + ([p] + later))
  {
    var q := acc[Find(acc, p.name).value];
    assert q in pool;
    var x :| 0 <= x < |pool| && pool[x] == q;
    var all := pool + ([p] + later);
    assert all[x] == q && all[|pool|] == p;
  }

  /** Merging parameters whose names are all new appends the unbound ones in order. */
  lemma {:induction false} MergeParamsDisjoint(acc: seq<ParamSpec>, incoming: seq<ParamSpec>, b: map<string, string>)
    requires UniqueNames(acc + Unbound(incoming, b))
    ensures MergeParams(acc, incoming, b) == Ok(acc + Unbound(incoming, b))
    decreases |incoming|
  {
    if incoming == [] {
      assert acc + [] == acc;
    } else {
      var p := incoming[0];
      var rest := incoming[1..];
      if p.name in b {
        MergeParamsDisjoint(acc, rest, b);
      } else {
        var all := acc + Unbound(incoming, b);
        assert all == (acc + [p]) + Unbound(rest, b);
        assert Find(acc, p.name).None? by {
          forall k | 0 <= k < |acc| ensures acc[k].name != p.name {
            assert all[k] == acc[k] && all[|acc|] == p;
          }
        }
        MergeParamsDisjoint(acc + [p], rest, b);
      }
    }
  }

  /**
   * A failed merge names a parameter of the clashing name and the existing
   * type: one collected before, or an earlier unbound parameter of the used task.
   */
  lemma {:induction false} MergeParamsConflict(acc: seq<ParamSpec>, incoming: seq<ParamSpec>, b: map<string, string>)
    ensures var r := MergeParams(acc, incoming, b);
      r.Err? ==> exists q :: (q in acc || (q in incoming && q.name !in b)) && q.name == r.error.name && q.paramType == r.error.existing
    decreases |incoming|
  {
    if incoming != [] {
      var p := incoming[0];
      var rest := incoming[1..];
      var r := MergeParams(acc, incoming, b);
      if p.name in b {
        MergeParamsConflict(acc, rest, b);
        if r.Err? {
          var q :| (q in acc || (q in rest && q.name !in b)) && q.name == r.error.name && q.paramType == r.error.existing;
          assert q in acc || (q in incoming && q.name !in b);
        }
      } else {
        match Find(acc, p.name)
        case Some(i) =>
          if acc[i].paramType != p.paramType {
            assert acc[i] in acc;
          } else {
            MergeParamsConflict(acc, rest, b);
            if r.Err? {
              var q :| (q in acc || (q in rest && q.name !in b)) && q.name == r.error.name && q.paramType == r.error.existing;
              assert q in acc || (q in incoming && q.name !in b);
            }
          }
        case None =>
          MergeParamsConflict(acc + [p], rest, b);
          if r.Err? {
            var q :| (q in acc + [p] || (q in rest && q.name !in b)) && q.name == r.error.name && q.paramType == r.error.existing;
            assert q in acc || (q in incoming && q.name !in b);
          }
      }
    }
  }

  // ----- the first declaration of each name -----

  /** The declarations of `ps` whose name no earlier declaration has, in order. */
  function FirstOfEachName(ps: seq<ParamSpec>): seq<ParamSpec>
  {
    if ps == [] then []
    else
      var init := ps[..|ps| - 1];
      var last := ps[|ps| - 1];
      if Find(init, last.name).Some? then FirstOfEachName(init) else FirstOfEachName(init) + [last]
  }

  lemma FirstOfSnoc(ps: seq<ParamSpec>, p: ParamSpec)
    ensures FirstOfEachName(ps + [p])
      == if Find(ps, p.name).Some? then FirstOfEachName(ps) else FirstOfEachName(ps) + [p]
  {
    assert (ps + [p])[..|ps|] == ps;
  }

  /** A name is found after one more declaration iff it was found before or is that declaration's. */
  lemma FindSnoc(ps: seq<ParamSpec>, p: ParamSpec, n: string)
    ensures Find(ps + [p], n).Some? <==> Find(ps, n).Some? || p.name == n
  {
    var s := ps + [p];
    if Find(s, n).Some? {
      var k := Find(s, n).value;
      if k < |ps| { assert s[k] == ps[k]; }
    }
    if Find(ps, n).Some? {
      var k := Find(ps, n).value;
      assert s[k] == ps[k];
    }
    if p.name == n { assert s[|ps|] == p; }
  }

  /** Keeping the first declaration of each name keeps every name. */
  lemma {:induction false} FirstNames(ps: seq<ParamSpec>, n: string)
    ensures Find(FirstOfEachName(ps), n).Some? <==> Find(ps, n).Some?
  {
    if ps != [] {
      var init := ps[..|ps| - 1];
      var last := ps[|ps| - 1];
      assert ps == init + [last];
      FirstNames(init, n);
      FindSnoc(init, last, n);
      FirstOfSnoc(init, last);
      if Find(init, last.name).None? {
        FindSnoc(FirstOfEachName(init), last, n);
      } else if last.name == n {
        FirstNames(init, last.name);
      }
    }
  }

  /** Declarations whose names are distinct are each the first of their name. */
  lemma {:induction false} FirstOfUnique(ps: seq<ParamSpec>)
    requires UniqueNames(ps)
    ensures FirstOfEachName(ps) == ps
  {
    if ps != [] {
      var init := ps[..|ps| - 1];
      var last := ps[|ps| - 1];
      assert Find(init, last.name).None? by {
        forall k | 0 <= k < |init| ensures init[k].name != last.name {
          assert init[k] == ps[k];
        }
      }
      assert UniqueNames(init) by {
        forall x, y | 0 <= x < y < |init| ensures init[x].name != init[y].name {
          assert init[x] == ps[x] && init[y] == ps[y];
        }
      }
      FirstOfUnique(init);
      assert init + [last] == ps;
    }
  }

  /** A successful merge of an unbound parameter goes on with that parameter collected unless its name is. */
  lemma MergeUnboundStep(acc: seq<ParamSpec>, incoming: seq<ParamSpec>, b: map<string, string>)
    requires incoming != [] && incoming[0].name !in b && MergeParams(acc, incoming, b).Ok?
    ensures MergeParams(acc, incoming, b)
      == MergeParams(if Find(acc, incoming[0].name).Some? then acc else acc + [incoming[0]], incoming[1..], b)
  {
  }

  /** One more declaration joins the first declarations of each name exactly when its name is new. */
  lemma FirstStep(acc: seq<ParamSpec>, pool: seq<ParamSpec>, p: ParamSpec)
    requires acc == FirstOfEachName(pool)
    ensures FirstOfEachName(pool + [p]) == if Find(acc, p.name).Some? then acc else acc + [p]
  {
    FirstNames(pool, p.name);
    FirstOfSnoc(pool, p);
  }

  /**
   * Merging into the first declaration of each name of `pool` keeps the
   * first declaration of each name once the unbound parameters join.
   */
  lemma {:induction false} MergeParamsFirst(acc: seq<ParamSpec>, pool: seq<ParamSpec>,
                                            incoming: seq<ParamSpec>, b: map<string, string>)
    requires acc == FirstOfEachName(pool) && MergeParams(acc, incoming, b).Ok?
    ensures MergeParams(acc, incoming, b).value == FirstOfEachName(pool + Unbound(incoming, b))
    decreases |incoming|
  {
    if incoming == [] {
      assert pool + [] == pool;
    } else {
      var p := incoming[0];
      var rest := incoming[1..];
      if p.name in b {
        MergeParamsFirst(acc, pool, rest, b);
      } else {
        var acc' := if Find(acc, p.name).Some? then acc else acc + [p];
        MergeUnboundStep(acc, incoming, b);
        assert Unbound(incoming, b) == [p] + Unbound(rest, b);
        Regroup(pool, p, Unbound(rest, b));
        FirstStep(acc, pool, p);
        MergeParamsFirst(acc', pool + [p], rest, b);
      }
    }
  }

  // ----- the declarations and the expansion, step by step -----

  /** One more group step adds the parameters it contributes to the declarations. */
  lemma DeclaredStep(g: TaskGroupSpec, refs: map<int, TaskSpec>, i: nat)
    requires i < |g.steps|
    ensures Declared(g, refs, i + 1) == Declared(g, refs, i) + Contributed(g, refs, i)
  {
    ConcatSnoc(Contributions(g, refs), i);
    AppendAssoc(g.params, Concat(Contributions(g, refs)[..i]), Contributed(g, refs, i));
  }

  lemma AppendAssoc<T>(a: seq<T>, b: seq<T>, c: seq<T>)
    ensures a + (b + c) == (a + b) + c
  {
  }

  /** Before any group step, the declarations are the group's parameters and nothing is flattened. */
  lemma Start(g: TaskGroupSpec, refs: map<int, TaskSpec>)
    ensures Declared(g, refs, 0) == g.params
    ensures Flatten(g, refs, 0) == []
  {
    assert Contributions(g, refs)[..0] == [];
    assert g.params + [] == g.params;
    assert Expansions(g, refs)[..0] == [];
  }

  /** Later group steps keep each declaration at its index. */
  lemma DeclaredKeeps(g: TaskGroupSpec, refs: map<int, TaskSpec>, n: nat, m: nat, k: nat)
    requires n <= m <= |g.steps| && k < |Declared(g, refs, n)|
    ensures k < |Declared(g, refs, m)| && Declared(g, refs, m)[k] == Declared(g, refs, n)[k]
  {
    HeadConcatKeeps(g.params, Contributions(g, refs), n, m, k);
  }

  /** Declarations whose names are distinct after `m` steps are so after fewer. */
  lemma UniqueDeclared(g: TaskGroupSpec, refs: map<int, TaskSpec>, n: nat, m: nat)
    requires n <= m <= |g.steps| && UniqueNames(Declared(g, refs, m))
    ensures UniqueNames(Declared(g, refs, n))
  {
    var d := Declared(g, refs, n);
    forall x, y | 0 <= x < y < |d| ensures d[x].name != d[y].name {
      DeclaredKeeps(g, refs, n, m, x);
      DeclaredKeeps(g, refs, n, m, y);
    }
  }

  lemma {:induction false} FlattenLength(g: TaskGroupSpec, refs: map<int, TaskSpec>, n: nat)
    requires n <= |g.steps|
    ensures |Flatten(g, refs, n)| == InlineCount(g.steps[..n]) + UsedStepCount(g, refs, n)
  {
    if n == 0 {
      Start(g, refs);
    } else {
      FlattenLength(g, refs, n - 1);
      FlattenStep(g, refs, n - 1);
      CountStep(g, refs, n);
    }
  }

  /** One more group step adds the length of its expansion to the counts. */
  lemma CountStep(g: TaskGroupSpec, refs: map<int, TaskSpec>, n: nat)
    requires 0 < n <= |g.steps|
    ensures InlineCount(g.steps[..n]) + UsedStepCount(g, refs, n)
      == InlineCount(g.steps[..n - 1]) + UsedStepCount(g, refs, n - 1) + |Expansion(g, refs, n - 1)|
  {
    ExpansionLength(g, refs, n - 1);
    assert g.steps[..n][..n - 1] == g.steps[..n - 1];
  }

  /** An inline step stands for one step, a referenced `Uses` step for as many as its task has. */
  lemma ExpansionLength(g: TaskGroupSpec, refs: map<int, TaskSpec>, i: nat)
    requires i < |g.steps|
    ensures |Expansion(g, refs, i)|
      == (if g.steps[i].uses.None? then 1 else 0) + (if g.steps[i].uses.Some? && i in refs then |refs[i].steps| else 0)
  {
  }

  /**
   * From group step `i` on, resolution succeeds exactly when every later
   * `Uses` step is referenced and all declarations are consistent; it then
   * yields the flattened steps and parameters that account for all the
   * declarations.
   */
  lemma {:induction false} ResolveFromCollected(g: TaskGroupSpec, refs: map<int, TaskSpec>, i: nat,
                                                params: seq<ParamSpec>, steps: seq<Step>)
    requires i <= |g.steps|
    requires Collected(params, Declared(g, refs, i)) && steps == Flatten(g, refs, i)
    ensures ResolveFrom(g, refs, i, params, steps).Ok? <==>
      AllReferencedFrom(g, refs, i) && Consistent(Declared(g, refs, |g.steps|))
    ensures ResolveFrom(g, refs, i, params, steps).Ok? ==>
      && ResolveFrom(g, refs, i, params, steps).value.steps == Flatten(g, refs, |g.steps|)
      && Collected(ResolveFrom(g, refs, i, params, steps).value.params, Declared(g, refs, |g.steps|))
    decreases |g.steps| - i, 1
  {
    if i < |g.steps| {
      match g.steps[i].uses
      case None =>
        InlineStepFacts(g, refs, i);
        ResolveFromCollected(g, refs, i + 1, params, steps + [g.steps[i].step]);
      case Some(u) =>
        if i !in refs {
          MissingHere(g, refs, i, params, steps);
        } else {
          UsesStepCollected(g, refs, i, params, steps);
        }
    }
  }

  /** The inductive step of `ResolveFromCollected` at a referenced `Uses` step. */
  lemma {:induction false} UsesStepCollected(g: TaskGroupSpec, refs: map<int, TaskSpec>, i: nat,
                                             params: seq<ParamSpec>, steps: seq<Step>)
    requires i < |g.steps| && g.steps[i].uses.Some? && i in refs
    requires Collected(params, Declared(g, refs, i)) && steps == Flatten(g, refs, i)
    ensures ResolveFrom(g, refs, i, params, steps).Ok? <==>
      AllReferencedFrom(g, refs, i) && Consistent(Declared(g, refs, |g.steps|))
    ensures ResolveFrom(g, refs, i, params, steps).Ok? ==>
      && ResolveFrom(g, refs, i, params, steps).value.steps == Flatten(g, refs, |g.steps|)
      && Collected(ResolveFrom(g, refs, i, params, steps).value.params, Declared(g, refs, |g.steps|))
    decreases |g.steps| - i, 0
  {
    var s := g.steps[i];
    var b := Bindings(s.uses.value.bindings);
    UnfoldUses(g, refs, i, params, steps);
    UsesDeclared(g, refs, i);
    UsesFlatten(g, refs, i);
    AllReferencedStep(g, refs, i);
    var m := MergeParams(params, refs[i].params, b);
    if m.Err? {
      ConflictHere(g, refs, i, params);
    } else {
      MergeParamsCollected(params, Declared(g, refs, i), refs[i].params, b);
      ResolveFromCollected(g, refs, i + 1, m.value, steps + ExpandSteps(s.step, refs[i].steps, b));
    }
  }

  /** A `Uses` step whose parameters clash stops the resolution there. */
  lemma ConflictHere(g: TaskGroupSpec, refs: map<int, TaskSpec>, i: nat, params: seq<ParamSpec>)
    requires i < |g.steps| && g.steps[i].uses.Some? && i in refs
    requires Collected(params, Declared(g, refs, i))
    requires MergeParams(params, refs[i].params, Bindings(g.steps[i].uses.value.bindings)).Err?
    ensures !Consistent(Declared(g, refs, |g.steps|))
  {
    UsesDeclared(g, refs, i);
    MergeParamsCollected(params, Declared(g, refs, i), refs[i].params, Bindings(g.steps[i].uses.value.bindings));
    InconsistentPrefix(g, refs, i + 1);
  }

  /** A `Uses` step without a resolved reference stops the resolution there. */
  lemma MissingHere(g: TaskGroupSpec, refs: map<int, TaskSpec>, i: nat, params: seq<ParamSpec>, steps: seq<Step>)
    requires i < |g.steps| && g.steps[i].uses.Some? && i !in refs
    ensures ResolveFrom(g, refs, i, params, steps) == Err(MissingReference(i))
    ensures !AllReferencedFrom(g, refs, i)
  {
  }

  /** Resolution passes an inline step through to the output steps. */
  lemma UnfoldInline(g: TaskGroupSpec, refs: map<int, TaskSpec>, i: nat, params: seq<ParamSpec>, steps: seq<Step>)
    requires i < |g.steps| && g.steps[i].uses.None?
    ensures ResolveFrom(g, refs, i, params, steps) == ResolveFrom(g, refs, i + 1, params, steps + [g.steps[i].step])
  {
  }

  /** Resolution at a referenced `Uses` step merges the parameters and expands the steps. */
  lemma UnfoldUses(g: TaskGroupSpec, refs: map<int, TaskSpec>, i: nat, params: seq<ParamSpec>, steps: seq<Step>)
    requires i < |g.steps| && g.steps[i].uses.Some? && i in refs
    ensures var b := Bindings(g.steps[i].uses.value.bindings);
      var m := MergeParams(params, refs[i].params, b);
      ResolveFrom(g, refs, i, params, steps)
        == if m.Err? then Err(m.error)
           else ResolveFrom(g, refs, i + 1, m.value, steps + ExpandSteps(g.steps[i].step, refs[i].steps, b))
  {
  }

  /** An inline step declares nothing and stands for itself. */
  lemma InlineStepFacts(g: TaskGroupSpec, refs: map<int, TaskSpec>, i: nat)
    requires i < |g.steps| && g.steps[i].uses.None?
    ensures Declared(g, refs, i + 1) == Declared(g, refs, i)
    ensures Flatten(g, refs, i + 1) == Flatten(g, refs, i) + [g.steps[i].step]
    ensures AllReferencedFrom(g, refs, i) <==> AllReferencedFrom(g, refs, i + 1)
  {
    DeclaredStep(g, refs, i);
    FlattenStep(g, refs, i);
    assert Declared(g, refs, i) + [] == Declared(g, refs, i);
  }

  /** A referenced `Uses` step declares its unbound parameters. */
  lemma UsesDeclared(g: TaskGroupSpec, refs: map<int, TaskSpec>, i: nat)
    requires i < |g.steps| && g.steps[i].uses.Some? && i in refs
    ensures Declared(g, refs, i + 1)
      == Declared(g, refs, i) + Unbound(refs[i].params, Bindings(g.steps[i].uses.value.bindings))
  {
    DeclaredStep(g, refs, i);
  }

  /** A referenced `Uses` step stands for its expansion. */
  lemma UsesFlatten(g: TaskGroupSpec, refs: map<int, TaskSpec>, i: nat)
    requires i < |g.steps| && g.steps[i].uses.Some? && i in refs
    ensures Flatten(g, refs, i + 1)
      == Flatten(g, refs, i) + ExpandSteps(g.steps[i].step, refs[i].steps, Bindings(g.steps[i].uses.value.bindings))
  {
    FlattenStep(g, refs, i);
  }

  /** All `Uses` steps from `i` on are referenced when step `i` is and all after it are. */
  lemma AllReferencedStep(g: TaskGroupSpec, refs: map<int, TaskSpec>, i: nat)
    requires i < |g.steps|
    ensures AllReferencedFrom(g, refs, i)
      <==> (g.steps[i].uses.Some? ==> i in refs) && AllReferencedFrom(g, refs, i + 1)
  {
  }

  /** Declarations that clash after `n` steps still clash after all of them. */
  lemma InconsistentPrefix(g: TaskGroupSpec, refs: map<int, TaskSpec>, n: nat)
    requires n <= |g.steps| && !Consistent(Declared(g, refs, n))
    ensures !Consistent(Declared(g, refs, |g.steps|))
  {
    var d := Declared(g, refs, n);
    var x, y :| 0 <= x < |d| && 0 <= y < |d| && d[x].name == d[y].name && d[x].paramType != d[y].paramType;
    DeclaredKeeps(g, refs, n, |g.steps|, x);
    DeclaredKeeps(g, refs, n, |g.steps|, y);
  }

  /** From group step `i` on, success yields the flattened steps, whatever the parameters. */
  lemma {:induction false} ResolveFromSteps(g: TaskGroupSpec, refs: map<int, TaskSpec>, i: nat,
                                            params: seq<ParamSpec>)
    requires i <= |g.steps|
    ensures ResolveFrom(g, refs, i, params, Flatten(g, refs, i)).Ok? ==>
      ResolveFrom(g, refs, i, params, Flatten(g, refs, i)).value.steps == Flatten(g, refs, |g.steps|)
    decreases |g.steps| - i
  {
    if i < |g.steps| {
      if g.steps[i].uses.None? {
        UnfoldInline(g, refs, i, params, Flatten(g, refs, i));
        InlineStepFacts(g, refs, i);
        ResolveFromSteps(g, refs, i + 1, params);
      } else if i in refs {
        var b := Bindings(g.steps[i].uses.value.bindings);
        UnfoldUses(g, refs, i, params, Flatten(g, refs, i));
        UsesFlatten(g, refs, i);
        var m := MergeParams(params, refs[i].params, b);
        if m.Ok? {
          ResolveFromSteps(g, refs, i + 1, m.value);
        }
      } else {
        MissingHere(g, refs, i, params, Flatten(g, refs, i));
      }
    }
  }

  // ----- the resolver's promises -----

  /**
   * A group whose parameter names are distinct resolves exactly when every
   * `Uses` step has a resolved reference and no two declarations of one
   * name disagree on its type.
   */
  lemma ResolveSucceedsIff(g: TaskGroupSpec, refs: map<int, TaskSpec>)
    requires UniqueNames(g.params)
    ensures Resolve(g, refs).Ok? <==>
      AllReferenced(g, refs) && Consistent(Declared(g, refs, |g.steps|))
  {
    UniqueIsCollected(g.params);
    ResolveFromCollected(g, refs, 0, g.params, []);
  }

  /**
   * A successful resolution starts with the group's parameters, adds only
   * declarations of the used tasks, keeps every parameter name unique, and
   * has a parameter of the name and type of every declaration.
   */
  lemma ResolvedParams(g: TaskGroupSpec, refs: map<int, TaskSpec>)
    requires UniqueNames(g.params) && Resolve(g, refs).Ok?
    ensures var ps := Resolve(g, refs).value.params;
      && |g.params| <= |ps| && ps[..|g.params|] == g.params
      && UniqueNames(ps)
      && (forall k :: 0 <= k < |ps| ==> ps[k] in Declared(g, refs, |g.steps|))
      && (forall p :: p in Declared(g, refs, |g.steps|) ==> Covered(ps, p))
  {
    UniqueIsCollected(g.params);
    ResolveFromCollected(g, refs, 0, g.params, []);
  }

  /** A successful resolution yields the group's steps, each expanded in order. */
  lemma ResolvedSteps(g: TaskGroupSpec, refs: map<int, TaskSpec>)
    requires Resolve(g, refs).Ok?
    ensures Resolve(g, refs).value.steps == Flatten(g, refs, |g.steps|)
  {
    ResolveFromSteps(g, refs, 0, g.params);
  }

  /**
   * The output has one step per inline step of the group plus one per step
   * of each task the group uses.
   */
  lemma StepCount(g: TaskGroupSpec, refs: map<int, TaskSpec>)
    requires Resolve(g, refs).Ok?
    ensures |Resolve(g, refs).value.steps| == InlineCount(g.steps) + UsedStepCount(g, refs, |g.steps|)
  {
    ResolvedSteps(g, refs);
    FlattenLength(g, refs, |g.steps|);
    assert g.steps[..|g.steps|] == g.steps;
  }

  /**
   * An inline group step is copied to the output, after the expansions of
   * the group steps before it.
   */
  lemma InlineStepInPlace(g: TaskGroupSpec, refs: map<int, TaskSpec>, i: nat)
    requires Resolve(g, refs).Ok? && i < |g.steps| && g.steps[i].uses.None?
    ensures var out := Resolve(g, refs).value.steps;
      var at := InlineCount(g.steps[..i]) + UsedStepCount(g, refs, i);
      at < |out| && out[at] == g.steps[i].step
  {
    ResolvedSteps(g, refs);
    InlineInFlatten(g, refs, i, |g.steps|);
  }

  lemma InlineInFlatten(g: TaskGroupSpec, refs: map<int, TaskSpec>, i: nat, n: nat)
    requires i < n <= |g.steps| && g.steps[i].uses.None?
    ensures var at := InlineCount(g.steps[..i]) + UsedStepCount(g, refs, i);
      at < |Flatten(g, refs, n)| && Flatten(g, refs, n)[at] == g.steps[i].step
  {
    FlattenLength(g, refs, i);
    assert Expansion(g, refs, i) == [g.steps[i].step];
    FlattenSlice(g, refs, i, n, 0);
  }

  /**
   * The `j`-th step of the task used by group step `i` is placed after the
   * expansions of the group steps before it, named after the group step and
   * itself, with its image kept and its script rewritten along the step's
   * bindings.
   */
  lemma UsedStepInPlace(g: TaskGroupSpec, refs: map<int, TaskSpec>, i: nat, j: nat)
    requires Resolve(g, refs).Ok? && i < |g.steps| && g.steps[i].uses.Some?
    ensures i in refs
    ensures j < |refs[i].steps| ==>
      var out := Resolve(g, refs).value.steps;
      var at := InlineCount(g.steps[..i]) + UsedStepCount(g, refs, i);
      && at + j < |out|
      && out[at + j].name == g.steps[i].step.name + "-" + refs[i].steps[j].name
      && out[at + j].image == refs[i].steps[j].image
      && out[at + j].script == Rewrite(refs[i].steps[j].script, Bindings(g.steps[i].uses.value.bindings))
  {
    if i !in refs {
      MissingReferenceFails(g, refs, i);
    }
    if j < |refs[i].steps| {
      ResolvedSteps(g, refs);
      UsedInFlatten(g, refs, i, |g.steps|, j);
    }
  }

  lemma UsedInFlatten(g: TaskGroupSpec, refs: map<int, TaskSpec>, i: nat, n: nat, j: nat)
    requires i < n <= |g.steps| && g.steps[i].uses.Some? && i in refs && j < |refs[i].steps|
    ensures var at := InlineCount(g.steps[..i]) + UsedStepCount(g, refs, i);
      && at + j < |Flatten(g, refs, n)|
      && Flatten(g, refs, n)[at + j]
         == Expanded(g.steps[i].step, refs[i].steps[j], Bindings(g.steps[i].uses.value.bindings))
  {
    FlattenLength(g, refs, i);
    var e := ExpandSteps(g.steps[i].step, refs[i].steps, Bindings(g.steps[i].uses.value.bindings));
    assert Expansion(g, refs, i) == e;
    assert e[j] == Expanded(g.steps[i].step, refs[i].steps[j], Bindings(g.steps[i].uses.value.bindings));
    FlattenSlice(g, refs, i, n, j);
  }

  /** The `j`-th step of the expansion of group step `i` sits in the flattened steps right after those before it. */
  lemma FlattenSlice(g: TaskGroupSpec, refs: map<int, TaskSpec>, i: nat, n: nat, j: nat)
    requires i < n <= |g.steps| && j < |Expansion(g, refs, i)|
    ensures |Flatten(g, refs, i)| + j < |Flatten(g, refs, n)|
    ensures Flatten(g, refs, n)[|Flatten(g, refs, i)| + j] == Expansion(g, refs, i)[j]
  {
    ConcatSlice(Expansions(g, refs), i, n, j);
  }

  /** One more group step adds its expansion to the flattened steps. */
  lemma FlattenStep(g: TaskGroupSpec, refs: map<int, TaskSpec>, i: nat)
    requires i < |g.steps|
    ensures Flatten(g, refs, i + 1) == Flatten(g, refs, i) + Expansion(g, refs, i)
  {
    ConcatSnoc(Expansions(g, refs), i);
  }

  /** A group none of whose steps uses another task resolves to itself. */
  lemma NoUsesIdentity(g: TaskGroupSpec, refs: map<int, TaskSpec>)
    requires forall k :: 0 <= k < |g.steps| ==> g.steps[k].uses.None?
    ensures Resolve(g, refs).Ok?
    ensures Resolve(g, refs).value.params == g.params
    ensures |Resolve(g, refs).value.steps| == |g.steps|
    ensures forall k :: 0 <= k < |g.steps| ==> Resolve(g, refs).value.steps[k] == g.steps[k].step
  {
    NoUsesFrom(g, refs, 0, []);
  }

  lemma {:induction false} NoUsesFrom(g: TaskGroupSpec, refs: map<int, TaskSpec>, i: nat, steps: seq<Step>)
    requires i <= |g.steps| && |steps| == i
    requires forall k :: 0 <= k < |g.steps| ==> g.steps[k].uses.None?
    requires forall k :: 0 <= k < i ==> steps[k] == g.steps[k].step
    ensures var r := ResolveFrom(g, refs, i, g.params, steps);
      && r.Ok? && r.value.params == g.params && |r.value.steps| == |g.steps|
      && forall k :: 0 <= k < |g.steps| ==> r.value.steps[k] == g.steps[k].step
    decreases |g.steps| - i
  {
    if i < |g.steps| {
      NoUsesFrom(g, refs, i + 1, steps + [g.steps[i].step]);
    }
  }

  /**
   * When the group's parameters and the unbound parameters of the used
   * tasks all have distinct names, the output parameters are the group's
   * followed by the used tasks', in step order and declaration order, each
   * with its default and description.
   */
  lemma ParamUnion(g: TaskGroupSpec, refs: map<int, TaskSpec>)
    requires AllReferenced(g, refs) && UniqueNames(Declared(g, refs, |g.steps|))
    ensures Resolve(g, refs) == Ok(TaskSpec(Declared(g, refs, |g.steps|), Flatten(g, refs, |g.steps|)))
  {
    Start(g, refs);
    ParamUnionFrom(g, refs, 0);
  }

  lemma {:induction false} ParamUnionFrom(g: TaskGroupSpec, refs: map<int, TaskSpec>, i: nat)
    requires i <= |g.steps|
    requires AllReferencedFrom(g, refs, i) && UniqueNames(Declared(g, refs, |g.steps|))
    ensures ResolveFrom(g, refs, i, Declared(g, refs, i), Flatten(g, refs, i))
      == Ok(TaskSpec(Declared(g, refs, |g.steps|), Flatten(g, refs, |g.steps|)))
    decreases |g.steps| - i
  {
    if i < |g.steps| {
      AllReferencedStep(g, refs, i);
      if g.steps[i].uses.None? {
        UnfoldInline(g, refs, i, Declared(g, refs, i), Flatten(g, refs, i));
        InlineStepFacts(g, refs, i);
      } else {
        var b := Bindings(g.steps[i].uses.value.bindings);
        UnfoldUses(g, refs, i, Declared(g, refs, i), Flatten(g, refs, i));
        UsesDeclared(g, refs, i);
        UsesFlatten(g, refs, i);
        UniqueDeclared(g, refs, i + 1, |g.steps|);
        MergeParamsDisjoint(Declared(g, refs, i), refs[i].params, b);
      }
      ParamUnionFrom(g, refs, i + 1);
    }
  }

  /**
   * When every declaration of the used tasks repeats a group parameter's
   * name and type, or is bound, the output parameters are the group's.
   */
  lemma DedupKeepsGroupParams(g: TaskGroupSpec, refs: map<int, TaskSpec>)
    requires AllReferenced(g, refs) && UniqueNames(g.params)
    requires forall p :: p in Declared(g, refs, |g.steps|) ==> Covered(g.params, p)
    ensures Resolve(g, refs) == Ok(TaskSpec(g.params, Flatten(g, refs, |g.steps|)))
  {
    var all := Declared(g, refs, |g.steps|);
    assert Consistent(all) by {
      forall i, j | 0 <= i < |all| && 0 <= j < |all| && all[i].name == all[j].name
        ensures all[i].paramType == all[j].paramType
      {
        assert all[i] in all && all[j] in all;
      }
    }
    ResolveSucceedsIff(g, refs);
    ResolvedParams(g, refs);
    ResolvedSteps(g, refs);
    var ps := Resolve(g, refs).value.params;
    NoExtraParams(ps, g.params, all);
    assert ps == ps[..|g.params|];
  }

  /**
   * Parameters with distinct names that extend `gp` and come from
   * declarations `all` already covered by `gp` add nothing to `gp`.
   */
  lemma NoExtraParams(ps: seq<ParamSpec>, gp: seq<ParamSpec>, all: seq<ParamSpec>)
    requires |gp| <= |ps| && ps[..|gp|] == gp && UniqueNames(ps)
    requires forall k :: 0 <= k < |ps| ==> ps[k] in all
    requires forall p :: p in all ==> Covered(gp, p)
    ensures |ps| == |gp|
  {
    if |ps| > |gp| {
      ExtraRepeats(ps, gp, all, |gp|);
    }
  }

  /** A parameter past `gp` repeats the name of one in `gp`. */
  lemma ExtraRepeats(ps: seq<ParamSpec>, gp: seq<ParamSpec>, all: seq<ParamSpec>, k: nat)
    requires |gp| <= k < |ps| && ps[..|gp|] == gp
    requires forall k :: 0 <= k < |ps| ==> ps[k] in all
    requires forall p :: p in all ==> Covered(gp, p)
    ensures exists m :: 0 <= m < |gp| && ps[m].name == ps[k].name
  {
    assert ps[k] in all;
    var m := Find(gp, ps[k].name).value;
    assert ps[m] == ps[..|gp|][m];
  }

  /**
   * An unbound parameter of a used task that repeats the name of a group
   * parameter with another type makes the resolution fail.
   */
  lemma TypeConflictFails(g: TaskGroupSpec, refs: map<int, TaskSpec>, i: nat, p: ParamSpec, q: ParamSpec)
    requires UniqueNames(g.params)
    requires i < |g.steps| && g.steps[i].uses.Some? && i in refs
    requires p in refs[i].params && p.name !in Bindings(g.steps[i].uses.value.bindings)
    requires q in g.params && q.name == p.name && q.paramType != p.paramType
    ensures Resolve(g, refs).Err?
  {
    ResolveSucceedsIff(g, refs);
    GroupParamDeclared(g, refs, q);
    ContributedDeclared(g, refs, i, p);
    InconsistentMembers(Declared(g, refs, |g.steps|), p, q);
  }

  /** Two declarations of one name with different types are inconsistent. */
  lemma InconsistentMembers(ps: seq<ParamSpec>, p: ParamSpec, q: ParamSpec)
    requires p in ps && q in ps && p.name == q.name && p.paramType != q.paramType
    ensures !Consistent(ps)
  {
    var x :| 0 <= x < |ps| && ps[x] == p;
    var y :| 0 <= y < |ps| && ps[y] == q;
    assert ps[x].name == ps[y].name && ps[x].paramType != ps[y].paramType;
  }

  /** The group's own parameters are among the declarations. */
  lemma GroupParamDeclared(g: TaskGroupSpec, refs: map<int, TaskSpec>, q: ParamSpec)
    requires q in g.params
    ensures q in Declared(g, refs, |g.steps|)
  {
    var x :| 0 <= x < |g.params| && g.params[x] == q;
    DeclaredKeeps(g, refs, 0, |g.steps|, x);
  }

  /** The unbound parameters of a used task are among the declarations. */
  lemma ContributedDeclared(g: TaskGroupSpec, refs: map<int, TaskSpec>, i: nat, p: ParamSpec)
    requires i < |g.steps| && p in Contributed(g, refs, i)
    ensures p in Declared(g, refs, |g.steps|)
  {
    DeclaredStep(g, refs, i);
    DeclaredLater(g, refs, i + 1, p);
  }

  /** Some declaration of `ps` has the name `n` and the type `t`. */
  predicate Declares(ps: seq<ParamSpec>, n: string, t: ParamType)
  {
    exists q :: q in ps && q.name == n && q.paramType == t
  }

  /** A declaration in play after `n` group steps is still in play after all of them. */
  lemma DeclaredLater(g: TaskGroupSpec, refs: map<int, TaskSpec>, n: nat, x: ParamSpec)
    requires n <= |g.steps| && x in Declared(g, refs, n)
    ensures x in Declared(g, refs, |g.steps|)
  {
    var d := Declared(g, refs, n);
    var k :| 0 <= k < |d| && d[k] == x;
    DeclaredKeeps(g, refs, n, |g.steps|, k);
  }

  /**
   * A type conflict names two declarations of the group or of its used
   * tasks: one of the name and the existing type, one of the name and the
   * incoming type.
   */
  lemma ConflictDeclared(g: TaskGroupSpec, refs: map<int, TaskSpec>)
    ensures var r := Resolve(g, refs);
      r.Err? && r.error.ParamTypeConflict? ==>
        && Declares(Declared(g, refs, |g.steps|), r.error.name, r.error.existing)
        && Declares(Declared(g, refs, |g.steps|), r.error.name, r.error.incoming)
  {
    Start(g, refs);
    ResolveFromConflict(g, refs, 0, g.params, []);
  }

  lemma {:induction false} ResolveFromConflict(g: TaskGroupSpec, refs: map<int, TaskSpec>, i: nat,
                                               params: seq<ParamSpec>, steps: seq<Step>)
    requires i <= |g.steps|
    requires forall k :: 0 <= k < |params| ==> params[k] in Declared(g, refs, i)
    ensures var r := ResolveFrom(g, refs, i, params, steps);
      r.Err? && r.error.ParamTypeConflict? ==>
        && Declares(Declared(g, refs, |g.steps|), r.error.name, r.error.existing)
        && Declares(Declared(g, refs, |g.steps|), r.error.name, r.error.incoming)
    decreases |g.steps| - i
  {
    if i < |g.steps| {
      if g.steps[i].uses.None? {
        UnfoldInline(g, refs, i, params, steps);
        InlineStepFacts(g, refs, i);
        ResolveFromConflict(g, refs, i + 1, params, steps + [g.steps[i].step]);
      } else if i in refs {
        var b := Bindings(g.steps[i].uses.value.bindings);
        UnfoldUses(g, refs, i, params, steps);
        UsesDeclared(g, refs, i);
        var m := MergeParams(params, refs[i].params, b);
        if m.Err? {
          MergeConflictDeclared(g, refs, i, params);
        } else {
          MergedDeclared(g, refs, i, params);
          ResolveFromConflict(g, refs, i + 1, m.value, steps + ExpandSteps(g.steps[i].step, refs[i].steps, b));
        }
      } else {
        MissingHere(g, refs, i, params, steps);
      }
    }
  }

  /** A merge that succeeds at group step `i` collects only declarations in play after it. */
  lemma MergedDeclared(g: TaskGroupSpec, refs: map<int, TaskSpec>, i: nat, params: seq<ParamSpec>)
    requires i < |g.steps| && g.steps[i].uses.Some? && i in refs
    requires forall k :: 0 <= k < |params| ==> params[k] in Declared(g, refs, i)
    requires MergeParams(params, refs[i].params, Bindings(g.steps[i].uses.value.bindings)).Ok?
    ensures var ps := MergeParams(params, refs[i].params, Bindings(g.steps[i].uses.value.bindings)).value;
      forall k :: 0 <= k < |ps| ==> ps[k] in Declared(g, refs, i + 1)
  {
    var b := Bindings(g.steps[i].uses.value.bindings);
    var ps := MergeParams(params, refs[i].params, b).value;
    UsesDeclared(g, refs, i);
    forall k | 0 <= k < |ps| ensures ps[k] in Declared(g, refs, i + 1) {
      if k < |params| {
        assert ps[k] == ps[..|params|][k];
        assert params[k] in Declared(g, refs, i);
      } else {
        assert ps[k] in Unbound(refs[i].params, b);
      }
    }
  }

  /** A merge that fails at group step `i` names two declarations in play. */
  lemma MergeConflictDeclared(g: TaskGroupSpec, refs: map<int, TaskSpec>, i: nat, params: seq<ParamSpec>)
    requires i < |g.steps| && g.steps[i].uses.Some? && i in refs
    requires forall k :: 0 <= k < |params| ==> params[k] in Declared(g, refs, i)
    requires MergeParams(params, refs[i].params, Bindings(g.steps[i].uses.value.bindings)).Err?
    ensures var e := MergeParams(params, refs[i].params, Bindings(g.steps[i].uses.value.bindings)).error;
      && Declares(Declared(g, refs, |g.steps|), e.name, e.existing)
      && Declares(Declared(g, refs, |g.steps|), e.name, e.incoming)
  {
    var b := Bindings(g.steps[i].uses.value.bindings);
    var e := MergeParams(params, refs[i].params, b).error;
    UsesDeclared(g, refs, i);
    MergeParamsConflict(params, refs[i].params, b);
    var q :| (q in params || (q in refs[i].params && q.name !in b)) && q.name == e.name && q.paramType == e.existing;
    var p :| p in refs[i].params && p.name !in b && p.name == e.name && p.paramType == e.incoming;
    if q in params {
      var k :| 0 <= k < |params| && params[k] == q;
      assert q in Declared(g, refs, i);
    } else {
      assert q in Unbound(refs[i].params, b);
    }
    assert p in Unbound(refs[i].params, b);
    DeclaredLater(g, refs, i + 1, q);
    DeclaredLater(g, refs, i + 1, p);
  }

  /**
   * A group whose parameter names are distinct resolves, when it does, to
   * the first declaration of each name, in declaration order: the group's
   * parameters, then each used task's unbound parameters whose names are new.
   */
  lemma ResolvedParamsFirst(g: TaskGroupSpec, refs: map<int, TaskSpec>)
    requires UniqueNames(g.params) && Resolve(g, refs).Ok?
    ensures Resolve(g, refs).value.params == FirstOfEachName(Declared(g, refs, |g.steps|))
  {
    Start(g, refs);
    FirstOfUnique(g.params);
    ResolveFromFirst(g, refs, 0, g.params, []);
  }

  lemma {:induction false} ResolveFromFirst(g: TaskGroupSpec, refs: map<int, TaskSpec>, i: nat,
                                            params: seq<ParamSpec>, steps: seq<Step>)
    requires i <= |g.steps| && params == FirstOfEachName(Declared(g, refs, i))
    ensures ResolveFrom(g, refs, i, params, steps).Ok? ==>
      ResolveFrom(g, refs, i, params, steps).value.params == FirstOfEachName(Declared(g, refs, |g.steps|))
    decreases |g.steps| - i
  {
    if i < |g.steps| {
      if g.steps[i].uses.None? {
        UnfoldInline(g, refs, i, params, steps);
        InlineStepFacts(g, refs, i);
        ResolveFromFirst(g, refs, i + 1, params, steps + [g.steps[i].step]);
      } else if i in refs {
        var b := Bindings(g.steps[i].uses.value.bindings);
        UnfoldUses(g, refs, i, params, steps);
        UsesDeclared(g, refs, i);
        var m := MergeParams(params, refs[i].params, b);
        if m.Ok? {
          MergeParamsFirst(params, Declared(g, refs, i), refs[i].params, b);
          ResolveFromFirst(g, refs, i + 1, m.value, steps + ExpandSteps(g.steps[i].step, refs[i].steps, b));
        }
      } else {
        MissingHere(g, refs, i, params, steps);
      }
    }
  }

  /** A `Uses` step whose reference was not resolved makes the resolution fail. */
  lemma MissingReferenceFails(g: TaskGroupSpec, refs: map<int, TaskSpec>, i: nat)
    requires i < |g.steps| && g.steps[i].uses.Some? && i !in refs
    ensures Resolve(g, refs).Err?
  {
    MissingReferenceFrom(g, refs, i, 0, g.params, []);
  }

  lemma {:induction false} MissingReferenceFrom(g: TaskGroupSpec, refs: map<int, TaskSpec>, i: nat, j: nat,
                                                params: seq<ParamSpec>, steps: seq<Step>)
    requires j <= i < |g.steps| && g.steps[i].uses.Some? && i !in refs
    ensures ResolveFrom(g, refs, j, params, steps).Err?
    decreases i - j
  {
    if j < i {
      match g.steps[j].uses
      case None => MissingReferenceFrom(g, refs, i, j + 1, params, steps + [g.steps[j].step]);
      case Some(u) =>
        if j in refs {
          var b := Bindings(u.bindings);
          match MergeParams(params, refs[j].params, b)
          case Err(_) =>
          case Ok(ps) => MissingReferenceFrom(g, refs, i, j + 1, ps, steps + ExpandSteps(g.steps[j].step, refs[j].steps, b));
        }
    }
  }
}
