/**
 * Rewriting of parameter references `$(params.<name>)` in a step's script,
 * following the bindings of a `Uses` step.
 */
module Substitution {
  import opened Wrappers

  /** The text that opens a parameter reference. */
  const Open: string := "$(params."

  /** The reference to the parameter `name`, as it is written in a script. */
  function Ref(name: string): string
  {
    Open + name + ")"
  }

  /** The index of the first `)` of `s` at or after `from`, if there is one. */
  function CloseFrom(s: string, from: nat): (r: Option<nat>)
    requires from <= |s|
    decreases |s| - from
    ensures r.Some? ==> from <= r.value < |s| && s[r.value] == ')'
    ensures r.Some? ==> forall k :: from <= k < r.value ==> s[k] != ')'
    ensures r.None? ==> forall k :: from <= k < |s| ==> s[k] != ')'
  {
    if from == |s| then None
    else if s[from] == ')' then Some(from)
    else CloseFrom(s, from + 1)
  }

  /**
   * The name of the parameter whose reference `s` starts with, if it starts
   * with one: the name runs from after `$(params.` to the first `)`.
   */
  function RefAt(s: string): (r: Option<string>)
    ensures r.Some? ==> |Ref(r.value)| <= |s| && s[..|Ref(r.value)|] == Ref(r.value)
    ensures r.Some? ==> ')' !in r.value
  {
    if |s| < |Open| || s[..|Open|] != Open then None
    else match CloseFrom(s, |Open|)
      case None => None
      case Some(j) =>
        assert s[..j + 1] == s[..|Open|] + s[|Open|..j] + [')'];
        Some(s[|Open|..j])
  }

  /**
   * `s` with every reference to a parameter bound in `b` replaced by a
   * reference to the parameter it is bound to. References to unbound
   * parameters, and all other text, are kept as they are.
   */
  function Rewrite(s: string, b: map<string, string>): string
    decreases |s|
  {
    if s == [] then []
    else match RefAt(s)
      case Some(n) =>
        if n in b then Ref(b[n]) + Rewrite(s[|Ref(n)|..], b)
        else [s[0]] + Rewrite(s[1..], b)
      case None => [s[0]] + Rewrite(s[1..], b)
  }

  /** No position of `s` starts a reference to a parameter bound in `b`. */
  predicate FreeOfBound(s: string, b: map<string, string>)
  {
    forall i :: 0 <= i < |s| && RefAt(s[i..]).Some? ==> RefAt(s[i..]).value !in b
  }

  /** A reference is recognised as exactly the name it was written with. */
  lemma RefAtRef(n: string, rest: string)
    requires ')' !in n
    ensures RefAt(Ref(n) + rest) == Some(n)
  {
    var s := Ref(n) + rest;
    assert s[..|Open|] == Open;
    assert s[|Open| + |n|] == ')';
    forall k | |Open| <= k < |Open| + |n| ensures s[k] != ')' {
      assert s[k] == n[k - |Open|];
    }
    assert CloseFrom(s, |Open|) == Some(|Open| + |n|);
    assert s[|Open|..|Open| + |n|] == n;
  }

  /** A script that mentions no bound parameter comes out unchanged. */
  lemma {:induction false} RewriteFree(s: string, b: map<string, string>)
    requires FreeOfBound(s, b)
    ensures Rewrite(s, b) == s
    decreases |s|
  {
    if s != [] {
      assert s[0..] == s;
      assert FreeOfBound(s[1..], b) by {
        forall i | 0 <= i < |s[1..]| && RefAt(s[1..][i..]).Some?
          ensures RefAt(s[1..][i..]).value !in b
        {
          assert s[1..][i..] == s[i + 1..];
        }
      }
      RewriteFree(s[1..], b);
      assert [s[0]] + s[1..] == s;
    }
  }

  /** With no bindings every script comes out unchanged. */
  lemma RewriteNoBindings(s: string)
    ensures Rewrite(s, map[]) == s
  {
    RewriteFree(s, map[]);
  }

  /** A reference to a bound parameter becomes a reference to its target. */
  lemma RewriteBoundRef(n: string, rest: string, b: map<string, string>)
    requires ')' !in n && n in b
    ensures Rewrite(Ref(n) + rest, b) == Ref(b[n]) + Rewrite(rest, b)
  {
    RefAtRef(n, rest);
    assert (Ref(n) + rest)[|Ref(n)|..] == rest;
  }

  /** A reference to an unbound parameter is kept as it is, and the rest of the script is rewritten after it. */
  lemma RewriteUnboundRef(n: string, rest: string, b: map<string, string>)
    requires ')' !in n && '$' !in n && n !in b
    ensures Rewrite(Ref(n) + rest, b) == Ref(n) + Rewrite(rest, b)
  {
    var s := Ref(n) + rest;
    RefAtRef(n, rest);
    RewriteKeep(s, b);
    RefTail(n);
    var t := Ref(n)[1..];
    assert s[0] == Ref(n)[0] && s[1..] == t + rest;
    RewritePlain(t, rest, b);
    assert Ref(n) + Rewrite(rest, b) == [Ref(n)[0]] + (t + Rewrite(rest, b));
  }

  /** A position that starts no reference to a bound parameter is copied, and the rewriting goes on after it. */
  lemma RewriteKeep(s: string, b: map<string, string>)
    requires s != [] && (RefAt(s).None? || RefAt(s).value !in b)
    ensures Rewrite(s, b) == [s[0]] + Rewrite(s[1..], b)
  {
  }

  /** A reference starts with its only `$` when the name holds none. */
  lemma RefTail(n: string)
    requires '$' !in n
    ensures Ref(n) == [Ref(n)[0]] + Ref(n)[1..] && Ref(n)[0] == '$' && '$' !in Ref(n)[1..]
  {
    assert Ref(n)[1..] == "(params." + n + ")";
  }

  /**
   * Text in which no position starts a reference to a bound parameter is
   * copied through, whatever follows it; a reference may run on into `rest`.
   */
  lemma RewriteFreePrefix(t: string, rest: string, b: map<string, string>)
    requires forall i :: 0 <= i < |t| && RefAt((t + rest)[i..]).Some? ==> RefAt((t + rest)[i..]).value !in b
    ensures Rewrite(t + rest, b) == t + Rewrite(rest, b)
  {
    var s := t + rest;
    RewriteFreeUpTo(s, |t|, b);
    assert s[..|t|] == t && s[|t|..] == rest;
  }

  /** The first `k` characters of `s` are copied when none of them starts a reference to a bound parameter. */
  lemma {:induction false} RewriteFreeUpTo(s: string, k: nat, b: map<string, string>)
    requires k <= |s|
    requires forall i :: 0 <= i < k && RefAt(s[i..]).Some? ==> RefAt(s[i..]).value !in b
    ensures Rewrite(s, b) == s[..k] + Rewrite(s[k..], b)
    decreases k
  {
    if k == 0 {
      assert s[..0] == [] && s[0..] == s;
    } else {
      RewriteFreeUpTo(s, k - 1, b);
      RewriteKeep(s[k - 1..], b);
      assert s[k - 1..][0] == s[k - 1] && s[k - 1..][1..] == s[k..];
      assert s[..k - 1] + [s[k - 1]] == s[..k];
    }
  }

  /** Text without a `$` is copied through, whatever follows it. */
  lemma {:induction false} RewritePlain(t: string, rest: string, b: map<string, string>)
    requires '$' !in t
    ensures Rewrite(t + rest, b) == t + Rewrite(rest, b)
    decreases |t|
  {
    if t != [] {
      var s := t + rest;
      assert s[0] == t[0] && s[0] != Open[0];
      assert RefAt(s).None?;
      RewriteKeep(s, b);
      assert s[1..] == t[1..] + rest;
      RewritePlain(t[1..], rest, b);
      assert [t[0]] + t[1..] == t;
    } else {
      assert t + rest == rest;
    }
  }
}
