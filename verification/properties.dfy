/** What a render means. A successful render leaves the environment exactly as
    it found it; that is what makes every child and every iteration see the
    entry environment (plus the loop's own binding), so that Root, For and
    ForEach are plain in-order chains of independent parts. */
module RenderProperties {
  import opened Wrappers
  import opened Values
  import opened Sections
  import opened Sequencing

  /** Each child rendered against the same environment. */
  function ChildOutputs(subst: Substitution, children: seq<Section>, env: Env): seq<RenderResult<string>> {
    seq(|children|, j requires 0 <= j < |children| => Output(Render(subst, children[j], env)))
  }

  /** The children rendered once per i in [lo, hi), with `v` bound to `IntV(i)`. */
  function RangeOutputs(subst: Substitution, v: string, lo: Int32, hi: Int32, children: seq<Section>, env: Env)
    : seq<RenderResult<string>>
  {
    seq(if lo < hi then hi - lo else 0,
        k requires 0 <= k < hi - lo => Output(RenderChildren(subst, children, env[v := IntV(lo + k)])))
  }

  /** The children rendered once per list element, with `v` bound to it. */
  function EachOutputs(subst: Substitution, v: string, items: seq<string>, children: seq<Section>, env: Env)
    : seq<RenderResult<string>>
  {
    seq(|items|, k requires 0 <= k < |items| => Output(RenderChildren(subst, children, env[v := StrV(items[k])])))
  }

  // ---------------------------------------------------------------------------
  // Frame: a successful render restores the environment.

  lemma {:induction false} RenderRestoresEnv(subst: Substitution, s: Section, env: Env)
    ensures Render(subst, s, env).Ok? ==> Render(subst, s, env).value.env == env
    decreases Size(s), 0, 0
  {
    match s
    case Root(children) =>
      ChildrenRestoreEnv(subst, children, env);
    case Code(_) =>
    case For(v, lo, hi, children) =>
      if v !in env {
        RangeRestoresEnv(subst, v, lo, hi, children, env);
      }
    case ForEach(v, listName, children) =>
      if v !in env && listName in env && env[listName].StrListV? {
        EachRestoresEnv(subst, v, env[listName].items, children, env);
      }
  }

  lemma {:induction false} ChildrenRestoreEnv(subst: Substitution, children: seq<Section>, env: Env)
    ensures RenderChildren(subst, children, env).Ok? ==> RenderChildren(subst, children, env).value.env == env
    decreases SizeSeq(children), 1, 0
  {
    if children != [] {
      RenderRestoresEnv(subst, children[0], env);
      var first := Render(subst, children[0], env);
      if first.Ok? {
        ChildrenRestoreEnv(subst, children[1..], env);
      }
    }
  }

  lemma {:induction false} RangeRestoresEnv(subst: Substitution, v: string, i: Int32, hi: Int32, children: seq<Section>, env: Env)
    requires v !in env
    ensures RenderRange(subst, v, i, hi, children, env).Ok? ==> RenderRange(subst, v, i, hi, children, env).value.env == env
    decreases SizeSeq(children), 2, hi - i
  {
    if i < hi {
      var inner := env[v := IntV(i)];
      ChildrenRestoreEnv(subst, children, inner);
      if RenderChildren(subst, children, inner).Ok? {
        assert inner - {v} == env;
        RangeRestoresEnv(subst, v, i + 1, hi, children, env);
      }
    }
  }

  lemma {:induction false} EachRestoresEnv(subst: Substitution, v: string, items: seq<string>, children: seq<Section>, env: Env)
    requires v !in env
    ensures RenderEach(subst, v, items, children, env).Ok? ==> RenderEach(subst, v, items, children, env).value.env == env
    decreases SizeSeq(children), 2, |items|
  {
    if items != [] {
      var inner := env[v := StrV(items[0])];
      ChildrenRestoreEnv(subst, children, inner);
      if RenderChildren(subst, children, inner).Ok? {
        assert inner - {v} == env;
        EachRestoresEnv(subst, v, items[1..], children, env);
      }
    }
  }

  // ---------------------------------------------------------------------------
  // Sequencing: children and iterations are independent parts of one chain.

  lemma {:induction false} ChildrenAreChained(subst: Substitution, children: seq<Section>, env: Env)
    ensures Output(RenderChildren(subst, children, env)) == Chain(ChildOutputs(subst, children, env))
    decreases |children|
  {
    if children != [] {
      RenderRestoresEnv(subst, children[0], env);
      ChildrenAreChained(subst, children[1..], env);
      assert ChildOutputs(subst, children, env)[1..] == ChildOutputs(subst, children[1..], env);
    }
  }

  lemma {:induction false} RangeIsChained(subst: Substitution, v: string, i: Int32, hi: Int32, children: seq<Section>, env: Env)
    requires v !in env
    ensures Output(RenderRange(subst, v, i, hi, children, env)) == Chain(RangeOutputs(subst, v, i, hi, children, env))
    decreases hi - i
  {
    if i < hi {
      var inner := env[v := IntV(i)];
      var body := RenderChildren(subst, children, inner);
      var parts := RangeOutputs(subst, v, i, hi, children, env);
      assert parts[0] == Output(body);
      assert parts[1..] == RangeOutputs(subst, v, i + 1, hi, children, env);
      RangeIsChained(subst, v, i + 1, hi, children, env);
      if body.Ok? {
        ChildrenRestoreEnv(subst, children, inner);
        assert body.value.env - {v} == env;
        var rest := RenderRange(subst, v, i + 1, hi, children, env);
        assert Output(RenderRange(subst, v, i, hi, children, env))
            == (if rest.Ok? then Ok(body.value.text + rest.value.text) else Err(rest.error));
      }
    }
  }

  lemma {:induction false} EachIsChained(subst: Substitution, v: string, items: seq<string>, children: seq<Section>, env: Env)
    requires v !in env
    ensures Output(RenderEach(subst, v, items, children, env)) == Chain(EachOutputs(subst, v, items, children, env))
    decreases |items|
  {
    if items != [] {
      var inner := env[v := StrV(items[0])];
      var body := RenderChildren(subst, children, inner);
      var parts := EachOutputs(subst, v, items, children, env);
      assert parts[0] == Output(body);
      assert parts[1..] == EachOutputs(subst, v, items[1..], children, env);
      EachIsChained(subst, v, items[1..], children, env);
      if body.Ok? {
        ChildrenRestoreEnv(subst, children, inner);
        assert body.value.env - {v} == env;
        var rest := RenderEach(subst, v, items[1..], children, env);
        assert Output(RenderEach(subst, v, items, children, env))
            == (if rest.Ok? then Ok(body.value.text + rest.value.text) else Err(rest.error));
      }
    }
  }

  // ---------------------------------------------------------------------------
  // The behaviour of each kind of section.

  /** Root renders its children in order against the environment it was
      given; the first failing child aborts the render. */
  lemma RootRender(subst: Substitution, children: seq<Section>, env: Env)
    ensures Output(Render(subst, Root(children), env)) == Chain(ChildOutputs(subst, children, env))
    ensures Render(subst, Root(children), env).Ok? <==>
      forall j :: 0 <= j < |children| ==> Render(subst, children[j], env).Ok?
  {
    ChildrenAreChained(subst, children, env);
    var parts := ChildOutputs(subst, children, env);
    ChainSucceeds(parts);
    assert forall j :: 0 <= j < |children| ==> (parts[j].Ok? <==> Render(subst, children[j], env).Ok?);
  }

  /** A template with no control blocks renders to the substitutions of its
      literal parts, in order, all in the environment it was given; the first
      failing substitution aborts the render. */
  lemma CodeOnlyRender(subst: Substitution, children: seq<Section>, env: Env)
    requires forall j :: 0 <= j < |children| ==> children[j].Code?
    ensures Output(Render(subst, Root(children), env))
      == Chain(seq(|children|, j requires 0 <= j < |children| => subst(children[j].text, env)))
  {
    RootRender(subst, children, env);
    assert ChildOutputs(subst, children, env)
        == seq(|children|, j requires 0 <= j < |children| => subst(children[j].text, env));
  }

  /** A numeric loop refuses a variable that is already bound, even over an
      empty range; otherwise it is the chain of its iterations lo .. hi - 1,
      each rendering the children with the variable bound to that integer. */
  lemma ForRender(subst: Substitution, v: string, lo: Int32, hi: Int32, children: seq<Section>, env: Env)
    ensures v in env ==> Render(subst, For(v, lo, hi, children), env) == Err(AlreadyExists(v))
    ensures v !in env ==>
      Output(Render(subst, For(v, lo, hi, children), env)) == Chain(RangeOutputs(subst, v, lo, hi, children, env))
    ensures v !in env && hi <= lo ==> Render(subst, For(v, lo, hi, children), env) == Ok(Rendered("", env))
    ensures Render(subst, For(v, lo, hi, children), env).Ok? ==>
      v !in env && Render(subst, For(v, lo, hi, children), env).value.env == env
  {
    if v !in env {
      RangeIsChained(subst, v, lo, hi, children, env);
      RangeRestoresEnv(subst, v, lo, hi, children, env);
    }
  }

  /** A list loop refuses a variable that is already bound, then needs a string
      list under `listName`; it is the chain of one iteration per element,
      each rendering the children with the variable bound to that string. */
  lemma ForEachRender(subst: Substitution, v: string, listName: string, children: seq<Section>, env: Env)
    ensures v in env ==> Render(subst, ForEach(v, listName, children), env) == Err(AlreadyExists(v))
    ensures v !in env && (listName !in env || !env[listName].StrListV?) ==>
      Render(subst, ForEach(v, listName, children), env) == Err(NotAStringList(listName))
    ensures v !in env && listName in env && env[listName].StrListV? ==>
      Output(Render(subst, ForEach(v, listName, children), env))
        == Chain(EachOutputs(subst, v, env[listName].items, children, env))
    ensures v !in env && listName in env && env[listName] == StrListV([]) ==>
      Render(subst, ForEach(v, listName, children), env) == Ok(Rendered("", env))
    ensures Render(subst, ForEach(v, listName, children), env).Ok? ==>
      v !in env && Render(subst, ForEach(v, listName, children), env).value.env == env
  {
    if v !in env && listName in env && env[listName].StrListV? {
      EachIsChained(subst, v, env[listName].items, children, env);
      EachRestoresEnv(subst, v, env[listName].items, children, env);
    }
  }

  // ---------------------------------------------------------------------------
  // No shadowing.

  predicate BindsVar(s: Section, v: string) {
    (s.For? || s.ForEach?) && s.varName == v
  }

  /** A loop whose first child is a loop over the same variable always fails
      on its first iteration: the inner loop finds the variable bound. */
  lemma NestedReuseFails(subst: Substitution, outer: Section, env: Env)
    requires outer.For? || outer.ForEach?
    requires outer.varName !in env
    requires |outer.children| > 0 && BindsVar(outer.children[0], outer.varName)
    requires outer.For? ==> outer.loopStart < outer.loopEnd
    requires outer.ForEach? ==>
      outer.valuesVarName in env && env[outer.valuesVarName].StrListV? && |env[outer.valuesVarName].items| > 0
    ensures Render(subst, outer, env) == Err(AlreadyExists(outer.varName))
  {
    var v := outer.varName;
    var inner := if outer.For? then env[v := IntV(outer.loopStart)]
                 else env[v := StrV(env[outer.valuesVarName].items[0])];
    assert Render(subst, outer.children[0], inner) == Err(AlreadyExists(v));
    assert RenderChildren(subst, outer.children, inner) == Err(AlreadyExists(v));
  }

  /** A loop that has a loop over its own variable among its direct children,
      at any position, never renders successfully once it runs an iteration:
      either an earlier child fails, or the reusing loop finds the variable
      bound. */
  lemma NestedReuseNeverSucceeds(subst: Substitution, outer: Section, env: Env, k: nat)
    requires outer.For? || outer.ForEach?
    requires outer.varName !in env
    requires k < |outer.children| && BindsVar(outer.children[k], outer.varName)
    requires outer.For? ==> outer.loopStart < outer.loopEnd
    requires outer.ForEach? ==>
      outer.valuesVarName in env && env[outer.valuesVarName].StrListV? && |env[outer.valuesVarName].items| > 0
    ensures !Render(subst, outer, env).Ok?
  {
    var v := outer.varName;
    var inner := if outer.For? then env[v := IntV(outer.loopStart)]
                 else env[v := StrV(env[outer.valuesVarName].items[0])];
    assert Render(subst, outer.children[k], inner) == Err(AlreadyExists(v));
    RootRender(subst, outer.children, inner);
  }
}
