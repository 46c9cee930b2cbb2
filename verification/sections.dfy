/** The section tree and its render. The environment is threaded through the
    render explicitly: a loop inserts its variable before each iteration and
    erases it afterwards, exactly as the C++ mutates the shared map, so that
    the environment a render leaves behind is a result to reason about. */
module Sections {
  import opened Wrappers
  import opened Values

  type Env = map<string, Value>

  type RenderResult<T> = Result<T, RenderError>

  /** `{{name}}` substitution over a literal text slice. The environment is
      passed by value, so substitution cannot change it. */
  type Substitution = (string, Env) -> RenderResult<string>

  datatype Section =
    | Root(children: seq<Section>)
    | Code(text: string)
    | For(varName: string, loopStart: Int32, loopEnd: Int32, children: seq<Section>)
    | ForEach(varName: string, valuesVarName: string, children: seq<Section>)

  /** What a successful render produces, and the environment it leaves. */
  datatype Rendered = Rendered(text: string, env: Env)

  function Size(s: Section): nat {
    match s
    case Root(children) => 1 + SizeSeq(children)
    case Code(_) => 1
    case For(_, _, _, children) => 1 + SizeSeq(children)
    case ForEach(_, _, children) => 1 + SizeSeq(children)
  }

  function SizeSeq(ss: seq<Section>): nat {
    if ss == [] then 0 else Size(ss[0]) + SizeSeq(ss[1..])
  }

  function Render(subst: Substitution, s: Section, env: Env): RenderResult<Rendered>
    decreases Size(s), 0, 0
  {
    match s
    case Root(children) => RenderChildren(subst, children, env)
    case Code(text) =>
      var out :- subst(text, env);
      Ok(Rendered(out, env))
    case For(v, lo, hi, children) =>
      if v in env then Err(AlreadyExists(v))
      else RenderRange(subst, v, lo, hi, children, env)
    case ForEach(v, listName, children) =>
      if v in env then Err(AlreadyExists(v))
      else if listName !in env || !env[listName].StrListV? then Err(NotAStringList(listName))
      else RenderEach(subst, v, env[listName].items, children, env)
  }

  /** The children in order, each seeing the environment its predecessor left. */
  function RenderChildren(subst: Substitution, children: seq<Section>, env: Env): RenderResult<Rendered>
    decreases SizeSeq(children), 1, 0
  {
    if children == [] then Ok(Rendered("", env))
    else
      var first :- Render(subst, children[0], env);
      var rest :- RenderChildren(subst, children[1..], first.env);
      Ok(Rendered(first.text + rest.text, rest.env))
  }

  /** Iterations i, i + 1, ..., hi - 1 of a numeric loop. */
  function RenderRange(subst: Substitution, v: string, i: Int32, hi: Int32, children: seq<Section>, env: Env)
    : RenderResult<Rendered>
    decreases SizeSeq(children), 2, hi - i
  {
    if i >= hi then Ok(Rendered("", env))
    else
      var body :- RenderChildren(subst, children, env[v := IntV(i)]);
      var rest :- RenderRange(subst, v, i + 1, hi, children, body.env - {v});
      Ok(Rendered(body.text + rest.text, rest.env))
  }

  /** One iteration per remaining element of a string list. */
  function RenderEach(subst: Substitution, v: string, items: seq<string>, children: seq<Section>, env: Env)
    : RenderResult<Rendered>
    decreases SizeSeq(children), 2, |items|
  {
    if items == [] then Ok(Rendered("", env))
    else
      var body :- RenderChildren(subst, children, env[v := StrV(items[0])]);
      var rest :- RenderEach(subst, v, items[1..], children, body.env - {v});
      Ok(Rendered(body.text + rest.text, rest.env))
  }

  /** The text of a render, forgetting the environment it left. */
  function Output(r: RenderResult<Rendered>): RenderResult<string> {
    match r
    case Ok(x) => Ok(x.text)
    case Err(e) => Err(e)
  }
}
