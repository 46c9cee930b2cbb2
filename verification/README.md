# SpeedTemplates render core in Dafny

A model of the render half of SpeedTemplates, a small Jinja2-style template
engine written in C++. A parsed template is a tree of sections. Rendering it
against a name-to-value environment produces text:

- `Root` appends its children's output.
- `Code` substitutes `{{name}}` markers in its literal text.
- `For` repeats its children for every integer in a half-open range, with the
  loop variable bound to that integer.
- `ForEach` repeats its children for every string of a bound string list.

A loop may never shadow a variable that is already bound.

Files:

- `wrappers.dfy` (`Wrappers`): `Option` and `Result`. Every C++ `throw` in a
  render becomes an `Err` that `:-` propagates.
- `decimal.dfy` (`Decimal`): the canonical decimal text of an integer and a
  strict parser for it, with round trips in both directions.
- `values.dfy` (`Values`): the `Value` kinds, the render errors and
  `RenderValue`.
- `sections.dfy` (`Sections`): the section tree and `Render`. The environment
  is threaded through every call, so each insert of a loop variable and each
  erase is explicit.
- `sequencing.dfy` (`Sequencing`): `Chain`, the reference meaning of "render
  the parts in order and append". The first failing part aborts with its
  error. Otherwise the result is the concatenation of the texts.
- `properties.dfy` (`RenderProperties`): the frame theorem and the meaning of
  each section kind.

The frame theorem says that a successful render leaves the environment
exactly as it found it. It is proved by mutual induction over the four
render functions. From it follows the independence that the later lemmas
rest on: every child, and every loop iteration, renders against the entry
environment (plus the loop's own binding). It does not see whatever an
earlier sibling did.

Substitution (`Template::doSubstitutions`) and float-to-text conversion are
parameters of the model, because their definitions are not part of this
model. Substitution is a function of the literal text and the environment.
It receives the environment by value (line 108), so a `Code` section cannot
change it. `easycl::toString(int)` is not part of this model either. It is
modelled as canonical decimal text: an optional `-`, then digits with no
redundant leading zero.

Two behaviours of the code are worth spelling out:

- The already-bound check runs once, before the loop (lines 149-151 and
  182-184), not at each iteration. So a loop over an empty range or an empty
  list still fails when its variable is bound. `ForRender` and
  `ForEachRender` state this.
- Line 185 performs an unchecked `operator[]` and `dynamic_cast` on the list
  name, which is undefined behaviour when the name is unbound or not a string
  list. The model returns `Err(NotAStringList(name))` there and makes no claim
  about the code.

## Model

| member | source | states |
|---|---|---|
| Values.RenderValue | speedtemplates/SpeedTemplates.h:35-80 | A value renders successfully exactly when it is not a string list. A string list fails with the "Not implemented" error. A string renders to itself. An integer renders to canonical decimal text that parses back to the same integer. |
| Decimal.IntToDecimal | speedtemplates/SpeedTemplates.h:46-48 | The text of an integer is canonical decimal. It starts with '-' exactly when the integer is negative. |
| Decimal.ParseOfDecimal | speedtemplates/SpeedTemplates.h:46-48 | Parsing the decimal text of any integer gives that integer back. |
| Decimal.DecimalOfParse | speedtemplates/SpeedTemplates.h:46-48 | Every text the parser accepts is the decimal text of the integer it parses to. |
| Decimal.DecimalInjective | speedtemplates/SpeedTemplates.h:46-48 | Distinct integers render to distinct decimal texts. |
| Sequencing.ChainSucceeds | speedtemplates/SpeedTemplates.h:242-247 | Appending the parts' outputs succeeds if and only if every part succeeds. The result is then the parts' texts concatenated in order. |
| Sequencing.ChainFailsAtFirstError | speedtemplates/SpeedTemplates.h:242-247 | Appending the parts fails with error e if and only if some part fails with e and every earlier part succeeded. The first exception aborts the render. |
| RenderProperties.RenderRestoresEnv | speedtemplates/SpeedTemplates.h:146-247 | After any successful render of any section, the environment equals the one it started with. |
| RenderProperties.ChildrenRestoreEnv | speedtemplates/SpeedTemplates.h:242-247 | Rendering a child list in order, each child passing the map on to the next, leaves the environment unchanged when it succeeds. |
| RenderProperties.RangeRestoresEnv | speedtemplates/SpeedTemplates.h:152-159 | Each numeric-loop iteration inserts `IntV(i)`, renders the children and erases the variable. When the variable was unbound on entry, the loop as a whole restores the environment. |
| RenderProperties.EachRestoresEnv | speedtemplates/SpeedTemplates.h:186-196 | Each list-loop iteration inserts `StrV(element)`, renders the children and erases the variable. When the variable was unbound on entry, the loop as a whole restores the environment. |
| RenderProperties.ChildrenAreChained | speedtemplates/SpeedTemplates.h:244-246 | The output of the child list is the chain of the children's outputs, each rendered against the same environment. |
| RenderProperties.RangeIsChained | speedtemplates/SpeedTemplates.h:152-159 | The output of iterations i..hi-1 is the chain, in increasing i, of the children rendered with the variable bound to `IntV(i)` in the entry environment. |
| RenderProperties.EachIsChained | speedtemplates/SpeedTemplates.h:185-196 | The output of a list loop is the chain, in list order, of the children rendered with the variable bound to `StrV(element)` in the entry environment. |
| RenderProperties.RootRender | speedtemplates/SpeedTemplates.h:242-247 | A Root's output is the chain of its children's outputs, all rendered in the same environment. The Root succeeds if and only if every child does. |
| RenderProperties.CodeOnlyRender | speedtemplates/SpeedTemplates.h:224-247 | A Root whose children are all Code sections outputs the chain of the substitutions of their texts, in order, all in the entry environment. The first failing substitution aborts the render. |
| RenderProperties.ForRender | speedtemplates/SpeedTemplates.h:146-161 | A bound loop variable fails with AlreadyExists, even over an empty range. Otherwise the output is the chain over i in [loopStart, loopEnd). An empty range yields "" and an unchanged environment. On success the variable is unbound again and the environment is restored. |
| RenderProperties.ForEachRender | speedtemplates/SpeedTemplates.h:178-198 | A bound loop variable fails with AlreadyExists before the list is looked up. Otherwise the output is the chain over the list's elements in order. An empty list yields "". On success the environment is restored. |
| RenderProperties.NestedReuseFails | speedtemplates/SpeedTemplates.h:149-155 | A loop whose first child is a loop over the same variable fails with AlreadyExists whenever it runs at least one iteration. |
| RenderProperties.NestedReuseNeverSucceeds | speedtemplates/SpeedTemplates.h:149-156 | A loop with a loop over its own variable at any position among its direct children never renders successfully once it runs at least one iteration. |

## Left out

- The `print` methods and the debug `std::cout` lines inside `ForEachSection::render` (lines 117-120, 130-136, 163-169, 188, 191, 200-206, 249-255). They write to the console and do not affect the output.
- `FloatValue` formatting (lines 56-58). `easycl::toString(float)` is not part of this model, so float-to-text is a `FloatFormatter` parameter.
- The body of `Template::doSubstitutions`, which is not part of this model. It is the `Substitution` parameter, so the `{{name}}` lookup and its errors are not modelled. Errors it raises appear as whatever `RenderError` the parameter returns.
- The parser and the facade: the `Template` constructor, `isNumber`, `eatSection`, `setValue` and `Template::render` (lines 98-107). Their bodies are not part of this model.
- `Container` (lines 123-137). It never overrides `render` and serves only parsing and debugging.
- Heap ownership: the `new`/`delete` of loop values and the borrowed reference in `VectorStringValue`. Values are immutable Dafny data.
- The environment after a failed render. The code leaves the loop binding in place when a child throws. The model only reports the error, and every environment lemma is about successful renders.
- The behaviour when a `ForEach` list name is unbound or is not bound to a string list (line 185). This is undefined behaviour in the code. The model reports `NotAStringList` instead.
- RenderProperties.NestedReuseNeverSucceeds: covers a reusing loop that is a direct child of the outer loop. A reusing loop deeper in the tree fails only if every section between them reaches it, so it is not stated.
- The `int` conversion of the list size at line 186. Lists longer than 2^31 - 1 elements are not modelled.
