/** Rendering a token tree against a dictionary: the `gettext` member of each
    token, `TokenIf::is_true`, and the loops over children in `TokenFor`,
    `TokenIf` and `parse`.

    Rendering writes to a stream and rebinds keys of the dictionary it is given.
    When a token throws, what was written before it stays written and the keys
    rebound before it stay rebound, so an outcome carries the text, the
    dictionary and the failure, if any. */
module Evaluator {
  import opened Failures
  import opened Strings
  import opened Data
  import opened Resolver
  import opened Tokens

  /** The text written, the dictionary as it is left, and the exception that
      ended rendering early (`None` when rendering ran to the end). */
  datatype Output = Output(text: string, ctx: map<string, Value>, failure: Option<Error>)

  /** Written text in front of what rendering goes on to do. */
  function Prepend(text: string, o: Output): Output {
    Output(text + o.text, o.ctx, o.failure)
  }

  /** The dictionary bound to `loop` on pass `i` of a loop: `index` counts from
      one, `index0` from zero. */
  function LoopMap(i: nat): Value {
    Map(map["index" := Scalar(Decimal(i + 1)), "index0" := Scalar(Decimal(i))])
  }

  /** The dictionary on pass `i` of a loop binding `variable` to `items[i]`:
      `loop` is bound first, then the loop variable. */
  function Bind(ctx: map<string, Value>, variable: string, items: seq<Value>, i: nat): map<string, Value>
    requires i < |items|
  {
    ctx["loop" := LoopMap(i)][variable := items[i]]
  }

  /** The keys rendering `t` may rebind: `loop` and the variable of every loop in it. */
  function LoopNames(t: Token): set<string>
    decreases t
  {
    match t
    case For(variable, _, children) => {"loop", variable} + AllLoopNames(children)
    case If(_, children) => AllLoopNames(children)
    case _ => {}
  }

  function AllLoopNames(ts: seq<Token>): set<string>
    decreases ts
  {
    if ts == [] then {} else LoopNames(ts[0]) + AllLoopNames(ts[1..])
  }

  /** Every key outside `names` is bound in `after` exactly as in `before`. */
  predicate Keeps(before: map<string, Value>, after: map<string, Value>, names: set<string>) {
    after - names == before - names
  }

  lemma KeepsChain(a: map<string, Value>, b: map<string, Value>, c: map<string, Value>, m: set<string>, n: set<string>)
    requires Keeps(a, b, m) && Keeps(b, c, n)
    ensures Keeps(a, c, m + n)
  {
    forall k | k !in m + n
      ensures (k in a <==> k in c) && (k in a ==> a[k] == c[k])
    {
      assert (k in a <==> k in a - m) && (k in b <==> k in b - m) && (k in b <==> k in b - n) && (k in c <==> k in c - n);
      if k in a {
        assert a[k] == (a - m)[k] == (b - m)[k] == b[k] == (b - n)[k] == (c - n)[k] == c[k];
      }
    }
  }

  lemma KeepsWider(a: map<string, Value>, b: map<string, Value>, m: set<string>, n: set<string>)
    requires Keeps(a, b, m) && m <= n
    ensures Keeps(a, b, n)
  {
    forall k | k !in n
      ensures (k in a <==> k in b) && (k in a ==> a[k] == b[k])
    {
      assert (k in a <==> k in a - m) && (k in b <==> k in b - m);
      if k in a {
        assert a[k] == (a - m)[k] == (b - m)[k] == b[k];
      }
    }
  }

  /** `TokenIf::is_true(expr, data)`: the expression is split at white space; its
      first piece is the word `if`. `if not x` holds when `x` is empty, `if x`
      when `x` is not empty, and `if a op b` compares the texts of `a` and `b`,
      for equality when `op` is `==` and for inequality otherwise. Reading a
      piece that is not there is `IndexOutOfRange`; with three pieces, `a` is
      resolved before the missing fourth piece is read, so a throwing `a` throws. */
  function IsTrue(expr: string, ctx: map<string, Value>): (r: Result<bool>)
    ensures r.Err? ==> r.error in {IndexOutOfRange, NotADictionary, NotAValue}
    ensures r.Err? && r.error == IndexOutOfRange <==>
      |Split(expr)| < 2 || (Split(expr)[1] == "not" && |Split(expr)| < 3)
      || (Split(expr)[1] != "not" && |Split(expr)| == 3 && Resolve(Split(expr)[1], ctx).Ok?)
  {
    Holds(Split(expr), ctx)
  }

  /** `is_true` on the pieces of the expression. */
  function Holds(elements: seq<string>, ctx: map<string, Value>): (r: Result<bool>)
    ensures r.Err? ==> r.error in {IndexOutOfRange, NotADictionary, NotAValue}
    ensures r.Err? && r.error == IndexOutOfRange <==>
      |elements| < 2 || (elements[1] == "not" && |elements| < 3)
      || (elements[1] != "not" && |elements| == 3 && Resolve(elements[1], ctx).Ok?)
  {
    if |elements| < 2 then Err(IndexOutOfRange)
    else if elements[1] == "not" then
      if |elements| < 3 then Err(IndexOutOfRange)
      else
        var value :- Resolve(elements[2], ctx);
        Ok(IsEmpty(value))
    else if |elements| == 2 then
      var value :- Resolve(elements[1], ctx);
      Ok(!IsEmpty(value))
    else if |elements| < 4 then
      var _ :- Resolve(elements[1], ctx);
      Err(IndexOutOfRange)
    else
      var lhs :- Resolve(elements[1], ctx);
      var rhs :- Resolve(elements[3], ctx);
      var left :- GetValue(lhs);
      var right :- GetValue(rhs);
      Ok(if elements[2] == "==" then left == right else left != right)
  }

  /** Rendering one token. Text writes itself; a variable writes the text of what
      its key resolves to; a loop renders its children once for each item of the
      list its source resolves to; a conditional renders its children when its
      expression holds; an end marker throws. Only loops rebind keys. */
  function EvalNode(t: Token, ctx: map<string, Value>): (r: Output)
    ensures Keeps(ctx, r.ctx, LoopNames(t))
    decreases t
  {
    match t
    case Text(text) => Output(text, ctx, None)
    case Var(key) =>
      var value := Resolve(key, ctx);
      if value.Err? then Output("", ctx, Some(value.error))
      else
        var text := GetValue(value.value);
        if text.Err? then Output("", ctx, Some(text.error)) else Output(text.value, ctx, None)
    case For(_, source, _) =>
      var value := Resolve(source, ctx);
      if value.Err? then Output("", ctx, Some(value.error))
      else
        var items := GetList(value.value);
        if items.Err? then Output("", ctx, Some(items.error)) else EvalLoop(t, items.value, 0, ctx)
    case If(expr, children) =>
      var holds := IsTrue(expr, ctx);
      if holds.Err? then Output("", ctx, Some(holds.error))
      else if holds.value then EvalNodes(children, ctx)
      else Output("", ctx, None)
    case End(_) => Output("", ctx, Some(EndHasNoText))
  }

  /** Rendering tokens one after the other, each seeing the dictionary the one
      before it left; the first exception ends rendering. */
  function EvalNodes(ts: seq<Token>, ctx: map<string, Value>): (r: Output)
    ensures Keeps(ctx, r.ctx, AllLoopNames(ts))
    decreases ts
  {
    if ts == [] then Output("", ctx, None)
    else
      var first := EvalNode(ts[0], ctx);
      if first.failure.Some? then
        KeepsWider(ctx, first.ctx, LoopNames(ts[0]), AllLoopNames(ts));
        first
      else
        var rest := EvalNodes(ts[1..], first.ctx);
        KeepsChain(ctx, first.ctx, rest.ctx, LoopNames(ts[0]), AllLoopNames(ts[1..]));
        Prepend(first.text, rest)
  }

  /** Passes `i`, `i + 1`, ... of the loop `t` over `items`. */
  function EvalLoop(t: Token, items: seq<Value>, i: nat, ctx: map<string, Value>): (r: Output)
    requires t.For? && i <= |items|
    ensures Keeps(ctx, r.ctx, LoopNames(t))
    decreases t, |items| - i
  {
    if i == |items| then Output("", ctx, None)
    else
      var bound := Bind(ctx, t.variable, items, i);
      assert Keeps(ctx, bound, {"loop", t.variable});
      var pass := EvalNodes(t.children, bound);
      KeepsChain(ctx, bound, pass.ctx, {"loop", t.variable}, AllLoopNames(t.children));
      if pass.failure.Some? then pass
      else
        var rest := EvalLoop(t, items, i + 1, pass.ctx);
        KeepsChain(ctx, pass.ctx, rest.ctx, LoopNames(t), LoopNames(t));
        Prepend(pass.text, rest)
  }

  lemma PrependPrepend(a: string, b: string, o: Output)
    ensures Prepend(a, Prepend(b, o)) == Prepend(a + b, o)
  {
    assert a + (b + o.text) == (a + b) + o.text;
  }

  /** The loop over children in `TokenIf::gettext`, `TokenFor::gettext` and
      `parse`: each child writes to the stream in turn and may rebind keys of
      `data`; an exception from a child ends the loop. */
  method RenderNodes(ts: seq<Token>, data: Context) returns (out: string, failure: Option<Error>)
    modifies data
    ensures Output(out, data.entries, failure) == EvalNodes(ts, old(data.entries))
    decreases ts
  {
    out, failure := "", None;
    assert "" + EvalNodes(ts, data.entries).text == EvalNodes(ts, data.entries).text;
    var j := 0;
    while j < |ts|
      invariant 0 <= j <= |ts|
      invariant EvalNodes(ts, old(data.entries)) == Prepend(out, EvalNodes(ts[j..], data.entries))
      invariant failure == None
    {
      assert ts[j..][0] == ts[j] && ts[j..][1..] == ts[j + 1..];
      var text, f := RenderNode(ts[j], data);
      PrependPrepend(out, text, EvalNodes(ts[j + 1..], data.entries));
      out := out + text;
      if f.Some? {
        assert out + "" == out;
        return out, f;
      }
      j := j + 1;
    }
    assert out + "" == out;
  }

  /** `gettext(stream, data)` of one token. */
  method RenderNode(t: Token, data: Context) returns (out: string, failure: Option<Error>)
    modifies data
    ensures Output(out, data.entries, failure) == EvalNode(t, old(data.entries))
    decreases t
  {
    match t
    case Text(text) =>
      out, failure := text, None;
    case Var(key) =>
      var value := Resolve(key, data.entries);
      if value.Err? {
        return "", Some(value.error);
      }
      var text := GetValue(value.value);
      if text.Err? {
        return "", Some(text.error);
      }
      out, failure := text.value, None;
    case For(variable, source, children) =>
      var value := Resolve(source, data.entries);
      if value.Err? {
        return "", Some(value.error);
      }
      var list := GetList(value.value);
      if list.Err? {
        return "", Some(list.error);
      }
      var items := list.value;
      out, failure := "", None;
      assert "" + EvalLoop(t, items, 0, data.entries).text == EvalLoop(t, items, 0, data.entries).text;
      var i := 0;
      while i < |items|
        invariant 0 <= i <= |items|
        invariant EvalNode(t, old(data.entries)) == Prepend(out, EvalLoop(t, items, i, data.entries))
        invariant failure == None
      {
        var loop: map<string, Value> := map[];
        loop := loop["index" := Scalar(Decimal(i + 1))];
        loop := loop["index0" := Scalar(Decimal(i))];
        data.Assign("loop", Map(loop));
        data.Assign(variable, items[i]);
        var text, f := RenderNodes(children, data);
        PrependPrepend(out, text, EvalLoop(t, items, i + 1, data.entries));
        out := out + text;
        if f.Some? {
          assert out + "" == out;
          return out, f;
        }
        i := i + 1;
      }
      assert out + "" == out;
    case If(expr, children) =>
      var holds := IsTrue(expr, data.entries);
      if holds.Err? {
        return "", Some(holds.error);
      }
      if holds.value {
        out, failure := RenderNodes(children, data);
      } else {
        out, failure := "", None;
      }
    case End(_) =>
      out, failure := "", Some(EndHasNoText);
  }

  /** The helper `gettext(token, data)`: the text one token renders to, or the
      exception it throws; the keys it rebinds stay rebound either way. */
  method GetText(t: Token, data: Context) returns (text: Result<string>)
    modifies data
    ensures var o := EvalNode(t, old(data.entries));
      data.entries == o.ctx && text == if o.failure.Some? then Err(o.failure.value) else Ok(o.text)
  {
    var out, failure := RenderNode(t, data);
    text := if failure.Some? then Err(failure.value) else Ok(out);
  }

  /** Rendering that rebinds no key leaves the dictionary as it was. */
  lemma KeepsAll(before: map<string, Value>, after: map<string, Value>)
    requires Keeps(before, after, {})
    ensures after == before
  {
    assert after - {} == after && before - {} == before;
  }

  /** Tokens with no loop in them render without changing the dictionary. */
  lemma NoLoopsKeepContext(ts: seq<Token>, ctx: map<string, Value>)
    requires AllLoopNames(ts) == {}
    ensures EvalNodes(ts, ctx).ctx == ctx
  {
    KeepsAll(ctx, EvalNodes(ts, ctx).ctx);
  }

  /** Rendering two runs of tokens is rendering the first, then the second on the
      dictionary the first left, unless the first threw. */
  lemma {:induction false} EvalNodesAppend(first: seq<Token>, second: seq<Token>, ctx: map<string, Value>)
    ensures var o := EvalNodes(first, ctx);
      EvalNodes(first + second, ctx) == if o.failure.Some? then o else Prepend(o.text, EvalNodes(second, o.ctx))
    decreases first
  {
    if first == [] {
      assert first + second == second;
      assert "" + EvalNodes(second, ctx).text == EvalNodes(second, ctx).text;
    } else {
      assert (first + second)[0] == first[0] && (first + second)[1..] == first[1..] + second;
      var head := EvalNode(first[0], ctx);
      if head.failure.None? {
        EvalNodesAppend(first[1..], second, head.ctx);
        var o := EvalNodes(first[1..], head.ctx);
        if o.failure.None? {
          PrependPrepend(head.text, o.text, EvalNodes(second, o.ctx));
        }
      }
    }
  }

  /** A run of one token renders as that token. */
  lemma EvalNodesSingle(t: Token, ctx: map<string, Value>)
    ensures EvalNodes([t], ctx) == EvalNode(t, ctx)
  {
    assert [t][0] == t && [t][1..] == [];
    assert EvalNode(t, ctx).text + "" == EvalNode(t, ctx).text;
  }

  /** An end marker throws when it is rendered; nothing after it is rendered. */
  lemma EndStopsRendering(marker: string, ts: seq<Token>, ctx: map<string, Value>)
    ensures EvalNodes([End(marker)] + ts, ctx) == Output("", ctx, Some(EndHasNoText))
  {
    assert ([End(marker)] + ts)[0] == End(marker);
  }

  /** A variable writes the text of the string its key resolves to; a list or a
      dictionary throws "not a value". */
  lemma VarRendersText(key: string, ctx: map<string, Value>)
    requires Resolve(key, ctx).Ok?
    ensures Resolve(key, ctx).value.Scalar? ==> EvalNode(Var(key), ctx) == Output(Resolve(key, ctx).value.text, ctx, None)
    ensures !Resolve(key, ctx).value.Scalar? ==> EvalNode(Var(key), ctx) == Output("", ctx, Some(NotAValue))
  {
  }

  /** A loop over an empty list writes nothing and leaves the dictionary as it was. */
  lemma EmptyLoop(variable: string, source: string, children: seq<Token>, ctx: map<string, Value>)
    requires Resolve(source, ctx) == Ok(List([]))
    ensures EvalNode(For(variable, source, children), ctx) == Output("", ctx, None)
  {
  }

  /** The texts of string values, one after the other. */
  function Texts(items: seq<Value>): string
    requires forall k :: 0 <= k < |items| ==> items[k].Scalar?
  {
    if items == [] then "" else items[0].text + Texts(items[1..])
  }

  /** The loop variable resolves to the current item on every pass. */
  lemma ResolveLoopVariable(ctx: map<string, Value>, variable: string, items: seq<Value>, i: nat)
    requires i < |items| && IsSegment(variable)
    ensures Resolve(variable, Bind(ctx, variable, items, i)) == Ok(items[i])
  {
    ResolvePlain(variable, Bind(ctx, variable, items, i));
  }

  lemma {:induction false} LoopOverItemsFrom(t: Token, items: seq<Value>, i: nat, ctx: map<string, Value>)
    requires t.For? && t.children == [Var(t.variable)] && IsSegment(t.variable) && i <= |items|
    requires forall k :: 0 <= k < |items| ==> items[k].Scalar?
    ensures EvalLoop(t, items, i, ctx).failure.None?
    ensures EvalLoop(t, items, i, ctx).text == Texts(items[i..])
    decreases |items| - i
  {
    if i < |items| {
      var pass := EvalNodes(t.children, Bind(ctx, t.variable, items, i));
      PassWritesItem(t, items, i, ctx);
      LoopStep(t, items, i, ctx, pass);
      LoopOverItemsFrom(t, items, i + 1, pass.ctx);
      TextsFrom(items, i);
    }
  }

  /** A pass that does not throw is followed by the passes after it. */
  lemma LoopStep(t: Token, items: seq<Value>, i: nat, ctx: map<string, Value>, pass: Output)
    requires t.For? && i < |items| && pass == EvalNodes(t.children, Bind(ctx, t.variable, items, i))
    requires pass.failure.None?
    ensures EvalLoop(t, items, i, ctx) == Prepend(pass.text, EvalLoop(t, items, i + 1, pass.ctx))
  {
  }

  /** Pass `i` of `{% for x in xs %}{$x}{% endfor %}` writes item `i`. */
  lemma PassWritesItem(t: Token, items: seq<Value>, i: nat, ctx: map<string, Value>)
    requires t.For? && t.children == [Var(t.variable)] && IsSegment(t.variable) && i < |items|
    requires items[i].Scalar?
    ensures EvalNodes(t.children, Bind(ctx, t.variable, items, i)).failure.None?
    ensures EvalNodes(t.children, Bind(ctx, t.variable, items, i)).text == items[i].text
  {
    ResolveLoopVariable(ctx, t.variable, items, i);
    EvalNodesSingle(Var(t.variable), Bind(ctx, t.variable, items, i));
  }

  lemma TextsFrom(items: seq<Value>, i: nat)
    requires i < |items| && forall k :: 0 <= k < |items| ==> items[k].Scalar?
    ensures Texts(items[i..]) == items[i].text + Texts(items[i + 1..])
  {
    assert items[i..][0] == items[i] && items[i..][1..] == items[i + 1..];
  }

  /** `{% for x in xs %}{$x}{% endfor %}` over a list of strings writes the strings
      one after the other. */
  lemma LoopOverItems(variable: string, source: string, items: seq<Value>, ctx: map<string, Value>)
    requires IsSegment(variable) && Resolve(source, ctx) == Ok(List(items))
    requires forall k :: 0 <= k < |items| ==> items[k].Scalar?
    ensures EvalNode(For(variable, source, [Var(variable)]), ctx) == EvalLoop(For(variable, source, [Var(variable)]), items, 0, ctx)
    ensures EvalNode(For(variable, source, [Var(variable)]), ctx).failure.None?
    ensures EvalNode(For(variable, source, [Var(variable)]), ctx).text == Texts(items)
  {
    LoopOverItemsFrom(For(variable, source, [Var(variable)]), items, 0, ctx);
    assert items[0..] == items;
  }

  /** The numbers of passes `i`, ..., `n - 1`, counted from `base`, written one
      after the other. */
  function Counting(i: nat, n: nat, base: nat): string
    decreases n - i
  {
    if i >= n then "" else Decimal(i + base) + Counting(i + 1, n, base)
  }

  lemma {:induction false} LoopIndexFrom(t: Token, items: seq<Value>, i: nat, ctx: map<string, Value>)
    requires t.For? && t.children == [Var("loop.index")] && t.variable != "loop" && i <= |items|
    ensures EvalLoop(t, items, i, ctx).failure.None?
    ensures EvalLoop(t, items, i, ctx).text == Counting(i, |items|, 1)
    decreases |items| - i
  {
    if i < |items| {
      var pass := EvalNodes(t.children, Bind(ctx, t.variable, items, i));
      PassWritesIndex(t, items, i, ctx);
      LoopStep(t, items, i, ctx, pass);
      LoopIndexFrom(t, items, i + 1, pass.ctx);
      assert Counting(i, |items|, 1) == Decimal(i + 1) + Counting(i + 1, |items|, 1);
    }
  }

  lemma {:induction false} LoopIndex0From(t: Token, items: seq<Value>, i: nat, ctx: map<string, Value>)
    requires t.For? && t.children == [Var("loop.index0")] && t.variable != "loop" && i <= |items|
    ensures EvalLoop(t, items, i, ctx).failure.None?
    ensures EvalLoop(t, items, i, ctx).text == Counting(i, |items|, 0)
    decreases |items| - i
  {
    if i < |items| {
      var pass := EvalNodes(t.children, Bind(ctx, t.variable, items, i));
      PassWritesIndex0(t, items, i, ctx);
      LoopStep(t, items, i, ctx, pass);
      LoopIndex0From(t, items, i + 1, pass.ctx);
      assert Counting(i, |items|, 0) == Decimal(i + 0) + Counting(i + 1, |items|, 0);
    }
  }

  lemma PassWritesIndex(t: Token, items: seq<Value>, i: nat, ctx: map<string, Value>)
    requires t.For? && t.children == [Var("loop.index")] && t.variable != "loop" && i < |items|
    ensures EvalNodes(t.children, Bind(ctx, t.variable, items, i)).failure.None?
    ensures EvalNodes(t.children, Bind(ctx, t.variable, items, i)).text == Decimal(i + 1)
  {
    ResolveLoopIndex(ctx, t.variable, items, i);
    EvalNodesSingle(Var("loop.index"), Bind(ctx, t.variable, items, i));
  }

  lemma PassWritesIndex0(t: Token, items: seq<Value>, i: nat, ctx: map<string, Value>)
    requires t.For? && t.children == [Var("loop.index0")] && t.variable != "loop" && i < |items|
    ensures EvalNodes(t.children, Bind(ctx, t.variable, items, i)).failure.None?
    ensures EvalNodes(t.children, Bind(ctx, t.variable, items, i)).text == Decimal(i)
  {
    ResolveLoopIndex0(ctx, t.variable, items, i);
    EvalNodesSingle(Var("loop.index0"), Bind(ctx, t.variable, items, i));
  }

  /** `loop.index` resolves to the one-based number of the pass. */
  lemma ResolveLoopIndex(ctx: map<string, Value>, variable: string, items: seq<Value>, i: nat)
    requires i < |items| && variable != "loop"
    ensures Resolve("loop.index", Bind(ctx, variable, items, i)) == Ok(Scalar(Decimal(i + 1)))
  {
    var bound := Bind(ctx, variable, items, i);
    assert bound["loop"] == LoopMap(i);
    assert "loop" + "." + "index" == "loop.index";
    ResolveDottedBound("loop", "index", bound);
    ResolvePlain("index", LoopMap(i).entries);
  }

  /** `loop.index0` resolves to the zero-based number of the pass. */
  lemma ResolveLoopIndex0(ctx: map<string, Value>, variable: string, items: seq<Value>, i: nat)
    requires i < |items| && variable != "loop"
    ensures Resolve("loop.index0", Bind(ctx, variable, items, i)) == Ok(Scalar(Decimal(i)))
  {
    var bound := Bind(ctx, variable, items, i);
    assert bound["loop"] == LoopMap(i);
    assert "loop" + "." + "index0" == "loop.index0";
    ResolveDottedBound("loop", "index0", bound);
    ResolvePlain("index0", LoopMap(i).entries);
  }

  /** `{$loop.index}` in a loop body counts the passes from one. */
  lemma LoopIndexCounts(variable: string, source: string, items: seq<Value>, ctx: map<string, Value>)
    requires variable != "loop" && Resolve(source, ctx) == Ok(List(items))
    ensures EvalNode(For(variable, source, [Var("loop.index")]), ctx).failure.None?
    ensures EvalNode(For(variable, source, [Var("loop.index")]), ctx).text == Counting(0, |items|, 1)
  {
    LoopIndexFrom(For(variable, source, [Var("loop.index")]), items, 0, ctx);
  }

  /** `{$loop.index0}` in a loop body counts the passes from zero. */
  lemma LoopIndex0Counts(variable: string, source: string, items: seq<Value>, ctx: map<string, Value>)
    requires variable != "loop" && Resolve(source, ctx) == Ok(List(items))
    ensures EvalNode(For(variable, source, [Var("loop.index0")]), ctx).failure.None?
    ensures EvalNode(For(variable, source, [Var("loop.index0")]), ctx).text == Counting(0, |items|, 0)
  {
    LoopIndex0From(For(variable, source, [Var("loop.index0")]), items, 0, ctx);
  }

  /** The last pass leaves its bindings in place: a loop without nested loops that
      runs to the end leaves `loop` and the loop variable bound as on its last
      pass. */
  lemma {:induction false} LoopLeavesLastBinding(t: Token, items: seq<Value>, i: nat, ctx: map<string, Value>)
    requires t.For? && AllLoopNames(t.children) == {} && i < |items|
    requires EvalLoop(t, items, i, ctx).failure.None?
    ensures EvalLoop(t, items, i, ctx).ctx == Bind(ctx, t.variable, items, |items| - 1)
    decreases |items| - i, 1
  {
    if i + 1 < |items| {
      LaterPassesRebind(t, items, i, ctx);
      Rebound(ctx, t.variable, items, i, EvalLoop(t, items, i, ctx).ctx);
    } else {
      PassKeepsBinding(t, items, i, ctx);
    }
  }

  /** Before the last pass, the passes after this one decide the bindings. */
  lemma {:induction false} LaterPassesRebind(t: Token, items: seq<Value>, i: nat, ctx: map<string, Value>)
    requires t.For? && AllLoopNames(t.children) == {} && i + 1 < |items|
    requires EvalLoop(t, items, i, ctx).failure.None?
    ensures EvalLoop(t, items, i, ctx).ctx == Bind(Bind(ctx, t.variable, items, i), t.variable, items, |items| - 1)
    decreases |items| - i, 0
  {
    PassKeepsBinding(t, items, i, ctx);
    LoopLeavesLastBinding(t, items, i + 1, Bind(ctx, t.variable, items, i));
  }

  lemma Rebound(ctx: map<string, Value>, variable: string, items: seq<Value>, i: nat, after: map<string, Value>)
    requires i + 1 < |items| && after == Bind(Bind(ctx, variable, items, i), variable, items, |items| - 1)
    ensures after == Bind(ctx, variable, items, |items| - 1)
  {
    BindTwice(ctx, variable, items, i, |items| - 1);
  }

  /** A pass whose body has no loops goes on with the dictionary it bound. */
  lemma PassKeepsBinding(t: Token, items: seq<Value>, i: nat, ctx: map<string, Value>)
    requires t.For? && AllLoopNames(t.children) == {} && i < |items|
    requires EvalLoop(t, items, i, ctx).failure.None?
    ensures EvalLoop(t, items, i + 1, Bind(ctx, t.variable, items, i)).failure.None?
    ensures EvalLoop(t, items, i + 1, Bind(ctx, t.variable, items, i)).ctx == EvalLoop(t, items, i, ctx).ctx
  {
    var bound := Bind(ctx, t.variable, items, i);
    NoLoopsKeepContext(t.children, bound);
  }

  /** What passes `i`, ..., `n - 1` of the loop `t` write when each renders the
      children on the dictionary bound for it. */
  function PassTexts(t: Token, items: seq<Value>, i: nat, ctx: map<string, Value>): string
    requires t.For? && i <= |items|
    decreases |items| - i
  {
    if i == |items| then ""
    else EvalNodes(t.children, Bind(ctx, t.variable, items, i)).text + PassTexts(t, items, i + 1, ctx)
  }

  /** A loop whose body has no loops renders its body once per item, in order, the
      pass for item `i` seeing `loop` and the loop variable bound for `i`; `c` is
      the dictionary the pass before left, which the pass rebinds. */
  lemma {:induction false} LoopRendersPasses(t: Token, items: seq<Value>, i: nat, ctx: map<string, Value>, c: map<string, Value>)
    requires t.For? && AllLoopNames(t.children) == {} && i <= |items|
    requires forall j :: i <= j < |items| ==> EvalNodes(t.children, Bind(ctx, t.variable, items, j)).failure.None?
    requires c == ctx || (0 < i && c == Bind(ctx, t.variable, items, i - 1))
    ensures EvalLoop(t, items, i, c).failure.None?
    ensures EvalLoop(t, items, i, c).text == PassTexts(t, items, i, ctx)
    decreases |items| - i
  {
    if i < |items| {
      var bound := Bind(ctx, t.variable, items, i);
      SameBinding(ctx, c, t.variable, items, i);
      var pass := EvalNodes(t.children, bound);
      NoLoopsKeepContext(t.children, bound);
      assert pass.ctx == bound && pass.failure.None?;
      LoopStep(t, items, i, c, pass);
      LoopRendersPasses(t, items, i + 1, ctx, pass.ctx);
      assert PassTexts(t, items, i, ctx) == pass.text + PassTexts(t, items, i + 1, ctx);
    }
  }

  lemma SameBinding(ctx: map<string, Value>, c: map<string, Value>, variable: string, items: seq<Value>, i: nat)
    requires i < |items| && (c == ctx || (0 < i && c == Bind(ctx, variable, items, i - 1)))
    ensures Bind(c, variable, items, i) == Bind(ctx, variable, items, i)
  {
    if c != ctx {
      BindTwice(ctx, variable, items, i - 1, i);
    }
  }

  /** `{% for x in xs %}...{% endfor %}` over a list, with a body that has no loops
      and does not throw, writes what the passes write, one after the other. */
  lemma LoopRendersInOrder(variable: string, source: string, children: seq<Token>, items: seq<Value>, ctx: map<string, Value>)
    requires AllLoopNames(children) == {} && Resolve(source, ctx) == Ok(List(items))
    requires forall j :: 0 <= j < |items| ==> EvalNodes(children, Bind(ctx, variable, items, j)).failure.None?
    ensures EvalNode(For(variable, source, children), ctx).failure.None?
    ensures EvalNode(For(variable, source, children), ctx).text == PassTexts(For(variable, source, children), items, 0, ctx)
  {
    LoopRendersPasses(For(variable, source, children), items, 0, ctx, ctx);
  }

  /** A later pass overwrites every binding an earlier pass made. */
  lemma BindTwice(ctx: map<string, Value>, variable: string, items: seq<Value>, i: nat, j: nat)
    requires i < |items| && j < |items|
    ensures Bind(Bind(ctx, variable, items, i), variable, items, j) == Bind(ctx, variable, items, j)
  {
  }

  /** A loop whose source is not a list throws "not a list" before writing anything;
      so does a loop over a key that is not bound, which resolves to its echo. */
  lemma LoopOverNonList(variable: string, source: string, children: seq<Token>, ctx: map<string, Value>)
    requires Resolve(source, ctx).Ok? && !Resolve(source, ctx).value.List?
    ensures EvalNode(For(variable, source, children), ctx) == Output("", ctx, Some(NotAList))
  {
  }

  lemma LoopOverUnbound(variable: string, source: string, children: seq<Token>, ctx: map<string, Value>)
    requires !IsQuoted(source) && '.' !in source && source !in ctx
    ensures EvalNode(For(variable, source, children), ctx) == Output("", ctx, Some(NotAList))
  {
    ResolvePlain(source, ctx);
  }

  /** One more word after a single space is one more piece. */
  lemma SplitAfter(prefix: string, x: string)
    requires NoSpace(x)
    ensures Split(prefix + " " + x) == Split(prefix) + [x]
  {
    SplitAtSpace(prefix, ' ', x);
    SplitNoSpace(x);
    assert prefix + " " + x == prefix + [' '] + x;
  }

  lemma SplitIf()
    ensures Split("if") == ["if"] && "if" + " " == "if "
  {
    SplitNoSpace("if");
  }

  /** The pieces of `if x`, `if not x` and `if a op b`. */
  lemma SplitIfOperand(x: string)
    requires NoSpace(x)
    ensures Split("if " + x) == ["if", x]
  {
    SplitIf();
    SplitAfter("if", x);
  }

  lemma SplitIfNot(x: string)
    requires NoSpace(x)
    ensures Split("if not " + x) == ["if", "not", x]
  {
    SplitIfOperand("not");
    assert "if " + "not" == "if not";
    SplitAfter("if not", x);
    assert "if not" + " " == "if not ";
  }

  lemma SplitIfCompare(a: string, op: string, b: string)
    requires NoSpace(a) && NoSpace(op) && NoSpace(b)
    ensures Split("if " + a + " " + op + " " + b) == ["if", a, op, b]
  {
    SplitIfOperand(a);
    SplitAfter("if " + a, op);
    SplitAfter("if " + a + " " + op, b);
  }

  /** `if x`: true when what `x` resolves to is not empty. */
  lemma IsTrueOperand(x: string, ctx: map<string, Value>)
    requires NoSpace(x) && x != "not"
    ensures var v := Resolve(x, ctx);
      IsTrue("if " + x, ctx) == if v.Err? then Err(v.error) else Ok(!IsEmpty(v.value))
  {
    SplitIfOperand(x);
  }

  /** `if not x`: true when what `x` resolves to is empty. */
  lemma IsTrueNot(x: string, ctx: map<string, Value>)
    requires NoSpace(x)
    ensures var v := Resolve(x, ctx);
      IsTrue("if not " + x, ctx) == if v.Err? then Err(v.error) else Ok(IsEmpty(v.value))
  {
    SplitIfNot(x);
  }

  /** `if a op b` on two strings: equality for `==`, inequality for any other
      operator. Pieces after the fourth are ignored. */
  lemma HoldsCompare(elements: seq<string>, ctx: map<string, Value>, x: string, y: string)
    requires |elements| >= 4 && elements[1] != "not"
    requires Resolve(elements[1], ctx) == Ok(Scalar(x)) && Resolve(elements[3], ctx) == Ok(Scalar(y))
    ensures Holds(elements, ctx) == Ok(if elements[2] == "==" then x == y else x != y)
  {
  }

  lemma IsTrueCompare(a: string, op: string, b: string, ctx: map<string, Value>, x: string, y: string)
    requires NoSpace(a) && NoSpace(op) && NoSpace(b) && a != "not"
    requires Resolve(a, ctx) == Ok(Scalar(x)) && Resolve(b, ctx) == Ok(Scalar(y))
    ensures IsTrue("if " + a + " " + op + " " + b, ctx) == Ok(if op == "==" then x == y else x != y)
  {
    SplitIfCompare(a, op, b);
    HoldsCompare(["if", a, op, b], ctx, x, y);
  }

  /** Comparing a list or a dictionary, on either side, throws "not a value". */
  lemma HoldsCompareNonValue(elements: seq<string>, ctx: map<string, Value>)
    requires |elements| >= 4 && elements[1] != "not"
    requires Resolve(elements[1], ctx).Ok? && Resolve(elements[3], ctx).Ok?
    requires !Resolve(elements[1], ctx).value.Scalar? || !Resolve(elements[3], ctx).value.Scalar?
    ensures Holds(elements, ctx) == Err(NotAValue)
  {
  }

  lemma IsTrueCompareNonValue(a: string, op: string, b: string, ctx: map<string, Value>)
    requires NoSpace(a) && NoSpace(op) && NoSpace(b) && a != "not"
    requires Resolve(a, ctx).Ok? && Resolve(b, ctx).Ok?
    requires !Resolve(a, ctx).value.Scalar? || !Resolve(b, ctx).value.Scalar?
    ensures IsTrue("if " + a + " " + op + " " + b, ctx) == Err(NotAValue)
  {
    SplitIfCompare(a, op, b);
    HoldsCompareNonValue(["if", a, op, b], ctx);
  }

  /** `if a op` with no fourth piece: `a` is resolved first, so what it throws is
      thrown, and only when it resolves is the missing piece read. */
  lemma IsTrueThreePieces(a: string, op: string, ctx: map<string, Value>)
    requires NoSpace(a) && NoSpace(op) && a != "not"
    ensures var v := Resolve(a, ctx);
      IsTrue("if " + a + " " + op, ctx) == if v.Err? then Err(v.error) else Err(IndexOutOfRange)
  {
    SplitIfOperand(a);
    SplitAfter("if " + a, op);
  }

  /** A key that is not bound resolves to its echo, which is never empty: `if x`
      holds and `if not x` does not. */
  lemma UnboundIsTrue(x: string, ctx: map<string, Value>)
    requires IsSegment(x) && NoSpace(x) && x != "not" && x !in ctx
    ensures IsTrue("if " + x, ctx) == Ok(true)
    ensures IsTrue("if not " + x, ctx) == Ok(false)
  {
    ResolvePlain(x, ctx);
    IsTrueOperand(x, ctx);
    IsTrueNot(x, ctx);
  }

  /** A conditional renders its children exactly when its expression holds, and
      writes nothing otherwise. */
  lemma IfRendersWhenTrue(expr: string, children: seq<Token>, ctx: map<string, Value>)
    ensures IsTrue(expr, ctx) == Ok(true) ==> EvalNode(If(expr, children), ctx) == EvalNodes(children, ctx)
    ensures IsTrue(expr, ctx) == Ok(false) ==> EvalNode(If(expr, children), ctx) == Output("", ctx, None)
    ensures IsTrue(expr, ctx).Err? ==> EvalNode(If(expr, children), ctx) == Output("", ctx, Some(IsTrue(expr, ctx).error))
  {
  }
}
