/** `parse`: tokenize a template, build the token tree, and render it against a
    dictionary. */
module Engine {
  import opened Failures
  import opened Strings
  import opened Data
  import opened Resolver
  import opened Tokens
  import opened Lexer
  import opened TreeBuilder
  import opened Evaluator

  /** `parse(stream, text, data)`: a template whose lexing throws writes nothing
      and leaves the dictionary alone; otherwise the top-level tree is rendered. */
  function Evaluate(text: string, ctx: map<string, Value>): (r: Output)
    ensures Lex(text).Err? ==> r == Output("", ctx, Some(BadForSyntax))
    ensures Lex(text).Ok? ==> Keeps(ctx, r.ctx, AllLoopNames(Tree(Lex(text).value, TypeNone).tree))
  {
    var tokens := Lex(text);
    if tokens.Err? then Output("", ctx, Some(tokens.error))
    else EvalNodes(Tree(tokens.value, TypeNone).tree, ctx)
  }

  /** `parse(stream, templ_text, data)`: what is written to the stream, and the
      exception that ended rendering, if one did. */
  method Parse(text: string, data: Context) returns (out: string, failure: Option<Error>)
    modifies data
    ensures Output(out, data.entries, failure) == Evaluate(text, old(data.entries))
  {
    var tokens := Tokenize(text);
    if tokens.Err? {
      return "", Some(tokens.error);
    }
    var queue := new TokenQueue(tokens.value);
    var tree := queue.ParseTree(TypeNone);
    out, failure := RenderNodes(tree, data);
  }

  /** `parse(templ_text, data)`: the rendered text, or the exception; the keys
      rebound before an exception stay rebound. */
  method ParseToString(text: string, data: Context) returns (r: Result<string>)
    modifies data
    ensures var o := Evaluate(text, old(data.entries));
      data.entries == o.ctx && r == if o.failure.Some? then Err(o.failure.value) else Ok(o.text)
  {
    var out, failure := Parse(text, data);
    r := if failure.Some? then Err(failure.value) else Ok(out);
  }

  /** Text without `{` renders to itself and changes nothing. */
  lemma PlainTextRendersItself(text: string, ctx: map<string, Value>)
    requires '{' !in text
    ensures Evaluate(text, ctx) == Output(text, ctx, None)
  {
    LexPlain(text);
    if text != [] {
      TreeFlat([Text(text)], TypeNone);
      EvalNodesSingle(Text(text), ctx);
    }
  }

  /** A variable that is not bound renders as itself. */
  lemma UnboundVariableEchoes(key: string, ctx: map<string, Value>)
    requires '}' !in key && IsSegment(key) && key !in ctx
    ensures Evaluate("{$" + key + "}", ctx) == Output("{$" + key + "}", ctx, None)
  {
    LexSingleVariable(key);
    TreeFlat([Var(key)], TypeNone);
    ResolvePlain(key, ctx);
    EvalNodesSingle(Var(key), ctx);
  }

  lemma LexSingleVariable(key: string)
    requires '}' !in key
    ensures Lex("{$" + key + "}") == Ok([Var(key)])
  {
    assert "" + "{$" + key + "}" + "" == "{$" + key + "}";
    assert Leading("") + [Var(key)] + [] == [Var(key)];
    LexVariable("", key, "");
  }

  /** An end marker with no block to close stays in the tree, and rendering it
      throws before the text after it is written. */
  lemma StrayEndThrows(m: string, t: string, ctx: map<string, Value>)
    requires NoSpace(m) && m != [] && m[0] != 'f' && m[0] != 'i' && '}' !in m && '{' !in t
    ensures Evaluate("{% " + m + " %}" + t, ctx) == Output("", ctx, Some(EndHasNoText))
  {
    LexEndDirective(m, t);
    LexPlain(t);
    assert [End(m)] + Leading(t) == [End(m)] + Leading(t);
    TreeFlat([End(m)] + Leading(t), TypeNone) by {
      assert forall k :: 0 <= k < |[End(m)] + Leading(t)| ==> Flat(([End(m)] + Leading(t))[k], TypeNone);
    }
    EndStopsRendering(m, Leading(t), ctx);
  }

  /** A for directive that does not split into four pieces makes the whole
      template throw before anything is written. */
  lemma BadForThrows(x: string, t: string, ctx: map<string, Value>)
    requires NoSpace(x) && x != [] && '}' !in x
    ensures Evaluate("{% for " + x + " %}" + t, ctx) == Output("", ctx, Some(BadForSyntax))
  {
    var body := " for " + x + " %";
    assert "{% for " + x + " %}" + t == "" + "{%" + body + "}" + t;
    BadForBody(x, body);
    LexDirective("", body, t);
  }

  lemma BadForBody(x: string, body: string)
    requires NoSpace(x) && x != [] && body == " for " + x + " %"
    ensures |body| >= 1 && Directive(Trim(body[..|body| - 1])) == Err(BadForSyntax)
  {
    var expression := "for " + x;
    assert body[..|body| - 1] == " " + expression + " ";
    TrimPadded(" ", expression, " ");
    BadForExpression(x);
  }

  /** `for x` splits into two pieces, not four. */
  lemma BadForExpression(x: string)
    requires NoSpace(x) && x != []
    ensures Directive("for " + x) == Err(BadForSyntax)
  {
    SplitUnwords(["for", x]);
    assert Unwords(["for", x]) == "for " + x by {
      assert ["for", x][..1] == ["for"];
    }
    assert ("for " + x)[..3] == "for";
  }

  /** The tokens of `{% for x in xs %}{$x}{% endfor %}`, then the text after it. */
  lemma LexLoopTemplate(x: string, xs: string, t: string)
    requires NoSpace(x) && NoSpace(xs) && xs != [] && '}' !in x && '}' !in xs && '{' !in t
    ensures Lex("{% for " + x + " in " + xs + " %}{$" + x + "}{% endfor %}" + t)
      == Ok([For(x, xs, []), Var(x), End("endfor")] + Leading(t))
  {
    var tail := "{$" + x + "}{% endfor %}" + t;
    assert "{% for " + x + " in " + xs + " %}{$" + x + "}{% endfor %}" + t == "{% for " + x + " in " + xs + " %}" + tail;
    assert [For(x, xs, [])] + ([Var(x), End("endfor")] + Leading(t)) == [For(x, xs, []), Var(x), End("endfor")] + Leading(t);
    LexLoopBody(x, t);
    LexForDirective(x, xs, tail);
  }

  /** The tokens of `{$x}{% endfor %}`, then the text after it. */
  lemma LexLoopBody(x: string, t: string)
    requires '}' !in x && '{' !in t
    ensures Lex("{$" + x + "}{% endfor %}" + t) == Ok([Var(x), End("endfor")] + Leading(t))
  {
    assert "" + "{$" + x + "}" + ("{% endfor %}" + t) == "{$" + x + "}{% endfor %}" + t;
    assert Leading("") + [Var(x)] == [Var(x)];
    assert [Var(x)] + ([End("endfor")] + Leading(t)) == [Var(x), End("endfor")] + Leading(t);
    LexLoopEnd(t);
    LexVariable("", x, "{% endfor %}" + t);
  }

  /** The tokens of `{% endfor %}`, then the text after it. */
  lemma LexLoopEnd(t: string)
    requires '{' !in t
    ensures Lex("{% endfor %}" + t) == Ok([End("endfor")] + Leading(t))
  {
    assert "{% " + "endfor" + " %}" + t == "{% endfor %}" + t;
    LexPlain(t);
    LexEndDirective("endfor", t);
  }

  /** The tokens of the loop template build the loop with the variable as its
      only child, followed by the text after it. */
  lemma LoopTemplateTree(x: string, xs: string, t: string)
    requires '{' !in t
    ensures Tree([For(x, xs, []), Var(x), End("endfor")] + Leading(t), TypeNone).tree == [For(x, xs, [Var(x)])] + Leading(t)
  {
    var loop := For(x, xs, [Var(x)]);
    assert NoEnds([loop]) by {
      assert NoEndsNode(Var(x));
      assert NoEnds([Var(x)]);
      assert NoEndsNode(loop);
    }
    assert Flatten([loop]) == [For(x, xs, []), Var(x), End("endfor")] by {
      assert Flatten([Var(x)]) == [Var(x)] by {
        assert [Var(x)][1..] == [];
      }
      assert [loop][1..] == [];
    }
    TreeFlatten([loop], Leading(t), TypeNone);
    TreeFlat(Leading(t), TypeNone);
  }

  /** `{% for x in xs %}{$x}{% endfor %}`, with `xs` bound to a list of strings,
      writes the strings one after the other, then the text after the loop. */
  lemma LoopTemplateRendersItems(x: string, xs: string, t: string, items: seq<Value>, ctx: map<string, Value>)
    requires NoSpace(x) && NoSpace(xs) && xs != [] && '}' !in x && '}' !in xs && IsSegment(x) && '{' !in t
    requires Resolve(xs, ctx) == Ok(List(items))
    requires forall k :: 0 <= k < |items| ==> items[k].Scalar?
    ensures Evaluate("{% for " + x + " in " + xs + " %}{$" + x + "}{% endfor %}" + t, ctx).failure.None?
    ensures Evaluate("{% for " + x + " in " + xs + " %}{$" + x + "}{% endfor %}" + t, ctx).text == Texts(items) + t
  {
    LexLoopTemplate(x, xs, t);
    var loop := For(x, xs, [Var(x)]);
    LoopTemplateTree(x, xs, t);
    EvalNodesAppend([loop], Leading(t), ctx);
    EvalNodesSingle(loop, ctx);
    LoopOverItems(x, xs, items, ctx);
    var after := EvalNode(loop, ctx).ctx;
    if t != [] {
      EvalNodesSingle(Text(t), after);
    } else {
      assert Texts(items) + t == Texts(items) + "";
    }
  }
}
