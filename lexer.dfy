/** `tokenize`: template text to a flat sequence of tokens. */
module Lexer {
  import opened Failures
  import opened Strings
  import opened Tokens

  /** The token a `{% ... %}` directive makes of its trimmed expression. */
  function Directive(expression: string): (r: Result<Token>)
    ensures StartsWith(expression, "for") ==> r == MakeFor(expression)
    ensures !StartsWith(expression, "for") ==> r.Ok?
    ensures r.Ok? && r.value.If? <==> !StartsWith(expression, "for") && StartsWith(expression, "if")
    ensures r.Ok? && r.value.If? ==> r.value == If(expression, [])
    ensures r.Ok? && r.value.End? <==> !StartsWith(expression, "for") && !StartsWith(expression, "if")
    ensures r.Ok? && r.value.End? ==> (TypeOf(r.value) == TypeEndFor <==> Trim(expression) == "endfor")
  {
    if StartsWith(expression, "for") then MakeFor(expression)
    else if StartsWith(expression, "if") then Ok(If(expression, []))
    else Ok(End(Trim(expression)))
  }

  /** The text before a `{` as a token, when there is any. */
  function Leading(pre: string): seq<Token> {
    if pre == [] then [] else [Text(pre)]
  }

  /** Where the expression of a directive ends, given the position `close` of its
      `}` after the `{` is erased (`close >= 1`, since position 0 holds the `%`).
      The expression is `substr(1, close - 2)`: for `close == 1` the unsigned count
      wraps to the largest `size_t` and the substring runs to the end. */
  function ExprEnd(close: nat, length: nat): nat {
    if close >= 2 then close - 1 else length
  }

  /** What one pass of the scanning loop does. */
  datatype Scan =
    | Emit(tokens: seq<Token>, rest: string)  // tokens emitted, scanning goes on with `rest`
    | Finish(tokens: seq<Token>)              // the last tokens, then the loop breaks
    | Stop(error: Error)                      // the `TokenFor` constructor threw

  /** A token as the lexer makes it: loops and conditionals have no children yet,
      and literal text is never empty. */
  predicate Unnested(t: Token) {
    (t.For? || t.If? ==> t.children == []) && (t.Text? ==> t.text != [])
  }

  predicate AllUnnested(tokens: seq<Token>) {
    forall k :: 0 <= k < |tokens| ==> Unnested(tokens[k])
  }

  /** What a pass leaves, as the loop needs it: progress, and tokens as the lexer makes them. */
  predicate Scanned(r: Scan, text: string) {
    (r.Emit? ==> |r.rest| < |text|) && (!r.Stop? ==> AllUnnested(r.tokens))
  }

  /** One pass of the loop in `tokenize` over a non-empty `text`. */
  function Step(text: string): (r: Scan)
    requires text != []
    ensures Scanned(r, text)
  {
    match Find(text, '{')
    case None => Finish([Text(text)])
    case Some(pos) =>
      var pre := Leading(text[..pos]);
      if pos == |text| - 1 then Finish(pre + [Text("{")])
      else AfterBrace(pre, text[pos + 1..])
  }

  /** The rest of a pass once the `{` is erased: `rest` is what follows it. */
  function AfterBrace(pre: seq<Token>, rest: string): (r: Scan)
    requires rest != [] && AllUnnested(pre)
    ensures Scanned(r, rest) || (r.Emit? && r.rest == rest && AllUnnested(r.tokens))
  {
    if rest[0] == '$' then
      match Find(rest, '}')
      case None => Emit(pre, rest)
      case Some(close) => Emit(pre + [Var(rest[1..close])], rest[close + 1..])
    else if rest[0] == '%' then
      match Find(rest, '}')
      case None => Emit(pre, rest)
      case Some(close) => Control(pre, rest, close)
    else Emit(pre + [Text("{")], rest)
  }

  /** A control statement `%...}` whose `}` is at position `close` of `rest`. */
  function Control(pre: seq<Token>, rest: string, close: nat): (r: Scan)
    requires 1 <= close < |rest| && AllUnnested(pre)
    ensures Scanned(r, rest)
  {
    var expression := Trim(rest[1..ExprEnd(close, |rest|)]);
    match Directive(expression)
    case Err(e) => Stop(e)
    case Ok(token) =>
      DirectiveUnnested(expression);
      UnnestedAppend(pre, token);
      Emit(pre + [token], rest[close + 1..])
  }

  /** A directive makes a token with no children. */
  lemma DirectiveUnnested(expression: string)
    requires Directive(expression).Ok?
    ensures Unnested(Directive(expression).value)
  {
  }

  lemma UnnestedAppend(pre: seq<Token>, token: Token)
    requires AllUnnested(pre) && Unnested(token)
    ensures AllUnnested(pre + [token])
  {
    assert forall k :: 0 <= k < |pre| ==> (pre + [token])[k] == pre[k];
  }

  /** Tokens emitted so far in front of the outcome of the rest of the scan. */
  function Extend(prefix: seq<Token>, r: Result<seq<Token>>): Result<seq<Token>> {
    if r.Err? then r else Ok(prefix + r.value)
  }

  lemma ExtendAssociative(a: seq<Token>, b: seq<Token>, r: Result<seq<Token>>)
    ensures Extend(a, Extend(b, r)) == Extend(a + b, r)
  {
    if r.Ok? {
      assert a + (b + r.value) == (a + b) + r.value;
    }
  }

  /** The tokens of a template. */
  function Lex(text: string): (r: Result<seq<Token>>)
    ensures r.Err? ==> r.error == BadForSyntax
    ensures r.Ok? ==> AllUnnested(r.value)
    decreases |text|
  {
    if text == [] then Ok([])
    else match Step(text)
      case Finish(tokens) => Ok(tokens)
      case Stop(e) => Err(e)
      case Emit(tokens, rest) => Extend(tokens, Lex(rest))
  }

  /** The body of the scanning loop in `tokenize`: the tokens one pass appends,
      and the text left for the next pass. */
  method ScanPass(text: string) returns (r: Scan)
    requires text != []
    ensures r == Step(text)
  {
    var found := Find(text, '{');
    if found.None? {
      return Finish([Text(text)]);
    }
    var pos := found.value;
    var tokens: seq<Token> := [];
    if pos > 0 {
      tokens := tokens + [Text(text[..pos])];
    }
    assert tokens == Leading(text[..pos]);
    if pos == |text| - 1 {
      return Finish(tokens + [Text("{")]);
    }
    r := ScanBrace(tokens, text[pos + 1..]);
  }

  /** The pass once the `{` at the front of `rest` is erased. */
  method ScanBrace(tokens: seq<Token>, rest: string) returns (r: Scan)
    requires rest != [] && AllUnnested(tokens)
    ensures r == AfterBrace(tokens, rest)
  {
    if rest[0] == '$' {
      var close := Find(rest, '}');
      if close.Some? {
        return Emit(tokens + [Var(rest[1..close.value])], rest[close.value + 1..]);
      }
    } else if rest[0] == '%' {
      var close := Find(rest, '}');
      if close.Some? {
        r := ScanControl(tokens, rest, close.value);
        return;
      }
    } else {
      return Emit(tokens + [Text("{")], rest);
    }
    return Emit(tokens, rest);
  }

  /** A control statement: the expression is trimmed and checked for `for` and
      `if`; anything else is an end marker, whose text is trimmed once more. */
  method ScanControl(tokens: seq<Token>, rest: string, close: nat) returns (r: Scan)
    requires 1 <= close < |rest| && AllUnnested(tokens)
    ensures r == Control(tokens, rest, close)
  {
    var expression := Trim(rest[1..ExprEnd(close, |rest|)]);
    var token: Token;
    if StartsWith(expression, "for") {
      var made := MakeFor(expression);
      if made.Err? {
        return Stop(made.error);
      }
      token := made.value;
    } else if StartsWith(expression, "if") {
      token := If(expression, []);
    } else {
      expression := Trim(expression);
      token := End(expression);
    }
    return Emit(tokens + [token], rest[close + 1..]);
  }

  /** `tokenize(text, tokens)` with `tokens` empty on entry: passes over the text
      until it is used up, a pass breaks out of the loop, or a constructor throws. */
  method Tokenize(template: string) returns (r: Result<seq<Token>>)
    ensures r == Lex(template)
  {
    var text := template;
    var tokens: seq<Token> := [];
    assert Lex(template).Ok? ==> [] + Lex(template).value == Lex(template).value;
    while text != []
      invariant Lex(template) == Extend(tokens, Lex(text))
      decreases |text|
    {
      var pass := ScanPass(text);
      match pass
      case Finish(emitted) =>
        return Ok(tokens + emitted);
      case Stop(e) =>
        return Err(e);
      case Emit(emitted, rest) =>
        ExtendAssociative(tokens, emitted, Lex(rest));
        tokens, text := tokens + emitted, rest;
    }
    assert tokens + [] == tokens;
    return Ok(tokens);
  }

  /** Template text without `{` is one literal token, or none when it is empty. */
  lemma LexPlain(s: string)
    requires '{' !in s
    ensures Lex(s) == Ok(Leading(s))
  {
  }

  /** A pass starts after the first `{`, with the text before it as a literal token. */
  lemma StepAt(s: string, rest: string)
    requires '{' !in s && rest != []
    ensures Step(s + "{" + rest) == AfterBrace(Leading(s), rest)
  {
    var text := s + "{" + rest;
    assert text[|s|] == '{' && text[..|s|] == s && text[|s| + 1..] == rest;
    FindFirst(text, '{', |s|);
  }

  /** A `{` as the last character is kept as literal text. */
  lemma LexTrailingBrace(s: string)
    requires '{' !in s
    ensures Lex(s + "{") == Ok(Leading(s) + [Text("{")])
  {
    FindFirst(s + "{", '{', |s|);
    assert (s + "{")[..|s|] == s;
  }

  /** A `{` followed by anything but `$` or `%` is kept as literal text, and the
      scan resumes at the character after it. */
  lemma LexStrayBrace(s: string, c: char, t: string)
    requires '{' !in s && c != '$' && c != '%'
    ensures Lex(s + ['{', c] + t) == Extend(Leading(s) + [Text("{")], Lex([c] + t))
  {
    assert s + ['{', c] + t == s + "{" + ([c] + t);
    StepAt(s, [c] + t);
  }

  /** After `{`, `$k}` is a variable token naming the raw text up to the first `}`. */
  lemma AfterBraceVariable(pre: seq<Token>, k: string, t: string)
    requires AllUnnested(pre) && '}' !in k
    ensures AfterBrace(pre, "$" + k + "}" + t) == Emit(pre + [Var(k)], t)
  {
    var rest := "$" + k + "}" + t;
    assert rest[|k| + 1] == '}' && rest[..|k| + 1] == "$" + k;
    FindFirst(rest, '}', |k| + 1);
    assert rest[1..|k| + 1] == k && rest[|k| + 2..] == t;
  }

  /** `{$k}` is a variable token naming the raw text between `$` and the first `}`. */
  lemma LexVariable(s: string, k: string, t: string)
    requires '{' !in s && '}' !in k
    ensures Lex(s + "{$" + k + "}" + t) == Extend(Leading(s) + [Var(k)], Lex(t))
  {
    var rest := "$" + k + "}" + t;
    assert s + "{$" + k + "}" + t == s + "{" + rest;
    StepAt(s, rest);
    AfterBraceVariable(Leading(s), k, t);
  }

  /** A `{$` or `{%` with no `}` after it: only the `{` is dropped and the rest
      is scanned again as ordinary text. */
  lemma LexUnclosed(s: string, c: char, t: string)
    requires '{' !in s && (c == '$' || c == '%') && '}' !in t
    ensures Lex(s + ['{', c] + t) == Extend(Leading(s), Lex([c] + t))
  {
    assert s + ['{', c] + t == s + "{" + ([c] + t);
    StepAt(s, [c] + t);
  }

  /** After `{`, a control statement `%body}` runs the directive on `body` without
      its last character, trimmed. */
  lemma AfterBraceDirective(pre: seq<Token>, body: string, t: string)
    requires AllUnnested(pre) && '}' !in body && |body| >= 1
    ensures var d := Directive(Trim(body[..|body| - 1]));
      AfterBrace(pre, "%" + body + "}" + t) == if d.Err? then Stop(d.error) else Emit(pre + [d.value], t)
  {
    var rest := "%" + body + "}" + t;
    var close := |body| + 1;
    assert rest[close] == '}' && rest[..close] == "%" + body;
    FindFirst(rest, '}', close);
    assert rest[1..ExprEnd(close, |rest|)] == body[..|body| - 1] && rest[close + 1..] == t;
  }

  /** `{%body}`: the expression is `body` without its last character, trimmed. */
  lemma LexDirective(s: string, body: string, t: string)
    requires '{' !in s && '}' !in body && |body| >= 1
    ensures var d := Directive(Trim(body[..|body| - 1]));
      Lex(s + "{%" + body + "}" + t) == if d.Err? then Err(d.error) else Extend(Leading(s) + [d.value], Lex(t))
  {
    var rest := "%" + body + "}" + t;
    assert s + "{%" + body + "}" + t == s + "{" + rest;
    StepAt(s, rest);
    AfterBraceDirective(Leading(s), body, t);
  }

  /** An expression that starts with neither `f` nor `i` is an end marker. */
  lemma DirectiveEnd(expression: string)
    requires expression != [] && expression[0] != 'f' && expression[0] != 'i'
    ensures Directive(expression) == Ok(End(Trim(expression)))
  {
    assert !StartsWith(expression, "for") && !StartsWith(expression, "if") by {
      if |expression| >= 2 { assert expression[..2][0] == expression[0]; }
      if |expression| >= 3 { assert expression[..3][0] == expression[0]; }
    }
  }

  /** After `{`, `%}` is an end marker whose text runs from the `}` to the end, trimmed. */
  lemma AfterBraceEmptyDirective(pre: seq<Token>, t: string)
    requires AllUnnested(pre)
    ensures AfterBrace(pre, "%}" + t) == Emit(pre + [End(Trim("}" + t))], t)
  {
    var rest := "%}" + t;
    EmptyDirectiveSpan(t);
    AfterBraceControl(pre, rest, 1);
    EmptyDirectiveExpression(t);
    ControlMakes(pre, rest, 1, End(Trim("}" + t)));
  }

  /** After `{`, `%` and a `}` at `close` is a control statement. */
  lemma AfterBraceControl(pre: seq<Token>, rest: string, close: nat)
    requires AllUnnested(pre) && rest != [] && rest[0] == '%' && Find(rest, '}') == Some(close) && close >= 1
    ensures AfterBrace(pre, rest) == Control(pre, rest, close)
  {
  }

  /** A control statement whose directive makes `token` emits it after `pre`. */
  lemma ControlMakes(pre: seq<Token>, rest: string, close: nat, token: Token)
    requires 1 <= close < |rest| && AllUnnested(pre)
    requires Directive(Trim(rest[1..ExprEnd(close, |rest|)])) == Ok(token)
    ensures Control(pre, rest, close) == Emit(pre + [token], rest[close + 1..])
  {
  }

  /** In `%}t` the first `}` is at position 1, and the expression runs to the end. */
  lemma EmptyDirectiveSpan(t: string)
    ensures ("%}" + t)[0] == '%' && Find("%}" + t, '}') == Some(1)
    ensures ("%}" + t)[1..ExprEnd(1, |"%}" + t|)] == "}" + t && ("%}" + t)[2..] == t
  {
    var rest := "%}" + t;
    assert rest[1] == '}' && rest[..1] == "%";
    FindFirst(rest, '}', 1);
  }

  lemma EmptyDirectiveExpression(t: string)
    ensures Directive(Trim("}" + t)) == Ok(End(Trim("}" + t)))
  {
    var e := Trim("}" + t);
    TrimStartsWith("}" + t);
    DirectiveEnd(e);
    TrimIdempotent("}" + t);
  }

  /** `{%}`: the wrapped count makes the expression run from the `}` to the end of the
      template, and the scan goes on after the `}`. */
  lemma LexEmptyDirective(s: string, t: string)
    requires '{' !in s
    ensures Lex(s + "{%}" + t) == Extend(Leading(s) + [End(Trim("}" + t))], Lex(t))
  {
    var rest := "%}" + t;
    assert s + "{%}" + t == s + "{" + rest;
    StepAt(s, rest);
    AfterBraceEmptyDirective(Leading(s), t);
  }

  /** The marker `{%}` makes is an ENDIF marker, as an empty expression would be. */
  lemma EmptyDirectiveEndsIf(t: string)
    ensures TypeOf(End(Trim("}" + t))) == TypeOf(End(Trim(""))) == TypeEndIf
  {
    TrimStartsWith("}" + t);
    assert Trim("") == "";
  }

  /** `{% m %}` for a single word `m` that starts with neither `f` nor `i` is an
      end marker whose text is `m`. */
  lemma LexEndDirective(m: string, t: string)
    requires NoSpace(m) && m != [] && m[0] != 'f' && m[0] != 'i' && '}' !in m
    ensures Lex("{% " + m + " %}" + t) == Extend([End(m)], Lex(t))
  {
    var body := " " + m + " %";
    assert "{% " + m + " %}" + t == "" + "{%" + body + "}" + t;
    LexEndMarkerBody(m, body, t);
  }

  lemma LexEndMarkerBody(m: string, body: string, t: string)
    requires NoSpace(m) && m != [] && m[0] != 'f' && m[0] != 'i' && '}' !in m && body == " " + m + " %"
    ensures Lex("" + "{%" + body + "}" + t) == Extend([End(m)], Lex(t))
  {
    EndMarkerBody(m, body);
    LexFirstDirective(body, t, End(m));
  }

  /** A template that starts with a directive making `token`. */
  lemma LexFirstDirective(body: string, t: string, token: Token)
    requires '}' !in body && |body| >= 1 && Directive(Trim(body[..|body| - 1])) == Ok(token)
    ensures Lex("" + "{%" + body + "}" + t) == Extend([token], Lex(t))
  {
    assert Leading("") + [token] == [token];
    LexDirective("", body, t);
  }

  lemma EndMarkerBody(m: string, body: string)
    requires NoSpace(m) && m != [] && m[0] != 'f' && m[0] != 'i' && '}' !in m && body == " " + m + " %"
    ensures '}' !in body && |body| >= 1 && Directive(Trim(body[..|body| - 1])) == Ok(End(m))
  {
    Padded(" ", m, " %");
    EndMarkerExpression(m, body);
  }

  /** Text padded with characters other than `}` has a `}` only where the text has one. */
  lemma Padded(lead: string, x: string, trail: string)
    requires '}' !in lead && '}' !in x && '}' !in trail
    ensures '}' !in lead + x + trail
  {
  }

  lemma EndMarkerExpression(m: string, body: string)
    requires NoSpace(m) && m != [] && m[0] != 'f' && m[0] != 'i' && body == " " + m + " %"
    ensures |body| >= 1 && Directive(Trim(body[..|body| - 1])) == Ok(End(m))
  {
    assert body[..|body| - 1] == " " + m + " ";
    TrimPadded(" ", m, " ");
    DirectiveEnd(m);
    TrimPadded([], m, []);
    assert [] + m + [] == m;
  }

  /** `{% for x in xs %}` with single spaces is a loop over `xs` binding `x`. */
  lemma LexForDirective(x: string, xs: string, t: string)
    requires NoSpace(x) && NoSpace(xs) && xs != [] && '}' !in x && '}' !in xs
    ensures Lex("{% for " + x + " in " + xs + " %}" + t) == Extend([For(x, xs, [])], Lex(t))
  {
    var body := " for " + x + " in " + xs + " %";
    assert "{% for " + x + " in " + xs + " %}" + t == "" + "{%" + body + "}" + t;
    ForBody(x, xs, body);
    LexFirstDirective(body, t, For(x, xs, []));
  }

  lemma ForBody(x: string, xs: string, body: string)
    requires NoSpace(x) && NoSpace(xs) && xs != [] && '}' !in x && '}' !in xs && body == " for " + x + " in " + xs + " %"
    ensures '}' !in body && |body| >= 1 && Directive(Trim(body[..|body| - 1])) == Ok(For(x, xs, []))
  {
    var words := " for " + x + " in ";
    Padded(" for ", x, " in ");
    Padded(words, xs, " %");
    assert body == words + xs + " %";
    var expression := "for " + x + " in " + xs;
    assert body[..|body| - 1] == " " + expression + " ";
    assert expression[..3] == "for";
    TrimPadded(" ", expression, " ");
    MakeForWords(x, xs);
  }
}
