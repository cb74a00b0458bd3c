/** The template tokens `TokenText`, `TokenVar`, `TokenFor`, `TokenIf` and
    `TokenEnd`, their `gettype` and the `set_children`/`get_children` accessors. */
module Tokens {
  import opened Failures
  import opened Strings

  /** `enum TokenType` */
  datatype TokenType =
    | TypeNone
    | TypeText
    | TypeVar
    | TypeIf
    | TypeFor
    | TypeEndIf
    | TypeEndFor

  datatype Token =
    | Text(text: string)                                           // literal output
    | Var(key: string)                                             // {$key}
    | For(variable: string, source: string, children: seq<Token>)  // {% for variable in source %}
    | If(expr: string, children: seq<Token>)                       // {% if ... %}
    | End(marker: string)                                          // {% endfor %}, {% endif %}, ...

  /** `gettype()`: an end token is an ENDFOR marker exactly when its text is
      `endfor`, and an ENDIF marker otherwise. */
  function TypeOf(t: Token): (r: TokenType)
    ensures r == TypeEndFor <==> t.End? && t.marker == "endfor"
    ensures r == TypeEndIf <==> t.End? && t.marker != "endfor"
    ensures r != TypeNone
    ensures r == TypeFor <==> t.For?
    ensures r == TypeIf <==> t.If?
  {
    match t
    case Text(_) => TypeText
    case Var(_) => TypeVar
    case For(_, _, _) => TypeFor
    case If(_, _) => TypeIf
    case End(marker) => if marker == "endfor" then TypeEndFor else TypeEndIf
  }

  /** The `TokenFor` constructor: the expression must split on white space into
      exactly four pieces; the second names the loop variable and the fourth the
      list to loop over. The first and third pieces are not checked. */
  function MakeFor(expr: string): (r: Result<Token>)
    ensures r.Ok? <==> |Split(expr)| == 4
    ensures r.Err? ==> r.error == BadForSyntax
    ensures r.Ok? ==> r.value == For(Split(expr)[1], Split(expr)[3], [])
  {
    var elements := Split(expr);
    if |elements| != 4 then Err(BadForSyntax)
    else Ok(For(elements[1], elements[3], []))
  }

  /** `for x in xs`, written with single spaces, gives a loop over `xs` binding `x`. */
  lemma MakeForWords(x: string, xs: string)
    requires NoSpace(x) && NoSpace(xs)
    ensures MakeFor("for " + x + " in " + xs) == Ok(For(x, xs, []))
  {
    var words := ["for", x, "in", xs];
    SplitUnwords(words);
    assert words[..3] == ["for", x, "in"] && words[..3][..2] == ["for", x] && words[..3][..2][..1] == ["for"];
    assert Unwords(["for"]) == "for";
    assert Unwords(["for", x]) == "for" + " " + x;
    assert Unwords(["for", x, "in"]) == "for" + " " + x + " " + "in";
    assert Unwords(words) == "for" + " " + x + " " + "in" + " " + xs;
    assert "for" + " " + x + " " + "in" + " " + xs == "for " + x + " in " + xs;
  }

  /** The number of pieces counts the separators: a doubled space between the words
      of a for directive makes the constructor throw. */
  lemma MakeForCountsSeparators(expr: string)
    ensures MakeFor(expr).Ok? <==> |Separators(expr)| == 3
  {
  }

  /** `set_children`: only loops and conditionals hold children. */
  function SetChildren(t: Token, children: seq<Token>): (r: Result<Token>)
    ensures r.Ok? <==> t.For? || t.If?
    ensures r.Err? ==> r.error == NoChildren
  {
    match t
    case For(variable, source, _) => Ok(For(variable, source, children))
    case If(expr, _) => Ok(If(expr, children))
    case _ => Err(NoChildren)
  }

  /** `get_children` */
  function GetChildren(t: Token): (r: Result<seq<Token>>)
    ensures r.Ok? <==> t.For? || t.If?
    ensures r.Err? ==> r.error == NoChildren
  {
    if t.For? || t.If? then Ok(t.children) else Err(NoChildren)
  }

  /** Children that were set are the children that are read back, and setting
      them changes nothing else about the token. */
  lemma SetThenGetChildren(t: Token, children: seq<Token>)
    requires t.For? || t.If?
    ensures SetChildren(t, children).Ok?
    ensures GetChildren(SetChildren(t, children).value) == Ok(children)
    ensures TypeOf(SetChildren(t, children).value) == TypeOf(t)
    ensures SetChildren(SetChildren(t, children).value, t.children) == Ok(t)
  {
  }
}
