/** `parse_tree`: the flat token sequence of `tokenize` to a tree in which every
    loop and conditional holds the tokens up to its end marker as children. */
module TreeBuilder {
  import opened Failures
  import opened Tokens

  /** The tree built so far, and the tokens left in the queue. */
  datatype Parsed = Parsed(tree: seq<Token>, rest: seq<Token>)

  /** The type of end marker a `for` or an `if` collects its children up to. */
  function Closer(kind: TokenType): TokenType {
    if kind == TypeFor then TypeEndFor else TypeEndIf
  }

  /** `parse_tree(tokens, tree, until)` on an empty `tree`: tokens are taken from
      the front; a loop or a conditional first collects its children up to its own
      end marker; a token of type `until` is dropped and stops the pass; any other
      token goes into the tree. The pass never leaves more than it was given. */
  function Tree(tokens: seq<Token>, until: TokenType): (r: Parsed)
    ensures |r.rest| <= |tokens|
    decreases |tokens|
  {
    if tokens == [] then Parsed([], [])
    else
      var token := tokens[0];
      var kind := TypeOf(token);
      if kind == TypeFor || kind == TypeIf then
        var inner := Tree(tokens[1..], Closer(kind));
        var node := SetChildren(token, inner.tree).value;
        var after := Tree(inner.rest, until);
        Parsed([node] + after.tree, after.rest)
      else if kind == until then Parsed([], tokens[1..])
      else
        var after := Tree(tokens[1..], until);
        Parsed([token] + after.tree, after.rest)
  }

  /** Nodes already in the tree in front of what a further pass builds. */
  function Glue(prefix: seq<Token>, p: Parsed): Parsed {
    Parsed(prefix + p.tree, p.rest)
  }

  lemma GlueGlue(a: seq<Token>, b: seq<Token>, p: Parsed)
    ensures Glue(a, Glue(b, p)) == Glue(a + b, p)
  {
    assert a + (b + p.tree) == (a + b) + p.tree;
  }

  /** A loop or conditional at the front collects its children, then the pass goes on. */
  lemma TreeNested(tokens: seq<Token>, until: TokenType)
    requires tokens != [] && (tokens[0].For? || tokens[0].If?)
    ensures var inner := Tree(tokens[1..], Closer(TypeOf(tokens[0])));
      Tree(tokens, until) == Glue([SetChildren(tokens[0], inner.tree).value], Tree(inner.rest, until))
  {
  }

  /** Any other token at the front goes into the tree unless it is a terminator. */
  lemma TreeSingle(tokens: seq<Token>, until: TokenType)
    requires tokens != [] && !tokens[0].For? && !tokens[0].If?
    ensures TypeOf(tokens[0]) == until ==> Tree(tokens, until) == Parsed([], tokens[1..])
    ensures TypeOf(tokens[0]) != until ==> Tree(tokens, until) == Glue([tokens[0]], Tree(tokens[1..], until))
  {
  }

  /** The queue of tokens `parse_tree` takes from, in place. */
  class TokenQueue {
    var tokens: seq<Token>

    constructor (tokens: seq<Token>)
      ensures this.tokens == tokens
    {
      this.tokens := tokens;
    }

    /** `parse_tree(tokens, tree, until)`: the tree built, with the queue left
        holding exactly the tokens the pass did not consume. */
    method ParseTree(until: TokenType) returns (tree: seq<Token>)
      modifies this
      ensures Parsed(tree, tokens) == Tree(old(tokens), until)
      decreases |tokens|
    {
      tree := [];
      assert Tree(tokens, until) == Glue(tree, Tree(tokens, until));
      while tokens != []
        invariant |tokens| <= |old(tokens)|
        invariant Tree(old(tokens), until) == Glue(tree, Tree(tokens, until))
        decreases |tokens|
      {
        var token := tokens[0];
        ghost var before := tokens;
        tokens := tokens[1..];
        var kind := TypeOf(token);
        if kind == TypeFor || kind == TypeIf {
          TreeNested(before, until);
          var children := ParseTree(Closer(kind));
          token := SetChildren(token, children).value;
        } else {
          TreeSingle(before, until);
          if kind == until {
            assert tree + [] == tree;
            return;
          }
        }
        GlueGlue(tree, [token], Tree(tokens, until));
        tree := tree + [token];
      }
      assert tree + [] == tree;
    }
  }

  /** A type `parse_tree` is called with: none at the top level, or an end marker. */
  predicate IsUntil(until: TokenType) {
    until == TypeNone || until == TypeEndFor || until == TypeEndIf
  }

  /** What a pass leaves is a suffix of its input. */
  lemma {:induction false} TreeRestIsSuffix(tokens: seq<Token>, until: TokenType)
    ensures Tree(tokens, until).rest == tokens[|tokens| - |Tree(tokens, until).rest|..]
    decreases |tokens|
  {
    if tokens != [] {
      var kind := TypeOf(tokens[0]);
      if kind == TypeFor || kind == TypeIf {
        var inner := Tree(tokens[1..], Closer(kind));
        TreeRestIsSuffix(tokens[1..], Closer(kind));
        TreeRestIsSuffix(inner.rest, until);
      } else if kind != until {
        TreeRestIsSuffix(tokens[1..], until);
      }
    }
  }

  /** With no token of type `until` in the queue, the pass takes every token. */
  lemma {:induction false} TreeConsumesAll(tokens: seq<Token>, until: TokenType)
    requires forall k :: 0 <= k < |tokens| ==> TypeOf(tokens[k]) != until
    ensures Tree(tokens, until).rest == []
    decreases |tokens|
  {
    if tokens != [] {
      var kind := TypeOf(tokens[0]);
      if kind == TypeFor || kind == TypeIf {
        var inner := Tree(tokens[1..], Closer(kind));
        TreeRestIsSuffix(tokens[1..], Closer(kind));
        assert forall k :: 0 <= k < |inner.rest| ==> inner.rest[k] == tokens[|tokens| - |inner.rest| + k];
        TreeConsumesAll(inner.rest, until);
      } else {
        assert forall k :: 0 <= k < |tokens[1..]| ==> tokens[1..][k] == tokens[k + 1];
        TreeConsumesAll(tokens[1..], until);
      }
    }
  }

  /** At the top level every token ends up in the tree: nothing is left over. */
  lemma TopLevelConsumesAll(tokens: seq<Token>)
    ensures Tree(tokens, TypeNone).rest == []
  {
    TreeConsumesAll(tokens, TypeNone);
  }

  /** A loop or conditional whose end marker never comes takes every token after
      it as its children, and the pass ends with it. */
  lemma OpenerWithoutEnd(tokens: seq<Token>, until: TokenType)
    requires tokens != [] && (tokens[0].For? || tokens[0].If?)
    requires forall k :: 1 <= k < |tokens| ==> TypeOf(tokens[k]) != Closer(TypeOf(tokens[0]))
    ensures Tree(tokens, until) == Parsed([SetChildren(tokens[0], Tree(tokens[1..], Closer(TypeOf(tokens[0]))).tree).value], [])
  {
    var closer := Closer(TypeOf(tokens[0]));
    assert forall k :: 0 <= k < |tokens[1..]| ==> tokens[1..][k] == tokens[k + 1];
    TreeConsumesAll(tokens[1..], closer);
    TreeNested(tokens, until);
  }

  /** Neither a loop nor a conditional, nor a token of type `until`. */
  predicate Flat(t: Token, until: TokenType) {
    !t.For? && !t.If? && TypeOf(t) != until
  }

  /** Tokens without loops, conditionals or terminators are the tree as they are;
      in particular a stray end marker at the top level stays in the tree. */
  lemma {:induction false} TreeFlat(tokens: seq<Token>, until: TokenType)
    requires forall k :: 0 <= k < |tokens| ==> Flat(tokens[k], until)
    ensures Tree(tokens, until) == Parsed(tokens, [])
    decreases |tokens|
  {
    if tokens != [] {
      assert forall k :: 0 <= k < |tokens[1..]| ==> tokens[1..][k] == tokens[k + 1];
      TreeFlat(tokens[1..], until);
      assert tokens == [tokens[0]] + tokens[1..];
    }
  }

  /** A terminator after flat tokens closes the pass: the tokens before it are the
      tree, the terminator is dropped and the tokens after it are left. */
  lemma {:induction false} TreeStops(before: seq<Token>, terminator: Token, after: seq<Token>, until: TokenType)
    requires forall k :: 0 <= k < |before| ==> Flat(before[k], until)
    requires TypeOf(terminator) == until && !terminator.For? && !terminator.If?
    ensures Tree(before + [terminator] + after, until) == Parsed(before, after)
    decreases |before|
  {
    var tokens := before + [terminator] + after;
    if before == [] {
      assert tokens[1..] == after;
    } else {
      assert tokens[0] == before[0] && tokens[1..] == before[1..] + [terminator] + after;
      assert forall k :: 0 <= k < |before[1..]| ==> before[1..][k] == before[k + 1];
      TreeStops(before[1..], terminator, after, until);
      assert before == [before[0]] + before[1..];
    }
  }

  /** A tree written back out as tokens: each loop and conditional is followed by
      the tokens of its children and an `endfor` or `endif` marker. */
  function Flatten(tree: seq<Token>): seq<Token>
    decreases tree
  {
    if tree == [] then [] else FlattenNode(tree[0]) + Flatten(tree[1..])
  }

  function FlattenNode(t: Token): seq<Token>
    decreases t
  {
    match t
    case For(variable, source, children) => [For(variable, source, [])] + Flatten(children) + [End("endfor")]
    case If(expr, children) => [If(expr, [])] + Flatten(children) + [End("endif")]
    case _ => [t]
  }

  /** A tree with no end markers in it, at any depth: the trees `parse_tree` builds
      from well-nested templates. */
  predicate NoEnds(tree: seq<Token>)
    decreases tree
  {
    forall k :: 0 <= k < |tree| ==> NoEndsNode(tree[k])
  }

  predicate NoEndsNode(t: Token)
    decreases t
  {
    !t.End? && (t.For? || t.If? ==> NoEnds(t.children))
  }

  /** Building the tree undoes flattening: the written-out tokens of a tree are
      parsed back into that tree, and the pass goes on with what follows them. */
  lemma {:induction false} TreeFlatten(tree: seq<Token>, after: seq<Token>, until: TokenType)
    requires NoEnds(tree) && IsUntil(until)
    ensures Tree(Flatten(tree) + after, until) == Glue(tree, Tree(after, until))
    decreases tree
  {
    if tree == [] {
      assert Flatten(tree) + after == after;
      assert [] + Tree(after, until).tree == Tree(after, until).tree;
    } else {
      var rest := Flatten(tree[1..]) + after;
      assert Flatten(tree) + after == FlattenNode(tree[0]) + rest;
      assert NoEndsNode(tree[0]);
      assert NoEnds(tree[1..]) by {
        assert forall k :: 0 <= k < |tree[1..]| ==> tree[1..][k] == tree[k + 1];
      }
      TreeFlattenNode(tree[0], rest, until);
      TreeFlatten(tree[1..], after, until);
      GlueGlue([tree[0]], tree[1..], Tree(after, until));
      assert [tree[0]] + tree[1..] == tree;
    }
  }

  lemma {:induction false} TreeFlattenNode(t: Token, after: seq<Token>, until: TokenType)
    requires NoEndsNode(t) && IsUntil(until)
    ensures Tree(FlattenNode(t) + after, until) == Glue([t], Tree(after, until))
    decreases t
  {
    var tokens := FlattenNode(t) + after;
    if t.For? || t.If? {
      var marker := if t.For? then End("endfor") else End("endif");
      var closer := Closer(TypeOf(t));
      assert tokens[0] == (if t.For? then For(t.variable, t.source, []) else If(t.expr, []));
      assert tokens[1..] == Flatten(t.children) + ([marker] + after);
      TreeNested(tokens, until);
      TreeFlatten(t.children, [marker] + after, closer);
      TreeSingle([marker] + after, closer);
      assert ([marker] + after)[1..] == after;
      assert t.children + [] == t.children;
    } else {
      TreeSingle(tokens, until);
      assert tokens[1..] == after;
    }
  }

  /** At the top level the written-out tokens of a tree build exactly that tree. */
  lemma TreeOfFlatten(tree: seq<Token>)
    requires NoEnds(tree)
    ensures Tree(Flatten(tree), TypeNone) == Parsed(tree, [])
  {
    TreeFlatten(tree, [], TypeNone);
    assert Flatten(tree) + [] == Flatten(tree);
    assert tree + [] == tree;
  }
}
