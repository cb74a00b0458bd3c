# cpptempl in Dafny

A model of cpptempl, the small text-template interpreter in
`include/nonius/detail/cpptempl.h`. A template is plain text with two kinds of
markup:

- a variable `{$key}`;
- a control statement `{% for x in xs %}`, `{% if ... %}` or an end marker such
  as `{% endfor %}`.

`parse(text, data)` renders a template against a dictionary in three steps:

1. `tokenize` scans the text into a flat token sequence.
2. `parse_tree` nests the children of each `for` and `if` under it.
3. Each token's `gettext` renders the tree. A loop rebinds `loop` and its
   variable in the dictionary, and those bindings stay after the loop.

A `TemplateException` thrown anywhere ends rendering.

The project has one module per part of the header:

| file | module | models |
|---|---|---|
| failures.dfy | `Failures` | the `TemplateException` messages as an `Error` datatype, with `Option` and `Result` |
| strings.dfy | `Strings` | what the header uses from the string library: `find`, `trim`, `trim_copy_if`, `split` on white space, `starts_with`, and decimal formatting of loop indices |
| data.dfy | `Data` | `Data`/`DataValue`/`DataList`/`DataMap` as the `Value` datatype, with the accessors and `empty`; `data_ptr::emplace_back`/`push_back` as methods of class `DataPtr`; `data_map` as class `Context` |
| resolver.dfy | `Resolver` | `parse_val` |
| tokens.dfy | `Tokens` | the token classes, `gettype`, the `TokenFor` constructor, and `set_children`/`get_children` |
| lexer.dfy | `Lexer` | `tokenize`: the function `Lex`, and the method `Tokenize` with its loop, proved equal to `Lex` |
| tree.dfy | `TreeBuilder` | `parse_tree`: the function `Tree`, and the method `TokenQueue.ParseTree`, which consumes a token vector shared across its recursive calls |
| evaluator.dfy | `Evaluator` | `is_true` and each token's `gettext`: the functions `EvalNode`/`EvalNodes`/`EvalLoop`, the `Render*` methods that rebind keys of a `Context` in place, and the loop lemmas |
| engine.dfy | `Engine` | both `parse` overloads, and whole templates |

A rendering outcome is `Output(text, ctx, failure)`:

- `text` is what was written to the stream before rendering stopped;
- `ctx` is the dictionary as rendering left it;
- `failure` is the exception that stopped it, if any.

When a token throws, the text written before it stays in the stream and the
keys rebound before it stay rebound. The reason is that `parse` writes to a
caller's stream and rebinds keys of a caller's `data_map` by reference.

In these edge cases the code does something other than what the markup
suggests, and the model does what the code does:

- A `{$` or `{%` with no `}` after it drops only the `{`. The text after it is
  scanned again as ordinary text, and nothing after the brace is discarded.
- When the first part of a dotted key is unbound, the key echoed as text is the
  key at the current level of the recursion in `parse_val`. That is the
  remainder after the dots already followed, not the key the template wrote.
- A key that is not bound resolves to the text `{$key}`. That text is not
  empty, so `{% if x %}` holds for an unbound `x`.
- `{%}` makes `pos - 2` wrap round in `size_t`. `substr` then takes the rest of
  the text, so the end-marker text runs to the end of the template while the
  scan goes on after the `}`. The model does exactly this (`Lexer.ExprEnd`).
- White space is the C locale's: space, tab, line feed, vertical tab, form feed
  and carriage return. `split` keeps empty pieces: two spaces between the words
  of a `for` statement give five pieces, and the statement throws.

## Model

| member | source | states |
|---|---|---|
| Strings.Find | include/nonius/detail/cpptempl.h:533 | `find` gives no position exactly when the character is absent; otherwise the position holds the character and nothing before it does |
| Strings.FindFirst | include/nonius/detail/cpptempl.h:552 | the first occurrence of the character is the position `find` reports |
| Strings.Trim | include/nonius/detail/cpptempl.h:560 | the trimmed text is no longer than the input and neither starts nor ends with white space |
| Strings.TrimPadded | include/nonius/detail/cpptempl.h:560 | trimming removes exactly the white-space padding around a text that has none at its ends |
| Strings.TrimStartsWith | include/nonius/detail/cpptempl.h:560 | trimming a text that starts with a non-space character keeps that first character |
| Strings.TrimIdempotent | include/nonius/detail/cpptempl.h:567 | the second `trim` of an end-marker expression changes nothing |
| Strings.TrimQuotes | include/nonius/detail/cpptempl.h:362 | stripping quotes leaves a text that is no longer than the input and neither starts nor ends with `"` |
| Strings.TrimQuotesPadded | include/nonius/detail/cpptempl.h:362 | stripping quotes removes exactly the runs of `"` at both ends and keeps the text between them, inner quotes included |
| Strings.Split | include/nonius/detail/cpptempl.h:413 | split gives one more piece than there are white-space characters, and no piece holds white space |
| Strings.SplitRoundTrip | include/nonius/detail/cpptempl.h:413 | the pieces, put back together with the separators between them, give back the input |
| Strings.SplitNoSpace | include/nonius/detail/cpptempl.h:462 | a text without white space is one piece |
| Strings.SplitAtSpace | include/nonius/detail/cpptempl.h:462 | a white-space character cuts the pieces in two, so empty pieces are kept |
| Strings.SplitUnwords | include/nonius/detail/cpptempl.h:413 | words without white space, joined by single spaces, split back into those words |
| Strings.Decimal | include/nonius/detail/cpptempl.h:430-431 | the decimal text of a loop index is a nonempty string of digits with no leading zero |
| Strings.DecimalRoundTrip | include/nonius/detail/cpptempl.h:430-431 | reading the decimal text back gives the index |
| Strings.DecimalInjective | include/nonius/detail/cpptempl.h:430-431 | different indices get different texts |
| Data.GetValue | include/nonius/detail/cpptempl.h:322-335 | `getvalue` succeeds exactly on a string value and returns its text; otherwise it throws "not a value" |
| Data.GetList | include/nonius/detail/cpptempl.h:325-343 | `getlist` succeeds exactly on a list and returns its items; otherwise it throws "not a list" |
| Data.GetMap | include/nonius/detail/cpptempl.h:328-351 | `getmap` succeeds exactly on a map and returns its entries; otherwise it throws "not a dictionary" |
| Data.EmptyByKind | include/nonius/detail/cpptempl.h:336-354 | `empty()` holds exactly for a string with no characters, a list with no items or a dictionary with no keys, each read through its own accessor |
| Data.OneAccessorSucceeds | include/nonius/detail/cpptempl.h:154-183 | every value is of exactly one of the three kinds |
| Data.Appended | include/nonius/detail/cpptempl.h:312-319 | appending to a null handle gives a one-item list; appending to a list puts the item last and keeps the earlier items; any other value throws "not a list" |
| Data.AppendAllToList | include/nonius/detail/cpptempl.h:312-319 | appending items one by one to a list keeps its items and puts the new ones after them, in order |
| Data.AppendAllToNull | include/nonius/detail/cpptempl.h:312-319 | appending items one by one to a null handle builds the list of exactly those items, in order |
| Data.DataPtr.Null | include/nonius/detail/cpptempl.h:96 | a default handle points at nothing |
| Data.DataPtr.Of | include/nonius/detail/cpptempl.h:185-198 | a handle made from a value points at that value |
| Data.DataPtr.EmplaceBack | include/nonius/detail/cpptempl.h:312-319 | on success the handle holds the appended list and the call returns the new last item; on a non-list it throws and the handle is unchanged |
| Data.DataPtr.PushBack | include/nonius/detail/cpptempl.h:116-118 | `push_back` changes the handle as `emplace_back` does |
| Data.Context.Assign | include/nonius/detail/cpptempl.h:293-295 | assigning through `operator[]` binds one key and changes no other |
| Resolver.Resolve | include/nonius/detail/cpptempl.h:359-380 | the only exception `parse_val` throws is "not a dictionary" |
| Resolver.ResolveQuoted | include/nonius/detail/cpptempl.h:361-363 | a key starting with `"` is a literal with its quotes stripped, whatever the dictionary holds |
| Resolver.ResolvePlain | include/nonius/detail/cpptempl.h:366-372 | a key without a dot gives its bound value, or the text `{$key}` when it is unbound |
| Resolver.ResolveDottedAbsent | include/nonius/detail/cpptempl.h:374-377 | a dotted key whose first part is unbound gives `{$key}` for the key at this level |
| Resolver.ResolveDottedBound | include/nonius/detail/cpptempl.h:378-379 | a dotted key whose first part is bound to a map looks up the rest in it; to anything else, it throws "not a dictionary" |
| Resolver.ResolveLookup | include/nonius/detail/cpptempl.h:359-380 | a dotted path that leads through nested maps to a value resolves to that value |
| Tokens.TypeOf | include/nonius/detail/cpptempl.h:486-488 | an end marker is ENDFOR exactly when its text is `endfor` and ENDIF otherwise; `for` and `if` tokens have their own types; no token is NONE |
| Tokens.MakeFor | include/nonius/detail/cpptempl.h:411-419 | the `for` constructor succeeds exactly when the expression splits into four pieces and then takes piece 1 as the variable and piece 3 as the source; otherwise it throws "invalid for" |
| Tokens.MakeForWords | include/nonius/detail/cpptempl.h:411-419 | `for x in xs` written with single spaces loops over `xs` binding `x` |
| Tokens.MakeForCountsSeparators | include/nonius/detail/cpptempl.h:413-414 | the constructor succeeds exactly when the expression holds three white-space characters |
| Tokens.SetChildren | include/nonius/detail/cpptempl.h:387-389 | only `for` and `if` tokens take children; others throw |
| Tokens.GetChildren | include/nonius/detail/cpptempl.h:390-392 | only `for` and `if` tokens have children to read; others throw |
| Tokens.SetThenGetChildren | include/nonius/detail/cpptempl.h:440-445 | children read back are the children set, and setting them changes neither the type nor the rest of the token |
| Lexer.Directive | include/nonius/detail/cpptempl.h:562-569 | an expression starting with `for` goes to the `for` constructor; one starting with `if` becomes a conditional; anything else becomes an end marker, ENDFOR exactly when its trimmed text is `endfor` |
| Lexer.Step | include/nonius/detail/cpptempl.h:532-548 | each pass makes tokens without children and either ends the loop or leaves a strictly shorter text, so `tokenize` terminates |
| Lexer.AfterBrace | include/nonius/detail/cpptempl.h:548-573 | after the erased `{`, a pass consumes more text, except in two cases that leave all the text after the brace to be scanned again: an unclosed `{$` or `{%`, and a stray `{` followed by another character, which emits a literal `{` |
| Lexer.Control | include/nonius/detail/cpptempl.h:557-570 | a control statement leaves less text than it was given and makes a token without children |
| Lexer.Lex | include/nonius/detail/cpptempl.h:531-576 | the only exception while tokenizing is "invalid for", and the tokens come out without children |
| Lexer.ScanPass | include/nonius/detail/cpptempl.h:533-547 | the loop body's text search, leading text and trailing `{` give the pass `Lex` specifies |
| Lexer.ScanBrace | include/nonius/detail/cpptempl.h:548-573 | the branch on `$`, `%` or another character gives the pass `Lex` specifies |
| Lexer.ScanControl | include/nonius/detail/cpptempl.h:557-570 | the control statement the method builds is the one `Lex` specifies |
| Lexer.Tokenize | include/nonius/detail/cpptempl.h:531-576 | the scanning loop produces exactly the tokens of `Lex`, or its exception |
| Lexer.LexPlain | include/nonius/detail/cpptempl.h:534-539 | text without `{` is one literal token, or none when empty |
| Lexer.LexTrailingBrace | include/nonius/detail/cpptempl.h:544-547 | a `{` as the last character becomes a literal `{` |
| Lexer.LexStrayBrace | include/nonius/detail/cpptempl.h:571-573 | a `{` followed by neither `$` nor `%` becomes a literal `{`, and the scan resumes at the next character |
| Lexer.LexVariable | include/nonius/detail/cpptempl.h:551-556 | `{$k}` is a variable naming the raw text up to the first `}` |
| Lexer.LexUnclosed | include/nonius/detail/cpptempl.h:551-559 | `{$` or `{%` with no `}` after it drops only the `{` and scans the rest as ordinary text |
| Lexer.LexDirective | include/nonius/detail/cpptempl.h:557-570 | `{%body}` runs the directive on `body` minus its last character, trimmed, and the scan resumes after the `}` |
| Lexer.DirectiveEnd | include/nonius/detail/cpptempl.h:566-568 | an expression starting with neither `f` nor `i` is an end marker with its trimmed text |
| Lexer.LexEmptyDirective | include/nonius/detail/cpptempl.h:558-561 | `{%}` gives an end marker whose text is the rest of the template from the `}`, trimmed, and the scan goes on after the `}` |
| Lexer.EmptyDirectiveEndsIf | include/nonius/detail/cpptempl.h:486-488 | the end marker from `{%}` is an ENDIF marker |
| Lexer.LexEndDirective | include/nonius/detail/cpptempl.h:557-569 | `{% m %}` for a word `m` that starts with neither `f` nor `i` is the end marker `m` |
| Lexer.LexForDirective | include/nonius/detail/cpptempl.h:557-563 | `{% for x in xs %}` is a loop over `xs` binding `x` |
| TreeBuilder.Tree | include/nonius/detail/cpptempl.h:506-525 | `parse_tree` never leaves more tokens than it was given |
| TreeBuilder.TreeNested | include/nonius/detail/cpptempl.h:512-519 | a `for` or `if` takes as children what a recursive call to its own terminator builds, whatever the caller's terminator |
| TreeBuilder.TreeSingle | include/nonius/detail/cpptempl.h:520-523 | any other token is consumed; it stops the loop when its type is the terminator and is added to the tree otherwise |
| TreeBuilder.TokenQueue.ParseTree | include/nonius/detail/cpptempl.h:506-525 | the method pops from the shared token vector and leaves the tree and the rest that `Tree` specifies |
| TreeBuilder.TreeRestIsSuffix | include/nonius/detail/cpptempl.h:507-510 | the tokens left are a suffix of the tokens given |
| TreeBuilder.TreeConsumesAll | include/nonius/detail/cpptempl.h:506-525 | with no token of the terminator's type, every token is consumed |
| TreeBuilder.TopLevelConsumesAll | include/nonius/detail/cpptempl.h:595 | from `parse` every token is consumed |
| TreeBuilder.OpenerWithoutEnd | include/nonius/detail/cpptempl.h:512-519 | an opener with no matching end takes all remaining tokens as children |
| TreeBuilder.TreeFlat | include/nonius/detail/cpptempl.h:520-523 | tokens that neither open a block nor terminate are kept in order, stray end markers at top level included |
| TreeBuilder.TreeStops | include/nonius/detail/cpptempl.h:520-522 | the terminator is consumed but not added to the tree |
| TreeBuilder.TreeFlatten | include/nonius/detail/cpptempl.h:506-525 | a well-nested tree, written out as tokens with its end markers, is built back by `parse_tree` |
| TreeBuilder.TreeOfFlatten | include/nonius/detail/cpptempl.h:595 | at top level, building a tree from its own token form gives the tree back |
| Evaluator.IsTrue | include/nonius/detail/cpptempl.h:460-476 | `is_true` reads a missing piece exactly when the expression has fewer than two pieces, or is `if not` with nothing after it, or has exactly three pieces and its second piece resolves without throwing; its other exceptions come from resolving and reading values |
| Evaluator.Holds | include/nonius/detail/cpptempl.h:464-475 | the same, for the expression's pieces: with three pieces the left operand is resolved before the missing fourth piece is read |
| Evaluator.IsTrueThreePieces | include/nonius/detail/cpptempl.h:470-471 | `if a op` throws what resolving `a` throws, and reads the missing fourth piece only when `a` resolves |
| Evaluator.IsTrueOperand | include/nonius/detail/cpptempl.h:467-468 | `if x` holds exactly when `x` resolves to a value that is not empty |
| Evaluator.IsTrueNot | include/nonius/detail/cpptempl.h:464-465 | `if not x` holds exactly when `x` resolves to an empty value |
| Evaluator.IsTrueCompare | include/nonius/detail/cpptempl.h:470-475 | `if a op b` on two strings compares them: equality for `==`, inequality for any other operator |
| Evaluator.HoldsCompare | include/nonius/detail/cpptempl.h:470-475 | with two string operands the comparison tests equality for `==` and inequality for any other operator; pieces after the fourth are ignored |
| Evaluator.HoldsCompareNonValue | include/nonius/detail/cpptempl.h:470-475 | when both operands resolve, a comparison with a list or a dictionary on either side throws "not a value"; pieces after the fourth are ignored |
| Evaluator.IsTrueCompareNonValue | include/nonius/detail/cpptempl.h:470-475 | `if a op b` throws "not a value" when either operand resolves to a list or a dictionary |
| Evaluator.UnboundIsTrue | include/nonius/detail/cpptempl.h:368-370 | an unbound key resolves to its nonempty echo, so `if x` holds and `if not x` fails |
| Evaluator.IfRendersWhenTrue | include/nonius/detail/cpptempl.h:452-458 | a conditional renders its children exactly when its condition holds, nothing when it fails, and throws what the condition throws |
| Evaluator.EvalNode | include/nonius/detail/cpptempl.h:398-492 | rendering a token rebinds only `loop` and the variables of the loops inside it |
| Evaluator.EvalNodes | include/nonius/detail/cpptempl.h:434-436 | rendering children in turn rebinds only the loop names inside them |
| Evaluator.EvalLoop | include/nonius/detail/cpptempl.h:428-437 | the passes of a loop rebind only `loop` and the loop names inside it |
| Evaluator.RenderNodes | include/nonius/detail/cpptempl.h:434-436 | the method renders the children into the dictionary in place, with the text, dictionary and exception `EvalNodes` specifies |
| Evaluator.RenderNode | include/nonius/detail/cpptempl.h:398-492 | the method renders one token in place, with the outcome `EvalNode` specifies, loop passes included |
| Evaluator.GetText | include/nonius/detail/cpptempl.h:496-500 | the helper returns the token's text or its exception, and the rebound keys stay rebound |
| Evaluator.NoLoopsKeepContext | include/nonius/detail/cpptempl.h:432-433 | rendering tokens that hold no loop leaves the dictionary as it was |
| Evaluator.EvalNodesAppend | include/nonius/detail/cpptempl.h:597-604 | rendering two token sequences one after the other is rendering their concatenation |
| Evaluator.EndStopsRendering | include/nonius/detail/cpptempl.h:490-492 | an end marker throws before anything after it is written |
| Evaluator.VarRendersText | include/nonius/detail/cpptempl.h:406-408 | a variable writes the text of a string value and throws "not a value" on a list or map |
| Evaluator.EmptyLoop | include/nonius/detail/cpptempl.h:428 | a loop over an empty list writes nothing and leaves the dictionary as it was |
| Evaluator.ResolveLoopVariable | include/nonius/detail/cpptempl.h:433 | on pass `i`, the loop variable resolves to item `i` |
| Evaluator.ResolveLoopIndex | include/nonius/detail/cpptempl.h:429-432 | on pass `i`, `loop.index` resolves to the decimal text of `i + 1` |
| Evaluator.ResolveLoopIndex0 | include/nonius/detail/cpptempl.h:429-432 | on pass `i`, `loop.index0` resolves to the decimal text of `i` |
| Evaluator.LoopOverItems | include/nonius/detail/cpptempl.h:425-438 | a loop whose body writes its variable writes the list's strings one after the other |
| Evaluator.LoopIndexCounts | include/nonius/detail/cpptempl.h:429-437 | a loop whose body writes `loop.index` writes 1, 2, ..., n |
| Evaluator.LoopIndex0Counts | include/nonius/detail/cpptempl.h:429-437 | a loop whose body writes `loop.index0` writes 0, 1, ..., n - 1 |
| Evaluator.LoopRendersInOrder | include/nonius/detail/cpptempl.h:428-437 | a loop over n items whose body holds no loop renders the body n times, in order, pass `i` seeing item `i` |
| Evaluator.LoopRendersPasses | include/nonius/detail/cpptempl.h:428-437 | the passes from `i` on write the bodies' texts in order, whether the dictionary still holds the previous pass's bindings or not |
| Evaluator.LoopLeavesLastBinding | include/nonius/detail/cpptempl.h:428-437 | after a loop over n > 0 items whose body holds no loop, the last pass's bindings stay in the dictionary |
| Evaluator.BindTwice | include/nonius/detail/cpptempl.h:432-433 | a later pass overwrites every binding of an earlier one |
| Evaluator.LoopOverNonList | include/nonius/detail/cpptempl.h:426-427 | a loop whose source is not a list throws "not a list" before writing anything |
| Evaluator.LoopOverUnbound | include/nonius/detail/cpptempl.h:426-427 | an unbound source resolves to a string, so the loop throws "not a list" |
| Engine.Evaluate | include/nonius/detail/cpptempl.h:591-605 | a template whose tokenizing throws writes nothing and leaves the dictionary alone; otherwise only the loop names of its tree are rebound |
| Engine.Parse | include/nonius/detail/cpptempl.h:591-605 | the stream overload writes the text, leaves the dictionary and throws the exception that `Evaluate` specifies |
| Engine.ParseToString | include/nonius/detail/cpptempl.h:586-590 | the string overload returns the rendered text or the exception, with the dictionary left as `Evaluate` specifies |
| Engine.PlainTextRendersItself | include/nonius/detail/cpptempl.h:532-539 | a template without `{` renders to itself and changes nothing |
| Engine.UnboundVariableEchoes | include/nonius/detail/cpptempl.h:368-370 | `{$key}` with `key` unbound renders as itself |
| Engine.StrayEndThrows | include/nonius/detail/cpptempl.h:520-523 | an end marker with no block to close stays in the tree and makes rendering throw before any text is written |
| Engine.BadForThrows | include/nonius/detail/cpptempl.h:414-416 | `{% for x %}` throws while tokenizing, so nothing is written |
| Engine.LexLoopTemplate | include/nonius/detail/cpptempl.h:531-576 | `{% for x in xs %}{$x}{% endfor %}` tokenizes to the loop, the variable and the end marker |
| Engine.LoopTemplateTree | include/nonius/detail/cpptempl.h:512-515 | those tokens build the loop with the variable as its only child |
| Engine.LoopTemplateRendersItems | include/nonius/detail/cpptempl.h:425-438 | that template, with `xs` bound to a list of strings, writes the strings one after the other and then the text after the loop |

## Left out

- The output stream: `parse(stream, ...)` and `gettext` write to an `std::ostream`. The model returns the text written instead.
- Data.DataPtr.EmplaceBack: `shared_ptr` sharing is not modelled. A handle holds its value, so an append is not seen through other handles to the same list. Rendering never appends, so `parse` does not depend on this.
- Virtual dispatch over `Data` and `Token` subclasses is modelled as matching on datatype constructors.
- `make_data` and the `data_ptr` constructors and assignments outside `emplace_back`/`push_back` are modelled as building `Value`s directly. The generic `lexical_cast` assignment is left out; only the decimal formatting of loop indices is kept.
- `data_map` is a Dafny `map`. The hashing and iteration order of `unordered_map` cannot be observed by templates.
- A null `data_ptr` dereferenced by `operator->` is undefined behaviour and is not modelled. This includes the default entry that `data_map::operator[]` creates for a key it has not seen. Rendering only assigns through `operator[]` and reads keys after `has`, so templates never reach it.
- Evaluator.IsTrue: reading a piece past the end of the split expression is undefined behaviour in C++. It is modelled as the explicit error `IndexOutOfRange`, which no part of the header throws.
- Data.Context.Has and Data.Context.IsEmpty (`data_map::has` and `data_map::empty`) are read-only accessors with no contract rows. `Resolve` uses map membership directly.
- The MSVC warning pragmas and `NONIUS_NOEXCEPT` have no meaning in the model.
- Exception messages are modelled as `Error` constructors. `Failures.Message` gives the header's text.
- The rest of nonius (the benchmarking engine and its reporters) is not part of this model.
