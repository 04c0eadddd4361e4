/**
 The whole script once the parser and lexer have run: collect the
 replacements from the tree, then rewrite the token stream of the same file.
 */
module Renamer {
  import opened PhpStrings
  import opened CamelCase
  import opened Collector
  import opened Rewriter

  /** `token_get_all` ids used in the example below (`T_GLOBAL`,
      `T_WHITESPACE`, `T_OPEN_TAG`); their codes are placeholders, only their
      being other than `T_VARIABLE` matters. */
  const TGlobal: TokenId := TOther(0)
  const TWhitespace: TokenId := TOther(1)
  const TOpenTag: TokenId := TOther(2)

  /** The modified code written back to the file: the text of the token
      stream rewritten with the collected replacements, one piece per token;
      when nothing was collected, the file as it was. */
  function Transform(nodes: seq<Node>, tokens: seq<Token>): (code: string)
    ensures code == Source(RewriteStream(tokens, Collect(nodes).replacements))
    ensures Collect(nodes).replacements == map[] ==> code == Source(tokens)
  {
    RewriteIsStreamSource(tokens, Collect(nodes).replacements);
    RewriteEmptyMap(tokens);
    Rewrite(tokens, Collect(nodes).replacements)
  }

  /** The fate of one token: it is kept as it is, or it is a `T_VARIABLE`
      token `'$'.n` for a name `n` that some variable node adds, and it
      becomes `'$'.toCamelCase(n)`, which has no underscore after the `'$'`. */
  lemma {:induction false} TokenFate(nodes: seq<Node>, tokens: seq<Token>, i: int)
    requires 0 <= i < |tokens|
    ensures var m := Collect(nodes).replacements;
            var out := RewriteStream(tokens, m)[i];
            out == tokens[i] ||
            (tokens[i].Tagged? && tokens[i].id == TVariable &&
             |tokens[i].text| > 0 && tokens[i].text[0] == '$' &&
             out == tokens[i].(text := Sigil(ToCamelCase(tokens[i].text[1..]))) &&
             Underscore !in out.text[1..] &&
             exists j :: AddsKey(nodes, j, tokens[i].text))
  {
    var m := Collect(nodes).replacements;
    var t := tokens[i];
    if Renames(t, m) {
      assert ValidEntry(t.text, m[t.text]);
      ValuesAreCamel(nodes, t.text);
      CollectKeysIff(nodes, t.text);
    }
  }

  /** A superglobal such as `$_SERVER` is never rewritten. */
  lemma {:induction false} SuperglobalTokenKept(nodes: seq<Node>, tokens: seq<Token>, i: int, name: string)
    requires 0 <= i < |tokens| && tokens[i].text == Sigil(name) && IsSuperglobal(name)
    ensures RewriteStream(tokens, Collect(nodes).replacements)[i] == tokens[i]
  {
    SuperglobalNeverKey(nodes, name);
  }

  /** A variable whose name has no lower-case letter is never rewritten. */
  lemma {:induction false} ConstantTokenKept(nodes: seq<Node>, tokens: seq<Token>, i: int, name: string)
    requires 0 <= i < |tokens| && tokens[i].text == Sigil(name) && NoLower(name)
    ensures RewriteStream(tokens, Collect(nodes).replacements)[i] == tokens[i]
  {
    assert Sigil(name)[1..] == name;
    assert ToCamelCase(name) == name;
  }

  /** `$Root_Account_Data` is never rewritten. */
  lemma {:induction false} DenylistedTokenKept(nodes: seq<Node>, tokens: seq<Token>, i: int)
    requires 0 <= i < |tokens| && tokens[i].text == Sigil(Denylisted)
    ensures RewriteStream(tokens, Collect(nodes).replacements)[i] == tokens[i]
  {
    assert Sigil(Denylisted)[1..] == Denylisted;
    assert ToCamelCase(Denylisted) == Denylisted;
  }

  /** A variable whose `global` statement comes before every use of it is
      never rewritten, anywhere in the file. */
  lemma {:induction false} EarlyGlobalTokenKept(nodes: seq<Node>, tokens: seq<Token>, i: int, j: int, name: string)
    requires 0 <= i < |tokens| && tokens[i].text == Sigil(name)
    requires 0 <= j < |nodes| && nodes[j].GlobalStmt? && Some(name) in nodes[j].vars
    requires forall k :: 0 <= k < |nodes| && nodes[k] == Variable(Some(name)) ==> j < k
    ensures RewriteStream(tokens, Collect(nodes).replacements)[i] == tokens[i]
  {
    GlobalBeforeUseNeverKey(nodes, j, name);
  }

  /** If every variable name in the tree is already a fixpoint of the policy,
      the file is written back unchanged; in particular a variable the first
      pass renamed is left alone by a second one. */
  lemma {:induction false} FixpointNamesKeepFile(nodes: seq<Node>, tokens: seq<Token>)
    requires forall i :: 0 <= i < |nodes| && nodes[i].Variable? && nodes[i].name.Some? ==>
               ToCamelCase(nodes[i].name.value) == nodes[i].name.value
    ensures Transform(nodes, tokens) == Source(tokens)
  {
    FixpointNamesCollectNothing(nodes);
    RewriteEmptyMap(tokens);
  }

  /** The file `<?php $n; global $n;`, whose use is entered before the
      `global` statement: both occurrences are rewritten, the one inside the
      `global` statement included. The nodes are those the traverser enters
      for it, the tokens those `token_get_all` returns for it. */
  lemma {:induction false} GlobalStatementTokenRenamed(nodes: seq<Node>, tokens: seq<Token>, name: string)
    requires !IsSuperglobal(name) && ToCamelCase(name) != name
    requires nodes == [OtherNode, Variable(Some(name)), GlobalStmt([Some(name)]),
                       Variable(Some(name))]
    requires tokens == [Tagged(TOpenTag, "<?php "), Tagged(TVariable, Sigil(name)), Bare(";"),
                        Tagged(TWhitespace, " "), Tagged(TGlobal, "global"),
                        Tagged(TWhitespace, " "), Tagged(TVariable, Sigil(name)), Bare(";")]
    ensures var camel := Sigil(ToCamelCase(name));
            Transform(nodes, tokens) == "<?php " + camel + ";" + " " + "global" + " " + camel + ";"
  {
    GlobalAfterUseStillRenamed(nodes, name);
    GlobalStatementRewrite(tokens, Sigil(name), Sigil(ToCamelCase(name)));
  }

  /** The token half of `GlobalStatementTokenRenamed`. */
  lemma {:induction false} GlobalStatementRewrite(tokens: seq<Token>, key: string, value: string)
    requires tokens == [Tagged(TOpenTag, "<?php "), Tagged(TVariable, key), Bare(";"),
                        Tagged(TWhitespace, " "), Tagged(TGlobal, "global"),
                        Tagged(TWhitespace, " "), Tagged(TVariable, key), Bare(";")]
    ensures Rewrite(tokens, map[key := value]) ==
            "<?php " + value + ";" + " " + "global" + " " + value + ";"
  {
    var m := map[key := value];
    var o, s, g, w := "<?php ", ";", "global", " ";
    var x, y, sp := Tagged(TVariable, key), Bare(s), Tagged(TWhitespace, w);
    var a, b := [Tagged(TOpenTag, o), x, y, sp], [Tagged(TGlobal, g), sp, x, y];
    assert tokens == a + b;
    RewriteAppend(a, b, m);
    assert Emit(x, m) == value && Emit(y, m) == s && Emit(sp, m) == w;
    RewriteFour(a[0], a[1], a[2], a[3], m);
    RewriteFour(b[0], b[1], b[2], b[3], m);
    assert (o + value + s + w) + (g + w + value + s) == o + value + s + w + g + w + value + s;
  }

  /** The output for four tokens is their four pieces in order. */
  lemma {:induction false} RewriteFour(a: Token, b: Token, c: Token, d: Token, m: map<string, string>)
    ensures Rewrite([a, b, c, d], m) == Emit(a, m) + Emit(b, m) + Emit(c, m) + Emit(d, m)
  {
    var ea, eb, ec, ed := Emit(a, m), Emit(b, m), Emit(c, m), Emit(d, m);
    assert [a, b, c, d][..3] == [a, b, c];
    assert [a, b, c][..2] == [a, b];
    assert [a, b][..1] == [a];
    assert [a][..0] == [];
    assert Rewrite([a], m) == ea by {
      assert "" + ea == ea;
    }
    assert Rewrite([a, b], m) == ea + eb;
    assert Rewrite([a, b, c], m) == ea + eb + ec;
    assert Rewrite([a, b, c, d], m) == (ea + eb + ec) + ed;
  }
}
