/**
 The token rewriter: the loop over `token_get_all($code)` that rebuilds the
 file, substituting the text of a `T_VARIABLE` token whose text is a key of
 the replacements and copying every other token as it is.
 */
module Rewriter {

  /** The token ids the loop distinguishes: `T_VARIABLE` and every other.
      The code of another id (`T_GLOBAL`, `T_WHITESPACE`, ...) is never
      compared with anything, so its value is immaterial here. */
  datatype TokenId = TVariable | TOther(code: int)

  /** One item of `token_get_all`: an array `[id, text, line]` (the line is
      never read) or a bare string such as `;` or `=`, usually one character. */
  datatype Token = Tagged(id: TokenId, text: string) | Bare(text: string)

  /** Whether the loop substitutes the text of `t`. */
  predicate Renames(t: Token, replacements: map<string, string>) {
    t.Tagged? && t.id == TVariable && t.text in replacements
  }

  /** The piece of output the loop appends for one token: the mapped value
      when the loop substitutes it, its own text otherwise. */
  function Emit(t: Token, replacements: map<string, string>): (piece: string)
    ensures Renames(t, replacements) ==> piece == replacements[t.text]
    ensures !Renames(t, replacements) ==> piece == t.text
  {
    match t
    case Tagged(id, text) =>
      if id == TVariable && text in replacements then replacements[text] else text
    case Bare(text) => text
  }

  /** The original file: the texts of all tokens, in order. */
  function Source(tokens: seq<Token>): string {
    if |tokens| == 0 then ""
    else Source(tokens[..|tokens| - 1]) + tokens[|tokens| - 1].text
  }

  /** `$modifiedCode` after the loop has consumed `tokens`. */
  function Rewrite(tokens: seq<Token>, replacements: map<string, string>): string {
    if |tokens| == 0 then ""
    else Rewrite(tokens[..|tokens| - 1], replacements) + Emit(tokens[|tokens| - 1], replacements)
  }

  /** The `foreach` loop itself. */
  method RewriteTokens(tokens: seq<Token>, replacements: map<string, string>)
    returns (modifiedCode: string)
    ensures modifiedCode == Rewrite(tokens, replacements)
  {
    modifiedCode := "";
    var i := 0;
    while i < |tokens|
      invariant 0 <= i <= |tokens|
      invariant modifiedCode == Rewrite(tokens[..i], replacements)
    {
      var token := tokens[i];
      match token {
        case Tagged(id, text) =>
          var piece := text;
          if id == TVariable && text in replacements {
            piece := replacements[text];
          }
          modifiedCode := modifiedCode + piece;
        case Bare(text) =>
          modifiedCode := modifiedCode + text;
      }
      assert tokens[..i + 1][..i] == tokens[..i];
      i := i + 1;
    }
    assert tokens[..i] == tokens;
  }

  /** The token the loop's output stands for: same kind, same id, and the
      text substituted exactly when the loop substitutes it. */
  function Substitute(t: Token, replacements: map<string, string>): (r: Token)
    ensures r.Bare? <==> t.Bare?
    ensures t.Tagged? ==> r.id == t.id
    ensures Renames(t, replacements) ==> r.text == replacements[t.text]
    ensures !Renames(t, replacements) ==> r == t
  {
    if Renames(t, replacements) then t.(text := replacements[t.text]) else t
  }

  /** The rewritten token stream: as many tokens as before, each of the same
      kind and id as the original at its position, with the text replaced
      exactly when the loop replaces it. */
  function RewriteStream(tokens: seq<Token>, replacements: map<string, string>): (r: seq<Token>)
    ensures |r| == |tokens|
    ensures forall i :: 0 <= i < |tokens| ==>
              (r[i].Bare? <==> tokens[i].Bare?) && (tokens[i].Tagged? ==> r[i].id == tokens[i].id)
    ensures forall i :: 0 <= i < |tokens| ==>
              r[i].text == if Renames(tokens[i], replacements)
                           then replacements[tokens[i].text] else tokens[i].text
  {
    seq(|tokens|, i requires 0 <= i < |tokens| => Substitute(tokens[i], replacements))
  }

  /** The output is exactly the text of the rewritten stream: one piece per
      token, in order, no token added, dropped or moved. */
  lemma {:induction false} RewriteIsStreamSource(tokens: seq<Token>, replacements: map<string, string>)
    ensures Rewrite(tokens, replacements) == Source(RewriteStream(tokens, replacements))
  {
    if |tokens| > 0 {
      var p := tokens[..|tokens| - 1];
      RewriteIsStreamSource(p, replacements);
      var s := RewriteStream(tokens, replacements);
      assert s[..|s| - 1] == RewriteStream(p, replacements) by {
        forall i | 0 <= i < |p| ensures s[i] == Substitute(p[i], replacements) {
          assert p[i] == tokens[i];
        }
      }
      assert Emit(tokens[|p|], replacements) == s[|p|].text;
    }
  }

  /** Rewriting is token-local: the output of a concatenated stream is the
      concatenation of the outputs. */
  lemma {:induction false} RewriteAppend(a: seq<Token>, b: seq<Token>, replacements: map<string, string>)
    ensures Rewrite(a + b, replacements) == Rewrite(a, replacements) + Rewrite(b, replacements)
  {
    if |b| == 0 {
      assert a + b == a;
    } else {
      var q, last := b[..|b| - 1], b[|b| - 1];
      RewriteAppend(a, q, replacements);
      assert (a + b)[..|a + b| - 1] == a + q;
      assert (a + b)[|a + b| - 1] == last;
      assert Rewrite(a + b, replacements) == Rewrite(a + q, replacements) + Emit(last, replacements);
    }
  }

  /** When the loop substitutes no token, the output is the original file. */
  lemma {:induction false} RewriteUntouched(tokens: seq<Token>, replacements: map<string, string>)
    requires forall i :: 0 <= i < |tokens| ==> !Renames(tokens[i], replacements)
    ensures Rewrite(tokens, replacements) == Source(tokens)
  {
    if |tokens| > 0 {
      var p := tokens[..|tokens| - 1];
      assert forall i :: 0 <= i < |p| ==> p[i] == tokens[i];
      RewriteUntouched(p, replacements);
    }
  }

  /** With no replacements the file is reproduced byte for byte. */
  lemma {:induction false} RewriteEmptyMap(tokens: seq<Token>)
    ensures Rewrite(tokens, map[]) == Source(tokens)
  {
    RewriteUntouched(tokens, map[]);
  }
}
