# snake_case to camelCase variable renamer, in Dafny

This project models the core of a PHP script, `index.php`, that rewrites a PHP
file so its snake_case variables become camelCase. It leaves every other byte
of the file as it was. The script works in three steps:

1. **Naming policy.** `CamelCaseVisitor::toCamelCase` returns two kinds of
   name unchanged: a name with no lower-case letter (a constant) and the one
   hard-coded name `Root_Account_Data`. Any other name becomes
   `lcfirst(str_replace('_', '', ucwords($name, '_')))`.
2. **Collector.** `CamelCaseVisitor::enterNode` is called on every node of
   the syntax tree, in pre-order. It records the names listed by `global`
   statements. For each variable with a static name it builds the map
   `$replacements` from `'$'.name` to `'$'.camel`. It skips superglobals
   (names starting with `_`), names already recorded as global, and names the
   policy leaves unchanged.
3. **Token rewriter.** A loop over `token_get_all($code)` copies every token's
   text. The one exception is a `T_VARIABLE` token whose text is a key of
   `$replacements`: the loop writes the mapped value instead.

Modules, one per step plus support:

- `PhpStrings` (`php_strings.dfy`): the PHP builtins the policy uses
  (`strtoupper`, `ucwords` with `'_'`, `str_replace('_', '')`, `lcfirst`),
  with ASCII case mapping.
- `CamelCase` (`camel_case.dfy`): `ToCamelCase` and its properties.
- `Collector` (`collector.dfy`): the tree as a sequence of `Node`s in the
  order the traverser enters them. `EnterNode` is one visit. `Traverse` and
  `Collect` are the fold over the tree, which carries the visitor's two
  fields as a `Visitor` value.
- `Rewriter` (`rewriter.dfy`): tokens as `Tagged(id, text)` (PHP's array
  tokens) or `Bare(text)` (PHP's bare string tokens such as `;`, usually one
  character), the loop as a method, and a functional reference for it.
- `Renamer` (`renamer.dfy`): the whole pipeline, `Transform(nodes, tokens)`,
  and what it guarantees about each token.

Behaviour of the code worth knowing:

- **Global exclusion depends on order.** A name is skipped only if its
  `global` statement was entered before the use (index.php:22, 29). A use
  entered before its `global` statement therefore still adds an entry, and
  the rewriter then renames every `T_VARIABLE` token with that text,
  including the one inside the `global` statement.
  `GlobalAfterUseStillRenamed` and `GlobalStatementTokenRenamed` show this.
  `GlobalBeforeUseNeverKey` proves the exclusion that does hold: it covers a
  name whose `global` statement comes before every use.
- **The constant test is `strtoupper($name) === $name`.** It accepts any name
  with no ASCII lower-case letter (`StrToUpperFixedIff`), whatever other
  characters it holds.
- **The single denylisted name is hard-coded** (index.php:46).
- **A repeated name overwrites its entry**, always with the same value
  (`EnterNode`'s contract), so repeated uses leave the map as one use would.

## Model

| member | source | states |
|---|---|---|
| PhpStrings.StrToUpper | index.php:43 | The result has the input's length and no ASCII lower-case letter: each `a`..`z` becomes its upper-case letter (code minus 32), and every other character is kept |
| PhpStrings.UcWords | index.php:49 | `ucwords($name, '_')` keeps the length and the underscore positions. It upper-cases the first character and every character right after an underscore, and keeps every other character |
| PhpStrings.StripUnderscores | index.php:49 | `str_replace('_', '', s)` leaves no underscore, and its length is the length of `s` minus the number of underscores in `s` |
| PhpStrings.LcFirst | index.php:49 | `lcfirst` keeps the length, lower-cases the first character and keeps the rest |
| PhpStrings.StrToUpperFixedIff | index.php:43 | `strtoupper($name) === $name` holds exactly when the name contains no ASCII lower-case letter |
| PhpStrings.StripIndex | index.php:49 | `str_replace('_', '', s)` keeps every non-underscore character of `s`, in order, each moved left by the number of underscores before it |
| CamelCase.CamelForm | index.php:49 | `lcfirst(str_replace('_', '', ucwords($name, '_')))` has no underscore, and its length is the name's length minus its underscores |
| CamelCase.ToCamelCase | index.php:41-50 | A name without lower-case letters comes back unchanged, and so does `Root_Account_Data`. Any other name comes back with no underscore, and its length is the input length minus the number of underscores |
| CamelCase.CamelFormPointwise | index.php:49 | In the general branch, each non-underscore character lands at its position minus the underscores before it. The first one kept is lower-cased, one right after an underscore is upper-cased, and every other is unchanged |
| CamelCase.ToCamelCaseChangesIff | index.php:41-50 | The policy changes a name exactly when the name has a lower-case letter, is not `Root_Account_Data`, and either contains an underscore or starts with an upper-case letter |
| CamelCase.ToCamelCaseIdempotent | index.php:41-50 | Applying the policy to its own result changes nothing |
| Collector.StaticNames | index.php:20-24 | A `global` statement records exactly its targets that are variables with a string name; any other target is ignored |
| Collector.EnterNode | index.php:16-39 | A variable that is a superglobal or already recorded as global leaves the visitor unchanged. Only a `global` statement changes the recorded globals. Existing entries are never lost, and a well-formed map stays well-formed with its old values kept |
| Collector.Traverse | index.php:19-25 | After a sequence of nodes, the recorded globals are the old ones followed by every static `global` target in node order. A well-formed replacement map stays well-formed |
| Collector.Collect | index.php:33-37 | Every entry has the form `'$'.n => '$'.toCamelCase(n)`, where `n` is not a superglobal and the key differs from the value |
| Collector.DeclaredGlobalsIff | index.php:19-25 | A name is recorded as global exactly when some `global` statement in the tree lists it by a static name |
| Collector.CollectKeysIff | index.php:28-37 | `'$'.n` is a key exactly when some variable node named `n` is not a superglobal, is not among the globals declared by the nodes before it, and is changed by the policy |
| Collector.SuperglobalNeverKey | index.php:29-31 | A name starting with `_` never gets an entry |
| Collector.GlobalBeforeUseNeverKey | index.php:19-31 | A name whose `global` statement is entered before every use of it never gets an entry |
| Collector.OtherNodeFirst | index.php:16-39 | A node that is neither a `global` statement nor a variable, entered first, leaves the visitor's state as the rest of the tree alone would leave it |
| Collector.GlobalAfterUseStillRenamed | index.php:19-37 | The nodes of `<?php $n; global $n;` (the expression statement, `$n`, the `global` statement, its `$n`): the first use, entered before the `global` statement, still makes the entry `'$'.n => '$'.toCamelCase(n)` |
| Collector.ValuesAreCamel | index.php:33-37 | Every value is `'$'` followed by a name with no underscore, and that name is left unchanged by the policy |
| Collector.FixpointNamesCollectNothing | index.php:33-37 | If the policy leaves every variable name unchanged, the replacement map is empty |
| Rewriter.Emit | index.php:76-86 | The piece appended for one token is the mapped value exactly when the token is a `T_VARIABLE` array token whose text is a key, and the token's own text otherwise |
| Rewriter.Rewrite | index.php:75-88 | The functional form of the loop, with no ensures of its own. `RewriteIsStreamSource`, `RewriteAppend` and `RewriteUntouched` state what it computes, and `RewriteTokens` proves the loop equal to it |
| Rewriter.RewriteTokens | index.php:75-88 | The loop's `$modifiedCode` equals the functional fold `Rewrite` over the tokens |
| Rewriter.RewriteStream | index.php:75-88 | The rewritten stream has the same number of tokens. Each token keeps its kind and id. A token's text is replaced only for a `T_VARIABLE` token whose text is a key, and then by the mapped value |
| Rewriter.RewriteIsStreamSource | index.php:72-88 | The output is the concatenated text of the rewritten stream: one piece per token, in the original order |
| Rewriter.RewriteAppend | index.php:75-88 | Rewriting is token-local: the output for `a + b` is the output for `a` followed by the output for `b` |
| Rewriter.RewriteUntouched | index.php:79-87 | If no `T_VARIABLE` token's text is a key, the output is the original file |
| Rewriter.RewriteEmptyMap | index.php:72-88 | With an empty replacement map, the output is the concatenation of the original token texts |
| Renamer.Transform | index.php:66-88 | The code written back is the text of the token stream rewritten with the map collected from the tree, one piece per token in order. With an empty map it is the original file. `TokenFate` and `FixpointNamesKeepFile` state what happens to each token |
| Renamer.TokenFate | index.php:80-83 | Each output token either equals its input token, or comes from a `T_VARIABLE` token `'$'.n`. In that case some variable node adds `'$'.n`, the token becomes `'$'.toCamelCase(n)`, and the new name has no underscore |
| Renamer.SuperglobalTokenKept | index.php:29-31 | A token `'$'.n` where `n` starts with `_` is emitted unchanged |
| Renamer.ConstantTokenKept | index.php:43-45 | A token `'$'.n` where `n` has no lower-case letter is emitted unchanged |
| Renamer.DenylistedTokenKept | index.php:46-48 | The token `$Root_Account_Data` is emitted unchanged |
| Renamer.EarlyGlobalTokenKept | index.php:19-31 | If a name's `global` statement is entered before every use of the name, all of its tokens are emitted unchanged |
| Renamer.GlobalStatementTokenRenamed | index.php:75-88 | For the file `<?php $n; global $n;`, whose nodes and tokens are given in full and whose use is entered first, both tokens, including the one in the `global` statement, become `'$'.toCamelCase(n)` |
| Renamer.FixpointNamesKeepFile | index.php:33-37 | If every variable name in the tree is already a fixpoint of the policy, the file is written back byte for byte |

## Left out

- The PhpParser library and its autoloading (index.php:3-9, 57-59) are
  external code. The tree arrives as the pre-order sequence of `Node`s the
  traverser would enter. Nodes other than `global` statements and variables
  become `OtherNode`.
- `token_get_all` (index.php:72) is an external lexer. The token stream is an
  input. Tokens are assumed to come from the same code as the tree, and the
  line number in each array token is dropped because the loop never reads it.
  Token ids other than `T_VARIABLE` (`T_OPEN_TAG`, `T_GLOBAL`,
  `T_WHITESPACE`, ...) carry a placeholder code, because the loop compares ids
  only with `T_VARIABLE`.
- The parse-error message and `exit(1)` (index.php:60-63) are process
  control, with no effect on the renaming.
- Reading and writing `../m/settings.php` and the debug `echo`
  (index.php:54-55, 90-91) are file and console I/O.
- `NodeTraverser` dispatch and the visitor's mutable fields
  (index.php:13-14, 66-69) are replaced by the explicit fold
  `Traverse`/`Collect`.
- Locale-dependent and multibyte behaviour of `strtoupper`, `ucwords` and
  `lcfirst` is not modelled. Case mapping is ASCII only, and every other
  character keeps its case.
- The loose comparison `$name == 'Root_Account_Data'` (index.php:46) is
  modelled as string equality. Both operands are strings and the literal is
  not numeric, so PHP compares them as strings.
- `isset($visitor->replacements[$text])` (index.php:80) is modelled as key
  membership. Every value is a non-null string, and every key starts with
  `$`, so PHP never turns a key into an integer.
- Idempotence of the whole transform is not stated. Running the script on
  its own output needs a new parse of that output, and the parser is not
  modelled. `ToCamelCaseIdempotent`, `ValuesAreCamel` and
  `FixpointNamesKeepFile` state the parts that need no parser.
