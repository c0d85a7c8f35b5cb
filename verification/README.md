# sqlconditions in Dafny

A model of the condition engine of the Go package `sqlconditions`. The
package stores SQL `WHERE` fragments in a configuration as nested token lists
and renders them against the set of named arguments a caller supplies.

The model has four parts:

- **Grammar** (`grammar.dfy`). A condition string such as
  `AND if_present col op @arg` becomes a `Condition`. Parsing strips at most
  one `AND `/`OR ` prefix, then at most one `if_present ` prefix. It then
  requires the rest to split on single spaces into exactly three parts.
- **Token parser** (`tokens.dfy`). A nested token tree (`Str | List`) becomes
  a flat element sequence (`Cond | Sep | Op`). Parentheses become
  separators, a bare `AND`/`OR` becomes an operator element, and every other
  string goes through the grammar. Nested lists are spliced in place.
- **Renderer** (`render.dfy`). One left-to-right pass carries a single flag:
  whether a condition has produced text yet. An `if_present` condition is
  written only when its argument is supplied. A condition's link operator is
  written only once the flag is set.
- **Configuration** (`variants.dfy`, `load.dfy`). Variant resolution by tag
  (`GetOperation`), and the one-time pass that parses every variant's tokens
  (`Config.Parse`).

`text.dfy` holds the Go string functions the source relies on:
`strings.Split` on one character, `strings.TrimSpace` with Go's white-space
set, and `HasPrefix`. `expr.dfy` holds the data model. `wrappers.dfy` holds
`Option` and `Result`. `scenarios.dfy` holds whole-pipeline examples.

Process termination (`log.Fatalf`), nil pointers, nil maps and panics are
modelled as values:

- `log.Fatalf` becomes a `Failure`.
- A nil variant or nil token list becomes `None`.
- A nil argument map becomes `NilArgs`.
- Dereferencing a matching nil variant becomes `NilVariantDeref`.

Go map iteration order is unspecified. The two map walks are therefore
methods that pick the next key arbitrarily, and their contracts hold for
every order.

Two behaviours of the code are easy to miss:

- A nil argument map fails a render only when the expression contains a
  condition. Separators and operator tokens render without consulting the
  map, so an expression without conditions renders successfully
  (`Render.NilArgsFailOnCondition`).
- A condition written `AND col op @arg` without `if_present` is `must`. It is
  rendered even when its argument is missing.

Separators and bare `AND`/`OR` tokens are plain text, not scopes. A bare
operator token is written even when the group before it renders nothing, so
`(`, `if_present a = @x`, `)`, `AND`, `(`, `b = @y`, `)` with only `y`
supplied renders as `() AND (b = @y)` (`Scenarios.StrayOperator`).
The rendering flag is not reset at a parenthesis either, so a linked
condition opening a group after a rendered group keeps its operator, as in
`(a = @x)( OR b = @y)` (`Scenarios.GroupDoesNotResetState`).

## Model

| member | source | states |
|---|---|---|
| Text.Split | parse.go:42 | `strings.Split` on a single character. There is one more part than occurrences of the separator, empty parts are kept, no part contains the separator, and joining the parts with it gives back the input. |
| Text.SplitJoin | parse.go:42-50 | Splitting undoes joining: parts that hold no separator, once joined, split back into exactly those parts. |
| Text.SplitThree | parse.go:42-50 | Three space-free words joined by single spaces split back into those three words. |
| Text.TrimSpaceIsWord | parse.go:67-75 | For a word that neither starts nor ends with white space, `TrimSpace(s)` equals the word exactly when `s` is the word padded on both sides with white space only. Both directions are proved. |
| Grammar.ParseCondition | parse.go:24-53 | The parse succeeds exactly when the text left after stripping the optional prefixes holds exactly two spaces, i.e. splits into three parts. The link is `AND` or `OR` exactly when the input starts with `AND ` or `OR `, and empty otherwise. The modality is `must` or `if_present`, and is `if_present` exactly when the text after the link starts with `if_present `. The three parts, rejoined with single spaces, are the remaining text, and none of them contains a space. |
| Grammar.StripLinkRecombines | parse.go:27-33 | Writing back the stripped link prefix in front of the rest restores the input. |
| Grammar.StripModalityRecombines | parse.go:35-40 | Writing back the stripped `if_present ` prefix in front of the rest restores the input. |
| Grammar.StripLinkOfSource | parse.go:27-33 | The link prefix of a condition's written form strips back to its link operator, even when no link is written and the clause begins with a word like `if_present`. |
| Grammar.StripModalityOfSource | parse.go:35-40 | The modality prefix of a condition's written form strips back to its modality. |
| Grammar.ParseSource | parse.go:24-53 | Every grammatical condition, written in its source form, parses back to itself. |
| Grammar.ParseIsGrammatical | parse.go:24-53 | Every successful parse yields a grammatical condition: a known link and modality, space-free parts, and a first part that could not have been mistaken for a stripped prefix. |
| Grammar.SourceOfParse | parse.go:24-53 | A successful parse, written back in source form, gives the input text. |
| Grammar.ParseConditionExactly | parse.go:24-53 | A string parses to a condition exactly when the condition is grammatical and the string is its source form. The grammar is a bijection between grammatical conditions and the texts that parse. |
| Tokens.ParseString | parse.go:61-82 | One string token, classified in order. It is a separator with the same text exactly for `(` or `)`. It is an operator element holding the untrimmed text exactly when it is not a parenthesis and its trim is `AND` or `OR`. Otherwise it is the grammar's condition, or a failure naming the token exactly when the grammar rejects it. |
| Tokens.ParseTokens | parse.go:56-99 | A successful parse of a token tree yields one element per string leaf. |
| Tokens.ParseLeaves | parse.go:59-98 | Reference reading: the leaves parsed one at a time succeed exactly when every leaf parses. The output then has one element per leaf, element `i` being the parse of leaf `i`. |
| Tokens.ParseLeavesFirstFailure | parse.go:77-80 | A failed parse names the leftmost leaf that does not parse, and every leaf before it parses. |
| Tokens.ParseFlattens | parse.go:84-91 | Parsing a token tree is parsing the sequence of its string leaves. |
| Tokens.ParseTokensLeafwise | parse.go:59-98 | A token tree parses exactly when each of its string leaves parses on its own. On success element `i` is the parse of leaf `i`. On failure the error names the leftmost failing leaf. |
| Tokens.ParseDistributes | parse.go:84-91 | Parsing distributes over concatenation of token lists. The first failure wins; otherwise the outputs are concatenated. |
| Tokens.NestedListSplices | parse.go:84-91 | A nested list parses exactly as if its items were written in place of it. |
| Tokens.OperatorWordIsPadded | parse.go:67-75 | A token is a bare link operator exactly when it is `AND` or `OR` padded with white space only. |
| Tokens.OperatorBeforeGrammar | parse.go:67-77 | The operator check precedes the grammar. `" AND "` would parse as a three-part condition, yet it becomes an operator element keeping its padding. |
| Tokens.NotOperatorWord | parse.go:67-75 | A token starting with a character that is not white space, `A` or `O` is not a bare link operator. |
| Tokens.NotOperatorWordAtEnds | parse.go:67-75 | A token with no white space at either end, that does not run from `A` to `D` or from `O` to `R`, is not a bare link operator. This covers linked clauses such as `OR col op @userID`. |
| Tokens.ConditionTokenRoundTrip | parse.go:77-82 | A grammatical condition whose source text is not a bare operator word survives a round trip through its source form as a token. Both the single-token classification and the token-list parse give it back. |
| Render.ConditionToSQL | sqlconditions.go:146-170 | It fails exactly on a nil argument map or an argument name shorter than two, with that error, whatever the modality. It renders empty text exactly when it is `if_present` and the name after `@` is not supplied. Otherwise it renders `col op arg`, preceded by the link operator between spaces exactly when a link is set and a condition was rendered before. |
| Render.EltToSQL | parse.go:13-21 | An element fails exactly when it is a faulty condition. A separator renders its own text and an operator element renders its text between single spaces. |
| Render.RenderFrom | sqlconditions.go:97-120 | The render loop fails exactly when some element is faulty, with the error of the leftmost one. Otherwise it yields the positional reference rendering: each element's piece, concatenated in order. A condition's link is written exactly when some earlier condition rendered text. |
| Render.ExprToSQL | sqlconditions.go:97-120 | `CondExpr.ToSQL`: the flag is reset at the first element, so the result is the positional rendering from an unset flag, whatever state is passed in. |
| Render.ToSQL | sqlconditions.go:86-89 | The top-level render: the same failure condition, the same leftmost error, and the positional rendering from an unset flag. |
| Render.RenderAppend | sqlconditions.go:101-118 | Rendering is compositional. Rendering `a + b` renders `a`, then `b`, starting from a flag that is set exactly when a condition in `a` rendered text. |
| Render.SilentConditionSkipped | sqlconditions.go:111-117 | A condition that renders nothing leaves both the output and the flag as they were. |
| Render.GatedOutInvisible | sqlconditions.go:157-164 | Deleting an `if_present` condition whose argument is missing changes nothing in the rendering, including the link operators of later conditions. |
| Render.SeparatorKeepsState | sqlconditions.go:114-116 | A separator never fails and never changes the flag the next element sees. |
| Render.FirstRenderedHasNoLink | sqlconditions.go:166-169 | The first condition that renders contributes its bare clause, whatever its link operator, and the flag is set for everything after it. |
| Render.NilArgsFailOnCondition | sqlconditions.go:149-151 | With a nil argument map a render fails exactly when the expression contains a condition, and then with the nil-map error. |
| Variants.StrSliceContains | sqlconditions.go:15-23 | True exactly when the string is an element of the slice. |
| Variants.FirstRequested | sqlconditions.go:41-46 | The inner scan over the requested tags stops at the first one that is among the key's tags; every tag before it is not, and reaching the end means no requested tag is. |
| Variants.GetOperation | sqlconditions.go:25-50 | An unknown operation gives `ErrNotFound`. `ErrNotFound` comes back exactly when the operation is unknown or no variant key, split on spaces, holds a requested tag. A nil tag list is read as `["default"]`. A success is the variant of some matching key. A nil-pointer panic happens only when some matching key maps to a nil variant. |
| Load.ParseVariant | load.go:26-37 | One variant parses exactly when it exists, holds a token list, and that list parses. A nil variant and nil tokens give their own errors, naming the operation and variant. On success only the expression changes: the joins and tokens are kept, and the expression is the parse of the tokens. |
| Load.ParsedVariants | load.go:26-37 | After a parse an operation keeps its variant keys. Every variant is present and keeps its joins and tokens, and its expression is the parse of its tokens. |
| Load.Parsed | load.go:24-40 | After a parse the configuration keeps its version, its operation names and every operation's variant keys. |
| Load.ParseOperation | load.go:26-38 | The walk over one operation's variants, in any order, succeeds exactly when every variant parses and then yields the parsed variants. A failure is the error of some variant that fails. |
| Load.Parse | load.go:24-41 | `Config.Parse`, in any map order, succeeds exactly when every variant of every operation parses, and then yields the parsed configuration. A failure is the error of some failing variant: a nil variant, nil tokens, or a token-parse error. |
| Load.ParseIdempotent | load.go:24-41 | Parsing twice is parsing once. A parsed configuration parses again, to itself. |
| Load.ParsedHasNoNilVariant | load.go:28-30 | After a successful parse no variant pointer is nil, so resolving a variant afterwards cannot panic. |
| Scenarios.ParenthesisedParse | parse.go:59-91 | A condition token between parenthesis tokens parses to the condition between two separators. |
| Scenarios.ParenthesisedRender | sqlconditions.go:97-120 | A rendering condition between parentheses renders as its clause between them. |
| Scenarios.MustRendersAlways | sqlconditions.go:157-169 | A condition that is not `if_present` is never gated: in parentheses it renders as its clause whatever keys are supplied. |
| Scenarios.AlternativesParse | parse.go:59-91 | Three condition tokens between parenthesis tokens parse, in order, to the three conditions between two separators. |
| Scenarios.OneOfThree | sqlconditions.go:101-117 | A group of three conditions, none failing and exactly one rendering, renders as that clause alone between parentheses, without its link operator, because the flag is still unset when it is reached. |
| Scenarios.BasicParse | parse.go:59-91 | The assumed `basic_00` token list `(`, `if_present client_id = @clientID`, `OR if_present consumer_org_id = @orgID`, `OR if_present consumer_id = @userID`, `)` parses to its three `if_present` alternatives between separators. |
| Scenarios.BasicClientCase | sqlconditions_test.go:34-37 | For the assumed `basic_00` list, with `clientID` supplied and neither `orgID` nor `userID`, the result is `(client_id = @clientID)`. This is the first and the third test expectation (also sqlconditions_test.go:42-45). |
| Scenarios.BasicOrgCase | sqlconditions_test.go:38-41 | For the same list, with `orgID` supplied and neither `clientID` nor `userID`, the result is `(consumer_org_id = @orgID)`, the second test expectation. The `OR` of the condition is dropped because nothing rendered before it. |
| Scenarios.BasicUserCase | sqlconditions_test.go:46-48 | For the same list, with `userID` supplied and neither `clientID` nor `orgID`, the result is `(consumer_id = @userID)`, the fourth test expectation. |
| Scenarios.MissingLeadingOptional | sqlconditions.go:157-169 | A leading `if_present` condition whose argument is missing leaves no stray link. The next condition, written with `AND`, renders as its bare clause. |
| Scenarios.GroupDoesNotResetState | sqlconditions.go:101-117 | The flag survives parentheses. A linked condition opening a second group after a rendered group keeps its link operator. |
| Scenarios.StrayOperator | parse.go:19-21 | A bare `AND`/`OR` token renders its text whatever the conditions around it render. After a group whose only condition is gated out, the result is `() AND (clause)`. |

## Left out

- `Config.FromYAML` (load.go:11-21) is left out because it is a call into a YAML library. The model starts from an already built configuration and token tree.
- `Config.String`, `Config.Print`, `CondExpr.String` and `Condition.String` are left out because they only format for debugging and print to standard output.
- `log.Fatalf` and `log.Fatalln` end the process in the source (parse.go:79, 88, 94). The model returns a `Failure` instead: `GrammarFailure` names the offending token, and a nested list's failure propagates unchanged.
- The `default:` branch of `Tokens.Parse` (parse.go:93-94) is not modelled. It is unreachable because tokens are a closed `Str | List` datatype.
- `Render.EltToSQL` renders separators and operator elements from the bodies at parse.go:13-21. In the source those two `ToSQL` methods take only the argument map, not the hint the `ExprElt` interface (sqlconditions.go:72) requires, so the package as written does not compile. The model gives them the interface's signature and ignores the hint, as their bodies do.
- A `CondExpr` nested as an element of another `CondExpr` is not modelled, because `Tokens.Parse` never builds one: it splices nested lists flat (parse.go:91). Only conditions, separators and operator elements occur.
- `FilterArgs` values are not modelled, because only key presence is consulted. Arguments are a key set, or `NilArgs` for a nil map.
- `Render.ConditionToSQL` measures `len(ArgName) < 2` and `ArgName[1:]` in characters, where Go counts bytes. The two agree for ASCII argument names; a name whose first character is multi-byte is not modelled.
- `Grammar.ParseCondition` and `Tokens.ParseString` work on characters, not bytes. `strings.Split`, `HasPrefix` and `TrimSpace` give the same results on valid UTF-8 text. Invalid UTF-8 is not modelled.
- `Load.Parse` does not model that `Config.Parse` mutates variants in place and may leave some of them parsed when it fails part-way. On failure the model reports only the error.
- `Variants.GetOperation` models Go's unspecified map order as an arbitrary choice, so its contract says which variants may be returned, not which one is.
- `Variants.Config` stores the `uint` version as a `nat`. No operation reads it.
- `ErrNotFound` is declared outside the core files. It is modelled as the constructor `ErrNotFound`.
- The tests read `testdata/*.yaml` files, which are not part of this model, so their token lists are not known. `Scenarios.BasicTokens` is an assumed `basic_00` list that is consistent with all four expectations of that file. The `basic_01` expectation is not restated.
