# Semantic-token wire codec of the Kotlin language server

The Kotlin language server answers the Language Server Protocol requests
`textDocument/semanticTokens/full` and `textDocument/semanticTokens/range`
(added in version 3.16 of the protocol). It sends a list of semantic tokens
as a flat array of integers. Each token is a span on one line with a token
type (property, class, interpolation entry, parameter, function, variable,
enum member) and a set of modifiers (declaration, readonly).

This project models that codec in Dafny, as pure functions and lemmas:

- `Legend`: the closed enumerations and their wire integers. A type is sent as its
  ordinal in the announced legend. A modifier set is sent as a bitmask with
  bit i for the i-th listed modifier. The server's concrete order is not
  fixed: every result holds for any legend that lists each type and each
  modifier exactly once.
- `Encoder`: `encodeTokens` turns a token sequence into 5 integers per token,
  `[deltaLine, deltaStartCol, length, typeIndex, modifierMask]`. The position
  is relative to the previous token's start. The cursor starts at (0, 0).
  The client's inverse walk (`DecodeTokens`) is defined beside it.
- `Query`: the full-document request encodes every token of the document.
  The range request keeps the tokens whose line lies in the window. It then
  encodes them on their own, from a fresh cursor.
- `TokenizeFile`: the `tokenize file` test's sample document, line by line,
  and what both requests answer for it.

The token facts come from the compiler-based analysis. Here they are an
input: the document's tokens in the order the analysis emits them.

## Model

| member | source | states |
|---|---|---|
| `Legend.TypeIndex` | server/src/test/kotlin/org/javacs/kt/SemanticTokensTest.kt:8 | a token type is sent as its position in the legend; that position names the type back |
| `Legend.TypeIndexInverse` | server/src/test/kotlin/org/javacs/kt/SemanticTokensTest.kt:8 | every ordinal of the legend maps back to itself, so type ordinals are injective |
| `Legend.ModifierBit` | server/src/test/kotlin/org/javacs/kt/SemanticTokensTest.kt:9 | each modifier owns the bit at its position in the legend |
| `Legend.ModifierMask` | server/src/test/kotlin/org/javacs/kt/SemanticTokensTest.kt:29-30 | the mask fits the legend's width; bit i is set exactly when the modifier with bit i is in the set |
| `Legend.MaskBits` | server/src/test/kotlin/org/javacs/kt/SemanticTokensTest.kt:29 | for any ordered modifier list, bit i of the mask is set iff the i-th modifier is in the set |
| `Legend.ModifierMaskRoundTrip` | server/src/test/kotlin/org/javacs/kt/SemanticTokensTest.kt:59-61 | decoding a modifier mask gives back exactly the modifier set |
| `Legend.ModifierMaskOntoValid` | server/src/test/kotlin/org/javacs/kt/SemanticTokensTest.kt:59-61 | every mask within the legend's width is the mask of the set it decodes to |
| `Legend.NoModifiersMaskZero` | server/src/test/kotlin/org/javacs/kt/SemanticTokensTest.kt:30 | a token constructed without modifiers has mask 0 |
| `Legend.TwoModifiersMask` | server/src/test/kotlin/org/javacs/kt/SemanticTokensTest.kt:29 | DECLARATION and READONLY (any two distinct modifiers) have distinct bits; their set's mask is the sum of the two bits, i.e. their OR |
| `Encoder.Record` | server/src/test/kotlin/org/javacs/kt/SemanticTokensTest.kt:59 | one token's five integers: adding the deltas to the cursor gives its line and start column, start plus length gives its end column, the type and mask name its type and modifiers |
| `Encoder.EncodeTokens` | server/src/test/kotlin/org/javacs/kt/SemanticTokensTest.kt:55 | each token contributes exactly 5 integers |
| `Encoder.EncodeFrom` | server/src/test/kotlin/org/javacs/kt/SemanticTokensTest.kt:59 | encoding from any cursor gives 5 integers per token |
| `Encoder.EncodeAt` | server/src/test/kotlin/org/javacs/kt/SemanticTokensTest.kt:59 | the k-th record holds the k-th token's line and column relative to the (k-1)-th token's start (to (0, 0) for the first), its length endCol - startCol, its type ordinal and its modifier mask |
| `Encoder.RoundTrip` | server/src/test/kotlin/org/javacs/kt/SemanticTokensTest.kt:55-61 | walking the array from (0, 0) recovers every token's line, start column, end column, type and modifiers, in order |
| `Encoder.DecodeIsInverse` | server/src/test/kotlin/org/javacs/kt/SemanticTokensTest.kt:59-61 | an array that decodes to some tokens is their encoding, so the encoding is one-to-one |
| `Encoder.EncodeAppend` | server/src/test/kotlin/org/javacs/kt/SemanticTokensTest.kt:55 | encoding a concatenation encodes the second part from the cursor left by the first |
| `Encoder.DeltasNonNegativeIffInOrder` | server/src/test/kotlin/org/javacs/kt/SemanticTokensTest.kt:59 | every deltaLine and deltaStartCol is non-negative if and only if the tokens are ordered by (line, start column) |
| `Encoder.SameLineDelta` | server/src/test/kotlin/org/javacs/kt/SemanticTokensTest.kt:29-32 | a token on the same line as the one before it has deltaLine 0 and deltaStartCol equal to the difference of start columns |
| `Encoder.LengthField` | server/src/test/kotlin/org/javacs/kt/SemanticTokensTest.kt:21 | the length field of a single-line token is endCol - startCol, positive for a well-formed token |
| `Encoder.InOrderAppend` | server/src/test/kotlin/org/javacs/kt/SemanticTokensTest.kt:59 | joining ordered per-line token sequences in line order keeps document order |
| `Query.Clip` | server/src/test/kotlin/org/javacs/kt/SemanticTokensTest.kt:56 | the window keeps exactly the tokens whose line lies in it, each with all its copies, and no other |
| `Query.ClipAppend` | server/src/test/kotlin/org/javacs/kt/SemanticTokensTest.kt:55 | selecting from a concatenation selects from each part |
| `Query.ClipSelectsMiddle` | server/src/test/kotlin/org/javacs/kt/SemanticTokensTest.kt:55-57 | when the tokens before the window lie on earlier lines and those after on later lines, the window selects exactly the middle part |
| `Query.ClipKeepsOrder` | server/src/test/kotlin/org/javacs/kt/SemanticTokensTest.kt:55-57 | selection keeps document order, so the range response has no negative delta either |
| `Query.SemanticTokensFull` | server/src/test/kotlin/org/javacs/kt/SemanticTokensTest.kt:60-61 | the full response has 5 integers per token and decodes to every token of the document, in order |
| `Query.SemanticTokensRange` | server/src/test/kotlin/org/javacs/kt/SemanticTokensTest.kt:56-57 | a window whose end precedes its start is an error; otherwise the response decodes to exactly the tokens selected by the window |
| `Query.RangeRestartsCursor` | server/src/test/kotlin/org/javacs/kt/SemanticTokensTest.kt:55-57 | the range response's first record holds the first selected token's absolute line and column; from the second record on it coincides with the full response |
| `TokenizeFile.DocumentInOrder` | server/src/test/kotlin/org/javacs/kt/SemanticTokensTest.kt:20-53 | the sample document's 17 tokens are well formed and in document order |
| `TokenizeFile.FullResponseDeltasNonNegative` | server/src/test/kotlin/org/javacs/kt/SemanticTokensTest.kt:59-61 | the full response for the sample document has no negative delta |
| `TokenizeFile.ConstLineEncoding` | server/src/test/kotlin/org/javacs/kt/SemanticTokensTest.kt:28-33 | the line-2 tokens encode to [2,5,8,…], [0,10,6,…], [0,15,9,…], [0,1,8,…]: the nested interpolation entry and the property inside it are both kept, outer first |
| `TokenizeFile.RangeResponse` | server/src/test/kotlin/org/javacs/kt/SemanticTokensTest.kt:55-57 | the range request over (2,0)-(6,0) answers the encoding of the line-2, 3 and 5 tokens alone, and its first deltaLine is 2, counted from line 0 |
| `TokenizeFile.FullResponse` | server/src/test/kotlin/org/javacs/kt/SemanticTokensTest.kt:59-61 | the full request answers the encoding of the tokens of lines 1, 2, 3, 5, 7 and 9 in that order: 85 integers |

## Left out

- The request plumbing (`semanticTokensFull`, `semanticTokensRange`, futures, parameter builders, the test fixture): transport and asynchronous I/O.
- The analysis that decides which syntax becomes which token, including the rule that string templates are not emitted: it depends on the Kotlin compiler front end. The document's tokens are an input here.
- The concrete legend order and the legend's type and modifier names: not visible, so the model holds for every valid legend. The enumerations list only the types and modifiers the test uses.
- Multi-line tokens: the token datatype is single-line by construction. The test has none.
- Sorting of the analysis output: the tokens reach the encoder in document order. The model does not sort them. `Encoder.DeltasNonNegativeIffInOrder` states what that order buys.
- Skipping of malformed tokens (end column not after the start column): the encoder encodes every token. `Encoder.WellFormed` only names the condition.
- Window columns: a token is selected by its line alone, between the window's first and last line inclusive. Window columns only decide whether the window is reversed.
- 32-bit integers of the wire format: values are unbounded, and the model states no overflow bound.
- Coordinates are taken as the test writes them. The fixture's `range` helper is not part of this model.
