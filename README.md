# heimdall-rs type helpers, modelled in Dafny

This project models the three helpers in heimdall-rs's
`common/src/ether/evm/types.rs`:

- **`parse_function_parameters`** reads a Solidity-style signature such as
  `exactInputSingle((address,address,uint24,...))` into a list of ABI type
  descriptors (`ParamType`). It works in four steps:
  - it cuts out the parameter list: the text after the first `(`, minus the last `)`;
  - it splits that list on `,`;
  - it re-merges parenthesised groups with a depth counter;
  - it classifies each token with a first-match-wins chain of rules, recursing into tuples and arrays.

  Tokens that match no rule are dropped. An empty result becomes `None`.
- **`display`** renders decoded call values (`Token`s) as indented text lines.
- **`convert_bitmask`** scans the operands of the operation an instruction feeds into, to guess how wide a bit mask is.

Each function builds its result step by step, so each one is a method with
loops. Each method is proved equal to a pure specification function, and the
properties are proved about those functions:

| file | module | contents |
|---|---|---|
| `strings.dfy` | `Wrappers`, `Strings` | `Option`, and the Rust string operations the source uses: `split_once`, `replace_last`, `split`, `join`, `replace`, `contains`, `matches().count()`, `parse::<usize>()`, decimal `to_string` |
| `signature_parser.dfy` | `AbiTypes`, `SignatureParser` | `ParamType`; the specification `Parse`/`ClassifyAll`/`Classify`; the methods `ParseFunctionParameters`, `SplitParameters`, `RemergeFragments`, `ClassifyTokens`, `ClassifyToken` and its three arms |
| `signature_proofs.dfy` | `SignatureProofs` | what the re-merge keeps, which recursive calls shrink, fuel monotonicity and sufficiency, the scalar rule table, widths and defaults |
| `signature_shapes.dfy` | `SignatureShapes` | an `Item` grammar of well-formed parameters and the theorem that the parser reads any such list; the six signatures of the source's tests |
| `signature_findings.dfy` | `SignatureFindings` | three signature shapes that the code as written gets wrong, each proved wrong as written and right for the corrected variant |
| `display.dfy` | `ValueDisplay` | `Token`, the specification `Render`, the method `Display`, and line-structure lemmas |
| `bitmask.dfy` | `Bitmask` | `Instruction`/`WrappedOpcode`/`WrappedInput`, the specification `WidthAfter`, the method `ConvertBitmask`, and the width lemmas |

The recursion of the parser does not always terminate: a fixed-size array
token `T[N]` recurses on itself. The specification functions therefore take
a `fuel` argument and return an `Outcome`:
- `Done(r)` is the source's answer `r`;
- `Exhausted` means the recursion went deeper than the fuel allows. The source would run until its stack overflows.

The functions also take a `Variant`:
- `AsWritten` follows the code;
- `Corrected` changes the three places listed under "Findings".

The methods model the code, so they use `AsWritten`.

## Model

| member | source | states |
|---|---|---|
| SignatureParser.Parse | common/src/ether/evm/types.rs:9-132 | a `Some` list of descriptors is never empty: no descriptor produced means `None` |
| SignatureParser.ParseFunctionParameters | common/src/ether/evm/types.rs:9-132 | the method (cut, split, re-merge loop, classification loop with recursive calls) returns exactly `Parse(signature, fuel, AsWritten)` |
| SignatureParser.SplitParameters | common/src/ether/evm/types.rs:13-48 | the tokens are `Tokens(signature)`: the text after the first `(` without its last `)`, split on `,`, re-merged only when it holds a `(` |
| SignatureParser.RemergeFragments | common/src/ether/evm/types.rs:24-45 | the depth-counter loop returns `Remerge(fragments, AsWritten)`: `(` raises the depth before buffering, `)` lowers it after, and the group is joined with `,` at depth 0 |
| SignatureParser.ClassifyTokens | common/src/ether/evm/types.rs:51-125 | the loop returns `ClassifyAll(tokens)`: the descriptors in token order, with dropped tokens left out, and `Exhausted` once any token recurses without end |
| SignatureParser.ClassifyToken | common/src/ether/evm/types.rs:52-124 | one token is classified by the first matching rule, i.e. `Classify(token, fuel, AsWritten)` |
| SignatureParser.ClassifyTuple | common/src/ether/evm/types.rs:56-63 | a token starting `(` and not ending `]` becomes `Tuple` of the recursive parse, or is dropped when that parse gives `None` |
| SignatureParser.ClassifyArray | common/src/ether/evm/types.rs:64-77 | a `…[]` token recurses on the text with every `[]` removed; one element gives `Array(e)`, several give `Array(Tuple(es))` |
| SignatureParser.ClassifyFixedArray | common/src/ether/evm/types.rs:78-98 | a `…]` token is dropped unless the text after the first `[` (without `]`) is a usize; otherwise it recurses on `replace("[]", "")` and wraps the result as `FixedArray` |
| SignatureParser.ArrayOf | common/src/ether/evm/types.rs:64-97 | the shared tail of both array arms: the element text is parsed again with one unit of fuel less; `None` drops the parameter, one element is wrapped as it is, several as a tuple, in `Array` or in `FixedArray` with the size |
| SignatureParser.ExhaustedPrefix | common/src/ether/evm/types.rs:51-125 | when one token recurses without end, so does the whole classification loop |
| SignatureProofs.ParamBodyWithin | common/src/ether/evm/types.rs:14-17 | the parameter list holds no character the signature lacks, and it is strictly shorter when the signature has a `(` |
| SignatureProofs.MergeFoldKeeps | common/src/ether/evm/types.rs:24-45 | loop invariant of the re-merge: the tokens followed by the buffered fragments, joined with `,`, are the fragments joined with `,`; the buffer is empty exactly when the depth is at most 0 |
| SignatureProofs.RemergeLosesNothing | common/src/ether/evm/types.rs:24-45 | when the depth ends at 0 or below, joining the re-merged tokens gives back the parameter list |
| SignatureProofs.TokenWithin | common/src/ether/evm/types.rs:14-45 | every token's characters come from the signature; a token starting `(` is strictly shorter than the signature |
| SignatureProofs.TupleCallShrinks | common/src/ether/evm/types.rs:56-57 | the tuple arm recurses on a strictly shorter string |
| SignatureProofs.ArrayCallShrinks | common/src/ether/evm/types.rs:64-65 | the dynamic-array arm recurses on a strictly shorter string |
| SignatureProofs.FixedArrayCallStalls | common/src/ether/evm/types.rs:78-86 | for a token ending `]` with no `[]`, the fixed-array arm recurses on the token itself |
| SignatureProofs.FixedArrayDiverges | common/src/ether/evm/types.rs:78-98 | a signature made of one such token with a valid size runs out of every amount of fuel |
| SignatureProofs.SingleToken | common/src/ether/evm/types.rs:14-20 | text with no `(`, `)` or `,` is its own parameter list and its only token |
| SignatureProofs.ClassifyAllSingle | common/src/ether/evm/types.rs:51-125 | a single token gives its descriptor, nothing when it is dropped, or `Exhausted` |
| SignatureProofs.ParseMore | common/src/ether/evm/types.rs:9-132 | once a parse finishes, more fuel does not change its answer |
| SignatureProofs.ClassifyAllMore | common/src/ether/evm/types.rs:51-125 | the same for a token list |
| SignatureProofs.ClassifyMore | common/src/ether/evm/types.rs:52-124 | the same for one token |
| SignatureProofs.ArrayElementShorter | common/src/ether/evm/types.rs:64-65 | a `…[]` token's element text is strictly shorter, in both variants |
| SignatureProofs.LastDimensionShorter | common/src/ether/evm/types.rs:78-86 | with the corrected rule, a fixed array's element text is strictly shorter |
| SignatureProofs.ParseFinishes | common/src/ether/evm/types.rs:9-132 | fuel at least the signature's length always suffices for the corrected parser, and for the parser as written when the signature has no `]` |
| SignatureProofs.ClassifyAllFinishes | common/src/ether/evm/types.rs:51-125 | a token list finishes when every token fits the fuel |
| SignatureProofs.ClassifyFinishes | common/src/ether/evm/types.rs:52-124 | a token finishes when it fits the fuel |
| SignatureProofs.ScalarChain | common/src/ether/evm/types.rs:52-55 | a token that neither starts `(` nor ends `]` is classified without recursion: an exact name first, then the `int`/`uint`/`bytes` width rules |
| SignatureProofs.ScalarByTable | common/src/ether/evm/types.rs:52-124 | such a token gets the first matching entry of an independent rule table (`address`, `bytes`, `bool`, `string`, `int…`, `uint…`, `bytes…`, in order) |
| SignatureProofs.TableMatchesChain | common/src/ether/evm/types.rs:52-124 | the rule table and the if-chain agree on every string |
| SignatureProofs.UintWidth | common/src/ether/evm/types.rs:107-115 | `uint` followed by the decimal digits of any usize `n` gives `Uint(n)` |
| SignatureProofs.IntWidth | common/src/ether/evm/types.rs:99-106 | `int` followed by the digits of `n` gives `Int(n)` |
| SignatureProofs.BytesSize | common/src/ether/evm/types.rs:53-124 | `bytes` followed by the digits of `n` gives `FixedBytes(n)`, and bare `bytes` gives `Bytes` |
| SignatureProofs.DefaultWidths | common/src/ether/evm/types.rs:99-115 | `uint` and `int`, bare or followed by any text that does not parse as a usize (not ending `]` and holding no second `uint`/`int`), default to 256 bits; this covers widths that overflow a usize |
| SignatureProofs.BytesDefault | common/src/ether/evm/types.rs:116-124 | `bytes` followed by any non-empty text that does not parse as a usize (not ending `]` and holding no second `bytes`) is `FixedBytes(32)`; this covers sizes that overflow a usize |
| SignatureShapes.ClassifyAllEach | common/src/ether/evm/types.rs:51-125 | when every token finishes, the list is the tokens' descriptors in order, with the dropped ones left out |
| SignatureShapes.NoOpenRemerge | common/src/ether/evm/types.rs:24-48 | fragments without `(` pass through the re-merge unchanged |
| SignatureShapes.TopItems | common/src/ether/evm/types.rs:24-45 | for well-formed parameters, the re-merge gives back one token per parameter, equal to its original text |
| SignatureShapes.LayoutTokens | common/src/ether/evm/types.rs:13-48 | the tokens of `name(p1,…,pk)` are `p1 … pk` |
| SignatureShapes.ItemClassify | common/src/ether/evm/types.rs:52-124 | each well-formed parameter is classified as its grammar says (`TypeOf`) |
| SignatureShapes.ListParse | common/src/ether/evm/types.rs:9-132 | the parse of `name(p1,…,pk)` lists the parameters' descriptors in order, drops the unknown ones, and is `None` when none is known |
| SignatureShapes.EntriesParse | common/src/ether/evm/types.rs:9-132 | the same, for a list given by its texts and descriptors |
| SignatureShapes.NoParameters | common/src/ether/evm/types.rs:14-20 | `name()` gives `None`: the one empty token matches no rule |
| SignatureShapes.ScalarList | common/src/ether/evm/types.rs:46-55 | a list of known scalar names gives one descriptor per name, in order |
| SignatureShapes.ExampleSimple | common/src/ether/evm/types.rs:226-238 | `name(uint256)` gives `[Uint(256)]` |
| SignatureShapes.ExampleTwoScalars | common/src/ether/evm/types.rs:240-253 | `name(uint256,string)` gives `[Uint(256), String]` |
| SignatureShapes.ExampleStringArray | common/src/ether/evm/types.rs:255-271 | `name(uint256,string[],uint256)` gives `[Uint(256), Array(String), Uint(256)]` |
| SignatureShapes.ExampleComplex | common/src/ether/evm/types.rs:273-298 | two scalars followed by the eight-field swap tuple |
| SignatureShapes.ExampleTuple | common/src/ether/evm/types.rs:300-323 | the eight-field swap tuple alone |
| SignatureShapes.ExampleNestedTuple | common/src/ether/evm/types.rs:325-354 | the tuple holding `(uint256,uint256)[]` gives `Array(Tuple([Uint(256), Uint(256)]))` in its sixth field |
| SignatureFindings.FixedArrayAsWritten | common/src/ether/evm/types.rs:78-98 | `name(w[n])` for a scalar name `w` and any usize `n` never finishes as written |
| SignatureFindings.FixedArrayCorrected | common/src/ether/evm/types.rs:78-98 | with the corrected rule it gives `[FixedArray(p, n)]` |
| SignatureFindings.FixedArrayExample | common/src/ether/evm/types.rs:78-98 | `uint256[3]`: `Exhausted` as written, `FixedArray(Uint(256), 3)` corrected |
| SignatureFindings.DoubleArrayAsWritten | common/src/ether/evm/types.rs:64-77 | `name(w[][])` gives only `[Array(p)]` as written |
| SignatureFindings.DoubleArrayCorrected | common/src/ether/evm/types.rs:64-77 | corrected, it gives `[Array(Array(p))]` |
| SignatureFindings.DoubleArrayExample | common/src/ether/evm/types.rs:64-77 | `uint256[][]` both ways |
| SignatureFindings.EdgeRemergeAsWritten | common/src/ether/evm/types.rs:24-45 | as written, the re-merge of the fragments of `(a,(b,c))` yields no token at all |
| SignatureFindings.EdgeRemergeCorrected | common/src/ether/evm/types.rs:24-45 | counting brackets, it yields the group as one token |
| SignatureFindings.EdgeTupleAsWritten | common/src/ether/evm/types.rs:9-132 | `name((a,(b,c)))` gives `None` as written |
| SignatureFindings.EdgeTupleCorrected | common/src/ether/evm/types.rs:9-132 | corrected, it gives `[Tuple([pa, Tuple([pb, pc])])]` |
| SignatureFindings.EdgeTupleExample | common/src/ether/evm/types.rs:9-132 | `(uint256,(bool,address))` both ways |
| Strings.IndexOfFirst | common/src/ether/evm/types.rs:14 | `split_once("(")` splits at the first `(`, and there is none exactly when the search fails |
| Strings.RemoveLastRemovesOne | common/src/ether/evm/types.rs:15-16 | `replace_last(s, ")", "")` removes exactly one `)`, the last, and leaves `s` alone when it has none |
| Strings.SplitOnJoin | common/src/ether/evm/types.rs:20 | the pieces of `split(",")` hold no comma and join back to the text |
| Strings.SplitJoin | common/src/ether/evm/types.rs:20 | splitting comma-free pieces joined with `,` gives them back |
| Strings.ReplaceAllShrinks | common/src/ether/evm/types.rs:65 | `replace(pat, "")` leaves the text unchanged when `pat` does not occur, and shortens it when it does |
| Strings.ParseUsize | common/src/ether/evm/types.rs:80 | `parse::<usize>()` fails on empty text and yields at most 2^64 - 1 |
| Strings.DecimalRoundTrip | common/src/ether/evm/types.rs:100 | parsing the decimal digits of any usize gives it back |
| Strings.CountMatches | common/src/ether/evm/types.rs:205 | the number of non-overlapping matches times the pattern's length fits in the text; zero when the pattern does not occur |
| Strings.CountChar | common/src/ether/evm/types.rs:205 | counting a one-character pattern counts that character |
| ValueDisplay.Display | common/src/ether/evm/types.rs:136-186 | the method (loop, inner chunk loop, recursive call) returns exactly `Render(inputs, prefix)` |
| ValueDisplay.OneLineValues | common/src/ether/evm/types.rs:142-149 | a scalar gives one line; an empty array gives `prefix[]` and an empty tuple `prefix()` |
| ValueDisplay.RenderAppend | common/src/ether/evm/types.rs:140-183 | the lines of a list are the lines of its values, one value after another |
| ValueDisplay.EveryLinePrefixed | common/src/ether/evm/types.rs:136-186 | every output line starts with `prefix` |
| ValueDisplay.RenderShift | common/src/ether/evm/types.rs:136-186 | rendering with a prefix is rendering without one, followed by putting the prefix in front of every line |
| ValueDisplay.RenderTokenShift | common/src/ether/evm/types.rs:141-182 | the same for one value |
| ValueDisplay.ChunksFlatten | common/src/ether/evm/types.rs:151 | the 64-character chunks join back to the hex text |
| ValueDisplay.ChunksSizes | common/src/ether/evm/types.rs:151 | no chunk is empty or longer than the width, and every chunk but the last is exactly the width |
| ValueDisplay.ChunksCount | common/src/ether/evm/types.rs:151 | there are ceil(n / 64) chunks for a text of n characters, so an empty byte string gives no line |
| ValueDisplay.ByteLinesEach | common/src/ether/evm/types.rs:153-160 | one line per chunk; only the first carries the `bytes` tag and `0x` |
| ValueDisplay.BytesLines | common/src/ether/evm/types.rs:150-161 | a byte string gives ceil(n / 64) lines; line k shows chunk k, and the chunks rebuild the hex text |
| ValueDisplay.CompositeFrame | common/src/ether/evm/types.rs:162-181 | a non-empty array or tuple gives an opening line, the children's lines indented by three more spaces, and a closing line |
| ValueDisplay.RenderCount | common/src/ether/evm/types.rs:136-186 | the number of lines is the sum, over the values, of one per scalar, one per chunk, one per empty composite and two per non-empty composite plus its children's lines |
| Bitmask.ConvertBitmask | common/src/ether/evm/types.rs:190-220 | the result is always empty; the width the loop computes is `MaskWidth(instruction)` |
| Bitmask.WidthAfter | common/src/ether/evm/types.rs:195-214 | for a mask that is neither `AND` nor `OR`, the width stays 32 |
| Bitmask.NothingQualifies | common/src/ether/evm/types.rs:195-214 | with no non-call-data operation among the operands, the width stays 32 |
| Bitmask.LastQualifyingWins | common/src/ether/evm/types.rs:198-214 | the width is the count at the last operand that is an operation other than `CALLDATALOAD`/`CALLDATACOPY` |
| Bitmask.WidthSource | common/src/ether/evm/types.rs:195-214 | the width is 32 or the count at some qualifying operand |
| Bitmask.WordCountBound | common/src/ether/evm/types.rs:205-208 | an input word of at most 64 hex digits, with or without a leading `0x`, holds at most 32 non-overlapping `ff` (for `AND`) or `00` (for `OR`): the `0x` can never be part of a match |
| Bitmask.WordWidthBound | common/src/ether/evm/types.rs:195-214 | when every input word is at most 64 hex digits, with or without a leading `0x` as `encode_hex` writes it, the width is at most 32 bytes |
| Bitmask.ExtendOperands | common/src/ether/evm/types.rs:198-214 | one more operand: a qualifying one overwrites the width, any other leaves it unchanged |
| Bitmask.PrefixWidth | common/src/ether/evm/types.rs:198-214 | the width after the first n operands depends only on those operands |

## Left out

- Terminal colouring (`.blue()`) of the type tags: tags are plain text.
- The `Display` text of ethers' `Token` values, `U256::to_string` and `AbiEncode::encode_hex`: addresses and byte strings carry their hex text as given, integers are shown by `Decimal`, and the instruction's input words carry their hex encoding as given, with or without a `0x` in front.
- `replace_last` in `crate::utils::strings` is not part of this model. It is taken to remove the last occurrence of the pattern, and is used only with `")"` and `""`.
- `usize` is taken to be 64 bits wide, so `parse::<usize>()` accepts an optional `+` and decimal digits up to 2^64 - 1.
- SignatureParser.Parse: the unbounded recursion of the fixed-array arm becomes `Exhausted` once `fuel` runs out. The stack overflow it causes in the source is not modelled.
- Bitmask.ConvertBitmask: the width is returned beside the empty list so that it can be stated. The source computes it and drops it. The table from widths to candidate type names does not exist in the code and is not invented.
- Bitmask.ConvertBitmask requires a non-empty list of output operations, and an instruction input at every position it reads. The source panics on an index out of bounds there.
- `Instruction`, `WrappedOpcode` and `WrappedInput` are reduced to the fields used: opcode name, operands, output operations, and the input words.
- `core/src/error.rs` holds only error wrappers for foreign libraries, with no logic. It is not part of this model.
- The model follows the code as written:
  - the fixed-array arm reads the size after the first `[` and recurses on the token itself;
  - `FixedBytes` sizes are not range-checked;
  - the bitmask width starts at 32 (the comment at `types.rs:194`) and is overwritten at every operand that is an operation other than a call-data load;
  - the bitmask scan returns no candidate types, although the comment at `types.rs:216` announces a choice of type from the width.
- SignatureProofs.DefaultWidths: stated for rests holding no second `uint` (for `uint`) or `int` (for `int`). `replace` removes every occurrence, so `uintuint8` has the width 8, and such tokens are not covered.
- SignatureProofs.BytesDefault: stated for rests holding no second `bytes`, for the same reason: `bytesbytes4` is `FixedBytes(4)`.
- SignatureShapes.ListParse is stated for the parameters the `Item` grammar describes. Those are scalar names and tuples whose first and last parameters are scalars. As written, an array of tuples is covered only when nothing inside it is an array. The `Edge` lemmas show what happens when a tuple sits at the edge of another.

## Findings

| source | as written | input that shows it | evidently intended | confidence | as-written member | corrected member |
|---|---|---|---|---|---|---|
| common/src/ether/evm/types.rs:86 | the fixed-array arm recurses on `replace("[]", "")`, which is the token itself for `T[N]` | `f(uint256[3])` | `[FixedArray(Uint(256), 3)]` | high; not executed | SignatureFindings.FixedArrayAsWritten | SignatureFindings.FixedArrayCorrected |
| common/src/ether/evm/types.rs:65 | the dynamic-array arm removes every `[]`, so inner dimensions are lost | `f(uint256[][])` gives `[Array(Uint(256))]` | `[Array(Array(Uint(256)))]` | high; not executed | SignatureFindings.DoubleArrayAsWritten | SignatureFindings.DoubleArrayCorrected |
| common/src/ether/evm/types.rs:29-37 | a fragment lowers the depth by one however many `)` it holds, so `c))` leaves the depth at 1 and the group is never emitted | `f((uint256,(bool,address)))` gives `None` | `[Tuple([Uint(256), Tuple([Bool, Address])])]` | high; not executed | SignatureFindings.EdgeTupleAsWritten | SignatureFindings.EdgeTupleCorrected |
