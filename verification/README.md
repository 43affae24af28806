# Lighthouse core in Dafny

Lighthouse is a static-analysis tool for C and C++. A GCC plugin serialises each
translation unit into an XML document: its types, its declarations, and the GIMPLE bodies of
its functions as basic blocks. A Python backend decodes that document into an intermediate
representation (IR) and runs pluggable checkers over every call. The checker shipped with
it verifies the format strings of a serialisation library (`dsPack*`, `dsUnpack*`,
`dsMake*`).

This project models both halves of that pipeline as pure Dafny functions over datatypes. It
proves what each operation guarantees.

Backend IR, one module per source file:
- `Types` models type kinds, the asymmetric `compare` and its six results, `__eq__`,
  aggregate resolution and rendering.
- `Types` also holds bindings and declarations.
- `Constants` models string, integer and float literals.
- `Decimals` models Python 2.7's `decimal.Decimal` as far as the backend uses it: reading a
  value from text, writing it with `str`, and its truth value.
- `Expressions` models expressions: declaration attachment, `get_type`, rendering, and
  the `&"str"[n]` string-literal case.
- `Statements` models statements: branch edges, switch-range expansion, temporary folding
  and rendering.
- `Blocks` models basic blocks: edges, grouping statements by line, and splitting a block
  element into its children.
- `Functions` models functions: natural block order, cyclomatic complexity, statement
  removal, and the two finalisation passes.
- `Units` models the unit: finalisation order and the guarded attributes.
- `Misc` models source locations and their highlight window.
- `Analysis` models checker dispatch and its diagnostics.
- `D3S` models the format-string checker.

`Tree` is the abstract decoded XML element the decoders walk. `Decoding` holds reference
decoders: XML character-data unescaping and Python's `string-escape` codec.

Plugin, the pure parts of the GCC serialiser:
- `PluginTree` models string-literal escaping, indentation, qualifier and attribute lists,
  binding elements, varargs detection, and the tags of declaration references.
- `PluginGimple` models statement and switch-label shapes and the rule for which
  control-flow edges become `<next>`.
- `UidMemo` models the uid dedup memo and the type and declaration write disciplines built
  on it.
- `PluginOutput` models `dump`, `dump_raw` and the document skeleton.
- `Complexity` models the complexity plugin's argument parsing and limit check.

`Pipeline` connects the halves. It proves what the plugin writes is what the backend reads:
- escaped literals decode back to their bytes;
- constants convert to the values the plugin printed;
- `<next>` edges plus branch targets give the GIMPLE successors.

`PluginTree` itself proves that every tag the plugin writes is one the backend decodes, and
that declaration-reference tags are lvalue tags.

Python exceptions become `Err`/`None` values, or a `Raised` outcome in an analysis run.
`StopAnalysis` is a `Stopped` outcome that dispatch absorbs. C assertion failures and
`fatal_error` become `None`/`Err`. Unsigned 32-bit arithmetic is written out modulo 2^32.

## Model

| member | source | states |
|---|---|---|
| Misc.ToC | backend/lighthouse/misc.py:75-81 | an object renders through its own `to_c`; a string through `repr`, a quoted text at least two characters longer than its bytes; an integer through `str`, which reads back as the integer |
| Misc.JoinRenderedIsJoin | backend/lighthouse/statements.py:52-55 | joining rendered values succeeds when every one is a string, and is then plain joining with the separator |
| Misc.ParseLocation | backend/lighthouse/misc.py:32-42 | a location is accepted only with two or three `:`-separated fields; the file is the first field (so holds no `:`) and the column is 0 with two fields |
| Text.ParseInt | backend/lighthouse/misc.py:35-38 | Python `int()` accepts an optional sign followed by decimal digits, and digits alone read as their decimal value (white space is discussed under "Left out") |
| Misc.LocationRoundTrip | backend/lighthouse/misc.py:26-42 | for a file name without `:`, setting a location from its printed form gives the same location |
| Misc.CanonicalLocationString | backend/lighthouse/misc.py:26-42 | the texts `f:l` and `f:l:c` with c non-zero are printed back unchanged after parsing |
| Misc.BadFieldCountRejected | backend/lighthouse/misc.py:33-42 | a text with any other number of fields is refused (ValueError) |
| Misc.SplitLinesOfUnlines | backend/lighthouse/misc.py:51 | `splitlines` of newline-terminated lines gives the lines back exactly when none holds a line break (line feed, carriage return or NEL) |
| Misc.SplitAtBreak | backend/lighthouse/misc.py:51 | a line feed or a NEL (U+0085, which a 0x85 source byte reads back as) ends the line before it, and the rest of the text is split on its own |
| Misc.HighlightRows | backend/lighthouse/misc.py:56-62 | the window succeeds exactly when every line it indexes exists (IndexError otherwise), with one row per line plus the caret row |
| Misc.HighlightRowsPlaced | backend/lighthouse/misc.py:56-62 | every line of the window appears in order, marked as the target exactly when it is the location's line, and the caret row follows the target when the column is non-zero |
| Misc.OneTargetRow | backend/lighthouse/misc.py:56-58 | exactly one row is marked `>>>` when the window reaches the target line, none otherwise |
| Misc.Highlight | backend/lighthouse/misc.py:48-64 | highlighting succeeds exactly when the window lies inside the source's lines, counted as `unicode.splitlines` counts them (a NEL ends a line) |
| Misc.CaretAligned | backend/lighthouse/misc.py:58-60 | for line numbers of at most four digits the caret stands under the target column's character |
| Misc.TargetRowWidth | backend/lighthouse/misc.py:58-59 | the target row is a nine-character prefix followed by the source line, for line numbers of at most four digits |
| Misc.CaretRowWidth | backend/lighthouse/misc.py:60 | the caret row has its caret at position `9 + column - 1` |
| Types.IntegerConstruct | backend/lighthouse/types.py:160-165 | a constructed integer has the given precision and signedness, id 0, no name and no `const` |
| Types.Compare | backend/lighthouse/types.py:89-321 | a function type compares to nothing (its `compare` returns None); aggregates and enums compare by id; `void` equals only `void`; a pointer is incompatible with a non-pointer and otherwise compares its targets |
| Types.IntegerEqualIff | backend/lighthouse/types.py:140-142 | two integers compare equal exactly when precision and signedness agree |
| Types.IntegerWidening | backend/lighthouse/types.py:144-156 | between different integers, truncation happens exactly when the source is wider; otherwise unsigned zero-extends and signed sign-extends; of two different precisions exactly one direction truncates |
| Types.ScalarCompare | backend/lighthouse/types.py:127-212 | integer to boolean zero-extends; integer and float resize; floats are equal at equal precision and resize otherwise; anything else is incompatible |
| Types.BooleanCompare | backend/lighthouse/types.py:230-240 | a boolean equals a boolean, compares to numbers as an unsigned 8-bit integer would, and is incompatible with the rest |
| Types.DefaultCompareIgnoresConstness | backend/lighthouse/types.py:81-96 | comparison by id ignores `const`, while equality also demands a non-zero id and the same constness |
| Types.SameLayoutIffEqual | backend/lighthouse/types.py:28-40 | only an `Equal` result has the same memory layout |
| Types.PointerCompareStrips | backend/lighthouse/types.py:314-321 | comparing pointers is comparing their targets after stripping the common pointer depth |
| Types.CompareNoneOnlyForFunctions | backend/lighthouse/types.py:271-276 | comparison has no result exactly when, after stripping common pointer levels, the left type is a function |
| Types.DecomposeToPointer | backend/lighthouse/types.py:428-431 | only an array decomposes, into an anonymous pointer to its element type |
| Types.ResolveAggregates | backend/lighthouse/types.py:102-108 | resolution succeeds exactly when every aggregate reference is in the table (AssertionError otherwise), leaves no reference behind and keeps the type's id |
| Types.ResolveAll | backend/lighthouse/types.py:260-263 | a list of types resolves element-wise, failing when any element has a missing reference |
| Types.ResolveDecls | backend/lighthouse/types.py:348-350 | a structure's members resolve element-wise, keeping their bindings |
| Types.ResolveDecl | backend/lighthouse/decl.py:53-55 | resolving a declaration changes only its type, which becomes resolved |
| Types.ResolveResolvedIsIdentity | backend/lighthouse/types.py:102-108 | resolving a type whose references are already table links changes nothing (see "Left out") |
| Types.ResolveIdempotent | backend/lighthouse/types.py:102-108 | resolving twice is resolving once, references being table links (see "Left out" for the Python objects) |
| Types.BindingToC | backend/lighthouse/decl.py:31-37 | a named binding renders as its name, an unnamed one with a truthy folded value as that value; the rendering is always truthy |
| Types.TemporarySpelling | backend/lighthouse/decl.py:36-37 | an unnamed, unfolded binding renders as `__tmp_` followed by its id, which reads back |
| Types.AttachBoundNames | backend/lighthouse/decl.py:57-59 | a declaration whose binding id is in the table gets that declaration attached; otherwise it is unchanged |
| Types.IntegerToC | backend/lighthouse/types.py:119-125 | a `const` integer renders with the `const ` prefix; an unnamed one as `int` or `uint` followed by its precision |
| Types.ArraySuffix | backend/lighthouse/types.py:433-437 | the array bound renders only for an integer domain; no domain or another kind raises |
| Types.TypeToC | backend/lighthouse/types.py:98-437 | every type but float and links renders as text; a pointer's text ends in `*`; a named structure or union renders as `struct`/`union` and its name |
| Types.DeclsToC | backend/lighthouse/types.py:359-360 | each member renders as one `;`-terminated declaration |
| Types.DeclToC | backend/lighthouse/decl.py:67-68 | a declaration renders as its type, a space and its binding, and fails when either is not text |
| Types.TypeClassOf | backend/lighthouse/types.py:448-463 | exactly the ten known tags decode, and `structure`, `array` and `union` become aggregate references |
| Types.AggregateClassOf | backend/lighthouse/types.py:465-468 | only `array`, `structure` and `union` are aggregates |
| Types.BuildAggregate | backend/lighthouse/types.py:373-446 | a structure keeps its members, an array its element type and domain, and both their id |
| Types.UnionDecodesAsStructure | backend/lighthouse/types.py:411-417 | a decoded union is built as a structure, so a named union renders as `struct` and its name |
| Constants.ConstantType | backend/lighthouse/constant.py:24-37 | a string constant's type is a pointer to its array's element type, and only an array can give one; any other constant has its own type |
| Constants.ConstantValue | backend/lighthouse/constant.py:26-27 | the stored value is the string's bytes or the integer itself |
| Constants.ConstantToC | backend/lighthouse/constant.py:28-40 | a string renders as text, its `repr`; an integer hands back the number itself, whose text reads back as it; a float hands back its `Decimal`, true exactly when it is an infinity or a NaN or its coefficient is not 0, and whose `str` reads back as the same value |
| Constants.FloatText | backend/lighthouse/constant.py:51-54 | a float is read from its `special` attribute when that is present and non-empty, else from `value`, whose absence raises TypeError |
| Constants.ReprDecodes | backend/lighthouse/constant.py:34-40 | the text `repr` puts between its quotes decodes with `string-escape` to exactly the original bytes |
| Constants.StringConstantRendering | backend/lighthouse/constant.py:39-40 | the C rendering of a string constant is a quoted literal whose contents decode back to the constant's bytes |
| Misc.Format | backend/lighthouse/expression.py:69 | `'%s' % v` writes a text unchanged, an integer so that it reads back, and a `Decimal` as its `str`, which reads back as the same value (see also lines 85, 98 of the same file) |
| Decimals.ParseDecimal | backend/lighthouse/constant.py:51-54 | `Decimal(text)` of any text is either an error or a canonical value: a coefficient of digits without leading zeros, or a NaN payload without leading zeros, with the sign read from the text |
| Decimals.ParseUnsigned | backend/lighthouse/constant.py:51-54 | after the sign, text is a number or a special name, each read as a canonical value with that sign |
| Decimals.StrReadsBack | backend/lighthouse/constant.py:51-54 | `Decimal(str(d)) == d` for every canonical value: sign, coefficient, exponent and NaN payload all survive the printed form |
| Decimals.CoefficientZero | backend/lighthouse/constant.py:51-54 | the coefficient read is `0`, which makes a finite value false, exactly when every digit of the number is 0 |
| Decimals.SpecialNames | plugin/lighthouse-tree.c:542-546 | `+Infinity`, `-Infinity` and `NaN` read as the positive and negative infinity and the quiet NaN; `str` writes them back without the `+` (see also `backend/lighthouse/constant.py:51-52`) |
| Decimals.ScientificNumber | plugin/lighthouse-tree.c:549-550 | scientific notation, digits, a point, digits, `e` or `E` and a signed exponent, reads with all its digits as the coefficient and the exponent less the number of digits after the point |
| Decimals.NumberValue | backend/lighthouse/constant.py:53-54 | a trimmed number after an optional `-` reads as that number with that sign |
| Decimals.ScientificPrintsPlain | plugin/lighthouse-tree.c:549-550 | `2.5e+1` reads as 25 and prints back as `25` (see also `backend/lighthouse/constant.py:53-54`) |
| Constants.LiteralKindOf | backend/lighthouse/constant.py:57-59 | exactly the three literal tags are known, each to its own kind |
| Constants.Convert | backend/lighthouse/constant.py:31-65 | non-`constant` tag and unknown literal kind fail the assertion, a wrong child count raises ValueError; a string result carries the aggregate type and the bytes its text decodes to, an integer result the scalar type and the number its `value` attribute parses to; a float result the scalar type and the `Decimal` its text reads as, and a text that is not a number raises InvalidOperation |
| Tree.DescendOne | backend/lighthouse/misc.py:66-73 | the single child is returned exactly when there is one; any other count fails the assertion |
| Units.NewUnit | backend/lighthouse/unit.py:27-32 | a new unit has no types and no functions, and its source, language and file name cannot yet be read |
| Units.Source | backend/lighthouse/unit.py:46-48 | reading the source succeeds exactly when one was set, and otherwise fails the assertion |
| Units.SetSource | backend/lighthouse/unit.py:49-50 | after setting, the source reads back as what was set, and nothing else changed |
| Units.Lang | backend/lighthouse/unit.py:53-55 | reading the language succeeds exactly when one was set |
| Units.SetLang | backend/lighthouse/unit.py:56-58 | only `C` and `C++` are accepted, and an accepted language reads back unchanged with nothing else changed |
| Units.LangIsKnown | backend/lighthouse/unit.py:53-58 | whatever language a unit reports is `C` or `C++` |
| Units.Filename | backend/lighthouse/unit.py:61-63 | reading the file name succeeds exactly when one was set |
| Units.SetFilename | backend/lighthouse/unit.py:64-65 | after setting, the file name reads back as what was set, and nothing else changed |
| Units.ResolveKeysOnly | backend/lighthouse/unit.py:39-40 | resolving a type depends only on which aggregate ids the table holds, so resolving entries in place while iterating gives the same result as resolving against the original table |
| Units.ResolveTypes | backend/lighthouse/unit.py:39-40 | resolving the type table keeps its ids, and fails only on a missing aggregate |
| Units.ResolveTypesAtOnce | backend/lighthouse/unit.py:39-40 | the in-place loop succeeds exactly when every entry's references are in the table, and then equals resolving every entry against the original table |
| Units.ResolveTypesResolves | backend/lighthouse/unit.py:39-40 | after the loop every entry visited is resolved |
| Units.ResolveTypesIdle | backend/lighthouse/unit.py:39-40 | a table whose entries are already resolved is left unchanged |
| Units.FinaliseFunction | backend/lighthouse/unit.py:42-44 | finalising a function keeps its name, entry block and block count, and with a resolved table leaves its scope resolved |
| Units.FinaliseFunctions | backend/lighthouse/unit.py:42-44 | every function is finalised, in order, or the first failure is the unit's |
| Units.Finalise | backend/lighthouse/unit.py:38-44 | a finalised unit keeps its type ids, source, language and file name, its table is resolved and so is every function's scope |
| Units.FinaliseTypesSettled | backend/lighthouse/unit.py:38-40 | on the model's linked table, resolving the finalised table again changes nothing (see "Left out") |
| Expressions.LastArgIndex | backend/lighthouse/functions.py:88 | the argument dictionary keeps, for an id, the last argument carrying it; no later argument has that id, and there is none exactly when no argument has it |
| Expressions.SlotIn | backend/lighthouse/expression.py:53-55 | a reference finds a declaration in a table exactly when its id is a key of that table (for the arguments, an id some argument carries) |
| Expressions.Lookup | backend/lighthouse/expression.py:53-55 | an attached reference designates a declaration exactly when its table still holds its id |
| Expressions.Attach | backend/lighthouse/expression.py:31-34 | attachment changes nothing but the declaration references: the expression with attachments erased is the same (see also lines 53-55, 65-66, 81-82, 94-95, 129-130 of the same file) |
| Expressions.AttachEveryRef | backend/lighthouse/expression.py:53-55 | compound expressions forward attachment to every sub-expression: each reference, in order, is attached as a lone reference would be (see also lines 65-66, 81-82, 94-95, 129-130 of the same file) |
| Expressions.LaterTableWins | backend/lighthouse/expression.py:53-55 | attaching from a second table overrides the first for an id both hold; an id in neither keeps its previous attachment |
| Expressions.ExprToC | backend/lighthouse/expression.py:69 | every expression other than a reference or a constant renders as text, or fails (see also lines 85, 98, 115, 123, 141 of the same file) |
| Expressions.RenderingShapes | backend/lighthouse/expression.py:68-69 | `a.m`, `a[i]` and `*x` are their parts formatted with `%s` around `.`, `[ ]` and `*`, and render exactly when their parts do; `(void)` and `__result` are fixed; an attached reference renders its declaration's binding, or raises KeyError when the declaration is gone (see also lines 84-85, 97-98, 114-115, 122-123 of the same file) |
| Expressions.RenderingFaults | backend/lighthouse/expression.py:140-141 | rendering fails only with KeyError (a reference whose declaration is gone) or TypeError (`'&' +` a number); with every reference resolved only TypeError remains, and without `&` rendering always succeeds (see also lines 68-69, 84-85, 97-98 of the same file) |
| Expressions.UnattachedRendering | backend/lighthouse/expression.py:47-51 | an unattached reference renders as `U.` followed by its id in decimal |
| Expressions.AddrOfNeedsText | backend/lighthouse/expression.py:140-141 | `&x` renders exactly when `x` renders as text, and is then `&` followed by that text |
| Expressions.SliceFrom | backend/lighthouse/expression.py:147 | Python's `value[index:]`: a suffix of the bytes, from `index` when in range, the last `-index` bytes for a negative index, empty past the end |
| Expressions.StripNuls | backend/lighthouse/expression.py:147 | `rstrip('\0')`: the longest prefix not ending in NUL, everything after it NUL |
| Expressions.LiteralOf | backend/lighthouse/expression.py:143-147 | there is a literal exactly for a string constant indexed by an integer constant, and it is the bytes from the index with trailing NULs stripped |
| Expressions.StringLiteralOf | backend/lighthouse/expression.py:143-147 | only an address-of answers `string_literal` (anything else has no such method); its answer is the literal of its operand |
| Expressions.LiteralExample | backend/lighthouse/expression.py:143-147 | `&"abc\0\0"[1]` gives `bc`: the suffix from the index without its NUL padding |
| Expressions.NegativeIndexExample | backend/lighthouse/expression.py:143-147 | a negative index counts from the end, as Python slicing does: `&"abc"[-1]` gives `c` |
| Expressions.ElementType | backend/lighthouse/expression.py:76-79 | an array's element type, following one table link to an array; anything else fails |
| Expressions.RefType | backend/lighthouse/expression.py:36-55 | a reference's type is its attached declaration's type; an unattached reference (or a non-reference) has none |
| Expressions.ItemAndIndirectTypes | backend/lighthouse/expression.py:76-79 | `a[i]` has the element type of `a`'s array type; `*x` has `x`'s own type, unchanged (see also lines 91-92 of the same file) |
| Expressions.AddrOfType | backend/lighthouse/expression.py:132-138 | `&x` is a pointer to `x`'s type, except for a non-empty string literal, where it is the string constant's own type (a pointer to its element type) |
| Expressions.EmptyLiteralHasNoType | backend/lighthouse/expression.py:132-138 | an empty literal (index at the end of the string) falls to the pointer case, and an item of a constant has no type there |
| Expressions.LvalueKindOf | backend/lighthouse/expression.py:28-29 | exactly the lvalue tags decode, `bound` and `bound-parameter` both as a reference (see also lines 149-161 of the same file) |
| Expressions.ExprKindOf | backend/lighthouse/expression.py:164-229 | a tag is an lvalue, a binary or a unary operator exactly when it is in the corresponding table |
| Expressions.LvalueTagsAreNotOperators | backend/lighthouse/expression.py:215-218 | no lvalue tag, and not `constant`, is a key of the binary or the unary operator table, so the dispatch order cannot send them to an operator |
| Expressions.OperatorTablesDisjoint | backend/lighthouse/expression.py:164-213 | the binary and the unary operator tables share no key |
| Expressions.UnknownTagIsPlaceholder | backend/lighthouse/expression.py:231-233 | an unrecognised tag yields the placeholder reference with id 0, which renders as `U.0` and has no type |
| Statements.PutLookup | backend/lighthouse/statements.py:215 | after `mapping[k] = t`, `k` leads to `t` and every other key to what it led to before |
| Statements.PutRangeLookup | backend/lighthouse/statements.py:222-223 | a range label sends every value from low to high to its target and leaves other keys alone |
| Statements.CaseTableOf | backend/lighthouse/statements.py:211-220 | a case table is built only when no label is strange (not one `exact` child, nor a `low-bound`/`high-bound` pair) |
| Statements.AddLabelLookup | backend/lighthouse/statements.py:211-223 | one label's own keys lead to its target after it is added; other keys keep their target |
| Statements.CaseTableValue | backend/lighthouse/statements.py:211-223 | an integer value covered by several ranges goes to the last range covering it |
| Statements.CaseTableExact | backend/lighthouse/statements.py:212-215 | every exact label keeps an entry of its own with its own target |
| Statements.CaseTableLookup | backend/lighthouse/statements.py:203-224 | the whole table: every integer value goes to the last range covering it, every exact label to its target |
| Statements.StatementEdges | backend/lighthouse/statements.py:43-44 | a conditional branch's edges are its two targets; a switch's are its case targets in table order, then the default when truthy; any other statement has none |
| Statements.SwitchEdgesCoverCases | backend/lighthouse/statements.py:198-201 | every block a switch's case table or its default reaches is among the switch's edges |
| Statements.AttachStatement | backend/lighthouse/statements.py:57-58 | attaching declarations changes neither a statement's edges nor its location |
| Statements.ExprsToC | backend/lighthouse/statements.py:53 | the operands render one by one, and rendering fails only when one of them fails |
| Statements.CondRenderingNamesEdges | backend/lighthouse/statements.py:93-95 | the rendered branch ends with its else target, which reads back from the text |
| Statements.IntegerOperandBreaksJoin | backend/lighthouse/statements.py:52-55 | an assignment whose single operand is an integer constant cannot be rendered: the join meets a number and raises TypeError |
| Statements.FoldChangesOneDecl | backend/lighthouse/statements.py:66-68 | folding sets the folded value of exactly one declaration and leaves every other lookup unchanged |
| Statements.Convolve | backend/lighthouse/statements.py:60-71 | the statement is dropped exactly when it assigns one operand to an unnamed bound variable; otherwise the scope is untouched |
| Statements.FoldedTemporaryRendersAsValue | backend/lighthouse/statements.py:66-68 | once folded, the temporary renders as the value assigned to it when that value is truthy, and as its temporary name otherwise |
| Statements.StatementKindOf | backend/lighthouse/statements.py:226-240 | exception dispatch is skipped, the five known tags are decoded, and any other tag fails the assertion |
| Statements.ReturnRendering | backend/lighthouse/statements.py:157-161 | a return renders as `return` exactly when it has no value, else `return ` followed by the value's rendering |
| Blocks.BlockEdges | backend/lighthouse/bb.py:39-43 | a block's edges start with its explicit successors, in order |
| Blocks.StatementsEdgesAppend | backend/lighthouse/bb.py:41-42 | the statements' edges of a list split anywhere are the edges of the two parts, in order |
| Blocks.StraightLineEdges | backend/lighthouse/bb.py:39-43 | a block with no conditional branch or switch has exactly its explicit successors as edges |
| Blocks.StatementsToC | backend/lighthouse/bb.py:31-32 | every statement renders, indented by two spaces, one line each, or the block fails |
| Blocks.ByLineFlatten | backend/lighthouse/bb.py:51-63 | the groups, concatenated, are the statements in order: none lost, none repeated |
| Blocks.ByLineGroups | backend/lighthouse/bb.py:51-63 | every group is non-empty and its located statements share the line of the group's location |
| Blocks.StatementsByLineSound | backend/lighthouse/bb.py:45-63 | `statements_by_line` partitions the block's statements into consecutive same-line groups |
| Blocks.ByLineExample | backend/lighthouse/bb.py:56-61 | statements on lines 3, 3 and 4 form two groups, the first holding two statements |
| Blocks.BlockFromChildren | backend/lighthouse/bb.py:69-76 | successors and kept statements each keep document order, skipped statements leave no trace, and the first failing child's fault is the block's |
| Blocks.ChildrenAccounted | backend/lighthouse/bb.py:69-76 | every child is a successor, a kept statement, or skipped (or failing) |
| Blocks.ChildOf | backend/lighthouse/bb.py:70-74 | a `next` child becomes a successor exactly when its `id` reads as a number; every other child goes to the statement decoder |
| Blocks.BlockFromXml | backend/lighthouse/bb.py:65-77 | a non-`block` element fails the assertion; a decoded block has the element's id, its `next` ids as successors and its kept statements |
| Blocks.NextTargetsOf | backend/lighthouse/bb.py:71-72 | when every `next` id is a number, the successors are exactly the `next` children's ids, in document order |
| Functions.BoundsDiff | backend/lighthouse/functions.py:25-31 | the line count runs from the earlier of the declaration line and the body start to the body end, inclusive; without a declaration line `min(None, lo)` makes it fail |
| Functions.EdgesOf | backend/lighthouse/functions.py:121 | a block id that is not in the function has no edges (see also lines 136 of the same file) |
| Functions.CountEdgesUpdate | backend/lighthouse/functions.py:99-103 | edges are counted per block with duplicates: replacing one block changes the count by the difference of that block's edge counts |
| Functions.ChainComplexity | backend/lighthouse/functions.py:94-97 | a chain of blocks (one edge each, none from the last) has complexity 1 |
| Functions.ChainEdges | backend/lighthouse/functions.py:99-103 | a chain of n blocks has n - 1 edges |
| Functions.ExtraEdgeComplexity | backend/lighthouse/functions.py:94-103 | one more successor on any block raises the complexity by exactly one |
| Functions.DiscoveredReaches | backend/lighthouse/functions.py:120-137 | every block the walk lists was found along edges from the first one |
| Functions.ClosedHoldsPath | backend/lighthouse/functions.py:134-137 | a path that starts in a list closed under edges stays in it |
| Functions.ClosedHoldsReachable | backend/lighthouse/functions.py:134-137 | everything reachable from a member of an edge-closed list is in the list |
| Functions.AddEdges | backend/lighthouse/functions.py:120-129 | `add` over one block's edges appends, in edge order, each target not yet seen, keeping what was there; a target that is not a block raises KeyError (see also lines 136-137 of the same file) |
| Functions.AddEdgesKeeps | backend/lighthouse/functions.py:120-137 | adding the edges of the block at the head keeps every listed block discovered and every block before the head closed |
| Functions.Walk | backend/lighthouse/functions.py:134-137 | the FIFO loop extends the list to one closed under edges; on KeyError some block reachable from the start has an edge to a missing block |
| Functions.BreadthFirst | backend/lighthouse/functions.py:131-137 | the walk starts with the entry block and ends closed under edges; it fails only for a missing entry or a reachable dangling edge |
| Functions.MaxId | backend/lighthouse/functions.py:140 | `max(self.blocks.keys())`: a block id no other block id exceeds |
| Functions.MoveToEnd | backend/lighthouse/functions.py:141-142 | `remove` then `append`: the list without its first `x`, the others in their order, then `x`; fails exactly when `x` is absent |
| Functions.IndexOf | backend/lighthouse/functions.py:141 | the first position holding `x` |
| Functions.NaturalOrder | backend/lighthouse/functions.py:111-144 | breadth-first from the entry over exactly the reachable blocks, none twice, with the highest-numbered block last; KeyError for a missing edge target, ValueError when the last block is not reached |
| Functions.WalkReachable | backend/lighthouse/functions.py:120-137 | a closed walk lists exactly the blocks reachable from its first block |
| Functions.AddEdgesOrder | backend/lighthouse/functions.py:120-129 | the targets `add` appends come in the order of their first edge |
| Functions.FifoStep | backend/lighthouse/functions.py:134-137 | visiting the block at the head of the queue keeps the breadth-first rule for every block visited so far |
| Functions.FoundStep | backend/lighthouse/functions.py:134-137 | after a visit every listed block but the first was found by an already visited block |
| Functions.WalkFifo | backend/lighthouse/functions.py:134-137 | the worklist loop lists blocks in the order of the block that first finds them, and those found by one block in its edge order |
| Functions.BreadthFirstFifo | backend/lighthouse/functions.py:131-137 | the walk from the entry block lists the blocks in breadth-first order |
| Functions.NaturalOrderBreadthFirst | backend/lighthouse/functions.py:111-144 | the natural order is the breadth-first order from the entry with the highest-numbered block moved from its place to the end |
| Functions.DeclTable | backend/lighthouse/functions.py:177-180 | the id -> declaration table is built exactly when no id repeats, and then maps each id to its declaration and nothing else (see also lines 187-190 of the same file) |
| Functions.BlockTable | backend/lighthouse/functions.py:182-185 | block decoding succeeds exactly when no block id repeats |
| Functions.AttachBlocks | backend/lighthouse/functions.py:64-68 | attachment visits every statement of every block and removes nothing (it returns None) (see also lines 89-91 of the same file) |
| Functions.FoldKeepsFolding | backend/lighthouse/statements.py:63-71 | folding a value into a declaration does not change which statements fold |
| Functions.FoldStatements | backend/lighthouse/functions.py:64-68 | within a block, the statements that fold are removed and the rest kept in order (see also lines 92 of the same file) |
| Functions.FoldKeepsFolding2 | backend/lighthouse/functions.py:64-68 | folding one statement does not change which later statements fold |
| Functions.FoldBlocks | backend/lighthouse/functions.py:64-68 | the pass keeps every block, its id and its successors |
| Functions.FoldBlocksRemovesFolds | backend/lighthouse/functions.py:64-68 | across all blocks, exactly the folding statements are removed, judged on the scope before the pass (see also lines 92 of the same file) |
| Functions.FoldStatementsKeepsFolding | backend/lighthouse/functions.py:64-68 | a folding pass over some statements does not change which other statements fold |
| Functions.ResolveTemporaryNames | backend/lighthouse/functions.py:87-92 | each block keeps its id and edges, and its statements become those attached from the arguments, then the locals, then the externals, less the ones that fold a temporary; entry and declaration types are kept |
| Functions.AttachBlocksThree | backend/lighthouse/functions.py:89-91 | the three attachment passes over the blocks attach each statement by the three passes in turn |
| Functions.FoldScopeShape | backend/lighthouse/functions.py:87-92 | the folding pass changes only folded values: every table keeps its keys and types |
| Functions.AttachPrecedence | backend/lighthouse/functions.py:87-91 | after arguments, locals and externals are attached in that order, a reference is attached from the externals if it is there, else the locals, else the arguments, else it keeps its attachment |
| Functions.MemberDecls | backend/lighthouse/functions.py:70-74 | every key of the aggregate member table is the id of a member of a structure or union in the type table |
| Functions.AggregateMembers | backend/lighthouse/functions.py:70-72 | the collected list holds only members of the listed structures and unions |
| Functions.MemberDeclsLastWins | backend/lighthouse/functions.py:70-74 | the member table is the `dict` of the collected members: every member id is a key, and each maps to the last member with that id |
| Functions.MemberDeclsKeys | backend/lighthouse/functions.py:70-74 | the keys of the member table are exactly the ids of the members of the structures and unions in the type table |
| Functions.AggregateMembersComplete | backend/lighthouse/functions.py:71-73 | every member of every structure or union in the type table is collected |
| Functions.AddMembersLastWins | backend/lighthouse/functions.py:74 | storing members one by one keeps the earlier keys, adds every member id, and leaves each id on its last member |
| Functions.AddMembers | backend/lighthouse/functions.py:74 | the dictionary gains every member id and loses nothing |
| Functions.ResolveLocals | backend/lighthouse/functions.py:77-82 | a table resolves exactly when every declaration's type refers only to known ids, keeping its keys and resolving each declaration |
| Functions.ResolveFunctionAggregates | backend/lighthouse/functions.py:76-85 | succeeds exactly when the locals', arguments' and externals' types refer only to known aggregates (AssertionError otherwise); afterwards all three are resolved with their keys and bindings kept, the member table is the aggregates' members, every block is attached from it, and nothing else changes |
| Analysis.At | backend/lighthouse/analysis.py:49-52 | a statement is cited in a diagnostic only when it has a location, under its caption |
| Analysis.Headline | backend/lighthouse/analysis.py:47 | the printed line ends with the message itself |
| Analysis.PlacesFault | backend/lighthouse/analysis.py:49-53 | printing the places fails exactly when one of them cannot be highlighted: AssertionError with no source, IndexError for a window past its lines, counted as `splitlines` counts them, NEL included (see also `backend/lighthouse/misc.py:48-64`) |
| Analysis.UnlocatedCannotRaise | backend/lighthouse/analysis.py:49-52 | a diagnostic about a statement without location shows no place and cannot raise |
| Analysis.NoSourceRaises | backend/lighthouse/analysis.py:49-53 | citing a located statement when the unit holds no source raises AssertionError (see also `backend/lighthouse/unit.py:46-48`) |
| Analysis.NearEndRaises | backend/lighthouse/analysis.py:49-53 | citing a line within five lines of the end of the source (lines as `splitlines` counts them, NEL included) raises IndexError from the highlight window (see also `backend/lighthouse/misc.py:56-62`) |
| Analysis.ShownPlaceStops | backend/lighthouse/analysis.py:55-57 | an `error` whose place can be highlighted stops the analysis |
| Analysis.ErrorRun | backend/lighthouse/analysis.py:55-57 | `error` emits exactly one diagnostic, of severity Error, with the message and places given; it stops the analysis when every place can be highlighted, and otherwise raises what highlighting raised |
| Analysis.WarnRun | backend/lighthouse/analysis.py:45-53 | `warn` emits exactly one diagnostic with the message and carries on when every place can be highlighted; otherwise it raises what highlighting raised |
| Analysis.Then | backend/lighthouse/analysis.py:55-57 | once a run has stopped or raised, nothing after it runs; otherwise the diagnostics accumulate in order |
| Analysis.ErrorStops | backend/lighthouse/analysis.py:55-57 | nothing written after an `error` call has any effect, whether it stopped or raised |
| Analysis.HandlerName | backend/lighthouse/analysis.py:63-72 | a handler is registered under its explicit name when one is given, else under its function name |
| Analysis.Enumerate | backend/lighthouse/analysis.py:90-97 | the table gains exactly the names of the decorated methods, keeps every other entry, and maps each name to a decorated method with that name |
| Analysis.EnumerateTwice | backend/lighthouse/analysis.py:90-97 | filling the table again (as every `check_unit` does) changes nothing (see also lines 99-102 of the same file) |
| Analysis.LastRegistration | backend/lighthouse/analysis.py:94-97 | when two methods register the same name, the later one in enumeration order wins |
| Analysis.DistinctNamesTable | backend/lighthouse/analysis.py:94-97 | with distinct names and no explicit ones, each method is registered under its own name and nothing else is registered |
| Analysis.Chain | backend/lighthouse/analysis.py:104-108 | a step that let an exception escape ends the sequence; otherwise the next step's diagnostics follow |
| Analysis.ChainAssociates | backend/lighthouse/analysis.py:104-108 | grouping of the steps does not matter |
| Analysis.HandlerFor | backend/lighthouse/analysis.py:79-81 | a handler is found exactly when the rendered callee is text and a key of the table |
| Analysis.Handle | backend/lighthouse/analysis.py:78-88 | a callee that does not render escapes; no handler means no effect; StopAnalysis from the handler is swallowed; any other exception adds one warning and escapes, unless printing that warning raises first, which then escapes instead |
| Analysis.ErrorNearEndEscapes | backend/lighthouse/analysis.py:55-57 | an `error` about a line near the end of the source leaves its diagnostic, then the exception warning, and an IndexError escapes the dispatch (see also lines 84-88 of the same file) |
| Analysis.UnregisteredCallIsQuiet | backend/lighthouse/analysis.py:81 | a call to a name with no handler produces nothing |
| Analysis.DispatchVisitsAll | backend/lighthouse/analysis.py:104-108 | when no handler lets an exception escape, every call is handled in order and the diagnostics are all of theirs, in order |
| Analysis.DispatchStopsAtEscape | backend/lighthouse/analysis.py:86-88 | the first call whose handler lets an exception escape ends the dispatch, after the diagnostics of the calls before it (see also lines 104-108 of the same file) |
| Analysis.BlockWith | backend/lighthouse/analysis.py:105 | a block is found exactly for an id of the function, and it has that id |
| Analysis.CallsOf | backend/lighthouse/analysis.py:106-107 | exactly the call statements of a block are visited |
| Analysis.CallsInOrder | backend/lighthouse/analysis.py:105-107 | only call statements are visited |
| Analysis.CallsInOrderAppend | backend/lighthouse/analysis.py:105-107 | calls are visited block by block in the given order |
| Analysis.CallsOfOneBlock | backend/lighthouse/analysis.py:106-107 | one block contributes its calls in statement order |
| Analysis.CheckFunctionsAppend | backend/lighthouse/analysis.py:104 | functions are checked one after another in unit order |
| Analysis.CheckOneFunction | backend/lighthouse/analysis.py:104-108 | a function's calls are dispatched in natural block order, then statement order |
| Analysis.CheckUnit | backend/lighthouse/analysis.py:99-102 | the handler table is filled before any call is dispatched |
| Analysis.EnumerateAnalysers | backend/lighthouse/analysis.py:133-140 | the registry is reset and holds the user's analysers, then the site's |
| Analysis.AnalyseOne | backend/lighthouse/analysis.py:142-150 | an object that is not an analyser is ignored; a StopAnalysis is swallowed; a call analyser checks the unit through its handler table |
| Analysis.AnalyseSkipsOthers | backend/lighthouse/analysis.py:149-150 | non-analyser objects anywhere in the list make no difference |
| Analysis.StoppedAnalyserContinues | backend/lighthouse/analysis.py:145-148 | an analyser that stops keeps its diagnostics and the next analyser runs |
| Analysis.RaisingAnalyserEnds | backend/lighthouse/analysis.py:143-148 | any other exception ends `analyse` |
| Analysis.UserBeforeSite | backend/lighthouse/analysis.py:137-138 | every user analyser runs before every site analyser (see also lines 142-151 of the same file) |
| Analysis.AnalyseAppend | backend/lighthouse/analysis.py:142-151 | analysers run one after another in list order |
| D3S.UnpackEntry | backend/analysers/d3s.py:4-28 | every unpack specifier is non-empty and starts with a lower-case letter |
| D3S.PackEntry | backend/analysers/d3s.py:30-53 | every pack specifier is non-empty and starts with a lower-case letter |
| D3S.Entry | backend/analysers/d3s.py:4-53 | the table in force for the mode has only non-empty, lower-case-led specifiers |
| D3S.FirstMatch | backend/analysers/d3s.py:87-93 | the first table entry that prefixes the format, or none when no entry does |
| D3S.Decompose | backend/analysers/d3s.py:62-97 | decomposition yields at most one descriptor per format character, and an error names a non-empty unrecognised remainder |
| D3S.SpelledDecomposes | backend/analysers/d3s.py:62-97 | a format string spelled by a greedy reading of specifiers (pipes, unchecked characters, table keys, first match winning) decomposes into exactly that reading's descriptors, in order |
| D3S.DecomposedIsSpelled | backend/analysers/d3s.py:62-97 | whatever decomposition accepts is spelled by some greedy reading that asks for the descriptors it found |
| D3S.DecomposeIffSpelled | backend/analysers/d3s.py:62-97 | decomposition succeeds exactly on the format strings some greedy reading spells, and then finds that reading's descriptors |
| D3S.PipeIsSkipped | backend/analysers/d3s.py:73-75 | `|` contributes no descriptor |
| D3S.DashIsUnchecked | backend/analysers/d3s.py:77-80 | `-` contributes one None, in either mode |
| D3S.UpperIsUncheckedWhenUnpacking | backend/analysers/d3s.py:82-85 | when unpacking, any character equal to its upper-case form contributes one None |
| D3S.FirstMatchIs | backend/analysers/d3s.py:87-93 | the first prefixing entry is the one found |
| D3S.TableStep | backend/analysers/d3s.py:87-93 | a recognised specifier contributes its C type and decomposition continues after it |
| D3S.UnpackV32 | backend/analysers/d3s.py:7 | `v(32)` when unpacking is one `uint32_t*`, not `v` followed by something else (see also lines 87-93 of the same file) |
| D3S.DecomposeExample | backend/analysers/d3s.py:4-27 | `i-v(32)` when unpacking gives `int*`, None, `uint32_t*` (see also lines 73-93 of the same file) |
| D3S.Needed | backend/analysers/d3s.py:117-130 | at most two arguments per descriptor are consumed (see also lines 144-154 of the same file) |
| D3S.MatchArgs | backend/analysers/d3s.py:99-103 | matching completes silently only when there were enough arguments; running out or a mismatch ends the call with one error diagnostic (see also lines 117-130, 144-154 of the same file) |
| D3S.Slots | backend/analysers/d3s.py:117-130 | the arguments the specifiers call for, in popping order: per specifier a symbol for the map variants, then a value unless an unpack specifier is None (see also lines 144-154 of the same file) |
| D3S.FailAt | backend/analysers/d3s.py:99-103 | an unfilled slot ends the call: out of arguments with the not-enough error, an untypable argument by raising, otherwise with the symbol or value error (see also lines 117-130 of the same file) |
| D3S.MatchArgsDone | backend/analysers/d3s.py:117-130 | a call completes exactly when every slot its format calls for is filled by the argument in that position, and then writes nothing (see also lines 144-154 of the same file) |
| D3S.MatchArgsFirstMismatch | backend/analysers/d3s.py:117-130 | the first slot whose argument is missing or of the wrong type ends the call, as `FailAt` says (see also lines 144-154 of the same file) |
| D3S.MatchArgsBySlots | backend/analysers/d3s.py:117-130 | the popping loop is the slot-by-slot reading of the format (see also lines 144-154 of the same file) |
| D3S.MatchSlotsDone | backend/analysers/d3s.py:117-130 | slot by slot, matching completes exactly when every slot is filled |
| D3S.MatchSlotsFirstFailure | backend/analysers/d3s.py:117-130 | slot by slot, the first unfilled slot decides the run |
| D3S.SurplusIgnored | backend/analysers/d3s.py:117-130 | arguments beyond those the format asks for are not reported (see also lines 144-154 of the same file) |
| D3S.CheckFormat | backend/analysers/d3s.py:108-114 | a non-literal format gives exactly one warning and nothing else; an unrecognised format one error that does not complete; otherwise the arguments are matched against the descriptors (see also lines 135-142 of the same file) |
| D3S.CheckUnpack | backend/analysers/d3s.py:105-130 | fewer than four arguments fail the assertion; the format is argument 3, the values start at 4, and only `dsUnpackMap` takes symbols |
| D3S.PackGuardOffByOne | backend/analysers/d3s.py:132-134 | with exactly `fmtidx` arguments the guard passes and the format lookup raises IndexError |
| D3S.CheckPack | backend/analysers/d3s.py:132-154 | the corrected check: the format is argument `fmtidx`, the values follow it, only `dsPackMapB` takes symbols, and a call with too few arguments fails the assertion |
| D3S.CheckPackAsWritten | backend/analysers/d3s.py:132-154 | the check as written: fewer than `fmtidx` arguments fail the assertion, exactly `fmtidx` raise IndexError, otherwise as the corrected check |
| D3S.PackGuardCorrected | backend/analysers/d3s.py:132-134 | the corrected guard differs from the written one only for exactly `fmtidx` arguments |
| D3S.D3SMethods | backend/analysers/d3s.py:156-178 | the analyser as written: six handlers, each decorated without an explicit name, the pack variants behind the written guard |
| D3S.D3SMethodsWith | backend/analysers/d3s.py:156-178 | six decorated methods without explicit names, whichever pack check is behind them |
| D3S.CorrectedHandlersAgree | backend/analysers/d3s.py:156-178 | the written and the corrected analyser register the same names, and their handlers differ only on a pack call with exactly `fmtidx` arguments (see also lines 132-134 of the same file) |
| D3S.D3SHandlerTable | backend/analysers/d3s.py:156-178 | each of the six is registered under its own function name, and nothing else is (see also `backend/lighthouse/analysis.py:90-97`) |
| PluginTree.Spc | plugin/lighthouse-tree.c:47-54 | exactly `i` spaces, and only for `i` below 128 (the assertion fails otherwise) |
| PluginTree.SpcNests | plugin/lighthouse-tree.c:47-54 | one nesting level adds exactly two spaces to the indentation |
| PluginTree.FilterBuiltIn | plugin/lighthouse-tree.c:56-61 | a missing file or `<built-in>` is written as the escaped text that reads back as `<built-in>`; any other file name is written unchanged |
| PluginTree.LocationReadBack | plugin/lighthouse-tree.c:63-83 | after reference replacement, a location attribute parses back in the backend to the same file, line and column, for file names without `&` or `:` (see also `backend/lighthouse/misc.py:32-42`) |
| PluginTree.LocationAttributeReadBack | plugin/lighthouse-tree.c:81-82 | read as a single-quoted attribute, the location parses back to the same file, line and column when the file name has no quote, `<`, `&`, `:`, tab or line break (see also `backend/lighthouse/misc.py:32-42`) |
| PluginTree.LocationUnescapes | plugin/lighthouse-tree.c:63-83 | the attribute value reads back as the file name followed by `:line:column` |
| PluginTree.TypeQuals | plugin/lighthouse-tree.c:285-293 | `constant`, `volatile` and `restrict` appear exactly when their qualifier bit is set, each with value 1, in that order |
| PluginTree.Lookup | plugin/lighthouse-tree.c:285-293 | an attribute is found exactly when one with that name was written, with its value |
| PluginTree.ConstantAttr | backend/lighthouse/types.py:170 | a missing `constant` attribute reads as not constant; a numeric one as its value being nonzero |
| PluginTree.QualsReadBack | plugin/lighthouse-tree.c:285-293 | the constness the backend reads is the plugin's const bit (see also `backend/lighthouse/types.py:170`) |
| PluginTree.AttribNames | plugin/lighthouse-tree.c:304-318 | one name per attribute, in order |
| PluginTree.TypeAttribs | plugin/lighthouse-tree.c:295-325 | the `attributes` value is written exactly when there is an extra item or an attribute |
| PluginTree.AttribListIsJoin | plugin/lighthouse-tree.c:304-318 | commas go only between names |
| PluginTree.AttribsReadBack | plugin/lighthouse-tree.c:295-325 | splitting the value on commas gives the extra item first, then the attribute names in order |
| PluginTree.DeclBinding | plugin/lighthouse-tree.c:609-627 | a `name` attribute is written only for the `binding` tag when the declaration has a name |
| PluginTree.BindingOf | backend/lighthouse/decl.py:40-44 | a binding decodes its id and optional name; a missing id fails |
| PluginTree.DeclBindingReadBack | plugin/lighthouse-tree.c:609-627 | a reference element decodes to the uid with no name; a `binding` element carries the name too (see also `backend/lighthouse/decl.py:40-44`) |
| PluginTree.SimpleTagsDecode | plugin/lighthouse-tree.c:166-223 | every operator tag the plugin writes is a backend operator, except the three the backend does not know, which decode as the placeholder (see also `backend/lighthouse/expression.py:164-233`) |
| PluginTree.SupportedTags | plugin/lighthouse-tree.c:166-223 | a supported operator code's tag is in the backend's binary or unary table (see also `backend/lighthouse/expression.py:164-213`) |
| PluginTree.BinaryTags | backend/lighthouse/expression.py:164-198 | every key listed in the binary operator table has an entry |
| PluginTree.UnaryTags | backend/lighthouse/expression.py:200-211 | every key listed in the unary operator table has an entry |
| PluginTree.UnsupportedTags | plugin/lighthouse-tree.c:166-223 | `division-real`, `unordered` and `ordered` are in no backend table (see also `backend/lighthouse/expression.py:215-233`) |
| PluginTree.ExprTag | plugin/lighthouse-tree.c:85-262 | a reference type is skipped, an unknown code aborts, everything else is written |
| PluginTree.DeclRefTagsAreLvalues | plugin/lighthouse-tree.c:142-152 | `result`, `bound` and `bound-parameter` are lvalue tags in the backend, of the right kinds (see also `backend/lighthouse/expression.py:28-29`) |
| PluginTree.ExprTagsDecode | plugin/lighthouse-tree.c:85-262 | each written expression tag is dispatched by the backend to the matching kind, and exactly the bit-field, constructor and unsupported operators fall to the placeholder (see also `backend/lighthouse/expression.py:215-233`) |
| PluginTree.ReferenceTagsDecode | plugin/lighthouse-tree.c:106-152 | `member-ref`, `indirection`, `item-ref`, `result`, `bound` and `bound-parameter` decode as the matching lvalue kinds (see also `backend/lighthouse/expression.py:215-216`) |
| PluginTree.OtherTagsDecode | plugin/lighthouse-tree.c:91-104 | `constant` is converted, `addr-of` becomes an address-of and `function` is descended through (see also `backend/lighthouse/expression.py:217-229`) |
| PluginTree.PlaceholderTagsDecode | plugin/lighthouse-tree.c:116-135 | `bitfield-ref` and `constructor` are in no backend table and decode as the placeholder (see also `backend/lighthouse/expression.py:231-233`) |
| PluginTree.ExprCodeTag | plugin/lighthouse-tree.c:264-283 | an operator code is written with the same tag as in an expression, a constructor too; anything else aborts |
| PluginTree.TypeTag | plugin/lighthouse-tree.c:425-528 | a reference type is skipped, an unknown type code aborts, everything else is written |
| PluginTree.TypeTagsDecode | plugin/lighthouse-tree.c:425-528 | every type tag written decodes in the backend except `result`; unions, records and arrays decode as aggregate references (see also `backend/lighthouse/types.py:448-463`) |
| PluginTree.VarargsMark | plugin/lighthouse-tree.c:500-505 | a function type is marked varargs exactly when its argument list is non-empty and does not end in void |
| PluginTree.EscapeByte | plugin/lighthouse-tree.c:564-575 | each byte becomes printable text with no `<` or `>` |
| PluginTree.EscapeStringLiteral | plugin/lighthouse-tree.c:562-576 | the escaped literal holds only printable characters and no raw `<` or `>` |
| PluginTree.EscapeByteDecodes | plugin/lighthouse-tree.c:564-575 | each byte's escape reads back, entities then backslash escapes, as that byte |
| PluginTree.StringLiteralReadBack | plugin/lighthouse-tree.c:562-576 | the whole escaped literal reads back as the original bytes |
| PluginGimple.NodeName | plugin/lighthouse-gimple.c:14-45 | every known statement code has a tag, never `next` or `block`; an unknown code has none (the plugin aborts) |
| PluginGimple.AssignRhs | plugin/lighthouse-gimple.c:54-94 | the right-hand side is one operand (straight), operand-operator-operand (binary) or operator-operand (unary), with no operator element for address-of |
| PluginGimple.LabelElement | plugin/lighthouse-gimple.c:140-164 | a label with no low bound is the default; any other is a case |
| PluginGimple.LabelElements | plugin/lighthouse-gimple.c:133-165 | only present labels are written, each as a default or a case |
| PluginGimple.StatementOf | plugin/lighthouse-gimple.c:213-241 | label, predict and asm statements are not written, an unknown code aborts, and a written statement carries its code's tag and operands |
| PluginGimple.StatementTagsDecode | plugin/lighthouse-gimple.c:213-241 | every written statement decodes in the backend except a goto; exception dispatch decodes to nothing (see also `backend/lighthouse/statements.py:226-240`) |
| PluginGimple.StatementLocationReadBack | plugin/lighthouse-gimple.c:213-241 | a written statement's location parses back to its file, line and column (see also `backend/lighthouse/misc.py:32-42`) |
| PluginGimple.AssignReadBack | plugin/lighthouse-gimple.c:54-94 | the backend finds the left operand and the right-hand parts as written (see also `backend/lighthouse/statements.py:74-81`) |
| PluginGimple.CondPartsOfFive | backend/lighthouse/statements.py:104-115 | a condition's children split into the three condition parts and the `then`/`else` targets |
| PluginGimple.CondReadBack | plugin/lighthouse-gimple.c:103-119 | a condition reads back as its two operands around the comparison, with its true and false targets (see also `backend/lighthouse/statements.py:104-115`) |
| PluginGimple.CaseLabelReadBack | plugin/lighthouse-gimple.c:140-164 | a label with a low and a high bound reads back as a range, with a low bound only as an exact case (see also `backend/lighthouse/statements.py:204-224`) |
| PluginGimple.Cases | plugin/lighthouse-gimple.c:140-164 | the labels that are cases all have a low bound |
| PluginGimple.LabelElementsOf | plugin/lighthouse-gimple.c:133-165 | one element per label, in label order |
| PluginGimple.LabelElementsPresent | plugin/lighthouse-gimple.c:133-165 | skipping missing labels then writing is writing the present ones |
| PluginGimple.CaseElements | plugin/lighthouse-gimple.c:140-164 | the `case` children are the cases, in order |
| PluginGimple.FirstDefault | plugin/lighthouse-gimple.c:140-143 | the first label without a low bound, or none when every label has one |
| PluginGimple.DefaultElement | backend/lighthouse/statements.py:204-224 | the backend's `find('default')` sees the first default label |
| PluginGimple.SwitchChildren | plugin/lighthouse-gimple.c:126-169 | a switch is its index followed by the present labels in order |
| PluginGimple.SwitchIndexReadBack | plugin/lighthouse-gimple.c:126-132 | the index reads back as written |
| PluginGimple.SwitchDefaultReadBack | plugin/lighthouse-gimple.c:140-143 | the backend finds a default exactly when some label has no low bound, and reads its target (see also `backend/lighthouse/statements.py:204-224`) |
| PluginGimple.SwitchCasesReadBack | plugin/lighthouse-gimple.c:140-164 | the backend's cases are exactly the written cases in order, and each has an accepted shape (see also `backend/lighthouse/statements.py:204-224`) |
| PluginGimple.CasesAccepted | plugin/lighthouse-gimple.c:144-164 | every case element has a low bound, and an optional high bound |
| PluginGimple.CallReadBack | plugin/lighthouse-gimple.c:171-204 | a direct callee is a `function` with its id, an indirect one the expression; a call with no lhs has `<void />`; the arguments are as written (see also `backend/lighthouse/statements.py:137-150`) |
| PluginGimple.NextEdges | plugin/lighthouse-gimple.c:243-259 | the `<next>` edges are exactly the successors the rule does not mark as handled, in successor order (see also lines 282-297 of the same file) |
| PluginGimple.NextEdgeRule | plugin/lighthouse-gimple.c:243-259 | after a condition no true or false edge is a `<next>`; after a return or switch there is none; after anything else every successor is (see also lines 282-297 of the same file) |
| PluginGimple.NextElement | plugin/lighthouse-gimple.c:287-296 | a `next` with no children, marked abnormal or exceptional exactly when the edge is |
| PluginGimple.NextReadBack | plugin/lighthouse-gimple.c:287-296 | the `next` element's id reads back as the edge's destination (see also `backend/lighthouse/bb.py:69-71`) |
| PluginGimple.Dests | plugin/lighthouse-gimple.c:287-296 | the destinations of the edges, in order |
| PluginGimple.WrittenStatements | plugin/lighthouse-gimple.c:269-274 | writing the statements succeeds exactly when none aborts, writing no `next` |
| PluginGimple.NextElements | plugin/lighthouse-gimple.c:282-297 | one `next` per kept edge, in order |
| PluginGimple.BlockElement | plugin/lighthouse-gimple.c:261-300 | a block element with its id |
| PluginGimple.BlockNextReadBack | plugin/lighthouse-gimple.c:282-297 | the block's `next` children are exactly the kept edges in order, each reading back as its destination (see also `backend/lighthouse/bb.py:69-71`) |
| UidMemo.Init | plugin/lighthouse-client.c:44-47 | no buffer and no members: `has` is false for every uid |
| UidMemo.Empty | plugin/lighthouse-client.c:49-52 | `has` becomes false for every uid, the buffer is kept, and the invariant holds |
| UidMemo.Has | plugin/lighthouse-client.c:80-91 | the linear scan answers exactly whether the uid is a member |
| UidMemo.Grown | plugin/lighthouse-client.c:67-75 | a full buffer grows from nothing to 16, then doubles |
| UidMemo.Add | plugin/lighthouse-client.c:62-78 | afterwards the uid is a member; one already present changes nothing; otherwise it is appended once; no member repeats and `next <= len` still holds |
| UidMemo.MemoDecl | plugin/lighthouse-client.c:137-156 | a declaration is written exactly when it was not yet in the memo, and is then noted |
| UidMemo.FunctionExternalsOnce | plugin/lighthouse-client.c:139-142 | since the memo is emptied at each function start, each declaration a function references is written exactly once for it (see also lines 167 of the same file) |
| UidMemo.ExternalsFromOnce | plugin/lighthouse-client.c:139-142 | from any memo, exactly the referenced declarations not yet in it are written, each once |
| UidMemo.Push | plugin/lighthouse-client.c:99-112 | types not yet written are pushed above what was on the stack; the stack never exceeds 512 entries (a push onto a full stack fails) |
| UidMemo.Drain | plugin/lighthouse-client.c:113-134 | the memo grows by exactly what is written, in order |
| UidMemo.MemoType | plugin/lighthouse-client.c:93-135 | a type already in the memo writes nothing; otherwise it is written first, then the nested types, and the memo grows by exactly what was written |
| UidMemo.TypesWrittenOnce | plugin/lighthouse-client.c:93-135 | one call writes no type twice and nothing written before |
| PluginOutput.Dump | plugin/lighthouse-output.c:27-35 | the output is the input, byte for byte |
| PluginOutput.EscapeRawByte | plugin/lighthouse-output.c:44-53 | `>`, `<` and `&` become entities, other ASCII bytes pass unchanged, and bytes above 127 become `&#N;` in decimal |
| PluginOutput.DumpRaw | plugin/lighthouse-output.c:37-54 | the raw source holds no `<` or `>` and is at least as long as the input |
| PluginOutput.CharacterReferenceReadBack | plugin/lighthouse-output.c:50-53 | a decimal reference reads back as the byte's character |
| PluginOutput.RawByteReadBack | plugin/lighthouse-output.c:44-53 | each byte's output reads back as that byte's character |
| PluginOutput.DumpRawReadBack | plugin/lighthouse-output.c:37-54 | reference replacement alone gives back the source, one character per byte |
| PluginOutput.DumpRawLineEnds | plugin/lighthouse-output.c:37-54 | with the parser's line-end handling, the source comes back with each CR LF and each lone CR as one LF |
| PluginOutput.SourceWithoutReturnsReadBack | plugin/lighthouse-output.c:37-54 | a source without carriage returns comes back byte for byte |
| PluginOutput.CarriageReturnsNormalised | plugin/lighthouse-output.c:50-51 | a CR LF pair in the source comes back as a single line feed |
| PluginOutput.DumpRawWellFormed | plugin/lighthouse-output.c:37-54 | the output is XML 1.0 character data exactly when the source has no control byte other than tab, line feed and carriage return |
| PluginOutput.FormFeedIsNotAdmitted | plugin/lighthouse-output.c:50-51 | a form feed in the source leaves the document ill-formed |
| PluginOutput.Document | plugin/lighthouse-output.c:144-159 | an accepted document's root holds raw-source, referenced-types and function-bodies, in that order |
| PluginOutput.DocumentReadBack | plugin/lighthouse-output.c:144-159 | the language written is one the backend accepts; the file name and version are their single-quoted attribute values; the source is its bytes with line ends normalised; the types and functions are as written (see also `backend/lighthouse/unit.py:56-58`) |
| PluginOutput.DocumentWellFormed | plugin/lighthouse-output.c:144-159 | the parser accepts the document exactly when the source has only admitted bytes and the file name and version can stand between single quotes: no `'`, no `<`, only XML characters, and every `&` opening an entity or a decimal or hexadecimal character reference |
| PluginOutput.ParsedText | plugin/lighthouse-output.c:150-152 | text the parser accepts is non-empty and holds only XML characters |
| Decoding.LineEndsPlain | plugin/lighthouse-output.c:50-51 | text without a carriage return is kept by the parser's line-end handling |
| Decoding.PlainAttributeValue | plugin/lighthouse-output.c:146-147 | a quotable file name without `&` is read back from its attribute as written |
| Decoding.QuotableValue | plugin/lighthouse-output.c:146-147 | quotable attribute text is read by reference replacement alone |
| Decoding.HexReferenceInValue | plugin/lighthouse-output.c:146-147 | a hexadecimal character reference `&#xH;` in a file name, between text without `&`, is read as the character it names (`a&#x41;.c` reads as `aA.c`) |
| Decoding.ReferenceInValue | plugin/lighthouse-output.c:146-147 | text that reads as one character keeps reading so inside a file name between text without `&` |
| Text.Lower | plugin/complexity.c:108 | the letter case `strcasecmp` ignores: upper-case ASCII letters map to lower case, everything else to itself |
| Complexity.Delimiters | plugin/complexity.c:119 | `strtok` first skips the longest run of colons |
| Complexity.TokenLength | plugin/complexity.c:119 | a token runs up to the next colon or the end |
| Complexity.StrTok | plugin/complexity.c:119 | there is a token exactly when the text holds a non-colon; it is non-empty, colon-free, and what is left is shorter (see also lines 138 of the same file) |
| Complexity.StrTokSplits | plugin/complexity.c:119 | leading colons are skipped, the token ends at the next colon, and that colon is consumed (see also lines 138 of the same file) |
| Complexity.Spaces | plugin/complexity.c:146 | `atoi` first skips leading white space |
| Complexity.AtoiOf | plugin/complexity.c:146 | the `int` that `(int) strtol` makes of a number: itself within `int`, else the `long`-saturated number reduced modulo 2^32 into `int` |
| Complexity.AtoiSaturates | plugin/complexity.c:146 | a threshold above `LONG_MAX` configures -1 |
| Complexity.AtoiOfIntToString | plugin/complexity.c:146 | `atoi` reads any decimal number, whatever non-digit follows, as `AtoiOf` makes it: exactly that number when it fits an `int` |
| Complexity.Unconfigured | plugin/complexity.c:77-86 | the zero-initialised table: six slots, all unused |
| Complexity.FreeSlot | plugin/complexity.c:94-101 | the first unused slot, or none when all six are in use |
| Complexity.MetricIndex | plugin/complexity.c:106-117 | a name selects a metric exactly when it equals one of the names ignoring case (the last such name, as the loop overwrites) |
| Complexity.ActionOf | plugin/complexity.c:127-136 | `warn` and `error` in any letter case are the two actions, `warn` checked first |
| Complexity.ParseArg | plugin/complexity.c:88-147 | a spec fills the first unused slot and nothing else; with no free slot it is ignored; an unknown metric is fatal; without a value the text comes from `strtok`'s saved position, and with none saved the call crashes |
| Complexity.ParseArgReadsSpec | plugin/complexity.c:119-146 | `action:threshold`, from the value or from the saved position, configures exactly that action and threshold and leaves what follows the threshold's colon |
| Complexity.ParseAll | plugin/complexity.c:161-165 | every argument in order, `strtok`'s position carried from one to the next, the first fatal error ending the parse |
| Complexity.DefaultConfiguration | plugin/complexity.c:156-160 | with no arguments the configuration is a single cyclomatic limit of 20 that warns |
| Complexity.FirstValuelessArgumentCrashes | plugin/complexity.c:119 | a known metric given without a value as the first argument makes `strtok` resume from a null pointer |
| Complexity.ValuelessArgumentReadsLeftover | plugin/complexity.c:119-146 | after `m1=a1:t1:a2:t2`, a value-less argument `m2` is configured with action `a2` and threshold `t2` (see also lines 161-165 of the same file) |
| Complexity.SpecLeavesRest | plugin/complexity.c:119-146 | a spec with text after its threshold leaves that text for the next argument |
| Complexity.ParseTwo | plugin/complexity.c:161-165 | two arguments are parsed by two calls in turn, the second resuming where the first stopped |
| Complexity.UsedUpdate | plugin/complexity.c:94-101 | filling a free slot uses one more slot |
| Complexity.AllUsed | plugin/complexity.c:94-104 | when as many slots are used as there are, none is free |
| Complexity.ParseArgUses | plugin/complexity.c:94-104 | each accepted spec uses one more slot until all six are used |
| Complexity.ExcessSpecsIgnored | plugin/complexity.c:103-104 | once all six slots are used, every further spec is ignored |
| Complexity.ParseAllUses | plugin/complexity.c:94-104 | after n accepted specs, min(n, 6) more slots are used (see also lines 161-165 of the same file) |
| Complexity.Unsigned | plugin/complexity.c:187-188 | `unsigned int` arithmetic: a value modulo 2^32, the identity on the range (see also lines 208 of the same file) |
| Complexity.UnsignedStep | plugin/complexity.c:200 | incrementing an unsigned counter is incrementing then wrapping (see also lines 261 of the same file) |
| Complexity.Count | plugin/complexity.c:192-202 | the counters hold the number of blocks and the total number of successor edges, each modulo 2^32 (see also lines 252-263 of the same file) |
| Complexity.CyclomaticValue | plugin/complexity.c:208 | edges - blocks + 2 when that is in range, wrapping to a large value when there are more blocks than edges + 2 |
| Complexity.CheckComplexity | plugin/complexity.c:205-249 | unused slots are skipped and metrics 2 and 3 abort; the reports are exactly the reached cyclomatic limits' reports in slot order, each with its own action, and an abort comes after the reports of the slots before the first design or jbp limit |
| Complexity.FiringReportsMembers | plugin/complexity.c:210-247 | a report is made exactly when some cyclomatic slot's limit is reached, and it carries that slot's action and threshold |
| Complexity.FiringReportsBound | plugin/complexity.c:210-247 | at most one report per slot |
| Complexity.NegativeThresholdNeverFires | plugin/complexity.c:227 | a threshold of -1, compared as unsigned, never fires for an ordinary value |
| Pipeline.StringConstantConverts | plugin/lighthouse-tree.c:558-579 | a string constant the plugin writes converts in the backend to the same bytes with the decoded array type; an empty literal has no text and fails (see also `backend/lighthouse/constant.py:31-34, 56-65`) |
| Pipeline.LongLong | plugin/lighthouse-tree.c:554-556 | the value printed with `%lld`: in the signed 64-bit range and congruent to the constant modulo 2^64, the constant itself when it fits |
| Pipeline.IntegerConstantConverts | plugin/lighthouse-tree.c:554-556 | an integer constant converts to the printed value with the decoded type; one that fits in 64 signed bits keeps its value (see also `backend/lighthouse/constant.py:43-46, 56-65`) |
| Pipeline.UnsignedMaxReadsAsMinusOne | plugin/lighthouse-tree.c:554-556 | the unsigned constant 2^64 - 1 reads back as -1 (see also `backend/lighthouse/constant.py:46`) |
| Pipeline.FloatConstantConverts | plugin/lighthouse-tree.c:540-552 | a float constant converts with the decoded type to the `Decimal` its text reads as: the signed infinity or the NaN the special name gives, or what `Decimal` reads from the decimal text, InvalidOperation when that is not a number (see also `backend/lighthouse/constant.py:48-54`) |
| Pipeline.SpecialValue | plugin/lighthouse-tree.c:542-546 | each special name the plugin writes reads as the value it names |
| Pipeline.SpecialConstantRenders | plugin/lighthouse-tree.c:542-546 | an infinite or NaN constant is true and prints as `NaN`, `-Infinity` or `Infinity`, without the `+` the plugin wrote (see also `backend/lighthouse/constant.py:48-54`) |
| Pipeline.BlockNextsParse | plugin/lighthouse-gimple.c:282-297 | every `next` child the plugin writes decodes as a successor (see also `backend/lighthouse/bb.py:69-71`) |
| Pipeline.BlockTargets | plugin/lighthouse-gimple.c:282-297 | the backend's successor list is the destinations of the edges the plugin kept, in order (see also `backend/lighthouse/bb.py:65-77`) |
| Pipeline.BlockReadBack | plugin/lighthouse-gimple.c:261-300 | a block reads back with its id and kept successors; it fails only when some statement fails to decode (see also `backend/lighthouse/bb.py:65-77`) |
| Pipeline.CondLastEdges | backend/lighthouse/statements.py:100-101 | statements ending in a condition contribute exactly its then and else targets, in that order (see also `backend/lighthouse/bb.py:39-43`) |
| Pipeline.CondBlockEdges | backend/lighthouse/bb.py:39-43 | a block ending in a condition has its successors, then the then and else targets, as edges |
| Pipeline.CondSuccessorsKept | plugin/lighthouse-gimple.c:116-117 | for a block ending in a condition, the backend's edges are the kept successors then the true and false targets, and cover every successor edge (see also lines 243-250, 282-297 of the same file and `backend/lighthouse/bb.py:39-43`) |
| Pipeline.SuccessorsCovered | plugin/lighthouse-gimple.c:116-117 | every successor of a condition block is either kept as a `next` or is the true or false target (see also lines 248-250 of the same file) |
| Pipeline.KeptDests | plugin/lighthouse-gimple.c:282-297 | the destination of every edge not already handled is among the `next` targets |
| Pipeline.StraightBlockEdges | plugin/lighthouse-gimple.c:252-258 | for a block not ending in a condition, return or switch and holding no branching statement, the backend's edges are exactly the plugin's successor edges (see also lines 282-297 of the same file and `backend/lighthouse/bb.py:39-43`) |

## Left out

- XML parsing through etree, and most `from_xml` bodies: the model starts from an already decoded element tree (`Tree.Element`). Only tag dispatch, child partitioning and the checks the decoders make are modelled. `backend/lighthouse/input.py` is not part of this model.
- `Function.from_xml` is modelled only as its duplicate-id checks on locals, blocks and externals (`Functions.DeclTable`, `Functions.BlockTable`).
- `Function.to_c`, `fndecl_to_c`, `locals_to_c`, `blocks_to_c`, `count_blocks`, `count_expressions` and the `__repr__` methods are presentation helpers that no checker uses.
- `complexity_raw_lines` and `complexity_source_lines` compute floating-point ratios.
- `decimal.Decimal` is modelled only as reading a value from text, `str` and the truth value. Arithmetic, contexts, rounding, comparison and hashing are left out: the backend only stores, prints and tests a float constant's value.
- Decimals.ParseDecimal: reads ASCII digits, ASCII white space and ASCII letter case only. Python's parser is compiled with `re.UNICODE` and also takes other Unicode decimal digits and white space in a `unicode` text. The plugin writes ASCII here.
- Operator table entries keep only their tag and text, not their Python operator callables.
- Checker loading through `execfile` and `sys.path`: the loaded analysers are given as ordered lists, user directory first.
- Diagnostics are collected as a list of (message, severity, location) entries instead of being printed to stderr.
- Python 2 dict iteration order is unspecified: blocks, aggregates, locals and switch cases are kept in document (insertion) order.
- Types.TypeToC: renders through aggregate links with a fuel bound of one more than the table size. It runs out only on a cyclic chain of links, where the Python rendering recurses without end.
- GCC tree and GIMPLE accessors are foreign calls: the plugin modules take the already extracted facts (codes, flags, successor lists, names, uids) as parameters.
- `real_to_decimal`: a real constant's decimal text is a parameter.
- `double_int_to_ll` depends on the host width: `long long` is taken to be 64 bits.
- `tmpfile`, fork, exec, pipe and wait in `lh_output_finish` are process I/O: the raw source is given as bytes.
- The `plugin_init` registrations are GCC callbacks with no logic of their own.
- GCC's warning and error message text is not modelled: a limit that fires is reported only by its metric, value and action.
- The web presentation, the Django server, and the sample inputs and scripts are outside the core.
- Expressions.ExprToC: its own contract says only that a rendering other than a reference or a constant is text. The shapes of member, index and indirection renderings, fixed texts and attached references are stated by Expressions.RenderingShapes, and the failures by Expressions.RenderingFaults. Operator applications, casts and the `&"str"[n]` case are given only by the definition.
- PluginGimple.BlockElement: the contract states the child order and the `<next>` rule. The full element is given by the definition.
- Complexity.CheckComplexity: a report carries the action, metric name, value and threshold, not GCC's message text or the function declaration it names.
- Complexity.AtoiOf: takes the conversion of an out-of-range `long` to `int` to keep the low 32 bits. This is GCC's documented behaviour; the C standard leaves it implementation-defined.
- Types.ResolveIdempotent, Types.ResolveResolvedIsIdentity: these hold because the model resolves an aggregate reference to a link into the type table. Python replaces the reference with the structure object itself (`backend/lighthouse/types.py:106-107`). Resolving that object again would walk its members, so a self-referential structure recurses Structure, Pointer, Structure without end (`backend/lighthouse/types.py:323-324`, `backend/lighthouse/types.py:348-350`). The lemmas say nothing about a second resolution of Python's objects. The source resolves each type only once.
- Units.FinaliseTypesSettled: the same caveat applies. Resolving the finalised table a second time is settled only in the linked representation. In Python, calling `finalise` twice on a unit with a self-referential structure would not terminate.
- Text.ParseInt: rejects the surrounding white space that Python's `int()` strips, and the trailing `L` that Python 2's `long()` accepts (`backend/lighthouse/constant.py:46`). The plugin writes neither in the numeric attributes the backend reads.
- Case-label locations: `lighthouse-gimple.c:140-164` writes a `location` attribute on each `<default>` and `<case>` element. The model does not carry it, because the backend's switch decoding never reads it.
- PluginOutput.Document: the document is taken as refused whenever the file name or client version could not stand between single quotes, that is, when it holds `'`, `<`, a character outside XML 1.0, or an `&` that starts no reference (neither one of the five predefined entities nor a decimal or hexadecimal character reference naming an XML character). For such names the real parser reports malformed XML, or reads a different set of attributes. The model does not say which.

## Behaviour worth knowing

These follow from the code as written. The model keeps each one.
- The checker loader fills its registry from the user directory first and the site directory second.
- The default `compare` for enums, structures, unions and arrays ignores constness, while `__eq__` does not.
- `Function.compare` returns None, so two function types never have the same memory layout.
- A union element decodes as a `Structure`.
- Exact switch cases are keyed by constant objects, and range cases by integers. A later case overwrites an earlier one with the same key.
- A switch default of block 0 is dropped from the edges.
- A later binding table overrides an earlier match for the same id.
- `Bounds.diff` raises TypeError when no declared bound is given, because Python 2's `min(None, lo)` is None.
- An integer-constant operand makes a rendered operator expression fail: `' '.join` rejects a non-string.
- An empty string literal leaves the element without text, and reading it fails.
- An empty source file reads back as no text, so the unit then refuses to hand out its source.
- `dump_raw` copies ASCII control bytes through unchanged. A source holding a form feed therefore yields a document that XML 1.0 rejects (`PluginOutput.DumpRawWellFormed`, `PluginOutput.FormFeedIsNotAdmitted`).
- `dump_raw` copies carriage returns unchanged, and the XML parser folds each CR LF and each lone CR into one line feed. The backend therefore sees a CR LF source with plain line feeds (`PluginOutput.CarriageReturnsNormalised`).
- The file name is written between single quotes without escaping. A name containing `&` is read with its references replaced, decimal and hexadecimal alike (`Decoding.HexReferenceInValue`). A name containing `'`, or an `&` that starts no reference, breaks the document (`PluginOutput.DocumentWellFormed`).
- A source byte 0x85 is written as `&#133;` and reads back as NEL (U+0085). The text is then a `unicode` string, whose `splitlines` ends a line there, so highlighting counts one more line than the C file has (`Misc.SplitAtBreak`).
- In the complexity plugin, an argument given without a value makes `strtok(NULL, ":")` resume where the previous argument's spec stopped. As the first argument, it resumes from a null pointer (`Complexity.FirstValuelessArgumentCrashes`). After `cyclomatic=warn:20:error:30`, a value-less `design` is configured as error at 30 (`Complexity.ValuelessArgumentReadsLeftover`).
- `warn` and `error` highlight each place they cite. With no source in the unit this raises AssertionError, and within five lines of the end of the source it raises IndexError. An `error` then escapes `handle` as that exception, not as StopAnalysis (`Analysis.ErrorNearEndEscapes`).
- An unsigned integer constant of 2^64 - 1 is printed with `%lld` and reads back as -1.
- A `goto` statement is rejected by the backend.
- The `result` tag that the plugin emits for a function's result declaration has no type decoder.
- The plugin's `division-real`, `unordered` and `ordered` operator tags decode to the placeholder expression.
- In the complexity plugin, the cyclomatic value wraps modulo 2^32, and a negative threshold never fires.
- In the complexity plugin, a threshold of 9223372036854775808 or more saturates `strtol` and configures -1, which never fires (`Complexity.AtoiSaturates`).
- A float constant prints as `str` of its `Decimal`, not as the plugin wrote it: `+Infinity` prints as `Infinity` (`Pipeline.SpecialConstantRenders`), and `2.5e+1` as `25` (`Decimals.ScientificPrintsPlain`).
- The complexity plugin silently ignores limit specifications beyond the sixth.
- `lh_memo_type` can push the same not-yet-written uid twice; the drain loop skips the second copy.

## Findings

| source | as written | input that shows it | evidently intended | confidence | as-written member | corrected member |
|---|---|---|---|---|---|---|
| backend/analysers/d3s.py:133-134 | `assert len(args) >= fmtidx` guards the read of `args[fmtidx]` | a `dsPackListB` call with exactly two arguments (`fmtidx` = 2): the assertion passes and `args[2]` raises IndexError | `len(args) > fmtidx`, so that a call with too few arguments fails the assertion | not executed | D3S.PackGuardOffByOne | D3S.PackGuardCorrected |
