# gbp-parser: the context tree and the code generator, in Dafny

gbp-parser reads a C++ header that declares data types with the
`GBP_DECLARE_TYPE(...)`, `GBP_DECLARE_ENUM(...)` and `GBP_DECLARE_ENUM_SIMPLE(...)`
macros. It builds a tree of *contexts* (`gbp::Context`) one character at a time,
and then generates C++ declarations and implementations from that tree.

This project models two parts of it.

**The incremental context-tree builder** (`context.hpp`, `context.cpp`, and the
feed loop of `gbpparser.cpp`):

- `Kinds` holds the context kinds, each kind's close test (`isFinished`) and the
  kinds' display names (`typeString`).
- `Classifier` models `getStartContext`: which child the tail of the deepest open
  context's text opens.
- `Classifier` also models `getNameForward`: where that child's name lies in the
  source, beyond the text fed so far. It is given both as functions and as the
  scanning loops, written as methods.
- `Tree` is the context tree as an arena of nodes. Each node has a parent link,
  finished children, and an offset and length relative to its parent. It also
  holds `content()` and `hasConvertibleSymbols`.
- `Builder` models `forward()` as the pure step function `Step` over
  (arena, chain of current children). The step grows every context on the chain,
  then lets the deepest one classify its text. A proved invariant, `ValidState`,
  is kept by every step.
- The class `Builder.ContextTree` holds the same state as mutable fields. Its
  methods (`Forward`, `AddChild`, `RemoveChild`, `ResetCurrentChildContext`,
  `Parse`, ...) are each proved against those functions.

**The code generator** (`codegen.cpp`):

- `Templates` holds the `Code` pair, the `gen*` helpers and the fixed templates.
- `CodeGen` holds `getMemTypeContext`, the qualification of nested names, and
  `contextToCode` as a recursive function over the arena.
- The class `CodeGen.CodeGenerator` keeps the last generated code. Its
  `GenerateCode` replaces each part only when it changed and reports which parts
  did.

`Text` models the few `QString` operations the core relies on:

- `endsWith`, `join` and `simplified`;
- `replace` of a string and of a character;
- rendering an `int` index in decimal.

`Wrappers` holds an `Option` type. A null pointer is `None`.

The model follows the code as written, also where it differs from what it evidently means to do:

- The value scan of `getNameForward` (`context.cpp:56-61`) counts as written, and
  the struct specialisations are qualified by the text replacement of
  `codegen.cpp:333`. Both are listed under "## Findings", each with a corrected
  definition beside the one that is used.
- `DeclStruct` (the context opened by `GBP_DECLARE_TYPE(`) is used throughout
  `context.cpp`, but the enumeration in `context.hpp` does not list it. It is a
  kind of its own here.
- `typeString` has no case for `DeclStruct`, so its display name is the empty
  string.
- A Member opens only directly inside a `DeclStruct`, and `contextToCode` renders
  nothing for a `DeclStruct`. So on a parsed tree no member declaration reaches the
  generated code, and the struct case of `contextToCode` only ever sees a Struct
  without members (`CodeGen.ParsedStructsUnnested`).

## Model

| member | source | states |
|---|---|---|
| Text.EndsWithSlice | context.cpp:215-218 | a text ends with a suffix iff the suffix is no longer than the text and equals the text's last characters |
| Text.JoinNonEmptyIsEmpty | codegen.cpp:255-264 | joining only the non-empty pieces gives the empty text exactly when every piece is empty |
| Text.JoinNonEmptySingle | codegen.cpp:255-264 | when exactly one piece is non-empty, the filtered list is that piece alone, so no separator is emitted for the empty ones |
| Text.NatToStringRoundTrip | codegen.cpp:28-36 | the decimal rendering of a member index reads back as the same index |
| Text.NatToStringInjective | codegen.cpp:28-36 | different indices render differently |
| Text.SimplifiedCorrect | codegen.cpp:421 | simplification leaves no leading, trailing or repeated whitespace, and keeps every non-whitespace character in order |
| Text.SimplifiedIsWords | codegen.cpp:421 | the simplified text is the text's words (maximal whitespace-free runs, found by an independent splitter) joined by single blanks, so every inner whitespace run becomes exactly one blank |
| Text.WordsSplit | codegen.cpp:421 | a whitespace character between two texts separates their words: the words of the whole are the words of the first text, then those of the second |
| Text.RunLength | codegen.cpp:421 | a word runs up to the first whitespace character or the end of the text |
| Text.JoinCons | codegen.cpp:264 | a joined list is its first piece, then the separator and the joined rest when there is a rest |
| Text.ReplaceAllIdentity | codegen.cpp:333 | replacing a pattern by itself leaves the text unchanged |
| Text.ReplaceAllAbsent | codegen.cpp:333 | a text in which the pattern does not occur passes through replacement unchanged |
| Kinds.FinishTable | context.hpp:32-52 | the close test of each kind: `*/` for Comment; newline for LineComment, Preproc and Typedef; `,` for UnderlyingType; `}` for Namespace; `)` for the rest |
| Kinds.GlobalAlwaysFinished | context.hpp:45-46 | Global's test (ends with the empty C string) holds of every text |
| Kinds.FinishedCoversTrim | context.cpp:145-152 | a finished non-root context is at least as long as what the close step trims, and a finished comment ends with `*/` |
| Kinds.TypeStringRoundTrip | context.hpp:80-101 | every kind can be read back from its display name |
| Kinds.TypeStringInjective | context.hpp:80-101 | distinct kinds have distinct display names |
| Classifier.StartContextNeverGlobal | context.cpp:208-303 | the classifier never opens a Global context |
| Classifier.CommentRules | context.cpp:212-220 | nothing opens inside a comment; elsewhere `/*` opens a Comment and `//` a LineComment, before any other rule |
| Classifier.PreprocOnlyInGlobal | context.cpp:223-228 | a Preproc opens exactly on `#` at global scope |
| Classifier.NamespaceOnlyAtScope | context.cpp:230-234 | a Namespace opens exactly on `namespace ` at global or namespace scope, outside comments |
| Classifier.StructOnlyAtScope | context.cpp:235-237 | a Struct opens exactly on `struct ` or `class ` at global or namespace scope, outside comments |
| Classifier.DeclTriggerReached | context.cpp:240-255 | in Global, Namespace, Struct and DeclStruct, a macro or `typedef` trigger opens its kind |
| Classifier.DeclTypeMacro | context.cpp:243-245 | DeclStruct opens exactly on `GBP_DECLARE_TYPE(` in one of the four declaring scopes |
| Classifier.DeclEnumMacro | context.cpp:246-248 | an EnumClass opens from a declaring scope exactly on `GBP_DECLARE_ENUM(` |
| Classifier.DeclEnumSimpleMacro | context.cpp:249-251 | an Enum opens exactly on `GBP_DECLARE_ENUM_SIMPLE(` in a declaring scope |
| Classifier.TypedefRule | context.cpp:252-254 | a Typedef opens exactly on `typedef` in a declaring scope when no macro trigger matches |
| Classifier.MemberOnlyInDeclStruct | context.cpp:264-268 | a Member opens exactly inside a DeclStruct, on a `(` that no declaration macro claims |
| Classifier.DeclStructMember | context.cpp:264-273 | inside a DeclStruct, `(` opens a Member exactly when no declaration macro matched first (`GBP_DECLARE_TYPE(` itself ends in `(`) |
| Classifier.MemberOpens | context.cpp:283-292 | inside a Member, `(` opens a MemberType when the member has no finished child yet, and a MemberValue otherwise |
| Classifier.UnderlyingTypeRule | context.cpp:260-262 | an UnderlyingType opens exactly on `,` in a childless EnumClass |
| Classifier.ParenRules | context.cpp:275-300 | `(` opens an EnumItem in enums and an ExtraCode in values and extra code, and only there |
| Classifier.NameText | context.cpp:35 | a name has the located length, and inside the buffer it is exactly the source slice |
| Classifier.ScanName | context.cpp:12-72 | the scanning loops of getNameForward locate the name that NameForward describes, for every kind |
| Classifier.ScanIdentifier | context.cpp:23-36 | the identifier loops locate the identifier that NameForward describes |
| Classifier.ScanType | context.cpp:37-49 | the type loops locate the type run that NameForward describes |
| Classifier.ScanValue | context.cpp:50-65 | the value loops, counter included, locate the run that NameForward describes |
| Classifier.IdentifierName | context.cpp:23-36 | the name starts at the first letter or `_` at or after the end, is a maximal run of letters, digits and `_`, and is empty only at the buffer's end |
| Classifier.UnnamedKinds | context.cpp:66-70 | comments and the other unnamed kinds get an empty name at the current end |
| Classifier.TypeNameShift | context.cpp:37-49 | after the skipped newlines the type name is a maximal run of type characters, but its recorded start is shifted back by the number of newlines skipped |
| Classifier.ValueScanInverted | context.cpp:50-65 | the value scan stops when the running balance of non-`)` over `)` characters first reaches zero, so on a value not starting with `)` it reads exactly one character |
| Classifier.BalancedValueScan | context.cpp:56-61 | the corrected scan (up on `(`, down on `)`) reads while it is still inside the value's parentheses, and, unless the text runs out, stops just after the `)` that balances the opening one |
| Classifier.ValueScanStopsEarly | context.cpp:56-61 | on the value `10)` the scan as written reads one character, the corrected scan all three |
| Tree.EndWithinRoot | context.cpp:183-185 | every context's text ends inside the root's text |
| Tree.Content | context.cpp:183-185 | a context's content is the source window at its absolute start, of its length, inside the fed text |
| Tree.FewerChildren | context.cpp:167-176 | dropping entries from child lists keeps the tree well formed |
| Tree.AdoptNew | context.cpp:129-132 | appending a new empty context inside its parent's text, listed last among the parent's children, keeps the tree well formed |
| Tree.HasConvertibleIff | context.cpp:92-123 | hasConvertibleSymbols holds exactly when the context itself or some context reached through finished children has a convertible kind |
| Tree.ConvertibleDependsOnSubtree | context.cpp:92-123 | hasConvertibleSymbols depends only on the kinds and child lists of the subtree |
| Builder.Initial | context.cpp:199-202 | a new global context is the root alone, named "global", empty and open, and satisfies the builder invariant |
| Builder.GrowValid | context.cpp:178-181 | growing the chain keeps the invariant, adds one character to the root and moves no context |
| Builder.PushValid | context.cpp:144 | making a new child the current child keeps the invariant |
| Builder.PopValid | context.cpp:145-153 | trimming a finished context and filing it under its parent keeps the invariant |
| Builder.Classify | context.cpp:134-160 | the deepest open context classifies its text: the result satisfies the invariant, the root's length is unchanged and no context is lost |
| Builder.ClassifyOpens | context.cpp:140-144 | when the text starts a child, the child is opened with the name looked up beyond the fed text |
| Builder.ClassifyCloses | context.cpp:145-153 | otherwise, when the close test holds and there is a parent, the context is trimmed and filed under its parent, which becomes the deepest again |
| Builder.ClassifyStays | context.cpp:154-158 | otherwise nothing changes, including for the parentless root |
| Builder.Step | context.cpp:178-181 | forward() keeps the invariant and feeds exactly one more character to the root |
| Builder.StepOpens | context.cpp:140-144 | a step that opens a child adds exactly one node: empty, of the classified kind and name, placed at the end of the deepest context's grown text, and now deepest |
| Builder.StepCloses | context.cpp:145-153 | a step that closes shortens the chain by one, appends the finished context to its parent's children, and trims its grown length by two for a comment and one otherwise |
| Builder.StepNeither | context.cpp:134-160 | otherwise the chain is the same and the deepest context is one character longer |
| Builder.StepOutcome | context.cpp:134-160 | a node is created exactly when a child opens, and the chain shortens exactly when the deepest context finishes |
| Builder.StepFrame | context.cpp:134-160 | a step keeps every context's kind, name, offset and parent, only appends children, creates at most one context, grows each open context above the deepest by one, and leaves finished contexts exactly as they were |
| Builder.StepKeepsFinishedContent | context.cpp:183-185 | the text of a finished context is the same window of the source after a step |
| Builder.StepKeepsFinished | context.cpp:187-193 | a finished context is unchanged by a step and stays finished |
| Builder.Run | gbpparser.cpp:59-64 | n calls of forward() keep the invariant and feed n characters |
| Builder.RunKeepsFinished | gbpparser.cpp:59-64 | once finished, a context is unchanged by any number of further characters |
| Builder.ParseContent | gbpparser.cpp:59-64 | after the parse, the root holds all but the last character of the source |
| Builder.StepScoped | context.cpp:230-268 | a step keeps every Struct directly inside the global scope or a namespace, and every Member directly inside a DeclStruct |
| Builder.RunScoped | gbpparser.cpp:59-64 | any number of steps from the initial tree keep that placement |
| Builder.ParseScoped | gbpparser.cpp:59-64 | every tree the feed loop builds has that placement |
| Builder.ContextTree.constructor | context.cpp:199-202 | the tree starts in the initial state over its source |
| Builder.ContextTree.Forward | context.cpp:178-181 | feeding a character moves the fields to the step function's next state and keeps the invariant |
| Builder.ContextTree.OnLengthIncreased | context.cpp:134-160 | the classification of the deepest context, done in place, equals Classify |
| Builder.ContextTree.OpenChild | context.cpp:140-144 | opening a child in place equals Classify in the opening case |
| Builder.ContextTree.CloseDeepest | context.cpp:145-153 | finishing the deepest context in place equals Classify in the closing case |
| Builder.ContextTree.NewChildName | context.cpp:143 | the name read in place is the one ChildName specifies |
| Builder.ContextTree.SetCurrentChildContext | context.cpp:164-166 | the new child is appended to the arena and becomes the deepest open context |
| Builder.ContextTree.Finish | context.cpp:148-152 | the deepest context is trimmed, filed under its parent and leaves the chain |
| Builder.ContextTree.GrowChain | context.cpp:178-181 | the length increments along the chain, done in place, equal Grow |
| Builder.ContextTree.ResetCurrentChildContext | context.cpp:187-193 | a context with a current child appends it to its children and forgets it; without one, nothing changes |
| Builder.ContextTree.AddChild | context.cpp:129-132 | a new empty context is appended to the arena and to its parent's children; the tree stays well formed |
| Builder.ContextTree.RemoveChild | context.cpp:167-176 | reports whether the child was listed, and erases exactly its first occurrence; the tree stays well formed |
| Builder.ContextTree.Parse | gbpparser.cpp:59-64 | the feed loop leaves the tree in the state reached by FeedCount steps from the initial one |
| Builder.RemoveFirstCounts | context.cpp:167-176 | erasing a listed child removes exactly one occurrence of it, its first, and keeps the others in order; erasing an unlisted one changes nothing |
| Templates.Indexed | codegen.cpp:21-23 | each generator loop emits one entry per member, in order, the k-th built from index k and the k-th name |
| Templates.MemberNameSpecs | codegen.cpp:28-36 | genMemberName emits one specialisation per member, the i-th for index i naming the i-th member, and no index twice |
| Templates.MemberNameLinesDistinct | codegen.cpp:32 | two different indices never give the same member_name specialisation, whatever the names |
| Templates.CompareSpecs | codegen.cpp:58-75 | compare has one block per member index, in order, and no index twice |
| Templates.CompareBlocksDistinct | codegen.cpp:67-69 | two different indices never give the same compare block |
| Templates.GetMemberPairs | codegen.cpp:41-44 | genGetMember's list holds, for each member in turn, its mutable then its const get_member specialisation for its index |
| Templates.EqOperatorCompares | codegen.cpp:19-26 | operator== returns the members' `m == other.m` comparisons, in order, joined with ` && ` |
| Templates.SerializeArchives | codegen.cpp:77-79 | serialize hands every member to the archive, in order, joined with ` & ` |
| Templates.ApplyOverloadsAgree | codegen.cpp:49-57 | the mutable and the const apply hold the same calls `f("m", m);`, one per member, in order |
| Templates.CompareOverloadsAgree | codegen.cpp:58-75 | compare is the const overload then the mutable one, and both hold the same blocks between their opening lines and their return |
| Templates.OstreamPrintsFields | codegen.cpp:80-94 | the stream operator is declared for the given class name and prints `{`, each member's `"m: " << obj.m` in order separated by `", "`, and `}` |
| Templates.EnumCastCases | codegen.cpp:96-119 | enum_cast switches over the items in order, one case per item qualified by the class name, answering the qualified or the bare name; any other value falls through to `return "";`, and the stream operator that prints enum_cast of the value follows |
| Templates.GuardsWrap | codegen.cpp:123 | the additional-definitions guard holds its body between the `#ifdef` and `#endif` lines |
| Templates.EnumTemplatesWrap | codegen.cpp:171-190 | an enum and an enum class hold their items between the opening brace line and `};`, followed by the related functions |
| Templates.StructTemplateWraps | codegen.cpp:142-163 | a struct opens with `struct <name>` and its brace, and ends with `};`, the related-functions comment, `friend ` when given and the outside declarations |
| CodeGen.OfKinds | codegen.cpp:290-303 | the filtered children are exactly the children of the chosen kinds |
| CodeGen.OfKindsSnoc | codegen.cpp:290-303 | filtering keeps the children in their order |
| CodeGen.FirstOfKind | codegen.cpp:203-207 | the first child of a kind, or None when there is none |
| CodeGen.MemTypeChild | codegen.cpp:200-209 | getMemTypeContext returns the first MemberType child of the member (no earlier child is a MemberType), and null exactly when the member has none |
| CodeGen.LastOfKind | codegen.cpp:380-385 | the last child of a kind, or None when there is none |
| CodeGen.StructPath | codegen.cpp:328-335 | the enclosing structs of a context, outermost first, then the context itself; the walk stops at the first parent that is not a Struct |
| CodeGen.QualifyFromPath | codegen.cpp:328-335 | the qualifying loop prefixes the enclosing structs' names to the accumulated name, joined with `::`, outermost first |
| CodeGen.FullNameIsPath | codegen.cpp:328-335 | the qualified name is the struct path's names joined with `::`, so namespaces never appear in it |
| CodeGen.QualifyGrows | codegen.cpp:334 | qualification never shortens a name |
| CodeGen.FriendIffQualified | codegen.cpp:344 | `friend ` is emitted exactly for contexts nested in a struct, which are exactly those whose name gets qualified |
| CodeGen.SpecializationsQualified | codegen.cpp:320-335 | the specialisations are generated for the qualified name; for a struct not nested in a struct, that is exactly the text the replace loop leaves |
| CodeGen.ParsedStructsUnnested | codegen.cpp:328-335 | in every tree the feed loop builds, a Struct has no Struct parent, so the replace loop never runs and its text equals the qualified one, and a Struct lists no Member child |
| CodeGen.ScopedStructUnnested | codegen.cpp:328-335 | in any tree with that placement, a Struct is unnested and lists no Member |
| CodeGen.QualifyNestedD | codegen.cpp:329-333 | for struct `d` nested in struct `S`, the replace loop turns every `d::` of the text into `S::d::` |
| CodeGen.QualifyReplaceCorrupts | codegen.cpp:333 | for struct `d` with member `x` nested in struct `S`, the replace loop's text differs from the qualified specialisations |
| CodeGen.FullNameNestedD | codegen.cpp:334 | in that tree, struct `d` is known as `S::d` |
| CodeGen.ReplaceSkip | codegen.cpp:333 | a replace passes over a prefix that cannot start the pattern |
| CodeGen.ReplaceHit | codegen.cpp:333 | a replace rewrites a leading occurrence of the pattern |
| CodeGen.ContextToCode | codegen.cpp:241-438 | no code for a subtree without convertible symbols or for a None or DeclStruct context; only Global, Namespace, Struct, Enum and EnumClass produce implementation text |
| CodeGen.MemTypes | codegen.cpp:293 | for each member of a struct, in order, its MemberType child (defined, since a member the walk reaches has one) |
| CodeGen.StructChild | codegen.cpp:290-295 | every Member, Struct, Enum and EnumClass child of a renderable struct can be rendered, and each member has its MemberType |
| CodeGen.GlobalDecl | codegen.cpp:251-265 | the global declaration is the children's non-empty declarations joined with newlines, and the implementation their non-empty implementations joined with newlines |
| CodeGen.GlobalDeclEmptyIff | codegen.cpp:251-265 | the global declaration is empty exactly when every child's declaration is empty |
| CodeGen.GlobalSingle | codegen.cpp:251-265 | with exactly one child that declares something, the global declaration is that child's, with no stray separators |
| CodeGen.NamespaceWraps | codegen.cpp:266-278 | a namespace's declaration and implementation each consist of the opening `namespace <name>` and brace, all children's texts joined with newlines (empty ones included), and the closing comment; the body can be recovered by stripping both |
| CodeGen.UnderlyingLastWins | codegen.cpp:380-385 | the underlying-type loop ends with the text of the last UnderlyingType child, or with its starting value |
| CodeGen.EnumClassUnderlying | codegen.cpp:377-385 | an enum class is declared over `gbp_u8` unless it has an UnderlyingType child, and then over the last one's text |
| CodeGen.MemberTypeLastWins | codegen.cpp:411-419 | a member's type is the code of its last MemberType child |
| CodeGen.MemberValueLastWins | codegen.cpp:411-419 | a member's tail is ` = <value>;` for its last MemberValue child, or `;` when it has none |
| CodeGen.MemberRendering | codegen.cpp:406-422 | a member's declaration is the words of its (last) type, then the words of its name and tail, joined by single blanks, so exactly one blank separates type and name; no leading, trailing or double blanks, and every other character kept in order |
| CodeGen.DeclWords | codegen.cpp:197-198 | the simplified `<type> <name><tail>` is the type's words followed by the words of name and tail, joined by single blanks |
| CodeGen.EnumCastRendering | codegen.cpp:348-373 | an enum's implementation is enum_cast for its qualified name, switching over the codes of exactly its EnumItem children in order and falling back to `return "";`, followed by the stream operator |
| CodeGen.EnumDeclRendering | codegen.cpp:348-373 | an enum is declared under its own name with the codes of exactly its EnumItem children, in order, separated by `,` and a newline, then `friend ` when nested and the enum_cast and stream operator declarations for its qualified name |
| CodeGen.EnumClassRendering | codegen.cpp:375-404 | an enum class is declared the same way over its underlying type, and its implementation is enum_cast and the stream operator over those items |
| CodeGen.EnumItemAssigns | codegen.cpp:423-424 | an enum item's declaration has its text's length, no comma, and every other character unchanged |
| CodeGen.ScopedDefined | codegen.cpp:241-438 | in a tree with that placement, the walk from any context other than a Member never reaches Q_UNREACHABLE or a member without a type, since no Global, Namespace or Struct lists a Member child |
| CodeGen.ParsedWalkDefined | codegen.cpp:241-438 | the generator can walk the root of every tree the feed loop builds, and every context in it other than a Member |
| CodeGen.CodeGenerator.constructor | codegen.cpp:217-221 | the generator starts with empty code |
| CodeGen.CodeGenerator.GenerateCode | codegen.cpp:487-511 | the kept code becomes the root's code (empty without a root), and each part is reported changed exactly when its text differs from before |

## Left out

- Qt's signal and slot plumbing is not modelled: `setModel`, `setRootIndex`, the model connections, and `ContextModel` with its index bookkeeping. `CodeGenerator.GenerateCode` takes the chosen root context as an optional node, and its two results stand for the `declCodeChanged` and `implCodeChanged` signals.
- CodeGen.CodeGenerator.GenerateCode: the emitted signals carry the new text; the model reports only whether each part changed.
- `QString::arg` is modelled as concatenation. Qt would substitute a `%<digit>` marker inside an inserted piece (a member default value such as `5%2`) again. The model assumes no inserted text holds such a marker.
- Letters are ASCII letters. `QChar::isLetter` also accepts non-ASCII letters, and Unicode classification is not modelled.
- Classifier.IsDigit: digits are the ASCII digits `0`-`9`. `QChar::isDigit` also accepts the other Unicode decimal digits.
- Text.IsSpace: whitespace is the ASCII set (blank, tab, newline, vertical tab, form feed, carriage return). `QChar::isSpace`, which `QString::simplified` uses, also accepts U+0085, U+00A0, U+1680, U+2000-U+200A, U+2028, U+2029, U+202F, U+205F and U+3000.
- CodeGen.StructCode: no lemma takes a whole struct's rendering apart. The template lemmas (`Templates.StructTemplateWraps`, `Templates.GuardsWrap`, the `Templates.Gen*` lemmas) and `CodeGen.ParsedStructsUnnested` state its pieces.
- The scans of `getNameForward` read past the end of the buffer, which is undefined behaviour in the source. In the model they stop at the buffer's end. A name whose recorded start falls outside the buffer (a type or value name after skipped newlines) reads NUL there.
- The feed loop reads the file through `QTextStream` with a UTF-8 codec. The model counts one step per character of the decoded text. It does not model the stream skipping whitespace.
- Memory ownership is not modelled: `new`, `delete` and the destructor's recursive delete. The arena owns every node.
- A `contextToCode` case that returns a single `QString` where a `Code` is expected is taken to give that text as the declaration and an empty implementation. The `Code` class is not part of this model.
- The code paths that crash in the source are a precondition of the walk (`CodeDefined`), not modelled behaviour: `Q_UNREACHABLE` for a member child other than MemberType or MemberValue, and the null `getMemTypeContext` result for a member without a type.
- `genCompareMethod` builds a `callCmpFunc` text that is never emitted. It is left out.
- The generator helpers outside the core are not modelled: `codegen.hpp` beyond `Code`, the tab and page widgets, the checked-files list, and `main.cpp`.

## Findings

| source | as written | input that shows it | evidently intended | confidence | as-written member | corrected member |
|---|---|---|---|---|---|---|
| codegen.cpp:333 | each enclosing struct is applied by replacing every `<name>::` in the whole specialisation text with `<parent>::<name>::` | a hand-built tree with struct `d`, holding one member `x`, nested in struct `S`: the `d::` inside `std::tuple_element` is rewritten too, giving `stS::d::tuple_element`. The defect is latent: no parsed tree has a Struct inside a Struct (`CodeGen.ParsedStructsUnnested`), so the loop never runs on the parser's output, and the model keeps the text as written | qualify only the class name of each specialisation, i.e. generate them for the qualified name `S::d` | not executed | CodeGen.QualifyReplaceCorrupts | CodeGen.SpecializationsQualified |
| context.cpp:56-61 | the value scan starts its counter at 1, decrements it on every character that is not `)` and increments it on `)` | the value `10)` (member `x` with default value 10): the scan reads `1` only | a parenthesis balance, one up on `(` and one down on `)`, stopping after the `)` that closes the value | not executed | Classifier.ValueScanStopsEarly | Classifier.BalancedValueScan |
