# Frugurt interpreter core, modelled in Dafny

Frugurt is a small dynamically typed language whose interpreter is written in Rust. This project models three parts of that interpreter and proves properties about them:

- **Lowering** (`src/interpreter/tree_sitter_parser.rs`). The concrete syntax tree becomes the evaluator's statement and expression tree. Its central algorithm is the reduction of a flat `expr op expr op … expr` sequence into a binary-expression tree. The reduction runs one pass per distinct operator precedence, in ascending precedence order (the order of a `BTreeSet`). Each pass walks the list left to right and replaces every `expr op expr` triple whose operator has that precedence.
  - Module `Precedence` models the reduction itself. It has three parts:
    - specification functions on sequences: `ReduceAt`, `Pass`, `ReduceAll` and `Reduced`;
    - the cursor loops written as methods: `CursorPass` and `ReduceList`;
    - the lemmas about them.
  - Module `Lowering` models `parse_statement`, `parse_expression`, `parse_function_body`, `parse_field`, `parse_section`, `parse_method` and `parse_watch`. They are mutually recursive functions over an abstract node datatype (module `Concrete`).
    - The two imperative arms are methods proved equal to those functions:
      - `binaries_expression`: `LowerBinaries`;
      - `type_statement`: `LowerTypeStatement`, `SplitFieldLoop` and `GroupSectionLoop`.
    - A Rust `panic!`, `unimplemented!` or failed `unwrap` during lowering is modelled as a `Failure(Panic)` result.
- **Type descriptors** (`src/interpreter/value/fru_type.rs`). Module `FruTypes` has a class `FruType` with these fields:
  - immutable: the field list, the properties and the methods;
  - mutable: the static-field map and the append-only operator table.

  It models the lookups (`GetFieldK`, `GetProperty`, `GetMethod`, `GetProp`, `GetOperator`), the in-place updates (`SetProp`, `SetOperator`) and `Instantiate`. `Instantiate` binds arguments by position or by name, then reports one of three errors or builds an object whose values follow field declaration order.
- **Identifiers** (`src/interpreter/identifier.rs`). Module `Identifiers` has an `Interner` class. Its map from hash to text is written only when the hash is absent. The hash is an uninterpreted function that need not be injective. The module also models the display lookup, the builtin `for_*` names and the derived lexicographic ordering of `OperatorIdentifier`.

Supporting modules:
- `Wrappers`: `Option`, `Result` and `Outcome`.
- `Syntax`: the lowered statement and expression tree, plus `FruField`.
- `Concrete`: syntax-tree nodes with named child slots.

External collaborators are parameters, bundled in `Lowering.Externals`:
- the string hash;
- `calculate_precedence`;
- the number parser;
- the conversion from text to a type flavour.

## Model

| member | source | states |
|---|---|---|
| Identifiers.CompareIdentifier | src/interpreter/identifier.rs:10-14 | The derived order on identifiers is the order of their hashes: equal exactly when the identifiers are equal, less exactly when the hash is smaller |
| Identifiers.CompareOperatorEqual | src/interpreter/identifier.rs:16-21 | Two operator keys compare Equal exactly when op, left and right are all equal, which is exactly datatype equality |
| Identifiers.CompareOperatorLess | src/interpreter/identifier.rs:16-21 | The derived order on operator keys is lexicographic over (op, left, right) |
| Identifiers.CompareOperatorFlip | src/interpreter/identifier.rs:16-21 | The operator-key order is antisymmetric: a < b exactly when b > a |
| Identifiers.CompareOperatorTransitive | src/interpreter/identifier.rs:16-21 | The operator-key order is transitive |
| Identifiers.Interner.constructor | src/interpreter/identifier.rs:8 | The backwards map starts empty |
| Identifiers.Interner.New | src/interpreter/identifier.rs:24-37 | The identifier is the hash of the text, so equal texts give equal identifiers. The hash is then a key of the map. An occupied entry is never overwritten (first writer wins). Every earlier entry survives unchanged. Display of the result is defined, and it equals the text when no earlier text shares its hash |
| Identifiers.Interner.Display | src/interpreter/identifier.rs:52-57 | Display is defined exactly for the hashes in the map, and the text shown is one that was interned and hashes to that identifier |
| Identifiers.Interner.ForBuiltin | src/interpreter/identifier.rs:66-155 | Each for_* helper is `new` on its fixed text: same identifier, same map growth, display defined |
| Identifiers.DisplaySeen | src/interpreter/identifier.rs:52-57 | Display of the identifier of any interned text is defined and shows a text with the same hash |
| Identifiers.NewTwice | src/interpreter/identifier.rs:24-37 | Interning the same text twice gives the same identifier, and the second call leaves the map unchanged |
| Precedence.ReduceAt | src/interpreter/tree_sitter_parser.rs:331-348 | Replacing an `expr op expr` triple by one Binary operand keeps the list alternating and shortens it by exactly 2 |
| Precedence.Pass | src/interpreter/tree_sitter_parser.rs:313-350 | One precedence pass keeps a well-formed list (odd length, operands at even positions) well formed and never longer |
| Precedence.ReduceAll | src/interpreter/tree_sitter_parser.rs:313-350 | Running the passes for a sequence of precedences keeps the list well formed |
| Precedence.BTreeInsert | src/interpreter/tree_sitter_parser.rs:293-311 | Inserting into the ordered precedence set keeps it strictly increasing and adds exactly the new value |
| Precedence.IncreasingUnique | src/interpreter/tree_sitter_parser.rs:293 | Two strictly increasing sequences with the same elements are equal, so the BTreeSet iteration order is determined by its contents |
| Precedence.PrecedenceSet | src/interpreter/tree_sitter_parser.rs:293-311 | The collected precedences are strictly increasing and are exactly the precedences of the operators in the list |
| Precedence.PrecedenceSetCovers | src/interpreter/tree_sitter_parser.rs:293-311 | Every operator's precedence is among the collected precedences |
| Precedence.CursorPass | src/interpreter/tree_sitter_parser.rs:314-349 | The cursor loop over the linked list computes exactly `Pass` on an odd-length list. On an even-length list it panics only when the last operator has the pass's precedence; any other pass finishes and leaves that last operator in place |
| Precedence.ReduceList | src/interpreter/tree_sitter_parser.rs:313-355 | The loop over the precedences, followed by taking the front element and requiring it to be an operand, computes exactly `Reduced`: all passes in ascending order, then the front operand |
| Precedence.ChainLength | src/interpreter/tree_sitter_parser.rs:295-311 | A well-formed list has exactly one more operand than operators |
| Precedence.PassOperators | src/interpreter/tree_sitter_parser.rs:331-348 | A pass removes exactly the operators of its precedence and keeps all others in their order |
| Precedence.ReduceAllOperators | src/interpreter/tree_sitter_parser.rs:313-350 | After the passes for a set of precedences, the operators left are exactly those with other precedences, in order |
| Precedence.ReduceAllSingle | src/interpreter/tree_sitter_parser.rs:352-355 | When every operator's precedence is visited, the list ends as exactly one element and that element is an operand |
| Precedence.PassRemovesBand | src/interpreter/tree_sitter_parser.rs:313-350 | After the pass for precedence p no operator with precedence p remains |
| Precedence.PassIdle | src/interpreter/tree_sitter_parser.rs:313-350 | A pass over a list with no operator of its precedence changes nothing |
| Precedence.PassIdempotent | src/interpreter/tree_sitter_parser.rs:313-350 | Repeating the pass for the same precedence changes nothing |
| Precedence.PassFlatten | src/interpreter/tree_sitter_parser.rs:331-348 | A pass preserves the in-order flattening of operands and operators |
| Precedence.ReduceAllFlatten | src/interpreter/tree_sitter_parser.rs:313-350 | All passes together preserve the in-order flattening |
| Precedence.PassBinaries | src/interpreter/tree_sitter_parser.rs:331-348 | Each operator a pass removes becomes exactly one new Binary node |
| Precedence.ReduceAllBinaries | src/interpreter/tree_sitter_parser.rs:313-350 | Binary nodes plus remaining operators stay constant across all passes |
| Precedence.ReducedTree | src/interpreter/tree_sitter_parser.rs:331-355 | The resulting tree flattens in order to the input sequence and has exactly one new Binary node per input operator |
| Precedence.ReducedFails | src/interpreter/tree_sitter_parser.rs:352-355 | The reduction fails exactly when the element list has even length |
| Precedence.PassUniform | src/interpreter/tree_sitter_parser.rs:317-349 | When all operators share the pass's precedence, the pass produces the left fold: reduction is left-associative |
| Precedence.LeftAssociative | src/interpreter/tree_sitter_parser.rs:317-349 | `a op b op c` with equal precedences reduces to `Binary(op2, Binary(op1, a, b), c)` |
| Precedence.TighterBandFirst | src/interpreter/tree_sitter_parser.rs:293-350 | In `a + b * c - d`, with `*` having the smaller precedence value, the result is `(a + (b * c)) - d` |
| Lowering.LowerField | src/interpreter/tree_sitter_parser.rs:429-458 | A field is static exactly when it has the static marker and public exactly when it has the pub marker. Its name comes from the ident child. A static field has an initializer exactly when it has a value child. A non-static field with a default value is rejected |
| Lowering.LowerFieldParts | src/interpreter/tree_sitter_parser.rs:429-458 | The type hint is present exactly when there is a `type_ident` child, and is that child's identifier. A static field's initializer is the lowering of the `value` child. A missing `ident` child, then a failing `value` child, then a non-static field with a value are the errors, in that order |
| Lowering.LowerStatements | src/interpreter/tree_sitter_parser.rs:44-55 | When lowering a statement list succeeds, it has one statement per child |
| Lowering.LowerStatementsEach | src/interpreter/tree_sitter_parser.rs:44-55 | A statement list lowers exactly when every child does; statement k is child k's lowering, and a failure is the panic of the first failing child |
| Lowering.LowerExpressions | src/interpreter/tree_sitter_parser.rs:261-284 | When lowering an argument list succeeds, it has one expression per child |
| Lowering.LowerExpressionsEach | src/interpreter/tree_sitter_parser.rs:261-284 | An argument list lowers exactly when every child does; argument k is child k's lowering, and a failure is the panic of the first failing child |
| Lowering.LowerFields | src/interpreter/tree_sitter_parser.rs:194-200 | When lowering the field children succeeds, it has one field per child |
| Lowering.LowerSections | src/interpreter/tree_sitter_parser.rs:206-212 | When lowering the section children succeeds, it has one section per child |
| Lowering.LowerMethods | src/interpreter/tree_sitter_parser.rs:462-473 | When lowering a section's method children succeeds, it has one method per child |
| Lowering.LowerMethodsEach | src/interpreter/tree_sitter_parser.rs:462-473 | A section's methods lower exactly when every child does; method k is child k's lowering, and a failure is the panic of the first failing child |
| Lowering.LowerWatches | src/interpreter/tree_sitter_parser.rs:474-480 | When lowering a constraints section succeeds, it has one watch per child |
| Lowering.LowerWatchesEach | src/interpreter/tree_sitter_parser.rs:474-480 | A constraints section's watches lower exactly when every child does; watch k is child k's lowering, and a failure is the panic of the first failing child |
| Lowering.CollectAllEach | src/interpreter/tree_sitter_parser.rs:44-55 | Collecting per-child results into one `Result` succeeds exactly when every child does, keeps the values in child order, and otherwise gives the first child's panic |
| Lowering.LowerSectionKinds | src/interpreter/tree_sitter_parser.rs:460-483 | An impl, static or constraints node becomes exactly that kind of section, holding the lowering of its `methods` or `watches` children. A failing member fails the section, and any other node kind is rejected as not a section |
| Lowering.LowerMethodParts | src/interpreter/tree_sitter_parser.rs:485-491 | A method lowers exactly when it has `ident` and `body` children and the body lowers. Its name is the `ident` child's identifier, its parameters are the `args` children's identifiers in order, and its body is the lowered body. A missing child or the body's panic is the error, checked in that order |
| Lowering.LowerWatchParts | src/interpreter/tree_sitter_parser.rs:493-500 | A watch lowers exactly when it has a `body` child that lowers. Its names are the `args` children's identifiers in order and its body is the lowered statement; otherwise the error is the missing body or the body's panic |
| Lowering.LowerElems | src/interpreter/tree_sitter_parser.rs:295-311 | The flat element list has one element per child, alternates operand/operator starting with an operand, and each operator carries its name's identifier and its precedence |
| Lowering.LowerElem | src/interpreter/tree_sitter_parser.rs:295-311 | A child at an even position becomes an operand, at an odd position an operator |
| Lowering.LowerFieldsAppend | src/interpreter/tree_sitter_parser.rs:194-200 | Lowering the fields of a concatenation is the concatenation of the results, or the first failure |
| Lowering.LowerSectionsAppend | src/interpreter/tree_sitter_parser.rs:206-212 | Lowering the sections of a concatenation is the concatenation of the results, or the first failure |
| Lowering.LowerElemsAppend | src/interpreter/tree_sitter_parser.rs:295-311 | Building the element list of a concatenation is the concatenation of the results, or the first failure |
| Lowering.LowerElemsGrow | src/interpreter/tree_sitter_parser.rs:295-311 | When the next child lowers, the element list of the children so far grows by exactly that element |
| Lowering.LowerElemsStop | src/interpreter/tree_sitter_parser.rs:295-311 | When the next child fails to lower, the element list of all the children fails with that child's panic |
| Lowering.LowerFieldsGrow | src/interpreter/tree_sitter_parser.rs:194-200 | When the next field lowers, the field list of the children so far grows by exactly that field |
| Lowering.LowerFieldsStop | src/interpreter/tree_sitter_parser.rs:194-200 | When the next field fails to lower, lowering all the fields fails with that field's panic |
| Lowering.LowerSectionsGrow | src/interpreter/tree_sitter_parser.rs:206-212 | When the next section lowers, the section list of the children so far grows by exactly that section |
| Lowering.LowerSectionsStop | src/interpreter/tree_sitter_parser.rs:206-212 | When the next section fails to lower, lowering all the sections fails with that section's panic |
| Lowering.FieldSplitSnoc | src/interpreter/tree_sitter_parser.rs:194-200 | Pushing one more lowered field extends exactly the list of its kind by that field |
| Lowering.SectionGroupSnoc | src/interpreter/tree_sitter_parser.rs:206-212 | One more section extends exactly the group of its kind by its members |
| Lowering.LowerBinaries | src/interpreter/tree_sitter_parser.rs:285-356 | The imperative `binaries_expression` arm (build the list and precedence set, then run the cursor passes) equals the recursive lowering of that node |
| Lowering.SplitFieldLoop | src/interpreter/tree_sitter_parser.rs:194-200 | The push loop fails with the first field's panic, or splits the lowered fields into instance and static lists, each in source order |
| Lowering.GroupSectionLoop | src/interpreter/tree_sitter_parser.rs:206-212 | The extend loop fails with the first section's panic, or groups methods, static methods and watches by section kind, each in source order |
| Lowering.LowerTypeStatement | src/interpreter/tree_sitter_parser.rs:186-223 | The imperative `type_statement` arm equals the recursive lowering of that node |
| Lowering.SetFieldNeedsFieldAccess | src/interpreter/tree_sitter_parser.rs:89-109 | A set-field statement fails with the first panic met while looking up and lowering its target and then its value, a missing child reported by its field name. When both lower, it is accepted exactly when the target is a field access, whose object and field are carried over unchanged; otherwise the error names the lowered target |
| Lowering.ReturnDefaultsToNah | src/interpreter/tree_sitter_parser.rs:136-142 | A return with no value lowers to `Return(Literal(Nah))`; with a value, to `Return` of that value's lowering |
| Lowering.FunctionBodyReturns | src/interpreter/tree_sitter_parser.rs:419-427 | A block-expression body becomes `Return` of that expression, a block statement lowers as a statement, and anything else is rejected |
| Lowering.StringLiteralUnquoted | src/interpreter/tree_sitter_parser.rs:241-244 | A string literal lowers exactly when it has at least two characters. Its value is the text without the first and last character, and putting those two back gives the text again |
| Lowering.BinariesLowering | src/interpreter/tree_sitter_parser.rs:285-356 | When a child fails to lower, the binaries node fails with that panic. When all its children lower, it lowers exactly when their number is odd. The tree then flattens to the children in order and has one Binary node per operator |
| Lowering.FieldSplitAppend | src/interpreter/tree_sitter_parser.rs:194-200 | Splitting a concatenation of fields concatenates the instance lists and the static lists |
| Lowering.FieldSplitCount | src/interpreter/tree_sitter_parser.rs:194-200 | Every lowered field lands in exactly one of the two lists |
| Lowering.FieldSplitMembers | src/interpreter/tree_sitter_parser.rs:194-200 | A field is in the instance list exactly when it was lowered as normal; a (field, initializer) pair is in the static list exactly when it was lowered as static |
| Lowering.ImplMethodsAppend | src/interpreter/tree_sitter_parser.rs:206-212 | Grouping impl methods distributes over concatenation of sections |
| Lowering.StaticMethodsAppend | src/interpreter/tree_sitter_parser.rs:206-212 | Grouping static methods distributes over concatenation of sections |
| Lowering.WatchesAppend | src/interpreter/tree_sitter_parser.rs:206-212 | Grouping watches distributes over concatenation of sections |
| Lowering.SectionGroupMembers | src/interpreter/tree_sitter_parser.rs:206-212 | A method or watch is in a group exactly when some section of that kind contains it |
| FruTypes.FindField | src/interpreter/value/fru_type.rs:118-126 | The search from position i returns the first position at or after i whose field has the name, or None when no field from i on has it |
| FruTypes.FruType.constructor | src/interpreter/value/fru_type.rs:70-96 | A new type holds the given fields, properties, methods, static fields and scope, and an empty operator table |
| FruTypes.FruType.GetFieldK | src/interpreter/value/fru_type.rs:118-126 | Returns the smallest index whose field has the name, and None exactly when no field has it |
| FruTypes.FruType.GetProperty | src/interpreter/value/fru_type.rs:128-130 | Returns the instance property with that name exactly when there is one |
| FruTypes.FruType.GetMethod | src/interpreter/value/fru_type.rs:132-134 | Returns the instance method with that name exactly when there is one |
| FruTypes.FruType.GetProp | src/interpreter/value/fru_type.rs:137-161 | Static lookup priority: static field value; else the result of evaluating the static property's getter in the type's scope, failing with NoGetter when it has none even if a method exists; else a fresh function with the static method's parameters and body in the type's scope; else StaticPropNotFound |
| FruTypes.FruType.SetProp | src/interpreter/value/fru_type.rs:163-184 | An existing static field is replaced and nothing else changes. Otherwise the static fields are untouched: a static property runs its setter, or fails with NoSetter; a name that is only a method or is absent fails with StaticPropNotFound. The key set never changes |
| FruTypes.FruType.GetOperator | src/interpreter/value/fru_type.rs:186-188 | Returns the operator stored under exactly that key, if any |
| FruTypes.FruType.SetOperator | src/interpreter/value/fru_type.rs:190-204 | An occupied key fails with OperatorAlreadySet and leaves the table unchanged. A vacant key is inserted and a later lookup returns it. Existing entries are never changed |
| FruTypes.FruType.ResolvedName | src/interpreter/value/fru_type.rs:211-215 | An argument's name is its own name, or for a positional argument the name of the field at its index; there is none only past the end of the field list |
| FruTypes.FruType.Instantiate | src/interpreter/value/fru_type.rs:206-236 | The three loops (bind arguments, collect fields in order, report a leftover) produce a result allowed by `Instantiated`; the lemmas below characterise it |
| FruTypes.FruType.BoundMap | src/interpreter/value/fru_type.rs:211-220 | After binding, the map's keys are exactly the resolved argument names and each holds its argument's value |
| FruTypes.FruType.BoundSucceeds | src/interpreter/value/fru_type.rs:211-220 | Binding succeeds exactly when every argument resolves to a name and no name repeats |
| FruTypes.FruType.BoundFails | src/interpreter/value/fru_type.rs:211-220 | A binding failure is SetMoreThanOnce for a repeated name or IndexOutOfBounds for a positional argument past the fields |
| FruTypes.FruType.CollectedSucceeds | src/interpreter/value/fru_type.rs:222-229 | Collecting the first k fields succeeds exactly when each of them is bound and their names are distinct; the map left over holds exactly the bound names that are none of those fields |
| FruTypes.FruType.CollectedValues | src/interpreter/value/fru_type.rs:222-229 | A successful collection yields one value per field, value i being the one bound to field i, and the leftover map is a part of the bound map |
| FruTypes.FruType.CollectedFails | src/interpreter/value/fru_type.rs:222-229 | A failed collection reports MissingField for the first field, in declaration order, whose name is no longer in the map: earlier fields are all bound with distinct names, and this one is unbound or repeats an earlier name. With distinct field names it is the first unbound field |
| FruTypes.FruType.CollectedSpec | src/interpreter/value/fru_type.rs:222-229 | Collection succeeds exactly when every field is bound (and the field names are distinct). It yields the values in field order and removes exactly the field names; otherwise it reports MissingField for one of the fields, which with distinct field names is the first unbound one in declaration order |
| FruTypes.FruType.InstantiateSucceeds | src/interpreter/value/fru_type.rs:206-236 | Instantiation succeeds exactly when the arguments bind without repetition, every field is bound, the declared field names are distinct, and no argument names a non-field |
| FruTypes.FruType.InstantiateObject | src/interpreter/value/fru_type.rs:222-235 | A successful instantiation is an object of this type with one value per field, and value i is the argument bound to field i |
| FruTypes.FruType.InstantiateErrors | src/interpreter/value/fru_type.rs:206-236 | Each failure is one of SetMoreThanOnce, IndexOutOfBounds, MissingField or FieldDoesNotExist (a named argument that is no field). MissingField names a declared field. When the field names are distinct, it is the first field in declaration order that no argument names, every earlier field being named. MissingField wins over FieldDoesNotExist |
| FruTypes.SetThenGet | src/interpreter/value/fru_type.rs:137-167 | Setting an existing static field and then reading it gives back the value set |
| FruTypes.SetOperatorTwice | src/interpreter/value/fru_type.rs:190-204 | Registering an operator twice under one key fails the second time and keeps the first |

## Left out

- The tree-sitter `Parser` setup, the node API, `utf8_text` and the `dbg!` wrapper (src/interpreter/tree_sitter_parser.rs:26-40) are foreign-library plumbing. They are replaced by the `Concrete.Node` datatype.
- Node text is a `string` (a sequence of characters), not UTF-8 bytes. The string-literal slice `[1..len-1]` is modelled on characters, so a Rust panic on a non-ASCII boundary is not captured.
- Number literals parse into `f64` through Rust's `str::parse`. This floating-point library parser is the `parseNumber` parameter, and the value is a `real`. Bool literals compare the text with "true" and "false".
- `calculate_precedence` has no body in this model. It is the `precedence` parameter, and its `i32` result is an unbounded `int`.
- The conversion of a flavour name into `TypeFlavor` (`try_into().unwrap()`) is the `flavorOf` parameter.
- Lowering computes identifiers as the hash of the node text and does not thread the interner through: the entries `Identifier::new` adds to the backwards map during parsing are not modelled.
- Panic messages and `FruError` messages are structured values (`Panic`, `FruError`), not formatted strings. All `Debug` and `Display` formatting is left out.
- Lowering.LowerStatement: has no `ensures` of its own. What it promises is stated by the lemmas SetFieldNeedsFieldAccess, ReturnDefaultsToNah, LowerTypeStatement and FunctionBodyReturns.
- Lowering.LowerExpression: has no `ensures` of its own. What it promises is stated by the lemmas BinariesLowering and StringLiteralUnquoted, and by the method LowerBinaries.
- Lowering.LowerFunctionBody: has no `ensures` of its own. What it promises is stated by the lemma FunctionBodyReturns.
- Lowering.LowerSection: has no `ensures` of its own. What it promises is stated by the lemmas LowerSectionKinds, LowerSectionsGrow and LowerSectionsStop.
- Lowering.LowerMethod: has no `ensures` of its own. What it promises is stated by the lemmas LowerMethodParts and LowerMethodsEach.
- Lowering.LowerWatch: has no `ensures` of its own. What it promises is stated by the lemmas LowerWatchParts and LowerWatchesEach.
- Precedence.Reduced: has no `ensures` of its own. What it promises is stated by the lemmas ReducedTree and ReducedFails, and by the method ReduceList.
- FruTypes.FruType.Bound: has no `ensures` of its own. What it promises is stated by the lemmas BoundMap, BoundSucceeds and BoundFails, and by the method Instantiate.
- FruTypes.FruType.Collected: has no `ensures` of its own. What it promises is stated by the lemmas CollectedSucceeds, CollectedValues, CollectedFails and CollectedSpec, and by the method Instantiate.
- Identifiers.CompareOperator: has no `ensures` of its own. What it promises is stated by the lemmas CompareOperatorEqual, CompareOperatorLess, CompareOperatorFlip and CompareOperatorTransitive.
- FruTypes.FruType.GetProp: getter evaluation in a fresh type-bound scope is the `eval` parameter. What the getter body does is not modelled, and the `returned(...)` unwrapping of a control signal is folded into it.
- FruTypes.FruType.SetProp: `let_variable` and the setter's execution are one `exec` parameter. The side effects of user setter code on other state are not modelled; the method promises that the static fields stay unchanged in that branch only because `exec` is pure in this model. In the source, setter code runs in the type's scope and can write static fields.
- `Scope`, `FruFunction` internals and `FruObject::new_object` are evaluator code. A scope is an abstract tag and an object is a value holding its type and its field values.
- `uid` generation and `PartialEq` for `FruType` (`Rc::ptr_eq`, src/interpreter/value/fru_type.rs:239-243) are covered by `FruType` being a class: Dafny compares class values by reference, which is the same identity equality. The trivial accessors `get_uid`, `get_ident`, `get_type_flavor`, `get_scope` and `get_fields` are the class's fields.
- FruTypes.FruType.Instantiate: the field reported as not existing is whichever leftover key the `HashMap` yields first. That order is unspecified, so the model allows any leftover name.
- FruTypes.FruType.Instantiate: a positional argument past the end of the field list makes the source index out of bounds and panic. The model reports it as the error `IndexOutOfBounds`.
- The unsafe mutable global `BACKWARDS_MAP` and its thread-safety are modelled as one `Interner` object, so concurrent access is not modelled.
- `DefaultHasher` is an uninterpreted `string -> u64` function that is not assumed injective.
- Identifiers.Interner.Display: the source unwraps a missing map entry and panics. The model returns `None` instead, and proves that an identifier produced by `New` always finds its entry.
- Identifiers.IdentifierOf: the identifier of a text is only the hash of that text. It carries no contract of its own; its properties are stated through `Interner.New`.
- src/stdlib/prelude/builtin_scope_instance.rs is not part of this model. It delegates to scope code that is not available, plus proc-macro glue.
- rfruit/src/interpreter/mod.rs is not part of this model: it holds module declarations only.
- The reduction visits precedence values in ascending order, so the operators with the smallest value are reduced first and bind tightest. This is what the code does; nothing here fixes which symbols get which values.
- Instantiation reports a missing field before an argument naming a non-existent field whenever both are present. This follows the code.
