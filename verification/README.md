# Models of the algorithms behind GoSublime

Dafny models, with proofs, of the self-contained algorithms that this repository carries: the Go type
checker's type identity, selector lookup and method sets; the codec of export data; the text diff and its
application to a buffer; the analyses of control flow; exact constants; the concurrent importer; the
buffering of BLAKE2b; and the ripping of declarations.

`dafny verify dfyconfig.toml` verifies all modules.

- **Type graph and selectors** (`Types`, `Identity`, `Selectors`, `BreadthFirst`, `Lookup`, `MethodSets`,
  `Agreement`, `Implements`). A checked program is a finite graph of types, cycles included. `Identity` proves
  that the comparison with a stack of assumed pairs is bisimilarity. `Lookup` proves the breadth-first search
  equal to the rule of unique shallowest embedding paths, `MethodSets` characterises the second algorithm, and
  `Agreement` says exactly when the two agree. `Implements` puts lookup, receivers and identity together for
  `MissingMethod`.
- **Export data** (`TypeGraph`, `Format`, `Export`, `Mirror`, `MirrorSteps`, `Import`, `Cleanness`, `Codec`,
  `Collected`, `Twice`). `Format` gives the stream for a cyclic type graph as a function of what has been numbered
  so far. The exporter, an object whose data and index maps grow, writes that stream; the importer, which
  allocates objects first and fills them in later, keeps its lists in step with the maps. `Codec` puts them
  together: a round trip rebuilds an isomorphic graph, next to what was imported before. `Cleanness` says by the
  type graph alone when an import cannot fail, and `Collected` when the interfaces come back with all their
  methods; `Twice` imports two packages of a program one after the other.
- **Exact constants** (`Bitwise`, `Exact`, `Constants`, `ConstantCodec`). Five representations with fast paths
  refine exact arithmetic and stay canonical; constants go through bytes, machine words and the export data and
  come back as they were.
- **Text diff** (`Edits`, `Strings`, `CleanupMerge`, `Cleanups`, `Semantic`, `Distance`, `Furthest`, `Bisect`,
  `HalfMatch`, `Lines`, `Diff`, `Patch`, `Delta`). Texts are sequences of code points, edit lists are edited in
  place, and Python's clamped slices are functions. The clock is an object that answers each reading as it likes.
  `Distance` defines the edit distance over points of the grid of two texts, `Furthest` what the arrays of
  furthest points know of shortest ways, and `Bisect` proves that the middle snake lies on one, cut-off diagonals
  and deadline included; so a diff without a deadline is a shortest one. `HalfMatch` proves the speed-up by two
  seeds to find the longest common substring, and `Patch` puts everything together for the buffer. Scores of the
  cosmetic clean-up are any function.
- **Control flow** (`Returns`, `Endings`, `Labels`). Terminating statements against an execution semantics with
  break, continue, goto, fallthrough, return, panic and the names declared in each block, in both directions; the
  resolver of forward jumps against the rule for goto statements, stated on the events of a body, each with the
  path of its block.
- **Concurrent importer** (`Loading`). Goroutines with stacks of calls, the map under its mutex and the ready
  channels, as interleaved steps, with a measure of the work that is left.
- **BLAKE2b** (`Blake2b`). The digest object against section 3.3 of RFC 7693, for any compression function F.
- **Ripper** (`Ripper`). The scans for the declaration around the cursor, on the tokens of a file.

`Sealing` holds quantified facts back from proofs that do not need them.

## What the proofs brought to light

Where the code does not meet what one would expect of it, the exact condition is proved.

- `diff_cleanupMerge` cuts off a suffix with `[:-len(...)]`, which for an empty equality cuts off everything:
  `ShiftLeftTexts`, `EmptyEqualityLoses`. The overlap stage of `diff_cleanupSemantic` makes such an equality
  exactly when one of two edits is empty: `ExtractedTexts`, `ExtractOverlaps`.
- `diff_cleanupSemanticLossless` shifts an edit to the left by its own length at most, although it could go
  further: `BestFit`, `OutOfReach`.
- A single field less deep than a method hides it from lookup but not from the method set: `SetMethodFound`,
  `ShadowingNotRecorded`. So the agreement holds for the methods that lookup finds: `FoundMethodInSet`.
- A field that embeds a basic type, or a type of another package than its own, such as `error`, comes back from
  export data with the package of that type; so an unexported name changes its identifier (`FieldIdentifier`).
  If the embedded type is predeclared, the package is nil and the rebuilt field cannot be exported again
  (`RebuiltNotExportable`, `EmbeddedError`).
- The importer panics when it has to look into a type that it is still reading: the base of an embedded pointer,
  or the underlying type of an embedded interface (`RoundTrip`). Whether it comes to that may depend on the order
  of the objects (`PointerFirst`, `InterfaceFirst`), and on whether two places share a pointer type
  (`OwnPointer`); no order makes it panic if and only if nothing is embedded in that way in a type that it leads
  to (`CleanInEveryOrder`).
- Under the same condition every interface gets all its methods back (`FoundInEveryOrder`). Without it, an import
  that does not panic may still lose methods: NewInterface takes none from an interface that is being read
  (`MethodsLost`).
- NewInterface replaces the receivers of the signatures of interface methods by one of another interface object
  than the one recorded: `ReceiversReplaced`, `ReceiverIsTwin`.
- `match` of a Bool or String with an unknown value makes operations and comparisons panic: `MatchUnknown`,
  `UnknownOperand`, `UnknownCompared`. Forced integer division of -2^63 by -1 wraps: `IntegerExact`.
- The call of a function named `panic` that an inner block declares is taken for the predeclared one, because
  the name is looked up in the function's scope: `PanicLookup`, `ShadowedPanic`; and a name that is declared
  later hides the predeclared one from it: `LaterPanic`.
- A label `_` is never entered in its scope, but a goto can name it. After the label the checker panics; before
  it the goto is accepted: `Labels`, `RightIffNoBlankMet`, `BlankLabelPanics`, `BlankLabelAccepted`.
- A key of no bytes that is not nil is hashed as a block of zeros, against RFC 7693: `KeyPrefixIsRfc`.
- A package on an import cycle, or one that leads to a cycle, never becomes ready: `CycleNeverReady`.
- The ripper indexes the first token of a file, so it panics exactly on a file without tokens: `RipOffDecl`.

## Model

| member | source | states |
|---|---|---|
| `Types.SameIdIffEqualIds` | src/code.google.com/p/go.tools/go/types/objects.go:46-111 | `sameId` and equal `Id` strings, the two ways of comparing identifiers, differ exactly on one unexported name in two packages that `Id` writes alike: nil, one without a path, and one with the path `_` |
| `Identity.IdenticalIffBisimilar` | src/code.google.com/p/go.tools/go/types/predicates.go:112-283 | the comparison with its stack of assumed pairs answers yes exactly for bisimilar types, named types compared by object; assuming pairs on the stack is sound and complete. The recursion ends on every graph whose cycles pass through a named or interface type |
| `Identity.PositiveAgrees` | src/code.google.com/p/go.tools/go/types/predicates.go:240-262 | soundness in one direction: a positive answer is right to depth n as soon as the pairs on its stack agree to depth n |
| `Identity.BisimilarAccepted` | src/code.google.com/p/go.tools/go/types/predicates.go:126-283 | completeness: bisimilar types are never told apart, whatever is on the stack |
| `Identity.IdentityIsEquivalence` | src/code.google.com/p/go.tools/go/types/predicates.go:112-114 | `IsIdentical` is reflexive, symmetric and transitive |
| `Selectors.LookupMethodFirst` | src/code.google.com/p/go.tools/go/types/lookup.go:337-346 | `lookupMethod` returns the first method with the identifier, and a negative index exactly without one |
| `BreadthFirst.ConsolidateMultiples` | src/code.google.com/p/go.tools/go/types/lookup.go:217-235 | the list is rewritten in place into one entry for each type, in order of first occurrence, marked exactly when the type occurs again |
| `BreadthFirst.MergedConsolidated` | src/code.google.com/p/go.tools/go/types/lookup.go:214-235 | what that merged list keeps: every type, once, with the index path of its first entry |
| `BreadthFirst.FrontierStep` | src/code.google.com/p/go.tools/go/types/lookup.go:97-199 | from one depth to the next, the entries are the types not reached by shorter paths, marked exactly when reached by several paths of this length: the set of seen types and the merging lose nothing |
| `BreadthFirst.FrontierEnd` | src/code.google.com/p/go.tools/go/types/lookup.go:97-104 | when the search runs out of entries, every type that any embedding path reaches has been seen |
| `Lookup.SelectsIsFunctional` | src/code.google.com/p/go.tools/go/types/lookup.go:19-31 | the rule of selectors fixes the object, the index path and the collision verdict |
| `Lookup.LookupFieldOrMethodFrom` | src/code.google.com/p/go.tools/go/types/lookup.go:74-204 | on every embedding graph, recursive or not, the search ends and returns the unique entity at the shallowest depth with its index path and indirection; or the index of an ambiguous one; or nothing |
| `Lookup.VisitEntry` | src/code.google.com/p/go.tools/go/types/lookup.go:115-191 | what one entry contributes: the first match, a collision, or the embedded types for the next depth |
| `Implements.LookupFieldOrMethod` | src/code.google.com/p/go.tools/go/types/lookup.go:32-72 | the same rule, but for a named pointer type with no match, where a field (never a method) found below the pointer counts |
| `Implements.MissingMethod` | src/code.google.com/p/go.tools/go/types/lookup.go:247-294 | nothing is reported exactly when V has every method of the interface, found by the selector rule, callable on a V, and of bisimilar type (an interface V may lack methods in a dynamic check); else the first obstacle, and whether only its type is wrong |
| `Implements.CallableIffInMethodSet` | src/code.google.com/p/go.tools/go/types/lookup.go:271-291 | what lookup finds and V can call is what the method set of V holds with no field of that name less deep |
| `Implements.ImplementsByMethodSet` | src/code.google.com/p/go.tools/go/types/lookup.go:253-291 | a concrete type implements a method for `MissingMethod` exactly when its method set has it, unhidden, with a bisimilar type |
| `MethodSets.CollectSpec` | src/code.google.com/p/go.tools/go/types/methodset.go:226-276 | an identifier is entered exactly when it occurs at the depth, and as no collision exactly when it occurs once and unspoiled |
| `MethodSets.BaseStep` | src/code.google.com/p/go.tools/go/types/methodset.go:175-205 | merging the tables of one more depth gives the method sets of all paths up to that depth |
| `MethodSets.NewMethodSet` | src/code.google.com/p/go.tools/go/types/methodset.go:91-219 | the set holds under an identifier exactly the method that is the only candidate at its depth, callable, and not hidden by methods or colliding fields above or by a field beside it |
| `Agreement.FoundMethodInSet` | src/code.google.com/p/go.tools/go/types/call.go:374-400 | whenever lookup finds method m, the method set has that m with the same index path if the path is indirect or m has a value receiver, and nothing otherwise |
| `Agreement.SetMethodFound` | src/code.google.com/p/go.tools/go/types/methodset.go:175-205 | conversely, a method of the set is what lookup finds if and only if no field of its name is less deep |
| `Agreement.DebugCheckHolds` | src/code.google.com/p/go.tools/go/types/call.go:374-400 | the debug check that the two algorithms agree never panics for an accepted method call |
| `Agreement.ShadowingNotRecorded` | src/code.google.com/p/go.tools/go/types/methodset.go:193-202 | a concrete graph where the converse fails: a single less deep field hides the method from lookup only |
| `Export.Exporter.ExportData` | src/code.google.com/p/go.tools/go/importer/export.go:65-114 | the exporter writes the stream that `Format.Emit` gives for the package and its objects, and its numbering tables end as `Emit` says |
| `Export.Exporter.Typ` | src/code.google.com/p/go.tools/go/importer/export.go:237-250 | a type written before becomes its number; any other is numbered before its contents are written |
| `Export.Exporter.Contents` | src/code.google.com/p/go.tools/go/importer/export.go:252-340 | the contents of each kind of type, in the order of the format |
| `Export.Exporter.Package` | src/code.google.com/p/go.tools/go/importer/export.go:116-133 | a package written before becomes its number; any other is numbered, then written |
| `Export.Exporter.Field` | src/code.google.com/p/go.tools/go/importer/export.go:342-362 | the name of a field is empty for an anonymous one; the package of an exported name is not written |
| `Export.Exporter.Signature` | src/code.google.com/p/go.tools/go/importer/export.go:364-394 | receiver, parameters, results and the variadic flag |
| `Export.Exporter.Obj` | src/code.google.com/p/go.tools/go/importer/export.go:135-162 | constants with their value, types, variables and functions |
| `MirrorSteps.Alloc` | src/code.google.com/p/go.tools/go/importer/import.go:191-211 | a type gets its place in the list before its contents are read: both tables grow by one, and place by place name corresponding types |
| `MirrorSteps.AddPkg` | src/code.google.com/p/go.tools/go/importer/import.go:80-105 | the package tables grow in lock step |
| `MirrorSteps.FillIn` | src/code.google.com/p/go.tools/go/importer/import.go:213-315 | writing the contents into the object allocated first completes the correspondence |
| `Import.Importer.Typ` | src/code.google.com/p/go.tools/go/importer/import.go:195-315 | reading a type keeps the correspondence of tables and heap; it fails, where the source panics, exactly if it has to look into a type still being read |
| `Import.Importer.Package` | src/code.google.com/p/go.tools/go/importer/import.go:80-105 | reads back the package written, taking one imported before by its path; it is among the imports under its path afterwards, and the other imports stay |
| `Import.Importer.EmbeddedName` | src/code.google.com/p/go.tools/go/importer/import.go:324-345 | an anonymous field takes name and package from its type; this fails exactly if its pointer type is still being read |
| `Import.Importer.SetReceivers` | src/code.google.com/p/go.tools/go/types/types.go:258-270 | exactly the signatures of the methods of the interface get new receivers, of the type of a second interface object with the same methods and embedded types |
| `Import.Importer.NewInterface` | src/code.google.com/p/go.tools/go/types/types.go:258-298 | all receivers of the methods of the interface are replaced in that way, types stay as they were; it fails exactly if an embedded type has no underlying type yet |
| `Import.Importer.NamedType` | src/code.google.com/p/go.tools/go/importer/import.go:283-313 | a named type that is in scope already is used and stays as it is; any other goes into its scope, gets its underlying type as soon as that is read, then its methods, none of which is lost; either way the type is what the scope holds under its name |
| `Import.Importer.ImportData` | src/code.google.com/p/go.tools/go/importer/import.go:25-78 | on exported data the import succeeds exactly if no type has to be looked into while being read; then all recorded types have their contents; every numbered named type is in scope under package and name as its image, every numbered package is among the imports under its path, what was there stays, and nothing else is added |
| `Codec.RoundTrip` | src/code.google.com/p/go.tools/go/importer/export.go:65-394 | importing what was exported, for any word sizes and whatever was imported before: it succeeds if and only if `Clean`, and then the rebuilt graph is isomorphic, cycles and sharing included, with the same objects and constants; named types imported before are used as they are, and scopes and imports end as said of `ImportData` |
| `Twice.NextSetup` | src/code.google.com/p/go.tools/go/importer/import.go:80-105 | after an import the next package of the same program meets the conditions of `RoundTrip`: what the first has put into scope is what the second holds, and is complete |
| `Twice.OneObject` | src/code.google.com/p/go.tools/go/importer/import.go:283-301 | a named type that two packages mention is one object after both imports |
| `Twice.BothPackages` | src/code.google.com/p/go.tools/go/importer/import.go:25-78 | two imports with one map of imports: both succeed if and only if the one package is clean, and the other is, given the types of the first; then both graphs are isomorphic to what was exported, objects of the first import stay, shared names are shared objects, and all names are in scope |
| `Codec.CleanInEveryOrder` | src/code.google.com/p/go.tools/go/importer/import.go:317-322 | a package can be imported whatever objects it exports in whatever order, if and only if no struct embeds a pointer that leads back to the struct, and no interface embeds a type, not imported before, that leads back to the interface |
| `Codec.HarmlessIsClean` | src/code.google.com/p/go.tools/go/importer/import.go:195-315 | the condition on the graph is enough for the objects given |
| `Codec.HazardComesFirst` | src/code.google.com/p/go.tools/go/importer/import.go:317-322 | a type that is embedded somewhere it leads to makes the import fail when it is the type of the first object |
| `Codec.FieldIdentifier` | src/code.google.com/p/go.tools/go/importer/import.go:324-345 | the rebuilt field has the identifier of the exported one, if and only if it is not an embedded type of an unexported name that is basic, or named with a package other than the field's, such as `error` |
| `Codec.MemberIdentifier` | src/code.google.com/p/go.tools/go/importer/import.go:348-358 | methods keep their identifier although the package of an exported name is not stored |
| `Codec.RebuiltNotExportable` | src/code.google.com/p/go.tools/go/importer/import.go:331-338 | a rebuilt field cannot be exported again, its package being nil, if and only if it embeds a predeclared type |
| `Codec.EmbeddedError` | src/code.google.com/p/go.tools/go/types/universe.go:57-79 | a concrete field: `struct { error }` comes back with another identifier and cannot be exported again |
| `Codec.PointerFirst` | src/code.google.com/p/go.tools/go/importer/import.go:317-322 | a concrete package: `var A = T{}.T` before `type T struct { *T }`, the variable having the very type of the embedded field, cannot be imported, the other order can |
| `Codec.OwnPointer` | src/code.google.com/p/go.tools/go/types/typexpr.go:296-303 | sharing decides it: `var A *T`, whose type is another pointer object than the field's, can be imported in both orders |
| `Codec.InterfaceFirst` | src/code.google.com/p/go.tools/go/types/types.go:258-298 | a concrete package: `type N interface { M() interface { N } }` before a variable of the type that M returns cannot be imported, the other order can |
| `Codec.HeldInEveryOrder` | src/code.google.com/p/go.tools/go/importer/import.go:283-301 | the same package can be imported in every order when N was imported before |
| `Collected.FoundInEveryOrder` | src/code.google.com/p/go.tools/go/types/types.go:273-291 | where named interfaces declare no methods of their own, as the language demands: a package can be imported with complete method sets of all its interfaces, whatever objects it exports in whatever order, if and only if it meets the condition of `CleanInEveryOrder` |
| `Collected.CollectsAll` | src/code.google.com/p/go.tools/go/types/types.go:273-291 | for the objects given, in their order, that condition is enough: each interface gets the methods it declares and those of all interfaces embedded in it, at any depth |
| `Collected.CollectsIfClean` | src/code.google.com/p/go.tools/go/types/types.go:273-291 | methods are collected exactly when the import does not panic |
| `Collected.MethodsLost` | src/code.google.com/p/go.tools/go/types/types.go:278-288 | a concrete package, `type A interface { M() interface { B } }` and `type B A`: with A first it is imported without a panic, and `interface { B }` has no methods |
| `Codec.ReceiversReplaced` | src/code.google.com/p/go.tools/go/types/types.go:258-298 | after the import, receivers have been replaced for exactly the signatures of methods of interfaces |
| `Codec.ReceiverIsTwin` | src/code.google.com/p/go.tools/go/types/types.go:258-298 | such a receiver is an interface object that is not the one recorded but has its methods and embedded types, if no interface of the signature was numbered after it; else it may be the receiver exported |
| `Cleanness.SafeIsClean` | src/code.google.com/p/go.tools/go/importer/import.go:195-315 | with a harmless graph the reader of any safe rest of the stream never looks into a type in the making |
| `Cleanness.NothingLooksIn` | src/code.google.com/p/go.tools/go/importer/import.go:195-315 | while a type is in the making, a stream that can be read passes no type whose reader looks into it, and all types mentioned on the way |
| `ConstantCodec.WriteValue` | src/code.google.com/p/go.tools/go/importer/export.go:164-235 | the tokens of a constant, the same for every word size |
| `ConstantCodec.ReadValue` | src/code.google.com/p/go.tools/go/importer/import.go:129-189 | decoding an encoded constant gives back the same canonical value and the rest of the data, for any word size, through sign, stripped zero bytes and power-of-two exponent |
| `ConstantCodec.UfloatBack` | src/code.google.com/p/go.tools/go/importer/import.go:178-189 | stripped zero bytes come back as a power of two |
| `ConstantCodec.FractionBack` | src/code.google.com/p/go.tools/go/importer/import.go:165-176 | the quotient of numerator and denominator with the sign put back is the value |
| `Constants.Bytes` | src/code.google.com/p/go.tools/go/exact/exact.go:317-344 | the bytes are the base-256 digits of the absolute value, for any word size |
| `Constants.MakeFromBytes` | src/code.google.com/p/go.tools/go/exact/exact.go:349-374 | packing bytes into words of any size gives their value, normalised |
| `Constants.DigitsUnique` | src/code.google.com/p/go.tools/go/exact/exact.go:317-374 | digits without leading zeros are unique |
| `Exact.CanonicalUnique` | src/code.google.com/p/go.tools/go/exact/exact.go:92-119 | equal numbers have one canonical representation |
| `Exact.NormIsCanonical` | src/code.google.com/p/go.tools/go/exact/exact.go:97-119 | the three normalisations keep the value and give the canonical representation |
| `Exact.MatchKeepsMeaning` | src/code.google.com/p/go.tools/go/exact/exact.go:559-605 | `match` brings two numbers to one representation and changes neither |
| `Exact.MatchUnknown` | src/code.google.com/p/go.tools/go/exact/exact.go:559-567 | one unknown operand makes both unknown if and only if the first is not a Bool or String |
| `Exact.UnknownOperand` | src/code.google.com/p/go.tools/go/exact/exact.go:614-626 | an operation with an unknown operand gives unknown, except that it panics exactly for a Bool or String on the left |
| `Exact.ArithmeticExact` | src/code.google.com/p/go.tools/go/exact/exact.go:614-767 | +, -, * and exact quotient on any mix of representations are canonical and mathematically exact; only division by zero panics |
| `Exact.Int64Exact` | src/code.google.com/p/go.tools/go/exact/exact.go:628-668 | the 32-bit and 63-bit guards exclude overflow |
| `Exact.IntegerExact` | src/code.google.com/p/go.tools/go/exact/exact.go:652-697 | forced integer division, remainder and bit operations are canonical, and exact if and only if not -2^63 divided by -1, which gives -2^63; only division by zero panics |
| `Exact.TruncatedDivision` | src/code.google.com/p/go.tools/go/exact/exact.go:652-655 | the quotient truncates, the remainder has the sign of the dividend and is smaller than the divisor |
| `Exact.NegationExact` | src/code.google.com/p/go.tools/go/exact/exact.go:483-498 | negation is canonical and exact, for -2^63 too |
| `Exact.ComplementExact` | src/code.google.com/p/go.tools/go/exact/exact.go:500-519 | ^ is the bitwise complement, cut to the given size for unsigned types |
| `Exact.ComplementBits` | src/code.google.com/p/go.tools/go/exact/exact.go:495-519 | ^ flips every bit; with a size, the bits from there on are off, without one, as for signed types, none is |
| `Exact.ShiftExact` | src/code.google.com/p/go.tools/go/exact/exact.go:773-804 | left shift multiplies, right shift divides and rounds down, canonically |
| `Exact.CompareExact` | src/code.google.com/p/go.tools/go/exact/exact.go:829-898 | comparison is that of the numbers; complex numbers have no order; equal means the same canonical value |
| `Exact.UnknownCompared` | src/code.google.com/p/go.tools/go/exact/exact.go:829-834 | a comparison with an unknown operand is false, `!=` included, but it panics exactly for a Bool or String on the left |
| `Exact.KindsCompared` | src/code.google.com/p/go.tools/go/exact/exact.go:836-898 | known values that are not both numbers can be compared exactly if they are two Bools, for equality only, or two Strings |
| `Exact.StringsCompared` | src/code.google.com/p/go.tools/go/exact/exact.go:879-895 | strings are compared by one total order, and equal means the same string |
| `Exact.StringLess` | src/code.google.com/p/go.tools/go/exact/exact.go:879-895 | a string is less if and only if it is a proper prefix or has the smaller character at the first difference |
| `Exact.OtherOperands` | src/code.google.com/p/go.tools/go/exact/exact.go:614-767 | known operands that are not both numbers: && and \|\| on two Bools, concatenation of two Strings, and a panic for everything else |
| `Bitwise.CombineBits` | src/code.google.com/p/go.tools/go/exact/exact.go:657-664 | bit operations on integers act on each bit of the infinite two's complement |
| `Bitwise.MachineIsExact` | src/code.google.com/p/go.tools/go/exact/exact.go:657-664 | the 64-bit machine operations are the exact ones on int64 operands |
| `Strings.CommonPrefix` | something_borrowed/diff_match_patch/python3/diff_match_patch.py:452-478 | the binary search finds the longest common prefix |
| `Strings.CommonSuffix` | something_borrowed/diff_match_patch/python3/diff_match_patch.py:480-507 | the binary search finds the longest common suffix |
| `Strings.CommonOverlap` | something_borrowed/diff_match_patch/python3/diff_match_patch.py:509-549 | the longest suffix of one text that is a prefix of the other |
| `CleanupMerge.FirstPass` | something_borrowed/diff_match_patch/python3/diff_match_patch.py:916-991 | keeps both texts, even with empty equalities, and ends merged: no two equalities in a row, one deletion before one insertion with no common ends; edits never grow |
| `CleanupMerge.ShiftLeftTexts` | something_borrowed/diff_match_patch/python3/diff_match_patch.py:1003-1011 | a shift to the left by the slice `[:-len]` keeps both texts if and only if the equality has text or there is nothing to shift |
| `CleanupMerge.EmptyEqualityLoses` | something_borrowed/diff_match_patch/python3/diff_match_patch.py:1003-1011 | a concrete list with an empty equality, where one shift to the left by that slice loses text |
| `CleanupMerge.ShiftRightTexts` | something_borrowed/diff_match_patch/python3/diff_match_patch.py:1012-1020 | a shift to the right keeps both texts |
| `CleanupMerge.SecondPass` | something_borrowed/diff_match_patch/python3/diff_match_patch.py:995-1021 | one sweep of shifts; without a change, no edit can be shifted |
| `CleanupMerge.CleanupMerge` | something_borrowed/diff_match_patch/python3/diff_match_patch.py:916-1025 | ends on every list, in normal form: merged, and no single edit can be shifted over a neighbour; without empty equalities it keeps both texts and makes none |
| `CleanupMerge.ChainAt` | something_borrowed/diff_match_patch/python3/diff_match_patch.py:916-991 | what the normal form says of each two neighbours |
| `Cleanups.CleanupEfficiency` | something_borrowed/diff_match_patch/python3/diff_match_patch.py:845-914 | keeps both texts on lists without empty equalities, and ends although the pointer jumps back; it changes the list if and only if there is a short equality with one of the five patterns around it |
| `Cleanups.EliminateShort` | something_borrowed/diff_match_patch/python3/diff_match_patch.py:855-911 | its loop leaves no such equality, for all that the stack of candidates forgets and the jumps skip, and splits no other |
| `Cleanups.EliminateEqualities` | something_borrowed/diff_match_patch/python3/diff_match_patch.py:635-692 | the first stage of `diff_cleanupSemantic` keeps both texts of every list, ends, leaves no equality that is no longer than the edits on both sides, and splits no other |
| `Semantic.BestFit` | something_borrowed/diff_match_patch/python3/diff_match_patch.py:798-832 | for any score, the position chosen spells the same and has the highest score of all that do, but those more than the length of the edit to the left; of several, it is the last |
| `Semantic.OutOfReach` | something_borrowed/diff_match_patch/python3/diff_match_patch.py:798-803 | a concrete edit with a position further to the left, which is not tried |
| `Semantic.CleanupSemanticLossless` | something_borrowed/diff_match_patch/python3/diff_match_patch.py:730-843 | keeps both texts of every list, for any score, makes no empty equality of a list without one, and moves each edit between two equalities, from the front, to where it fits best |
| `Semantic.ExtractedTexts` | something_borrowed/diff_match_patch/python3/diff_match_patch.py:703-727 | extracting an overlap keeps both texts; it makes an empty equality if and only if one of the edits is empty |
| `Semantic.OverlapTaken` | something_borrowed/diff_match_patch/python3/diff_match_patch.py:703-727 | an overlap is extracted if and only if it is at least half as long as one of the edits: the longer of two, or that of the end of the deletion |
| `Semantic.ExtractOverlaps` | something_borrowed/diff_match_patch/python3/diff_match_patch.py:699-728 | extracts overlaps pair by pair from the front; the overlap stage leaves no empty equality if and only if no pair of a deletion and an insertion that it looks at has an empty one |
| `Semantic.CleanupSemantic` | something_borrowed/diff_match_patch/python3/diff_match_patch.py:635-728 | ends on every list, and keeps both texts of one without empty equalities; the stages, one after another |
| `Bisect.MiddleSnake` | something_borrowed/diff_match_patch/python3/diff_match_patch.py:255-355 | whenever the deadline fires, no index into the two arrays or the texts is out of range or wraps around; a split point lies on a shortest way between the texts, and for texts without common ends both parts are shorter than the whole; without a split point or a deadline the texts have nothing in common |
| `Furthest.Visited` | something_borrowed/diff_match_patch/python3/diff_match_patch.py:284-341 | every diagonal that holds a point of a shortest way at distance d is visited in step d: those cut off by `k1start` and `k1end` hold none |
| `Furthest.NotBeyondRight` | something_borrowed/diff_match_patch/python3/diff_match_patch.py:307-312 | no shortest way comes to a diagonal beyond one on which the search has left the grid |
| `Furthest.PassesBest` | something_borrowed/diff_match_patch/python3/diff_match_patch.py:293-306 | the walk on a diagonal passes the points of shortest ways at distance d on it, if the neighbouring diagonals did so at d - 1 |
| `Furthest.Meeting` | something_borrowed/diff_match_patch/python3/diff_match_patch.py:313-351 | where the two searches overlap for the first time, the point lies on a shortest way |
| `Furthest.MustMeet` | something_borrowed/diff_match_patch/python3/diff_match_patch.py:307-351 | if a point of a shortest way has been passed from both ends, the overlap lies inside the grid, so that it is found |
| `Distance.BeyondEdge` | something_borrowed/diff_match_patch/python3/diff_match_patch.py:307-312 | a way out of the grid to a diagonal is two edits shorter, at least, than any that comes to that diagonal inside |
| `Distance.Through` | something_borrowed/diff_match_patch/python3/diff_match_patch.py:255-380 | the distance of the texts is at most that over any point, and Best means equality |
| `Distance.AtLeast` | something_borrowed/diff_match_patch/python3/diff_match_patch.py:79-137 | no list of edits that spells two texts changes fewer characters than their distance |
| `HalfMatch.FindHalf` | something_borrowed/diff_match_patch/python3/diff_match_patch.py:551-633 | a half-match is found if and only if there is a time limit, a text of four characters or more, and a common substring half as long as the longer text; it cuts both texts around a common substring of which no other is longer |
| `HalfMatch.ContainsQuarter` | something_borrowed/diff_match_patch/python3/diff_match_patch.py:611-614 | a common substring half as long as the longer text contains its second or its third quarter, so that the two seeds are enough |
| `HalfMatch.HalfMatchAt` | something_borrowed/diff_match_patch/python3/diff_match_patch.py:575-609 | all places of the seed in the shorter text are tried: nothing in common that contains the quarter is longer than the match, or half as long as the text without one |
| `Lines.LineTable.Munge` | something_borrowed/diff_match_patch/python3/diff_match_patch.py:402-432 | the line numbers of a text decode to it, each but the last stands for a line that ends with the newline, and entries of the table stay |
| `Lines.OneCut` | something_borrowed/diff_match_patch/python3/diff_match_patch.py:402-432 | there is one way to cut a text into such lines |
| `Lines.CharsToLines` | something_borrowed/diff_match_patch/python3/diff_match_patch.py:438-450 | every edit is replaced by its decoded text |
| `Lines.HydratedTexts` | something_borrowed/diff_match_patch/python3/diff_match_patch.py:438-450 | decoding a list of coded edits spells the decoded texts |
| `Diff.DiffMatchPatch.DiffBisect` | something_borrowed/diff_match_patch/python3/diff_match_patch.py:255-355 | spells both texts, whenever the deadline fires; if it never does, the list keeps something of texts that have anything in common, and is a shortest one unless a half-match was taken |
| `Diff.DiffMatchPatch.BisectSplit` | something_borrowed/diff_match_patch/python3/diff_match_patch.py:357-380 | spells both texts from any split point, clamped by the slices, and ends; without a deadline it changes just as many characters as the distance says, if the point lies on a shortest way |
| `Diff.DiffMatchPatch.Compute` | something_borrowed/diff_match_patch/python3/diff_match_patch.py:139-196 | the same whichever shortcut is taken, and with line mode on: then both texts are spelled if the lists that line mode returns have no empty equality |
| `Diff.DiffMatchPatch.LineMode` | something_borrowed/diff_match_patch/python3/diff_match_patch.py:198-253 | the list that line mode returns spells both texts; it comes from the diff of the line numbers, stage by stage: lines put back, outweighed equalities eliminated, edits aligned, overlaps extracted, and each block of deletions and insertions diffed again |
| `Diff.DiffMatchPatch.DiffMain` | something_borrowed/diff_match_patch/python3/diff_match_patch.py:79-137 | for every pair of texts, every time the deadline may fire, with line mode on or off: the list is in normal form, and it spells both texts and has no empty equality, always if one text has at most 100 characters or line mode is off, and else if the lists that line mode returned in this run have none. If the deadline never comes and line mode is not used, the list changes fewer characters than the texts have whenever a list can, and no list changes fewer if no half-match was taken, as without a time limit. The mutual recursion ends for every clock |
| `Diff.DiffMatchPatch.SidesOutcome` | something_borrowed/diff_match_patch/python3/diff_match_patch.py:172-186 | diffing the sides of a half-match on their own keeps all this but the minimum, and keeps the middle |
| `Patch.MergeEdits` | gosubl/gspatch.py:13-41 | the loop hits a mismatch if and only if the first text of the list is not a prefix of the buffer; else the buffer is the second text followed by the untouched tail |
| `Patch.Merge` | gosubl/gspatch.py:13-41 | merging a text into the first size characters of a buffer leaves exactly the text and the untouched tail, without a mismatch, for every buffer, text and deadline, if one of the two has at most 100 characters; else if the lists that line mode returned have no empty equality |
| `Delta.ToDelta` | something_borrowed/diff_match_patch/python3/diff_match_patch.py:1136-1158 | the tokens joined by tabs; fails exactly when an inserted text cannot be encoded |
| `Delta.FromDelta` | something_borrowed/diff_match_patch/python3/diff_match_patch.py:1160-1208 | the edits that the tokens stand for, or the first error; a list that is returned has the given text as its first |
| `Delta.ReadSpells` | something_borrowed/diff_match_patch/python3/diff_match_patch.py:1176-1207 | a list is read if and only if every token can be read and the lengths add up to that of the text; then the text is the first one of the list |
| `Delta.QuotedToItself` | something_borrowed/diff_match_patch/python3/diff_match_patch.py:1153-1154 | texts of safe characters, and only these, are written as they are |
| `Delta.UnquoteUndoes` | something_borrowed/diff_match_patch/python3/diff_match_patch.py:1153-1154 | unquoting and decoding undo UTF-8 encoding and percent-escaping |
| `Delta.SplitJoin` | something_borrowed/diff_match_patch/python3/diff_match_patch.py:1158-1176 | splitting at tabs undoes joining |
| `Delta.DeltaRoundTrip` | something_borrowed/diff_match_patch/python3/diff_match_patch.py:1136-1208 | reading the delta of an edit list with its first text gives the list back |
| `Returns.BreakFound` | src/code.google.com/p/go.tools/go/types/return.go:111-185 | if an execution, wherever it takes place, ends in a break to the label, or in an unlabeled one where that counts, `hasBreak` finds it |
| `Returns.NeverNormal` | src/code.google.com/p/go.tools/go/types/return.go:17-109 | no execution of a terminating statement, of any depth, completes normally, if every call that is taken for one of the predeclared `panic` is one |
| `Returns.TerminatingSound` | src/code.google.com/p/go.tools/go/types/return.go:17-109 | soundness of `isTerminating` for the body of every function whose scope hides the predeclared `panic`, or in which no nested block declares that name before a call of it |
| `Endings.BreakTaken` | src/code.google.com/p/go.tools/go/types/return.go:111-185 | conversely, in regular code a break that `hasBreak` finds is one that some execution ends in. Regular: every statement but the last of its list can complete, no label is that of a statement around its own, and the lookup of `panic` is right for every call |
| `Endings.EndReached` | src/code.google.com/p/go.tools/go/types/return.go:17-109 | in regular code a statement that is not found to be terminating has an execution that completes normally or ends in a break or continue |
| `Endings.TerminatingExact` | src/code.google.com/p/go.tools/go/types/return.go:17-109 | for regular code whose breaks and continues stay inside, a body is found to be terminating if and only if no execution of it completes normally |
| `Endings.LaterPanic` | src/code.google.com/p/go.tools/go/types/return.go:30-40 | a concrete function literal, `panic(1)` where the function around it declares `panic` afterwards: it never returns, yet is not found to be terminating |
| `Returns.PanicLookup` | src/code.google.com/p/go.tools/go/types/resolver.go:426-438 | looking `panic` up in the function's scope after its body has been checked gives what each call calls, if and only if that scope hides the predeclared one or no nested block around a call of `panic` declares the name before it |
| `Returns.ResolvedIffClear` | src/code.google.com/p/go.tools/go/types/return.go:30-40 | the same for any statement and the names in scope where it stands |
| `Returns.ShadowedPanic` | src/code.google.com/p/go.tools/go/types/return.go:30-40 | a concrete function, with the body `{ { panic := func(int) {}; panic(1) } }`: it returns, yet is found to be terminating |
| `Labels.Checker.Labels` | src/code.google.com/p/go.tools/go/types/labels.go:13-41 | panics if and only if a goto finds a blank label before it in scope. Else, in any body, the labels reported as declared again are those declared twice; with distinct labels the labels reported unused are those that no goto names, and the gotos reported are exactly those whose label is undeclared, is in a block that does not enclose them, or is reached forward over a variable declaration in the label's own block, if and only if no goto `_` has a blank label in its block or around it |
| `Labels.RightIffNoBlankMet` | src/code.google.com/p/go.tools/go/types/scope.go:91-105 | what such a goto does to the reports: the condition in both directions |
| `Labels.BlankLabelPanics` | src/code.google.com/p/go.tools/go/types/labels.go:208-223 | a concrete body, `_: goto _`, on which the checker panics |
| `Labels.BlankLabelAccepted` | src/code.google.com/p/go.tools/go/types/labels.go:143-165 | a concrete body, `goto _; _:`, that breaks the rule without an error |
| `Labels.Checker.StmtBranches` | src/code.google.com/p/go.tools/go/types/labels.go:124-260 | one statement, by its events: what the resolver knows stays right |
| `Labels.Checker.NestedBlock` | src/code.google.com/p/go.tools/go/types/labels.go:117-121 | the jumps that a nested block leaves open become forward jumps of the block around it |
| `Labels.Checker.ResolveJumps` | src/code.google.com/p/go.tools/go/types/labels.go:143-165 | a label removes exactly the forward jumps to it, and reports the bad ones |
| `Labels.Block.GotoTarget` | src/code.google.com/p/go.tools/go/types/labels.go:65-74 | finds exactly the labels of the block and of those around it |
| `Labels.LabelStep` | src/code.google.com/p/go.tools/go/types/labels.go:131-165 | a label reports exactly the jumps to it that cross a variable declaration of its block |
| `Labels.JumpStep` | src/code.google.com/p/go.tools/go/types/labels.go:208-223 | a goto with a label in scope is resolved; any other becomes a forward jump |
| `Labels.VarStep` | src/code.google.com/p/go.tools/go/types/labels.go:98-104 | a variable declaration makes all open forward jumps bad, and only these |
| `Labels.Leave` | src/code.google.com/p/go.tools/go/types/labels.go:117-121 | labels of a nested block are no targets outside it, and its declarations do not spoil outer jumps |
| `Loading.NextKeeps` | src/code.google.com/p/go.tools/importer/importer.go:201-350 | every step of every goroutine keeps the invariant |
| `Loading.RunKeeps` | src/code.google.com/p/go.tools/importer/importer.go:201-350 | the invariant holds in every state of every run |
| `Loading.LoadedOnce` | src/code.google.com/p/go.tools/importer/importer.go:234-262 | in every interleaving each path is loaded at most once, and every call that returned got the one result after the package was ready |
| `Loading.ReadyForGood` | src/code.google.com/p/go.tools/importer/importer.go:254-261 | a ready package stays ready with its result |
| `Loading.NoDeadlock` | src/code.google.com/p/go.tools/importer/importer.go:234-304 | if the import graph is acyclic, no reachable state is deadlocked |
| `Loading.MoveWorks` | src/code.google.com/p/go.tools/importer/importer.go:234-304 | if imports are acyclic, every step of a goroutine makes the work that is left less |
| `Loading.RunsEnd` | src/code.google.com/p/go.tools/importer/importer.go:234-304 | so from any reachable state, and however they are scheduled, the goroutines make at most that many steps until they stop, unless another call is started |
| `Loading.StopsFinished` | src/code.google.com/p/go.tools/importer/importer.go:234-304 | they can make no step if and only if all have finished; then every path that a goroutine was started for is ready and has been returned |
| `Loading.Completes` | src/code.google.com/p/go.tools/importer/importer.go:234-304 | every reachable state has a run to such an end |
| `Loading.CycleNeverReady` | src/code.google.com/p/go.tools/importer/importer.go:234-350 | a package on an import cycle, or one that leads to a cycle, never becomes ready, so no call for it returns |
| `Blake2b.Digest.Write` | src/gosubli.me/something-borrowed/blake2b/blake2b.go:209-231 | any write keeps the state that of the input so far: the last block is never compressed early and the 128-bit counter is the bytes compressed |
| `Blake2b.Digest.Blocks` | src/gosubli.me/something-borrowed/blake2b/block.go:12-20 | the chain value and counter after all full blocks |
| `Blake2b.Digest.constructor` | src/gosubli.me/something-borrowed/blake2b/blake2b.go:124-162 | a new digest has seen the padded key, which is still in the buffer, so that the saved chain value is the initial one |
| `Blake2b.Digest.Reset` | src/gosubli.me/something-borrowed/blake2b/blake2b.go:191-201 | a reset digest is as a new one |
| `Blake2b.Digest.CheckSum` | src/gosubli.me/something-borrowed/blake2b/blake2b.go:241-281 | the digest of section 3.3 of RFC 7693 of all input: the counter does not count the padding |
| `Blake2b.Digest.Sum` | src/gosubli.me/something-borrowed/blake2b/blake2b.go:234-239 | the digest appended to the argument, with the state unchanged |
| `Blake2b.Carry` | src/gosubli.me/something-borrowed/blake2b/block.go:17-20 | the carry between the words counts modulo 2^128 |
| `Blake2b.Borrow` | src/gosubli.me/something-borrowed/blake2b/blake2b.go:249-253 | so does the borrow, below zero too |
| `Blake2b.LastBlock` | src/gosubli.me/something-borrowed/blake2b/blake2b.go:249-265 | compressing the padded buffer with the reduced counter is the last step of RFC 7693, section 3.3 |
| `Blake2b.InitialIsRfc` | src/gosubli.me/something-borrowed/blake2b/blake2b.go:124-150 | without salt and personalization the initial chain value is that of RFC 7693 |
| `Blake2b.RootsOfPrimes` | src/gosubli.me/something-borrowed/blake2b/blake2b.go:40-46 | each initial value is the first 64 bits of the fractional part of the square root of one of the first eight primes |
| `Blake2b.KeyPrefixIsRfc` | src/gosubli.me/something-borrowed/blake2b/blake2b.go:154-159 | the key block is that of RFC 7693 if and only if the key is not an empty one that is given |
| `Blake2b.HashOf` | src/gosubli.me/something-borrowed/blake2b/blake2b.go:105-239 | any way of splitting a message into writes yields the hash of the concatenation, that of RFC 7693 unless an empty key is given |
| `Blake2b.Sum512` | src/gosubli.me/something-borrowed/blake2b/blake2b.go:284-289 | the 64-byte hash of RFC 7693 |
| `Blake2b.Sum256` | src/gosubli.me/something-borrowed/blake2b/blake2b.go:292-299 | the 32-byte hash of RFC 7693 |
| `Blake2b.New` | src/gosubli.me/something-borrowed/blake2b/blake2b.go:105-120 | a configuration is refused exactly when a length is too large; size 0 means 64 |
| `Blake2b.LittleEndian` | src/gosubli.me/something-borrowed/blake2b/blake2b.go:269-279 | words are written in the byte order in which they are read |
| `Ripper.TokCollection.FindDeclBeg` | src/gosubli.me/something-borrowed/gocode/ripper.go:33-70 | the scan back finds the outermost unclosed brace and the last semicolon of its depth before it, if any |
| `Ripper.TokCollection.FindDeclEnd` | src/gosubli.me/something-borrowed/gocode/ripper.go:72-97 | the scan forward finds the first of the shallowest places |
| `Ripper.TokCollection.RipOffDecl` | src/gosubli.me/something-borrowed/gocode/ripper.go:116-136 | panics if and only if the file has no tokens; else, for every token list and cursor, inserting the ripped part back at its start restores the file; the cursor moves by that start; without a part nothing changes |
| `Ripper.BalancedCut` | src/gosubli.me/something-borrowed/gocode/ripper.go:33-110 | with balanced braces something is ripped out exactly when the cursor is in a block, behind its opening brace and not behind the closing one (the first token counts as before the cursor); it ends with the outermost such block and starts with its declaration |
| `Ripper.CutKeepsBalance` | src/gosubli.me/something-borrowed/gocode/ripper.go:99-136 | what is ripped out and what is left have balanced braces again |

## Left out

- CleanupSemantic: says nothing of the texts of a list with empty equalities, because its second step runs CleanupMerge, which may lose text of such lists (EmptyEqualityLoses).
- CleanupMerge: the same; the exact condition is stated for one shift (ShiftLeftTexts, EmptyEqualityLoses), not for the whole clean-up.
- DiffMatchPatch.DiffMain: with line mode on, long texts, and a list of line mode with an empty equality, it says nothing of the texts; whether line mode can return one is not decided. Line mode says nothing of how many characters change.
- MiddleSnake: requires three characters in all, which its callers ensure.
- Munge: the limit of `chr` for tables of more than 1114111 lines, and the rendering of line numbers as characters.
- ParseInt: white space, underscores and digits outside ASCII that Python's `int` accepts.
- RipOffDecl: scanning; tokens are a parameter, in the order of the text.
- RoundTrip: the magic string, varints, markers and tracing; the stream consists of integers and byte strings. Objects come in the order given, without the sorting of names, and so do methods.
- NewInterface: `allMethods` is not a field of the rebuilt objects; what it becomes is replayed along the stream (`Collected`), without the receivers of the copied methods.
- FoundInEveryOrder: requires that named interfaces declare no methods, which the type checker demands of receivers (typexpr.go:165-190).
- ImportData: constants, variables and functions are returned as a list, not entered in the scope of their package; malformed data, and the panics of NewStruct, NewInterface and scopes on duplicate names. What is in scope under the name of a type must be that type, complete; a package scope holds one type of a name, so local types, which no exported object leads to, are not in the graph.
- IsIdentical: `allMethods` is given in one order for both interfaces, as the checker sorts it.
- LookupFieldOrMethodFrom: name and package of the fields of the universe scope, and the caches of method sets.
- NewMethodSet: the sorted list, which is a map by identifier here; the search of `MethodSet.Lookup` in it.
- Labels: labelled break and continue statements, which also mark labels as used; the statement a label belongs to stays set for later statements, so their rule is not that of enclosing labels.
- LoadedOnce: parsing and type checking; a package's imports are a function of its path, and results are opaque. A path that cannot be parsed counts as loaded without imports. `importBinary` is not modelled.
- Digest.Blocks: the rounds of F, which is a parameter; parameters for trees.
- HashOf: the configuration that New completes with a size is a value here, not the caller's record.
- ArithmeticExact: literals; Float64Val; parsing and printing of constants.
- Python 2 copies, fuzzy matching and patches of diff_match_patch, and the rollback in `gspatch.merge`.
- Plugin code, processes, HTTP, files, the rest of the type checker, and gocode's inference and caches: user interface, libraries and input or output.
