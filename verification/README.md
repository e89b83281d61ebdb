# PolyGlot: a verified model of its IR, mutator, type reachability and validator

PolyGlot fuzzes language processors. It parses a program into a binary IR tree, mutates the tree with
parts taken from a bounded library of earlier trees, and repairs the result: marked places ("FIXME")
are filled with expressions generated from the definitions in scope. This project models that core in
Dafny and proves, for all inputs and all random choices, what each stage keeps and produces.

| files | what they model |
|---|---|
| `Common` | options, an arbitrary element of a set, the elements of a sequence |
| `Trimming` | the in-place text normaliser |
| `IrTree`, `IrHeap`, `IrSplice` | IR trees as values; IR nodes on the heap with their footprints; replacement in place |
| `Translation`, `Translator` | from a parse tree to IR: the specification, and the stack fold with the id counter |
| `Mutation`, `IRLibraries`, `Mutators`, `MutatorRuns` | mutation on values; the library class; the strategies and the mutation loop on the heap |
| `TypeGraph`, `Visibility`, `Satisfiable`, `Expressions`, `Generator`, `Inhabitation` | obtainable types, visible definitions, the table of satisfiable types, and the expression generator |
| `Pointers` | the memoised table of pointer types and its two entry routes |
| `Scoping` | the scope tree: an enter/exit walk that tags every node |
| `Symbols`, `Declarations`, `CollectionOrder`, `Outline`, `Registry`, `Collector` | the searches over a tree; what a tree declares and when the collection fails, as a recursion; the definitions it reaches, in the order of the text; the same by places alone, as a run over them; symbol tables and types against the declarations; the collector itself |
| `Fixing`, `TextOrder`, `Validator`, `Leak` | the fix pipeline; ids against the order of the text; the validator that joins all of this; a concrete program with a leaking argument, and one that cannot be collected |

Code that updates state in the source is a method here: the IR node, the library, the mutator, the
generator, the scope tree, the collector of definitions and the type system are classes, and the text
normaliser works on an array. Each such method is proved against a specification on values (`Value`,
`Trim`, `Splice`, `Extract`, `Mark`, `Fill`, `Generate`, `Refer`, ...), and the lemmas state what the
specification means. A heap tree is described by a ghost `Shape`, the nodes arranged as they are linked, so
that sharing and aliasing are explicit: library nodes may be shared with the input and with each other,
results may not. Random picks, and the iteration order of hash maps, are arbitrary choices.

The longest chain of results ends in `Validator`: a program is translated, marked and scoped, its definitions
are collected, and every FIXME gets an expression over names that the program itself declares in an enclosing
scope, under a smaller statement id, with the types they are declared with.  It gets a mere number only if there is
nothing to use: no visible variable and no callable function, or a function as key whose result type is not a key
(`Validator.FixUsesEnclosingScopes`, `Generator.EmptyTableIff`).  After a successful collection the only ways to crash
are a draw of the disabled bucket and a declaration with an empty name (`Validator.Validate`,
`Validator.FailureMeans`).

What a program declares is a function of the program (`Declarations.CollectProgram`), and so is whether the collection
fails.  `Outline` describes both by the places of the definitions: the recursive collection is a run over the reached
definitions in text order (`Outline.CollectIsRun`, `CollectionOrder.EventsInOrder`), each of them declares its own names
under the types that are known at its place (`Outline.ProgramIsOutlined`, `Outline.KnownIff`), and the collection fails
exactly at a malformed definition or an unknown type (`Outline.CollectionFailsIff`).  In the other direction, every
variable declared earlier in the text in an enclosing scope is visible at a FIXME of a program of at most 250 nodes,
under the type of its definition (`Validator.EarlierVariableIsVisible`).

## What turned out not to hold

The code is modelled as it is. Where a property one would expect fails, the project states exactly when
it holds:

- The branch for the "expression" bucket is an unconditional assertion failure, and it can be drawn
  (`Generator.DisabledBucketIff`), for instance where one variable of a basic type is all there is
  (`Generator.OneVariableCanAbort`). The first call of a generation cannot run into it exactly if every type that can be
  asked for is a function or a compound (`Generator.NoAbortIff`); under this condition no later call can either. Apart
  from this draw, a generation without pointers and empty names always gives a text
  (`Generator.ExpressionGenerator.GenerateExpression`).
- The range of a draw leaves out the weight of the disabled bucket, at the expense of what comes last: simple variables
  can be drawn only if they outweigh it. Beside 64 functions of its type one simple variable is never drawn in the first
  three calls (`Generator.BucketIff`, `Generator.VariableOutOfReach`).
- A function whose arguments could all be supplied may be missing from the table of satisfiable types:
  the type of a compound variable is a key of the table but does not count as available. The recorded functions are
  all that could be called exactly if no function with keys as arguments takes such a type
  (`Satisfiable.RecordedIsIdealIff`, `Satisfiable.CompoundArgumentIsMissed`).
- Both routes to a pointer type agree on types that are not pointers, and only on those
  (`Pointers.AgreesIffNotPointer`). The ids agree exactly if at most one level is missing, and of several missing
  levels exactly the middle one has the same id (`Pointers.NumberingIff`, `Pointers.NumberingAtLevel`,
  `Pointers.NumberingDependsOnRoute`); the registry always differs (`Pointers.RegistryDependsOnRoute`).
- Function arguments get the statement id of the whole function definition, the largest id in it. So in a
  freshly translated tree they are never visible inside their function (`Validator.NotInsideOwnDefinition`), and
  nowhere at all if the body opens a scope of its own (`Validator.ArgumentsAreInvisible`). If it does not, they are
  visible behind the function, as far as the enclosing scope reaches (`Validator.DeclReachesIff`,
  `Leak.ArgumentLeaks`).
- The collection of definitions runs into assertions and null pointers. It fails exactly if a definition that it
  reaches is malformed (a function without a name node, an argument without a name or a type, a class without its kind,
  a body, a name or a string in the name), or needs a type name that is neither that of a basic type nor of a class
  that ends, or a function that begins, before it in the text: the types of arguments always, those of variables in
  strong mode (`Outline.CollectionFailsIff`, `Outline.KnownIff`, `Leak.UnknownArgumentFails`).
- Saving a tree in the library may evict the entries that were just saved for it. But no bucket ever shrinks, and only
  a bucket that is full in the end may have lost an entry (`IRLibraries.SavesKeeps`).
- A program of more than 250 nodes has no visible definitions at all: it always validates, and every fix point
  becomes a number (`Validator.LargeProgramsAreSafe`, `Validator.LargeProgramsGetNumbers`).
- Extracting the structure of a tree twice differs from extracting it once as soon as there is a fix unit
  below the root (`Mutation.ExtractTwice`).
- Mutation stays within the productions of the input and the library exactly if the library has entries for the
  types of the children of all nodes that may be mutated; otherwise a node of the empty type gets in
  (`Mutation.MutantsWithinIff`, `Mutation.EmptyBucketLeavesGrammar`).
- The input itself is filtered from the results of a mutation exactly if its hash fits 32 bits: the hash has 64
  bits, the ones it is compared with are cut to 32 (`MutatorRuns.CutIff`, `MutatorRuns.InputRejectedIff`).
- Building the scope tree follows a null pointer exactly if there are two scopes outside all others
  (`Scoping.ScopeTree.BuildTree`); a root that opens a scope rules this out.
- Translating a parse tree runs into an assertion exactly if it has, outside literals, a node with nothing but end
  of file below it, and that twice (`Translation.StatusIff`, `Translation.TwoEndsFail`).

## Model

| member | source | states |
|---|---|---|
| Trimming.TrimString | srcs/internal/srcs/utils.cpp:51-76 | the in-place loop computes the normal form: it keeps exactly the characters other than spaces that come first or after a space, where a space right after `;`, `{` or `}` is a line end, and the runs between spaces and line ends are those of the input |
| Trimming.LookAhead | srcs/internal/srcs/utils.cpp:56-59 | writing a line end one cell ahead is what the specification does one character later |
| Trimming.TrimKeepsMarks | srcs/internal/srcs/utils.cpp:51-76 | every character other than space and line end is kept, in order |
| Trimming.TrimIsStaying | srcs/internal/srcs/utils.cpp:51-76 | position by position: a space stays unless it comes first or after another space, and is a line end right after `;`, `{` or `}`; everything else stays as it is |
| Trimming.TrimKeepsRuns | srcs/internal/srcs/utils.cpp:51-76 | the maximal runs without spaces and line ends are those of the input: no two words are joined and none is split |
| Trimming.TrimExact | srcs/internal/srcs/utils.cpp:51-76 | the result has no leading space, no double space and no space after `;`, `{` or `}`; exactly the texts of this form are left alone; normalising is idempotent |
| Trimming.StripString | srcs/internal/srcs/utils.cpp:41-49 | the longest prefix that does not end in a space, a line end or a tab |
| IrTree.PrintingKeepsWords | srcs/internal/srcs/ir.cpp:119-154 | apart from spaces and line ends the printed text is the concatenation of the words prefix, left, middle, right, suffix |
| IrTree.PrintingKeepsRuns | srcs/internal/srcs/ir.cpp:119-154 | the runs of the printed text are those of the words in order, so tokens stay apart |
| IrTree.NormKeepsFields | srcs/internal/srcs/ir.cpp:88-102 | trees that are equal up to ids and null operators have nodes at the same places with equal type, data, data type, scope type and operator |
| IrHeap.IR.Copy | srcs/internal/srcs/ir.cpp:88-102 | a copied node has the type, the data, the data type and the scope type of the original and its operator, an empty one for none; ids are not copied |
| IrHeap.DeepCopy | srcs/internal/srcs/ir.cpp:104-117 | a deep copy consists of new nodes at the same places, with equal type, data, data type and scope type, and with equal operators where none counts as an empty one |
| IrHeap.AppendText | srcs/internal/srcs/ir.cpp:126-154 | what is appended to the buffer depends on the value of the tree only |
| IrHeap.ToString | srcs/internal/srcs/ir.cpp:119-124 | the text of a heap tree is the normalised text of its value, and its runs are those of the words of the tree in order |
| IrHeap.GetAllChildren | srcs/internal/srcs/ir.cpp:156-169 | all proper descendants in post-order |
| IrHeap.CollectAllIRs | srcs/internal/srcs/ir.cpp:208-212 | all nodes in post-order, the root last |
| IrHeap.LocateParent | srcs/internal/srcs/ir.cpp:216-227 | a parent is found exactly for the proper descendants of the root, and it is a node of the tree with that child |
| IrHeap.NeedFixing | srcs/internal/srcs/ir.cpp:237-254 | true exactly if some leaf is a FIXME |
| IrHeap.NeedsFixingIff | srcs/internal/srcs/ir.cpp:237-254 | what needs fixing is exactly what has a leaf with the text FIXME |
| IrSplice.ParentIsUnique | srcs/internal/srcs/ir.cpp:216-227 | in a tree only one node points at a given descendant, on one side only |
| IrSplice.SplicedLinks | srcs/internal/srcs/mutate.cpp:235-251 | relinking one child field of one node makes the heap hold exactly the spliced tree |
| IrSplice.Replace | srcs/internal/srcs/mutate.cpp:235-251 | exactly the subtree at the replaced node is exchanged, in place; the assertions of the source hold for every proper descendant |
| Translator.Place | srcs/antlr/ir_translater.cpp:57-83 | an item goes to the first slot that keeps the reading order, and is refused only if no slot is left |
| Translator.ExtractOneIR | srcs/antlr/ir_translater.cpp:54-86 | the slots read as the consumed prefix of the stack; of two or more items at least two are consumed |
| Translator.Pass | srcs/antlr/ir_translater.cpp:162-205 | one pass folds a longer prefix of the items, labels only the last node with the rule, and takes the next id |
| Translator.Fold | srcs/antlr/ir_translater.cpp:162-205 | the loop terminates with one node of the rule's type that folds all items through intermediates of unknown type |
| Translator.TranslateNode | srcs/antlr/ir_translater.cpp:119-240 | a rule node vanishes, runs into an assertion, or builds exactly as its parse tree says; a built tree translates the node, is well numbered, keeps data at leaves, and its intermediates hold nothing but an operator |
| Translation.StatusIff | srcs/antlr/ir_translater.cpp:119-240 | a rule node vanishes exactly if it has only plain nodes and at most one end of file below it; it fails exactly if some plain node outside literals has only ends of file below it, two or more |
| Translation.TwoEndsFail | srcs/antlr/ir_translater.cpp:119-240 | a rule over two ends of file fails |
| Translation.TextOfAllAdd | srcs/antlr/ir_translater.cpp:126-130 | the text of a literal is that of its terminals from left to right |
| Translation.FoldKeepsWords | srcs/antlr/ir_translater.cpp:162-205 | a fold with all its intermediates reads as its items in order |
| Translation.TranslationKeepsWords | srcs/antlr/ir_translater.cpp:119-240 | the tree reads as the terminals of the parse tree in order, less end of file and empty tokens |
| Translation.PrintAfterTranslate | srcs/internal/srcs/ir.cpp:119-154 | printing a translated tree gives back the source text up to spaces, line ends and the form of integers; the runs of the printed text are those of the tokens in order, so it reads as the tokens themselves if these have no spaces |
| Translator.FoldKeepsIds | srcs/antlr/ir_translater.cpp:162-205 | folding keeps the ids of the rule-typed nodes in post-order |
| Translator.DescendantsAreOlder | srcs/internal/srcs/ir.cpp:34-71 | in a fresh tree every id exceeds the ids of all descendants, intermediates included |
| Translator.TextOrderIsIdOrder | srcs/antlr/ir_translater.cpp:135-206 | of two rule-typed nodes the left one has the smaller id |
| Translator.IdOrderIff | srcs/antlr/ir_translater.cpp:135-206 | of two rule-typed nodes of a translated tree, wherever they are, one has the smaller id exactly if it is below the other or to the left of it |
| Mutation.SpliceKeeps | srcs/internal/srcs/mutate.cpp:235-251 | a splice keeps the place and the fields of every node that is not below it |
| Mutation.DefinitionsSurvive | srcs/internal/srcs/mutate.cpp:431-445 | every definition node of the input is at the same place in every mutant, with the same type, data, data type and scope type, and the same operator where none counts as an empty one |
| Mutation.ShouldMutateIff | srcs/internal/srcs/mutate.cpp:108-115 | the nodes that should be mutated are those of a known type that is not frozen, with a child, and without a variable definition, a variable type or a class definition at or below them |
| Mutation.MutantReplacesOnly | srcs/internal/srcs/mutate.cpp:117-164 | in every mutant the replaced node is one of these, and at every place of the input that is not at or below it all fields but ids are the same |
| Mutation.VariantWithin | srcs/internal/srcs/mutate.cpp:265-369 | a variant keeps the type of the node it replaces and uses only productions of the node or the library |
| Mutation.MutantWithin | srcs/internal/srcs/mutate.cpp:117-164 | mutation is closed over local productions, given library entries for the types of the children of nodes that may be mutated |
| Mutation.EmptyBucketLeavesGrammar | srcs/internal/srcs/mutate.cpp:381-387 | if the library has no entry for such a child, some mutant leaves every grammar without productions for the empty type |
| Mutation.MutantsWithinIff | srcs/internal/srcs/mutate.cpp:265-387 | all mutants stay within the productions exactly if the library has entries for these children |
| Mutation.ExtractTwice | srcs/internal/srcs/mutate.cpp:389-429 | extraction leaves no fix unit below the root, and is idempotent on a tree exactly if it had none there |
| Mutation.ExtractPlaces | srcs/internal/srcs/mutate.cpp:389-429 | place by place: exactly the places inside a fix unit below the root are gone; such a unit is a FIXME leaf, a default string at a leaf is a placeholder, a number at a leaf is 1 or 1.1, and all other fields are kept |
| IRLibraries.IRLibrary.constructor | srcs/internal/srcs/mutate.cpp:381-387 | an empty library is valid |
| IRLibraries.IRLibrary.GetRandomIR | srcs/internal/srcs/mutate.cpp:381-387 | an entry of the bucket, or the shared empty IR exactly if the bucket is empty |
| IRLibraries.IRLibrary.Push | srcs/internal/srcs/mutate.cpp:191-194 | one more entry and its hash; the index stays exact although the tree may share nodes with other entries |
| IRLibraries.IRLibrary.Evict | srcs/internal/srcs/mutate.cpp:181-189 | a random entry and its hash leave the bucket, nothing else changes |
| IRLibraries.IRLibrary.Enter | srcs/internal/srcs/mutate.cpp:180-194 | exactly one entry more, the node, with its hash, at the end of its bucket; a full bucket, and no other, loses one entry with its hash first |
| IRLibraries.IRLibrary.SaveIRRecursive | srcs/internal/srcs/mutate.cpp:173-203 | the exact effect, evictions included: nothing if the hash of the tree is in the index, otherwise its root is entered and then its children are saved, left before right; the index stays exact: every bucket keeps at most 0x200 entries of its own type with distinct hashes and exactly their hashes in its set; without eviction the tree and the children of all new entries are indexed and no hash is lost |
| IRLibraries.EntersKeeps | srcs/internal/srcs/mutate.cpp:180-194 | after its own insertion a node is in its bucket with its hash, evicted or not; no bucket has shrunk, and one that is not full has lost nothing |
| IRLibraries.SavesKeeps | srcs/internal/srcs/mutate.cpp:173-203 | saving a tree, with any number of evictions on the way, shrinks no bucket, and a bucket that is not full in the end still begins with all its former entries in order |
| IRLibraries.SwapPopIndexed | srcs/internal/srcs/mutate.cpp:181-189 | swapping an entry to the end, popping it and erasing its hash keeps a bucket exact |
| IRLibraries.PushIndexed | srcs/internal/srcs/mutate.cpp:191-194 | pushing an entry with a new hash keeps a bucket exact |
| IRLibraries.SavedStaysComplete | srcs/internal/srcs/mutate.cpp:173-203 | without eviction, the hash of every child of every entry stays in the set of its type |
| Mutators.ExtractStructure | srcs/internal/srcs/mutate.cpp:389-429 | extraction in place: fix units below the root become FIXME leaves, data at leaves becomes a placeholder |
| Mutators.CanMutate | srcs/internal/srcs/mutate.cpp:431-445 | true exactly if no node of the tree is part of a definition |
| Mutators.ShouldMutateNode | srcs/internal/srcs/mutate.cpp:108-115 | true exactly for inner nodes of a known type that is not frozen, without a variable definition, a variable type or a class definition at or below them |
| Mutators.CopyDetached | srcs/internal/srcs/mutate.cpp:309-318 | detaching the children of a library node, copying it and restoring them leaves every library node as it was |
| Mutators.StrategyReplaceWithConstraint | srcs/internal/srcs/mutate.cpp:265-330 | the result is a tree of new nodes: the words of a fitting library entry over copies of the children; null only if prefix, middle and suffix are empty or when the entry does not fit; the library is unchanged |
| Mutators.StrategyReplace | srcs/internal/srcs/mutate.cpp:332-369 | the result is a tree of new nodes with the left, the right or both children drawn from the library; with two known children there is always a result |
| MutatorRuns.MutateIR | srcs/internal/srcs/mutate.cpp:214-233 | up to seven variants, disjoint from each other and from everything else; with two known children at least one |
| MutatorRuns.Mutator.DeepCopyWithRecord | srcs/internal/srcs/mutate.cpp:86-106 | an exact copy of new nodes; the record is the copy of the recorded node |
| MutatorRuns.Mutator.CopyAndReplace | srcs/internal/srcs/mutate.cpp:132-135 | a copy of the input with exactly the chosen subtree replaced |
| MutatorRuns.Mutator.TakeVariant | srcs/internal/srcs/mutate.cpp:131-145 | the kept copy is the spliced tree, and the text it is compared by is that of its extraction |
| MutatorRuns.Mutator.TakeNext | srcs/internal/srcs/mutate.cpp:131-161 | a variant becomes a result unless its cut hash was seen; either way it is recorded, and its cut hash has been seen from then on |
| MutatorRuns.Mutator.MutateIRs | srcs/internal/srcs/mutate.cpp:117-164 | every result is a mutant of the input made of new nodes, disjoint from the other results: it replaces one node that is not frozen, known, no leaf and without a definition, and at all other places outside it the fields but ids are those of the input; input and library are unchanged in the end; results differ in the cut hash of their extracted text, and none has the hash of the input as its cut hash; every node that may be mutated and has two known children gets a variant, and the mutant of every variant made is a result or has the cut hash of a result or the hash of the input; so if there is such a node there is a result, unless the hash of the input fits 32 bits |
| MutatorRuns.CutIff | srcs/internal/srcs/mutate.cpp:120-145 | the cut hash is the hash modulo 2 to the 32, so the test recognises a text by its own hash exactly if the hash fits 32 bits |
| MutatorRuns.InputRejectedIff | srcs/internal/srcs/mutate.cpp:120-145 | a variant that reads like the input is rejected exactly if the hash of the input fits 32 bits or an earlier result has its cut hash |
| MutatorRuns.Mutator.AddIRToLibrary | srcs/internal/srcs/mutate.cpp:166-171 | the extracted tree is saved, with exactly the effect of saving it; no bucket shrinks, and only one that is full in the end has lost entries; the library stays valid, and complete if nothing is evicted |
| TypeGraph.CollectTypes | srcs/internal/srcs/var_definition.cpp:417-448 | for any visited set, the direct contributions of exactly the compounds visited for the first time |
| TypeGraph.GetAllTypesFromCompoundType | srcs/internal/srcs/var_definition.cpp:417-448 | terminates on every finite, possibly cyclic graph, in both typing modes, with exactly the types that a member of a reachable compound gives: compounds and basic types always, other types and the return types of methods in weak mode |
| TypeGraph.ObtainableIff | srcs/internal/srcs/var_definition.cpp:417-448 | member by member: a type is obtainable exactly if a reachable compound has a member that gives it |
| TypeGraph.ExploredFromNothing | srcs/internal/srcs/var_definition.cpp:417-448 | a search started with nothing visited visits exactly the reachable compounds |
| Visibility.CollectScope | srcs/internal/srcs/typesystem.cpp:1702-1743 | one scope's definitions land in the map of their kind, pointers also among the simple ones |
| Visibility.CollectAllVarDefinitionByType | srcs/internal/srcs/typesystem.cpp:1691-1800 | the walk up the scope chain terminates and collects exactly what the chain makes visible |
| Visibility.CollectedExact | srcs/internal/srcs/typesystem.cpp:1702-1743 | name by name: a map lists a name under a type exactly if the type has the map's kind, pointers before basic types, compounds and functions, and an enclosing scope defines the name with that type under a smaller statement id |
| Satisfiable.Sweep | srcs/internal/srcs/typesystem.cpp:1879-1893 | one pass extends a derivation by what it takes out, and reports a change unless nothing more is callable |
| Satisfiable.CalcSatisfiableFunctions | srcs/internal/srcs/typesystem.cpp:1862-1902 | terminates with the least set of functions whose arguments are available or returned by the set, that is exactly the functions that can be called one after the other, each argument position being available or returned by an earlier call |
| Satisfiable.LeastIsLeast | srcs/internal/srcs/typesystem.cpp:1862-1902 | the least set is below every closed set, hence unique and independent of the iteration order |
| Satisfiable.LeastIff | srcs/internal/srcs/typesystem.cpp:1862-1902 | a function is in the least set exactly if some order of calls contains it in which every argument, by position, is available or returned earlier |
| Satisfiable.RecordedAtOnce | srcs/internal/srcs/typesystem.cpp:1862-1902 | a visible function with all arguments available, in particular one without arguments, is recorded under its return type |
| Satisfiable.KeyIff | srcs/internal/srcs/typesystem.cpp:1803-1860 | the keys of the table are exactly the types of variables, what members of reachable compounds give, and what functions return that can be called one after the other |
| Satisfiable.CollectSatisfiableTypes | srcs/internal/srcs/typesystem.cpp:1803-1860 | the table records exactly the simple variables, the compounds with all that can be obtained from them, and the least set of callable functions |
| Satisfiable.FilterElement | srcs/internal/srcs/typesystem.cpp:47-56 | exactly the variables of the allowed types are kept, unchanged |
| Satisfiable.TableKeys | srcs/internal/srcs/typesystem.cpp:1803-1860 | the keys are the available types, the compound variables' types and the return types of callable functions |
| Satisfiable.TableIsClosed | srcs/internal/srcs/typesystem.cpp:1848-1857 | every argument type of a recorded function is itself a key |
| Satisfiable.EntryIsVisible | srcs/internal/srcs/typesystem.cpp:1803-1860 | an entry lists visible variables and functions only, each of which gives the type |
| Satisfiable.TableIsGrounded | srcs/internal/srcs/typesystem.cpp:1447-1475 | after filtering, every key has a candidate left, so the "no candidates" fallback is dead for keys |
| Satisfiable.RecordedIff | srcs/internal/srcs/typesystem.cpp:1823-1849 | of the functions whose arguments are all keys, exactly those are recorded that take no type which is a key only as the type of a compound variable |
| Satisfiable.RecordedIsIdealIff | srcs/internal/srcs/typesystem.cpp:1803-1860 | the recorded functions are among those callable if compound variables counted as available, and are all of them exactly if no function with keys as arguments takes a type that is a key only as the type of a compound variable |
| Satisfiable.CompoundArgumentIsMissed | srcs/internal/srcs/typesystem.cpp:1823-1849 | a concrete program in which a callable function is not recorded |
| Inhabitation.WalkHasPath | srcs/internal/srcs/typesystem.cpp:1626-1689 | along every walk of compound members to one that offers a type there is a member path that type-checks |
| Inhabitation.GivesHasPath | srcs/internal/srcs/typesystem.cpp:1823-1841 | a compound has a member path to everything it is recorded to give |
| Inhabitation.DerivedIsInhabited | srcs/internal/srcs/typesystem.cpp:1862-1902 | every function of a derivation can be called with arguments that have an expression |
| Inhabitation.KeyIsInhabited | srcs/internal/srcs/typesystem.cpp:1803-1860 | every key of the table has a well-typed expression over the visible variables that is not a mere number |
| Inhabitation.FieldsReachKey | srcs/internal/srcs/typesystem.cpp:1803-1860 | every compound or basic type that a path of fields of a visible compound variable leads to is a key |
| Generator.ObtainableHasMember | srcs/internal/srcs/typesystem.cpp:1626-1689 | the two graph searches agree: what the first reports for a compound, a reachable compound offers as a member or as the result of a method |
| Generator.DispatchFindsCandidates | srcs/internal/srcs/typesystem.cpp:1464-1532 | outside the disabled bucket a draw never selects an empty function, compound or simple map |
| Generator.BucketIff | srcs/internal/srcs/typesystem.cpp:1500-1532 | because the range of the draw leaves out the weight of the disabled bucket, a bucket can be drawn exactly if something of it is left: simple variables only if they outweigh the disabled bucket |
| Generator.VariableOutOfReach | srcs/internal/srcs/typesystem.cpp:1477-1532 | beside 64 functions of its type one simple variable is never drawn in the first three calls |
| Generator.DisabledBucketIff | srcs/internal/srcs/typesystem.cpp:1477-1513 | the exact condition under which the failing branch can be drawn |
| Generator.NoAbortIff | srcs/internal/srcs/typesystem.cpp:1477-1513 | no first draw for a key can fail exactly if every key of the table is a function or a compound |
| Generator.EmptyTableIff | srcs/internal/srcs/typesystem.cpp:1803-1860 | the table is empty exactly if no variable is visible and no function is callable |
| Generator.SingleVariableCanAbort | srcs/internal/srcs/typesystem.cpp:1477-1513 | at the weights of one simple variable 2 of 64 first draws fail |
| Generator.OneVariableCanAbort | srcs/internal/srcs/typesystem.cpp:1477-1513 | where one visible variable of type int is all there is, the table has this one key, and 2 of the 64 first draws for it fail |
| Generator.ExpressionGenerator.GenerateExpression | srcs/internal/srcs/typesystem.cpp:1316-1324 | the text is non-empty and spells an expression that fits the type over the variables collected for the place; for any type it is a number only if the table is empty or lists a function whose result type is not a key; it fails exactly for a draw of the disabled bucket, which is recorded and impossible if every key is a function or a compound, or for a pointer variable in strong mode, apart from visible empty names; unless the limit of 50 calls was passed, arguments inside are numbers only for types without variables to use |
| Expressions.RenderSpells | srcs/internal/srcs/typesystem.cpp:1542-1600 | the text of an expression spells it: numbers in digits, a call as the name of the function and the argument texts in parentheses separated by commas, a path as a variable and a dot before each member |
| Expressions.DecimalIs | srcs/internal/srcs/utils.cpp:35 | a number is written in digits, without a leading zero unless it is zero, that denote it |
| Generator.ExpressionGenerator.GenerateCore | srcs/internal/srcs/typesystem.cpp:1362-1540 | the mutual recursion terminates with at most 51 calls that do more than write a number; for a key with variables the result is not a number, and a first call for any type writes one only if there is nothing to use; without pointers in strong mode it aborts only after a recorded draw of the disabled bucket, which is impossible if every key is a function or a compound, or with 15 open calls |
| Generator.ExpressionGenerator.Candidates | srcs/internal/srcs/typesystem.cpp:1447-1475 | for a key the filtered maps are the recorded handlers and not all empty; a non-empty simple map holds the type itself |
| Generator.ExpressionGenerator.DrawBucket | srcs/internal/srcs/typesystem.cpp:1486-1532 | the drawn handler has candidates; nothing is drawn only without variables, and with at most two open function calls only without functions; the disabled bucket is recorded exactly when it is drawn, with a draw that hits it, at most 15 open calls and a type that is neither function nor compound |
| Generator.ExpressionGenerator.FunctionCall | srcs/internal/srcs/typesystem.cpp:1542-1566 | the text is the name of one of the given functions and, in parentheses and separated by commas, texts of arguments of the right type in every position, unless the limit of 50 calls was passed a number only where there is no variable to use; it fails only for a draw of the disabled bucket or a pointer |
| Generator.ExpressionGenerator.StructureMember | srcs/internal/srcs/typesystem.cpp:1568-1600 | a compound variable followed by a member path to the type; an empty path means that the compound is the type itself, so the assertion holds; it fails only for a draw of the disabled bucket or a pointer |
| Generator.ExpressionGenerator.GetClassMemberByType | srcs/internal/srcs/typesystem.cpp:1685-1689 | the lookup is non-empty exactly if a reachable compound has such a member or method, the path type-checks step by step, and the text spells it; it fails only for a draw of the disabled bucket or a pointer |
| Generator.ExpressionGenerator.FindMember | srcs/internal/srcs/typesystem.cpp:1626-1683 | the same for a search with a shared visited set: it finds a path exactly if a newly visited compound solves, and fails only for a draw of the disabled bucket or a pointer |
| Generator.ExpressionGenerator.ScanMembers | srcs/internal/srcs/typesystem.cpp:1634-1662 | the gathered candidates are member paths and methods that give the target, and there is one exactly if a newly visited compound solves; it fails only for a draw of the disabled bucket or a pointer |
| Pointers.TypeSystem.GeneratePointerType | srcs/internal/srcs/var_definition.cpp:758-787 | the recursive method computes the specification, highest level numbered first, and every level's object names the level below |
| Pointers.TypeSystem.GetOrCreatePointerType | srcs/internal/srcs/var_definition.cpp:789-862 | the method computes the specification: one level above a known type, or level 1 of a new one |
| Pointers.TypeSystem.Register | srcs/internal/srcs/var_definition.cpp:774-784 | entering the next level keeps the table, the objects and their origin links consistent |
| Pointers.ObjectIs | srcs/internal/srcs/var_definition.cpp:774-776 | the object of a pointer names its basic type, its level and the pointer one level below |
| Pointers.TypeSystem.Find | srcs/internal/srcs/var_definition.cpp:795-815 | the nested loops find a type exactly if it is a basic type of the table or one of its pointers, with its level |
| Pointers.GenerateKeeps | srcs/internal/srcs/var_definition.cpp:758-787 | the table stays injective with contiguous levels; the result is the wanted level |
| Pointers.ReferKeeps | srcs/internal/srcs/var_definition.cpp:789-862 | the same for the other route; the result is one level up |
| Pointers.RunKeeps | srcs/internal/srcs/var_definition.cpp:758-862 | any interleaving of calls keeps the table injective and contiguous and moves no type |
| Pointers.RoutesAgree | srcs/internal/srcs/var_definition.cpp:758-862 | taking the address k times and then generating level k, with any calls in between, gives the same type and creates nothing |
| Pointers.RoutesAgreeBack | srcs/internal/srcs/var_definition.cpp:758-862 | generating level k and then taking the address k times gives the same type and creates nothing |
| Pointers.AgreesIffNotPointer | srcs/internal/srcs/var_definition.cpp:758-862 | for every level the routes agree on a type exactly if it is not itself a pointer |
| Pointers.NumberingIff | srcs/internal/srcs/var_definition.cpp:758-862 | from one table both routes hand out the same id for level k exactly if at most one level is missing |
| Pointers.NumberingAtLevel | srcs/internal/srcs/var_definition.cpp:758-862 | the missing levels get the same ids in opposite orders: a missing level has the same id on both routes exactly if it is the middle one |
| Pointers.NumberingDependsOnRoute | srcs/internal/srcs/var_definition.cpp:758-862 | a concrete run in which the routes number level 2 differently |
| Pointers.RegistryDependsOnRoute | srcs/internal/srcs/var_definition.cpp:783-837 | for every wanted level: every new level is a built-in simple type on the one route, and another simple type on the other |
| Scoping.ScopeTree.EnterScope | srcs/internal/srcs/var_definition.cpp:693-709 | the new scope has the next number, the old current scope as parent, and is current; it fails exactly if all scopes have been left |
| Scoping.ScopeTree.ExitScope | srcs/internal/srcs/var_definition.cpp:711-717 | the parent becomes current |
| Scoping.ScopeTree.BuildScopeTreeImpl | srcs/internal/srcs/var_definition.cpp:733-750 | balanced: the current scope after a subtree is the one before it; every node is tagged, every scoped node opens a child of the enclosing scope; ids follow pre-order; fails exactly if there would be a second outermost scope |
| Scoping.ScopeTree.BuildTree | srcs/internal/srcs/var_definition.cpp:752-756 | the walk succeeds exactly if at most one scope is outside all others; the scopes are then numbered 1 to n in pre-order and all have been left |
| Scoping.AttachedIsNumbered | srcs/internal/srcs/var_definition.cpp:693-724 | attaching the next scope keeps numbering, parent order and the match of parents and children |
| Scoping.BuiltIsTag | srcs/internal/srcs/var_definition.cpp:733-750 | what the walk makes of a tree is a function of the tree: scoped nodes get the numbers in pre-order, the others the enclosing scope |
| Scoping.ChainIsEnclosing | srcs/internal/srcs/var_definition.cpp:733-750 | the parent chain of a node's scope is the chain of scoped nodes on the way up from the node |
| Scoping.TagIsNearest | srcs/internal/srcs/var_definition.cpp:733-750 | a node is tagged with the nearest scoped node above it or itself |
| Scoping.EnclosingExact | srcs/internal/srcs/var_definition.cpp:733-750 | the enclosing scopes are exactly those opened by a node on the path |
| Scoping.ScopeHasOneNode | srcs/internal/srcs/var_definition.cpp:719-724 | every scope is opened by one node only |
| Symbols.FirstIsHead | srcs/internal/srcs/var_definition.cpp:1019-1057 | a single result is the first of all results |
| Symbols.AllExact | srcs/internal/srcs/var_definition.cpp:1038-1057 | a node is among the results exactly if it is of the kind and no node above it is of this kind or the one to stop at |
| Symbols.AllInOrder | srcs/internal/srcs/var_definition.cpp:1038-1057 | the results stand at places in the order of the text, each once and none left out |
| Symbols.FindDefineTypeIff | srcs/internal/srcs/var_definition.cpp:1000-1017 | the kind of a definition is that of the first node in the text, outer before inner, that is the type of a variable, a class or a function; it is the default exactly if there is none |
| Declarations.CollectedHavePlaces | srcs/internal/srcs/var_definition.cpp:965-998 | every declaration that is collected comes from a definition node of the tree: scope, id and name are those of the definition, its name, its argument or its body, as the kind demands |
| Declarations.TrimBothIff | srcs/internal/include/utils.h:70-90 | trimming cuts the white space at both ends and nothing else, which determines it |
| Declarations.CutKeywordIff | srcs/internal/srcs/var_definition.cpp:1464-1473 | cutting drops a leading `struct ` that something follows or a leading `enum ` that three characters follow, and leaves every other text as it is |
| CollectionOrder.EventIff | srcs/internal/srcs/var_definition.cpp:965-998 | the steps of the collection are exactly the openings of the reached definitions, those with no other definition above them but functions and classes whose body they are in, and the closings of the classes among them |
| CollectionOrder.EventsInOrder | srcs/internal/srcs/var_definition.cpp:965-998 | the steps come in the order of the text: definitions are opened from left to right, outer before inner, and a class is closed after everything in it and before everything to its right |
| Outline.CollectIsRun | srcs/internal/srcs/var_definition.cpp:965-1528 | the recursive collection equals a run over these steps, failures included |
| Outline.RunExact | srcs/internal/srcs/var_definition.cpp:965-1528 | after any number of steps exactly their declarations have been entered, and a type name denotes for the collection what it denotes by these declarations |
| Outline.KnownIff | srcs/internal/srcs/var_definition.cpp:359-380 | by places: a type name is known at a definition exactly if it is that of a basic type, of a class that ends before it in the text, or of a function that begins before or around it and is declared there |
| Outline.CollectionFailsIff | srcs/internal/srcs/var_definition.cpp:924-1528 | the collection of a program of at most 250 nodes fails exactly if some reached definition is malformed or needs a type name that is unknown there |
| Outline.MalformedFails | srcs/internal/srcs/var_definition.cpp:965-1528 | with a malformed reached definition the collection fails whatever was declared before |
| Outline.PlainIsCollected | srcs/internal/srcs/var_definition.cpp:965-1528 | without one, and with basic types only where a type has to be known, it succeeds whatever was declared before |
| Outline.NamesAreTyped | srcs/internal/srcs/var_definition.cpp:1087-1097 | in a collected program the variables of a definition have the type whose name is the text of its type node without white space at its ends; any type only without a type node or in weak mode |
| Outline.ProgramIsOutlined | srcs/internal/srcs/var_definition.cpp:924-963 | a program of at most 250 nodes that is collected declares exactly what its reached definitions declare, types and signatures included: every variable name under the type its definition names, a function if its return type is known, its arguments for its body, and a class, each under the types known at the definition |
| Symbols.SearchByDataType | srcs/internal/srcs/var_definition.cpp:1038-1057 | the outermost nodes of the kind, left to right, are appended to the result list |
| Symbols.IsContainDefinition | srcs/internal/srcs/var_definition.cpp:902-920 | the explicit stack finds a definition exactly if the tree has one |
| Symbols.HasDefinitionIff | srcs/internal/srcs/var_definition.cpp:902-920 | a tree has a definition exactly if some node of it is a variable, function or class definition |
| Collector.SymbolCollector.GetTypeIDByStr | srcs/internal/srcs/var_definition.cpp:359-380 | finds a type of that name exactly if there is one, basic types before classes before functions, and thereby what the declarations so far determine |
| Collector.SymbolCollector.CreateFunctionType | srcs/internal/srcs/var_definition.cpp:510-541 | a new id with this name and signature; all other types are unchanged |
| Collector.SymbolCollector.CreateCompoundType | srcs/internal/srcs/var_definition.cpp:1221-1233 | a new id with the members grouped by type |
| Collector.ListMembers | srcs/internal/srcs/var_definition.cpp:1273-1282 | listing the definitions of a scope and grouping them again gives the members of the class back |
| Collector.SymbolCollector.AddDefinition | srcs/internal/srcs/var_definition.cpp:544-548 | one entry more at the end of its list, unless the type does not exist |
| Collector.SymbolCollector.TypeOfVariables | srcs/internal/srcs/var_definition.cpp:1087-1097 | the type whose name is the text of the type node without white space at its ends; any type without a type node, and in weak mode for an unknown name; an unknown name fails in strong mode |
| Collector.SymbolCollector.CollectSimpleVariableDefinition | srcs/internal/srcs/var_definition.cpp:1069-1108 | it succeeds exactly if the type of the definition can be found; then exactly the outermost variable names of the definition are entered into its scope, under their own ids and with the definition's type |
| Collector.SymbolCollector.ReadArguments | srcs/internal/srcs/var_definition.cpp:1478-1496 | it succeeds exactly if every argument has a name and a type that is found by its name; then these are the results, in order, and their names are the texts of the name and type nodes without white space at their ends |
| Collector.SymbolCollector.CollectSignature | srcs/internal/srcs/var_definition.cpp:1460-1516 | it succeeds exactly if the arguments can be read; then a function whose return type is found by its name, the text of the return type without its keyword and white space at its ends, is entered with this return type and the argument types, any other is not |
| Collector.SymbolCollector.EnterFunction | srcs/internal/srcs/var_definition.cpp:1507-1516 | a function of known return type becomes a new function type with this signature and is defined in the scope of the definition; otherwise nothing is entered |
| Collector.SymbolCollector.CollectFunctionDefinition | srcs/internal/srcs/var_definition.cpp:1435-1528 | it fails exactly without a name node, with an unreadable argument or in the body; otherwise it enters the function, the arguments in the scope of the body under the definition's id, and what the body declares; nothing for an anonymous function |
| Collector.SymbolCollector.EnterClass | srcs/internal/srcs/var_definition.cpp:1272-1286 | the members of the new class are exactly the definitions in the scope of its body |
| Registry.LookupMatches | srcs/internal/srcs/var_definition.cpp:359-380 | a lookup by name finds a basic type, a declared class or a declared function, in this order, and nothing else |
| Registry.EntryIff | srcs/internal/srcs/var_definition.cpp:544-548 | the symbol tables list exactly the declarations that were entered, under the types they were entered with |
| Registry.MembersAre | srcs/internal/srcs/var_definition.cpp:1272-1286 | the members of a class are the definitions of the scope by name, in order |
| Registry.OneMoreName | srcs/internal/srcs/var_definition.cpp:1069-1108 | entering a variable or an argument with the type it names keeps tables and types in step with the declarations |
| Registry.OneMoreFunction | srcs/internal/srcs/var_definition.cpp:1507-1516 | so does entering a function as a new type with the declared signature |
| Registry.OneMoreClass | srcs/internal/srcs/var_definition.cpp:1272-1286 | and entering a class as a new type with the definitions in the scope of its body as members |
| Collector.SymbolCollector.CollectStructureDefinition | srcs/internal/srcs/var_definition.cpp:1235-1286 | it fails exactly without name or body, or in the body; otherwise it enters what the body declares, then the class under the definition's id, with what the scope of the body holds as members |
| Collector.SymbolCollector.CollectDefinition | srcs/internal/srcs/var_definition.cpp:965-998 | it succeeds exactly if the specification of the collection does, and then enters exactly the declarations of the tree, in order, with their types |
| Collector.SymbolCollector.CreateSymbolTable | srcs/internal/srcs/var_definition.cpp:924-963 | the same for a whole program of at most 250 nodes; a larger one succeeds and enters nothing; tables and types are at all times exactly what the declarations entered so far make of the bare scopes and the basic types |
| Fixing.MarkFixMe | srcs/internal/srcs/typesystem.cpp:904-934 | marking in place: a fix unit below the root that needs fixing gives way to a new FIXME leaf with its ids |
| Fixing.MarkKeepsNeed | srcs/internal/srcs/typesystem.cpp:904-934 | marking neither hides nor invents work |
| Fixing.MarkedUnitsAreFixed | srcs/internal/srcs/typesystem.cpp:904-934 | after marking no FIXME is left inside a fix unit below the root |
| Fixing.MarkKeepsPlaces | srcs/internal/srcs/typesystem.cpp:904-934 | what is left keeps its place; a fix unit below the root that needed fixing is a FIXME leaf with its ids, every other node keeps all its fields |
| Fixing.MarkRemoves | srcs/internal/srcs/typesystem.cpp:904-934 | a node is gone exactly if a fix unit above it needed fixing |
| Fixing.FixPointSeesEarlierNames | srcs/internal/srcs/typesystem.cpp:1711-1734 | in a fresh tree a name passes the id test at a fix point exactly if it is below it or to the left of it, also after marking |
| Fixing.SelectFixStrategy | srcs/internal/srcs/typesystem.cpp:1286-1310 | the explicit stack returns exactly the nodes to fix, left to right |
| Fixing.PointAt | srcs/internal/srcs/typesystem.cpp:1286-1310 | the i-th selected node stands at the i-th place to fix of the tree's value |
| Fixing.PointsAreFixmes | srcs/internal/srcs/typesystem.cpp:1286-1310 | every selected node holds FIXME and none is selected twice |
| Fixing.FixPathsExact | srcs/internal/srcs/typesystem.cpp:1286-1310 | where strings are at leaves only, the places to fix are exactly the FIXME leaves |
| Fixing.FixPathsInOrder | srcs/internal/srcs/typesystem.cpp:1286-1310 | the places to fix are listed left to right |
| Fixing.FillKeepsTheRest | srcs/internal/srcs/typesystem.cpp:1232-1239 | filling changes the data of FIXME nodes and nothing else |
| Fixing.FilledAt | srcs/internal/srcs/typesystem.cpp:1232-1239 | each place to fix gets the text generated for it |
| Fixing.FilledNeedsFixing | srcs/internal/srcs/typesystem.cpp:1205-1219 | where strings are at leaves only, a filled tree needs fixing exactly if a text is FIXME again |
| Validator.ApplyFix | srcs/internal/srcs/typesystem.cpp:1232-1239 | the node gets a text that spells an expression over the variables visible at it, a number only if there is nothing to use; it fails only if the disabled bucket was drawn for a key where it can be, or if a pointer variable or an empty name is visible |
| Validator.ApplyFixes | srcs/internal/srcs/typesystem.cpp:1213-1217 | the assertion of each fix holds, each selected node gets a fitting text, and nothing else changes; it fails only if the generation for one of the nodes does, for a disabled draw, a pointer variable or an empty name, and after a disabled draw always |
| Validator.BuildScopeTreeWithSymbolTable | srcs/internal/srcs/typesystem.cpp:1241-1247 | the tree is tagged with its scopes; it succeeds exactly if the collection of what the tagged tree declares does, and then scopes and types are exactly what these declarations make of them |
| Validator.Validate | srcs/internal/srcs/typesystem.cpp:1205-1219 | never reports a missing symbol; it crashes if the collection of the definitions fails, and otherwise only if a generation fails at some place to fix, with a disabled draw or with a visible pointer variable or empty name, and after a disabled draw always; so it succeeds if the collection does and no draw can abort a generation, in particular for more than 250 nodes; on success the tree is the marked input, tagged with its scopes, with a text at every place to fix that fits what is visible there, a number only if there is nothing to use |
| Validator.FixUsesEnclosingScopes | srcs/internal/srcs/typesystem.cpp:1205-1239 | the text at a fix point spells an expression that is typed in the environment of the program's own declarations and uses only definitions of the scopes opened on the way up from it, made under smaller ids than it had in the input; it is a number only if the table of these definitions is empty or lists a function whose result type is not a key |
| Validator.VisibleIffDeclared | srcs/internal/srcs/typesystem.cpp:1702-1743 | a name is visible under a type exactly if the program declares it in an enclosing scope under a smaller id, with this type as the declared one |
| Validator.UsableIffDeclared | srcs/internal/srcs/typesystem.cpp:1702-1743 | the variables, compounds and functions a text is generated from are exactly the declared names of the kind, with their declared types |
| Validator.FailureMeans | srcs/internal/srcs/typesystem.cpp:1316-1324 | in a prepared program a generation that fails without a disabled draw has a declaration of an empty name in sight: there are no pointers |
| Validator.DeclarationHasPlace | srcs/internal/srcs/var_definition.cpp:965-998 | every declaration of the program stands somewhere in it |
| Validator.VisibleIsOutlined | srcs/internal/srcs/typesystem.cpp:1702-1743 | in a program of at most 250 nodes what is visible at a place is exactly what the reached definitions declare in an enclosing scope under a smaller id, under the declared type: the type referred to, a function type with this signature, or a class of this name |
| Validator.DeclReachesIff | srcs/internal/srcs/typesystem.cpp:1702-1734 | in a fresh tree a declaration reaches a fix point exactly if its scope encloses the fix point and the node whose id it has precedes the fix point in the text: the name of a variable or function, the whole definition for arguments and classes |
| Validator.EarlierVariableIsVisible | srcs/internal/srcs/typesystem.cpp:1702-1734 | in a fresh program of at most 250 nodes every variable that a reached definition declares before a fix point in the text, in an enclosing scope, is visible there, under the type whose name is the text of its type node without white space at its ends; under any type only without a type node or in weak mode |
| TextOrder.FixPointIsLeaf | srcs/internal/srcs/typesystem.cpp:1286-1310 | in a fresh tree every place to fix is a leaf with a rule type |
| TextOrder.PassesIff | srcs/internal/srcs/typesystem.cpp:1702-1734 | in a fresh tree a declaration, wherever its definition stands, passes the id test at a fix point exactly if the node whose id it has precedes the fix point in the text |
| TextOrder.FailsInside | srcs/internal/srcs/var_definition.cpp:1518-1526 | in a fresh tree an argument passes the id test at no place inside its function, and a class at none inside itself |
| TextOrder.BodyScopeIsInside | srcs/internal/srcs/var_definition.cpp:1518-1526 | the scope that the body of a function opens encloses no place outside the function |
| Validator.NotInsideOwnDefinition | srcs/internal/srcs/var_definition.cpp:1518-1526 | in a fresh tree an argument reaches no place inside its function, and a class none inside itself |
| Validator.ArgumentsAreInvisible | srcs/internal/srcs/var_definition.cpp:1518-1526 | in a fresh tree an argument of a function whose body opens a scope reaches no place at all |
| Leak.ArgumentLeaks | srcs/internal/srcs/var_definition.cpp:1518-1526 | a concrete program in which the body opens no scope: it declares its argument in a scope that encloses a place to fix behind the function, under a smaller id |
| Leak.ArgumentReaches | srcs/internal/srcs/var_definition.cpp:1518-1526 | so the argument reaches that place |
| Leak.InputIsWellNumbered | srcs/internal/srcs/var_definition.cpp:1518-1526 | the concrete program has the ids that a translation gives |
| Leak.UnknownArgumentFails | srcs/internal/srcs/var_definition.cpp:1478-1496 | where the type of its argument is not configured, the same program cannot be collected |
| Validator.LargeProgramsGetNumbers | srcs/internal/srcs/var_definition.cpp:944-952 | in a program of more than 250 nodes every fix point becomes the digits of a number below 0x1000 |
| Validator.LargeProgramsAreSafe | srcs/internal/srcs/var_definition.cpp:944-952 | in such a program no draw can abort a generation |
| Validator.ValidationFixes | srcs/internal/srcs/typesystem.cpp:1205-1239 | where strings are at leaves only, a validated tree needs fixing exactly if a generated text is FIXME again, and texts are generated exactly if the input needed fixing |

## Left out

- Collector.SymbolCollector.CreateSymbolTable: reads a value copy of the heap tree, which the collection never changes; among types of one sort with the same name the lookup may find any.
- Validator.Validate: stated for trees whose root opens a scope; `Scoping.ScopeTree.BuildTree` covers the other trees. Which draw is made is a matter of chance: a crash names the draw of the disabled bucket, and `Generator.NoAbortIff` says when there is one at the first call. Where an empty name is visible, that it is in fact picked is not stated.
- Intermediates have no rule type, and ids are not initialised by a deep copy: the correspondence of id order and text order is stated for rule-typed nodes of a freshly translated tree only.
- Translator.TranslateNode: works on tree values and an explicit counter, so nodes built during translation are not heap objects; this leaves out only aliasing, which translation does not create.
- Generator.ExpressionGenerator.GenerateExpression: the function-local static caches are fields of the generator; the validator makes a new generator for every fix and thereby never reads a stale cache.
- Generator.ExpressionGenerator.GenerateCore: dereferencing the null pointer type of a visible pointer variable in strong mode counts as an abort; counters and shifts are unbounded, so shifts beyond the word width are not modelled.
- Generator.ExpressionGenerator.DirectField: the loop that looks for a member of the target type is a lookup, since a map has at most one such key.
- The built-in variables, compounds and functions are always empty in the source and are dropped, and with them the branch for built-in compounds; the map of convertible IR types is always empty too.
- Hashes, number formatting and `stoi` are uninterpreted functions; a failing `stoi` is not modelled.
- MutatorRuns.Mutator.AddIRToLibrary: stated for trees that share no node with the library, because extraction rewrites the tree in place; afterwards the library shares the tree.
- Mutators.ExtractStructure: the id of a new FIXME leaf is arbitrary, results are stated up to ids.
- Scopes and types are named by their ids instead of being objects that point at each other; the scope tree still numbers and links them as the source does.
- Type inference, operator rules, chain conversion and the statement limits that are commented out or unused in the source.
- Parsing with ANTLR, configuration files, directory handling, the corpus tools and the interface to the fuzzer.
- Probabilities of random picks, the retry and pop order of the mutation queue, and logging.
