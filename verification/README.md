# Lingo permissions

Lingo gives Go values linear permissions and checks that programs respect them. This project models its three
layers and proves what they promise.

**Permissions** (`permission/`). A permission is a set of five rights (owned, read, write, exclusive read, exclusive
write), or a structure of permissions with a base of its own, a wildcard or nil. Structures point to one another and
may be cyclic. Each operation is modelled twice: as a recursive definition on trees, about which the algebra is proved,
and as the memoised search of the program over a heap of cells, where a provisional answer is recorded before its parts
are known. The search is then proved to compute the coinductive reading of the rules: for assignability the greatest
fixed point, for merging and conversion a graph that unfolds to the result on trees at every depth.

- `BasePermission`, `Permission`: rights and trees. `Graph`: heaps of cells and their unfoldings.
- `Assignable`, `Convert`, `Merge`: the operations on trees and their laws (that the wildcard is neutral, and nil for
  nilable shapes, are `Merge.WildcardNeutral` and `Merge.NilNeutral`, which follow from the definitions); `Bounds`
  connects merging with moving, `Sharing` says what copying guarantees, `Consistency` what conversion keeps and removes.
  `AssignablePlaces` and `Positions` say the same operations place by place, independently of the recursion.
- `AssignableRules`, `MergeRules`: the rules on heaps, one step at a time. `AssignableMemo`, `MergeMemo`: the program.
  `Cyclic`: the laws for what the program computes.

**The store** (`capabilities/store.go`). `Stores` has the operations as functions and the invariant of every reachable
store, `StoreLaws` what each operation does to every variable; `StoreSlices` has the program, over slices of arrays with
their aliasing, proved against these functions.

**The abstract interpreter** (`capabilities/interpreter.go`). `Interpreter` and `Statements` have the visits of
expressions and statements; `Results` and `Bindings` say what they give, ask for and bind. `Borrowing`, `Evaluation`,
`Ownership`, `Calls` and `Places` say what evaluation, calls and assignment do to variables, and exactly when the owner of
a value that was taken for good keeps a linear right. What a statement can do is a relation between a store and an exit,
defined by paths through statement lists and loops. `Worklist`, `Exploration` and `Ranges` have the worklists of
statement lists and range loops and prove that they find exactly those exits; `Execution` composes them over nested
statements. `Scope` proves what holds of every exit on every path.

**The annotation language** (`permission/parser.go`, `permission/scanner.go`). `Scanning` has the scanner with its
push-back buffer, `Grammar` the grammar on tokens with a canonical rendering, `Parsing` the recursive-descent parser, and
`Text` and `Naming` the round trip down to characters.

A panic or a returned error of the program is a result of the model: `Panic`, `Error`, `Failed` or `None`. Permissions
of functions are compared up to the name of the function where the program keeps the name of the left argument only.

Where code and documentation disagree, the model follows the code. The documentation does not mention that nil may be
assigned to functions. It describes the closure of a function as compared the other way round as a whole, while the code
compares ownership the same way round as elsewhere but merges it the other way round; `Bounds.BoundExactly` states the
consequence. The printed form `a` stands for an owned permission when read and also for the unowned one when printed;
`Text.PrintedIsParsed` states the consequence.

## Model

| member | source | states |
|---|---|---|
| Assignable.BaseTransitive | permission/assignable.go:89-104 | the rule for base permissions is transitive in each of the three modes |
| Assignable.Transitive | permission/assignable.go:89-277 | move, copy and reference assignability are each transitive over all trees, through contravariant closures, receivers and parameters, interfaces looked up by name and the mode switches under pointers and reference types; only the outer two permissions need distinct method names |
| Assignable.DuplicateNamesBreakTransitivity | permission/assignable.go:211-247 | without distinct method names transitivity is false: a method is looked up at its own position before by name |
| Assignable.InterfaceAssignable | permission/assignable.go:211-247 | in every mode an interface is assignable exactly if its base is and each method of the target has a counterpart, same position first and then first of the name, that is assignable to it |
| AssignableRules.HoldsIsLimit | permission/assignable.go:74-87 | membership in the greatest fixed point of the one-step rules on a cyclic graph is assignability of the unfolded trees at every depth |
| AssignableRules.HoldsTransitive | permission/assignable.go:74-277 | assignability of cyclic permissions is transitive in each mode |
| AssignableMemo.AssignableState.AssignableTo | permission/assignable.go:74-87 | the memoised search: success means the comparison is recorded and the table is still sound and justified up to the comparisons under way; failure means it is not in the greatest fixed point; a panic means a part asked for is missing |
| AssignableMemo.AssignableState.IsAssignableTo | permission/assignable.go:89-277 | dispatch to the case for the shape of the left side, under the same contract |
| AssignableMemo.AssignableState.FuncAssignable | permission/assignable.go:173-209 | functions: ownership first, closure, receivers and parameters the other way round, then results |
| AssignableMemo.AssignableState.InterfaceAssignable | permission/assignable.go:211-247 | interfaces: every method of the target found by name and compared |
| AssignableMemo.AssignableState.PartwiseAssignable | permission/assignable.go:106-171 | pointers, channels, arrays, slices, maps, structs and tuples: the base and all parts in the mode of the shape |
| AssignableMemo.AssignableState.FindMethod | permission/assignable.go:220-233 | the loop over methods finds the one at the same position or the first of the name |
| AssignableMemo.IsAssignable | permission/assignable.go:74-87 | on every finite cyclic graph the search terminates, answers yes exactly on the greatest fixed point although comparisons are recorded as true before they are made, and panics only when some reachable comparison asks for a missing part |
| AssignableMemo.MovableTo | permission/assignable.go:49-56 | the same for moving |
| AssignableMemo.RefcopyableTo | permission/assignable.go:59-62 | the same for referencing |
| AssignableMemo.CopyableTo | permission/assignable.go:66-68 | the same for copying |
| Sharing.CopiesShareSafely | permission/assignable.go:34-171 | after a copy, at every position reached through a pointer, slice, map, channel or interface and outside functions, neither side is linear and the copy has no right the original lacks; the base of a pointer itself only counts if it was reached so |
| AssignablePlaces.AssignableIffPlaces | permission/assignable.go:34-277 | copying, referencing and moving accept exactly the pairs of which every place that both reach passes: separate places, a pointer itself and structs, arrays and tuples included, must be readable or without rights on both sides, shared ones without exclusive rights and within the rights of the source, moved ones within them and readable; closures are shared by copies, inputs and outputs of functions moved, inputs the other way round |
| AssignablePlaces.CyclicIffPlaces | permission/assignable.go:34-277 | for cyclic permissions the greatest fixed point, and so the answer of the program, is that of the places at every depth |
| Convert.ConvertToBaseIdempotent | permission/mergeConvert.go:34-178 | normal and strict conversion are idempotent, the stripping of linear rights under pointers included |
| Positions.ConvertedPlaces | permission/mergeConvert.go:34-178 | conversion keeps the shape; every base outside functions and interfaces and, in normal mode, pointers is the goal; parts of functions and interfaces keep their base; the target of a pointer keeps its rights, owned like the pointer, less exactly the linear pairs that are stripped |
| Positions.ConvertibleIff | permission/mergeConvert.go:34-178 | conversion is defined if and only if no function, interface or, in normal mode, pointer has a wildcard as a part |
| Cyclic.ConvertTwice | permission/mergeConvert.go:17-178 | on cyclic permissions, converting the result of a conversion again with the same goal never fails and gives a bisimilar permission, in both modes |
| Consistency.ConvertedConsistent | permission/mergeConvert.go:34-112 | the result of a conversion is left alone by conversion to its own base permission |
| Consistency.ConvertedBelow | permission/mergeConvert.go:34-112 | converting consistent plain data to a base within its own only removes rights: intersecting with the original gives the result back |
| Consistency.IntersectionConsistent | permission/merge.go:191-286 | the intersection of consistent plain data is consistent |
| Consistency.ConvertedNowhereLinear | permission/mergeConvert.go:34-59 | converting plain data to a non-linear base leaves no linear base permission anywhere if and only if no target behind a pointer is kept linear, a condition on the bases along the pointers |
| Consistency.OrderlyKeepsNothing | permission/mergeConvert.go:34-59 | no target is kept where exclusive reading always comes with reading |
| Consistency.DisorderKeepsLinear | permission/mergeConvert.go:34-59 | a concrete permission, with exclusive reading without reading, in which conversion does leave a linear target |
| Consistency.IntersectionNowhereLinear | permission/merge.go:191-286 | intersecting with any maximum brings no linear right back |
| Consistency.LimitedNowhereLinear | permission/mergeConvert.go:34-178 | for every consistent permission within a maximum, functions and interfaces included: converted to fewer rights and limited by the maximum it is nowhere linear if and only if no goal that reaches a place is linear, no closure of the maximum with its goal is, and nothing in a signature is |
| Consistency.PlainLeavesLinear | permission/mergeConvert.go:34-59 | on plain data that condition does not depend on the maximum: it is that no linear target is kept |
| Consistency.EndsNowhereLinear | permission/mergeConvert.go:34-178 | for every permission, consistent or not, and every maximum it merges into: nothing linear is left if and only if at no place the goal that conversion brings there, merged with the maximum, is linear |
| Merge.EraseMerged | permission/merge.go:288-330 | merging does not look at function names: definedness and, up to names, the result are the same without them |
| Merge.Commutative | permission/merge.go:180-390 | intersection and union commute up to names, definedness included |
| Merge.Idempotent | permission/merge.go:180-390 | intersecting or uniting a permission with itself is defined and gives it back |
| Merge.Associative | permission/merge.go:180-390 | intersection and union are associative: either both groupings are defined and equal or neither is |
| Merge.Absorption | permission/merge.go:130-157 | intersection and union absorb each other on permissions without nil and wildcard |
| Merge.ConvertToIdempotent | permission/merge.go:98-105 | conversion to any goal, incomplete ones mixing bases, structures, wildcards and nil included, is idempotent in its result |
| Positions.MergedPlaces | permission/merge.go:161-390 | merging position by position, in all four actions: bases are intersected, united or replaced by the goal, the other way round in closures and after an odd number of function inputs; wildcards give way, nil gives way to nilable structures, and a base goal converts a structure |
| Positions.MergeableIff | permission/merge.go:161-390 | two permissions merge if and only if they do at every place that both have |
| Positions.CompleteGoal | permission/merge.go:98-105 | converting to a goal that has a structure wherever the permission has one, a base only where it has one, and neither nil nor wildcards, gives the goal up to function names, in both modes |
| Bounds.IsBound | permission/merge.go:130-157 | two readable permissions with aligned methods whose closures agree on ownership move to their intersection, and their union moves to both |
| Bounds.BoundExactly | permission/merge.go:288-330 | among permissions that merge and have the same methods, intersection is a lower and union an upper bound for moving exactly if corresponding closures agree on ownership |
| Bounds.IntersectionIsGreatest | permission/merge.go:130-143 | the intersection moves to everything that both permissions move to |
| Bounds.UnionIsLeast | permission/merge.go:146-157 | everything that moves to both permissions moves to their union |
| MergeMemo.ResolvesTrees | permission/merge.go:161-178 | once no structure is under construction, every recorded answer unfolds to the merge of the unfolded arguments at every depth, although it was recorded before it was built |
| MergeMemo.FailsIsReachable | permission/merge.go:161-390 | a merge fails exactly when a path of merges from it leads to an impossible one |
| MergeMemo.FinishedValid | permission/merge.go:180-390 | all structures a merge builds have the parts of their shape; methods of interfaces are functions |
| MergeMemo.MergeState.Allocate | permission/merge.go:44-46 | a new structure is allocated and recorded as the answer before its parts are known; nothing else changes |
| MergeMemo.MergeState.FillPart | permission/merge.go:191-330 | one part of the structure under construction is filled in in place; every other cell stays |
| MergeMemo.MergeState.MergeStructures | permission/merge.go:191-381 | two structures of one shape: success leaves a complete structure whose parts answer the merges the rules ask for, with the action flipped under functions and one table for both; failure means some reachable merge is impossible |
| MergeMemo.MergeState.ConvertStructure | permission/mergeConvert.go:34-178 | a structure converted to a base permission, under the same contract, the goal of a pointer target being stripped of linear rights |
| MergeMemo.MergeState.ConvertToBase | permission/mergeConvert.go:17-32 | the memoised conversion |
| MergeMemo.MergeState.Merge | permission/merge.go:161-178 | the memoised merge, sharing its table with conversion |
| MergeMemo.RunMerge | permission/merge.go:161-390 | on every finite cyclic graph the merge terminates, fails exactly if the trees cannot be merged at some depth, otherwise unfolds to the merge of the trees at every depth, and leaves the arguments as they were |
| MergeMemo.Intersect | permission/merge.go:134-143 | that for intersection |
| MergeMemo.Unite | permission/merge.go:150-157 | that for union |
| MergeMemo.ConvertTo | permission/merge.go:98-105 | that for conversion to a permission |
| MergeMemo.ConvertRef | permission/merge.go:112-127 | that for normal and strict conversion to a base permission |
| Cyclic.AlignedMerge | permission/merge.go:161-390 | aligned cyclic permissions always have an intersection and a union |
| Cyclic.IntersectionIsBelow | permission/merge.go:134-143 | two cyclic permissions, readable and aligned, move to the intersection the program computes |
| Cyclic.IntersectionIsBest | permission/merge.go:134-143 | and that intersection moves to everything that both move to |
| Cyclic.UnionIsAbove | permission/merge.go:150-157 | the union the program computes for two cyclic permissions, readable and aligned, moves to both |
| Cyclic.UnionIsBest | permission/merge.go:150-157 | and whatever moves to both moves to that union |
| Cyclic.MergeCommutes | permission/merge.go:161-390 | the program fails on both orders of the arguments or on neither, with the same results up to names |
| Cyclic.MergeAssociates | permission/merge.go:161-390 | the two groupings of three cyclic permissions both succeed or both fail in the program, with bisimilar results |
| Cyclic.MergeAbsorbs | permission/merge.go:130-157 | on cyclic permissions without nil and wildcard, intersection and union as computed absorb each other |
| Cyclic.ConvertToTwice | permission/merge.go:98-105 | on cyclic permissions, converting the result of a conversion again, to the same goal of any form, never fails and gives a bisimilar permission |
| Positions.CompleteConversion | permission/merge.go:98-105 | the program, on cyclic permissions, never fails on such a goal and answers it at every depth |
| Cyclic.CyclicCopiesShareSafely | permission/assignable.go:34-171 | what holds of shared places after a copy holds of cyclic permissions at every depth |
| Stores.ErasedMonotone | permission/merge.go:180-390 | intersection is monotone: the intersection of two effective permissions is below the intersection of their maxima |
| Stores.MergeLimited | capabilities/store.go:70-100 | merging two stores whose effective permissions are below their maxima gives such a store |
| Stores.ReachableLimited | capabilities/store.go:50-170 | in every store that a history of operations and merges produces, every effective permission is below its maximum |
| StoreLaws.SettingEffective | capabilities/store.go:130-146 | the effective permission set is the given one within the maximum; the maximum, every other variable and the blocks stay; it fails exactly for unknown variables and permissions that do not intersect |
| StoreLaws.SettingMaximum | capabilities/store.go:153-170 | the maximum set is the given one and limits the effective permission; everything else stays |
| StoreLaws.Defining | capabilities/store.go:105-124 | defining a name of the innermost block sets it, any other name is a new variable that hides the outer ones and ends with the block |
| StoreLaws.Beginning | capabilities/store.go:50-56 | a new block is empty, hides nothing and ends with the store it began in |
| StoreLaws.Ending | capabilities/store.go:59-66 | ending a block keeps every variable that is not in it, and panics exactly outside any block |
| StoreLaws.Merging | capabilities/store.go:70-100 | merging intersects the effective permissions and the maxima of each variable |
| StoreSlices.BeginBlock | capabilities/store.go:50-56 | a new slice with a frame marker in front of a copy; the slice given is not changed |
| StoreSlices.EndBlock | capabilities/store.go:59-66 | the part of the same array behind the innermost marker, aliased and not copied; without a marker it panics |
| StoreSlices.Define | capabilities/store.go:105-124 | a name of the current frame is assigned, any other is added in front, in a copy |
| StoreSlices.SetEffective | capabilities/store.go:130-146 | the effective permission is limited by the maximum in a copy; all slices that existed before keep their contents |
| StoreSlices.SetMaximum | capabilities/store.go:153-170 | the effective permission is limited by the new maximum in a copy |
| StoreSlices.GetEffective | capabilities/store.go:173-181 | the effective permission of the innermost variable of that name |
| StoreSlices.GetMaximum | capabilities/store.go:184-192 | the maximum of the innermost variable of that name |
| StoreSlices.MergeEntries | capabilities/store.go:81-99 | the entry-by-entry intersection of two branches, with the errors and panics of the entries |
| StoreSlices.MergeBranches | capabilities/store.go:70-100 | the same, except that a nil store on either side gives way to the other |
| Borrowing.GiveBack | capabilities/interpreter.go:88-131 | giving a borrowed variable its permission back restores the store |
| Borrowing.ReleaseAnyOrder | capabilities/interpreter.go:278-301 | borrows of variables with distinct names may be released in any order; each order restores the store |
| Borrowing.ReleaseExactly | capabilities/interpreter.go:88-101 | releasing what was lent, in any order and with variables lent several times, succeeds, and restores the store if and only if of each variable the permission given back last is the one it had |
| Borrowing.LentTwice | capabilities/interpreter.go:88-131 | with one variable lent twice, releasing in the order of lending restores the store if and only if lending leaves that variable unchanged, which can be checked beforehand |
| Borrowing.RepeatedLendingOrder | capabilities/interpreter.go:88-131 | of two loans of one variable, released last first it is always restored, released first first if and only if lending leaves it unchanged |
| Evaluation.MergeSelf | capabilities/store.go:70-100 | merging a store with itself gives it back, if it has no frame marker |
| Evaluation.BorrowsUndoable | capabilities/interpreter.go:113-380 | evaluation that gives nothing away leaves exactly the owner of the result borrowed, and nothing else changed |
| Evaluation.BorrowThenRelease | capabilities/interpreter.go:88-380 | borrow then release is the identity: over every nesting of identifiers, literals, parentheses, dereference, address, receive, unary, binary and short-circuit operators, indexing, slicing, selection and calls, releasing what evaluation borrowed restores every name and permission |
| Evaluation.ArgsLent | capabilities/interpreter.go:284-294 | the arguments of a call, each copied or passed to an unowned parameter, leave only their owners borrowed |
| Evaluation.CallRestoresExactly | capabilities/interpreter.go:278-319 | a completed call whose arguments are copied or go to unowned parameters, whoever owns them, leaves nothing borrowed and restores the store if and only if of each variable the permission given back last is the one it had |
| Evaluation.CallLendsTwice | capabilities/interpreter.go:278-319 | with one variable owning two arguments, the call restores the store if and only if that variable also owns the function or lending leaves it unchanged |
| Evaluation.CallRestores | capabilities/interpreter.go:278-319 | with arguments of different owners the call restores the store |
| Evaluation.RepeatedArgumentOrder | capabilities/interpreter.go:284-301 | an input on which it does not: the same function variable passed twice to unowned parameters, which lending changes, is not restored, while the other order of release would restore it |
| Calls.ArgsPass | capabilities/interpreter.go:284-294 | what arguments whose evaluation only borrows leave in the store and to be given back, for parameters of every kind: each is copied, lends its owner, or takes its value for good, moved or frozen |
| Calls.CallChanges | capabilities/interpreter.go:278-319 | every completed call, with owned parameters too, whose function and arguments only borrow while they are evaluated: nothing stays borrowed, variables given back have the permission given back last, owners of values taken for good keep their permission converted within the maximum, and nothing else changes |
| Calls.CallRestoresAll | capabilities/interpreter.go:278-319 | such a call restores the store if and only if every variable given back last gets what it had and every value taken for good leaves as much in its owner as was there |
| Calls.CallTakes | capabilities/interpreter.go:278-319 | with different owners, a call changes the owners of the arguments it takes for good and no other variable, each as the transfer of its value does |
| Ownership.IdentOnlyRemoves | capabilities/interpreter.go:113-131 | evaluating a variable of consistent plain data leaves it consistent and without rights, and nothing else changed |
| Ownership.OwnerTransfer | capabilities/interpreter.go:133-164 | binding a value of a borrowed variable to an owned place it cannot be copied to releases everything and leaves in the variable, limited by its maximum, its permission converted to no rights or, if the value is frozen, to its rights without writing and exclusivity |
| Ownership.OwnerLeft | capabilities/interpreter.go:113-164 | what that leaves is linear somewhere, for every permission, if and only if some place ends linear as in `Consistency.EndsNowhereLinear`; for consistent ones if and only if the condition of `Consistency.LimitedNowhereLinear` fails, for consistent plain data if and only if conversion keeps a linear target; the closure left in a function is the union of that of the maximum and what it was converted to |
| Ownership.TransferLeavesNothingLinear | capabilities/interpreter.go:113-164 | the same for every expression that only borrows: nothing stays borrowed, every other variable is as before the evaluation, and it is known exactly, from the permission and its maximum, whether the owner keeps a linear right, moved or frozen |
| Ownership.MovedFunctionStays | capabilities/interpreter.go:113-164 | an input with two holders: a function with a linear closure moved to an owned place is still there, unchanged, in its variable |
| Results.PlaceSpells | capabilities/interpreter.go:198-247 | evaluating a variable or a part of one borrows that variable alone and gives the part of its permission that the expression spells: the target for a star, the element of an array or slice, the value of a map, the field selected |
| Results.ConstantResults | capabilities/interpreter.go:113-120 | literals and truth values are new owned values, nil is nil, and a variable gives its effective permission and owns it |
| Results.SelectField | capabilities/interpreter.go:350-380 | selecting field i gives field i of a struct, or of the struct a pointer points to, with the owner and store of the operand, and panics on anything else |
| Results.StarTarget | capabilities/interpreter.go:232-247 | dereferencing gives the target of a readable pointer and panics on anything else |
| Results.AddressTarget | capabilities/interpreter.go:249-257 | an address is an owned mutable pointer to what may be read |
| Results.ElementOrValue | capabilities/interpreter.go:198-230 | indexing gives the element of an array or slice and the value, not the key, of a map, owned by the owner of the container; container and index must be readable and a key of a map copyable or movable to its place |
| Results.ReceivedElement | capabilities/interpreter.go:259-266 | receiving gives the element of a readable channel, owned by nobody |
| Results.OperatorResults | capabilities/interpreter.go:167-192 | operands are visited from left to right, released and readable; after a short-circuit operator the store is the merge of those with and without its right operand |
| Results.SliceOfSliceable | capabilities/interpreter.go:340-348 | a slice of an array is an owned mutable slice of its elements, a slice of a slice the slice itself |
| Results.CallSignature | capabilities/interpreter.go:278-315 | arguments meet the parameters after the receivers; a call gives the one result, or a tuple of the results |
| Results.ArgsFitParams | capabilities/interpreter.go:284-291 | each argument, in the store the one before leaves, is copied or moved to the parameter of its position |
| Results.TransferAllowed | capabilities/interpreter.go:133-144 | a value is refused exactly if it can be neither copied nor moved |
| Places.SelectTwice | capabilities/interpreter.go:350-380 | a promoted field is selected like the fields on the way to it, one after another |
| Places.ElementOfSlice | capabilities/interpreter.go:198-224 | an element of a slice of x has the permission and the owner of an element of x |
| Places.AssignmentHasOneHolder | capabilities/interpreter.go:859-968 | x = e, for an owned value of another variable that cannot be copied: afterwards x has its maximum if the value can be copied there and the value otherwise, every third variable is as it was, and it is known exactly whether the owner keeps a linear right |
| Bindings.DefinesVariable | capabilities/interpreter.go:916-935 | a definition makes a new variable of the permission, or assigns one of the innermost block |
| Bindings.AssignedIsOwned | capabilities/interpreter.go:936-960 | a place assigned to owns what it holds and can take the value |
| Bindings.AssignsInOrder | capabilities/interpreter.go:859-914 | all right-hand sides are visited, from left to right, before any left-hand side is bound, each to the permission of its position, so that a, b = b, a exchanges them |
| Bindings.TupleInOrder | capabilities/interpreter.go:863-875 | a tuple is bound element by element |
| Bindings.SendAsks | capabilities/interpreter.go:824-845 | sending asks for a writable channel and a value that can be copied or moved to its element |
| Bindings.ReturnsInOrder | capabilities/interpreter.go:797-815 | each result is copied or moved to the declared result of its position, and there are as many |
| Bindings.SimpleExits | capabilities/interpreter.go:574-600 | the branch that the exits of simple statements carry, and the rights they ask for |
| Bindings.ConditionalExit | capabilities/interpreter.go:653-683 | an exit of a conditional is one of either branch after a readable condition tested after the initializer, with the block ended |
| Worklist.BlockManager.IsDuplicate | capabilities/interpreter.go:696-704 | a work is a duplicate exactly if it was seen; otherwise it is now |
| Worklist.BlockManager.NextWork | capabilities/interpreter.go:706-710 | takes the work added last |
| Worklist.BlockManager.AddWork | capabilities/interpreter.go:712-718 | adds a work that was not seen before, and no other |
| Worklist.FollowExits | capabilities/interpreter.go:758-785 | each exit of a visited statement leads to a work that is now seen, or is an exit of the block |
| Worklist.VisitStmtList | capabilities/interpreter.go:738-791 | for any statement step that stays in a finite set of stores the worklist terminates; unless a reachable statement panics, it visits every reachable pair of store and statement exactly once, and no other, and returns the exits of these visits that leave the block |
| Worklist.ExitsExact | capabilities/interpreter.go:738-791 | an exit is returned exactly if some execution, along fall-through, goto and fallthrough edges, reaches a statement that leaves the block by it |
| Worklist.VisitExists | capabilities/interpreter.go:738-791 | where the stores are finitely many and no reachable statement panics, a sequence that visits every reachable work once exists |
| Exploration.CollectLabels | capabilities/interpreter.go:728-736 | the loop computes the labels the worklist jumps by |
| Exploration.LabelsExact | capabilities/interpreter.go:728-736 | these are every label of the list, with its last position |
| Exploration.GotoLeads | capabilities/interpreter.go:774-783 | a goto leads to the last statement with its label, and out of the list exactly if there is none |
| Exploration.ClausesLead | capabilities/interpreter.go:761-773 | the end of a clause and a plain break leave a switch normally, fallthrough leads to the next clause |
| Exploration.ExplorationIsExact | capabilities/interpreter.go:738-791 | run on statements of the language, what the worklist finds is exactly the exits of the statement list |
| Exploration.VisitBlockStmt | capabilities/interpreter.go:622-629 | the exits returned for a block are exactly those of the block; it panics only if a statement that is reached does |
| Ranges.CollectLoopExits | capabilities/interpreter.go:1055-1079 | splits the exits of a loop body, in order, into next iterations and exits out of the loop |
| Ranges.OutcomesExact | capabilities/interpreter.go:1033-1045 | the exits added after an iteration are those of the body, with normal ends, continue and break of this loop as its normal exits |
| Ranges.VisitRange | capabilities/interpreter.go:1002-1046 | the loop terminates and visits every iteration that can be reached exactly once; the container is released only if no iteration owned anything |
| Ranges.RangeIsExact | capabilities/interpreter.go:970-1046 | the exits it adds are exactly those of all executions of the loop |
| Ranges.ReleaseIsExact | capabilities/interpreter.go:971-1031 | the container is released exactly if in no execution an iteration owns what it is bound to |
| Ranges.ReleaseAll | capabilities/interpreter.go:88-101 | the loop gives back the borrowed permissions in order, or panics at the first that cannot be given back |
| Ranges.VisitRangeStmt | capabilities/interpreter.go:970-1050 | unless something panics, the exits returned for a range statement are exactly those of the statement; it panics only if some iteration or some release does |
| Bindings.IterationBinds | capabilities/interpreter.go:990-1030 | an iteration starts in a new frame with the value and the key as new variables: unowned integers and elements for an array or slice, keys and values for a map |
| Bindings.IterationSees | capabilities/interpreter.go:990-1030 | so these are their effective permissions and maxima, and every other variable is as it was |
| Bindings.IterationSeesValue | capabilities/interpreter.go:990-1030 | the same with the value alone |
| Bindings.ElementsUnowned | capabilities/interpreter.go:1010-1031 | after a loop over an array or slice the container may be released exactly if its elements are not owned |
| Execution.RunIsExact | capabilities/interpreter.go:574-1085 | for every statement, by induction on nesting: the visit with worklists within worklists, nothing being assumed of nested statements, returns exactly the exits of the statement |
| Execution.BlockRuns | capabilities/interpreter.go:622-629 | where a block stays in finitely many stores its visit has a result if and only if no statement that is reached panics |
| Execution.RangeRuns | capabilities/interpreter.go:970-1050 | where a loop stays in finitely many stores and no iteration panics its visit has a result, unless the container cannot be released in some exit |
| Scope.VisitKeepsScope | capabilities/interpreter.go:42-380 | evaluating any expression keeps the variables, frames and maxima in order, and effective permissions below their maxima |
| Scope.MergeWithin | capabilities/store.go:70-100 | merging branches of one scope keeps effective permissions below their maxima, names of functions included |
| Scope.ExitKeepsScope | capabilities/interpreter.go:622-1085 | every exit of every statement, whatever branch it carries, has the variables and maxima of the entry store in order, an exit of a block, conditional or loop exactly these; effective permissions below their maxima stay so, with and without the names of functions |
| Scope.ReleaseAfterRun | capabilities/interpreter.go:88-131 | in every store that a run of statements reaches from a limited one, evaluation that only borrows is undone by releasing |
| Scope.ListKeepsScope | capabilities/interpreter.go:738-791 | the same for every execution of a statement list |
| Scope.RangeKeepsScope | capabilities/interpreter.go:970-1050 | the same for every execution of a range loop |
| Scope.EndGrew | capabilities/store.go:59-66 | ending the frame a block began gives back exactly the variables outside it |
| Scanning.Next | permission/scanner.go:108-153 | the next token starts at or after the position; only the end of the input and an illegal character give a token without progress |
| Scanning.TokensStep | permission/scanner.go:108-153 | the tokens from a position are the next token and the tokens after it |
| Scanning.Scanner.ScanWhile | permission/scanner.go:215-225 | scans a maximal run of accepted characters |
| Scanning.Scanner.ScanInput | permission/scanner.go:116-153 | the next token of the input, or a panic at an illegal character |
| Scanning.Scanner.Scan | permission/scanner.go:108-153 | consumes the first token of the stream, pushed back or not |
| Scanning.Scanner.Unscan | permission/scanner.go:156-159 | pushing a token back puts it in front of the stream |
| Scanning.Scanner.Peek | permission/scanner.go:162-168 | returns the first token and leaves the stream as it was |
| Scanning.Scanner.Accept | permission/scanner.go:172-183 | consumes the first token exactly if it has one of the types, so any interleaving with Peek and Expect consumes the same tokens |
| Scanning.Scanner.Expect | permission/scanner.go:186-192 | consumes the first token if it has one of the types and panics otherwise |
| Parsing.Parser.Parse | permission/parser.go:28-45 | the parser accepts what the grammar accepts, with the same result; everything else is an error |
| Parsing.Parser.ParseInner | permission/parser.go:52-86 | reads what the grammar reads and leaves the same tokens |
| Parsing.Parser.ParseBasePermission | permission/parser.go:89-123 | the loop over letters computes the union of their rights; an unknown letter is an error |
| Parsing.Parser.ParseFunc | permission/parser.go:126-161 | receivers, name, parameters and results as the grammar has them |
| Parsing.Parser.ParseFieldList | permission/parser.go:165-178 | the loop reads the separated list of the grammar |
| Parsing.Parser.ParseSliceOrArray | permission/parser.go:181-192 | a slice, or an array if a number or underscore stands between the brackets |
| Parsing.Parser.ParseInterface | permission/parser.go:202-218 | only functions are accepted as methods |
| Parsing.Parser.ParseMap | permission/parser.go:221-231 | a map as the grammar has it |
| Parsing.Parser.ParseStruct | permission/parser.go:241-247 | a struct as the grammar has it |
| Parsing.Read | permission/parser.go:21-45 | an annotation is read as the grammar says of its tokens; the written form of any writable permission is read as that permission |
| Grammar.SpellingRights | permission/parser.go:89-117 | a base permission spelled letter by letter is read back |
| Grammar.RenderedIsParsed | permission/parser.go:52-247 | parsing inverts rendering, whatever tokens that cannot continue a permission follow, which are left over |
| Grammar.ParseInvertsRender | permission/parser.go:28-45 | a whole rendering is parsed to the permission |
| Grammar.WithoutBase | permission/parser.go:52-86 | a structure written without a base permission is owned and mutable |
| Grammar.BareResult | permission/parser.go:150-158 | a single result that starts with a word may stand without parentheses |
| Grammar.NumberedArray | permission/parser.go:181-192 | a number between the brackets makes an array |
| Text.TokensOfWritten | permission/scanner.go:108-249 | scanning a text of tokens separated by spaces gives these tokens |
| Text.ReadInvertsWrite | permission/parser.go:21-247 | scanning and parsing the text of a writable permission gives it back |
| Naming.TokensAreNamed | permission/scanner.go:141-153 | every word scanned from a text is a run of letters, perhaps with the NUL that ended it, and no keyword |
| Naming.DenotedIffNamed | permission/parser.go:28-247 | the permissions that some text denotes are exactly the writable ones whose functions are unnamed or named by such a word |
| Text.PrintedIsParsed | permission/permission.go:52-86 | scanning and parsing a base permission as printed gives it back exactly if it is not reading and writing without owning, which is printed and read like owning too |

## Left out

- `capabilities/check.go`, `capabilities/capabilities.go`, `lingolint/main.go`, `permission/type.go`: comment walking, the type checker's data and the mapping from Go types carry no algorithm beyond the memo tables proved here.
- Positions, log output, error texts and the parser's advice on shorter spellings; which of several errors is reported.
- The `uses` counters of the store: comparison of stores ignores them.
- Nil and empty slices are one value, except for the nil stores that `StoreSlices.MergeBranches` and `Stores.Replay` tell apart. The shortcut that returns the original object when the result is deeply equal is invisible up to bisimulation.
- `for`, `switch`, `select`, `go`, `defer` and declaration statements: the original adds the exit of a false loop condition without ending its block, and starts a default clause from a nil store. `Worklist.VisitStmtList` is generic in the step and covers the clauses of a switch as a list.
- Function literals, composite literals, type assertions, method values and method expressions.
- Definitions with an annotated permission: the original defines the variable only if the conversion to the annotation fails (lines 929-932 of `capabilities/interpreter.go`).
- Zero values for missing right-hand sides of a definition: the model treats different numbers of sides as the error.
- In the store and the interpreter, permissions are trees: the laws used there are proved for cyclic permissions only where a module for heaps says so.
- Letters, digits and spaces are abstract character classes; invalid encodings do not arise.
- AssignableMemo.IsAssignable: a source struct with more fields than its target, or a function with more receivers, parameters or results, panics in the original, as does an interface without a method asked for, and counts as not assignable on trees.
- MergeMemo.RunMerge: the returned error and the panic of a wildcard asked for its base permission are one failure.
- Interpreter.VisitExpr, Interpreter.MoveOrCopy: expressions are evaluated by recursive functions on values, not by methods, since assignability of trees is not computable as defined; the loop over borrowed variables is `Ranges.ReleaseAll`.
- Exploration.VisitBlockStmt, Ranges.VisitRangeStmt: the visit of one statement or iteration is a parameter, a function that enumerates its exits; `Execution.RunIsExact` discharges that assumption for every statement. The stores reached are taken to be finitely many, as the original needs to terminate.
- Scope.ExitKeepsScope: statements with short-circuit operators inside a block panic in the original, since merging stores with a frame marker does; such visits have no exit here.
- Borrowing.ReleaseAnyOrder: in stores whose effective permissions are limited by their maxima with the names of functions included; every operation keeps that but setting a maximum and merging stores of different maxima, and the visits of statements do neither.
