# Verified models of a small compiler and a RIP router

The repository holds, among other things, a compiler from MiniDecaf (a C-like language with ints, pointers of any
depth, multi-dimensional arrays, loops and recursion) to RV32IM assembly, and the control and data plane of an IPv4
router that speaks RIPv2. This project models both in Dafny and proves what they are for.

**The compiler.** `MainVisitor.java` walks a parse tree once. It checks types and value categories, allocates frame
slots, resolves scopes, numbers labels and appends a stack IR; `AsmGen.java` expands every IR line into RISC-V. Here

- `MainVisitor.Visitor` and `AsmGen.Generator` are classes with the fields of the originals; each method is proved
  against a function (`Typing`, `CodeGen`, `Program`, `AsmGen.Lines`);
- `Semantics` gives the source language a big-step meaning over 32-bit words with explicit fuel, `IrMachine` runs the IR
  on an operand stack that is separate from memory, `RiscV` runs the assembly, where the operand stack lies in memory
  below the frame;
- `Preservation` takes source to IR, `Lowering` takes IR to assembly, and `Program.CompilerCorrect` joins the two for
  whole accepted programs, recursion included; `RecursiveSum` works one recursive program through all of it;
- `Kinds` types expressions a second time, by counting stars, and holds the laws of pointers; `Acceptance` and
  `FileLevel` say which bodies and which files are accepted, by demands on each construct and each pair of declarations;
- `TextMachine` reads the labels of the assembly as text and carries the theorem over (`LabelText`, `References`);
  `LabelClash` is a program for which that fails;
- `FrameSafety`, `CellKeys` and `Variables` show that the variables of an accepted function are separate cells of its
  frame; `Labels`, `ScopeExit`, `ArrayLaws`, `TypeLaws` and `Literals` hold the laws about labels, slot counters, array
  addresses, types and integer literals.

**The router.** `Checksum` and `Forwarding` are the two checksum generators, the validator and the incremental update;
`NetBytes` the network-order masks; `RipCodec` the parser and the builder; `Lookup` the routing table with its queries;
`RipTable` response processing and its invariants; `Advertise` what is sent and that receivers read it back; `RouterMain`
the program as a class that owns its table, buffers and send history; `Exchange` one full exchange between two
neighbours; `Network` a static network of such routers in which any datagram may be lost, duplicated, delayed or
reordered; `Anomalies` inputs on which the router does not do what one might expect.

Properties that the code does not have are stated with the exact condition under which it does and an input on which it
does not:

- an array takes slots of its own if and only if it is smaller than 2 GiB (`ArrayTakesFreshSlots`, `OverflowingArray`),
  and its elements have addresses of their own if and only if it has at most 2^30 words (`ElementsDistinct`);
- the slot counter is restored by a statement if and only if its arrays leave no excess, and can even sink
  (`CounterRestored`, `CounterBelowEntry`);
- array types are equal if and only if their numbers of words agree modulo 2^30 (`EqualsIsSameModulo`,
  `EqualsConfusesWrapped`);
- labels and names resolve as meant if and only if no function or global is named like a defined function followed by
  `_epilogue` (`ResolvesUnlessClash`, `ClashLandsInside`);
- `validateIPChecksum` accepts a header that passes the RFC 1071 test up to a factor of 257 (`ValidateAndRfc`,
  `AcceptedButInvalid`);
- a route is found if and only if it has no host bits set and is the longest that covers the address (`QueryIsBest`,
  `HostBitsStored`);
- a direct route is kept if and only if no response from address zero is for its prefix (`DirectKeptIff`,
  `ZeroSourceErases`);
- an update leaves a route on the arrival interface if and only if it was new or there already
  (`InterfaceFollowsOnlyIfNew`), so that a network can stay for ever in a state where a next hop is not on the link of
  its route's interface (`StaleInterface`, `StaleForever`).

Where code and documentation differ the code is followed: `&&` and `||` evaluate both operands, assignment evaluates its
right side first, arguments are evaluated from the last to the first, a cast keeps the value category of its operand, and
the next-hop field of a received RIP entry is ignored in favour of the sender's address. RFC 1071, RFC 1624 (Eqn. 3),
RFC 2453 (sections 3.9 and 4) and the Division Operations section of the RISC-V M extension are the standards referred
to. Fields in network order are 32-bit little-endian words, as the original holds them.

## Model

| member | source | states |
|---|---|---|
| Program.CompilerCorrect | codes/minidecaf/src/main/java/minidecaf/AsmGen.java:138-198 | for every accepted program, defined function and arguments: if the source defines the call's result, the assembly entered at the function's label returns it in a0 with sp, fp and ra restored and variable memory as the source says |
| Program.FuelIrrelevant | codes/minidecaf/src/main/java/minidecaf/MainVisitor.java:759-781 | the meaning of a call does not depend on the fuel of the semantics, so the result above is unique |
| Program.CompiledIsLinked | codes/minidecaf/src/main/java/minidecaf/MainVisitor.java:140-183 | in every accepted program each label is defined once, every branch targets a label of its own function, each function's code is in place and main exists |
| RecursiveSum.CompiledSum | codes/minidecaf/src/main/java/minidecaf/AsmGen.java:138-198 | a worked case of the theorem: the assembly of a recursive sum, called with any n the stack has room for, returns n (n + 1) / 2 modulo 2^32 |
| RecursiveSum.SumReturns | codes/minidecaf/src/main/java/minidecaf/MainVisitor.java:759-781 | the source meaning of that recursion, which leaves all variables alone |
| RecursiveSum.Accepted | codes/minidecaf/src/main/java/minidecaf/MainVisitor.java:140-183 | the program is accepted |
| Preservation.EvalSim | codes/minidecaf/src/main/java/minidecaf/MainVisitor.java:453-854 | the IR of any accepted expression pushes exactly the word of its meaning (an address for an l-value or an array, else a value), with its effects on memory, and leaves the operand stack below untouched |
| Preservation.RvalueSim | codes/minidecaf/src/main/java/minidecaf/MainVisitor.java:919-925 | the same where a value is needed: an l-value is loaded, a value or an array base is left as it is |
| Preservation.ArgsSim | codes/minidecaf/src/main/java/minidecaf/MainVisitor.java:766-772 | arguments are evaluated from the last to the first and end up with the first on top |
| Preservation.BinaryAgrees | codes/minidecaf/src/main/java/minidecaf/MainVisitor.java:499-694 | the IR operator picked from the operand types computes the source meaning on 32-bit words, pointer scaling included |
| Semantics.QuotientAndRemainder | codes/minidecaf/src/main/java/minidecaf/MainVisitor.java:667-694 | that meaning of / and %: they make up the dividend, the remainder is smaller than the divisor and has the sign of the dividend; only -2147483648 / -1 overflows |
| Preservation.ElementAgrees | codes/minidecaf/src/main/java/minidecaf/MainVisitor.java:784-812 | push, mul, addpi reaches the address of an array element even when the array's size wrapped |
| Preservation.ExecSim | codes/minidecaf/src/main/java/minidecaf/MainVisitor.java:210-396 | the IR of any accepted statement, from an empty operand stack, ends past its code, at the right loop label or at a ret with exactly the result on the stack, as the source statement ends |
| Preservation.LoopSim | codes/minidecaf/src/main/java/minidecaf/MainVisitor.java:270-355 | for and while, with any number of rounds, break and continue |
| Preservation.DoSim | codes/minidecaf/src/main/java/minidecaf/MainVisitor.java:359-380 | do-while, whose test comes after the continue label |
| Preservation.BodySim | codes/minidecaf/src/main/java/minidecaf/MainVisitor.java:162-183 | the body of a defined invocation runs until its frame is left with the source's result and memory |
| Lowering.SimStep | codes/minidecaf/src/main/java/minidecaf/AsmGen.java:46-126 | every IR step, with the operand stack held in memory below the frame, is a run of the RISC-V machine that ends in the matching state |
| Lowering.SimReaches | codes/minidecaf/src/main/java/minidecaf/AsmGen.java:18-130 | so is every run of the IR machine |
| Lowering.SimBinary | codes/minidecaf/src/main/java/minidecaf/AsmGen.java:236-292 | arithmetic and comparison lines under 32-bit wrap-around |
| Lowering.SimCall | codes/minidecaf/src/main/java/minidecaf/AsmGen.java:138-143 | a call: jal, prologue, arguments left below the return value |
| Lowering.SimReturn | codes/minidecaf/src/main/java/minidecaf/AsmGen.java:156-214 | ret and epilogue: result to a0, saved registers back, arguments popped, result pushed in the caller |
| Lowering.LabelPosition | codes/minidecaf/src/main/java/minidecaf/AsmGen.java:200-203 | every label of a well-formed program is found where its line puts it |
| Blocks.DivisionAgrees | codes/minidecaf/src/main/java/minidecaf/AsmGen.java:267-273 | div and rem agree with truncating division except by zero, the overflow case included |
| AsmGen.Generator.GenAsm | codes/minidecaf/src/main/java/minidecaf/AsmGen.java:18-130 | the generator's loop appends exactly the expansion of every line for the function it belongs to |
| AsmGen.Generator.DoLine | codes/minidecaf/src/main/java/minidecaf/AsmGen.java:50-126 | one line's expansion |
| AsmGen.Generator.DoFunc | codes/minidecaf/src/main/java/minidecaf/AsmGen.java:186-198 | label and prologue |
| AsmGen.Generator.DoEpilogue | codes/minidecaf/src/main/java/minidecaf/AsmGen.java:156-166 | implicit return value, epilogue label, restored registers, jump back |
| MainVisitor.Visitor.VisitProgram | codes/minidecaf/src/main/java/minidecaf/MainVisitor.java:45-53 | accepts exactly the programs that Program.Compile accepts and leaves its IR, frame sizes and counters |
| FileLevel.ProgramAccepted | codes/minidecaf/src/main/java/minidecaf/MainVisitor.java:45-183 | a program is compiled if and only if it defines main, any two declarations of one name go together (both globals of equal type, or both functions with the same stars and not both definitions), dimensions are from 1 to 2147483647, parameter names are distinct, and every construct in every body meets its demand, given what is declared by then |
| FileLevel.FileAccepted | codes/minidecaf/src/main/java/minidecaf/MainVisitor.java:57-183 | the same for any sequence of file-level declarations, whose globals, signatures and definitions are then exactly what the tables hold |
| FileLevel.Redeclaration | codes/minidecaf/src/main/java/minidecaf/MainVisitor.java:116-132 | after an accepted file a function may be declared again if and only if the stars of the result, the number of parameters and the stars of each parameter are the same |
| FileLevel.SignaturesAgree | codes/minidecaf/src/main/java/minidecaf/Func.java:17-30 | two signatures count as equal if and only if the stars of the result, the number of parameters and the stars of each parameter are the same |
| FileLevel.CallCounts | codes/minidecaf/src/main/java/minidecaf/MainVisitor.java:759-781 | in every accepted program each call instruction to a defined function passes as many arguments as that has parameters |
| FileLevel.CallsMatch | codes/minidecaf/src/main/java/minidecaf/MainVisitor.java:759-781 | inside any defined function a call to a function declared by then is accepted if and only if it has one argument for each parameter of the definition, each a word with the stars declared for it, and it has the type of the definition's result |
| FileLevel.ArgumentsPassed | codes/minidecaf/src/main/java/minidecaf/MainVisitor.java:766-772 | so no accepted call is undefined for its number of arguments |
| Acceptance.ItemsAccepted | codes/minidecaf/src/main/java/minidecaf/MainVisitor.java:186-444 | a body is accepted if and only if every statement and declaration inside, with the names and loops around it, meets its demand: results with the declared stars, int conditions, jumps inside loops, names new in their scope, initialisers with the declared stars, dimensions from 1 to 2147483647 |
| Acceptance.StmtAccepted | codes/minidecaf/src/main/java/minidecaf/MainVisitor.java:210-396 | the same for a single statement |
| MainVisitor.Visitor.VisitFuncDef | codes/minidecaf/src/main/java/minidecaf/MainVisitor.java:140-183 | checks redefinition and signature, visits the body in a fresh frame and records the frame size |
| MainVisitor.Visitor.VisitFuncDecl | codes/minidecaf/src/main/java/minidecaf/MainVisitor.java:116-136 | a repeated declaration must agree |
| MainVisitor.Visitor.VisitDeclGlArray | codes/minidecaf/src/main/java/minidecaf/MainVisitor.java:92-112 | global arrays |
| MainVisitor.Visitor.VisitStmt | codes/minidecaf/src/main/java/minidecaf/MainVisitor.java:210-396 | accepts exactly the well-typed statements, appends their code and updates slots, labels and loops as specified; a break or continue outside a loop is rejected |
| MainVisitor.Visitor.VisitIf | codes/minidecaf/src/main/java/minidecaf/MainVisitor.java:235-260 | the label number is taken after the condition was visited |
| MainVisitor.Visitor.VisitFor | codes/minidecaf/src/main/java/minidecaf/MainVisitor.java:270-330 | for, in a scope of its own |
| MainVisitor.Visitor.VisitDo | codes/minidecaf/src/main/java/minidecaf/MainVisitor.java:359-380 | do-while |
| MainVisitor.Visitor.VisitDecl | codes/minidecaf/src/main/java/minidecaf/MainVisitor.java:399-444 | local scalars and arrays: duplicate names and bad dimensions rejected, slots reserved, initialiser stored |
| MainVisitor.Visitor.VisitExpr | codes/minidecaf/src/main/java/minidecaf/MainVisitor.java:453-854 | returns the type and appends the code of exactly the well-typed expressions |
| Kinds.TypesCountStars | codes/minidecaf/src/main/java/minidecaf/MainVisitor.java:453-854 | an expression is accepted if and only if its stars add up (a sum adds those of its operands, of which one is an int; a difference subtracts; comparison, assignment, branches and arguments need equal ones), and its type has the stars so counted and is a place exactly as counted |
| Kinds.PointerTypes | codes/minidecaf/src/main/java/minidecaf/MainVisitor.java:599-660 | for a pointer p of any depth and any i: *(p + i) and p[i] are accepted together with the same type; for an int i, p + i, i + p and p - i have the type of p as a value and (p + i) - p is int; for any other i both sums are rejected |
| Kinds.SubscriptIsDeref | codes/minidecaf/src/main/java/minidecaf/MainVisitor.java:728-812 | p[i] and *(p + i) have the same meaning in every state, as addresses and as values |
| Kinds.AddressesCancel | codes/minidecaf/src/main/java/minidecaf/MainVisitor.java:704-743 | & is accepted exactly on l-values and * exactly on pointers; *&e is e and &*p is the value of p, in type and meaning |
| Kinds.SteppedInitialiser | codes/minidecaf/src/main/java/minidecaf/MainVisitor.java:399-421 | a declaration initialised with p + i is accepted if and only if its name is new in the scope and it has the depth of p |
| Kinds.InitialiserStars | codes/minidecaf/src/main/java/minidecaf/MainVisitor.java:399-421 | a declaration with any initialiser is accepted if and only if its name is new and the initialiser, which already sees the new variable, has the declared stars |
| Kinds.DeclaredNames | codes/minidecaf/src/main/java/minidecaf/MainVisitor.java:399-444 | after a declaration its name stands for a place with the declared stars or for the declared array, every other name for what it stood for |
| Kinds.ParameterNames | codes/minidecaf/src/main/java/minidecaf/MainVisitor.java:166-175 | at the start of a body exactly the parameters stand for places with their declared stars, other names for globals |
| MainVisitor.Visitor.VisitCall | codes/minidecaf/src/main/java/minidecaf/MainVisitor.java:759-781 | argument count and types checked against the declared signature |
| MainVisitor.Visitor.VisitSubscript | codes/minidecaf/src/main/java/minidecaf/MainVisitor.java:784-812 | array and pointer subscripts |
| MainVisitor.Visitor.VisitTernary | codes/minidecaf/src/main/java/minidecaf/MainVisitor.java:475-496 | the branches must have equal types |
| MainVisitor.Visitor.VisitAssign | codes/minidecaf/src/main/java/minidecaf/MainVisitor.java:453-472 | right side first, then the address of an l-value |
| MainVisitor.Visitor.LookupSymbol | codes/minidecaf/src/main/java/minidecaf/MainVisitor.java:873-880 | the innermost scope that has the name decides |
| MainVisitor.Visitor.EndScope | codes/minidecaf/src/main/java/minidecaf/MainVisitor.java:882-885 | closing a scope gives back one slot per symbol |
| Driver.CompileProgram | codes/minidecaf/src/main/java/minidecaf/Main.java:25-33 | visitor and generator together produce the assembly that Program.CompilerCorrect is about |
| LabelText.SymbolsDistinctUnlessClash | codes/minidecaf/src/main/java/minidecaf/AsmGen.java:159-213 | as text, the labels of an accepted program differ from each other, from its globals and from the names of its other functions, if and only if no declared function or global is named like a defined function followed by _epilogue |
| TextMachine.ResolvesUnlessClash | codes/minidecaf/src/main/java/minidecaf/AsmGen.java:138-214 | under exactly that condition the first definition of the text of every function name and label is the one meant, a function that is only declared has none, and no global has one |
| TextMachine.TextStepAgrees | codes/minidecaf/src/main/java/minidecaf/AsmGen.java:138-214 | without a clash the assembly as text steps like the one with structured labels from every machine state, jumps, branches, calls and la included |
| TextMachine.CompilerCorrectAsText | codes/minidecaf/src/main/java/minidecaf/AsmGen.java:138-198 | the compiler theorem for the assembly as text |
| LabelClash.ClashLandsInside | codes/minidecaf/src/main/java/minidecaf/AsmGen.java:138-143 | an accepted program whose call to the declared function f_epilogue lands, as text, on the epilogue label of f |
| References.CompiledRefs | codes/minidecaf/src/main/java/minidecaf/MainVisitor.java:759-854 | every call of an accepted program names a declared function, with its number of arguments, and every global address a declared global |
| LabelText.LocalTextInjective | codes/minidecaf/src/main/java/minidecaf/MainVisitor.java:241-276 | labels of different kinds or numbers have different text |
| Labels.StmtTidy | codes/minidecaf/src/main/java/minidecaf/MainVisitor.java:235-396 | a statement defines only labels of the numbers it takes, each at most once, and uses no others but those of the enclosing loop |
| FrameSafety.FrameSafe | codes/minidecaf/src/main/java/minidecaf/MainVisitor.java:868-898 | after any sequence of scope openings, closings and declarations whose arrays fit: cells of different variables are distinct, inside the largest frame size reached by then or later, off the saved ra and fp |
| Variables.CellsInFrame | codes/minidecaf/src/main/java/minidecaf/MainVisitor.java:162-195 | at every point inside an accepted body whose arrays fit, every word of every variable in scope is a cell of the frame entered with the recorded size, off the saved ra and fp, and words of different variables are different cells |
| Variables.AssignVariable | codes/minidecaf/src/main/java/minidecaf/MainVisitor.java:453-472 | assigning a visible scalar at any such point is defined whenever its right side is, stores the value in its cell, reads back, and changes no cell of any other variable |
| Variables.DeclareVariable | codes/minidecaf/src/main/java/minidecaf/MainVisitor.java:399-419 | so does an initialised declaration |
| Variables.ParametersHoldArguments | codes/minidecaf/src/main/java/minidecaf/MainVisitor.java:166-171 | a call starts with its frame in place and every parameter holding its argument |
| Variables.StaysActive | codes/minidecaf/src/main/java/minidecaf/MainVisitor.java:210-396 | statements keep the frame in place |
| Variables.CompiledIsSound | codes/minidecaf/src/main/java/minidecaf/MainVisitor.java:140-183 | every function of an accepted program is one to which these laws apply once its arrays fit |
| CellKeys.InvokeKeys | codes/minidecaf/src/main/java/minidecaf/MainVisitor.java:759-781 | a call leaves exactly the cells that existed before it |
| Variables.ThroughItems | codes/minidecaf/src/main/java/minidecaf/MainVisitor.java:162-206 | every environment inside an accepted body is reached by scope operations, and others lead from it to the end of the body |
| FrameSafety.ArrayTakesFreshSlots | codes/minidecaf/src/main/java/minidecaf/MainVisitor.java:424-444 | an array's words are fresh slots if and only if its size in bytes does not wrap a Java int |
| FrameSafety.OverflowingArray | codes/minidecaf/src/main/java/minidecaf/Type.java:198-203 | 2^30 ints reserve nothing, and element 0 is the saved frame pointer |
| ScopeExit.CounterAfter | codes/minidecaf/src/main/java/minidecaf/MainVisitor.java:186-195 | after any accepted statement the slot counter has grown by exactly the array words not given back |
| ScopeExit.CounterRestored | codes/minidecaf/src/main/java/minidecaf/MainVisitor.java:882-898 | after any accepted statement the counter is not below its entry value if and only if the excess is not negative, and restored if and only if it is zero |
| ScopeExit.CounterBelowEntry | codes/minidecaf/src/main/java/minidecaf/MainVisitor.java:882-898 | the accepted block { int a[805306368]; } leaves the counter 2^28 + 1 lower, so that the next variable lies outside the frame |
| ScopeExit.RestoredUnlessArrays | codes/minidecaf/src/main/java/minidecaf/MainVisitor.java:882-898 | for statements whose arrays fit the excess is never negative, and it is zero if and only if no array of more than one word was declared |
| ArrayLaws.RowMajor | codes/minidecaf/src/main/java/minidecaf/MainVisitor.java:784-812 | for any array type, wrapped sizes included, and any indices, a chain of subscripts yields base plus 4 times the row-major index modulo 2^32 |
| ArrayLaws.DimensionsInOrder | codes/minidecaf/src/main/java/minidecaf/MainVisitor.java:424-444 | after k subscripts a declared array has its k-th dimension, after all of them the declared stars |
| ArrayLaws.FlatInRange | codes/minidecaf/src/main/java/minidecaf/Type.java:198-203 | in-range indices of any array type stay within its words |
| ArrayLaws.FlatInjective | codes/minidecaf/src/main/java/minidecaf/MainVisitor.java:424-444 | different elements of any array type have different positions |
| ArrayLaws.ElementsDistinct | codes/minidecaf/src/main/java/minidecaf/MainVisitor.java:424-444 | the elements of an array with positive dimensions have different addresses if and only if it has at most 2^30 words |
| ArrayLaws.SharedAddress | codes/minidecaf/src/main/java/minidecaf/MainVisitor.java:424-444 | beyond that elements 0 and 2^30 share an address |
| ArrayLaws.FlatOnto | codes/minidecaf/src/main/java/minidecaf/MainVisitor.java:424-444 | every word of an array with positive dimensions, as declared ones have, is an element |
| ArrayLaws.IndexedEval | codes/minidecaf/src/main/java/minidecaf/MainVisitor.java:784-812 | a subscripted array evaluates its base and its indices from left to right, each in the memory the one before left, and gives that address and the remaining element type |
| ArrayLaws.LocalElement | codes/minidecaf/src/main/java/minidecaf/MainVisitor.java:784-812 | for a local array that address is the cell which the frame layout gives to the element |
| ArrayLaws.PointerRoundTrip | codes/minidecaf/src/main/java/minidecaf/AsmGen.java:274-285 | (p + i) - p equals i if and only if -2^29 <= i < 2^29 |
| TypeLaws.LvaluesArePlaces | codes/minidecaf/src/main/java/minidecaf/MainVisitor.java:728-751 | an accepted expression is an l-value exactly when it is a variable, a subscript, a dereference or a cast of one of these, and neither it nor what is cast is an array |
| TypeLaws.ProgramPlaced | codes/minidecaf/src/main/java/minidecaf/MainVisitor.java:57-183 | the globals and functions of every accepted program have the types that this rests on |
| TypeLaws.EqualsIsSameModulo | codes/minidecaf/src/main/java/minidecaf/Type.java:205-209 | for all types: equal exactly when they agree up to value categories and, at each array level, in their number of words modulo 2^30 |
| TypeLaws.EqualsIsSameShape | codes/minidecaf/src/main/java/minidecaf/Type.java:205-209 | so types whose sizes do not wrap are equal exactly when their dimensions agree |
| TypeLaws.EqualsConfusesWrapped | codes/minidecaf/src/main/java/minidecaf/Type.java:198-209 | int[1] and int[1073741825] are equal types |
| TypeLaws.EqualsIsEquivalence | codes/minidecaf/src/main/java/minidecaf/Type.java:106-209 | equality is an equivalence even so |
| TypeLaws.DerefOfRef | codes/minidecaf/src/main/java/minidecaf/Type.java:126-190 | ref is defined exactly on l-values, and ref and deref undo each other |
| Literals.CompareOrders | codes/minidecaf/src/main/java/minidecaf/MainVisitor.java:927-937 | compare orders digit strings of any length without leading zeros as the numbers they denote |
| Literals.RejectedWhenTooLarge | codes/minidecaf/src/main/java/minidecaf/MainVisitor.java:815-825 | a literal is rejected exactly when it exceeds 2147483647 |
| Checksum.ValidateIpChecksum | codes/router/Homework/checksum/checksum.cpp:10-23 | the loops terminate and return true exactly when the header length is non-zero and the byte sum is a multiple of 255 |
| Checksum.ValidateAndRfc | codes/router/Homework/checksum/checksum.cpp:10-23 | a header passes the RFC 1071 test if and only if it is accepted and its word sum is a multiple of 257 |
| Checksum.AcceptedButInvalid | codes/router/Homework/checksum/checksum.cpp:10-23 | an accepted header that fails the RFC 1071 test |
| Checksum.CalChecksum | codes/router/Homework/router/main.cpp:487-500 | the complement of the folded sum of little-endian words |
| Checksum.CalIpChksum | codes/router/Homework/router/main.cpp:502-506 | stores the complement of the big-endian sum in network order, whatever the field held |
| Checksum.UpdateIpChecksum | codes/router/Datagen/src/lib.rs:27-47 | stores the same two bytes as CalIpChksum |
| Checksum.FoldsSwap | codes/router/Homework/router/main.cpp:487-506 | folding little-endian words is the byte swap of folding big-endian words |
| Checksum.FoldIsResidue | codes/router/Homework/router/main.cpp:495-498 | folding is reduction modulo 65535 that keeps 65535 apart from 0 |
| Checksum.ValidIffRecomputed | codes/router/Homework/router/main.cpp:502-506 | a header is RFC-valid if and only if its checksum field is congruent to the recomputed one |
| Forwarding.Forward | codes/router/Homework/forwarding/forwarding.cpp:17-41 | an invalid packet is left alone, else only TTL and checksum change, by RFC 1624 Eqn. 3 |
| Forwarding.ForwardIsRecomputation | codes/router/Homework/forwarding/forwarding.cpp:17-41 | the update stores the recomputed checksum if and only if the header was RFC-valid, old checksums 0x0000 and 0xFFFF included |
| Forwarding.ForwardKeepsValidity | codes/router/Homework/forwarding/forwarding.cpp:17-41 | both validity tests give the same answer before and after |
| Forwarding.ChainOfRouters | codes/router/Homework/router/main.cpp:426-455 | along any chain a valid packet is sent on at most TTL - 1 times and always equals the original with the lower TTL and a recomputed checksum |
| Forwarding.HopsBounded | codes/router/Homework/router/main.cpp:426-434 | the bound on hops for every packet that reaches past the fields that change, whatever the length of its header |
| NetBytes.MaskTable | codes/router/Homework/lookup/router.h:27-32 | the table holds the masks of 0 to 32 leading ones in network byte order |
| NetBytes.MaskPopcount | codes/router/Homework/router/main.cpp:283-303 | counting the bits of a table mask gives the prefix length back |
| NetBytes.ContiguousIffTable | codes/router/Homework/lookup/router.h:27-32 | the masks of leading ones, which the parser accepts, are exactly the 33 masks of the table |
| NetBytes.MaskedIffPrefix | codes/router/Homework/lookup/lookup.cpp:39-41 | masked addresses are equal if and only if their first len network-order bits are |
| RipCodec.Disassemble | codes/router/Homework/protocol/protocol.cpp:34-175 | returns true and fills the output exactly as Parse says |
| RipCodec.Assemble | codes/router/Homework/protocol/protocol.cpp:188-213 | writes the encoding of the message into the buffer and nothing else |
| RipCodec.MaskOk | codes/router/Homework/protocol/protocol.cpp:157-166 | the shifting loop terminates and accepts exactly the masks of leading ones in network order |
| RipCodec.EntryInverse | codes/router/Homework/protocol/protocol.cpp:103-144 | twenty bytes parse to an entry if and only if they are its encoding |
| RipCodec.WireFormat | codes/router/Homework/protocol/protocol.cpp:188-213 | the layout of section 4 of RFC 2453: command, version 2, zeros, then per entry family, zero tag, address, mask, next hop and metric, most significant byte first |
| RipCodec.ParseInvertsEncode | codes/router/Homework/protocol/protocol.cpp:34-213 | a packet parses to a message if and only if the message is well-formed and the packet carries exactly its encoding |
| Lookup.RoutingTable.Update | codes/router/Homework/lookup/lookup.cpp:17-28 | insert stores the entry under its address and length, delete removes what is there, and every other prefix is as before |
| Lookup.UpdatesReflect | codes/router/Homework/lookup/lookup.cpp:17-28 | after any run of inserts and deletes a prefix is present if and only if the last operation on it was an insert, and it then holds that entry |
| Lookup.RoutingTable.PrefixQuery | codes/router/Homework/lookup/lookup.cpp:37-63 | the loop returns next hop and interface of the first hit from length 32 down, else false and zeros |
| Lookup.QueryIsBest | codes/router/Homework/lookup/lookup.cpp:49-62 | for every keyed table the answer is the longest route with a legal prefix that covers the address, and there is none exactly when no such route exists |
| Lookup.HostBitsAreDead | codes/router/Homework/lookup/router.h:5-9 | a route with host bits set is never the answer |
| Anomalies.HostBitsStored | codes/router/Homework/router/main.cpp:298-360 | a response for 10.0.0.1/24 is accepted and stored by any router, and answers no query |
| Lookup.QueryRefinesScan | codes/router/Homework/lookup/lookup.cpp:17-63 | after any run of inserts and deletes of legal prefixes a query answers what a scan, in any order, of the entries whose last operation was an insert answers |
| RipTable.EntryRelaxes | codes/router/Homework/router/main.cpp:298-368 | an entry is one distance-vector relaxation with 16 as infinity: the next hop is always believed, others only when nearer |
| RipTable.OnlyNexthopWorsens | codes/router/Homework/router/main.cpp:320-338 | another neighbour's entry never erases a route and changes it exactly when it offers less |
| RipTable.InterfaceFollowsOnlyIfNew | codes/router/Homework/router/main.cpp:330-360 | an accepted entry leaves the route on the arrival interface if and only if the prefix was new or already there |
| RipTable.DirectSurvives | codes/router/Homework/router/main.cpp:314-338 | a direct route survives an entry if and only if the entry is not for its prefix from address zero |
| Anomalies.ZeroSourceErases | codes/router/Homework/router/main.cpp:314-338 | a received frame from address zero that erases any given direct route |
| RipTable.EntryKeepsTable | codes/router/Homework/router/main.cpp:302-360 | keys match entries, lengths stay at most 32 and metrics 1 to 15 |
| RipTable.RunsKeepTable | codes/router/Homework/router/main.cpp:108-368 | so they do over every run of received frames from the initial table; without zero source addresses the direct routes stay as set up |
| RipTable.DirectKeptIff | codes/router/Homework/router/main.cpp:314-338 | over any run, an initial route is unchanged at the end if and only if no response from address zero carried an entry for its prefix |
| RipTable.DirectDelivery | codes/router/Homework/router/main.cpp:108-118 | whatever was received, a destination that shares its first three bytes with the address of one interface only leaves there for itself, over the address with its last byte cleared, exactly as long as no longer covering prefix has been learned |
| RipTable.DirectIsCanonical | codes/router/Homework/router/main.cpp:108-118 | masking with 0x00FFFFFF makes a legal /24 prefix |
| Advertise.AdvertIsTable | codes/router/Homework/router/main.cpp:560-568 | an advertisement lists every route once, with its length countable from the mask and metric 16 exactly on the route's own interface |
| Advertise.PacketIsRead | codes/router/Homework/router/main.cpp:542-551 | any receiver accepts the checksum of a sent datagram, takes it for its own and parses the message that went in |
| Advertise.DatagramFields | codes/router/Homework/router/main.cpp:516-547 | version 4, no options, zero type of service, identification and fragment fields, TTL 1, UDP, ports 520, 224.0.0.9, both length fields, no UDP checksum, then the message |
| Advertise.AdvertisingIsComplete | codes/router/Homework/router/main.cpp:514-578 | for any table size, the datagrams on an interface hold at most 25 entries and parse, in order, to the whole advertisement |
| Advertise.EachInterface | codes/router/Homework/router/main.cpp:553-577 | of the interfaces meant, all or the given one, each gets exactly its responses in order, and no other gets anything |
| Advertise.PeriodicRound | codes/router/Homework/router/main.cpp:163-176 | one periodic round puts on every interface exactly the responses for it, in order, and nothing else |
| Advertise.PeriodicRoundIsComplete | codes/router/Homework/router/main.cpp:514-578 | so after one periodic round a receiver on any interface has read the whole table |
| Advertise.ConcatBatches | codes/router/Homework/router/main.cpp:560-576 | splitting into batches loses and repeats nothing and makes as few as 25 entries each allow |
| RouterMain.Router.constructor | codes/router/Homework/router/main.cpp:108-154 | direct routes for all interfaces, then a request on each |
| RouterMain.Router.SendRipResp | codes/router/Homework/router/main.cpp:514-578 | sends exactly the advertisement for all interfaces or the given one and leaves the table alone |
| RouterMain.Router.SendOn | codes/router/Homework/router/main.cpp:558-576 | the walk in key order with its counter sends exactly the batches |
| RouterMain.Router.Send | codes/router/Homework/router/main.cpp:542-551 | lengths, checksum and message in a buffer with old contents give exactly the datagram |
| RouterMain.Router.HandleOne | codes/router/Homework/router/main.cpp:301-367 | one entry updates the table as specified |
| RouterMain.Router.HandleResponse | codes/router/Homework/router/main.cpp:298-368 | all entries in order |
| RouterMain.Router.Receive | codes/router/Homework/router/main.cpp:211-482 | the new table and everything sent but ICMP replies, for any frame: response, request, forwarded packet or nothing |
| RouterMain.CountBits | codes/router/Homework/router/main.cpp:283-291 | the loop counts the bits of a mask |
| RouterMain.RequestIsAnswered | codes/router/Homework/router/main.cpp:255-277 | the request a router sends at start is answered by any other with its whole table on the arrival interface |
| RouterMain.StartIsAnswered | codes/router/Homework/router/main.cpp:120-154 | at start one request leaves on every interface from its address, and any router answers it with its whole table where it arrived |
| RouterMain.HeardHere | codes/router/Homework/router/main.cpp:231-298 | a valid packet to 224.0.0.9 or to the address of any interface, wherever it arrived, is handled by its message alone: a response relaxes the table entry by entry, a whole-table request is answered on the arrival interface, nothing else is answered or changes anything, and the packet is never sent on whatever its TTL |
| RouterMain.OwnAddressAsMulticast | codes/router/Homework/router/main.cpp:231-239 | a packet to any own address has the effect and the answer that the same message from the same source has by multicast |
| RouterMain.InvalidIsDropped | codes/router/Homework/router/main.cpp:211-224 | a packet whose checksum is refused changes and sends nothing |
| RouterMain.ForwardedByLongestPrefix | codes/router/Homework/router/main.cpp:426-457 | a valid packet for elsewhere leaves along the longest matching prefix, with TTL one less and the recomputed checksum, exactly when TTL, route and address resolution allow |
| Exchange.FullExchange | codes/router/Homework/router/main.cpp:298-577 | after hearing a neighbour's whole table, of any size, every prefix's distance is relaxed once with what the neighbour offers, 16 for routes through the shared interface, and no other distance changes |
| Network.MetricsHaveWitnesses | codes/router/Homework/router/main.cpp:298-577 | in every reachable state of any static network with lost, repeated or reordered datagrams, every stored metric is the length of an actual walk to a router attached to the prefix, at most 15, with a neighbour as next hop, and the direct routes are as set up |
| Network.FlightsHaveWitnesses | codes/router/Homework/router/main.cpp:553-577 | every finite metric in flight is the length of a walk from its sender, and every datagram parses wherever it arrives |
| Network.DeliveryIsEnabled | codes/router/Homework/protocol/protocol.cpp:95-172 | in such a network the parser's room for 25 entries always suffices |
| Network.QueriesAreRight | codes/router/Homework/lookup/lookup.cpp:37-63 | in every reachable state a query is a longest-match scan of the whole table |
| Network.SettledForever | codes/router/Homework/router/main.cpp:320-338 | where addresses are distinct, a route at metric 2 over a neighbour attached to a prefix that the router is not on is never changed again by any event, its interface included |
| Anomalies.StaleInterface | codes/router/Homework/router/main.cpp:330-360 | a reachable state of three routers in which a route has the right next hop and metric but an interface whose link the next hop is not on |
| Anomalies.StaleForever | codes/router/Homework/router/main.cpp:330-360 | no continuation of that run ever corrects it |

## Left out

- Lexing and parsing of MiniDecaf: programs are trees; productions that only pass a child through are collapsed. The
  grammar is not part of this model.
- The IR and the assembly as text, `Scanner` splitting and error messages: both are sequences of instructions, and a
  rejected program is a failure result. Of the text only the labels are modelled.
- Global initialisers: each global is declared without one; a later declaration that drops an earlier initialiser is not
  modelled, nor are the .comm and .data lines.
- Program.CompilerCorrect: does not model the 12-bit range of addi and load immediates, which the text leaves unbounded;
  counters are unbounded too; code addresses count instructions and memory is made of aligned words; the source gives no
  meaning to division by zero, reads of uninitialised or foreign cells, misaligned accesses and an exhausted stack; and
  the statement takes frames at their compiled addresses, so that programs may compute with addresses.
- Semantics of declared variables: a slot keeps what an earlier variable left there until it is initialised, as the
  compiled code does.
- The class `NoType` and the debugging output of both programs.
- Hardware access, clocks, address resolution and group membership of the router: frames received and a resolution
  predicate are inputs, datagrams handed over are the output; destination hardware addresses are not modelled.
- ICMP replies: a packet that would cause one causes nothing here; the checksum over an odd number of bytes occurs only
  there.
- RipCodec.Disassemble: takes as preconditions that the buffer reaches past the RIP header and that an accepted header
  announces at most 25 entries, because the original checks neither.
- RouterMain.Router.Receive: does not send the ICMP replies of the original; it takes as a precondition that a whole IP
  header was received, as the original relies on.
- RouterMain.Router.SendRipResp: the static lambda that keeps the first call's locals is modelled as one created on each
  call.
- Network.MetricsHaveWitnesses: says nothing about convergence.
- Verilog, the supervisor kernel, the signal-processing scripts, the message board and the grading scripts.
