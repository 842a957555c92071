# Advent of Code 2015, days 1–3 and 5–7, in Dafny

This project models the puzzle solutions of the repository and proves what
each of them computes. Day 4 is not modelled.

- **Day 7, "Some Assembly Required": the circuit computer.** This is the largest part.
  - A file of lines such as `x AND y -> d` is read into a table from wire names to symbol lists. The operator is moved last, so the line gives `[x, y, AND]`.
  - Asking for a wire's signal evaluates, on demand, only the wires it depends on. It keeps a stack of the wires being evaluated, writes each operand's signal into the wire's symbols as it goes, and stores the result masked to 16 bits in place of the symbols.
  - The files:
    - `circuit_syntax.dfy` is the language and the reading of a file;
    - `circuit_semantics.dfy` is the operator tables and the meaning of a table: the value `Eval` gives a wire, or the fact that it has none;
    - `circuit_computer.dfy` is the `CircuitComputer` class;
    - `circuit_example.dfy` is the puzzle's example circuit;
    - `circuit_failures.dfy` holds two circuits without a value: a two-wire loop and a gate on an undefined wire.
  - The class keeps a ghost copy of the definitions. Its invariant says that every working entry is the definition, the definition partly evaluated, or the wire's value. Every signal the computer reports is therefore the wire's value. Every failure means the wire has no value. The error names where the failure lies, at the end of a chain of operands that starts at the wire asked for. It is an undefined wire, a name that is not lower case, or a gate that cannot be evaluated even with every operand's value. A cycle is reported as the closing part of such a chain, the first wire the depth-first evaluation meets twice.
- **Day 3, `MagicMatrix` and the present-delivery walks** (`day3_spherical_houses.dfy`). The class keeps its cells, its extents and the running minimum and maximum. The walks are proved to leave, in every house, the number of times a walker reached it.
- **Day 6** (`day6_fire_hazard.dfy`): the 1000 × 1000 light grid under both readings of the instructions, and the two counting loops.
- **Day 5** (`day5_naughty_or_nice.dfy`): the string rules of both rule sets and the counting of nice strings.
- **Day 2** (`day2_no_math.dfy`): wrapping paper and ribbon, including the in-place sort of every box's dimensions.
- **Day 1** (`day1_not_quite_lisp.dfy`): the floor counter and the first visit to the basement.
- **Shared modules:**
  - `wrappers.dfy` holds `Option` and `Result`;
  - `decimal.dfy` holds decimal text and its reading back, used for day 7 literals and day 3 keys.

## Model

| member | source | states |
|---|---|---|
| CircuitSyntax.ParseSymbol | day_7_some_assembly_required/solution.py:37-50 | A token is refused exactly when it is not digits, not an operator token and not lower case. The error is InvalidIdentifier carrying the token. So operator tokens skip the lower-case check. A wire symbol is named by the token itself. |
| CircuitSyntax.LiteralRoundTrip | day_7_some_assembly_required/solution.py:38-43 | Every natural number written in decimal is read back as that literal, whatever its width. |
| CircuitSyntax.OperatorIsNotNumber | day_7_some_assembly_required/solution.py:38-48 | No operator token is read as a number, so the digit test before the operator lookup never hides an operator. |
| CircuitSyntax.ParseSymbolsEach | day_7_some_assembly_required/solution.py:66 | The operand tokens parse exactly when each one does, and then the i-th symbol is the i-th token's. |
| CircuitSyntax.OperatorLast | day_7_some_assembly_required/solution.py:67-69 | With more than one symbol the last two are swapped and the rest is unchanged. One symbol or none is left as it is. |
| CircuitSyntax.ParseLine | day_7_some_assembly_required/solution.py:60-70 | The wire a line defines is its last token. An empty line is an error. |
| CircuitSyntax.ParseBinaryGate | day_7_some_assembly_required/solution.py:63-70 | `a OP b -> w` defines w as `[a, b, OP]`. |
| CircuitSyntax.ParseNotGate | day_7_some_assembly_required/solution.py:63-70 | `NOT a -> w` defines w as `[a, NOT]`. |
| CircuitSyntax.ParseAssignment | day_7_some_assembly_required/solution.py:63-70 | `a -> w` defines w as `[a]`. |
| CircuitSyntax.LoadStops | day_7_some_assembly_required/solution.py:61-70 | Once a line fails, no later line is read. The table keeps the lines before it. |
| CircuitSyntax.ParseSymbolsFirstError | day_7_some_assembly_required/solution.py:66 | When the j-th operand token is refused and every earlier one parses, the line's symbols fail with InvalidIdentifier of that token. |
| CircuitSyntax.InvalidTokenStopsLoad | day_7_some_assembly_required/solution.py:60-70 | If the earlier lines read without error, a refused operand token of line k stops the read with InvalidIdentifier of that token. This needs every token before it on the line to parse. The table keeps the earlier lines. |
| CircuitSyntax.LoadAllParsed | day_7_some_assembly_required/solution.py:61-70 | A file read without error parsed every one of its lines. |
| CircuitSyntax.LoadDefinesTargets | day_7_some_assembly_required/solution.py:58-70 | After a file is read without error, the table's wires are exactly the lines' targets, in both directions. |
| CircuitSyntax.LoadLastDefinitionWins | day_7_some_assembly_required/solution.py:70 | A wire defined on several lines holds the symbols of the last of them. |
| CircuitSemantics.Mask | day_7_some_assembly_required/solution.py:155 | The stored value is a 16-bit word congruent to the value modulo 65536. This holds for negative values too. |
| CircuitSemantics.MaskIsLow16Bits | day_7_some_assembly_required/solution.py:155 | Taking a natural number modulo 65536 is `n & 0xffff`, bit by bit. |
| CircuitSemantics.BitAndLowOnes | day_7_some_assembly_required/solution.py:155 | `n & (2^k - 1)` is `n mod 2^k`. |
| CircuitSemantics.BitAnd | day_7_some_assembly_required/solution.py:15 | `x & y` is at most each operand. |
| CircuitSemantics.BitOr | day_7_some_assembly_required/solution.py:16 | `x \| y` lies between the larger operand and their sum. |
| CircuitSemantics.NotIsComplement | day_7_some_assembly_required/solution.py:21 | `~x & 0xffff` is `0xffff` minus the low 16 bits of x. |
| CircuitSemantics.NotTwice | day_7_some_assembly_required/solution.py:21 | Storing NOT of a stored NOT gives the original 16-bit signal back. |
| CircuitSemantics.FirstOp | day_7_some_assembly_required/solution.py:119-124 | The position where the scan of a symbol list meets its first operator. Everything before it is an operand. |
| CircuitSemantics.EvalMono | day_7_some_assembly_required/solution.py:95-134 | A value found at some evaluation depth is found, unchanged, at every greater depth. |
| CircuitSemantics.SubstMono | day_7_some_assembly_required/solution.py:119-123 | Operands resolved at some depth resolve to the same symbols at every greater depth. |
| CircuitSemantics.MeansUnique | day_7_some_assembly_required/solution.py:95-134 | A wire has at most one value. |
| CircuitSemantics.SignalMeans | day_7_some_assembly_required/solution.py:115-118 | A stored signal is the wire's value. |
| CircuitSemantics.AssignmentEval | day_7_some_assembly_required/solution.py:132 | A wire defined by one operand has that operand's value, masked. |
| CircuitSemantics.NotGateEval | day_7_some_assembly_required/solution.py:124-127 | `NOT a -> w` gives w the value `~a & 0xffff`. |
| CircuitSemantics.BinaryGateEval | day_7_some_assembly_required/solution.py:128-129 | `a OP b -> w` gives w the value `(a OP b) & 0xffff`, with OP from the binary operator table. |
| CircuitSemantics.OperandNeedsValue | day_7_some_assembly_required/solution.py:121-123 | A wire with a value needs, one level shallower, a value for each operand it evaluates. |
| CircuitSemantics.OperandNoValue | day_7_some_assembly_required/solution.py:121-123 | A wire that evaluates an operand with no value has no value either. |
| CircuitSemantics.CycleNoValue | day_7_some_assembly_required/solution.py:105-112 | No wire on a dependency cycle has a value, however deep the evaluation goes. |
| CircuitSemantics.ReachesStep | day_7_some_assembly_required/solution.py:119-123 | A wire reaches whatever one of its operands reaches. |
| CircuitSemantics.OverrideEval | day_7_some_assembly_required/solution.py:159-163 | Replacing the entry of one wire leaves the evaluation of every wire that does not reach it unchanged, at every depth. |
| CircuitSemantics.OverrideKeeps | day_7_some_assembly_required/solution.py:159-163 | Setting a wire to a signal by hand gives every wire that does not reach it exactly the values it had. |
| CircuitSemantics.InvalidNameNoValue | day_7_some_assembly_required/solution.py:151-157 | A wire defined by symbols whose name fails `islower()` never gets a value, because storing it fails. |
| CircuitSemantics.SettledMeans | day_7_some_assembly_required/solution.py:124-134 | Once the operands before the first operator are replaced by their values, the outcome of the symbols, masked, is the wire's value. |
| CircuitSemantics.SettledNoOutcome | day_7_some_assembly_required/solution.py:124-134 | A wire whose fully resolved symbols cannot be evaluated has no value. Examples are a wrong argument count, a missing operand or an operator with a non-number argument. |
| CircuitSemantics.RelaxedPrefixSettles | day_7_some_assembly_required/solution.py:119-124 | When the scan reaches an operator, or the end, with only literals before it, that point is the first operator of the definition and every operand before it is resolved. |
| CircuitSemantics.ConsistentSignal | day_7_some_assembly_required/solution.py:115-118 | A signal in a working table consistent with the definitions is the wire's value. |
| CircuitSemantics.ConsistentWithItself | day_7_some_assembly_required/solution.py:58-70 | The table just read is consistent with the definitions. |
| CircuitSemantics.ConsistentExpr | day_7_some_assembly_required/solution.py:119-123 | A symbol list in the working table is the wire's definition with some operands before the first operator replaced by their values. |
| CircuitSemantics.ConsistentSlot | day_7_some_assembly_required/solution.py:123 | Writing an operand's value into its slot keeps the working table consistent. |
| CircuitSemantics.ConsistentMemo | day_7_some_assembly_required/solution.py:155 | Replacing a wire's symbols by its value keeps the working table consistent. |
| Circuit.IndexOf | day_7_some_assembly_required/solution.py:108 | `visited.index(wire)` is the first position of the wire on the stack. |
| Circuit.StackCycle | day_7_some_assembly_required/solution.py:105-112 | A wire met again on the stack closes a real cycle: the stack from its first occurrence, then the wire itself. The wire has no value. |
| Circuit.StackPush | day_7_some_assembly_required/solution.py:113-123 | Pushing the wire before evaluating an operand keeps the stack a chain of operands, and strictly shrinks the set of wires not on the stack. |
| Circuit.ExplainsStackCycle | day_7_some_assembly_required/solution.py:105-112 | The cycle reported for a wire met again on the stack is the closing part of a chain from the stack through the wire, whose wires are distinct but for the last. |
| Circuit.ExplainsPush | day_7_some_assembly_required/solution.py:121-123 | An error explained for an operand, evaluated with the wire pushed on the stack, is explained for the wire too. |
| Circuit.ExplainsHere | day_7_some_assembly_required/solution.py:124-134 | An error of the wire itself, with the stack a chain of operands, is explained for the wire. |
| Circuit.CircuitComputer.constructor | day_7_some_assembly_required/solution.py:7-13 | No file and no table, and nothing computed. |
| Circuit.CircuitComputer.ParseFile | day_7_some_assembly_required/solution.py:52-73 | The table becomes the file's definitions, or on an error the definitions before the failing line. The error is the first line's. The computed flag is cleared only when the whole file was read. |
| Circuit.CircuitComputer.SetWireSignalRaw | day_7_some_assembly_required/solution.py:151-157 | A name that is not lower case is refused. Otherwise the wire's entry becomes `value & 0xffff` and nothing else changes. |
| Circuit.CircuitComputer.Resolve | day_7_some_assembly_required/solution.py:95-134 | The early exits come in this order. A wire absent from the table fails with Undefined(wire). A wire already on the stack fails with Cycle of the stack from the wire's first occurrence, followed by the wire. A stored signal is returned as it is. On these exits the table is unchanged. Otherwise, on success, the wire's entry is the returned signal, which is its value, and the entries of the wires on the stack and every stored signal are untouched. On failure the wire has no value, and `Explains` holds for the error. The error is that of the last wire of a chain of operands from the stack through the wire, or, for a cycle, the closing part of such a chain whose wires are distinct but for the last. The computed flag is set. |
| Circuit.CircuitComputer.Evaluate | day_7_some_assembly_required/solution.py:119-134 | On success the wire's entry becomes the returned signal, which is its value. The entries of the wires on the stack and every stored signal are untouched. On failure the wire has no value, and the error is explained by a chain of operands from the stack through the wire: an operand's own error, or the wire's own Malformed or InvalidIdentifier. |
| Circuit.CircuitComputer.ResolveOperand | day_7_some_assembly_required/solution.py:122-123 | The operand's signal, which is the operand's value, replaces the operand in the wire's symbols, in the table as well. On failure the error is the operand's own: it is explained for the operand with the wire pushed on the stack, and so for the wire as well, which has no value. |
| Circuit.CircuitComputer.Finish | day_7_some_assembly_required/solution.py:124-134 | At an operator its result is stored; past the end the first symbol is stored. The stored word is the masked outcome. Otherwise the error is Malformed(wire) or InvalidIdentifier(wire), it holds of the wire itself (`FailsAt`), and the wire has no value. For Malformed, the settled symbols have no outcome. |
| Circuit.CircuitComputer.Store | day_7_some_assembly_required/solution.py:124-134 | The outcome is stored masked and is the wire's value, unless the wire's name is not lower case. |
| Circuit.CircuitComputer.GetWireSignal | day_7_some_assembly_required/solution.py:95-134 | The computed flag is set. With no file read, this fails. A wire absent from the table fails with Undefined(wire), and a stored signal is returned as it is; both leave the table unchanged. Otherwise, on success, the wire's entry is the returned signal, which is its value. On failure the wire has no value, and the error is explained by a chain of operands from the wire (`Explains` with an empty stack). Signals already computed are kept. |
| Circuit.CircuitComputer.GetAllWireSignals | day_7_some_assembly_required/solution.py:136-143 | With no file read this fails and changes nothing. Stored signals are kept. A non-empty table leaves the computed flag set. An empty table gives no signals and changes nothing. On success every wire of the table has its value stored and returned. Otherwise some wire of the table has no value, and the error is explained by a chain of operands from it. |
| Circuit.CircuitComputer.GetAllWireSignalsRaw | day_7_some_assembly_required/solution.py:145-149 | With no file read this fails. Otherwise it returns the working table as it stands, computing nothing. Every entry is the wire's definition, that definition partly evaluated, or the wire's value. |
| Circuit.CircuitComputer.SetWireSignal | day_7_some_assembly_required/solution.py:159-163 | If a signal was computed since the file was read, the file is read again first. If that read fails, its error is returned with its partial table, and the flag stays set. Then the name is checked: a name that is not lower case fails with InvalidIdentifier(wire), leaving the table as read, and with no table a lower-case name fails with NotLoaded. Otherwise only the given wire becomes `value & 0xffff`, which is now its value, and the computed flag is clear. Every wire that does not reach the given wire through operands keeps the value it has in the table as read (`Base`), and gains none. |
| CircuitFailures.LoopLoads | day_7_some_assembly_required/solution.py:52-73 | The file `b -> a`, `a -> b` reads without error into a table where each wire reads the other. |
| CircuitFailures.LoopIsCycle | day_7_some_assembly_required/solution.py:105-112 | `a`, `b`, `a` is a cycle of that table, and neither wire has a value. |
| CircuitFailures.LoopCycleOnly | day_7_some_assembly_required/solution.py:105-112 | In that table, the only cycle closing a chain from `a` with distinct wires is `a`, `b`, `a`. |
| CircuitFailures.LoopFailsNowhere | day_7_some_assembly_required/solution.py:124-134 | Neither wire of the loop is undefined, badly named or malformed. |
| CircuitFailures.LoopError | day_7_some_assembly_required/solution.py:105-112 | The only error that can explain the failure of `a` in the loop is Cycle(["a", "b", "a"]). |
| CircuitFailures.LoopReport | day_7_some_assembly_required/solution.py:95-134 | Reading the loop and asking for `a` reports Cycle(["a", "b", "a"]). |
| CircuitFailures.DanglingLoads | day_7_some_assembly_required/solution.py:52-73 | The file `NOT x -> a` reads without error into a table where `a` reads `x` and `x` is undefined. |
| CircuitFailures.DanglingNoValue | day_7_some_assembly_required/solution.py:101-123 | Neither `x` nor `a` has a value. |
| CircuitFailures.DanglingNoCycle | day_7_some_assembly_required/solution.py:105-112 | That table has no cycle. |
| CircuitFailures.DanglingFailsAt | day_7_some_assembly_required/solution.py:101-134 | Of `a` and `x`, a wire fails on its own account exactly when it is `x`, with Undefined("x"). |
| CircuitFailures.DanglingError | day_7_some_assembly_required/solution.py:101-123 | The only error that can explain the failure of `a` is Undefined("x"). |
| CircuitFailures.DanglingReport | day_7_some_assembly_required/solution.py:95-134 | Reading `NOT x -> a` and asking for `a` reports Undefined("x"). |
| CircuitExample.ExampleLoads | day_7_some_assembly_required/solution.py:186 | The example file reads without error into the eight gates `x`…`i`. |
| CircuitExample.ExampleArithmetic | day_7_some_assembly_required/solution.py:14-22 | On 123 and 456 the operator tables give 72, 507, 492, 114, 65412 and 65079 once masked. |
| CircuitExample.ExampleSignals | day_7_some_assembly_required/solution.py:173-183 | The example's wires have the expected signals d=72, e=507, f=492, g=114, h=65412, i=65079, x=123, y=456. |
| CircuitExample.ExampleAnswers | day_7_some_assembly_required/solution.py:184-192 | Any signal reported for a wire of the example equals the expected one. |
| SphericalHouses.KeyText | day_3_perfectly_spherical_houses/solution.py:63-66 | The key of a cell is the text "row, column". |
| SphericalHouses.ParseKeyOfKey | day_3_perfectly_spherical_houses/solution.py:63-66 | Every key reads back as its cell. |
| SphericalHouses.KeyInjective | day_3_perfectly_spherical_houses/solution.py:63-66 | Different cells have different keys, so the dictionary behaves as a map keyed by cells. |
| SphericalHouses.Widened | day_3_perfectly_spherical_houses/solution.py:26-29 | The new extents contain the old ones and the cell. Each bound is either the old bound or the cell's coordinate. |
| SphericalHouses.BoundedSet | day_3_perfectly_spherical_houses/solution.py:23-30 | After writing a cell, the widened extents hold the origin and every cell. Overwriting a cell already present needs no widening. |
| SphericalHouses.RangedSet | day_3_perfectly_spherical_houses/solution.py:32-37 | `min` and `max` remain the least and greatest of every value ever written. |
| SphericalHouses.MagicMatrix.constructor | day_3_perfectly_spherical_houses/solution.py:8-14 | No cells, extents at the origin, and no minimum or maximum. |
| SphericalHouses.MagicMatrix.Get | day_3_perfectly_spherical_houses/solution.py:16-21 | A cell's value if it was written, else None. |
| SphericalHouses.MagicMatrix.Set | day_3_perfectly_spherical_houses/solution.py:23-38 | The cell takes the value. A new cell widens the extents and an existing one leaves them. The running minimum and maximum take the value in. |
| SphericalHouses.MagicMatrix.Length | day_3_perfectly_spherical_houses/solution.py:40-41 | The number of distinct cells written. |
| SphericalHouses.MagicMatrix.GetWidth | day_3_perfectly_spherical_houses/solution.py:68-69 | At least 1, and the rows from x1 on, over that width, cover every written cell. |
| SphericalHouses.MagicMatrix.GetHeight | day_3_perfectly_spherical_houses/solution.py:71-72 | At least 1, and the columns from y1 on, over that height, cover every written cell. |
| SphericalHouses.WalkSteps | day_3_perfectly_spherical_houses/solution.py:85-96 | Each house of the walk is one move from the previous one: `^` is y-1, `v` is y+1, `<` is x-1 and anything else is x+1. |
| SphericalHouses.EndOfWalk | day_3_perfectly_spherical_houses/solution.py:85-96 | The walk ends at the count of `v` less the count of `^`, and the count of other steps less twice the count of `<`. |
| SphericalHouses.TallyCounts | day_3_perfectly_spherical_houses/solution.py:97-100 | Adding one present per visit leaves in every house its number of visits, whatever their order. |
| SphericalHouses.TallyHouses | day_3_perfectly_spherical_houses/solution.py:100 | The number of cells of the tally is the number of distinct houses visited. |
| SphericalHouses.GiveGifts | day_3_perfectly_spherical_houses/solution.py:80-100 | The grid holds, for each house, how often Santa reached it, the origin counted once at the start. The count is the number of distinct houses. |
| SphericalHouses.EvensOddsSplit | day_3_perfectly_spherical_houses/solution.py:111-140 | Between them Santa (even positions) and Robo-Santa (odd positions) take every direction exactly once. |
| SphericalHouses.PositionsEndWalks | day_3_perfectly_spherical_houses/solution.py:111-132 | Taking turns, Santa first, each walker stands where its own share of the directions leads. |
| SphericalHouses.TandemVisitsSplit | day_3_perfectly_spherical_houses/solution.py:109-140 | The visits of the tandem are the visits of the two walks together, the origin counted once for each walker. |
| SphericalHouses.GiveGiftsTandem | day_3_perfectly_spherical_houses/solution.py:103-142 | The grid starts with 2 at the origin and adds 1 wherever the walker whose turn it is arrives. The count is the number of distinct houses either walker reached. |
| SphericalHouses.TandemCounts | day_3_perfectly_spherical_houses/solution.py:103-142 | The tandem's grid holds, for every house, the number of times either walker reached it. |
| FireHazard.ToggleTwice | day_6_fire_hazard/solution.py:31-32 | Toggling the same rectangle twice leaves every light as it was. |
| FireHazard.ExecuteInstructions | day_6_fire_hazard/solution.py:22-33 | The replay succeeds exactly when no instruction reaches outside the grid. Then every light is as the instructions leave it in list order: only cells in a rectangle change, `on` lights, `off` darkens, any other word toggles. |
| FireHazard.CountLit | day_6_fire_hazard/solution.py:36-42 | The number of lights that are on, at most the number of cells. |
| FireHazard.GridLitZero | day_6_fire_hazard/solution.py:36-42 | The count is zero exactly when every light is off. |
| FireHazard.ExecuteInstructionsVariableLight | day_6_fire_hazard/solution.py:45-56 | Same range rule. Every light's brightness is as the instructions leave it: `on` adds 1, `off` takes 1 away but not below 0, any other word adds 2. |
| FireHazard.BrightnessNonNegative | day_6_fire_hazard/solution.py:53 | No brightness drops below zero. |
| FireHazard.LitLightsShine | day_6_fire_hazard/solution.py:22-56 | A light that is on under the first reading has brightness at least 1 under the second. |
| FireHazard.GridLitBelowSum | day_6_fire_hazard/solution.py:36-64 | When every lit cell of one grid has brightness at least 1 in another and none is negative, the lit count is at most the brightness sum. |
| FireHazard.GetTotalBrightness | day_6_fire_hazard/solution.py:59-64 | The sum of all brightnesses. |
| FireHazard.TotalBrightnessCoversLitCount | day_6_fire_hazard/solution.py:36-64 | For the same instructions, the total brightness is at least the number of lights that are on. |
| NaughtyOrNice.VowelCountOccurrences | day_5_naughty_or_nice_strings/solution.py:1-18 | The vowel count is the sum of the occurrences of a, e, i, o and u. |
| NaughtyOrNice.CheckVowels | day_5_naughty_or_nice_strings/solution.py:10-18 | True exactly when the string has at least three vowels, despite the early exit at the third. |
| NaughtyOrNice.CheckDoubleLetter | day_5_naughty_or_nice_strings/solution.py:21-26 | True exactly when some character equals the next one. |
| NaughtyOrNice.CheckNoNaughtySubstrings | day_5_naughty_or_nice_strings/solution.py:29-33 | True exactly when no adjacent pair is ab, cd, pq or xy. |
| NaughtyOrNice.CountAll | day_5_naughty_or_nice_strings/solution.py:36-41 | Every string counts exactly when all satisfy the rule. |
| NaughtyOrNice.CountNone | day_5_naughty_or_nice_strings/solution.py:36-41 | No string counts exactly when none satisfies the rule. |
| NaughtyOrNice.CountAppend | day_5_naughty_or_nice_strings/solution.py:36-41 | Counting is additive over concatenated lists. |
| NaughtyOrNice.CheckStrings | day_5_naughty_or_nice_strings/solution.py:36-41 | The number of strings nice under the first rule set, at most the number of strings. |
| NaughtyOrNice.CheckNonOverlappingRepeatPair | day_5_naughty_or_nice_strings/solution.py:44-50 | True exactly when a pair starting before `len - 4` occurs again, starting at least two places later. |
| NaughtyOrNice.RepeatPairAsScannedIsRepeat | day_5_naughty_or_nice_strings/solution.py:44-50 | A pair the scan finds is a genuine non-overlapping repeat. |
| NaughtyOrNice.RepeatPairOnLine | day_5_naughty_or_nice_strings/solution.py:44-50 | On a line ending in the newline `readlines` keeps, the early stop of the scan loses nothing. |
| NaughtyOrNice.RepeatPairScanMissesLastStart | day_5_naughty_or_nice_strings/solution.py:45 | Without that newline, "xyxy" repeats a pair but the scan misses it. |
| NaughtyOrNice.CheckSandwich | day_5_naughty_or_nice_strings/solution.py:53-56 | True exactly when some character equals the one two places on. |
| NaughtyOrNice.SandwichOnLine | day_5_naughty_or_nice_strings/solution.py:53-56 | The trailing newline never completes a sandwich. |
| NaughtyOrNice.CheckStringsRedux | day_5_naughty_or_nice_strings/solution.py:59-64 | The number of strings nice under the second rule set, at most the number of strings. |
| NaughtyOrNice.CountReduxOnLines | day_5_naughty_or_nice_strings/solution.py:59-64 | Over newline-terminated lines, the count equals the count of their texts under the rules as stated. |
| NoMath.PaperIsSurfacePlusSmallestSide | day_2_i_was_told_no_math/solution.py:17-20 | The halving is exact: paper is the surface area plus the smallest side's area. |
| NoMath.TotalPaperAppend | day_2_i_was_told_no_math/solution.py:15-21 | The paper total is additive over concatenated box lists. |
| NoMath.TotalPaperNonNegative | day_2_i_was_told_no_math/solution.py:14-21 | Non-negative dimensions need non-negative paper. |
| NoMath.GetTotalSquareFeet | day_2_i_was_told_no_math/solution.py:14-21 | The paper for every box, with the lists only read. |
| NoMath.SortedBoxPermutes | day_2_i_was_told_no_math/solution.py:27 | The sorted box holds the same dimensions. |
| NoMath.SortedBoxIdempotent | day_2_i_was_told_no_math/solution.py:27 | Sorting a sorted box changes nothing. |
| NoMath.SortedBox | day_2_i_was_told_no_math/solution.py:27 | Three dimensions in ascending order, each one of the box's. |
| NoMath.AscendingUnique | day_2_i_was_told_no_math/solution.py:27 | Three numbers have only one ascending arrangement. |
| NoMath.RibbonIgnoresOrder | day_2_i_was_told_no_math/solution.py:27-29 | The ribbon for a box does not depend on the order of its dimensions. |
| NoMath.TotalRibbonAppend | day_2_i_was_told_no_math/solution.py:25-30 | The ribbon total is additive over concatenated box lists. |
| NoMath.RibbonNonNegative | day_2_i_was_told_no_math/solution.py:29 | A box of non-negative dimensions needs non-negative ribbon. |
| NoMath.TotalRibbonNonNegative | day_2_i_was_told_no_math/solution.py:24-30 | Non-negative dimensions need non-negative ribbon. |
| NoMath.SortDimensions | day_2_i_was_told_no_math/solution.py:27 | `size.sort()` leaves the list holding its dimensions in ascending order. |
| NoMath.GetTotalRibbonLength | day_2_i_was_told_no_math/solution.py:24-30 | The ribbon for every box. Every caller's list is left sorted in place, even lists that alias one another. |
| NotQuiteLisp.FloorCountsParentheses | day_1_not_quite_lisp/solution.py:6-13 | The floor is the number of `(` minus the number of every other character. |
| NotQuiteLisp.FindFloorNumber | day_1_not_quite_lisp/solution.py:6-13 | The floor after all the directions. |
| NotQuiteLisp.BelowGroundPassesMinusOne | day_1_not_quite_lisp/solution.py:16-25 | Steps of one from floor 0 reach -1 before any lower floor. |
| NotQuiteLisp.FindFirstBasementTime | day_1_not_quite_lisp/solution.py:16-25 | The least 1-based k whose prefix ends on floor -1, every shorter prefix being at 0 or above. None exactly when no prefix goes below 0. |
| Decimal.ValueOfNatToString | day_7_some_assembly_required/solution.py:39 | The digits of a number read back as that number. |
| Decimal.ParseIntOfIntToString | day_3_perfectly_spherical_houses/solution.py:66 | The decimal text of an integer, sign included, reads back as that integer. |
| Decimal.IntToStringInjective | day_3_perfectly_spherical_houses/solution.py:66 | Different integers have different decimal texts. |

## Left out

- Day 4 is not modelled: its answer comes from MD5 hashes in an unbounded search.
- Files and their parsing are not modelled.
  - Reading files: day 1 and day 3 `read_file`/`load_file`, day 5 `read_file`, day 7's `open`/`readlines`, and the caching of a file's lines by name.
  - Day 2 `parse_file` and day 6 `parse_input` (regular expressions).
  - The models take the parsed data as input: token lists for day 7, dimension lists for day 2 and instruction records for day 6.
- The file `test1.txt` is not part of this model. CircuitExample takes it to be the puzzle's example circuit, whose signals the test lists at lines 174-183.
- Display and output are not modelled: every `__repr__`, MagicMatrix's column width, `print`, the tkinter drawing and menu of day 6, and the `__main__` blocks.
- `lerp` and `int_lerp` are not modelled. They are floating-point interpolation for display.
- Day 7 warnings are not modelled. A literal wider than 16 bits only warns, and that literal is kept as written.
- Day 7 error messages are carried as the `Error` datatype, not as text. This leaves out the message wording and the "file line n:" prefix.
- Circuit.CircuitComputer.GetWireSignal reports NotLoaded when no file was read. Python instead raises a TypeError from `wire in None`.
- CircuitSyntax.ParseSymbol reads a literal only when the token is non-empty ASCII digits. Python's `int()` also accepts a sign, `_` separators and non-ASCII digits.
- CircuitSyntax.IsLower follows `str.islower()` on ASCII letters only. Other cased characters are not modelled.
- Circuit.CircuitComputer.SetWireSignalRaw takes an integer value, so the source's error for a value that is not an int cannot arise.
- Circuit.CircuitComputer.GetAllWireSignals visits the wires in an arbitrary order, not in the dictionary's insertion order. When several wires fail, which error is reported may differ. The contract says only that some wire of the table has no value and that the error is explained for it.
- Circuit.CircuitComputer.Resolve passes the stack of wires being evaluated as a value parameter rather than one list pushed and popped in place. The stack is unchanged when the call returns, as in the source.
- Circuit.CircuitComputer.SetWireSignal states the values it keeps relative to the table as read again (`Base`), not the table before the call. Once a signal has been computed, the file is read again, so signals set by hand earlier are discarded too (solution.py lines 161-162).
- Circuit.CircuitComputer.Resolve is split into Resolve, Evaluate, ResolveOperand, Finish and Store. These run the same steps in the same order as the source's one method.
- The day 7 table is not aliased. The source's operand writes (`signal[i] = ...`) go to the list held in the table, and the model writes the updated list back into the table, which has the same effect.
- NaughtyOrNice.CheckSandwich returns false where the source falls off the end and returns None, which is falsy.
- FireHazard.ExecuteInstructions returns `ok == false` with no claim about the grid when an instruction reaches outside the grid. numpy raises IndexError there and the function returns nothing. The same holds for FireHazard.ExecuteInstructionsVariableLight.
- The model uses unbounded integers. numpy's 64-bit cells in day 6 could in principle overflow, and that is not modelled.
- SphericalHouses.MagicMatrix keys its cells by the pair (row, column) rather than by the text "row, column". KeyInjective and ParseKeyOfKey show the two hold the same entries. The `empty_char` field is left out, because only `__repr__` uses it.
- SphericalHouses.GiveGiftsTandem moves the walker whose turn it is through one `Move` function. The source spells this as an eight-way `if`/`elif` on the character and the turn, with the same effect.
- SphericalHouses.GiveGifts and SphericalHouses.GiveGiftsTandem do not state separately that the stored values sum to the number of visits (the walk's length plus 1, or plus 2 for the tandem walk). They state each house's count, from which the sum follows.
