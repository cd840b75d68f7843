# GoLTGen in Dafny

This project models the core of GoLTGen, a set of Game-of-Life-like cellular automata. Some of them run on the CPU and some generate WebGL fragment shaders. The model has four parts.

- **The shader compiler of `webgl-automata`.**
  - `Layout` packs a cell's state variables (flags and numbers) into the 32 bits of an RGBA pixel.
  - `Kernels` validates the neighbourhood kernels and builds their weight table and elements.
  - `Ast` and `Checker` hold the AST and the type checker: `typesEqual`, `analyzeExpression`, `getAccessType`, `analyzeStatement`, `analyzeProgram` and `typecheck`.
  - `Codegen` generates GLSL for expressions and statements.
  - `Shader` holds the state accessors, the neighbour-count functions and `generateShader`, which puts all of it together.
  - `Strings` holds JavaScript's number rendering, `join`, `split` and `trimCode`.
- **The Python reference automaton** (`Life`). Neighbour counting uses the source's own edge-wrap rule. The module also covers the birth/survive/starve rule, the lifetime counter capped at 255, the generation history kept by `evaluate_step` and `vis_helper`, and the `square` generator.
- **The first WebGL automaton** (`Automaton`). It covers the fragment-shader conditions of `ca_fragment_shader` and the history bookkeeping of `CellularAutomaton`: `iterate`, `goBack`, `getCell` and `getCurrentBoard`. `Seeds` models `createSeed` and `clamp`.
- **The simple-rule shader of `webgl-automata`** (`SimpleShader`). It covers `shaderSourceFromSimpleRuleset`. `Fragment` holds what this shares with `ca_fragment_shader`: the condition text, which is proved to read back as its list of neighbour counts, and shader templates with holes.

Code that works by changing state becomes methods, proved against functions that specify them:

- the packer's cursor loop;
- the weight-table fill;
- the path walk of `getAccessType`;
- the scope threading of the checker;
- the generators' `code +=` loops;
- `evaluate_step`'s nested loops over two new boards;
- `createSeed`'s fill of a fresh array;
- the classes `GoLT`, `GoLT_generator` and `CellularAutomaton`, which update fields in place.

Code that is a recursive switch or a map/join pipeline becomes functions.

Every `throw` of the compiler becomes an `Err` of a `Result`, and so does the `TypeError` of a property read on `undefined`.

The compiled `build/parser.js` is a copy of the checker in `src/parser.ts`. The model follows `parser.ts`. Most checker rows cite `parser.ts`; the five rows that cite `parser.js` point at the same code in the compiled copy.

## Model

| member | source | states |
|---|---|---|
| Layout.Advance | GoLTWebV2/lib/webgl-automata/build/complex-shader.js:14-17 | moving `len` bits on keeps the bit below 8 and advances the absolute bit position by exactly `len` |
| Layout.Place | GoLTWebV2/lib/webgl-automata/build/complex-shader.js:7-40 | one iteration of the packer keeps the cursor's bit below 8 |
| Layout.PlaceFlag | GoLTWebV2/lib/webgl-automata/build/complex-shader.js:7-18 | a flag gets exactly the one bit at the cursor, and the cursor moves on by one, rolling to the next byte at bit 8 |
| Layout.NumberSpans | GoLTWebV2/lib/webgl-automata/build/complex-shader.js:19-40 | the inner `while` loop computes the spans and final cursor that the specification function `Spans` gives |
| Layout.SpansLength | GoLTWebV2/lib/webgl-automata/build/complex-shader.js:19-40 | a number's spans hold exactly its length in bits, and the cursor ends that many bits further on |
| Layout.SpansInBytes | GoLTWebV2/lib/webgl-automata/build/complex-shader.js:19-40 | every span lies inside one byte with 0 <= from <= to <= 7, and each span after the first starts at bit 0 of the next byte |
| Layout.SpansContiguous | GoLTWebV2/lib/webgl-automata/build/complex-shader.js:19-40 | the spans cover consecutive absolute bits, from the starting cursor to the final one |
| Layout.PlaceField | GoLTWebV2/lib/webgl-automata/build/complex-shader.js:7-40 | one pass of the loop body, on the counters `byte` and `bit`, does exactly what the specification step `Place` does |
| Layout.PlaceNext | GoLTWebV2/lib/webgl-automata/build/complex-shader.js:6-41 | one iteration of the `for…of` loop turns the packing of the first i fields into the packing of the first i+1, with the bit still below 8 |
| Layout.PackFields | GoLTWebV2/lib/webgl-automata/build/complex-shader.js:3-41 | the loop over all the fields ends with the layout and the cursor that the specification `Pack` gives for the whole configuration |
| Layout.MakeStateLayout | GoLTWebV2/lib/webgl-automata/build/complex-shader.js:2-46 | the loop over the fields returns what `StateLayout` specifies: the packed layout, or the too-many-bits error |
| Layout.PackPosition | GoLTWebV2/lib/webgl-automata/build/complex-shader.js:14-17 | after every prefix of fields the cursor's bit is below 8 and byte*8+bit equals the total declared width |
| Layout.StateLayoutFails | GoLTWebV2/lib/webgl-automata/build/complex-shader.js:42-44 | makeStateLayout throws exactly when the fields declare more than 32 bits, and the error carries that width |
| Layout.PackNames | GoLTWebV2/lib/webgl-automata/build/complex-shader.js:7-40 | every flag or number gets exactly one key in the layout record, and no other name does |
| Layout.PutNames | GoLTWebV2/lib/webgl-automata/build/complex-shader.js:8-12 | assigning a key keeps the keys distinct and adds exactly that name |
| Layout.PackInBytes | GoLTWebV2/lib/webgl-automata/build/complex-shader.js:7-40 | every flag bit and every span of a packed layout lies within bits 0..7 |
| Layout.IndexOf | GoLTWebV2/lib/webgl-automata/build/complex-shader.js:8-12 | finds the first entry with the name, or reports the name absent |
| Kernels.ValidateMatrices | GoLTWebV2/lib/webgl-automata/build/complex-shader.js:49-57 | the validation loops accept exactly when every matrix has an odd number of rows and all rows as long as row 0 |
| Kernels.EvenColumnsAccepted | GoLTWebV2/lib/webgl-automata/build/complex-shader.js:49-57 | column parity is not checked: a one-by-two matrix passes although the message promises odd columns |
| Kernels.MaxHeight | GoLTWebV2/lib/webgl-automata/build/complex-shader.js:59-60 | the table height bounds every kernel's height and is attained by one |
| Kernels.MaxWidth | GoLTWebV2/lib/webgl-automata/build/complex-shader.js:59-61 | the table width bounds every kernel's width and is attained by one |
| Kernels.Weights | GoLTWebV2/lib/webgl-automata/build/complex-shader.js:62 | the weight table has width*height*count entries |
| Kernels.StoredAt | GoLTWebV2/lib/webgl-automata/build/complex-shader.js:62-73 | kernel k's weight (i, j) sits at width*height*k + width*i + j, and a place outside kernel k's own matrix holds 0 |
| Kernels.FillKernel | GoLTWebV2/lib/webgl-automata/build/complex-shader.js:66-72 | the nested loops write one kernel's block of the zeroed array and leave every other place unchanged |
| Kernels.FillMatrixRow | GoLTWebV2/lib/webgl-automata/build/complex-shader.js:67-71 | one pass of the outer loop writes matrix row `i` into its place in the block; the rest of that row's width keeps its zero, and nothing outside the block changes |
| Kernels.FillNext | GoLTWebV2/lib/webgl-automata/build/complex-shader.js:62-73 | after kernel `index` is written, every block up to it holds its weights and later blocks stay 0 |
| Kernels.TableComplete | GoLTWebV2/lib/webgl-automata/build/complex-shader.js:62-73 | a table holding the specified weight at every place is the table `Weights` describes |
| Kernels.AddElement | GoLTWebV2/lib/webgl-automata/build/complex-shader.js:74-85 | checking kernel `index` and pushing its element extends the elements as `Elements` specifies |
| Kernels.ElementsErrPersists | GoLTWebV2/lib/webgl-automata/build/complex-shader.js:74-79 | once a kernel's value expression fails to check, every longer prefix fails with the same error |
| Kernels.SettingFails | GoLTWebV2/lib/webgl-automata/build/complex-shader.js:74-79 | a failing kernel makes the whole setting fail with its error |
| Kernels.ElementsInOrder | GoLTWebV2/lib/webgl-automata/build/complex-shader.js:80-85 | element k is kernel k, with index k, its own width and height, its type and its overflow mode |
| Kernels.ElementsOk | GoLTWebV2/lib/webgl-automata/build/complex-shader.js:74-85 | the elements are built exactly when every kernel's value expression checks |
| Kernels.BuildSetting | GoLTWebV2/lib/webgl-automata/build/complex-shader.js:59-87 | the table and element loops of a validated configuration return what `SettingWith` specifies |
| Kernels.MakeNeighbourSetting | GoLTWebV2/lib/webgl-automata/build/complex-shader.js:47-93 | validates, sizes, fills and checks as `NeighbourSetting` specifies, with validation errors first |
| Ast.Find | GoLTWebV2/lib/webgl-automata/src/parser.ts:153-156 | the first property with the key, or the length when there is none |
| Ast.TypesEqualReflexive | GoLTWebV2/lib/webgl-automata/src/parser.ts:146-162 | typesEqual holds between every type and itself |
| Ast.TypesEqualTransitive | GoLTWebV2/lib/webgl-automata/build/parser.js:8-25 | typesEqual is transitive, so with reflexivity it is the struct-prefix preorder |
| Ast.TypesEqualScalar | GoLTWebV2/lib/webgl-automata/src/parser.ts:146-161 | two types that are not both structs are equal exactly when they are the same type |
| Ast.TypesEqualNotSymmetric | GoLTWebV2/lib/webgl-automata/build/parser.js:8-25 | typesEqual is not symmetric: a one-property struct equals a two-property extension but not conversely |
| Ast.FindInPrefix | GoLTWebV2/lib/webgl-automata/src/parser.ts:150-156 | when names agree position by position, a key is first found at the same place in both |
| Checker.ScopeWithVar | GoLTWebV2/lib/webgl-automata/src/parser.ts:285-295 | the new scope binds the name to its entry, shadowing an earlier binding, keeps every other binding and adds no other key |
| Checker.GetAccessType | GoLTWebV2/lib/webgl-automata/src/parser.ts:297-328 | the loop over the path returns what `AccessType` specifies |
| Checker.AccessTypeSnoc | GoLTWebV2/lib/webgl-automata/build/parser.js:148-181 | one more path segment: a property on a non-struct and a missing property give their errors, a found one gives its type, and an earlier error persists |
| Checker.WalkSnoc | GoLTWebV2/lib/webgl-automata/src/parser.ts:308-326 | one loop step looks the segment up among the properties of the type found so far |
| Checker.WalkErrSnoc | GoLTWebV2/lib/webgl-automata/src/parser.ts:308-326 | a failed walk stays failed with the same error |
| Checker.BinaryType | GoLTWebV2/lib/webgl-automata/src/parser.ts:179-235 | a binary operator is accepted exactly when its typing rule admits the operand types, and the result type is one the rule admits |
| Checker.AnalyzeExpr | GoLTWebV2/lib/webgl-automata/src/parser.ts:164-283 | an accepted expression comes back with its scope and type recorded, and with nothing else changed |
| Checker.AnalyzeExprSound | GoLTWebV2/lib/webgl-automata/src/parser.ts:164-283 | an accepted expression is correctly annotated by the typing rules (ternary, binary, unary, cast, literals, access) |
| Checker.AnalyzeExprComplete | GoLTWebV2/lib/webgl-automata/src/parser.ts:164-283 | every correct annotation of an expression is the one the checker returns |
| Checker.AnalyzeExprFails | GoLTWebV2/lib/webgl-automata/build/parser.js:26-136 | the checker throws exactly on the expressions that have no correct annotation |
| Checker.StripBody | GoLTWebV2/lib/webgl-automata/src/parser.ts:335-340 | erasing annotations keeps the number of statements |
| Checker.AnalyzeStmt | GoLTWebV2/lib/webgl-automata/src/parser.ts:332-381 | an accepted statement records its scope and returns `After` (only a known declaration extends the scope; blocks and conditionals return their input scope) |
| Checker.AnalyzeBody | GoLTWebV2/lib/webgl-automata/src/parser.ts:335-340 | a body's statements are threaded left to right, and the scope they leave is `AfterBody` |
| Checker.AnalyzeStmtSound | GoLTWebV2/lib/webgl-automata/src/parser.ts:332-381 | an accepted statement is correctly annotated, and assignment asks only typesEqual(target, value) |
| Checker.AnalyzeBodySound | GoLTWebV2/lib/webgl-automata/build/parser.js:183-212 | an accepted body is correctly annotated statement by statement |
| Checker.AnalyzeStmtComplete | GoLTWebV2/lib/webgl-automata/src/parser.ts:332-381 | a correct annotation of a statement is the one the checker returns |
| Checker.AnalyzeBodyComplete | GoLTWebV2/lib/webgl-automata/src/parser.ts:335-340 | a correct annotation of a body is the one the checker returns |
| Checker.PrependNil | GoLTWebV2/lib/webgl-automata/src/parser.ts:337-339 | the block loop starts from an empty prefix |
| Checker.BodyStep | GoLTWebV2/lib/webgl-automata/src/parser.ts:337-339 | one step of the block loop analyses statement i in the scope the earlier ones left |
| Checker.AnalyzeStatement | GoLTWebV2/lib/webgl-automata/src/parser.ts:332-381 | the method with the block loop returns what `AnalyzeStmt` specifies |
| Checker.CheckProgramCorrect | GoLTWebV2/lib/webgl-automata/src/parser.ts:383-389 | a program is accepted exactly when a correct annotation exists, and the one returned is it |
| Checker.AnalyzeProgram | GoLTWebV2/lib/webgl-automata/src/parser.ts:383-389 | the loop threading the scope left to right returns what `CheckProgram` specifies |
| Checker.Typecheck | GoLTWebV2/lib/webgl-automata/src/parser.ts:392-400 | an expression root or a program root is analysed; a statement root is refused with its tag |
| Codegen.GenerateBody | GoLTWebV2/lib/webgl-automata/build/complex-shader.js:293-300 | the loop over a block's statements renders what `BodyCode` specifies, each statement followed by a newline |
| Codegen.BodyStep | GoLTWebV2/lib/webgl-automata/build/complex-shader.js:293-300 | one loop step appends statement i's text, or stops at its error |
| Codegen.GenerateStatement | GoLTWebV2/lib/webgl-automata/build/complex-shader.js:290-342 | generateStatement returns what `StmtCode` specifies, for blocks, declarations, assignments and conditionals |
| Codegen.GenerateProgram | GoLTWebV2/lib/webgl-automata/build/complex-shader.js:343-349 | a program renders every statement at the given level, each followed by a newline |
| Codegen.CheckedAccess | GoLTWebV2/lib/webgl-automata/build/complex-shader.js:213-226 | in a checked access a one-segment name is in scope, a built-in becomes `neighbour_count_x` and a declared one `user_var_x`, and a `cell.f` path has two segments |
| Codegen.CheckedExprGenerates | GoLTWebV2/lib/webgl-automata/build/complex-shader.js:179-228 | generateExpression never throws on a checked, parsed expression in a shader scope |
| Codegen.ShaderScopeAfter | GoLTWebV2/lib/webgl-automata/build/complex-shader.js:301-309 | a declaration keeps the shape of a shader scope |
| Codegen.CheckedStmtGenerates | GoLTWebV2/lib/webgl-automata/build/complex-shader.js:310-330 | a checked statement renders exactly when every assignment target it holds is writable; assigning a built-in throws "read-only" |
| Codegen.CheckedBodyGenerates | GoLTWebV2/lib/webgl-automata/build/complex-shader.js:343-349 | a checked body renders exactly when each of its statements is writable |
| Codegen.AssignOpIgnored | GoLTWebV2/lib/webgl-automata/build/complex-shader.js:310-330 | the assignment operator (`=`, `+=`, ...) does not reach the generated text |
| Codegen.ExprBalanced | GoLTWebV2/lib/webgl-automata/build/complex-shader.js:179-228 | the text of an expression opens as many parentheses as it closes |
| Codegen.StripExprParsed | GoLTWebV2/lib/webgl-automata/src/parser.ts:164-283 | annotating an expression does not change what the parser produced |
| Codegen.StripStmtParsed | GoLTWebV2/lib/webgl-automata/src/parser.ts:332-381 | annotating a statement does not change what the parser produced |
| Strings.TrimCode | GoLTWebV2/lib/webgl-automata/build/complex-shader.js:94-102 | the result is `Lines` of the non-blank lines in order, each with the first non-blank line's margin removed (`Dedented`): every line indented by the level and ended by a newline |
| Strings.TrimMargin | GoLTWebV2/lib/webgl-automata/build/complex-shader.js:94-102 | a template whose lines share a margin, surrounded by blank lines, trims to exactly its lines re-indented |
| Strings.SplitJoin | GoLTWebV2/lib/webgl-automata/build/complex-shader.js:95 | splitting at newlines undoes joining newline-free lines with newlines |
| Strings.ParseIntToString | GoLTWeb/ca.js:31 | the rendering of an integer reads back as that integer |
| Strings.ParseNatToString | GoLTWebV2/lib/webgl-automata/build/complex-shader.js:123 | `n.toString(base)` reads back as `n` |
| Shader.ShiftsDescend | GoLTWebV2/lib/webgl-automata/build/complex-shader.js:133-138 | the last span is not shifted, and each other span sits just above the next |
| Shader.RemainingStep | GoLTWebV2/lib/webgl-automata/build/complex-shader.js:133-136 | the running `remaining` minus the span's length is that span's shift |
| Shader.GenerateStateGetterNumber | GoLTWebV2/lib/webgl-automata/build/complex-shader.js:117-149 | the getter text is what `GetterNumber` specifies: one line for a single span, otherwise one shifted line per span |
| Shader.GetterSpanLoop | GoLTWebV2/lib/webgl-automata/build/complex-shader.js:133-140 | the loop emits span k shifted by the total length of the spans after it |
| Shader.GetterSpanStep | GoLTWebV2/lib/webgl-automata/build/complex-shader.js:134-139 | one iteration subtracts the span's length, so `remaining` becomes the total length of the later spans, and appends the line of that span |
| Shader.GenerateStateSetterNumber | GoLTWebV2/lib/webgl-automata/build/complex-shader.js:150-178 | the setter text is what `SetterNumber` specifies |
| Shader.SetterSpanLoop | GoLTWebV2/lib/webgl-automata/build/complex-shader.js:165-172 | the loop emits span k shifted by the total length of the spans after it |
| Shader.SetterSpanStep | GoLTWebV2/lib/webgl-automata/build/complex-shader.js:166-171 | one iteration subtracts the span's length, so `remaining` becomes the total length of the later spans, and appends the line of that span |
| Shader.GenerateCountFuncs | GoLTWebV2/lib/webgl-automata/build/complex-shader.js:401-403 | the loop emits each element's counting function in order, stopping at the first error |
| Shader.JoinedErrPersists | GoLTWebV2/lib/webgl-automata/build/complex-shader.js:401-403 | once one counting function fails, every longer prefix fails the same way |
| Shader.JoinedOk | GoLTWebV2/lib/webgl-automata/build/complex-shader.js:401-403 | the texts join exactly when every element renders |
| Shader.CellType | GoLTWebV2/lib/webgl-automata/build/complex-shader.js:351-364 | `cell` is a struct with one property per state variable: Int for a number, Boolean for a flag |
| Shader.AddKernelNames | GoLTWebV2/lib/webgl-automata/build/complex-shader.js:366-373 | the loop adds every element's count to the scope as `WithKernels` specifies |
| Shader.WithKernelsKeys | GoLTWebV2/lib/webgl-automata/build/complex-shader.js:366-373 | after the counts are added, the scope's names are its old names plus the elements' names |
| Shader.WithKernelsOther | GoLTWebV2/lib/webgl-automata/build/complex-shader.js:366-373 | a name that no element has keeps its entry |
| Shader.WithKernelsLast | GoLTWebV2/lib/webgl-automata/build/complex-shader.js:366-373 | an element's name is bound to its read-only count (Int for an int kernel, Float otherwise) unless a later element has the same name |
| Shader.KernelScopeShape | GoLTWebV2/lib/webgl-automata/build/complex-shader.js:351-373 | the root scope and the scope with the counts have the shape the expression generator relies on |
| Shader.ValueFnSeesOnlyCell | GoLTWebV2/lib/webgl-automata/build/complex-shader.js:365 | value expressions are checked before the counts are added, so any name other than `cell` is not defined |
| Shader.Analyze | GoLTWebV2/lib/webgl-automata/build/complex-shader.js:351-375 | a successful analysis yields a layout whose every field lies inside its bytes |
| Shader.GenerateAccessors | GoLTWebV2/lib/webgl-automata/build/complex-shader.js:390-400 | the loop over the state variables emits every getter and setter, as `Accessors` specifies |
| Shader.GenerateNeighbourDecls | GoLTWebV2/lib/webgl-automata/build/complex-shader.js:407-411 | the main function declares every count in element order |
| Shader.GenerateStateLoads | GoLTWebV2/lib/webgl-automata/build/complex-shader.js:415-421 | every state variable is read into a local, `bool` for a flag and `int` otherwise |
| Shader.GenerateStateStores | GoLTWebV2/lib/webgl-automata/build/complex-shader.js:423-427 | every state variable's local is written back into the cell |
| Shader.AnalyzeShader | GoLTWebV2/lib/webgl-automata/build/complex-shader.js:351-375 | the layout, the neighbour setting, the scope and the checked program, failing at the first stage that throws |
| Shader.RenderShader | GoLTWebV2/lib/webgl-automata/build/complex-shader.js:376-433 | the counting functions, then the program's code, then the text around the template |
| Shader.AssembleShader | GoLTWebV2/lib/webgl-automata/build/complex-shader.js:376-433 | the text is assembled as `ShaderCode` specifies |
| Shader.GenerateShaderWith | GoLTWebV2/lib/webgl-automata/build/complex-shader.js:350-433 | the analysis stages, then the generation stages, around the given template lines |
| Shader.GenerateShader | GoLTWebV2/lib/webgl-automata/build/complex-shader.js:350-433 | generateShader is `ShaderText` over its own template lines |
| Shader.KernelsChecked | GoLTWebV2/lib/webgl-automata/build/complex-shader.js:74-85 | every kernel value expression in the setting is parsed and correctly checked in the cell-only scope |
| Shader.CountsGenerate | GoLTWebV2/lib/webgl-automata/build/complex-shader.js:229-289 | counting functions of checked value expressions always render |
| Shader.ProgramChecked | GoLTWebV2/lib/webgl-automata/build/complex-shader.js:374-375 | a parsed program the checker accepts comes back parsed and correctly annotated |
| Shader.RenderGenerates | GoLTWebV2/lib/webgl-automata/build/complex-shader.js:376-433 | after a successful analysis, rendering fails only on an assignment to a name that is not writable |
| Shader.AnalysisChecked | GoLTWebV2/lib/webgl-automata/build/complex-shader.js:351-375 | the analysis hands checked kernels and a checked program to the generation stages |
| Shader.ShaderGenerates | GoLTWebV2/lib/webgl-automata/build/complex-shader.js:350-433 | for parsed input the shader is produced exactly when the analysis succeeds and every statement of the checked program is writable |
| Life.Zeros | generate.py:113 | a board of the given shape holding only zeros |
| Life.After | generate.py:137 | the right neighbour index is in range, and it is 0 exactly when x+1 >= size-1 |
| Life.Before | generate.py:138 | the left neighbour index is in range, and it is size-1 exactly when x-1 <= 0 |
| Life.WrapSkipsEdges | generate.py:137-140 | the wrap skips the edges: cell 1's left neighbour is the last cell and cell size-2's right neighbour is 0 |
| Life.Neighbours | generate.py:133-152 | on a 0/1 board the count of the eight neighbours is between 0 and 8 |
| Life.NextCell | generate.py:166-178 | a cell lives exactly when it is born (dead and the count is a birth count) or survives (alive and the count is a survive count or its lifetime is below starve) |
| Life.NoStarvation | generate.py:174-178 | with starve at most 0 a live cell lives on only by the survive counts |
| Life.NextLifetime | generate.py:180-184 | an unchanged cell's lifetime becomes min(old+1, 255) and a changed cell's becomes 0, so it stays in 0..255 |
| Life.NextGrid | generate.py:158-178 | the next generation has the board's shape and holds each cell's next state |
| Life.NextLives | generate.py:159-184 | the next lifetimes have the board's shape and hold each cell's next lifetime |
| Life.NextGridBinary | generate.py:166-178 | every computed generation holds only zeros and ones |
| Life.NextLivesBounded | generate.py:180-184 | lifetimes stay between 0 and 255 |
| Life.GoLT.constructor | generate.py:101-113 | the first generation, zero lifetimes and step count 0 |
| Life.GoLT.EvaluateStep | generate.py:154-190 | appends exactly one state board and one lifetime board (the next generation of the latest) and counts the step, leaving earlier generations unchanged |
| Life.GoLT.EvaluateBoards | generate.py:158-184 | the nested loops fill two zero boards with the next generation and its lifetimes |
| Life.GoLT.EvaluateRow | generate.py:163-184 | the inner loop fills row iy of both boards and leaves every other row unchanged |
| Life.GoLT.GridOfCells | generate.py:158-184 | boards filled cell by cell with the next generation are the next generation |
| Life.GoLT.VisHelper | generate.py:122-131 | steps until generation gen+5 exists and returns generation gen (0 when gen is negative), its lifetimes when `mode` is set, keeping earlier generations |
| Life.HalfTruncated | generate.py:214-218 | `int(v/2)` truncates toward zero for negative and non-negative v |
| Life.Wrapped | generate.py:218 | a Python index counts from the end when negative |
| Life.Rows | generate.py:158-159 | a two-dimensional array read as a board of its shape |
| Life.Generator.constructor | generate.py:194-196 | a fresh board of zeros of the given size |
| Life.Generator.Empty | generate.py:202-203 | empty returns the board as it stands |
| Life.Generator.Square | generate.py:213-219 | square sets to 1 exactly the cells whose row and column the dy-by-dx loop writes, leaves every other cell as it was, and returns the board |
| Fragment.Clauses | GoLTWeb/ca.js:31 | one `neighbours == n` clause per number, in list order |
| Fragment.AgeGuarded | GoLTWeb/ca.js:33 | the guarded condition is `(`, the condition, then `) && age < ` and the limit |
| Fragment.ReadClause | GoLTWeb/ca.js:31 | reading a clause consumes text |
| Fragment.ConditionRoundTrip | GoLTWeb/ca.js:31 | a condition reads back as exactly its numbers in order, and the empty list gives the empty text |
| Fragment.ConditionInjective | GoLTWebV2/lib/webgl-automata/src/index.ts:20 | different number lists give different conditions |
| Fragment.ClauseRead | GoLTWeb/ca.js:31 | a clause followed by nothing or by ` \|\| ` is read as its number |
| Fragment.RenderAppend | GoLTWebV2/lib/webgl-automata/src/index.ts:25-71 | rendering concatenated templates renders each in turn |
| Fragment.RenderAt | GoLTWebV2/lib/webgl-automata/src/index.ts:25-71 | each piece of a template renders at the place where the pieces before it end |
| Fragment.RenderSlots | GoLTWebV2/lib/webgl-automata/src/index.ts:25-71 | every hole of a template holds its value at the place where the pieces before it end |
| Automaton.SurviveConditionRead | GoLTWeb/ca.js:31-34 | with naturalDeath > 0 the survive condition is `(`, a condition that reads back as the survive list, then `) && age < naturalDeath`; otherwise it reads back as the list itself |
| Automaton.FragmentShaderVersion | GoLTWeb/ca.js:37-38 | the shader starts with a newline and `#version 300 es` |
| Automaton.FragmentShaderBirth | GoLTWeb/ca.js:36-93 | the birth condition in the shader reads back as the birth list |
| Automaton.FragmentShaderSurvive | GoLTWeb/ca.js:30-93 | the survive condition stands in the shader, behind `(` exactly when naturalDeath > 0 |
| Automaton.PushedKeepsNewest | GoLTWeb/ca.js:181-185 | iterate keeps 1 <= length <= historyCount, puts the new board last and keeps the newest boards in order |
| Automaton.PoppedKeepsOldest | GoLTWeb/ca.js:190-197 | goBack keeps a non-empty history and its oldest boards |
| Automaton.GoBackAfterIterate | GoLTWeb/ca.js:173-197 | going back after an iterate gives the old history, minus its oldest board when the history was full |
| Automaton.CellularAutomaton.constructor | GoLTWeb/ca.js:98-103 | historyCount clamped to at least 1, history holding the seeded zero board, which is the current board, at generation 0 |
| Automaton.CellularAutomaton.Iterate | GoLTWeb/ca.js:173-188 | pushes the new board, drops the oldest only past historyCount, makes it current and counts the generation |
| Automaton.CellularAutomaton.GoBack | GoLTWeb/ca.js:190-197 | with one board nothing changes; otherwise pops, the new last board becomes current and the generation goes down by one |
| Automaton.CellularAutomaton.GetCell | GoLTWeb/ca.js:199-205 | the cell at offset (x*width+y)*4 of the current board: active when byte 0 is positive, age byte 1 |
| Automaton.CellularAutomaton.CurrentBoard | GoLTWeb/ca.js:208-210 | the current board is the newest board of the history |
| Automaton.ByteAt | GoLTWeb/ca.js:202-203 | a byte inside the board, `undefined` outside |
| Automaton.Zeros | GoLTWeb/ca.js:165 | a new byte array of the given length holding zeros |
| Seeds.CreateSeed | GoLTWeb/utils.js:30-38 | a fresh array of width*height*4 bytes whose red byte of pixel (i, j) is 255 exactly when 5 <= i < height-5 and 5 <= j < width-5, every other byte 0 |
| Seeds.FillRow | GoLTWeb/utils.js:33-35 | the inner loop fills row i's red bytes for columns 5 to width-6 |
| Seeds.Fill | GoLTWeb/utils.js:34 | writing one red byte changes no other channel or pixel |
| Seeds.FilledIsSeed | GoLTWeb/utils.js:32-36 | once every visited row is filled, the board is the seed |
| Seeds.OffsetInjective | GoLTWeb/utils.js:34 | different channels of different pixels lie at different offsets |
| Seeds.SeedCells | GoLTWeb/utils.js:30-38 | getCell on a seed: a cell is active exactly when it is five or more cells in from every edge, and its age is 0 |
| Seeds.Clamp | GoLTWeb/utils.js:254-256 | within [lo, hi] when lo <= hi, v itself when already there, lo below and hi above; hi whenever lo > hi |
| SimpleShader.SurviveConditionsAgree | GoLTWebV2/lib/webgl-automata/src/index.ts:20-23 | a null natural death gives ca.js's unguarded condition; a number l gives the same text as ca.js exactly when l > 0 |
| SimpleShader.Interleave | GoLTWebV2/lib/webgl-automata/src/index.ts:25-71 | texts and holes alternate, starting with a text |
| SimpleShader.InterleaveHoles | GoLTWebV2/lib/webgl-automata/src/index.ts:25-71 | interleaving puts exactly the given holes into the template, in order |
| SimpleShader.HolesAppend | GoLTWebV2/lib/webgl-automata/src/index.ts:25-71 | the holes of a concatenation are the holes of each part |
| SimpleShader.SimpleTemplateHoles | GoLTWebV2/lib/webgl-automata/src/index.ts:27-66 | the template's holes are the texture and coordinate names at each use site, then the survive and birth conditions |
| SimpleShader.ShaderSourceVersion | GoLTWebV2/lib/webgl-automata/src/index.ts:25 | the shader text starts with `#version 300 es`, with no newline before it |
| SimpleShader.ShaderSourceHoles | GoLTWebV2/lib/webgl-automata/src/index.ts:19-72 | every hole holds its value at its place in the text: the given names at every use site, and the two conditions |
| SimpleShader.Texts | GoLTWebV2/lib/webgl-automata/src/index.ts:25-71 | the template literal has one fixed text more than it has holes |

## Left out

- Parsing: the generated peggy parser and the thin `parseExpression`/`parseProgram` wrappers are not part of this model. The checker and the generators take ASTs.
- Floating point: the values of the `Float32Array` weights are modelled as reals and the float `count` accumulation is not modelled. `FloatLiteral` text is kept as the parser would render it. The rounding of `neighbours` in `getCell` is not modelled, so `Cell` has no neighbour count.
- GPU semantics: the model states the text the generators emit, never what the GLSL computes. No getter/setter round trip is stated, because the emitted accessors do not provide one.
- Strings.TrimCode: requires a non-blank line. The source reads `lines[0]` without a guard and would throw on input made only of blank lines.
- JavaScript objects: the layout record and the properties of a struct type are ordered lists. Integer-like keys, which JavaScript would enumerate first, and prototype-chain names such as `toString` are not modelled.
- Kernels.MakeNeighbourSetting: the kernel configuration, a JavaScript object keyed by kernel name in the source, is a sequence of named kernels. The model neither collapses two kernels of the same name into one key nor moves integer-like names to the front, as `for…in` and `Object.keys` would.
- Shader.GenerateShader: each template that the source passes through trimCode is modelled as the lines trimCode makes of it. This is exact only when no state or kernel name contains a newline and every kernel type is non-empty and starts with a non-white-space character. A newline in a name would split a template line. An empty type or one that starts with white space would change the margin trimCode removes. The same holds for the helpers `Shader.GetterFlag`, `Shader.CountHeader`, `Shader.NeighbourDecl`, `Shader.StateLoad` and `Shader.StateStore`.
- Codegen.GenerateExpression: an `IntLiteral` renders as its full decimal numeral. JavaScript's `${value}` gives exponent form from 10^21 on ("1e+21"), and a JavaScript number holds integers exactly only up to 2^53. Literals that large are not modelled.
- Layout.MakeStateLayout: a number field's `length` (`FieldKind.Number`) is an integer. The source also accepts a fractional length and runs its loop on floating-point counters; such lengths are not modelled.
- Automaton.SurviveCondition: `naturalDeath` is an integer. The source takes any number, so 2.5 would render as "age < 2.5"; non-integer limits are not modelled.
- SimpleShader.SurviveCondition: `natural_death` is an integer or null. As in the line above, a fractional value such as 2.5 is not modelled.
- Strings.IsSpace: only the ASCII white-space characters count. JavaScript's `trim()` and `\S` also treat U+00A0, U+FEFF, U+1680, U+2000 to U+200A, U+2028, U+2029, U+202F, U+205F and U+3000 as white space. A template line that starts with one of them is trimmed differently by the source.
- Node mutation: the checker writes `scope`, `expr_type` and `var_type` into the nodes it visits. The model returns annotated copies, so aliasing between nodes is not captured.
- WebGL plumbing: the canvas, the textures, `drawArrays`/`readPixels` in `iterate` and the shader program compiled in the `CellularAutomaton` constructor are not modelled. `Automaton.CellularAutomaton.Iterate` takes the board the GPU computed as a parameter.
- Automaton.CellularAutomaton.constructor: does not take `survive`/`birth`. The fragment shader it compiles is `CaFragmentShader`, stated on its own.
- `onGenerationChanged`/`signalGenerationChanged`: the callback is an outside effect and is not modelled.
- Boards are values: `Uint8Array` boards are sequences, so the aliasing of the history's boards with `current_board` is not captured.
- Automaton.CellularAutomaton.constructor: `seedFn` is a pure function that returns the seeded board instead of filling it in place.
- Automaton.CellularAutomaton.constructor: requires width*height >= 0, where JavaScript's `Uint8Array` would throw a RangeError.
- Survive and birth numbers are integers. Other JavaScript values in the lists are not modelled.
- Seeds.CreateSeed: width and height are naturals. Negative or fractional sizes are not modelled.
- Seeds.Clamp: takes real numbers. NaN and the infinities, which `Math.max` and `Math.min` also accept, are not modelled.
- `Automaton.CaFragmentShader` and `SimpleShader.ShaderSourceFromSimpleRuleset`: carry no contract of their own. Their properties are stated on `Automaton.FragmentShader` and `SimpleShader.ShaderSource` over the fixed template text, which is passed in as a value.
- Life.Generator.Square: requires every index it writes to be a valid Python index. The source raises an IndexError otherwise.
- Life.Neighbours: a function over the latest board. The source accumulates `n` in a method.
- generate.py: `step_timer` and `startTime` read the clock; `random`, `printPlayfield` and the unfinished `dot` generator are not modelled; neither is the visualisation and main loop.
- GoLTGenV2/GoLT.js is not part of this model. It repeats the Python rule interleaved with canvas drawing.
- `shaderSourceFromFunctionalRuleset` is not part of this model. It wraps a foreign library.
- The example configuration and its console output at the end of complex-shader.js are not modelled.
- The vertex shader text and the random, blob, circle, oval and ring seeds in utils.js are not modelled.
