# VIFF translator of Musketeer, modelled in Dafny

Musketeer compiles a dataflow of relational operators into jobs for several
back-ends. Its VIFF back-end (`src/translation/translator_viff.cc`) turns a
DAG of secure (MPC) operators into one Python program for the VIFF runtime.
This project models the decisions that translator makes and proves what
they guarantee:

- **Input discovery** (`Resolver`). A breadth-first walk from the roots reports
  every relation read before any visited operator has read or produced its
  name, each with the input path its reader gives for it. The dequeue order
  is specified as the fixpoint `order == Pushes(g, roots, order)` of a walk
  that dequeues only what it has enqueued (`Enqueued`). `WalkUnique` proves
  these two conditions fix the order. The report is the set `FirstReads` of
  the walk's read/produce events. As in the source, a relation counts as an
  input when its reader is dequeued before its producer
  (`ProducedLaterStillReported`).
- **Readiness-gated discovery** (`Spark`). This is the walk over relation names
  that fills the translator's name-to-relation registry. A child passes when
  its inputs are ready or either operator is a WHILE. It is specified by a
  functional reference (`Seed`, `ReadAll`, `ChildAll`, `Round`, `Drain`). The
  registry is the field `relations` of class `TranslatorViff`. At the end of
  the walk it holds every name the walk visited or reported, every root's
  output and every relation read by a dequeued node (`SparkResult`,
  `SparkReadsRegistered`).
- **Scheduling** (`Scheduler`). `CanSchedule` is proved against `Schedulable`.
  The recursive `TranslateDAG` is proved against the reference `Sched`, which
  also records the trace of scheduled nodes. `Inv` and `Rooted` then state
  what every scheduled node contributed, and that each output name is
  scheduled at most once.
- **Code generation** (`Viff`). The processed set is seeded with the input
  names. The program sections are concatenated in a fixed order.
- **Arithmetic lambdas** (`Lambda`). `GenerateLambda` is proved equal to
  `LambdaText`: `lambda e1, ..., en: [...]`, with one element per column. The
  model keeps the source's two quirks:
  - division by a constant leaves `divide(` unclosed;
  - a constant left operand is written after the column.
- **Placeholder values** (`Emitter`). These are the template dictionaries
  of each operator, the aggregate symbol mapping, and the ownership flag of
  an input.

Collaborators that are not part of this model are parameters:
- the template expansion, `expand`;
- the templates directory, `dir`;
- the VIFF configuration location;
- `CreateInputPath`, `inputPath`;
- `IsGeneratedByOp`, `gen`;
- the data-owner test, `owns`.

The operator graph is a sequence of nodes addressed by index. Each node holds
its operator, its parents, its children and its loop children.

## Model

| member | source | states |
|---|---|---|
| Emitter.GenerateAggMPCOp | src/translation/translator_viff.cc:361-369 | the result is `sum` exactly when the symbol is `+`, and `unknown` for every other symbol |
| Emitter.SelectDict | src/translation/translator_viff.cc:296-308 | the select dictionary has exactly OUT_REL and IN_REL: the output name and the first input's name |
| Emitter.AggDict | src/translation/translator_viff.cc:310-327 | exactly five placeholders; GROUP_BY_COL reads back as the first group-by index and AGG_COL as the first column index; AGG_OP is `sum` exactly for `+` |
| Emitter.JoinDict | src/translation/translator_viff.cc:329-342 | LEFT_REL and RIGHT_REL are the first and second inputs; LEFT_COL and RIGHT_COL read back as the join column indices |
| Emitter.MathDict | src/translation/translator_viff.cc:389-392 | the math dictionary holds the output name, the first input's name and the lambda |
| Emitter.TranslateMathOp | src/translation/translator_viff.cc:381-398 | the fragment expands the math template with the lambda over the first input's columns and the two operands |
| Emitter.TranslateOperator | src/translation/translator_viff.cc:296-350 | the dispatch yields the fragment of `OperatorCode`: each variant's template with its dictionary |
| Emitter.OperatorCodeTotal | src/translation/translator_viff.cc:296-350 | an operator has no fragment exactly when it is a WHILE |
| Emitter.InputFlag | src/translation/translator_viff.cc:241 | the flag is `True` exactly when this party owns the relation, otherwise `False` |
| Emitter.InputDict | src/translation/translator_viff.cc:242-245 | the input dictionary holds REL, INPUT_PATH and INPUT_FLAG, the flag true exactly for an owned relation |
| Emitter.TranslateInput | src/translation/translator_viff.cc:234-251 | one input fragment per reported pair, in an enumeration of the set that repeats nothing and misses nothing |
| Emitter.OutputDict | src/translation/translator_viff.cc:256-258 | the output dictionary holds REL and OUTPUT_PATH of the leaf's operator |
| Emitter.TranslateOutput | src/translation/translator_viff.cc:253-265 | one output fragment per leaf, in an enumeration of the leaf set that repeats nothing and misses nothing |
| Emitter.ImportAndUtils | src/translation/translator_viff.cc:209-215 | the import section is the import template expanded with no placeholder set |
| Emitter.CloseProtocol | src/translation/translator_viff.cc:217-223 | the close section is the close template expanded with no placeholder set |
| Emitter.MainDict | src/translation/translator_viff.cc:227-228 | the entry dictionary holds exactly VIFF_CONFIG_LOC, the configuration location |
| Emitter.MainSection | src/translation/translator_viff.cc:225-232 | the entry section is the main template expanded with that dictionary |
| Text.DecimalRoundTrip | src/translation/translator_viff.cc:319-320 | the decimal text of an index reads back as that index |
| Text.DecimalDigits | src/translation/translator_viff.cc:413 | the decimal text is a non-empty digit string without a leading zero |
| Lambda.Params | src/translation/translator_viff.cc:411-417 | one parameter per column, `e` followed by the column's index plus one |
| Lambda.SmallParams | src/translation/translator_viff.cc:413 | the first columns are named `e1`, `e2`, `e3` |
| Lambda.OperandIndex | src/translation/translator_viff.cc:404-432 | the operand index is -1 exactly for a constant operand |
| Lambda.Elements | src/translation/translator_viff.cc:434-479 | the body has exactly one element per column, each rendered by the column cases |
| Lambda.RenderColumn | src/translation/translator_viff.cc:435-475 | the text written for one column is its `Element` |
| Lambda.RenderElements | src/translation/translator_viff.cc:433-479 | the body loop writes the elements joined by `, ` |
| Lambda.GenerateLambda | src/translation/translator_viff.cc:400-482 | the lambda is `lambda `, the parameters joined by `, `, then `: [`, the elements joined by `, `, then `]` |
| Lambda.ElementUntouched | src/translation/translator_viff.cc:469-475 | a column that is not an operand renders as its parameter, or as `e` in a one-column relation |
| Lambda.ElementBothColumns | src/translation/translator_viff.cc:436-458 | with two column operands, the left column renders as `eL op eR` for `*` and as `divide(eL, eR)` for `/` |
| Lambda.ElementDivideByConstant | src/translation/translator_viff.cc:436-460 | dividing a column by a constant renders `divide(eL, ` followed by the constant, with no closing parenthesis |
| Lambda.ElementConstantLeft | src/translation/translator_viff.cc:462-468 | a constant left operand renders after the column: `eR op c` |
| Lambda.LambdaParenBalance | src/translation/translator_viff.cc:434-480 | with balanced constants, parentheses in the lambda balance, except for one unclosed `divide(` per occurrence of the divided column |
| Lambda.DivideByConstantUnbalanced | src/translation/translator_viff.cc:436-460 | a multi-column division of a column by a constant is never balanced |
| Lambda.ElementTimesConstant | src/translation/translator_viff.cc:436-461 | multiplying a column by a constant in a multi-column relation renders `eL op c` |
| Lambda.ElementRightColumn | src/translation/translator_viff.cc:462-475 | between two distinct columns, the right operand's column renders as its parameter, or `e` in a one-column relation |
| Lambda.ElementOneColumn | src/translation/translator_viff.cc:445-467 | in a one-column relation an element is `e op e`, `e op c` or `e`, never `divide(` |
| Lambda.LambdaOneColumn | src/translation/translator_viff.cc:410-481 | a one-column lambda is `lambda eN: [x]`, with its one parameter and its one element |
| Lambda.ExampleSingleColumn | src/translation/translator_viff.cc:446-457 | in a one-column relation the lambda is written with the bare `e`: `lambda e1: [e / e]` |
| Resolver.GetInputRelsAndPaths | src/translation/translator_viff.cc:59-96 | the dequeue order is the one walk from the roots (the fixpoint that dequeues only enqueued nodes), and the result is exactly the first reads of its events, each with its reader's input path; no relation name is reported twice |
| Resolver.WalkUnique | src/translation/translator_viff.cc:64-93 | the fixpoint equation together with dequeuing only enqueued nodes has one solution: the walk's order is determined by the graph and the roots |
| Resolver.WalkEnqueued | src/translation/translator_viff.cc:68-70 | each dequeued node is one the walk had already enqueued |
| Resolver.VisitRelations | src/translation/translator_viff.cc:72-81 | a read is reported when its name is not yet known; afterwards the read names and the output name are known |
| Resolver.EnqueueChildren | src/translation/translator_viff.cc:82-92 | exactly the unvisited children are marked and enqueued, in order, once each |
| Resolver.WalkStep | src/translation/translator_viff.cc:66-93 | one dequeue keeps the walk state: the queue is the rest of the push history, and the known names and reports are those of the dequeued prefix |
| Resolver.FreshFacts | src/translation/translator_viff.cc:87-91 | a pushed child is exactly a child not marked before, and none is pushed twice |
| Resolver.NodeEvents | src/translation/translator_viff.cc:72-81 | a visited operator reads its inputs in order, then produces its output |
| Resolver.FirstReadsExactly | src/translation/translator_viff.cc:76-80 | a pair is reported exactly when it comes from a read of a name no earlier event mentions |
| Resolver.FirstReadsSound | src/translation/translator_viff.cc:76-80 | every reported pair comes from a first read |
| Resolver.FirstReadsComplete | src/translation/translator_viff.cc:76-80 | every first read is reported |
| Resolver.FirstReadUnique | src/translation/translator_viff.cc:76-78 | at most one read of a name is its first read |
| Resolver.ReportedOnce | src/translation/translator_viff.cc:76-80 | two reported pairs with the same relation name are the same pair |
| Resolver.NoReportAfterProduce | src/translation/translator_viff.cc:81 | once a visited operator has produced a name, no later read of it is reported |
| Resolver.UnproducedReadReported | src/translation/translator_viff.cc:64-92 | a relation some walked operator reads and no walked operator produces is reported |
| Resolver.UnproducedReadInEvents | src/translation/translator_viff.cc:74-81 | in the event stream, a read name that no event produces is reported |
| Resolver.EventsHoldReads | src/translation/translator_viff.cc:72-80 | every read of a walked operator is an event of the walk |
| Resolver.EventsProduceOutputs | src/translation/translator_viff.cc:73-81 | every production in the walk is the output of a walked operator |
| Resolver.ProducedLaterStillReported | src/translation/translator_viff.cc:64-92 | in a graph where the reader is a root and the producer is two levels down, the walk reports the relation as an input although it produces it |
| Resolver.ReaderBeforeProducerWalk | src/translation/translator_viff.cc:64-92 | the walk of that graph dequeues the roots, then the producer's parent, then the producer |
| Resolver.ReportedNotProducedBefore | src/translation/translator_viff.cc:76-81 | a reported relation is read before any event of the walk mentions its name |
| Resolver.PushesStartWithRoots | src/translation/translator_viff.cc:63-66 | the walk visits the roots first, in their order |
| Resolver.PushesNoDup | src/translation/translator_viff.cc:63-66 | without repeated roots, no node is enqueued or dequeued twice |
| Resolver.WalkClosed | src/translation/translator_viff.cc:82-92 | the finished walk holds every root and every child of every node it holds |
| Spark.TranslatorViff.constructor | src/translation/translator_viff.cc:43-48 | a translator starts with an empty name-to-relation registry |
| Spark.TranslatorViff.DetermineInputsSpark | src/translation/translator_viff.cc:98-160 | the reported inputs, the grown input and visited names and the registry are those of the reference walk `Drain` from `Seed` |
| Spark.TranslatorViff.ReadRelations | src/translation/translator_viff.cc:114-130 | the reads of a dequeued node: every relation is registered, and reported when it is an input |
| Spark.TranslatorViff.PassChildren | src/translation/translator_viff.cc:131-157 | the children, loop children first, pass the gate, are registered, and are enqueued when their name is new |
| Spark.CanAdd | src/translation/translator_viff.cc:137-147 | a child is ready exactly when none of its inputs is unvisited, not an input, and generated by the current node's parents |
| Spark.Seed | src/translation/translator_viff.cc:102-108 | the root loop enqueues exactly the roots, with no input reported |
| Spark.SeedFacts | src/translation/translator_viff.cc:102-108 | before traversal, every root's output name is visited and registered |
| Spark.ReadStepLedger | src/translation/translator_viff.cc:117-130 | a read keeps the ledger, and its relation is registered in both branches |
| Spark.ReadAllLedger | src/translation/translator_viff.cc:114-130 | a node's reads keep the ledger and register every relation read |
| Spark.ChildStepGate | src/translation/translator_viff.cc:149-156 | a child is enqueued exactly when it passes the gate (ready, or either operator a WHILE) and its name is newly visited; a gated-out child changes nothing |
| Spark.ChildAllFresh | src/translation/translator_viff.cc:149-156 | the nodes one round enqueues have distinct output names that were not visited before the round |
| Spark.ChildAllGrowth | src/translation/translator_viff.cc:131-157 | passing children only appends to the queue, and adds one visited name per enqueued node |
| Spark.RoundMeasure | src/translation/translator_viff.cc:109-157 | each round visits a new name or shortens the queue, so the walk ends |
| Spark.DrainLedger | src/translation/translator_viff.cc:109-158 | the whole walk keeps the ledger, only grows the visited names, inputs and registry, and empties the queue |
| Spark.SparkResult | src/translation/translator_viff.cc:98-160 | the walk's result: root names visited and registered; reported names distinct and not earlier inputs, visited names or roots; inputs grow by exactly the reports; every newly visited or reported name is in the registry; registry entries filed under their own name |
| Spark.SeedCovered | src/translation/translator_viff.cc:103-108 | the root loop registers every name it marks visited |
| Spark.ReadAllCovered | src/translation/translator_viff.cc:114-130 | a node's reads register every name they report as an input |
| Spark.ChildAllCovered | src/translation/translator_viff.cc:149-156 | passing children registers every name it marks visited |
| Spark.RoundCovered | src/translation/translator_viff.cc:109-157 | one dequeue keeps every newly visited or reported name registered |
| Spark.DrainCovered | src/translation/translator_viff.cc:109-158 | the whole walk keeps every newly visited or reported name registered |
| Spark.DrainTrace | src/translation/translator_viff.cc:109-111 | the nodes the walk dequeues, all of them nodes of the graph |
| Spark.DrainTraceQueue | src/translation/translator_viff.cc:102-111 | the queue is first-in first-out: the nodes queued at the start are dequeued first, in order |
| Spark.RoundRegistersReads | src/translation/translator_viff.cc:114-130 | one dequeue registers every relation the dequeued node reads |
| Spark.DrainRegistersReads | src/translation/translator_viff.cc:109-158 | every relation read by a dequeued node is in the registry when the walk ends |
| Spark.SparkReadsRegistered | src/translation/translator_viff.cc:98-160 | from the roots, the walk dequeues the roots first, in order, and registers every relation any dequeued node reads |
| Scheduler.CanSchedule | src/translation/translator_viff.cc:163-181 | true exactly when the output name is not processed and every input name is |
| Scheduler.Sched | src/translation/translator_viff.cc:183-207 | scheduling only grows the processed names |
| Scheduler.SchedOne | src/translation/translator_viff.cc:186-205 | scheduling one node only grows the processed names |
| Scheduler.TranslateDAG | src/translation/translator_viff.cc:183-207 | the code, leaves and processed names are those of the reference `Sched`, or it reports the node that has no fragment, which is always a WHILE node of the graph; on success the processed names only grow |
| Scheduler.TranslateNode | src/translation/translator_viff.cc:186-205 | one node's translation matches `SchedOne`; a reported node is a WHILE; on success the processed names only grow |
| Scheduler.OutSeq | src/translation/translator_viff.cc:189 | the output names of a trace, position by position |
| Scheduler.EmitKeepsInv | src/translation/translator_viff.cc:191-197 | scheduling a ready node appends its fragment, processes its output, and records it if it is a leaf; the invariant is kept |
| Scheduler.EmitReady | src/translation/translator_viff.cc:191 | every scheduled node read only seeded names or earlier outputs |
| Scheduler.EmitFragments | src/translation/translator_viff.cc:193-197 | emitting appends exactly the node's fragment, and adds the node to the leaves only when it is a leaf |
| Scheduler.SchedPreserves | src/translation/translator_viff.cc:183-207 | any property kept by scheduling one ready node is kept by the whole recursion |
| Scheduler.SchedOnePreserves | src/translation/translator_viff.cc:186-205 | the same for the scheduling of one node |
| Scheduler.SchedKeepsInv | src/translation/translator_viff.cc:183-207 | after scheduling: processed = seed + scheduled outputs; code = their fragments in order; leaves = scheduled leaves; each output name once; no WHILE scheduled; inputs already processed |
| Scheduler.SchedExtends | src/translation/translator_viff.cc:183-207 | scheduling only appends to the trace of scheduled nodes |
| Scheduler.SchedRooted | src/translation/translator_viff.cc:196-199 | every scheduled node is a root or an ordinary child of an earlier scheduled non-leaf; loop children are never entered |
| Scheduler.SchedOneRooted | src/translation/translator_viff.cc:196-199 | the same for the scheduling of one node |
| Scheduler.SchedFails | src/translation/translator_viff.cc:191-192 | scheduling fails only at a WHILE node of the graph |
| Scheduler.SchedOneFails | src/translation/translator_viff.cc:191-192 | the same for the scheduling of one node |
| Scheduler.SchedOneUnready | src/translation/translator_viff.cc:190-204 | an unready node contributes no code, no leaf and no processed name |
| Scheduler.LeafSetMembers | src/translation/translator_viff.cc:195-197 | a node is a leaf of the result exactly when it was scheduled and is a leaf |
| Scheduler.ProtocolFacts | src/translation/translator_viff.cc:281-286 | from the seeded start, a successful scheduling satisfies the invariant and `Rooted`; a failed one stopped at a WHILE |
| Viff.SeedProcessed | src/translation/translator_viff.cc:281-284 | the processed names start as exactly the names of the reported inputs |
| Viff.GenerateCode | src/translation/translator_viff.cc:267-291 | the program is import + inputs + protocol + outputs + close + main, each section as its reference; None exactly when scheduling meets a WHILE, so only for a graph that holds one; a program always starts with the imports |

## Left out

- `WriteToFiles` writes the program to a file and returns the file's path. `GetSourcePath`/`GetBinaryPath` compute that path. This is I/O: `GenerateCode` returns the program text instead. The read of `dag[0]` feeds only `WriteToFiles`, so it is not modelled either. So the model returns a program for an empty `dag`, where the source's `dag[0]` (lines 267-294) is undefined behaviour.
- `GenerateColumns` and `GenerateColumnTypes`: they depend on `Column::toString` and on the type conversion, and neither is part of this model.
- `ExpandTemplate` and the ctemplate dictionaries: the expansion is the parameter `expand`, applied to the template path and a placeholder map.
- `FLAGS_viff_templates_dir`, `FLAGS_viff_config_loc` and `FLAGS_data_owner_id` are parameters; `LOG` output is not modelled.
- `CreateInputPath`, `IsGeneratedByOp` and `has_owner` are defined outside this file, so they are parameters with no interpretation.
- The iteration order of `std::set` over object addresses, in the input and output sections and the seeding of the processed names: the model iterates in an arbitrary order. It claims no order among input or output fragments, only that each element contributes exactly once.
- Object identity: relations and nodes are values and indices. Set membership keyed on addresses becomes membership of values.
- The `TranslateOperator` dispatch and its `dynamic_cast` are not in this file. They are modelled as a total match over the operator variants. A WHILE has no VIFF translation, so scheduling one stops the translation: `Unsupported`, and `GenerateCode` returns None.
- Out-parameters passed by address are threaded by value: `*code`, `leaves`, `processed`, `inputs` and `visited` are inputs and results.
- The static `relations` map is the field of one `TranslatorViff` object. It starts empty, like the static map at program start. The model does not capture one translator seeing the entries another left behind. `DetermineInputsSpark` is still stated for any registry it finds.
- Resolver.GetInputRelsAndPaths: it reports every relation whose first mention in breadth-first order is a read. That includes a relation a walked operator produces, when the reader is dequeued first (`ProducedLaterStillReported`). The inputs are therefore not exactly the relations read and never produced. The source notes at line 58 that this function was taken over from another translator, probably together with a bug. The model keeps the walk as written. It proves only that a read relation no walked operator produces is always reported (`UnproducedReadReported`).
- Scheduler.Translatable: every operator of the graph must be well formed. Select, aggregate, join and arithmetic operators need the inputs, group-by columns and columns whose first elements the source reads unchecked (lines 299, 312-315, 331-334 and 383). The source reads them only for the nodes it translates, and an empty vector there is undefined behaviour. The model requires well-formedness of every node, including nodes reached only through loop children and nodes that never become ready. So `TranslateDAG`, `TranslateNode` and `GenerateCode` say nothing about a graph where only such untranslated nodes are malformed.
- Loop bodies are split into helper methods, to keep each proof small. `GenerateLambda` keeps its first loop, over the parameters. Its second loop is `RenderElements`, and that loop's body is `RenderColumn`. The others are `VisitRelations`/`EnqueueChildren`, `ReadRelations`/`PassChildren`/`CanAdd`, and `TranslateNode`.
- Lambda.Params: the 32-bit `col_index + 1` is written with unbounded integers, so its wrap-around at the largest index is not modelled.
- The condition tree passed to `TranslateMathOp` and the output relation passed to `GenerateLambda` are never used by them, so they are not parameters of the model.
- `src/mpc/obligation.h` is declarations only. `src/translation/graphchi_templates/JobTemplate.cc` is a template of another back-end. Neither is part of this model.
- Spark.ChildAllFresh: distinct enqueued names are proved per round, not across the whole walk.
- Scheduler.SchedRooted: states that only reached nodes are scheduled. It does not state that every reachable ready node is scheduled, because the program does not promise that either: `TranslateDAG` (src/translation/translator_viff.cc:186-199) looks at a child only right after translating one of its parents, so a child that is still not schedulable when its last parent is translated is never translated.
