# EnergyModel call-graph builder, in Dafny

EnergyModel measures the energy of a Java program method by method. An
instrumented run writes a trace with one line per method entry (the
method's qualified name) and one per method exit (`name;uJ;ns`).
`EnergyBehavior` reads that trace line by line through `manage`, and builds
an OMG SMM observation from it:

- one `CollectiveMeasurement` per invocation, named after the method and
  pointing at its declaration in the Java model;
- an "energy" and a "duration" `DirectMeasurement` for each invocation,
  linked from it;
- a "call" relationship from caller to callee, kept in order on a method
  stack.

`App` then walks this graph from every root, that is, every collective
measurement nothing called. For each invocation it reports the cumulative
energy (`getEnergy`) and the self energy (`getIndividualMethodEnergy`).

The project models that core:

- `smm.dfy` (module `Smm`): the measurement objects. EMF objects are
  modelled as an arena `seq<Measurement>`, where an object's position is its
  identity. Every relationship is a value `Relationship(name, from, to)`
  that may sit in several lists. An object holds three lists:
  - `rels` for `getMeasurementRelationships`;
  - `callsOut` for `getBaseMeasurementTo`;
  - `callsIn` for `getBaseMeasurementFrom`.
- `java_split.dfy` (module `JavaSplit`): `String.split(";")` with Java's
  rules. A string without a separator is one field; otherwise trailing empty
  fields are dropped. So `"A;;"` has one field, `"A;1;"` has two, and `";;"`
  has none.
- `manage_step.dfy` (module `ManageStep`): `manage` as functions of the
  state:
  - `State` holds the index, the observation, the method stack and the arena;
  - `Step` is one line, and `Run` is a whole trace;
  - the constructor's method-index loop is `BuildMethodIndex`, specified by
    `MethodIndex`.
- `energy_behavior.dfy` (module `Behavior`): the class `EnergyBehavior`,
  whose fields the methods update in place:
  - `Manage`, with its two branches `EndMethod` and `StartMethod`;
  - the exit loop `SetMeasuredValues`;
  - `CreateRootMeasurement`, `CreateEnergyMeasurement`,
    `CreateDurationMeasurement` and `AddRelationship`.

  Each method is proved to produce exactly the state the functions of
  `ManageStep` compute.
- `app.dfy` (module `App`):
  - `getEnergy` and `getIndividualMethodEnergy`;
  - the root test;
  - the order in which `displayCallGraph` visits invocations, as a
    sequence (`PreOrder`, `CallGraph`).
- `builder_invariant.dfy` (module `BuilderInvariant`): the invariant every
  reachable state keeps. What it gives:
  - each invocation is a triple of objects `3i, 3i+1, 3i+2`;
  - calls run forward, and each callee has one caller;
  - the stack is the chain of last callees from the last root;
  - the walk from the roots visits every invocation exactly once, in
    creation order;
  - the energy queries over such a graph.
- `scenarios.dfy` (module `Scenarios`): whole traces, namely a recursive
  call with its energies, an exit on an empty stack, a truncated trace and a
  line of separators.

## Model

| member | source | states |
|---|---|---|
| JavaSplit.Split | src/main/java/com/tblf/behavior/EnergyBehavior.java:108 | no field of `trace.split(";")` holds a separator; SplitSpec characterises the fields completely and SplitOfJoin proves the round trip |
| JavaSplit.SplitSpec | src/main/java/com/tblf/behavior/EnergyBehavior.java:108 | without a separator the line is its one field; otherwise the fields are the leading pieces between separators, only empty pieces were dropped, the last field kept is not empty, and no field holds a separator |
| JavaSplit.JoinPieces | src/main/java/com/tblf/behavior/EnergyBehavior.java:108 | cutting a line at every separator loses nothing: joining the pieces gives the line back |
| JavaSplit.PiecesCount | src/main/java/com/tblf/behavior/EnergyBehavior.java:108 | a line is cut into one piece more than it has separators |
| JavaSplit.SplitOfJoin | src/main/java/com/tblf/behavior/EnergyBehavior.java:108 | fields without separators whose last field is not empty, joined with `;`, split back into exactly those fields |
| JavaSplit.TrailingEmptyFieldsDropped | src/main/java/com/tblf/behavior/EnergyBehavior.java:108-111 | `"A;;"` has the single field `"A"`, so it is an enter and not an exit |
| JavaSplit.TrailingSeparatorDropped | src/main/java/com/tblf/behavior/EnergyBehavior.java:108-111 | `"A;1;"` has two fields, so it is an enter |
| JavaSplit.EmptyFields | src/main/java/com/tblf/behavior/EnergyBehavior.java:108-109 | `";;"` has no field, `""` has one empty field and `";A"` keeps its leading empty field |
| ManageStep.MethodIndex | src/main/java/com/tblf/behavior/EnergyBehavior.java:40-49 | an indexed constructor is always named `<init>`; its keys are characterised by MethodIndexKeys and its values by MethodIndexLastWins |
| ManageStep.BuildMethodIndex | src/main/java/com/tblf/behavior/EnergyBehavior.java:36-49 | the constructor's loop over the Java model's elements builds exactly the index `MethodIndex` describes |
| ManageStep.MethodIndexKeys | src/main/java/com/tblf/behavior/EnergyBehavior.java:40-48 | a name is a key of the index if and only if some method declaration of the model has it as qualified name, after constructors are renamed `<init>` |
| ManageStep.MethodIndexLastWins | src/main/java/com/tblf/behavior/EnergyBehavior.java:42-47 | the declaration stored under a key is the renamed form of the last declaration with that qualified name; an indexed constructor is always named `<init>` |
| ManageStep.Enter | src/main/java/com/tblf/behavior/EnergyBehavior.java:128-147 | after a start of method, the stack entries and the targets of all relationships and outgoing calls still point into the arena |
| ManageStep.SetValues | src/main/java/com/tblf/behavior/EnergyBehavior.java:117-126 | the exit loop keeps every object but its value; a targeted object named "energy" takes the energy, a targeted one named "duration" takes the duration, and every other value is unchanged |
| ManageStep.Exit | src/main/java/com/tblf/behavior/EnergyBehavior.java:111-126 | after an end of method, the stack entries and the targets of all relationships and outgoing calls still point into the arena |
| ManageStep.Run | src/main/java/com/tblf/behavior/EnergyBehavior.java:106-148 | feeding a trace line by line, stopping at the first exception, ends in a state whose stack entries and relationship and outgoing-call targets point into the arena |
| ManageStep.Step | src/main/java/com/tblf/behavior/EnergyBehavior.java:106-148 | manage on one line throws only ArrayIndexOutOfBoundsException or EmptyStackException, and otherwise leaves a state whose stack entries and relationship and outgoing-call targets point into the arena; StepShape states when each outcome happens and what it does |
| ManageStep.StepShape | src/main/java/com/tblf/behavior/EnergyBehavior.java:107-146 | a line fails if and only if it has no field (ArrayIndexOutOfBounds) or is an exit on an empty stack (EmptyStackException); exactly three fields make an exit that pops one invocation and keeps the arena's size; every other count makes an enter that pushes one new collective measurement named by the first field and adds three objects |
| ManageStep.EnterMeasurand | src/main/java/com/tblf/behavior/EnergyBehavior.java:130-133 | the new invocation's measurand is the indexed declaration, or none when the name is not in the index; the invocation is created either way |
| ManageStep.EnterLinks | src/main/java/com/tblf/behavior/EnergyBehavior.java:128-147 | an enter adds the invocation and its fresh "energy" and "duration" measurements; gives it exactly the two dimensional relationships after its incoming call; appends one observed measure holding the three; appends the call to the caller's outgoing list and records it as the callee's only incoming one, or links nothing on an empty stack; changes no other older object |
| ManageStep.RunDepth | src/main/java/com/tblf/behavior/EnergyBehavior.java:115-146 | a trace that never exits more than it has entered runs without exception; the stack's final depth is the start depth plus enters minus exits; every enter, even a repeated one of the same name, adds three fresh objects |
| ManageStep.BalancedRunRestoresDepth | src/main/java/com/tblf/behavior/EnergyBehavior.java:115-146 | a balanced trace returns the stack to the depth it started at |
| Behavior.EnergyBehavior.constructor | src/main/java/com/tblf/behavior/EnergyBehavior.java:31-49 | the object starts with the index of the model's declarations, an empty observation, an empty stack and no measurement, and satisfies the invariant |
| Behavior.EnergyBehavior.Manage | src/main/java/com/tblf/behavior/EnergyBehavior.java:106-148 | manage throws exactly what `Step` throws and then leaves the object as it was; otherwise the object's new state is the one `Step` computes; the invariant is kept |
| Behavior.EnergyBehavior.EndMethod | src/main/java/com/tblf/behavior/EnergyBehavior.java:111-126 | popping and filling the popped invocation's targets gives the state `Exit` computes |
| Behavior.EnergyBehavior.StartMethod | src/main/java/com/tblf/behavior/EnergyBehavior.java:128-147 | creating, naming, linking, observing and pushing gives the state `Enter` computes |
| Behavior.EnergyBehavior.CreateDirectMeasurements | src/main/java/com/tblf/behavior/EnergyBehavior.java:134-138 | the two direct measurements are the next two objects, named "energy" and "duration", and the invocation's relationships gain the two links to them in that order |
| Behavior.EnergyBehavior.SetMeasuredValues | src/main/java/com/tblf/behavior/EnergyBehavior.java:117-126 | the forEach over the popped measurement's relationships leaves the arena `SetValues` describes |
| Behavior.EnergyBehavior.CreateRootMeasurement | src/main/java/com/tblf/behavior/EnergyBehavior.java:167-187 | a new collective measurement of the measurand is appended; with a non-empty stack one "call" relationship from the top is appended to the top's outgoing list and is the new one's incoming list and relationship list; nothing else changes |
| Behavior.EnergyBehavior.CreateEnergyMeasurement | src/main/java/com/tblf/behavior/EnergyBehavior.java:195-199 | appends one fresh direct measurement named "energy" and returns it |
| Behavior.EnergyBehavior.CreateDurationMeasurement | src/main/java/com/tblf/behavior/EnergyBehavior.java:189-193 | appends one fresh direct measurement named "duration" and returns it |
| Behavior.EnergyBehavior.AddRelationship | src/main/java/com/tblf/behavior/EnergyBehavior.java:150-158 | appends to `from`'s relationships one relationship to `to` named after `to`; nothing else changes |
| App.FirstNamed | src/main/java/com/tblf/App.java:102-106 | finds the first relationship whose name is set and equal to the given one, and finds none exactly when no relationship has that name |
| App.GetEnergy | src/main/java/com/tblf/App.java:100-108 | getEnergy fails, with "No energy measurement found", if and only if no relationship of the measurement is named "energy" |
| App.GetEnergyReadsFirstEnergy | src/main/java/com/tblf/App.java:100-108 | a successful getEnergy returns the value of the target of the first relationship named "energy"; relationships before it have another name or none |
| App.GetIndividualMethodEnergy | src/main/java/com/tblf/App.java:87-91 | getIndividualMethodEnergy can fail only with getEnergy's exception; SelfEnergyDecomposes states when it fails and that self energy plus the callees' energies is the cumulative energy |
| App.SumEnergies | src/main/java/com/tblf/App.java:88-91 | the sum over call targets can only fail with the getEnergy failure |
| App.SumEnergiesFails | src/main/java/com/tblf/App.java:88-91 | the sum fails if and only if getEnergy fails on one of the call targets |
| App.SumEnergiesAppend | src/main/java/com/tblf/App.java:88-91 | one more call adds exactly its target's getEnergy to the sum |
| App.SelfEnergyDecomposes | src/main/java/com/tblf/App.java:87-91 | getIndividualMethodEnergy succeeds if and only if getEnergy succeeds on the measurement and on every callee; then self energy plus the callees' energies is the cumulative energy |
| App.SelfEnergyWithoutCalls | src/main/java/com/tblf/App.java:87-91 | an invocation that called nothing spends all of its energy itself |
| App.IsRoot | src/main/java/com/tblf/App.java:59 | a root is a collective measurement whose incoming call list is empty; RootsBelow and Roots list exactly the measurements it accepts |
| App.RootsBelow | src/main/java/com/tblf/App.java:57-59 | lists exactly the roots below a bound, that is, the collective measurements with no incoming call, in increasing arena order |
| App.Roots | src/main/java/com/tblf/App.java:57-59 | lists exactly the measurements the contents loop calls displayCallGraph on, in arena order and without repetition |
| App.PreOrder | src/main/java/com/tblf/App.java:69-78 | the walk of displayCallGraph from m starts at m and visits only m and younger objects |
| App.CallGraph | src/main/java/com/tblf/App.java:57-62 | the contents loop's walk visits only objects of the arena; CallGraphIsCreationOrder proves that on a built graph it is every invocation once, in creation order |
| App.PreOrderVisitsCalleesInOrder | src/main/java/com/tblf/App.java:69-78 | the walk from m shows m, then the whole walk from each callee, callee after callee in getBaseMeasurementTo order |
| BuilderInvariant.InitInv | src/main/java/com/tblf/behavior/EnergyBehavior.java:36-37 | the constructor's state satisfies the builder invariant |
| BuilderInvariant.ExitEffect | src/main/java/com/tblf/behavior/EnergyBehavior.java:112-126 | an exit pops exactly one invocation; its energy measurement gets the energy field and its duration measurement the duration field; the popped measurement changes only when it was called and carries the name "energy" or "duration"; no other object changes |
| BuilderInvariant.ExitSetsEnergy | src/main/java/com/tblf/behavior/EnergyBehavior.java:115-124 | after its exit, getEnergy of the popped invocation returns the measured energy |
| BuilderInvariant.ExitPreservesInv | src/main/java/com/tblf/behavior/EnergyBehavior.java:111-126 | an exit keeps the builder invariant |
| BuilderInvariant.EnterFrame | src/main/java/com/tblf/behavior/EnergyBehavior.java:172-184 | an enter changes no older object but the caller, whose outgoing list only grows; kinds and incoming lists of older objects stay |
| BuilderInvariant.EnterRoots | src/main/java/com/tblf/behavior/EnergyBehavior.java:172-184 | the roots after an enter are the old roots, plus the new invocation exactly when the stack was empty |
| BuilderInvariant.EnterStackShape | src/main/java/com/tblf/behavior/EnergyBehavior.java:146 | after a push the stack is still the chain of last callees starting at the last root |
| BuilderInvariant.EnterCallGraph | src/main/java/com/tblf/behavior/EnergyBehavior.java:128-147 | an enter adds the new invocation at the end of displayCallGraph's walk over all roots |
| BuilderInvariant.EnterPreservesInv | src/main/java/com/tblf/behavior/EnergyBehavior.java:128-147 | an enter keeps the builder invariant |
| BuilderInvariant.StepPreservesInv | src/main/java/com/tblf/behavior/EnergyBehavior.java:106-148 | every manage call that does not throw keeps the builder invariant |
| BuilderInvariant.RunPreservesInv | src/main/java/com/tblf/behavior/EnergyBehavior.java:106-148 | a whole trace that does not throw keeps the builder invariant |
| BuilderInvariant.CallGraphIsCreationOrder | src/main/java/com/tblf/App.java:57-78 | after any trace that does not throw, displayCallGraph from every root visits every invocation exactly once, in the order the enters created them |
| BuilderInvariant.CallsFormForest | src/main/java/com/tblf/behavior/EnergyBehavior.java:172-184 | an invocation is a root, or it has exactly one incoming call, from an older invocation that lists that call as outgoing |
| BuilderInvariant.CalleesInCreationOrder | src/main/java/com/tblf/behavior/EnergyBehavior.java:181 | an invocation lists its callees once each, in creation order, and each callee names it as its only caller |
| BuilderInvariant.CalleesAreInvocations | src/main/java/com/tblf/behavior/EnergyBehavior.java:172-184 | the callees of an invocation are invocations |
| BuilderInvariant.EnergyOfInvocation | src/main/java/com/tblf/App.java:100-108 | getEnergy of an invocation built by manage never fails and reads its own "energy" measurement |
| BuilderInvariant.SumOfCallees | src/main/java/com/tblf/App.java:88-91 | over a built graph the sum of the callees' energies never fails and is the sum of their energy measurements |
| BuilderInvariant.SelfEnergyOfInvocation | src/main/java/com/tblf/App.java:87-91 | getIndividualMethodEnergy of a built invocation never fails and is its energy measurement minus those of its callees |
| Scenarios.SplitEnter | src/main/java/com/tblf/behavior/EnergyBehavior.java:108 | the enter line `f` has the single field `f` |
| Scenarios.SplitExits | src/main/java/com/tblf/behavior/EnergyBehavior.java:108 | the exit lines `f;2;1` and `f;10;5` have three fields each |
| Scenarios.RecursiveCall | src/main/java/com/tblf/behavior/EnergyBehavior.java:106-148 | the trace `f`, `f`, `f;2;1`, `f;10;5` runs to an empty stack, two observed measures, and two distinct invocations of f linked by one call, with the inner energy 2 and the outer energy 10 |
| Scenarios.RecursiveCallGraph | src/main/java/com/tblf/App.java:57-78 | for that run the outer invocation is the only root, and the walk shows it and then its callee |
| Scenarios.RecursiveCallEnergy | src/main/java/com/tblf/App.java:87-108 | for that run getEnergy is 10 for the outer invocation and 2 for the inner one, and the outer self energy is 8 |
| Scenarios.ExitFirst | src/main/java/com/tblf/behavior/EnergyBehavior.java:115 | a trace starting with an exit throws EmptyStackException at once |
| Scenarios.TruncatedTrace | src/main/java/com/tblf/behavior/EnergyBehavior.java:106-148 | a trace that ends inside two calls is accepted, with two invocations still on the stack |
| Scenarios.SeparatorsOnly | src/main/java/com/tblf/behavior/EnergyBehavior.java:108-109 | the line `;;` throws ArrayIndexOutOfBoundsException in any state |

## Left out

- ClassProcessor.java, the bytecode instrumentation, is not part of this model. Its only own logic is the probe key.
- The constructor's SMM library, units, measures and measure relationships are not modelled. They are constant object construction, and the model does not store the observed measure's `setMeasure`.
- Saving the XMI resource, the trace file reader, `App.main`'s orchestration, and the printing in `displayCallGraph` are left out. The walk is kept as the sequence of invocations it prints.
- `Double.parseDouble` is the parameter `parse`, and values are `real` rather than IEEE doubles. NumberFormatException is not modelled, and neither is floating-point rounding in the sums of `getIndividualMethodEnergy`.
- `ModelUtils.getQualifiedName` is not part of this model; it is the parameter `qualifiedName`.
- The Java model's contents are a sequence of elements: method or constructor declarations, and anything else.
- The order of `resource.getAllContents()` is taken to be creation order. This is the order in which the contents loop meets the roots.
- EMF containment and the eager `setFrom`/`setTo` opposites are not modelled. A relationship is a value that sits in the lists the code adds it to.
- Behavior.EnergyBehavior.StartMethod: `setName` is applied right after `CreateRootMeasurement`, as in the source. The creation of the two direct measurements and `addRelationShip` (lines 134-138) are grouped in `CreateDirectMeasurements`.
- Every field count except 0 and 3 is an enter keyed by the first field.
- An exit on an empty stack throws EmptyStackException from `Stack.pop`, and the model returns that exception.
- Nothing checks at the end of a trace that every enter was matched by an exit, so a truncated trace is accepted.
- Nothing compares an invocation's energy with the energies of its callees.
- Roots are found after the whole trace, as the collective measurements with no incoming call. A call that has not exited yet is already a root (BuilderInvariant.EnterRoots).
- The casts `(CollectiveMeasurement)` and `(DimensionalMeasurement)` (App.java:90 and :101, EnergyBehavior.java:118) are not modelled. On an arena whose callee is a direct measurement, GetEnergy returns NoEnergyMeasurement where Java throws ClassCastException. `manage` never builds such a graph: BuilderInvariant.CalleesAreInvocations proves every callee is an invocation. The App lemmas, though, are stated over any closed arena.
- A null measurement name at EnergyBehavior.java:120 would throw NullPointerException. Measurements carry a `string` name here, and every measurement `manage` creates is named.
- `Run` stops at the first exception. That is an assumption about the caller of `manage`, whose code is not part of this model. A failing step leaves the state unchanged, so a caller that went on would see the same state.
- ManageStep.Enter, ManageStep.Exit, ManageStep.Run: their own contracts state only that the stack entries and the targets of relationships and outgoing calls stay inside the arena; the observed measures and incoming calls are not bounded by them. What an enter or exit does is stated by EnterLinks, StepShape, ExitEffect and the invariant lemmas.
