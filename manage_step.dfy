/** What EnergyBehavior does, as functions of its state: the method index
    its constructor builds, and the effect of one `manage(trace)` call on
    the observation, the method stack and the measurements created so far.
    The class in module Behavior runs the same steps in place and is proved
    to agree with these functions. */
module ManageStep {
  import opened Smm
  import JavaSplit

  const Separator: char := ';'

  /* ---------------------------------------------------------------------- */
  /* The method index                                                       */

  /** A declaration as the index stores it: constructors are renamed
      "<init>" first, so that they are keyed like bytecode names them. */
  function Canonical(d: MethodDeclaration): MethodDeclaration
  {
    if d.isConstructor then d.(name := ConstructorName) else d
  }

  /** The index after visiting `elements` in order: each method declaration
      is put under its qualified name, a later one replacing an earlier one
      with the same name, as HashMap.put does. */
  function MethodIndex(elements: seq<JavaElement>, qualifiedName: MethodDeclaration -> string): (index: map<string, MethodDeclaration>)
    ensures forall key :: key in index && index[key].isConstructor ==> index[key].name == ConstructorName
  {
    if elements == [] then map[]
    else
      var index := MethodIndex(elements[..|elements| - 1], qualifiedName);
      match elements[|elements| - 1]
      case OtherElement => index
      case Declaration(d) => index[qualifiedName(Canonical(d)) := Canonical(d)]
  }

  /** The loop of the constructor that fills stringMethodDeclarationMap. */
  method BuildMethodIndex(elements: seq<JavaElement>, qualifiedName: MethodDeclaration -> string)
    returns (index: map<string, MethodDeclaration>)
    ensures index == MethodIndex(elements, qualifiedName)
  {
    index := map[];
    var i := 0;
    while i < |elements|
      invariant 0 <= i <= |elements|
      invariant index == MethodIndex(elements[..i], qualifiedName)
    {
      assert elements[..i + 1][..i] == elements[..i];
      match elements[i] {
        case Declaration(d) =>
          var decl := d;
          if decl.isConstructor {
            decl := decl.(name := ConstructorName);
          }
          index := index[qualifiedName(decl) := decl];
        case OtherElement =>
      }
      i := i + 1;
    }
    assert elements[..i] == elements;
  }

  /** A name is a key of the index exactly when some declaration of the
      model has it as its qualified name, after the constructor renaming. */
  lemma {:induction false} MethodIndexKeys(elements: seq<JavaElement>, qualifiedName: MethodDeclaration -> string, key: string)
    ensures key in MethodIndex(elements, qualifiedName) <==>
      exists i :: 0 <= i < |elements| && elements[i].Declaration? &&
        qualifiedName(Canonical(elements[i].decl)) == key
  {
    if elements != [] {
      var init := elements[..|elements| - 1];
      MethodIndexKeys(init, qualifiedName, key);
      assert forall i :: 0 <= i < |init| ==> init[i] == elements[i];
    }
  }

  /** The declaration stored under a key is the renamed form of the last
      declaration with that qualified name; in particular an indexed
      constructor is always called "<init>". */
  lemma {:induction false} MethodIndexLastWins(elements: seq<JavaElement>, qualifiedName: MethodDeclaration -> string, key: string)
    requires key in MethodIndex(elements, qualifiedName)
    ensures exists i ::
      && 0 <= i < |elements| && elements[i].Declaration?
      && MethodIndex(elements, qualifiedName)[key] == Canonical(elements[i].decl)
      && qualifiedName(Canonical(elements[i].decl)) == key
      && forall j :: i < j < |elements| && elements[j].Declaration? ==>
           qualifiedName(Canonical(elements[j].decl)) != key
    ensures MethodIndex(elements, qualifiedName)[key].isConstructor ==>
      MethodIndex(elements, qualifiedName)[key].name == ConstructorName
  {
    var init := elements[..|elements| - 1];
    var last := elements[|elements| - 1];
    assert forall i :: 0 <= i < |init| ==> init[i] == elements[i];
    if last.Declaration? && qualifiedName(Canonical(last.decl)) == key {
      assert MethodIndex(elements, qualifiedName)[key] == Canonical(last.decl);
    } else {
      MethodIndexLastWins(init, qualifiedName, key);
    }
  }

  /* ---------------------------------------------------------------------- */
  /* One manage call                                                        */

  /** The fields of EnergyBehavior that manage reads or writes. The stack
      top is the last element of `stack`. */
  datatype State = State(
    index: map<string, MethodDeclaration>,
    observation: seq<ObservedMeasure>,
    stack: seq<nat>,
    store: seq<Measurement>)

  /** The stack entries and the targets of all relationships and outgoing
      calls point into the arena. */
  ghost predicate Consistent(s: State)
  {
    && Closed(s.store)
    && forall i :: 0 <= i < |s.stack| ==> s.stack[i] < |s.store|
  }

  /** The state right after the constructor: an empty observation and an
      empty method stack. */
  function Init(index: map<string, MethodDeclaration>): State
  {
    State(index, [], [], [])
  }

  /** The start of a method: a collective measurement named `qn` for the
      declaration the index has under that name (none when absent), linked
      by a "call" relationship from the invocation on top of the stack if
      there is one, with fresh "energy" and "duration" measurements, one new
      observed measure, and the new invocation pushed. */
  function Enter(s: State, qn: string): (t: State)
    requires Consistent(s)
    ensures Consistent(t)
  {
    var n := |s.store|;
    var measurand := if qn in s.index then Some(s.index[qn]) else None;
    var calls := if s.stack == [] then [] else [Relationship(Some(CallName), s.stack[|s.stack| - 1], n)];
    var store := if s.stack == [] then s.store
      else
        var p := s.stack[|s.stack| - 1];
        s.store[p := s.store[p].(callsOut := s.store[p].callsOut + calls)];
    var energy, duration := NewDirect(EnergyName), NewDirect(DurationName);
    var node := Measurement(Collective, qn, 0.0, measurand,
      calls + [Relationship(Some(energy.name), n, n + 1), Relationship(Some(duration.name), n, n + 2)],
      [], calls);
    var t := State(s.index, s.observation + [ObservedMeasure([n, n + 1, n + 2])], s.stack + [n],
      store + [node, energy, duration]);
    assert forall k :: 0 <= k < n ==> t.store[k].rels == s.store[k].rels;
    t
  }

  /** Whether some relationship of `rels` points at `k`. */
  predicate Targeted(rels: seq<Relationship>, k: nat)
  {
    exists i :: 0 <= i < |rels| && rels[i].to == k
  }

  /** The value a measurement has after the exit loop: a targeted one named
      "energy" or "duration" takes the matching measured value. */
  function Refreshed(m: Measurement, targeted: bool, energy: real, duration: real): real
  {
    if targeted && m.name == EnergyName then energy
    else if targeted && m.name == DurationName then duration
    else m.value
  }

  /** The exit loop over the popped measurement's relationships: a target
      named "energy" receives `energy`, one named "duration" receives
      `duration`, and nothing else changes. */
  function SetValues(store: seq<Measurement>, rels: seq<Relationship>, energy: real, duration: real): (r: seq<Measurement>)
    requires forall i :: 0 <= i < |rels| ==> rels[i].to < |store|
    ensures |r| == |store|
    ensures forall k :: 0 <= k < |store| ==> r[k] == store[k].(value := r[k].value)
    ensures forall k :: 0 <= k < |store| ==>
      r[k].value == Refreshed(store[k], Targeted(rels, k), energy, duration)
  {
    if rels == [] then store
    else
      var before := SetValues(store, rels[..|rels| - 1], energy, duration);
      var k := rels[|rels| - 1].to;
      assert forall j :: 0 <= j < |store| ==>
        (Targeted(rels, j) <==> Targeted(rels[..|rels| - 1], j) || j == k);
      if before[k].name == EnergyName then before[k := before[k].(value := energy)]
      else if before[k].name == DurationName then before[k := before[k].(value := duration)]
      else before
  }

  /** The end of a method: the top invocation is popped and its relationship
      targets are given the measured values. */
  function Exit(s: State, energy: real, duration: real): (t: State)
    requires Consistent(s) && s.stack != []
    ensures Consistent(t)
  {
    var p := s.stack[|s.stack| - 1];
    var t := State(s.index, s.observation, s.stack[..|s.stack| - 1],
      SetValues(s.store, s.store[p].rels, energy, duration));
    assert forall k :: 0 <= k < |s.store| ==> t.store[k].rels == s.store[k].rels;
    t
  }

  /** manage(trace): the line is split on ';'. No field at all makes
      fields[0] throw; exactly three fields are an exit, which throws when
      the stack is empty; any other count is an enter keyed by the first
      field. `parse` stands for Double.parseDouble. */
  function Step(s: State, line: string, parse: string -> real): (r: Result<State>)
    requires Consistent(s)
    ensures r.Ok? ==> Consistent(r.value)
    ensures r.Err? ==> r.exception == ArrayIndexOutOfBounds || r.exception == EmptyStack
  {
    var fields := JavaSplit.Split(line, Separator);
    if |fields| == 0 then Err(ArrayIndexOutOfBounds)
    else if |fields| == 3 then
      if s.stack == [] then Err(EmptyStack)
      else Ok(Exit(s, parse(fields[1]), parse(fields[2])))
    else Ok(Enter(s, fields[0]))
  }

  /** The lines of a trace fed to manage one after the other; the first
      exception ends the run. */
  function Run(s: State, lines: seq<string>, parse: string -> real): (r: Result<State>)
    requires Consistent(s)
    ensures r.Ok? ==> Consistent(r.value)
    decreases |lines|
  {
    if lines == [] then Ok(s)
    else match Step(s, lines[0], parse)
      case Err(e) => Err(e)
      case Ok(t) => Run(t, lines[1..], parse)
  }

  /* ---------------------------------------------------------------------- */
  /* Properties of one step                                                 */

  /** How a line is read: exactly three fields make an exit; no field is
      the fields[0] failure; every other count, trailing empty fields
      dropped, is an enter named by the first field. */
  datatype LineKind = EnterLine | ExitLine | NoFieldLine

  function KindOf(line: string): LineKind
  {
    var n := |JavaSplit.Split(line, Separator)|;
    if n == 0 then NoFieldLine else if n == 3 then ExitLine else EnterLine
  }

  /** A step fails only on a line without fields or on an exit with an
      empty stack; an enter pushes exactly one new invocation named by the
      first field, and an exit pops exactly one. */
  lemma StepShape(s: State, line: string, parse: string -> real)
    requires Consistent(s)
    ensures var fields, r := JavaSplit.Split(line, Separator), Step(s, line, parse);
      && (r.Err? <==> KindOf(line) == NoFieldLine || (KindOf(line) == ExitLine && s.stack == []))
      && (r.Err? && KindOf(line) == NoFieldLine ==> r.exception == ArrayIndexOutOfBounds)
      && (r.Err? && KindOf(line) == ExitLine ==> r.exception == EmptyStack)
      && (r.Ok? && KindOf(line) == ExitLine ==>
            r.value.stack == s.stack[..|s.stack| - 1] && |r.value.store| == |s.store|)
      && (r.Ok? && KindOf(line) == EnterLine ==>
            && r.value.stack == s.stack + [|s.store|]
            && |r.value.store| == |s.store| + 3
            && r.value.store[|s.store|].name == fields[0]
            && r.value.store[|s.store|].kind == Collective)
  {
  }

  /** An enter whose name the index does not know still creates its
      invocation, with no measurand; a known name brings its declaration. */
  lemma EnterMeasurand(s: State, qn: string)
    requires Consistent(s)
    ensures Enter(s, qn).store[|s.store|].measurand ==
      if qn in s.index then Some(s.index[qn]) else None
  {
  }

  /** What an enter adds: the invocation gets exactly two dimensional
      relationships, "energy" to the next object and "duration" to the one
      after, behind the incoming call if any; one observed measure holding
      the three new objects is appended; with a non-empty stack the call
      relationship is appended to the caller's outgoing list and recorded
      as the callee's only incoming one; with an empty stack no
      relationship links it. No older object changes but the caller. */
  lemma EnterLinks(s: State, qn: string)
    requires Consistent(s)
    ensures var t, n := Enter(s, qn), |s.store|;
      && |t.store| == n + 3
      && t.store[n + 1] == NewDirect(EnergyName)
      && t.store[n + 2] == NewDirect(DurationName)
      && t.store[n].rels == t.store[n].callsIn +
           [Relationship(Some(EnergyName), n, n + 1), Relationship(Some(DurationName), n, n + 2)]
      && t.store[n].callsOut == []
      && t.observation == s.observation + [ObservedMeasure([n, n + 1, n + 2])]
      && (s.stack == [] ==> t.store[n].callsIn == [] && t.store[..n] == s.store)
      && (s.stack != [] ==>
            var p := s.stack[|s.stack| - 1];
            var call := Relationship(Some(CallName), p, n);
            && t.store[n].callsIn == [call]
            && t.store[p] == s.store[p].(callsOut := s.store[p].callsOut + [call])
            && forall k :: 0 <= k < n && k != p ==> t.store[k] == s.store[k])
  {
  }

  /* ---------------------------------------------------------------------- */
  /* Stack discipline over a whole trace                                    */

  function Enters(lines: seq<string>): nat
  {
    if lines == [] then 0 else (if KindOf(lines[0]) == EnterLine then 1 else 0) + Enters(lines[1..])
  }

  function Exits(lines: seq<string>): nat
  {
    if lines == [] then 0 else (if KindOf(lines[0]) == ExitLine then 1 else 0) + Exits(lines[1..])
  }

  /** A trace whose every line has a field and which never has more exits
      than the stack plus the enters so far can hold runs to the end; the
      stack ends `enters - exits` deeper and every enter made one new
      invocation (three new objects). */
  lemma {:induction false} RunDepth(s: State, lines: seq<string>, parse: string -> real)
    requires Consistent(s)
    requires forall i :: 0 <= i < |lines| ==> KindOf(lines[i]) != NoFieldLine
    requires forall k :: 0 <= k <= |lines| ==> Exits(lines[..k]) <= |s.stack| + Enters(lines[..k])
    ensures Run(s, lines, parse).Ok?
    ensures |Run(s, lines, parse).value.stack| + Exits(lines) == |s.stack| + Enters(lines)
    ensures |Run(s, lines, parse).value.store| == |s.store| + 3 * Enters(lines)
    decreases |lines|
  {
    if lines != [] {
      assert lines[..1] == [lines[0]];
      assert Exits(lines[..1]) <= |s.stack| + Enters(lines[..1]);
      assert KindOf(lines[0]) == ExitLine ==> s.stack != [];
      StepShape(s, lines[0], parse);
      var t := Step(s, lines[0], parse).value;
      var rest := lines[1..];
      forall k | 0 <= k <= |rest|
        ensures Exits(rest[..k]) <= |t.stack| + Enters(rest[..k])
      {
        assert lines[..k + 1][1..] == rest[..k];
        assert Exits(lines[..k + 1]) <= |s.stack| + Enters(lines[..k + 1]);
      }
      RunDepth(t, rest, parse);
    }
  }

  /** A balanced trace leaves the stack as deep as it found it. */
  lemma BalancedRunRestoresDepth(s: State, lines: seq<string>, parse: string -> real)
    requires Consistent(s)
    requires forall i :: 0 <= i < |lines| ==> KindOf(lines[i]) != NoFieldLine
    requires forall k :: 0 <= k <= |lines| ==> Exits(lines[..k]) <= |s.stack| + Enters(lines[..k])
    requires Enters(lines) == Exits(lines)
    ensures Run(s, lines, parse).Ok? && |Run(s, lines, parse).value.stack| == |s.stack|
  {
    RunDepth(s, lines, parse);
  }
}
