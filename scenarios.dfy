/** Whole traces run through manage from the constructor's state: a method
    that calls itself once, an exit with nothing on the stack, a trace cut
    short, and a line made only of separators. */
module Scenarios {
  import opened Smm
  import opened App
  import opened ManageStep
  import JavaSplit
  import BuilderInvariant

  const EnterF: string := "f"
  const InnerExit: string := "f;2;1"
  const OuterExit: string := "f;10;5"

  lemma SplitEnter()
    ensures JavaSplit.Split(EnterF, Separator) == ["f"]
  {
  }

  lemma SplitExits()
    ensures JavaSplit.Split(InnerExit, Separator) == ["f", "2", "1"]
    ensures JavaSplit.Split(OuterExit, Separator) == ["f", "10", "5"]
  {
    SplitExit("2", "1");
    assert "f" + [Separator] + "2" + [Separator] + "1" == InnerExit;
    SplitExit("10", "5");
    assert "f" + [Separator] + "10" + [Separator] + "5" == OuterExit;
  }

  /** An exit line of f with the given energy and duration fields. */
  lemma SplitExit(energy: string, duration: string)
    requires energy != [] && duration != []
    requires Separator !in energy && Separator !in duration
    ensures JavaSplit.Split("f" + [Separator] + energy + [Separator] + duration, Separator) == ["f", energy, duration]
  {
    var parts := ["f", energy, duration];
    assert parts[1..] == [energy, duration] && parts[1..][1..] == [duration];
    assert JavaSplit.Join(parts[1..], Separator) == energy + [Separator] + duration;
    assert JavaSplit.Join(parts, Separator) == "f" + [Separator] + (energy + [Separator] + duration);
    assert "f" + [Separator] + (energy + [Separator] + duration) == "f" + [Separator] + energy + [Separator] + duration;
    JavaSplit.SplitOfJoin(parts, Separator);
  }

  /** The measurements after the trace below: the outer invocation of f
      (objects 0 to 2) and the inner one (objects 3 to 5), linked by one
      "call" relationship. `outer` and `inner` are the measured durations. */
  function RecursiveStore(measurand: Option<MethodDeclaration>, outer: real, inner: real): seq<Measurement>
  {
    var call := Relationship(Some(CallName), 0, 3);
    [ Measurement(Collective, "f", 0.0, measurand,
        [Relationship(Some(EnergyName), 0, 1), Relationship(Some(DurationName), 0, 2)], [call], []),
      NewDirect(EnergyName).(value := 10.0),
      NewDirect(DurationName).(value := outer),
      Measurement(Collective, "f", 0.0, measurand,
        [call, Relationship(Some(EnergyName), 3, 4), Relationship(Some(DurationName), 3, 5)], [], [call]),
      NewDirect(EnergyName).(value := 2.0),
      NewDirect(DurationName).(value := inner) ]
  }

  /** f calls f; the inner call measures 2 uJ, the outer one 10 uJ. The
      run ends with an empty stack, two observed measures and exactly the
      measurements above. */
  lemma RecursiveCall(index: map<string, MethodDeclaration>, parse: string -> real)
    requires parse("2") == 2.0 && parse("10") == 10.0
    ensures Run(Init(index), [EnterF, EnterF, InnerExit, OuterExit], parse) ==
      Ok(State(index, [ObservedMeasure([0, 1, 2]), ObservedMeasure([3, 4, 5])], [],
        RecursiveStore(Measurand(index), parse("5"), parse("1"))))
  {
    var lines := [EnterF, EnterF, InnerExit, OuterExit];
    FirstLines(index, parse);
    LastLines(index, parse);
    assert lines[1..][1..] == [InnerExit, OuterExit];
    assert lines[1..] == [EnterF, InnerExit, OuterExit];
  }

  /** The two exits, run from the state after both enters. */
  lemma LastLines(index: map<string, MethodDeclaration>, parse: string -> real)
    requires parse("2") == 2.0 && parse("10") == 10.0
    ensures Consistent(InnerStarted(index))
    ensures Run(InnerStarted(index), [InnerExit, OuterExit], parse) ==
      Ok(State(index, InnerStarted(index).observation, [], RecursiveStore(Measurand(index), parse("5"), parse("1"))))
  {
    InnerExitLine(index, parse);
    LastLine(index, parse);
    assert [InnerExit, OuterExit][1..] == [OuterExit];
  }

  /** The outer exit, run from the state after the inner one. */
  lemma LastLine(index: map<string, MethodDeclaration>, parse: string -> real)
    requires parse("10") == 10.0
    ensures Consistent(InnerEnded(index, parse("1")))
    ensures Run(InnerEnded(index, parse("1")), [OuterExit], parse) ==
      Ok(State(index, InnerStarted(index).observation, [], RecursiveStore(Measurand(index), parse("5"), parse("1"))))
  {
    OuterExitLine(index, parse);
    assert [OuterExit][1..] == [];
  }

  lemma FirstLines(index: map<string, MethodDeclaration>, parse: string -> real)
    ensures Step(Init(index), EnterF, parse) == Ok(OuterStarted(index))
    ensures Consistent(OuterStarted(index))
    ensures Step(OuterStarted(index), EnterF, parse) == Ok(InnerStarted(index))
  {
    SplitEnter();
    EnterOuter(index);
    EnterInner(index);
  }

  lemma InnerExitLine(index: map<string, MethodDeclaration>, parse: string -> real)
    requires parse("2") == 2.0
    ensures Consistent(InnerStarted(index))
    ensures Step(InnerStarted(index), InnerExit, parse) == Ok(InnerEnded(index, parse("1")))
  {
    SplitExits();
    ExitInner(index, parse("1"));
  }

  lemma OuterExitLine(index: map<string, MethodDeclaration>, parse: string -> real)
    requires parse("10") == 10.0
    ensures Consistent(InnerEnded(index, parse("1")))
    ensures Step(InnerEnded(index, parse("1")), OuterExit, parse) ==
      Ok(State(index, InnerStarted(index).observation, [], RecursiveStore(Measurand(index), parse("5"), parse("1"))))
  {
    SplitExits();
    ExitOuter(index, parse("1"), parse("5"));
  }

  function Measurand(index: map<string, MethodDeclaration>): Option<MethodDeclaration>
  {
    if "f" in index then Some(index["f"]) else None
  }

  function OuterNode(index: map<string, MethodDeclaration>): Measurement
  {
    Measurement(Collective, "f", 0.0, Measurand(index),
      [Relationship(Some(EnergyName), 0, 1), Relationship(Some(DurationName), 0, 2)], [], [])
  }

  function InnerNode(index: map<string, MethodDeclaration>): Measurement
  {
    var call := Relationship(Some(CallName), 0, 3);
    Measurement(Collective, "f", 0.0, Measurand(index),
      [call, Relationship(Some(EnergyName), 3, 4), Relationship(Some(DurationName), 3, 5)], [], [call])
  }

  /** The state after the first line. */
  function OuterStarted(index: map<string, MethodDeclaration>): State
  {
    State(index, [ObservedMeasure([0, 1, 2])], [0],
      [OuterNode(index), NewDirect(EnergyName), NewDirect(DurationName)])
  }

  /** The state after the second line. */
  function InnerStarted(index: map<string, MethodDeclaration>): State
  {
    State(index, [ObservedMeasure([0, 1, 2]), ObservedMeasure([3, 4, 5])], [0, 3],
      [OuterNode(index).(callsOut := [Relationship(Some(CallName), 0, 3)]), NewDirect(EnergyName), NewDirect(DurationName),
       InnerNode(index), NewDirect(EnergyName), NewDirect(DurationName)])
  }

  /** The state after the third line. */
  function InnerEnded(index: map<string, MethodDeclaration>, inner: real): State
  {
    var s := InnerStarted(index);
    s.(stack := [0], store := s.store[4 := s.store[4].(value := 2.0)][5 := s.store[5].(value := inner)])
  }

  lemma StatesConsistent(index: map<string, MethodDeclaration>, inner: real)
    ensures Consistent(OuterStarted(index))
    ensures Consistent(InnerStarted(index))
    ensures Consistent(InnerEnded(index, inner))
  {
    StoreClosed(OuterStarted(index).store);
    StoreClosed(InnerStarted(index).store);
    StoreClosed(InnerEnded(index, inner).store);
  }

  /** A store whose relationships all point into it is closed. */
  lemma StoreClosed(store: seq<Measurement>)
    requires forall k, i :: 0 <= k < |store| && 0 <= i < |store[k].rels| ==> store[k].rels[i].to < |store|
    requires forall k, i :: 0 <= k < |store| && 0 <= i < |store[k].callsOut| ==> store[k].callsOut[i].to < |store|
    ensures Closed(store)
  {
    forall k, r | 0 <= k < |store| && r in store[k].rels ensures r.to < |store| {
      var i :| 0 <= i < |store[k].rels| && store[k].rels[i] == r;
    }
    forall k, r | 0 <= k < |store| && r in store[k].callsOut ensures r.to < |store| {
      var i :| 0 <= i < |store[k].callsOut| && store[k].callsOut[i] == r;
    }
  }

  lemma EnterOuter(index: map<string, MethodDeclaration>)
    ensures Enter(Init(index), "f") == OuterStarted(index)
  {
    var t, expected := Enter(Init(index), "f"), OuterStarted(index);
    EnterLinks(Init(index), "f");
    assert t.store[0] == expected.store[0];
    assert t.store == expected.store;
  }

  lemma EnterInner(index: map<string, MethodDeclaration>)
    ensures Consistent(OuterStarted(index))
    ensures Enter(OuterStarted(index), "f") == InnerStarted(index)
  {
    StatesConsistent(index, 0.0);
    var s := OuterStarted(index);
    var t, expected := Enter(s, "f"), InnerStarted(index);
    EnterLinks(s, "f");
    assert t.store[3] == expected.store[3];
    assert t.store[0] == expected.store[0];
    forall k | 0 <= k < 6 ensures t.store[k] == expected.store[k] {
    }
    assert t.store == expected.store;
  }

  lemma ExitInner(index: map<string, MethodDeclaration>, inner: real)
    ensures Consistent(InnerStarted(index))
    ensures Exit(InnerStarted(index), 2.0, inner) == InnerEnded(index, inner)
  {
    StatesConsistent(index, inner);
    var s := InnerStarted(index);
    var t, expected := Exit(s, 2.0, inner), InnerEnded(index, inner);
    var rels := s.store[3].rels;
    assert rels[0].to == 3 && rels[1].to == 4 && rels[2].to == 5;
    forall k | 0 <= k < 6 ensures t.store[k] == expected.store[k] {
      if k < 3 {
        assert !Targeted(rels, k);
      }
    }
    assert t.store == expected.store;
  }

  lemma ExitOuter(index: map<string, MethodDeclaration>, inner: real, outer: real)
    ensures Consistent(InnerEnded(index, inner))
    ensures Exit(InnerEnded(index, inner), 10.0, outer) ==
      State(index, InnerStarted(index).observation, [], RecursiveStore(Measurand(index), outer, inner))
  {
    StatesConsistent(index, inner);
    var s := InnerEnded(index, inner);
    var t, expected := Exit(s, 10.0, outer), RecursiveStore(Measurand(index), outer, inner);
    var rels := s.store[0].rels;
    assert rels[0].to == 1 && rels[1].to == 2;
    forall k | 0 <= k < 6 ensures t.store[k] == expected[k] {
      if k == 0 || k > 2 {
        assert !Targeted(rels, k);
      }
    }
    assert t.store == expected;
  }

  /** The call graph App displays for that run: the outer invocation is
      the only root, and the walk shows it and then its callee. */
  lemma RecursiveCallGraph(measurand: Option<MethodDeclaration>, outer: real, inner: real)
    ensures var store := RecursiveStore(measurand, outer, inner);
      && Closed(store) && CallsForward(store)
      && Roots(store) == [0]
      && CallGraph(store) == [0, 3]
  {
    var store := RecursiveStore(measurand, outer, inner);
    RecursiveRoots(measurand, outer, inner);
    assert Targets(store[0].callsOut) == [3];
    assert Targets(store[3].callsOut) == [];
    assert PreOrder(store, 3) == [3];
    assert [3][..0] == [];
    assert Forest(store, 0, [3]) == [3];
    assert PreOrder(store, 0) == [0, 3];
    assert [0][..0] == [];
    assert Forest(store, -1, [0]) == [0, 3];
  }

  lemma RecursiveRoots(measurand: Option<MethodDeclaration>, outer: real, inner: real)
    ensures var store := RecursiveStore(measurand, outer, inner);
      && Closed(store) && CallsForward(store)
      && Roots(store) == [0]
  {
    var store := RecursiveStore(measurand, outer, inner);
    RecursiveClosed(measurand, outer, inner);
    assert IsRoot(store, 0);
    assert !IsRoot(store, 1) && !IsRoot(store, 2) && !IsRoot(store, 3) && !IsRoot(store, 4) && !IsRoot(store, 5);
    assert RootsBelow(store, 1) == [0];
    assert RootsBelow(store, 2) == [0];
    assert RootsBelow(store, 3) == [0];
    assert RootsBelow(store, 4) == [0];
    assert RootsBelow(store, 5) == [0];
    assert RootsBelow(store, 6) == [0];
  }

  lemma RecursiveClosed(measurand: Option<MethodDeclaration>, outer: real, inner: real)
    ensures var store := RecursiveStore(measurand, outer, inner);
      Closed(store) && CallsForward(store)
  {
    var store := RecursiveStore(measurand, outer, inner);
    forall k, r | 0 <= k < |store| && r in store[k].rels ensures r.to < |store| {
    }
    forall k, r | 0 <= k < |store| && r in store[k].callsOut ensures k < r.to < |store| {
    }
  }

  /** The energies App reports for that run: 10 for the outer invocation,
      2 for the inner one, so the outer one spent 8 itself. */
  lemma RecursiveCallEnergy(measurand: Option<MethodDeclaration>, outer: real, inner: real)
    ensures var store := RecursiveStore(measurand, outer, inner);
      && Closed(store)
      && GetEnergy(store, 0).Ok? && GetEnergy(store, 0).value == 10.0
      && GetEnergy(store, 3).Ok? && GetEnergy(store, 3).value == 2.0
      && GetIndividualMethodEnergy(store, 0).Ok?
      && GetIndividualMethodEnergy(store, 0).value == 8.0
  {
    var store := RecursiveStore(measurand, outer, inner);
    RecursiveRoots(measurand, outer, inner);
    assert FirstNamed(store[0].rels, EnergyName) == Some(0);
    assert FirstNamed(store[3].rels[1..], EnergyName) == Some(0);
    assert FirstNamed(store[3].rels, EnergyName) == Some(1);
    var calls := store[0].callsOut;
    assert calls[..0] == [];
    assert SumEnergies(store, calls) == Ok(0.0 + 2.0);
  }

  /** An exit line with nothing on the stack makes Stack.pop throw. */
  lemma ExitFirst(index: map<string, MethodDeclaration>, parse: string -> real)
    ensures Run(Init(index), [InnerExit, EnterF], parse) == Err(EmptyStack)
  {
    SplitExits();
  }

  /** A trace that ends inside two calls is accepted as it is: nothing
      checks that every enter was matched by an exit. */
  lemma TruncatedTrace(index: map<string, MethodDeclaration>, parse: string -> real)
    ensures Run(Init(index), ["A", "B"], parse).Ok?
    ensures |Run(Init(index), ["A", "B"], parse).value.stack| == 2
  {
    assert JavaSplit.Split("A", Separator) == ["A"];
    assert JavaSplit.Split("B", Separator) == ["B"];
  }

  /** A line of separators alone has no field, so reading fields[0]
      throws, whatever the state. */
  lemma SeparatorsOnly(s: State, parse: string -> real)
    requires Consistent(s)
    ensures Step(s, ";;", parse) == Err(ArrayIndexOutOfBounds)
  {
    JavaSplit.EmptyFields();
  }
}
