/** EnergyBehavior itself: the parsing behaviour that keeps the method
    index, the observation, the method stack and the measurements it has
    created, and updates them in place for every trace line. Each method
    is proved to do what the functions of ManageStep say, so the invariant
    and the properties proved there hold of the object. */
module Behavior {
  import opened Smm
  import opened ManageStep
  import JavaSplit
  import BuilderInvariant

  class EnergyBehavior {
    /** stringMethodDeclarationMap: filled by the constructor, read after. */
    const index: map<string, MethodDeclaration>
    /** The observed measures of the observation, in insertion order. */
    var observation: seq<ObservedMeasure>
    /** methodStack, its top last. */
    var methodStack: seq<nat>
    /** Every measurement created so far; a position is an object. */
    var store: seq<Measurement>

    function Snapshot(): State
      reads this
    {
      State(index, observation, methodStack, store)
    }

    ghost predicate Valid()
      reads this
    {
      Consistent(Snapshot()) && BuilderInvariant.Inv(Snapshot())
    }

    /** Builds the method index from the Java model's elements, visited in
        order, and starts with an empty observation and an empty stack.
        `qualifiedName` stands for ModelUtils.getQualifiedName. */
    constructor(elements: seq<JavaElement>, qualifiedName: MethodDeclaration -> string)
      ensures Snapshot() == Init(MethodIndex(elements, qualifiedName))
      ensures Valid()
    {
      var built := BuildMethodIndex(elements, qualifiedName);
      index := built;
      observation := [];
      methodStack := [];
      store := [];
      new;
      BuilderInvariant.InitInv(index);
    }

    /** manage(trace): one trace line, an enter or an exit. The Java
        exceptions come back as `Some(e)`, and the object is then as it was;
        otherwise the new state is exactly the one Step computes. */
    method Manage(trace: string, parse: string -> real) returns (exception: Option<JavaException>)
      requires Valid()
      modifies this
      ensures Valid()
      ensures var r := Step(old(Snapshot()), trace, parse);
        && (r.Err? ==> exception == Some(r.exception) && Snapshot() == old(Snapshot()))
        && (r.Ok? ==> exception == None && Snapshot() == r.value)
    {
      BuilderInvariant.StepPreservesInv(Snapshot(), trace, parse);
      var fields := JavaSplit.Split(trace, Separator);
      if |fields| == 0 {
        return Some(ArrayIndexOutOfBounds);
      }
      var qn := fields[0];
      if |fields| == 3 {
        var uj, ns := fields[1], fields[2];
        if methodStack == [] {
          return Some(EmptyStack);
        }
        EndMethod(parse(uj), parse(ns));
      } else {
        StartMethod(qn);
      }
      exception := None;
    }

    /** The branch of manage for an exit line ("end of method"): pop the
        stack, then give the popped measurement's targets their values. */
    method EndMethod(energy: real, duration: real)
      requires Consistent(Snapshot()) && methodStack != []
      modifies this
      ensures Snapshot() == Exit(old(Snapshot()), energy, duration)
    {
      var measurement := methodStack[|methodStack| - 1];
      methodStack := methodStack[..|methodStack| - 1];
      SetMeasuredValues(store[measurement].rels, energy, duration);
    }

    /** The branch of manage for an enter line ("start of method"): the
        collective measurement of the indexed declaration, named `qn`, its
        two direct measurements linked to it, one observed measure holding
        the three, and the push. */
    method StartMethod(qn: string)
      requires Consistent(Snapshot())
      modifies this
      ensures Snapshot() == Enter(old(Snapshot()), qn)
    {
      ghost var s := Snapshot();
      ghost var n: nat := |s.store|;
      ghost var calls := if s.stack == [] then [] else [Relationship(Some(CallName), s.stack[|s.stack| - 1], n)];
      ghost var linked := if s.stack == [] then s.store
        else s.store[s.stack[|s.stack| - 1] := s.store[s.stack[|s.stack| - 1]].(callsOut := s.store[s.stack[|s.stack| - 1]].callsOut + calls)];
      var measurand := if qn in index then Some(index[qn]) else None;
      var measurement := CreateRootMeasurement(measurand);
      store := store[measurement := store[measurement].(name := qn)];
      ghost var node := Measurement(Collective, qn, 0.0, measurand, calls, [], calls);
      assert store == linked + [node];
      var energy, duration := CreateDirectMeasurements(measurement);
      observation := observation + [ObservedMeasure([measurement, energy, duration])];
      methodStack := methodStack + [measurement];
      EnterStore(s, qn, linked, node);
    }

    /** The two direct measurements of a new invocation `m`, the last object
        so far: "energy", then "duration", each linked from `m` by a
        relationship named after it. */
    method CreateDirectMeasurements(m: nat) returns (energy: nat, duration: nat)
      requires m == |store| - 1
      modifies this`store
      ensures energy == m + 1 && duration == m + 2
      ensures store == old(store)[..m] +
        [old(store)[m].(rels := old(store)[m].rels +
          [Relationship(Some(EnergyName), m, m + 1), Relationship(Some(DurationName), m, m + 2)])] +
        [NewDirect(EnergyName), NewDirect(DurationName)]
    {
      ghost var prefix, node := store[..m], store[m];
      ghost var directs := [NewDirect(EnergyName), NewDirect(DurationName)];
      energy := CreateEnergyMeasurement();
      duration := CreateDurationMeasurement();
      assert store == prefix + [node] + directs;
      AddRelationship(m, energy);
      node := UpdateAfter(prefix, node, Relationship(Some(EnergyName), m, m + 1), directs);
      AddRelationship(m, duration);
      node := UpdateAfter(prefix, node, Relationship(Some(DurationName), m, m + 2), directs);
      assert node.rels == old(store)[m].rels +
        [Relationship(Some(EnergyName), m, m + 1), Relationship(Some(DurationName), m, m + 2)];
    }

    /** The forEach of the exit branch over the popped measurement's
        relationships: a target named "energy" gets `energy`, one named
        "duration" gets `duration`. */
    method SetMeasuredValues(rels: seq<Relationship>, energy: real, duration: real)
      requires forall i :: 0 <= i < |rels| ==> rels[i].to < |store|
      modifies this`store
      ensures store == SetValues(old(store), rels, energy, duration)
    {
      var i := 0;
      while i < |rels|
        invariant 0 <= i <= |rels|
        invariant |store| == |old(store)|
        invariant store == SetValues(old(store), rels[..i], energy, duration)
      {
        assert rels[..i + 1][..i] == rels[..i];
        var target := rels[i].to;
        var dimensional := store[target];
        if dimensional.name == EnergyName {
          store := store[target := dimensional.(value := energy)];
        } else if dimensional.name == DurationName {
          store := store[target := dimensional.(value := duration)];
        }
        i := i + 1;
      }
      assert rels[..i] == rels;
    }

    /** createRootMeasurement: a new collective measurement of `measurand`;
        when the stack is not empty, a "call" relationship from the top is
        appended to the top's outgoing calls and to the new measurement's
        incoming calls and relationships. */
    method CreateRootMeasurement(measurand: Option<MethodDeclaration>) returns (m: nat)
      requires forall i :: 0 <= i < |methodStack| ==> methodStack[i] < |store|
      modifies this`store
      ensures m == |old(store)|
      ensures var calls := if methodStack == [] then [] else [Relationship(Some(CallName), methodStack[|methodStack| - 1], m)];
        && store == (if methodStack == [] then old(store)
                     else old(store)[methodStack[|methodStack| - 1] :=
                            old(store)[methodStack[|methodStack| - 1]].(callsOut := old(store)[methodStack[|methodStack| - 1]].callsOut + calls)])
                    + [Measurement(Collective, "", 0.0, measurand, calls, [], calls)]
    {
      m := |store|;
      ghost var before := store;
      store := store + [Measurement(Collective, "", 0.0, measurand, [], [], [])];
      if methodStack != [] {
        var previous := methodStack[|methodStack| - 1];
        var call := Relationship(Some(CallName), previous, m);
        store := store[previous := store[previous].(callsOut := store[previous].callsOut + [call])];
        store := store[m := store[m].(callsIn := store[m].callsIn + [call])];
        store := store[m := store[m].(rels := store[m].rels + [call])];
        ghost var linked := before[previous := before[previous].(callsOut := before[previous].callsOut + [call])];
        ghost var node := Measurement(Collective, "", 0.0, measurand, [call], [], [call]);
        assert store[m] == node;
        assert forall k :: 0 <= k < m ==> store[k] == (linked + [node])[k];
        assert store == linked + [node];
      }
    }

    /** createEnergyMeasurement: a new direct measurement named "energy". */
    method CreateEnergyMeasurement() returns (m: nat)
      modifies this`store
      ensures m == |old(store)| && store == old(store) + [NewDirect(EnergyName)]
    {
      m := |store|;
      store := store + [NewDirect(EnergyName)];
    }

    /** createDurationMeasurement: a new direct measurement named
        "duration". */
    method CreateDurationMeasurement() returns (m: nat)
      modifies this`store
      ensures m == |old(store)| && store == old(store) + [NewDirect(DurationName)]
    {
      m := |store|;
      store := store + [NewDirect(DurationName)];
    }

    /** addRelationShip: a relationship from `from` to `to`, named after
        `to`, appended to the relationships of `from`. */
    method AddRelationship(from: nat, to: nat)
      requires from < |store| && to < |store|
      modifies this`store
      ensures store == old(store)[from := old(store)[from].(rels :=
        old(store)[from].rels + [Relationship(Some(old(store)[to].name), from, to)])]
    {
      var relationship := Relationship(Some(store[to].name), from, to);
      store := store[from := store[from].(rels := store[from].rels + [relationship])];
    }
  }

  /** The state after an enter, written as StartMethod builds it: the older
      measurements with the caller linked, then the invocation and its two
      direct measurements, one more observed measure and the push. */
  lemma EnterStore(s: State, qn: string, linked: seq<Measurement>, node: Measurement)
    requires Consistent(s)
    requires var n := |s.store|;
      var calls := if s.stack == [] then [] else [Relationship(Some(CallName), s.stack[|s.stack| - 1], n)];
      && linked == (if s.stack == [] then s.store
                    else s.store[s.stack[|s.stack| - 1] :=
                      s.store[s.stack[|s.stack| - 1]].(callsOut := s.store[s.stack[|s.stack| - 1]].callsOut + calls)])
      && node == Measurement(Collective, qn, 0.0, if qn in s.index then Some(s.index[qn]) else None,
           calls, [], calls)
    ensures Enter(s, qn) == State(s.index, s.observation + [ObservedMeasure([|s.store|, |s.store| + 1, |s.store| + 2])],
      s.stack + [|s.store|], linked + [node.(rels := node.rels +
        [Relationship(Some(EnergyName), |s.store|, |s.store| + 1), Relationship(Some(DurationName), |s.store|, |s.store| + 2)])] +
      [NewDirect(EnergyName), NewDirect(DurationName)])
  {
    var n := |s.store|;
    var e, d := Relationship(Some(EnergyName), n, n + 1), Relationship(Some(DurationName), n, n + 2);
    var node' := node.(rels := node.rels + [e, d]);
    assert linked + [node'] + [NewDirect(EnergyName), NewDirect(DurationName)] ==
      linked + [node', NewDirect(EnergyName), NewDirect(DurationName)];
  }

  /** Adding a relationship to the element after a prefix keeps the prefix
      and the rest. */
  lemma UpdateAfter(prefix: seq<Measurement>, y: Measurement, r: Relationship, rest: seq<Measurement>)
    returns (x: Measurement)
    ensures x == y.(rels := y.rels + [r])
    ensures (prefix + [y] + rest)[|prefix|] == y
    ensures forall k :: 0 <= k < |rest| ==> (prefix + [y] + rest)[|prefix| + 1 + k] == rest[k]
    ensures (prefix + [y] + rest)[|prefix| := x] == prefix + [x] + rest
  {
    x := y.(rels := y.rels + [r]);
    var u, v := (prefix + [y] + rest)[|prefix| := x], prefix + [x] + rest;
    assert forall k :: 0 <= k < |u| ==> u[k] == v[k];
  }
}
