/** The read-only queries App runs over the finished call graph: the
    cumulative and the self energy of an invocation, the root predicate, and
    the order in which displayCallGraph visits the invocations (its printing
    is not modelled, only the sequence of visited measurements). */
module App {
  import opened Smm

  /** Position of the first relationship whose name is set and equal to
      `name`, as `filter(r -> r.getName() != null && r.getName().equals(name))
      .findFirst()` selects it. */
  function FirstNamed(rels: seq<Relationship>, name: string): (r: Option<nat>)
    ensures r.Some? ==> r.value < |rels| && rels[r.value].name == Some(name)
    ensures r.Some? ==> forall j :: 0 <= j < r.value ==> rels[j].name != Some(name)
    ensures r.None? <==> forall j :: 0 <= j < |rels| ==> rels[j].name != Some(name)
  {
    if rels == [] then None
    else if rels[0].name == Some(name) then Some(0)
    else match FirstNamed(rels[1..], name)
      case None => None
      case Some(i) => Some(i + 1)
  }

  /** getEnergy: the value of the target of the first relationship named
      "energy"; fails when there is none. Relationships whose name is unset
      are passed over. */
  function GetEnergy(store: seq<Measurement>, m: nat): (r: Result<real>)
    requires m < |store| && Closed(store)
    ensures r.Err? <==> forall j :: 0 <= j < |store[m].rels| ==> store[m].rels[j].name != Some(EnergyName)
    ensures r.Err? ==> r.exception == NoEnergyMeasurement
  {
    match FirstNamed(store[m].rels, EnergyName)
    case None => Err(NoEnergyMeasurement)
    case Some(j) => Ok(store[store[m].rels[j].to].value)
  }

  /** What getEnergy returns is the value behind the first relationship
      named "energy": every relationship before it has another name or none. */
  lemma GetEnergyReadsFirstEnergy(store: seq<Measurement>, m: nat)
    requires m < |store| && Closed(store)
    requires GetEnergy(store, m).Ok?
    ensures exists j ::
      && 0 <= j < |store[m].rels|
      && store[m].rels[j].name == Some(EnergyName)
      && (forall i :: 0 <= i < j ==> store[m].rels[i].name != Some(EnergyName))
      && GetEnergy(store, m).value == store[store[m].rels[j].to].value
  {
    var j := FirstNamed(store[m].rels, EnergyName).value;
    assert store[m].rels[j].name == Some(EnergyName);
  }

  /** The sum of getEnergy over the targets of `calls`, or the failure of
      the first target that has no energy measurement. */
  function SumEnergies(store: seq<Measurement>, calls: seq<Relationship>): (r: Result<real>)
    requires Closed(store)
    requires forall i :: 0 <= i < |calls| ==> calls[i].to < |store|
    ensures r.Err? ==> r.exception == NoEnergyMeasurement
  {
    if calls == [] then Ok(0.0)
    else match SumEnergies(store, calls[..|calls| - 1])
      case Err(e) => Err(e)
      case Ok(sum) =>
        match GetEnergy(store, calls[|calls| - 1].to)
        case Err(e) => Err(e)
        case Ok(energy) => Ok(sum + energy)
  }

  /** The sum fails exactly when one of the targets has no energy
      measurement. */
  lemma {:induction false} SumEnergiesFails(store: seq<Measurement>, calls: seq<Relationship>)
    requires Closed(store)
    requires forall i :: 0 <= i < |calls| ==> calls[i].to < |store|
    ensures SumEnergies(store, calls).Err? <==> exists i :: 0 <= i < |calls| && GetEnergy(store, calls[i].to).Err?
  {
    if calls != [] {
      var init := calls[..|calls| - 1];
      SumEnergiesFails(store, init);
      assert forall i :: 0 <= i < |init| ==> init[i] == calls[i];
    }
  }

  /** getIndividualMethodEnergy: own cumulative energy minus the cumulative
      energies of the invocations it called. */
  function GetIndividualMethodEnergy(store: seq<Measurement>, m: nat): (r: Result<real>)
    requires m < |store| && Closed(store)
    ensures r.Err? ==> r.exception == NoEnergyMeasurement
  {
    match GetEnergy(store, m)
    case Err(e) => Err(e)
    case Ok(own) =>
      match SumEnergies(store, store[m].callsOut)
      case Err(e) => Err(e)
      case Ok(callees) => Ok(own - callees)
  }

  /** Self energy adds back up: self energy plus the callees' energies is
      the cumulative energy, and the query fails exactly when one of the
      getEnergy calls it makes fails. */
  lemma SelfEnergyDecomposes(store: seq<Measurement>, m: nat)
    requires m < |store| && Closed(store)
    ensures GetIndividualMethodEnergy(store, m).Ok? <==>
      GetEnergy(store, m).Ok? &&
      forall i :: 0 <= i < |store[m].callsOut| ==> GetEnergy(store, store[m].callsOut[i].to).Ok?
    ensures GetIndividualMethodEnergy(store, m).Ok? ==>
      GetIndividualMethodEnergy(store, m).value + SumEnergies(store, store[m].callsOut).value
        == GetEnergy(store, m).value
  {
    SumEnergiesFails(store, store[m].callsOut);
  }

  /** An invocation that called nothing spends all of its energy itself. */
  lemma SelfEnergyWithoutCalls(store: seq<Measurement>, m: nat)
    requires m < |store| && Closed(store)
    requires store[m].callsOut == []
    ensures GetIndividualMethodEnergy(store, m) == GetEnergy(store, m)
  {
  }

  /** One more callee lowers the sum by exactly its energy. */
  lemma {:induction false} SumEnergiesAppend(store: seq<Measurement>, calls: seq<Relationship>, c: Relationship)
    requires Closed(store)
    requires forall i :: 0 <= i < |calls| ==> calls[i].to < |store|
    requires c.to < |store|
    requires SumEnergies(store, calls).Ok? && GetEnergy(store, c.to).Ok?
    ensures SumEnergies(store, calls + [c]) ==
      Ok(SumEnergies(store, calls).value + GetEnergy(store, c.to).value)
  {
    var all := calls + [c];
    assert all[..|all| - 1] == calls;
    assert all[|all| - 1] == c;
  }

  /** The root test of App: a collective measurement nothing called. */
  predicate IsRoot(store: seq<Measurement>, m: nat)
    requires m < |store|
  {
    store[m].kind == Collective && store[m].callsIn == []
  }

  /** The roots among the first `k` objects, in arena order. */
  function RootsBelow(store: seq<Measurement>, k: nat): (roots: seq<nat>)
    requires k <= |store|
    ensures forall x: nat :: x in roots <==> x < k && IsRoot(store, x)
    ensures forall i :: 0 <= i < |roots| ==> roots[i] < k
    ensures forall i, j :: 0 <= i < j < |roots| ==> roots[i] < roots[j]
  {
    if k == 0 then []
    else RootsBelow(store, k - 1) + if IsRoot(store, k - 1) then [k - 1] else []
  }

  /** Root lists agree where the root test agrees. */
  lemma {:induction false} RootsBelowFrame(store: seq<Measurement>, store': seq<Measurement>, k: nat)
    requires k <= |store| && k <= |store'|
    requires forall x: nat :: x < k ==> IsRoot(store', x) == IsRoot(store, x)
    ensures RootsBelow(store', k) == RootsBelow(store, k)
  {
    if k > 0 {
      RootsBelowFrame(store, store', k - 1);
    }
  }

  /** The measurements displayCallGraph is started from, in the order the
      resource's contents list them, which is the order they were created. */
  function Roots(store: seq<Measurement>): (roots: seq<nat>)
    ensures forall x: nat :: x in roots <==> x < |store| && IsRoot(store, x)
    ensures forall i :: 0 <= i < |roots| ==> roots[i] < |store|
    ensures forall i, j :: 0 <= i < j < |roots| ==> roots[i] < roots[j]
  {
    RootsBelow(store, |store|)
  }

  /** The callees of a call list, in call order. */
  function Targets(calls: seq<Relationship>): (ids: seq<nat>)
    ensures |ids| == |calls|
    ensures forall i :: 0 <= i < |calls| ==> ids[i] == calls[i].to
  {
    seq(|calls|, i requires 0 <= i < |calls| => calls[i].to)
  }

  /** The invocations displayCallGraph(m) visits: m, then the walk from
      each callee in getBaseMeasurementTo() order. */
  function PreOrder(store: seq<Measurement>, m: nat): (order: seq<nat>)
    requires CallsForward(store) && m < |store|
    ensures |order| >= 1 && order[0] == m
    ensures forall x :: x in order ==> m <= x < |store|
    decreases |store| - m, 1, 0
  {
    [m] + Forest(store, m, Targets(store[m].callsOut))
  }

  /** The walks from each of `ids`, one after the other. */
  function Forest(store: seq<Measurement>, lo: int, ids: seq<nat>): (order: seq<nat>)
    requires CallsForward(store)
    requires forall i :: 0 <= i < |ids| ==> lo < ids[i] < |store|
    ensures forall x :: x in order ==> lo < x < |store|
    decreases |store| - lo, 0, |ids|
  {
    if ids == [] then []
    else Forest(store, lo, ids[..|ids| - 1]) + PreOrder(store, ids[|ids| - 1])
  }

  /** Everything App's contents loop displays, root after root. */
  function CallGraph(store: seq<Measurement>): (order: seq<nat>)
    requires CallsForward(store)
    ensures forall x :: x in order ==> x < |store|
  {
    Forest(store, -1, Roots(store))
  }

  /** The walks over two lists of starting points concatenate. */
  lemma {:induction false} ForestAppend(store: seq<Measurement>, lo: int, a: seq<nat>, b: seq<nat>)
    requires CallsForward(store)
    requires forall i :: 0 <= i < |a| ==> lo < a[i] < |store|
    requires forall i :: 0 <= i < |b| ==> lo < b[i] < |store|
    ensures Forest(store, lo, a + b) == Forest(store, lo, a) + Forest(store, lo, b)
    decreases |b|
  {
    if b != [] {
      var front := b[..|b| - 1];
      assert (a + b)[..|a + b| - 1] == a + front;
      assert (a + b)[|a + b| - 1] == b[|b| - 1];
      ForestAppend(store, lo, a, front);
      assert Forest(store, lo, b) == Forest(store, lo, front) + PreOrder(store, b[|b| - 1]);
    } else {
      assert a + b == a;
    }
  }

  /** The walk from m shows m first, then the whole walk from each callee,
      callee after callee in call order: the callee at position i comes
      after the walks of the earlier callees and before those of the later
      ones. */
  lemma PreOrderVisitsCalleesInOrder(store: seq<Measurement>, m: nat, i: nat)
    requires CallsForward(store) && m < |store|
    requires i < |store[m].callsOut|
    ensures var ids := Targets(store[m].callsOut);
      PreOrder(store, m) ==
        [m] + Forest(store, m, ids[..i]) + PreOrder(store, ids[i]) + Forest(store, m, ids[i + 1..])
  {
    var ids := Targets(store[m].callsOut);
    assert ids == ids[..i] + [ids[i]] + ids[i + 1..];
    ForestAppend(store, m, ids[..i] + [ids[i]], ids[i + 1..]);
    ForestAppend(store, m, ids[..i], [ids[i]]);
    assert Forest(store, m, [ids[i]]) == PreOrder(store, ids[i]) by {
      assert [ids[i]][..0] == [];
    }
  }

  /** The walk from m ends with the walk from its last callee. */
  lemma PreOrderEndsWithLastCallee(store: seq<Measurement>, m: nat)
    requires CallsForward(store) && m < |store| && store[m].callsOut != []
    ensures var ids := Targets(store[m].callsOut);
      PreOrder(store, m) == [m] + Forest(store, m, ids[..|ids| - 1]) + PreOrder(store, ids[|ids| - 1])
  {
  }

  /** The whole walk ends with the walk from the last root. */
  lemma CallGraphEndsWithLastRoot(store: seq<Measurement>)
    requires CallsForward(store) && Roots(store) != []
    ensures var roots := Roots(store);
      CallGraph(store) == Forest(store, -1, roots[..|roots| - 1]) + PreOrder(store, roots[|roots| - 1])
  {
  }

  /** Two arenas with the same call lists on every invocation a walk
      reaches give the same walk. */
  lemma {:induction false} PreOrderFrame(store: seq<Measurement>, store': seq<Measurement>, m: nat)
    requires CallsForward(store) && CallsForward(store') && m < |store| <= |store'|
    requires forall x :: x in PreOrder(store, m) ==> store'[x].callsOut == store[x].callsOut
    ensures PreOrder(store', m) == PreOrder(store, m)
    decreases |store| - m, 1, 0
  {
    var ids := Targets(store[m].callsOut);
    assert store'[m].callsOut == store[m].callsOut;
    ForestFrame(store, store', m, ids);
  }

  lemma {:induction false} ForestFrame(store: seq<Measurement>, store': seq<Measurement>, lo: int, ids: seq<nat>)
    requires CallsForward(store) && CallsForward(store') && |store| <= |store'|
    requires forall i :: 0 <= i < |ids| ==> lo < ids[i] < |store|
    requires forall x :: x in Forest(store, lo, ids) ==> store'[x].callsOut == store[x].callsOut
    ensures Forest(store', lo, ids) == Forest(store, lo, ids)
    decreases |store| - lo, 0, |ids|
  {
    if ids != [] {
      var last := ids[|ids| - 1];
      ForestFrame(store, store', lo, ids[..|ids| - 1]);
      PreOrderFrame(store, store', last);
    }
  }
}
