/** The shape of every state manage can reach from the constructor's, and
    what it gives the App queries: each invocation is a triple of objects
    (the collective measurement, its "energy" and its "duration"
    measurement), call edges run from caller to callee in creation order,
    the method stack is the chain of last callees from the last root, and
    displayCallGraph's walk from the roots lists every invocation exactly
    once, in the order the enters created them. */
module BuilderInvariant {
  import opened Smm
  import opened App
  import opened ManageStep
  import JavaSplit

  function EnergyRel(n: nat): Relationship { Relationship(Some(EnergyName), n, n + 1) }
  function DurationRel(n: nat): Relationship { Relationship(Some(DurationName), n, n + 2) }
  function CallRel(p: nat, n: nat): Relationship { Relationship(Some(CallName), p, n) }

  /** The invocation whose collective measurement is object n. */
  ghost predicate InvocationShape(store: seq<Measurement>, n: nat)
    requires n < |store|
  {
    && n + 2 < |store|
    && store[n].kind == Collective
    && store[n + 1] == NewDirect(EnergyName).(value := store[n + 1].value)
    && store[n + 2] == NewDirect(DurationName).(value := store[n + 2].value)
    && |store[n].callsIn| <= 1
    && store[n].rels == store[n].callsIn + [EnergyRel(n), DurationRel(n)]
    && (forall r :: r in store[n].callsIn ==>
          r.from < n && r.from % 3 == 0 && r == CallRel(r.from, n) && r in store[r.from].callsOut)
    && (forall r :: r in store[n].callsOut ==>
          r == CallRel(n, r.to) && n < r.to && r.to + 2 < |store| && r.to % 3 == 0 && store[r.to].callsIn == [r])
    && (forall i, j :: 0 <= i < j < |store[n].callsOut| ==> store[n].callsOut[i].to < store[n].callsOut[j].to)
  }

  ghost predicate StoreShape(store: seq<Measurement>)
  {
    && |store| % 3 == 0
    && forall n {:trigger InvocationShape(store, n)} :: 0 <= n < |store| && n % 3 == 0 ==> InvocationShape(store, n)
  }

  /** The callee of the last call relationship of k, if any. */
  function LastCallee(store: seq<Measurement>, k: nat): Option<nat>
    requires k < |store|
  {
    var calls := store[k].callsOut;
    if calls == [] then None else Some(calls[|calls| - 1].to)
  }

  /** The method stack: invocations, oldest first, the bottom one the last
      root and each one the last callee of the one below it. */
  ghost predicate StackShape(store: seq<Measurement>, stack: seq<nat>)
  {
    && (forall i :: 0 <= i < |stack| ==> stack[i] < |store| && stack[i] % 3 == 0)
    && (forall i, j :: 0 <= i < j < |stack| ==> stack[i] < stack[j])
    && (stack != [] ==> Roots(store) != [] && stack[0] == Roots(store)[|Roots(store)| - 1])
    && (forall i :: 0 <= i < |stack| - 1 ==> LastCallee(store, stack[i]) == Some(stack[i + 1]))
  }

  /** One observed measure per invocation, holding its three objects. */
  ghost predicate ObservationShape(observation: seq<ObservedMeasure>, store: seq<Measurement>)
  {
    && |store| == 3 * |observation|
    && forall k :: 0 <= k < |observation| ==> observation[k] == ObservedMeasure([3 * k, 3 * k + 1, 3 * k + 2])
  }

  /** The collective measurements of the first `count` invocations. */
  function Invocations(count: nat): (ids: seq<nat>)
    ensures |ids| == count
    ensures forall i :: 0 <= i < count ==> ids[i] == 3 * i
  {
    seq(count, i => 3 * i)
  }

  ghost predicate Inv(s: State)
  {
    && StoreShape(s.store)
    && StackShape(s.store, s.stack)
    && ObservationShape(s.observation, s.store)
    && CallsForward(s.store)
    && CallGraph(s.store) == Invocations(|s.observation|)
  }

  /* ---------------------------------------------------------------------- */
  /* Sequences in increasing order                                          */

  predicate Increasing(xs: seq<nat>)
  {
    forall i, j :: 0 <= i < j < |xs| ==> xs[i] < xs[j]
  }

  lemma IncreasingApart(xs: seq<nat>, ys: seq<nat>, p: nat)
    requires Increasing(xs + ys) && p in ys
    ensures p !in xs
  {
    var j :| 0 <= j < |ys| && ys[j] == p;
    forall i | 0 <= i < |xs| ensures xs[i] != p {
      assert (xs + ys)[i] == xs[i] && (xs + ys)[|xs| + j] == ys[j];
    }
  }

  lemma IncreasingSuffix(xs: seq<nat>, ys: seq<nat>)
    requires Increasing(ys) && |xs| <= |ys| && ys[|ys| - |xs|..] == xs
    ensures Increasing(xs)
  {
    var d := |ys| - |xs|;
    forall i, j | 0 <= i < j < |xs| ensures xs[i] < xs[j] {
      assert xs[i] == ys[d + i] && xs[j] == ys[d + j];
    }
  }

  /* ---------------------------------------------------------------------- */
  /* Consequences of the shape                                              */

  /** A shaped arena is closed and its calls go forward. */
  lemma ShapeClosed(store: seq<Measurement>)
    requires StoreShape(store)
    ensures Closed(store) && CallsForward(store)
  {
    forall k, r | 0 <= k < |store| && r in store[k].rels ensures r.to < |store| {
      var n := k - k % 3;
      assert InvocationShape(store, n);
    }
    forall k, r | 0 <= k < |store| && r in store[k].callsOut ensures k < r.to < |store| {
      var n := k - k % 3;
      assert InvocationShape(store, n);
    }
  }

  /** A value-only change keeps the shape, the roots and the walks. */
  lemma ValuesOnlyFrame(store: seq<Measurement>, store': seq<Measurement>)
    requires StoreShape(store)
    requires |store'| == |store|
    requires forall k :: 0 <= k < |store| ==> store'[k] == store[k].(value := store'[k].value)
    ensures StoreShape(store') && CallsForward(store')
    ensures Roots(store') == Roots(store)
    ensures forall k :: 0 <= k < |store| ==> LastCallee(store', k) == LastCallee(store, k)
    ensures CallsForward(store) && CallGraph(store') == CallGraph(store)
  {
    forall n | 0 <= n < |store'| && n % 3 == 0 ensures InvocationShape(store', n) {
      assert InvocationShape(store, n);
      assert store'[n].callsOut == store[n].callsOut;
      forall r | r in store'[n].callsOut ensures store'[r.to].callsIn == [r] {
        assert store'[r.to].callsIn == store[r.to].callsIn;
      }
    }
    ShapeClosed(store);
    ShapeClosed(store');
    RootsBelowFrame(store, store', |store|);
    ForestFrame(store, store', -1, Roots(store));
  }

  /** getEnergy of an invocation reads its own energy measurement: the
      incoming call relationship, when there is one, is named "call". */
  lemma EnergyOfInvocation(store: seq<Measurement>, n: nat)
    requires StoreShape(store) && n < |store| && n % 3 == 0
    ensures Closed(store)
    ensures GetEnergy(store, n) == Ok(store[n + 1].value)
  {
    ShapeClosed(store);
    assert InvocationShape(store, n);
    var rels := store[n].rels;
    var j := |store[n].callsIn|;
    assert rels[j] == EnergyRel(n);
    forall i | 0 <= i < j ensures rels[i].name != Some(EnergyName) {
      assert rels[i] in store[n].callsIn;
    }
    var first := FirstNamed(rels, EnergyName);
    assert first.Some?;
    assert first.value == j;
  }

  /** The sum of the energy measurements of the callees of `calls`. */
  function CalleeEnergy(store: seq<Measurement>, calls: seq<Relationship>): real
    requires forall i :: 0 <= i < |calls| ==> calls[i].to + 1 < |store|
  {
    if calls == [] then 0.0
    else CalleeEnergy(store, calls[..|calls| - 1]) + store[calls[|calls| - 1].to + 1].value
  }

  /** Calls to invocations of a shaped arena. */
  predicate CallsToInvocations(store: seq<Measurement>, calls: seq<Relationship>)
  {
    forall i :: 0 <= i < |calls| ==> calls[i].to + 2 < |store| && calls[i].to % 3 == 0
  }

  lemma {:induction false} SumOfCallees(store: seq<Measurement>, calls: seq<Relationship>)
    requires StoreShape(store) && CallsToInvocations(store, calls)
    ensures Closed(store)
    ensures SumEnergies(store, calls).Ok? && SumEnergies(store, calls).value == CalleeEnergy(store, calls)
  {
    ShapeClosed(store);
    if calls != [] {
      var init, last := calls[..|calls| - 1], calls[|calls| - 1].to;
      assert CallsToInvocations(store, init);
      SumOfCallees(store, init);
      EnergyOfInvocation(store, last);
      assert SumEnergies(store, calls) == Ok(CalleeEnergy(store, init) + store[last + 1].value);
    }
  }

  /** The self energy of an invocation is its measured energy minus the
      measured energies of its direct callees; it never fails on a built
      graph. */
  lemma SelfEnergyOfInvocation(store: seq<Measurement>, n: nat)
    requires StoreShape(store) && n < |store| && n % 3 == 0
    ensures n + 2 < |store| && CallsToInvocations(store, store[n].callsOut) && Closed(store)
    ensures GetIndividualMethodEnergy(store, n).Ok?
    ensures GetIndividualMethodEnergy(store, n).value ==
      store[n + 1].value - CalleeEnergy(store, store[n].callsOut)
  {
    CalleesAreInvocations(store, n);
    SumOfCallees(store, store[n].callsOut);
    EnergyOfInvocation(store, n);
  }

  /** The callees of an invocation are invocations. */
  lemma CalleesAreInvocations(store: seq<Measurement>, n: nat)
    requires StoreShape(store) && n < |store| && n % 3 == 0
    ensures n + 2 < |store| && CallsToInvocations(store, store[n].callsOut)
  {
    assert InvocationShape(store, n);
    var calls := store[n].callsOut;
    forall i | 0 <= i < |calls| ensures calls[i].to + 2 < |store| && calls[i].to % 3 == 0 {
      assert calls[i] in calls;
    }
  }

  /* ---------------------------------------------------------------------- */
  /* The constructor's state                                                */

  lemma InitInv(index: map<string, MethodDeclaration>)
    ensures Inv(Init(index))
  {
  }

  /* ---------------------------------------------------------------------- */
  /* Exit                                                                   */

  /** An exit gives the popped invocation's energy measurement the measured
      energy and its duration measurement the measured duration; the popped
      measurement itself changes only when it was called and carries the
      name "energy" or "duration" (its call relationship points at itself);
      nothing else changes. */
  lemma ExitEffect(s: State, energy: real, duration: real)
    requires StoreShape(s.store) && Consistent(s)
    requires s.stack != [] && s.stack[|s.stack| - 1] % 3 == 0
    ensures var t, p := Exit(s, energy, duration), s.stack[|s.stack| - 1];
      && p + 2 < |s.store| && |t.store| == |s.store|
      && t.stack == s.stack[..|s.stack| - 1]
      && t.store[p + 1] == s.store[p + 1].(value := energy)
      && t.store[p + 2] == s.store[p + 2].(value := duration)
      && t.store[p] == s.store[p].(value := Refreshed(s.store[p], s.store[p].callsIn != [], energy, duration))
      && forall k :: 0 <= k < |s.store| && k != p && k != p + 1 && k != p + 2 ==> t.store[k] == s.store[k]
  {
    ShapeClosed(s.store);
    var p := s.stack[|s.stack| - 1];
    InvocationTargets(s.store, p);
  }

  /** The relationships of an invocation reach its two direct measurements,
      and the invocation itself exactly when it was called. */
  lemma InvocationTargets(store: seq<Measurement>, p: nat)
    requires StoreShape(store) && p < |store| && p % 3 == 0
    ensures p + 2 < |store| && store[p + 1].name == EnergyName && store[p + 2].name == DurationName
    ensures forall k :: 0 <= k < |store| ==>
      (Targeted(store[p].rels, k) <==> k == p + 1 || k == p + 2 || (k == p && store[p].callsIn != []))
  {
    assert InvocationShape(store, p);
    var rels := store[p].rels;
    var j := |store[p].callsIn|;
    assert rels[j] == EnergyRel(p) && rels[j + 1] == DurationRel(p);
    assert Targeted(rels, p + 1) && Targeted(rels, p + 2);
    forall k | 0 <= k < |store| && Targeted(rels, k) ensures k == p || k == p + 1 || k == p + 2 {
      var i :| 0 <= i < |rels| && rels[i].to == k;
      if i < j {
        assert rels[i] in store[p].callsIn;
      }
    }
    if store[p].callsIn != [] {
      assert rels[0] in store[p].callsIn;
      assert Targeted(rels, p);
    } else {
      forall i | 0 <= i < |rels| ensures rels[i].to != p {
        assert i == j || i == j + 1;
      }
    }
  }

  /** After its exit, getEnergy of an invocation returns the measured
      energy. */
  lemma ExitSetsEnergy(s: State, energy: real, duration: real)
    requires StoreShape(s.store) && Consistent(s)
    requires s.stack != [] && s.stack[|s.stack| - 1] % 3 == 0
    ensures var p := s.stack[|s.stack| - 1];
      Closed(Exit(s, energy, duration).store) &&
      GetEnergy(Exit(s, energy, duration).store, p) == Ok(energy)
  {
    var t, p := Exit(s, energy, duration), s.stack[|s.stack| - 1];
    InvocationTargets(s.store, p);
    assert t.store[p + 1].value == energy;
    ValuesOnlyFrame(s.store, t.store);
    EnergyOfInvocation(t.store, p);
  }

  lemma ExitPreservesInv(s: State, energy: real, duration: real)
    requires Inv(s) && s.stack != []
    ensures Consistent(s) && Inv(Exit(s, energy, duration))
  {
    ShapeClosed(s.store);
    var t := Exit(s, energy, duration);
    ValuesOnlyFrame(s.store, t.store);
    var stack := t.stack;
    forall i | 0 <= i < |stack| - 1 ensures LastCallee(t.store, stack[i]) == Some(stack[i + 1]) {
      assert stack[i] == s.stack[i] && stack[i + 1] == s.stack[i + 1];
    }
  }

  /* ---------------------------------------------------------------------- */
  /* Enter                                                                  */

  /** Where an enter leaves the older objects: only the caller's outgoing
      list grows. */
  lemma EnterFrame(s: State, qn: string)
    requires Consistent(s)
    ensures var t, n := Enter(s, qn), |s.store|;
      && |t.store| == n + 3
      && (forall k :: 0 <= k < n ==> t.store[k].kind == s.store[k].kind && t.store[k].callsIn == s.store[k].callsIn)
      && (forall k :: 0 <= k < n && (s.stack == [] || k != s.stack[|s.stack| - 1]) ==> t.store[k] == s.store[k])
      && (forall k, r :: 0 <= k < n && r in s.store[k].callsOut ==> r in t.store[k].callsOut)
  {
  }

  /** Every invocation of the arena after an enter is shaped: the older
      ones keep their shape and the new one is built shaped. */
  lemma EnterShape(s: State, qn: string)
    requires StoreShape(s.store) && Consistent(s)
    requires s.stack != [] ==> s.stack[|s.stack| - 1] % 3 == 0
    ensures StoreShape(Enter(s, qn).store)
  {
    var t, n := Enter(s, qn), |s.store|;
    forall k | 0 <= k < |t.store| && k % 3 == 0 ensures InvocationShape(t.store, k) {
      if k < n {
        EnterKeepsInvocation(s, qn, k);
      } else {
        EnterNewInvocation(s, qn);
        assert k == n;
      }
    }
  }

  /** The invocation an enter creates is shaped. */
  lemma EnterNewInvocation(s: State, qn: string)
    requires StoreShape(s.store) && Consistent(s)
    requires s.stack != [] ==> s.stack[|s.stack| - 1] % 3 == 0
    ensures |Enter(s, qn).store| == |s.store| + 3
    ensures InvocationShape(Enter(s, qn).store, |s.store|)
  {
    EnterLinks(s, qn);
  }

  /** An older invocation keeps its shape through an enter; the caller's
      new call goes to the youngest invocation, after all its others. */
  lemma EnterKeepsInvocation(s: State, qn: string, k: nat)
    requires StoreShape(s.store) && Consistent(s) && k < |s.store| && k % 3 == 0
    requires s.stack != [] ==> s.stack[|s.stack| - 1] % 3 == 0
    ensures InvocationShape(Enter(s, qn).store, k)
  {
    EnterFrame(s, qn);
    EnterLinks(s, qn);
    var t, n := Enter(s, qn), |s.store|;
    assert InvocationShape(s.store, k);
    assert t.store[k + 1] == s.store[k + 1] && t.store[k + 2] == s.store[k + 2];
    forall r | r in t.store[k].callsIn ensures r in t.store[r.from].callsOut {
      assert r in s.store[r.from].callsOut;
    }
    forall r | r in t.store[k].callsOut
      ensures r == CallRel(k, r.to) && k < r.to && r.to + 2 < |t.store| && r.to % 3 == 0 && t.store[r.to].callsIn == [r]
    {
      if r !in s.store[k].callsOut {
        assert s.stack != [] && k == s.stack[|s.stack| - 1];
        assert r == CallRel(k, n);
      }
    }
    if s.stack != [] && k == s.stack[|s.stack| - 1] {
      var calls := t.store[k].callsOut;
      forall i, j | 0 <= i < j < |calls| ensures calls[i].to < calls[j].to {
        if j < |calls| - 1 {
          assert calls[i] == s.store[k].callsOut[i] && calls[j] == s.store[k].callsOut[j];
        } else {
          assert calls[i] in s.store[k].callsOut;
        }
      }
    }
  }

  lemma EnterRoots(s: State, qn: string)
    requires Consistent(s)
    ensures Roots(Enter(s, qn).store) == Roots(s.store) + (if s.stack == [] then [|s.store|] else [])
  {
    EnterFrame(s, qn);
    EnterLinks(s, qn);
    var t, n := Enter(s, qn), |s.store|;
    RootsBelowFrame(s.store, t.store, n);
    assert !IsRoot(t.store, n + 1) && !IsRoot(t.store, n + 2);
    assert IsRoot(t.store, n) <==> s.stack == [];
    assert RootsBelow(t.store, n + 3) == RootsBelow(t.store, n + 2);
    assert RootsBelow(t.store, n + 2) == RootsBelow(t.store, n + 1);
  }

  /** The walk from an invocation on the stack, in the arena before the
      enter, is a suffix of the whole walk. */
  lemma {:induction false} StackWalkIsSuffix(store: seq<Measurement>, stack: seq<nat>, i: nat)
    requires CallsForward(store) && StackShape(store, stack) && i < |stack|
    ensures var walk, all := PreOrder(store, stack[i]), CallGraph(store);
      |walk| <= |all| && all[|all| - |walk|..] == walk
  {
    var all := CallGraph(store);
    if i == 0 {
      var roots := Roots(store);
      assert roots[..|roots| - 1] + [roots[|roots| - 1]] == roots;
      assert all == Forest(store, -1, roots[..|roots| - 1]) + PreOrder(store, stack[0]);
    } else {
      StackWalkIsSuffix(store, stack, i - 1);
      var a, c := stack[i - 1], stack[i];
      assert LastCallee(store, a) == Some(c);
      PreOrderEndsWithLastCallee(store, a);
    }
  }

  lemma StackWalkIncreasing(s: State, i: nat)
    requires Inv(s) && i < |s.stack|
    ensures Increasing(PreOrder(s.store, s.stack[i]))
  {
    StackWalkIsSuffix(s.store, s.stack, i);
    IncreasingSuffix(PreOrder(s.store, s.stack[i]), CallGraph(s.store));
  }

  /** After an enter below a non-empty stack, the walk from the caller
      gains the new invocation at its end. */
  lemma TopWalkGrows(s: State, qn: string)
    requires Inv(s) && s.stack != []
    requires Consistent(s) && CallsForward(Enter(s, qn).store)
    ensures PreOrder(Enter(s, qn).store, s.stack[|s.stack| - 1]) ==
      PreOrder(s.store, s.stack[|s.stack| - 1]) + [|s.store|]
  {
    EnterLinks(s, qn);
    var t, n, p := Enter(s, qn), |s.store|, s.stack[|s.stack| - 1];
    var ids := Targets(s.store[p].callsOut);
    var ids' := Targets(t.store[p].callsOut);
    assert ids' == ids + [n];
    assert ids'[..|ids'| - 1] == ids;
    assert PreOrder(t.store, n) == [n];
    PreOrderEndsWithLastCallee(t.store, p);
    assert PreOrder(t.store, p) == [p] + Forest(t.store, p, ids) + [n];
    ForestFrame(s.store, t.store, p, ids);
  }

  /** After an enter below a non-empty stack, the walk from each invocation
      on the stack gains the new invocation at its end, and the caller lies
      on that walk. */
  lemma {:induction false} StackWalkGrows(s: State, qn: string, i: nat)
    requires Inv(s) && s.stack != [] && i < |s.stack|
    requires Consistent(s) && CallsForward(Enter(s, qn).store)
    ensures PreOrder(Enter(s, qn).store, s.stack[i]) == PreOrder(s.store, s.stack[i]) + [|s.store|]
    ensures s.stack[|s.stack| - 1] in PreOrder(s.store, s.stack[i])
    decreases |s.stack| - i
  {
    if i == |s.stack| - 1 {
      TopWalkGrows(s, qn);
    } else {
      StackWalkGrows(s, qn, i + 1);
      StackWalkIncreasing(s, i);
      assert s.stack[i] < s.stack[|s.stack| - 1];
      StackWalkStep(s, qn, i);
    }
  }

  /** One step down the stack: a walk that grew by the new invocation and
      holds the caller makes the walk from the invocation below grow too. */
  lemma StackWalkStep(s: State, qn: string, i: nat)
    requires Consistent(s) && CallsForward(s.store) && i + 1 < |s.stack|
    requires s.stack[i] < s.stack[|s.stack| - 1] && LastCallee(s.store, s.stack[i]) == Some(s.stack[i + 1])
    requires CallsForward(Enter(s, qn).store)
    requires Increasing(PreOrder(s.store, s.stack[i]))
    requires PreOrder(Enter(s, qn).store, s.stack[i + 1]) == PreOrder(s.store, s.stack[i + 1]) + [|s.store|]
    requires s.stack[|s.stack| - 1] in PreOrder(s.store, s.stack[i + 1])
    ensures PreOrder(Enter(s, qn).store, s.stack[i]) == PreOrder(s.store, s.stack[i]) + [|s.store|]
    ensures s.stack[|s.stack| - 1] in PreOrder(s.store, s.stack[i])
  {
    EnterFrame(s, qn);
    var p, a := s.stack[|s.stack| - 1], s.stack[i];
    var ids := Targets(s.store[a].callsOut);
    CallerInLastWalk(s.store, a, s.stack[i + 1], p);
    EnterKeepsForest(s, qn, a, ids[..|ids| - 1]);
    WalkGrowsThroughLastCallee(s.store, Enter(s, qn).store, a, |s.store|);
  }

  /** In an increasing walk, an invocation reached through the last callee
      is not reached through the others. */
  lemma CallerInLastWalk(store: seq<Measurement>, a: nat, c: nat, p: nat)
    requires CallsForward(store) && a < |store| && LastCallee(store, a) == Some(c)
    requires Increasing(PreOrder(store, a)) && p in PreOrder(store, c)
    ensures var ids := Targets(store[a].callsOut);
      p !in Forest(store, a, ids[..|ids| - 1]) && p in PreOrder(store, a)
  {
    var ids := Targets(store[a].callsOut);
    var front := ids[..|ids| - 1];
    PreOrderEndsWithLastCallee(store, a);
    IncreasingApart([a] + Forest(store, a, front), PreOrder(store, c), p);
    assert forall x :: x in Forest(store, a, front) ==> x in [a] + Forest(store, a, front);
  }

  /** The walk from a grows by n when the walk from its last callee does and
      the walks from its other callees stay. */
  lemma WalkGrowsThroughLastCallee(store: seq<Measurement>, store': seq<Measurement>, a: nat, n: nat)
    requires CallsForward(store) && CallsForward(store') && a < |store| <= |store'|
    requires store[a].callsOut != [] && store'[a].callsOut == store[a].callsOut
    requires var ids := Targets(store[a].callsOut);
      && Forest(store', a, ids[..|ids| - 1]) == Forest(store, a, ids[..|ids| - 1])
      && PreOrder(store', ids[|ids| - 1]) == PreOrder(store, ids[|ids| - 1]) + [n]
    ensures PreOrder(store', a) == PreOrder(store, a) + [n]
  {
    PreOrderEndsWithLastCallee(store, a);
    PreOrderEndsWithLastCallee(store', a);
  }

  /** A walk that does not pass through the caller is the same after an
      enter. */
  lemma EnterKeepsForest(s: State, qn: string, lo: int, ids: seq<nat>)
    requires Consistent(s) && CallsForward(s.store) && CallsForward(Enter(s, qn).store)
    requires forall i :: 0 <= i < |ids| ==> lo < ids[i] < |s.store|
    requires s.stack != [] ==> s.stack[|s.stack| - 1] !in Forest(s.store, lo, ids)
    ensures Forest(Enter(s, qn).store, lo, ids) == Forest(s.store, lo, ids)
  {
    EnterFrame(s, qn);
    var t := Enter(s, qn);
    forall x | x in Forest(s.store, lo, ids) ensures t.store[x].callsOut == s.store[x].callsOut {
    }
    ForestFrame(s.store, t.store, lo, ids);
  }

  /** An enter keeps every call edge going forward. */
  lemma EnterCallsForward(s: State, qn: string)
    requires Inv(s)
    ensures Consistent(s) && CallsForward(Enter(s, qn).store)
  {
    ShapeClosed(s.store);
    EnterShape(s, qn);
    ShapeClosed(Enter(s, qn).store);
  }

  /** An enter on an empty stack adds a root whose walk is itself alone. */
  lemma EnterCallGraphOfRoot(s: State, qn: string)
    requires Inv(s) && s.stack == []
    ensures Consistent(s) && CallsForward(Enter(s, qn).store)
    ensures CallGraph(Enter(s, qn).store) == CallGraph(s.store) + [|s.store|]
  {
    EnterCallsForward(s, qn);
    EnterLinks(s, qn);
    EnterRoots(s, qn);
    var t, n := Enter(s, qn), |s.store|;
    var roots := Roots(s.store);
    assert (roots + [n])[..|roots|] == roots;
    assert PreOrder(t.store, n) == [n];
    ForestFrame(s.store, t.store, -1, roots);
  }

  /** An enter below a non-empty stack puts the new invocation at the end of
      the walk from the last root, which is the end of the whole walk. */
  lemma EnterCallGraphOfCallee(s: State, qn: string)
    requires Inv(s) && s.stack != []
    ensures Consistent(s) && CallsForward(Enter(s, qn).store)
    ensures CallGraph(Enter(s, qn).store) == CallGraph(s.store) + [|s.store|]
  {
    EnterCallsForward(s, qn);
    EnterRoots(s, qn);
    StackWalkGrows(s, qn, 0);
    EnterKeepsEarlierRoots(s, qn);
    GraphGrowsAtLastRoot(s.store, Enter(s, qn).store, |s.store|);
  }

  /** The walks from the roots before the last one do not reach the caller,
      so an enter leaves them as they were. */
  lemma EnterKeepsEarlierRoots(s: State, qn: string)
    requires Inv(s) && s.stack != []
    requires s.stack[|s.stack| - 1] in PreOrder(s.store, s.stack[0])
    ensures Consistent(s) && CallsForward(Enter(s, qn).store)
    ensures Roots(s.store) != [] && Roots(s.store)[|Roots(s.store)| - 1] == s.stack[0]
    ensures var roots := Roots(s.store);
      Forest(Enter(s, qn).store, -1, roots[..|roots| - 1]) == Forest(s.store, -1, roots[..|roots| - 1])
  {
    EnterCallsForward(s, qn);
    var roots := Roots(s.store);
    var front := roots[..|roots| - 1];
    CallGraphEndsWithLastRoot(s.store);
    InvocationsIncreasing(|s.observation|);
    IncreasingApart(Forest(s.store, -1, front), PreOrder(s.store, s.stack[0]), s.stack[|s.stack| - 1]);
    EnterKeepsForest(s, qn, -1, front);
  }

  /** With the same roots, the whole walk grows by n when the walk from the
      last root does and those from the others stay. */
  lemma GraphGrowsAtLastRoot(store: seq<Measurement>, store': seq<Measurement>, n: nat)
    requires CallsForward(store) && CallsForward(store') && |store| <= |store'|
    requires Roots(store') == Roots(store) != []
    requires var roots := Roots(store);
      && Forest(store', -1, roots[..|roots| - 1]) == Forest(store, -1, roots[..|roots| - 1])
      && PreOrder(store', roots[|roots| - 1]) == PreOrder(store, roots[|roots| - 1]) + [n]
    ensures CallGraph(store') == CallGraph(store) + [n]
  {
    CallGraphEndsWithLastRoot(store);
    CallGraphEndsWithLastRoot(store');
  }

  lemma EnterCallGraph(s: State, qn: string)
    requires Inv(s)
    ensures Consistent(s) && CallsForward(Enter(s, qn).store)
    ensures CallGraph(Enter(s, qn).store) == CallGraph(s.store) + [|s.store|]
  {
    if s.stack == [] {
      EnterCallGraphOfRoot(s, qn);
    } else {
      EnterCallGraphOfCallee(s, qn);
    }
  }

  lemma InvocationsIncreasing(count: nat)
    ensures Increasing(Invocations(count))
  {
  }

  /** The pushed invocation is the last callee of the old top, or the new
      last root. */
  lemma EnterStackShape(s: State, qn: string)
    requires Consistent(s) && StackShape(s.store, s.stack) && |s.store| % 3 == 0
    ensures StackShape(Enter(s, qn).store, Enter(s, qn).stack)
  {
    EnterFrame(s, qn);
    EnterLinks(s, qn);
    EnterRoots(s, qn);
    var t, n := Enter(s, qn), |s.store|;
    var stack := t.stack;
    assert stack == s.stack + [n];
    forall i | 0 <= i < |stack| - 1 ensures LastCallee(t.store, stack[i]) == Some(stack[i + 1]) {
      if i < |s.stack| - 1 {
        assert stack[i] < s.stack[|s.stack| - 1];
        assert t.store[stack[i]] == s.store[stack[i]];
      }
    }
    if s.stack != [] {
      assert Roots(t.store) == Roots(s.store);
    }
  }

  lemma EnterPreservesInv(s: State, qn: string)
    requires Inv(s)
    ensures Consistent(s) && Inv(Enter(s, qn))
  {
    ShapeClosed(s.store);
    EnterShape(s, qn);
    EnterCallGraph(s, qn);
    EnterStackShape(s, qn);
    EnterLinks(s, qn);
    var t, n := Enter(s, qn), |s.store|;
    assert Invocations(|s.observation|) + [n] == Invocations(|t.observation|);
  }

  lemma StepPreservesInv(s: State, line: string, parse: string -> real)
    requires Inv(s)
    ensures Consistent(s)
    ensures Step(s, line, parse).Ok? ==> Inv(Step(s, line, parse).value)
  {
    ShapeClosed(s.store);
    var fields := JavaSplit.Split(line, Separator);
    if |fields| == 3 && s.stack != [] {
      ExitPreservesInv(s, parse(fields[1]), parse(fields[2]));
    } else if |fields| != 0 && |fields| != 3 {
      EnterPreservesInv(s, fields[0]);
    }
  }

  lemma {:induction false} RunPreservesInv(s: State, lines: seq<string>, parse: string -> real)
    requires Inv(s)
    ensures Consistent(s)
    ensures Run(s, lines, parse).Ok? ==> Inv(Run(s, lines, parse).value)
    decreases |lines|
  {
    ShapeClosed(s.store);
    if lines != [] {
      StepPreservesInv(s, lines[0], parse);
      var r := Step(s, lines[0], parse);
      if r.Ok? {
        RunPreservesInv(r.value, lines[1..], parse);
      }
    }
  }

  /* ---------------------------------------------------------------------- */
  /* What the built graph gives App                                         */

  /** Whatever trace EnergyBehavior is fed, as long as manage does not
      throw, displayCallGraph started from every root in creation order
      visits every invocation exactly once, in the order the enters created
      them. */
  lemma CallGraphIsCreationOrder(index: map<string, MethodDeclaration>, lines: seq<string>, parse: string -> real)
    ensures Run(Init(index), lines, parse).Ok? ==>
      var t := Run(Init(index), lines, parse).value;
      && Inv(t)
      && CallGraph(t.store) == Invocations(|t.observation|)
  {
    InitInv(index);
    RunPreservesInv(Init(index), lines, parse);
  }

  /** The calls form a forest: an invocation is a root, or it has exactly
      one incoming call, from an older invocation that lists that same
      call among its outgoing ones. */
  lemma CallsFormForest(store: seq<Measurement>, n: nat)
    requires StoreShape(store) && n < |store| && n % 3 == 0
    ensures IsRoot(store, n) || exists m: nat ::
      && m < n && m % 3 == 0
      && store[n].callsIn == [CallRel(m, n)]
      && CallRel(m, n) in store[m].callsOut
  {
    assert InvocationShape(store, n);
    if !IsRoot(store, n) {
      var r := store[n].callsIn[0];
      assert r in store[n].callsIn;
      assert store[n].callsIn == [CallRel(r.from, n)];
    }
  }

  /** An invocation lists its callees in the order they were created, each
      callee once, and each of them names it as its only caller. */
  lemma CalleesInCreationOrder(store: seq<Measurement>, n: nat)
    requires StoreShape(store) && n < |store| && n % 3 == 0
    ensures Increasing(Targets(store[n].callsOut))
    ensures forall i :: 0 <= i < |store[n].callsOut| ==>
      var c := store[n].callsOut[i].to;
      n < c < |store| && store[c].callsIn == [CallRel(n, c)]
  {
    assert InvocationShape(store, n);
    var calls := store[n].callsOut;
    forall i | 0 <= i < |calls|
      ensures n < calls[i].to < |store| && store[calls[i].to].callsIn == [CallRel(n, calls[i].to)]
    {
      assert calls[i] in calls;
    }
  }
}
