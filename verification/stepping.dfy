/** The stepping rule of one keypress, stated slot by slot and proved against
    the loop of `convert(int)`, for slots bound to distinct rotors. */
module Stepping {
  import opened Errors
  import opened Rotors
  import opened Machines
  import opened SetupLaws

  /** Every slot is bound. */
  ghost predicate AllBound(m: Machine) {
    AllSome(m.slots)
  }

  /** Every entry of `slots` is bound. */
  ghost predicate AllSome(slots: seq<Option<nat>>) {
    forall i :: 0 <= i < |slots| ==> slots[i].Some?
  }

  /** Every bound rotor has a non-empty alphabet and a setting inside it, so
      that neither `atNotch` nor `advance` can fail. */
  ghost predicate Steady(m: Machine) {
    SteadyIn(m.slots, m.catalog)
  }

  /** Every rotor of `catalog` that a slot of `slots` binds has a non-empty
      alphabet and a setting inside it. */
  ghost predicate SteadyIn(slots: seq<Option<nat>>, catalog: seq<Rotor>) {
    forall i :: 0 <= i < |slots| && slots[i].Some? && slots[i].value < |catalog| ==>
      catalog[slots[i].value].Size() > 0 &&
      catalog[slots[i].value].setting < catalog[slots[i].value].Size()
  }

  /** The configuration in which the stepping of a keypress cannot fail:
      every slot bound, every bound rotor steady, at least one slot, and the
      loop's first slot `numRotors - pawls` inside the array. Two slots may
      share a rotor. */
  ghost predicate Runnable(m: Machine) {
    Linked(m) && AllBound(m) && Steady(m) && |m.slots| >= 1 && m.pawls <= |m.slots|
  }

  /** The configuration the slot-by-slot rule below is stated for: a runnable
      machine whose slots are bound to distinct rotors. */
  ghost predicate Stepable(m: Machine) {
    Linked(m) && SlotsDistinct(m) && AllBound(m) && Steady(m) && |m.slots| >= 1 && m.pawls <= |m.slots|
  }

  /** Advancing a steady catalog rotor cannot fail, moves it one step, and
      keeps every bound rotor steady, whether or not other slots share it. */
  lemma AdvanceAtSteady(m: Machine, k: nat) returns (m': Machine)
    requires Linked(m) && Steady(m) && k < |m.catalog|
    requires m.catalog[k].Size() > 0 && m.catalog[k].setting < m.catalog[k].Size()
    ensures AdvanceAt(m, k) == Ok(m') && SameButSettings(m, m') && Steady(m')
    ensures m'.catalog == m.catalog[k := Stepped(m.catalog[k])]
  {
    AdvanceIsStepped(m.catalog[k]);
    m' := m.(catalog := m.catalog[k := Stepped(m.catalog[k])]);
  }

  /** The stepping loop from any slot in the array on cannot fail on a runnable
      machine, and leaves it runnable. */
  lemma {:induction false} StepFromRunnable(m: Machine, i: nat) returns (m': Machine)
    requires Runnable(m)
    ensures StepFrom(m, i) == Ok(m') && SameButSettings(m, m') && Runnable(m')
    decreases |m.slots| - i
  {
    if i >= |m.slots| - 1 {
      m' := m;
    } else {
      var k := m.slots[i].value;
      var r := m.catalog[k];
      if !Rotates(r) {
        m' := StepFromRunnable(m, i + 1);
      } else {
        var right := m.catalog[m.slots[i + 1].value];
        assert SlotRotor(m, i + 1) == Ok(right);
        assert AtNotch(right).Ok? && AtNotch(r).Ok?;
        if AtNotch(right) == Ok(true) || AtNotch(r) == Ok(true) {
          var m1 := AdvanceAtSteady(m, k);
          m' := StepFromRunnable(m1, i + 1);
        } else {
          m' := StepFromRunnable(m, i + 1);
        }
      }
    }
  }

  /** The stepping of a keypress cannot fail on a runnable machine, changes
      only settings, and leaves the machine runnable, so every keypress of a
      message can step, whether or not two slots share a rotor. */
  lemma StepKeepsRunnable(m: Machine) returns (m': Machine)
    requires Runnable(m)
    ensures Step(m) == Ok(m') && SameButSettings(m, m') && Runnable(m')
  {
    var m1 := StepFromRunnable(m, |m.slots| - m.pawls);
    m' := AdvanceLastRunnable(m1);
    StepOfParts(m, m1);
    SameButSettingsTrans(m, m1, m');
  }

  /** Advancing the rightmost slot of a runnable machine cannot fail and leaves
      it runnable. */
  lemma AdvanceLastRunnable(m: Machine) returns (m': Machine)
    requires Runnable(m)
    ensures AdvanceLast(m) == Ok(m') && SameButSettings(m, m') && Runnable(m')
  {
    var k := m.slots[|m.slots| - 1].value;
    assert m.catalog[k].Size() > 0 && m.catalog[k].setting < m.catalog[k].Size();
    m' := AdvanceAtSteady(m, k);
  }

  /** A keypress's stepping is the loop followed by the advance of the rightmost slot. */
  lemma StepOfParts(m: Machine, m1: Machine)
    requires Linked(m) && StepFrom(m, |m.slots| - m.pawls) == Ok(m1)
    ensures Linked(m1) && Step(m) == AdvanceLast(m1)
  {
  }

  /** The rotor in slot `i` of a machine whose slots are all bound. */
  function At(m: Machine, i: nat): Rotor
    requires Linked(m) && i < |m.slots| && m.slots[i].Some?
  {
    m.catalog[m.slots[i].value]
  }

  /** One step of a rotor, independently of `advance`: a moving rotor goes to
      the next setting, and from the last back to 0; the other kinds stay. */
  function Stepped(r: Rotor): Rotor {
    if !Rotates(r) then r
    else r.(setting := if r.setting + 1 == r.Size() then 0 else r.setting + 1)
  }

  /** The rule as coded: the rightmost slot always advances; a slot from
      `numRotors - pawls` up to the one before the rightmost advances when its
      rotor is moving and either its right neighbour or itself is at a notch,
      judged on the settings before the keypress. No other slot advances. */
  ghost predicate Advances(m: Machine, i: nat)
    requires Stepable(m) && i < |m.slots|
  {
    i == |m.slots| - 1 ||
    (|m.slots| - m.pawls <= i && Rotates(At(m, i)) &&
     (AtNotch(At(m, i + 1)) == Ok(true) || AtNotch(At(m, i)) == Ok(true)))
  }

  /** No slot in `[lo, hi)` is bound to rotor `k`. */
  ghost predicate UnboundIn(slots: seq<Option<nat>>, lo: int, hi: int, k: nat) {
    forall j :: lo <= j < hi && 0 <= j < |slots| ==> slots[j] != Some(k)
  }

  /** `advance` on a rotor that cannot fail is one step. */
  lemma AdvanceIsStepped(r: Rotor)
    requires r.Size() > 0 && r.setting < r.Size()
    ensures Advance(r) == Ok(Stepped(r))
  {
    if Rotates(r) {
      AdvanceSteps(r);
    }
  }

  /** The rotors of slots `i` and up still hold their pre-keypress state. */
  ghost predicate Untouched(m0: Machine, m: Machine, i: nat)
    requires Stepable(m0) && |m.catalog| == |m0.catalog|
  {
    forall j :: i <= j < |m0.slots| ==> m.catalog[m0.slots[j].value] == At(m0, j)
  }

  /** The rotors of slots `i` up to the one before the rightmost have moved as the rule says. */
  ghost predicate MovedByRule(m0: Machine, m': Machine, i: nat)
    requires Stepable(m0) && |m'.catalog| == |m0.catalog|
  {
    forall j :: i <= j < |m0.slots| - 1 ==>
      m'.catalog[m0.slots[j].value] == if Advances(m0, j) then Stepped(At(m0, j)) else At(m0, j)
  }

  /** Every rotor in no slot from `lo` to the one before the rightmost is the same in `m` and `m'`. */
  ghost predicate KeptOutside(m0: Machine, m: Machine, m': Machine, lo: nat)
    requires |m.catalog| == |m0.catalog| && |m'.catalog| == |m0.catalog|
  {
    forall k :: 0 <= k < |m0.catalog| && UnboundIn(m0.slots, lo, |m0.slots| - 1, k) ==> m'.catalog[k] == m.catalog[k]
  }

  /** One iteration of the loop at slot `i` when the rotors from `i` on still
      hold their pre-keypress state: rotor `k` of slot `i` moves by `Stepped`
      exactly when the rule says so, and nothing else changes. */
  lemma StepOnce(m0: Machine, m: Machine, i: nat) returns (m1: Machine)
    requires Stepable(m0) && |m0.slots| - m0.pawls <= i < |m0.slots| - 1
    requires SameButSettings(m0, m) && Untouched(m0, m, i)
    ensures SameButSettings(m0, m1) && Linked(m) && Linked(m1)
    ensures m1.catalog == m.catalog[m0.slots[i].value := if Advances(m0, i) then Stepped(At(m0, i)) else At(m0, i)]
    ensures StepFrom(m, i) == StepFrom(m1, i + 1)
  {
    var k := m0.slots[i].value;
    var r := At(m0, i);
    var right := At(m0, i + 1);
    assert m.slots[i] == Some(k) && m.catalog[k] == r;
    assert SlotRotor(m, i + 1) == Ok(right);
    if Rotates(r) && Advances(m0, i) {
      m1 := m.(catalog := m.catalog[k := Stepped(r)]);
      assert AtNotch(right).Ok? && AtNotch(r).Ok?;
      AdvanceIsStepped(r);
      assert AdvanceAt(m, k) == Ok(m1);
    } else {
      m1 := m;
      assert m.catalog[k := r] == m.catalog;
      if Rotates(r) {
        assert AtNotch(right).Ok? && AtNotch(r).Ok?;
      }
    }
  }

  /** The loop from slot `i` on, from a state in which the rotors of slots `i`
      and up still hold their pre-keypress state: each of those slots but the
      rightmost moves by the rule, and every other rotor is left as it was. */
  lemma {:induction false} StepFromRule(m0: Machine, m: Machine, i: nat) returns (m': Machine)
    requires Stepable(m0) && |m0.slots| - m0.pawls <= i
    requires SameButSettings(m0, m) && Untouched(m0, m, i)
    ensures Linked(m) && StepFrom(m, i) == Ok(m') && SameButSettings(m0, m')
    ensures MovedByRule(m0, m', i) && KeptOutside(m0, m, m', i)
    decreases |m0.slots| - i
  {
    if i >= |m0.slots| - 1 {
      m' := m;
    } else {
      var m1, x := StepOnceKept(m0, m, i);
      m' := StepFromRule(m0, m1, i + 1);
      LoopStep(m0, m, m1, m', i, x);
    }
  }

  /** `StepOnce`, with the moved rotor named and the slots to the right still
      holding their pre-keypress rotors. */
  lemma StepOnceKept(m0: Machine, m: Machine, i: nat) returns (m1: Machine, x: Rotor)
    requires Stepable(m0) && |m0.slots| - m0.pawls <= i < |m0.slots| - 1
    requires SameButSettings(m0, m) && Untouched(m0, m, i)
    ensures SameButSettings(m0, m1) && Linked(m) && Linked(m1) && Untouched(m0, m1, i + 1)
    ensures x == if Advances(m0, i) then Stepped(At(m0, i)) else At(m0, i)
    ensures m1.catalog == m.catalog[m0.slots[i].value := x]
    ensures StepFrom(m, i) == StepFrom(m1, i + 1)
  {
    m1 := StepOnce(m0, m, i);
    x := m1.catalog[m0.slots[i].value];
    LaterSlotsKept(m0, m, m1, i, x);
  }

  /** Moving the rotor of slot `i` leaves the rotors of the slots to its right
      alone, since no two slots share a rotor. */
  lemma LaterSlotsKept(m0: Machine, m: Machine, m1: Machine, i: nat, x: Rotor)
    requires Stepable(m0) && i < |m0.slots| - 1
    requires SameButSettings(m0, m) && SameButSettings(m0, m1) && Untouched(m0, m, i)
    requires m1.catalog == m.catalog[m0.slots[i].value := x]
    ensures Untouched(m0, m1, i + 1)
  {
    forall j | i + 1 <= j < |m0.slots|
      ensures m1.catalog[m0.slots[j].value] == At(m0, j)
    {
      assert m0.slots[j] != m0.slots[i];
    }
  }

  /** The rule for slot `i`, applied by the iteration at `i`, and the rule for
      the slots to its right, applied by the rest of the loop, which leaves
      slot `i`'s rotor alone: together the rule from slot `i`. */
  lemma LoopStep(m0: Machine, m: Machine, m1: Machine, m': Machine, i: nat, x: Rotor)
    requires Stepable(m0) && i < |m0.slots| - 1
    requires |m.catalog| == |m0.catalog| && |m'.catalog| == |m0.catalog|
    requires x == if Advances(m0, i) then Stepped(At(m0, i)) else At(m0, i)
    requires m1.catalog == m.catalog[m0.slots[i].value := x]
    requires MovedByRule(m0, m', i + 1) && KeptOutside(m0, m1, m', i + 1)
    ensures MovedByRule(m0, m', i) && KeptOutside(m0, m, m', i)
  {
    var k := m0.slots[i].value;
    assert UnboundIn(m0.slots, i + 1, |m0.slots| - 1, k);
    forall kk | 0 <= kk < |m0.catalog| && UnboundIn(m0.slots, i, |m0.slots| - 1, kk)
      ensures m'.catalog[kk] == m.catalog[kk]
    {
      assert m0.slots[i] != Some(kk);
      assert UnboundIn(m0.slots, i + 1, |m0.slots| - 1, kk);
    }
  }

  /** After the keypress (`m'`), the rotor of every slot is the one before
      (`m`) moved by one step exactly when `Advances` says so. */
  ghost predicate FollowsRule(m: Machine, m': Machine)
    requires Stepable(m) && |m'.catalog| == |m.catalog|
  {
    forall j :: 0 <= j < |m.slots| ==>
      m'.catalog[m.slots[j].value] == if Advances(m, j) then Stepped(At(m, j)) else At(m, j)
  }

  /** The slots left of `numRotors - pawls`, other than the rightmost, keep their rotors' state. */
  ghost predicate LeftStill(m: Machine, m': Machine)
    requires Stepable(m) && |m'.catalog| == |m.catalog|
  {
    forall j :: 0 <= j < |m.slots| - 1 && j < |m.slots| - m.pawls ==> m'.catalog[m.slots[j].value] == At(m, j)
  }

  /** Rotors of the catalog that are in no slot keep their state. */
  ghost predicate UnslottedKept(m: Machine, m': Machine)
    requires |m'.catalog| == |m.catalog|
  {
    forall k :: 0 <= k < |m.catalog| && UnboundFrom(m.slots, 0, k) ==> m'.catalog[k] == m.catalog[k]
  }

  /** The exact stepping rule of a keypress (for slots bound to distinct
      rotors): the rotor of slot `i` moves by one step exactly when `Advances`
      says so, slots left of `numRotors - pawls` (other than the rightmost)
      never move, and rotors in no slot are left alone. */
  lemma StepRule(m: Machine) returns (m': Machine)
    requires Stepable(m)
    ensures Step(m) == Ok(m') && SameButSettings(m, m') &&
      FollowsRule(m, m') && LeftStill(m, m') && UnslottedKept(m, m')
  {
    var start := |m.slots| - m.pawls;
    var m1 := StepFromRule(m, m, start);
    LastUntouched(m, m1, start);
    m' := AdvanceLastRule(m, m1);
    StepOfParts(m, m1);
    RuleFromParts(m, m1, m', start);
    RuleKeepsLeft(m, m');
  }

  /** The loop leaves the rightmost slot's rotor alone. */
  lemma LastUntouched(m: Machine, m1: Machine, start: nat)
    requires Stepable(m) && |m1.catalog| == |m.catalog| && start == |m.slots| - m.pawls
    requires KeptOutside(m, m, m1, start)
    ensures m1.catalog[m.slots[|m.slots| - 1].value] == At(m, |m.slots| - 1)
  {
    assert UnboundIn(m.slots, start, |m.slots| - 1, m.slots[|m.slots| - 1].value);
  }

  /** Slots left of `numRotors - pawls` other than the rightmost never advance. */
  lemma RuleKeepsLeft(m: Machine, m': Machine)
    requires Stepable(m) && |m'.catalog| == |m.catalog| && FollowsRule(m, m')
    ensures LeftStill(m, m')
  {
    forall j | 0 <= j < |m.slots| - 1 && j < |m.slots| - m.pawls
      ensures m'.catalog[m.slots[j].value] == At(m, j)
    {
      assert !Advances(m, j);
    }
  }

  /** The loop's effect on the slots from `numRotors - pawls` and the final
      advance of the rightmost slot combine into the rule at every slot. */
  lemma RuleFromParts(m: Machine, m1: Machine, m': Machine, start: nat)
    requires Stepable(m) && |m1.catalog| == |m.catalog| && |m'.catalog| == |m.catalog| && start == |m.slots| - m.pawls
    requires MovedByRule(m, m1, start) && KeptOutside(m, m, m1, start)
    requires m'.catalog == m1.catalog[m.slots[|m.slots| - 1].value := Stepped(At(m, |m.slots| - 1))]
    ensures FollowsRule(m, m') && UnslottedKept(m, m')
  {
    var n := |m.slots|;
    forall j | 0 <= j < n
      ensures m'.catalog[m.slots[j].value] == if Advances(m, j) then Stepped(At(m, j)) else At(m, j)
    {
      var k := m.slots[j].value;
      if j == n - 1 {
        assert Advances(m, j);
      } else {
        assert m.slots[j] != m.slots[n - 1];
        assert m'.catalog[k] == m1.catalog[k];
        if j < start {
          assert !Advances(m, j);
          assert UnboundIn(m.slots, start, n - 1, k);
        }
      }
    }
    forall k | 0 <= k < |m.catalog| && UnboundFrom(m.slots, 0, k)
      ensures m'.catalog[k] == m.catalog[k]
    {
      assert UnboundIn(m.slots, start, n - 1, k);
    }
  }

  /** The final advance of the rightmost slot, whose rotor the loop left alone. */
  lemma AdvanceLastRule(m0: Machine, m: Machine) returns (m': Machine)
    requires Stepable(m0) && SameButSettings(m0, m)
    requires m.catalog[m0.slots[|m0.slots| - 1].value] == At(m0, |m0.slots| - 1)
    ensures Linked(m) && AdvanceLast(m) == Ok(m') && SameButSettings(m0, m')
    ensures m'.catalog == m.catalog[m0.slots[|m0.slots| - 1].value := Stepped(At(m0, |m0.slots| - 1))]
  {
    var last := m0.slots[|m0.slots| - 1].value;
    AdvanceIsStepped(At(m0, |m0.slots| - 1));
    m' := m.(catalog := m.catalog[last := Stepped(At(m0, |m0.slots| - 1))]);
  }
}
