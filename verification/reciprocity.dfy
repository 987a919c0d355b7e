/** Why the machine deciphers what it enciphers: with a self-inverse plugboard
    and a self-inverse reflector, one keypress is an involution of the input
    index, and the new machine state does not depend on the input. */
module Reciprocity {
  import opened Errors
  import opened Permutations
  import opened PermutationLaws
  import opened CycleStructure
  import opened Rotors
  import opened Machines

  /** Forward stages `i - 1` down to 0 and back up through backward stages 1
      to `i - 1`, written as nested conversions: forward through the outermost
      stage, the nested path inside it, backward through the same stage. */
  function Nest(f: (nat, int) -> Result<int>, g: (nat, int) -> Result<int>, i: nat, c: int): Result<int>
    requires 1 <= i
    decreases i
  {
    var c1 :- f(i - 1, c);
    if i == 1 then Ok(c1)
    else
      var c2 :- Nest(f, g, i - 1, c1);
      g(i - 1, c2)
  }

  /** The electrical path through the slots below `i` of a machine. */
  function Reflect(m: Machine, i: nat, c: int): Result<int>
    requires 1 <= i
  {
    Nest(Stage(m, true), Stage(m, false), i, c)
  }

  /** The upward pass over `[lo, hi + 1)` is the pass over `[lo, hi)` followed by stage `hi`. */
  lemma {:induction false} UpSnoc(g: (nat, int) -> Result<int>, lo: nat, hi: nat, c: int)
    requires lo <= hi
    ensures Up(g, lo, hi + 1, c) == (var c' :- Up(g, lo, hi, c); g(hi, c'))
    decreases hi - lo
  {
    if lo < hi {
      match g(lo, c)
      case Err(_) =>
      case Ok(c1) => UpSnoc(g, lo + 1, hi, c1);
    }
  }

  /** The two loops of `convert(int)`, down through the forward stages and up
      through the backward stages from 1, run the same conversions in the same
      order as the nested path, so they fail where it fails and otherwise agree
      with it. */
  lemma {:induction false} PassesAreNest(f: (nat, int) -> Result<int>, g: (nat, int) -> Result<int>, i: nat, c: int)
    requires 1 <= i
    ensures (var c' :- Down(f, i, c); Up(g, 1, i, c')) == Nest(f, g, i, c)
    decreases i
  {
    match f(i - 1, c)
    case Err(_) =>
    case Ok(c1) =>
      if i > 1 {
        PassesAreNest(f, g, i - 1, c1);
        match Down(f, i - 1, c1)
        case Err(_) =>
        case Ok(c2) => UpSnoc(g, 1, i - 1, c2);
      }
  }

  /** The configuration under which a keypress is its own inverse: a plugboard
      of disjoint, self-inverse cycles, every slot bound to a rotor with a
      well-formed permutation of the plugboard's size, and a self-inverse
      permutation in slot 0. */
  ghost predicate Reciprocal(m: Machine) {
    Linked(m) && |m.slots| >= 1 && m.plug.Some? &&
    WellFormed(m.plug.value) && Involutive(m.plug.value) &&
    (forall i :: 0 <= i < |m.slots| ==> m.slots[i].Some?) &&
    (forall i :: 0 <= i < |m.slots| && m.slots[i].Some? && m.slots[i].value < |m.catalog| ==>
       WellFormed(m.catalog[m.slots[i].value].perm) &&
       m.catalog[m.slots[i].value].Size() == m.plug.value.Size()) &&
    (m.slots[0].Some? && m.slots[0].value < |m.catalog| ==> Involutive(m.catalog[m.slots[0].value].perm))
  }

  /** Stepping changes only settings, so it keeps the configuration reciprocal. */
  lemma ReciprocalKept(m: Machine, m': Machine)
    requires Reciprocal(m) && SameButSettings(m, m')
    ensures Reciprocal(m')
  {
    assert forall k :: 0 <= k < |m.catalog| ==> m'.catalog[k].perm == m.catalog[k].perm;
  }

  /** Slots `0` to `i - 1` are bound to rotors with well-formed permutations of
      size `n`, and slot 0's permutation is self-inverse. */
  ghost predicate PathFits(m: Machine, i: nat, n: nat)
    decreases i
  {
    i == 0 ||
    (Linked(m) && i <= |m.slots| && m.slots[i - 1].Some? &&
     WellFormed(m.catalog[m.slots[i - 1].value].perm) && m.catalog[m.slots[i - 1].value].Size() == n &&
     (i == 1 ==> Involutive(m.catalog[m.slots[0].value].perm)) &&
     PathFits(m, i - 1, n))
  }

  /** A reciprocal machine fits the path through all of its slots. */
  lemma {:induction false} ReciprocalFits(m: Machine, i: nat)
    requires Reciprocal(m) && i <= |m.slots|
    ensures PathFits(m, i, m.plug.value.Size())
  {
    if i > 0 {
      ReciprocalFits(m, i - 1);
    }
  }

  /** Slot `i - 1` of a fitting path converts an in-range index forward and back again. */
  lemma SlotRoundTrip(m: Machine, i: nat, n: nat, c: nat) returns (rot: Rotor, c1: nat)
    requires 1 <= i && PathFits(m, i, n) && c < n
    ensures SlotRotor(m, i - 1) == Ok(rot) && rot.Size() == n
    ensures ConvertForward(rot, c) == Ok(c1) && c1 < n
    ensures ConvertBackward(rot, c1) == Ok(c)
    ensures i == 1 ==> ConvertForward(rot, c1) == Ok(c)
  {
    rot := SlotRotor(m, i - 1).value;
    BackwardAfterForward(rot, c);
    c1 := ConvertForward(rot, c).value;
    WrapInRange(c, n);
    if i == 1 {
      ForwardInvolution(rot, c);
    }
  }

  /** Slot `i - 1` of a fitting path converts an in-range index backward and forward again. */
  lemma SlotReturnTrip(m: Machine, i: nat, n: nat, c: nat) returns (rot: Rotor, d: nat)
    requires 1 <= i && PathFits(m, i, n) && c < n
    ensures SlotRotor(m, i - 1) == Ok(rot)
    ensures ConvertBackward(rot, c) == Ok(d) && ConvertForward(rot, d) == Ok(c) && d < n
  {
    rot := SlotRotor(m, i - 1).value;
    ForwardAfterBackward(rot, c);
    d := ConvertBackward(rot, c).value;
    WrapInRange(c, n);
  }

  /** The stages of a bound slot are its rotor's conversions (stated at two signals). */
  lemma StageOf(m: Machine, j: nat, rot: Rotor, c: int, d: int)
    requires Linked(m) && j < |m.slots| && SlotRotor(m, j) == Ok(rot)
    ensures Stage(m, true)(j, c) == ConvertForward(rot, c) && Stage(m, true)(j, d) == ConvertForward(rot, d)
    ensures Stage(m, false)(j, c) == ConvertBackward(rot, c) && Stage(m, false)(j, d) == ConvertBackward(rot, d)
  {
  }

  /** `SlotRoundTrip` stated for the stages of the slot. */
  lemma StageRoundTrip(m: Machine, i: nat, n: nat, c: nat) returns (c1: nat)
    requires 1 <= i && PathFits(m, i, n) && c < n
    ensures Stage(m, true)(i - 1, c) == Ok(c1) && c1 < n
    ensures Stage(m, false)(i - 1, c1) == Ok(c)
    ensures i == 1 ==> Stage(m, true)(i - 1, c1) == Ok(c)
  {
    var rot;
    rot, c1 := SlotRoundTrip(m, i, n, c);
    StageOf(m, i - 1, rot, c, c1);
  }

  /** `SlotReturnTrip` stated for the stages of the slot. */
  lemma StageReturnTrip(m: Machine, i: nat, n: nat, c: nat) returns (d: nat)
    requires 1 <= i && PathFits(m, i, n) && c < n
    ensures Stage(m, false)(i - 1, c) == Ok(d) && Stage(m, true)(i - 1, d) == Ok(c) && d < n
  {
    var rot;
    rot, d := SlotReturnTrip(m, i, n, c);
    StageOf(m, i - 1, rot, c, d);
  }

  /** The innermost level of the nested path is an involution when stage 0 is. */
  lemma NestBase(f: (nat, int) -> Result<int>, g: (nat, int) -> Result<int>, c: int, c1: int)
    requires f(0, c) == Ok(c1) && f(0, c1) == Ok(c)
    ensures Nest(f, g, 1, c) == Ok(c1) && Nest(f, g, 1, c1) == Ok(c)
  {
  }

  /** One outer level keeps the nested path an involution: forward through
      the stage, the involution inside, backward through the same stage. */
  lemma NestLevel(f: (nat, int) -> Result<int>, g: (nat, int) -> Result<int>, i: nat, c: int, c1: int, c2: int, d: int)
    requires 1 < i
    requires f(i - 1, c) == Ok(c1) && g(i - 1, c1) == Ok(c)
    requires Nest(f, g, i - 1, c1) == Ok(c2) && Nest(f, g, i - 1, c2) == Ok(c1)
    requires g(i - 1, c2) == Ok(d) && f(i - 1, d) == Ok(c2)
    ensures Nest(f, g, i, c) == Ok(d) && Nest(f, g, i, d) == Ok(c)
  {
  }

  /** Along a fitting path the path is total, stays in range, and is its own
      inverse on every in-range index. */
  lemma {:induction false} ReflectInvolution(m: Machine, i: nat, n: nat, c: nat) returns (d: nat)
    requires 1 <= i && PathFits(m, i, n) && c < n
    ensures Linked(m) && i <= |m.slots|
    ensures Reflect(m, i, c) == Ok(d) && d < n
    ensures Reflect(m, i, d) == Ok(c)
    decreases i
  {
    var c1 := StageRoundTrip(m, i, n, c);
    if i == 1 {
      d := c1;
      NestBase(Stage(m, true), Stage(m, false), c, c1);
    } else {
      var c2 := ReflectInvolution(m, i - 1, n, c1);
      d := StageReturnTrip(m, i, n, c2);
      NestLevel(Stage(m, true), Stage(m, false), i, c, c1, c2, d);
    }
  }

  /** The keypress once the plugboard and the stepping are done: the path
      through every slot, then the plugboard again. */
  lemma ConvertIsPath(m: Machine, c: int) returns (c1: nat, m': Machine)
    requires Linked(m) && m.plug.Some? && Permute(m.plug.value, c).Ok? && Step(m).Ok?
    ensures c1 == Permute(m.plug.value, c).value && Step(m) == Ok(m') && Linked(m') && |m'.slots| == |m.slots|
    ensures |m.slots| >= 1 ==>
      Convert(m, c) ==
        (match Reflect(m', |m'.slots|, c1)
         case Err(e) => Err(e)
         case Ok(c3) =>
           match Permute(m.plug.value, c3)
           case Err(e) => Err(e)
           case Ok(c4) => Ok((c4, m')))
  {
    c1 := Permute(m.plug.value, c).value;
    m' := Step(m).value;
    if |m.slots| >= 1 {
      PassesAreNest(Stage(m', true), Stage(m', false), |m'.slots|, c1);
    }
  }

  /** Reciprocity of one keypress: from the same machine state, converting the
      output index gives back the input index, and both keypresses leave the
      machine in the same new state. */
  lemma ConvertReciprocal(m: Machine, c: nat)
    requires Reciprocal(m) && c < m.plug.value.Size() && Step(m).Ok?
    ensures Convert(m, c).Ok?
    ensures Convert(m, Convert(m, c).value.0) == Ok((c, Convert(m, c).value.1))
  {
    var plug := m.plug.value;
    var n := plug.Size();
    var c1, m' := ConvertIsPath(m, c);
    ReciprocalKept(m, m');
    ReciprocalFits(m', |m'.slots|);
    var c3 := ReflectInvolution(m', |m'.slots|, n, c1);
    var d := Permute(plug, c3).value;
    WrapInRange(c3, n);
    assert Twice(plug, c3) == Ok(c3);
    var e1, m'' := ConvertIsPath(m, d);
    assert Twice(plug, c) == Ok(c);
    WrapInRange(c, n);
  }

  /** `ConvertReciprocal` with its witnesses named: the output index is in
      range, and both keypresses leave the machine in the state one step of
      the rotors gives. */
  lemma ConvertPair(m: Machine, x: nat) returns (y: nat, m': Machine)
    requires Reciprocal(m) && x < m.plug.value.Size() && Step(m).Ok?
    ensures Step(m) == Ok(m') && y < m.plug.value.Size()
    ensures Convert(m, x) == Ok((y, m')) && Convert(m, y) == Ok((x, m'))
  {
    ConvertReciprocal(m, x);
    var c1;
    c1, m' := ConvertIsPath(m, x);
    y := Convert(m, x).value.0;
  }
}
