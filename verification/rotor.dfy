/** Rotors: a permutation together with a rotational setting.

    Only the moving kind is defined in the engine's own files (`MovingRotor`);
    the base class `Rotor` and the kinds `FixedRotor` and `Reflector` are not
    part of this model. Their behaviour enters only through these stated
    assumptions:
    - `set(posn)` stores `posn` as the setting without checking it;
    - a fixed rotor or reflector does not rotate, is never at a notch, and
      `advance()` leaves it as it is;
    - every rotor converts forward as `wrap(permute(wrap(p + setting)) - setting)`
      and backward the same way with `invert` in place of `permute`.
 */
module Rotors {
  import opened Errors
  import opened Text
  import opened Alphabets
  import opened Permutations
  import opened PermutationLaws
  import opened CycleStructure

  /** The three rotor classes; only a moving rotor carries notches. */
  datatype RotorKind = Reflector | Fixed | Moving(notches: string)

  datatype Rotor = Rotor(name: string, perm: Permutation, kind: RotorKind, setting: nat) {
    /** The size of the rotor's alphabet. */
    function Size(): nat {
      perm.Size()
    }
  }

  /** `new MovingRotor(name, perm, notches)`: a moving rotor in its 0 setting. */
  function NewMoving(name: string, perm: Permutation, notches: string): (r: Rotor)
    ensures r.name == name && r.perm == perm && r.kind.Moving? && r.kind.notches == notches
    ensures r.setting == 0
    ensures Rotates(r)
  {
    Rotor(name, perm, Moving(notches), 0)
  }

  /** `rotates()`: true exactly for the moving kind. */
  predicate Rotates(r: Rotor) {
    r.kind.Moving?
  }

  /** `set(posn)`: the setting becomes `posn`, unchecked (an assumption about `Rotor`). */
  function Set(r: Rotor, posn: nat): Rotor {
    r.(setting := posn)
  }

  /** `atNotch()`: a moving rotor is at a notch when the character at its
      setting occurs in its notch string; `toChar` fails for a setting at or
      beyond the alphabet size. The other kinds are never at a notch. */
  function AtNotch(r: Rotor): (res: Result<bool>)
    ensures !Rotates(r) ==> res == Ok(false)
    ensures Rotates(r) ==> (res.Ok? <==> r.setting < r.Size())
    ensures res.Err? ==> res.error == IndexOutOfRange
    ensures Rotates(r) && res.Ok? ==> (res.value <==> r.perm.alphabet.chars[r.setting] in r.kind.notches)
    ensures r.kind == Moving([]) ==> res != Ok(true)
  {
    match r.kind
    case Moving(notches) =>
      var c :- ToChar(r.perm.alphabet, r.setting);
      Ok(IndexOf(notches, c) >= 0)
    case _ => Ok(false)
  }

  /** `advance()`: a moving rotor's setting becomes `(setting + 1) % size()`,
      which fails on an empty alphabet; the other kinds do not move. Nothing
      but the setting changes. */
  function Advance(r: Rotor): (res: Result<Rotor>)
    ensures !Rotates(r) ==> res == Ok(r)
    ensures Rotates(r) ==> (res.Err? <==> r.Size() == 0)
    ensures res.Err? ==> res.error == DivisionByZero
    ensures res.Ok? ==> res.value.name == r.name && res.value.perm == r.perm && res.value.kind == r.kind
    ensures Rotates(r) && res.Ok? ==> res.value.setting < r.Size()
  {
    if !Rotates(r) then Ok(r)
    else if r.Size() == 0 then Err(DivisionByZero)
    else Ok(r.(setting := (r.setting + 1) % r.Size()))
  }

  /** An in-range moving rotor steps to the next setting, and from the last one back to 0. */
  lemma AdvanceSteps(r: Rotor)
    requires Rotates(r) && r.setting < r.Size()
    ensures Advance(r).Ok?
    ensures Advance(r).value.setting == if r.setting + 1 == r.Size() then 0 else r.setting + 1
  {
    IncMod(r.setting, r.Size());
  }

  /** One step modulo `n`: the last residue wraps to 0, every other one moves up by one. */
  lemma IncMod(s: nat, n: nat)
    requires s < n
    ensures (s + 1) % n == if s + 1 == n then 0 else s + 1
  {
    if s + 1 == n {
      DivModUnique(s + 1, n, 1, 0);
    } else {
      DivModUnique(s + 1, n, 0, s + 1);
    }
  }

  /** `advance()` applied `k` times, stopping at the first failure. */
  function AdvanceN(r: Rotor, k: nat): Result<Rotor>
    decreases k
  {
    if k == 0 then Ok(r)
    else
      var r1 :- Advance(r);
      AdvanceN(r1, k - 1)
  }

  /** `k` advances of an in-range moving rotor add `k` to its setting modulo the size. */
  lemma {:induction false} AdvanceNSetting(r: Rotor, k: nat)
    requires Rotates(r) && r.setting < r.Size()
    ensures AdvanceN(r, k) == Ok(r.(setting := (r.setting + k) % r.Size()))
    decreases k
  {
    var n := r.Size();
    if k == 0 {
      DivModUnique(r.setting, n, 0, r.setting);
    } else {
      var r1 := Advance(r).value;
      AdvanceNSetting(r1, k - 1);
      assert r1.setting == (r.setting + 1) % n;
      ModOfSum(r.setting + 1, k - 1, n);
    }
  }

  /** Advancing a moving rotor `size()` times brings it back to where it started. */
  lemma AdvanceFullTurn(r: Rotor)
    requires Rotates(r) && r.setting < r.Size()
    ensures AdvanceN(r, r.Size()) == Ok(r)
  {
    AdvanceNSetting(r, r.Size());
    FullTurn(r.setting, r.Size());
  }

  /** Adding the modulus to a residue leaves it alone. */
  lemma FullTurn(s: nat, n: nat)
    requires s < n
    ensures (s + n) % n == s
  {
    DivModUnique(s + n, n, 1, s);
  }

  /** A freshly built moving rotor is at a notch exactly when the first
      alphabet character is one of its notches. */
  lemma NewMovingAtNotch(name: string, perm: Permutation, notches: string)
    requires perm.Size() > 0
    ensures AtNotch(NewMoving(name, perm, notches)) == Ok(perm.alphabet.chars[0] in notches)
  {
  }

  /** `convertForward(p)`: shift in by the setting, permute, shift back out. */
  function ConvertForward(r: Rotor, p: int): (res: Result<nat>)
    ensures r.Size() == 0 <==> res == Err(DivisionByZero)
    ensures res.Err? ==> res.error == DivisionByZero || res.error == NotInAlphabet
    ensures res.Ok? ==> res.value < r.Size()
    ensures r.Size() > 0 && CycleCharsIn(r.perm) ==> res.Ok?
  {
    var n := r.Size();
    if n == 0 then Err(DivisionByZero)
    else
      var q :- Permute(r.perm, Wrap(p + r.setting, n));
      Ok(Wrap(q - r.setting, n))
  }

  /** `convertBackward(p)`: as `ConvertForward`, with `invert` in place of `permute`. */
  function ConvertBackward(r: Rotor, p: int): (res: Result<nat>)
    ensures r.Size() == 0 <==> res == Err(DivisionByZero)
    ensures res.Err? ==> res.error == DivisionByZero || res.error == NotInAlphabet
    ensures res.Ok? ==> res.value < r.Size()
    ensures r.Size() > 0 && CycleCharsIn(r.perm) ==> res.Ok?
  {
    var n := r.Size();
    if n == 0 then Err(DivisionByZero)
    else
      var q :- Invert(r.perm, Wrap(p + r.setting, n));
      Ok(Wrap(q - r.setting, n))
  }

  /** In its 0 setting a rotor converts forward exactly as its permutation does. */
  lemma ForwardAtZero(r: Rotor, p: int)
    requires WellFormed(r.perm) && r.setting == 0
    ensures ConvertForward(r, p) == Permute(r.perm, p)
  {
    var n := r.Size();
    var q := Permute(r.perm, p).value;
    WrapInRange(q, n);
    WrapOfSum(p, 0, n);
    assert Permute(r.perm, Wrap(p, n)) == Permute(r.perm, p) by {
      WrapInRange(Wrap(p, n), n);
    }
  }

  /** Shifting out by `s` and back in by `s` returns an in-range index. */
  lemma ShiftOutIn(q: int, s: int, n: int, f: int)
    requires 0 <= q < n && f == Wrap(q - s, n)
    ensures Wrap(f + s, n) == q
  {
    WrapOfSum(q - s, s, n);
    WrapInRange(q, n);
  }

  /** Shifting in by `s` and out by `s` amounts to wrapping. */
  lemma ShiftInOut(p: int, s: int, n: int)
    requires n > 0
    ensures Wrap(Wrap(p + s, n) - s, n) == Wrap(p, n)
  {
    WrapOfSum(p + s, -s, n);
  }

  /** `convertForward` once the permutation's answer is known. */
  lemma ForwardIs(r: Rotor, p: int, w: nat, q: nat)
    requires r.Size() > 0 && w == Wrap(p + r.setting, r.Size()) && Permute(r.perm, w) == Ok(q)
    ensures ConvertForward(r, p) == Ok(Wrap(q - r.setting, r.Size()))
  {
  }

  /** `convertBackward` once the permutation's answer is known. */
  lemma BackwardIs(r: Rotor, p: int, w: nat, q: nat)
    requires r.Size() > 0 && w == Wrap(p + r.setting, r.Size()) && Invert(r.perm, w) == Ok(q)
    ensures ConvertBackward(r, p) == Ok(Wrap(q - r.setting, r.Size()))
  {
  }

  /** The stages of a forward conversion: the shifted-in index `a`, the
      permuted index `q`, and the result `f`, which shifts back in to `q`. */
  lemma ForwardStages(r: Rotor, p: int) returns (a: nat, q: nat, f: nat)
    requires r.Size() > 0 && CycleCharsIn(r.perm) && Unpadded(r.perm.alphabet.chars)
    ensures a < r.Size() && a == Wrap(p + r.setting, r.Size())
    ensures Permute(r.perm, a) == Ok(q)
    ensures ConvertForward(r, p) == Ok(f) && Wrap(f + r.setting, r.Size()) == q
  {
    var n, s := r.Size(), r.setting;
    a := Wrap(p + s, n);
    q := Permute(r.perm, a).value;
    f := Wrap(q - s, n);
    ForwardIs(r, p, a, q);
    ShiftOutIn(q, s, n, f);
  }

  /** The stages of a backward conversion, as in `ForwardStages`. */
  lemma BackwardStages(r: Rotor, p: int) returns (a: nat, q: nat, f: nat)
    requires r.Size() > 0 && CycleCharsIn(r.perm) && Unpadded(r.perm.alphabet.chars)
    ensures a < r.Size() && a == Wrap(p + r.setting, r.Size())
    ensures Invert(r.perm, a) == Ok(q)
    ensures ConvertBackward(r, p) == Ok(f) && Wrap(f + r.setting, r.Size()) == q
  {
    var n, s := r.Size(), r.setting;
    a := Wrap(p + s, n);
    q := Invert(r.perm, a).value;
    f := Wrap(q - s, n);
    BackwardIs(r, p, a, q);
    ShiftOutIn(q, s, n, f);
  }

  /** A forward conversion of `f` whose permutation step lands on `p`'s shifted index yields `p`, wrapped. */
  lemma ForwardLands(r: Rotor, p: int, f: int, q: nat, a: nat)
    requires r.Size() > 0 && a == Wrap(p + r.setting, r.Size())
    requires Wrap(f + r.setting, r.Size()) == q && Permute(r.perm, q) == Ok(a)
    ensures ConvertForward(r, f) == Ok(Wrap(p, r.Size()))
  {
    ForwardIs(r, f, q, a);
    ShiftInOut(p, r.setting, r.Size());
  }

  /** A backward conversion of `f` whose inversion step lands on `p`'s shifted index yields `p`, wrapped. */
  lemma BackwardLands(r: Rotor, p: int, f: int, q: nat, a: nat)
    requires r.Size() > 0 && a == Wrap(p + r.setting, r.Size())
    requires Wrap(f + r.setting, r.Size()) == q && Invert(r.perm, q) == Ok(a)
    ensures ConvertBackward(r, f) == Ok(Wrap(p, r.Size()))
  {
    BackwardIs(r, f, q, a);
    ShiftInOut(p, r.setting, r.Size());
  }

  /** For a well-formed permutation, backward conversion undoes forward conversion. */
  lemma BackwardAfterForward(r: Rotor, p: int)
    requires WellFormed(r.perm)
    ensures ConvertForward(r, p).Ok?
    ensures ConvertBackward(r, ConvertForward(r, p).value) == Ok(Wrap(p, r.Size()))
  {
    var a, q, f := ForwardStages(r, p);
    InvertUndoesPermute(r.perm, a, q);
    BackwardLands(r, p, f, q, a);
  }

  /** For a well-formed permutation, forward conversion undoes backward conversion. */
  lemma ForwardAfterBackward(r: Rotor, p: int)
    requires WellFormed(r.perm)
    ensures ConvertBackward(r, p).Ok?
    ensures ConvertForward(r, ConvertBackward(r, p).value) == Ok(Wrap(p, r.Size()))
  {
    var a, q, f := BackwardStages(r, p);
    PermuteUndoesInvert(r.perm, a, q);
    ForwardLands(r, p, f, q, a);
  }

  /** When the permutation is its own inverse (a reflector's swapped pairs),
      forward conversion is its own inverse at every setting. */
  lemma ForwardInvolution(r: Rotor, p: int)
    requires WellFormed(r.perm) && Involutive(r.perm)
    ensures ConvertForward(r, p).Ok?
    ensures ConvertForward(r, ConvertForward(r, p).value) == Ok(Wrap(p, r.Size()))
  {
    var a, q, f := ForwardStages(r, p);
    assert Twice(r.perm, a) == Ok(a);
    ForwardLands(r, p, f, q, a);
  }
}
