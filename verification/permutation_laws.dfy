/** What the cycle notation promises: each member goes to its successor under
    `Permute` and to its predecessor under `Invert`, characters outside every
    cycle stay put, and for disjoint cycles the two directions undo each other. */
module PermutationLaws {
  import opened Errors
  import opened Text
  import opened Alphabets
  import opened Permutations

  /** Wrapping an index that is already in range leaves it alone. */
  lemma WrapInRange(x: int, n: int)
    requires 0 <= x < n
    ensures Wrap(x, n) == x
  {
    WrapIsMod(x, n);
    DivModUnique(x, n, 0, x);
  }

  /** Wrapping a summand first does not change the wrapped sum. */
  lemma WrapOfSum(a: int, b: int, n: int)
    requires n > 0
    ensures Wrap(Wrap(a, n) + b, n) == Wrap(a + b, n)
  {
    WrapIsMod(a, n);
    WrapIsMod(Wrap(a, n) + b, n);
    WrapIsMod(a + b, n);
    ModOfSum(a, b, n);
  }

  /** The successor within a cycle is the member one place on, counted modulo the cycle length. */
  lemma NextIsModular(cycle: string, j: nat)
    requires j < |cycle|
    ensures Next(cycle, j) == cycle[(j + 1) % |cycle|]
  {
    if j + 1 == |cycle| {
      DivModUnique(j + 1, |cycle|, 1, 0);
    } else {
      DivModUnique(j + 1, |cycle|, 0, j + 1);
    }
  }

  /** The predecessor within a cycle is the member one place back, counted modulo the cycle length. */
  lemma PrevIsModular(cycle: string, j: nat)
    requires j < |cycle|
    ensures Prev(cycle, j) == cycle[(j + |cycle| - 1) % |cycle|]
  {
    if j == 0 {
      DivModUnique(|cycle| - 1, |cycle|, 0, |cycle| - 1);
    } else {
      DivModUnique(j + |cycle| - 1, |cycle|, 1, j - 1);
    }
  }

  /** In disjoint cycles a member is found exactly where it is written. */
  lemma LocateMember(cycles: seq<string>, k: int, j: int)
    requires Disjoint(cycles) && 0 <= k < |cycles| && 0 <= j < |cycles[k]|
    ensures Locate(cycles, cycles[k][j]) == Some(Position(k, j))
  {
    var r := Locate(cycles, cycles[k][j]);
    assert cycles[k][j] in cycles[k];
  }

  /** The index of a character of a valid alphabet is its position. */
  lemma ToIntAt(a: Alphabet, i: int)
    requires Valid(a) && 0 <= i < |a.chars|
    ensures ToInt(a, a.chars[i]) == Ok(i)
  {
    IndexOfDistinct(a.chars, i);
  }

  /** Unfolding `permute` at an in-range index whose character was located. */
  lemma PermuteAt(p: Permutation, i: int, pos: Position)
    requires 0 <= i < p.Size()
    requires Locate(p.cycles, p.alphabet.chars[i]) == Some(pos)
    ensures Permute(p, i) == ToInt(p.alphabet, Next(p.cycles[pos.cycle], pos.offset))
  {
    WrapInRange(i, p.Size());
  }

  /** Unfolding `invert` at an in-range index whose character was located. */
  lemma InvertAt(p: Permutation, i: int, pos: Position)
    requires 0 <= i < p.Size()
    requires Locate(p.cycles, p.alphabet.chars[i]) == Some(pos)
    ensures Invert(p, i) == ToInt(p.alphabet, Prev(p.cycles[pos.cycle], pos.offset))
  {
    WrapInRange(i, p.Size());
  }

  /** `permute` maps each cycle member to the member after it, and the last
      member of a cycle to its first. */
  lemma PermuteSuccessor(p: Permutation, k: int, j: int)
    requires WellFormed(p) && 0 <= k < |p.cycles| && 0 <= j < |p.cycles[k]|
    ensures j + 1 < |p.cycles[k]| ==>
      Permute(p, ToInt(p.alphabet, p.cycles[k][j]).value) == ToInt(p.alphabet, p.cycles[k][j + 1])
    ensures j + 1 == |p.cycles[k]| ==>
      Permute(p, ToInt(p.alphabet, p.cycles[k][j]).value) == ToInt(p.alphabet, p.cycles[k][0])
  {
    var cy := p.cycles[k];
    var i := ToInt(p.alphabet, cy[j]).value;
    assert Permute(p, i) == ToInt(p.alphabet, Next(cy, j)) by {
      assert cy[j] in p.alphabet.chars;
      LocateMember(p.cycles, k, j);
      PermuteAt(p, i, Position(k, j));
    }
    assert Next(cy, j) == (if j + 1 < |cy| then cy[j + 1] else cy[0]);
  }

  /** `invert` maps each cycle member to the member before it, and the first
      member of a cycle to its last. */
  lemma InvertPredecessor(p: Permutation, k: int, j: int)
    requires WellFormed(p) && 0 <= k < |p.cycles| && 0 <= j < |p.cycles[k]|
    ensures j > 0 ==>
      Invert(p, ToInt(p.alphabet, p.cycles[k][j]).value) == ToInt(p.alphabet, p.cycles[k][j - 1])
    ensures j == 0 ==>
      Invert(p, ToInt(p.alphabet, p.cycles[k][j]).value) == ToInt(p.alphabet, p.cycles[k][|p.cycles[k]| - 1])
  {
    var cy := p.cycles[k];
    var i := ToInt(p.alphabet, cy[j]).value;
    assert Invert(p, i) == ToInt(p.alphabet, Prev(cy, j)) by {
      assert cy[j] in p.alphabet.chars;
      LocateMember(p.cycles, k, j);
      InvertAt(p, i, Position(k, j));
    }
    assert Prev(cy, j) == (if j > 0 then cy[j - 1] else cy[|cy| - 1]);
  }

  /** An index whose character lies in no cycle is fixed (after wrapping) by
      both directions; no well-formedness is needed. */
  lemma FixedOutsideCycles(p: Permutation, x: int)
    requires p.Size() > 0
    requires forall k :: 0 <= k < |p.cycles| ==> p.alphabet.chars[Wrap(x, p.Size())] !in p.cycles[k]
    ensures Permute(p, x) == Ok(Wrap(x, p.Size()))
    ensures Invert(p, x) == Ok(Wrap(x, p.Size()))
  {
  }

  /** Empty cycle text parses to a single empty cycle and gives the identity. */
  lemma EmptyTextIsIdentity(a: Alphabet, x: int)
    requires Alphabets.Size(a) > 0
    ensures FromText("", a).cycles == [""]
    ensures Permute(FromText("", a), x) == Ok(Wrap(x, Alphabets.Size(a)))
    ensures Invert(FromText("", a), x) == Ok(Wrap(x, Alphabets.Size(a)))
  {
    assert Remove("", Ignored) == "";
  }

  /** For disjoint cycles, `invert` undoes `permute` on every index (up to wrapping). */
  lemma InvertAfterPermute(p: Permutation, x: int)
    requires WellFormed(p)
    ensures Permute(p, x).Ok?
    ensures Invert(p, Permute(p, x).value) == Ok(Wrap(x, p.Size()))
  {
    var n := p.Size();
    var w := Wrap(x, n);
    var c := p.alphabet.chars[w];
    var q := Permute(p, x).value;
    WrapInRange(q, n);
    ToIntAt(p.alphabet, w);
    match Locate(p.cycles, c)
    case None =>
    case Some(pos) =>
      var cy := p.cycles[pos.cycle];
      var j' := if pos.offset == |cy| - 1 then 0 else pos.offset + 1;
      assert Next(cy, pos.offset) == cy[j'];
      assert p.alphabet.chars[q] == cy[j'];
      LocateMember(p.cycles, pos.cycle, j');
      InvertAt(p, q, Position(pos.cycle, j'));
      assert Prev(cy, j') == c;
  }

  /** For disjoint cycles, `permute` undoes `invert` on every index (up to wrapping). */
  lemma PermuteAfterInvert(p: Permutation, x: int)
    requires WellFormed(p)
    ensures Invert(p, x).Ok?
    ensures Permute(p, Invert(p, x).value) == Ok(Wrap(x, p.Size()))
  {
    var n := p.Size();
    var w := Wrap(x, n);
    var c := p.alphabet.chars[w];
    var q := Invert(p, x).value;
    WrapInRange(q, n);
    ToIntAt(p.alphabet, w);
    match Locate(p.cycles, c)
    case None =>
    case Some(pos) =>
      var cy := p.cycles[pos.cycle];
      var j' := if pos.offset == 0 then |cy| - 1 else pos.offset - 1;
      assert Prev(cy, pos.offset) == cy[j'];
      assert p.alphabet.chars[q] == cy[j'];
      LocateMember(p.cycles, pos.cycle, j');
      PermuteAt(p, q, Position(pos.cycle, j'));
      assert Next(cy, j') == c;
  }

  /** The in-range form of `InvertAfterPermute`: `invert` sends `permute(a)` back to `a`. */
  lemma InvertUndoesPermute(p: Permutation, a: int, q: nat)
    requires WellFormed(p) && 0 <= a < p.Size() && Permute(p, a) == Ok(q)
    ensures Invert(p, q) == Ok(a)
  {
    InvertAfterPermute(p, a);
    WrapInRange(a, p.Size());
  }

  /** The in-range form of `PermuteAfterInvert`: `permute` sends `invert(a)` back to `a`. */
  lemma PermuteUndoesInvert(p: Permutation, a: int, q: nat)
    requires WellFormed(p) && 0 <= a < p.Size() && Invert(p, a) == Ok(q)
    ensures Permute(p, q) == Ok(a)
  {
    PermuteAfterInvert(p, a);
    WrapInRange(a, p.Size());
  }

  /** The character form of `permute` agrees with the index form through `toInt`/`toChar`. */
  lemma PermuteCharAgrees(p: Permutation, c: char)
    requires WellFormed(p) && c in p.alphabet.chars
    ensures ToInt(p.alphabet, c).Ok? && Permute(p, ToInt(p.alphabet, c).value).Ok?
    ensures PermuteChar(p, c) == Ok(p.alphabet.chars[Permute(p, ToInt(p.alphabet, c).value).value])
  {
  }

  /** The character form of `invert` agrees with the index form through `toInt`/`toChar`. */
  lemma InvertCharAgrees(p: Permutation, c: char)
    requires WellFormed(p) && c in p.alphabet.chars
    ensures ToInt(p.alphabet, c).Ok? && Invert(p, ToInt(p.alphabet, c).value).Ok?
    ensures InvertChar(p, c) == Ok(p.alphabet.chars[Invert(p, ToInt(p.alphabet, c).value).value])
  {
  }

  /** For disjoint cycles the character forms undo each other too. */
  lemma InvertCharAfterPermuteChar(p: Permutation, c: char)
    requires WellFormed(p) && c in p.alphabet.chars
    ensures PermuteChar(p, c).Ok?
    ensures InvertChar(p, PermuteChar(p, c).value) == Ok(c)
  {
    var i := ToInt(p.alphabet, c).value;
    var j := Permute(p, i).value;
    InvertAfterPermute(p, i);
    WrapInRange(i, p.Size());
    ToIntAt(p.alphabet, j);
  }

  /** `addCycle` as its documentation describes it: the cycle is added to the
      permutation, so it joins the list every query scans as well as the text. */
  function AddCycleIntended(p: Permutation, cycle: string): (q: Permutation)
    ensures GetCycles(q) == GetCycles(AddCycle(p, cycle))
    ensures q.alphabet == p.alphabet && |q.cycles| == |p.cycles| + 1
    ensures q.cycles[..|p.cycles|] == p.cycles && q.cycles[|p.cycles|] == cycle
  {
    p.(text := p.text + " (" + cycle + ")", cycles := p.cycles + [cycle])
  }

  /** A cycle appended after the others does not change where a character it
      does not hold is found. */
  lemma {:induction false} LocateSnoc(cycles: seq<string>, cycle: string, c: char)
    requires c !in cycle
    ensures Locate(cycles + [cycle], c) == Locate(cycles, c)
    decreases |cycles|
  {
    if |cycles| == 0 {
      assert Locate([cycle], c).None?;
    } else {
      assert (cycles + [cycle])[1..] == cycles[1..] + [cycle];
      LocateSnoc(cycles[1..], cycle, c);
    }
  }

  /** With the intended `addCycle`, the added cycle takes effect: each member goes
      to the next one, the last to the first. */
  lemma AddCycleSuccessor(p: Permutation, cycle: string, j: int)
    requires WellFormed(AddCycleIntended(p, cycle)) && 0 <= j < |cycle|
    ensures Permute(AddCycleIntended(p, cycle), ToInt(p.alphabet, cycle[j]).value) ==
      ToInt(p.alphabet, cycle[(j + 1) % |cycle|])
  {
    var q := AddCycleIntended(p, cycle);
    assert q.cycles[|p.cycles|] == cycle;
    NextOffset(j, |cycle|);
    PermuteSuccessor(q, |p.cycles|, j);
  }

  /** The offset after `j` in a cycle of length `n`, as a remainder. */
  lemma NextOffset(j: int, n: int)
    requires 0 <= j < n
    ensures (j + 1) % n == if j + 1 < n then j + 1 else 0
  {
    if j + 1 < n {
      DivModUnique(j + 1, n, 0, j + 1);
    } else {
      DivModUnique(j + 1, n, 1, 0);
    }
  }

  /** The offset before `j` in a cycle of length `n`, as a remainder. */
  lemma PrevOffset(j: int, n: int)
    requires 0 <= j < n
    ensures (j + n - 1) % n == if j > 0 then j - 1 else n - 1
  {
    if j > 0 {
      DivModUnique(j + n - 1, n, 1, j - 1);
    } else {
      DivModUnique(j + n - 1, n, 0, n - 1);
    }
  }

  /** `InvertPredecessor` with the wrap-around written as a remainder. */
  lemma InvertPredecessorMod(p: Permutation, k: int, j: int)
    requires WellFormed(p) && 0 <= k < |p.cycles| && 0 <= j < |p.cycles[k]|
    ensures Invert(p, ToInt(p.alphabet, p.cycles[k][j]).value) ==
      ToInt(p.alphabet, p.cycles[k][(j + |p.cycles[k]| - 1) % |p.cycles[k]|])
  {
    PrevOffset(j, |p.cycles[k]|);
    InvertPredecessor(p, k, j);
  }

  /** With the intended `addCycle`, `invert` walks the added cycle back: each
      member goes to the one before it, the first to the last. */
  lemma AddCyclePredecessor(p: Permutation, cycle: string, j: int)
    requires WellFormed(AddCycleIntended(p, cycle)) && 0 <= j < |cycle|
    ensures Invert(AddCycleIntended(p, cycle), ToInt(p.alphabet, cycle[j]).value) ==
      ToInt(p.alphabet, cycle[(j + |cycle| - 1) % |cycle|])
  {
    var q := AddCycleIntended(p, cycle);
    assert q.cycles[|p.cycles|] == cycle;
    InvertPredecessorMod(q, |p.cycles|, j);
  }

  /** With the intended `addCycle`, an index whose character is not in the added
      cycle maps as before, under both `permute` and `invert`. */
  lemma AddCycleKeepsOthers(p: Permutation, cycle: string, x: int)
    requires p.Size() > 0 && p.alphabet.chars[Wrap(x, p.Size())] !in cycle
    ensures Permute(AddCycleIntended(p, cycle), x) == Permute(p, x)
    ensures Invert(AddCycleIntended(p, cycle), x) == Invert(p, x)
  {
    var q := AddCycleIntended(p, cycle);
    assert q.cycles == p.cycles + [cycle];
    LocateSnoc(p.cycles, cycle, p.alphabet.chars[Wrap(x, p.Size())]);
  }

  /** `addCycle` as written: a fresh cycle of at least two characters has no
      effect, so its first member stays fixed where the documented behaviour
      moves it to the second. */
  lemma AddCycleIgnored(p: Permutation, cycle: string)
    requires WellFormed(AddCycleIntended(p, cycle)) && |cycle| >= 2
    ensures ToInt(p.alphabet, cycle[0]).Ok?
    ensures Permute(AddCycle(p, cycle), ToInt(p.alphabet, cycle[0]).value) == ToInt(p.alphabet, cycle[0])
    ensures Permute(AddCycle(p, cycle), ToInt(p.alphabet, cycle[0]).value) !=
      Permute(AddCycleIntended(p, cycle), ToInt(p.alphabet, cycle[0]).value)
  {
    var q := AddCycleIntended(p, cycle);
    var k := |p.cycles|;
    assert q.cycles[k] == cycle;
    assert cycle[0] in p.alphabet.chars && cycle[1] in p.alphabet.chars;
    var i := ToInt(p.alphabet, cycle[0]).value;
    ToIntAt(p.alphabet, i);
    WrapInRange(i, p.Size());
    forall m | 0 <= m < k
      ensures cycle[0] !in p.cycles[m]
    {
      assert q.cycles[m] == p.cycles[m];
    }
    FixedOutsideCycles(p, i);
    AddCycleSuccessor(p, cycle, 0);
    assert q.cycles[k][0] != q.cycles[k][1];
  }

  /** The smallest instance: `new Permutation("", UPPER)` then `addCycle("AB")`
      still maps 'A' (index 0) to itself, where the documented behaviour maps it
      to 'B' (index 1). */
  lemma AddCycleExample()
    ensures Permute(AddCycle(FromText("", Upper), "AB"), 0) == Ok(0)
    ensures Permute(AddCycleIntended(FromText("", Upper), "AB"), 0) == Ok(1)
  {
    UpperIsValid();
    EmptyTextIsIdentity(Upper, 0);
    var p := FromText("", Upper);
    var q := AddCycleIntended(p, "AB");
    assert q.cycles == ["", "AB"];
    assert Upper.chars[0] == 'A' && Upper.chars[1] == 'B';
    assert WellFormed(q);
    ToIntAt(Upper, 0);
    ToIntAt(Upper, 1);
    AddCycleIgnored(p, "AB");
    AddCycleSuccessor(p, "AB", 0);
  }
}
