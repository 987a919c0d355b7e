/** Counting and shape facts about a cycle decomposition: what `derangement()`
    really decides, and when a permutation is its own inverse. */
module CycleStructure {
  import opened Errors
  import opened Text
  import opened Alphabets
  import opened Permutations
  import opened PermutationLaws

  /** The character `c` is written in some cycle of `p`. */
  ghost predicate InSomeCycle(p: Permutation, c: char) {
    exists k :: 0 <= k < |p.cycles| && c in p.cycles[k]
  }

  /** `permute` applied twice, failing where either application fails. */
  function Twice(p: Permutation, x: int): Result<nat> {
    var y :- Permute(p, x);
    Permute(p, y)
  }

  /** Applying `p` twice gives back every in-range index. */
  ghost predicate Involutive(p: Permutation) {
    forall x :: 0 <= x < p.Size() ==> Twice(p, x) == Ok(x)
  }

  ghost function Members(s: string): set<char> {
    set c | c in s
  }

  /** Every character written in any of the cycles. */
  ghost function CycleChars(cycles: seq<string>): set<char> {
    if |cycles| == 0 then {} else Members(cycles[0]) + CycleChars(cycles[1..])
  }

  lemma {:induction false} MembersCard(s: string)
    requires Distinct(s)
    ensures |Members(s)| == |s|
  {
    if |s| > 0 {
      assert Distinct(s[1..]);
      MembersCard(s[1..]);
      assert Members(s) == {s[0]} + Members(s[1..]);
    }
  }

  lemma {:induction false} CycleCharsLocate(cycles: seq<string>, c: char)
    ensures c in CycleChars(cycles) <==> Locate(cycles, c).Some?
  {
    if |cycles| > 0 {
      CycleCharsLocate(cycles[1..], c);
    }
  }

  lemma DisjointTail(cycles: seq<string>)
    requires |cycles| > 0 && Disjoint(cycles)
    ensures Disjoint(cycles[1..])
  {
    var t := cycles[1..];
    forall k1, j1, k2, j2 |
      0 <= k1 < |t| && 0 <= j1 < |t[k1]| && 0 <= k2 < |t| && 0 <= j2 < |t[k2]| && t[k1][j1] == t[k2][j2]
      ensures k1 == k2 && j1 == j2
    {
      assert cycles[k1 + 1][j1] == cycles[k2 + 1][j2];
    }
  }

  /** Disjoint cycles hold as many distinct characters as their summed length. */
  lemma {:induction false} CycleCharsCard(cycles: seq<string>)
    requires Disjoint(cycles)
    ensures |CycleChars(cycles)| == TotalLength(cycles)
  {
    if |cycles| > 0 {
      var head := cycles[0];
      var rest := cycles[1..];
      DisjointTail(cycles);
      CycleCharsCard(rest);
      assert Distinct(head);
      MembersCard(head);
      forall c | c in Members(head)
        ensures c !in CycleChars(rest)
      {
        CycleCharsLocate(rest, c);
        var j := IndexOf(head, c);
      }
      assert Members(head) * CycleChars(rest) == {};
    }
  }

  lemma SubsetOfEqualSize<T>(s: set<T>, a: set<T>)
    requires s <= a && |s| == |a|
    ensures s == a
  {
    assert a == s + (a - s);
    assert |a| == |s| + |a - s|;
  }

  lemma InSomeCycleLocate(p: Permutation, c: char)
    ensures InSomeCycle(p, c) <==> Locate(p.cycles, c).Some?
    ensures InSomeCycle(p, c) <==> c in CycleChars(p.cycles)
  {
    CycleCharsLocate(p.cycles, c);
    if Locate(p.cycles, c).Some? {
      assert c in p.cycles[Locate(p.cycles, c).value.cycle];
    }
  }

  /** For disjoint cycles over a valid alphabet, `derangement()` holds exactly
      when every alphabet character is written in some cycle. */
  lemma DerangementIffCovering(p: Permutation)
    requires WellFormed(p)
    ensures Derangement(p) <==> forall c :: c in p.alphabet.chars ==> InSomeCycle(p, c)
  {
    var alpha := Members(p.alphabet.chars);
    var used := CycleChars(p.cycles);
    MembersCard(p.alphabet.chars);
    CycleCharsCard(p.cycles);
    forall c | c in used
      ensures c in alpha
    {
      CycleCharsLocate(p.cycles, c);
      var pos := Locate(p.cycles, c).value;
      assert p.cycles[pos.cycle][pos.offset] in p.alphabet.chars;
    }
    if Derangement(p) {
      SubsetOfEqualSize(used, alpha);
      forall c | c in p.alphabet.chars
        ensures InSomeCycle(p, c)
      {
        InSomeCycleLocate(p, c);
      }
    }
    if forall c :: c in p.alphabet.chars ==> InSomeCycle(p, c) {
      forall c | c in alpha
        ensures c in used
      {
        InSomeCycleLocate(p, c);
      }
      assert used == alpha;
    }
  }

  /** With no one-character cycles, an index is fixed by `permute` exactly when
      its character lies outside every cycle. */
  lemma FixedIffOutside(p: Permutation, i: int)
    requires WellFormed(p) && 0 <= i < p.Size()
    requires forall k :: 0 <= k < |p.cycles| ==> |p.cycles[k]| != 1
    ensures Permute(p, i) == Ok(i) <==> !InSomeCycle(p, p.alphabet.chars[i])
  {
    var c := p.alphabet.chars[i];
    InSomeCycleLocate(p, c);
    WrapInRange(i, p.Size());
    match Locate(p.cycles, c)
    case None =>
    case Some(pos) =>
      var cy := p.cycles[pos.cycle];
      var j' := if pos.offset == |cy| - 1 then 0 else pos.offset + 1;
      assert Next(cy, pos.offset) == cy[j'];
      assert j' != pos.offset;
      assert cy[j'] != c;
      PermuteAt(p, i, pos);
  }

  /** For disjoint cycles with no one-character cycle, `derangement()` holds
      exactly when no index is a fixed point of `permute`. */
  lemma DerangementIffNoFixedPoint(p: Permutation)
    requires WellFormed(p)
    requires forall k :: 0 <= k < |p.cycles| ==> |p.cycles[k]| != 1
    ensures Derangement(p) <==> forall i :: 0 <= i < p.Size() ==> Permute(p, i) != Ok(i)
  {
    DerangementIffCovering(p);
    var chars := p.alphabet.chars;
    assert (forall c :: c in chars ==> InSomeCycle(p, c))
           <==> (forall i :: 0 <= i < p.Size() ==> InSomeCycle(p, chars[i])) by {
      if forall i :: 0 <= i < p.Size() ==> InSomeCycle(p, chars[i]) {
        forall c | c in chars
          ensures InSomeCycle(p, c)
        {
          var i := ToInt(p.alphabet, c).value;
          assert chars[i] == c;
        }
      }
    }
    forall i | 0 <= i < p.Size()
      ensures Permute(p, i) == Ok(i) <==> !InSomeCycle(p, chars[i])
    {
      FixedIffOutside(p, i);
    }
  }

  /** The derangement test its documentation describes ("no value maps to
      itself"): the code's length test, and no one-character cycle, since such
      a cycle maps its character to itself. */
  function DerangementIntended(p: Permutation): bool {
    Derangement(p) && forall k :: 0 <= k < |p.cycles| ==> |p.cycles[k]| != 1
  }

  /** The corrected test keeps the documented promise on every disjoint cycle
      list: it holds exactly when `permute` fixes no index. */
  lemma DerangementIntendedNoFixedPoint(p: Permutation)
    requires WellFormed(p)
    ensures DerangementIntended(p) <==> forall i :: 0 <= i < p.Size() ==> Permute(p, i) != Ok(i)
  {
    if forall k :: 0 <= k < |p.cycles| ==> |p.cycles[k]| != 1 {
      DerangementIffNoFixedPoint(p);
    } else {
      var k :| 0 <= k < |p.cycles| && |p.cycles[k]| == 1;
      var c := p.cycles[k][0];
      assert c in p.alphabet.chars;
      var i := ToInt(p.alphabet, c).value;
      PermuteSuccessor(p, k, 0);
      assert 0 <= i < p.Size() && Permute(p, i) == Ok(i);
    }
  }

  /** The code's `derangement()` is blind to one-character cycles: such a cycle
      adds 1 to the summed length like any other character, yet `permute` fixes
      its character's index, so the documented test must answer false. */
  lemma DerangementMissesSingleton(p: Permutation, k: nat) returns (i: nat)
    requires WellFormed(p) && k < |p.cycles| && |p.cycles[k]| == 1
    ensures i < p.Size() && p.alphabet.chars[i] == p.cycles[k][0] && Permute(p, i) == Ok(i)
    ensures !DerangementIntended(p)
  {
    var c := p.cycles[k][0];
    assert c in p.alphabet.chars;
    i := ToInt(p.alphabet, c).value;
    PermuteSuccessor(p, k, 0);
  }

  /** The text "(A) (B)" over the alphabet "AB", with its cycle list ["A", "B"]:
      `derangement()` answers true, yet `permute` maps 'A' (index 0) to itself,
      and the corrected test answers false. */
  lemma DerangementOfSingletons()
    ensures var p := Permutation(Alphabet("AB"), "(A) (B)", ["A", "B"]);
      Derangement(p) && Permute(p, 0) == Ok(0) && !DerangementIntended(p)
  {
  }

  /** When no cycle is longer than two, the successor and predecessor of every
      member coincide, so `permute` and `invert` agree on every index. */
  lemma PermuteEqualsInvertOnPairs(p: Permutation, x: int)
    requires 0 <= x < p.Size()
    requires forall k :: 0 <= k < |p.cycles| ==> |p.cycles[k]| <= 2
    ensures Permute(p, x) == Invert(p, x)
  {
    var c := p.alphabet.chars[x];
    WrapInRange(x, p.Size());
    match Locate(p.cycles, c)
    case None =>
    case Some(pos) =>
      var cy := p.cycles[pos.cycle];
      assert Next(cy, pos.offset) == Prev(cy, pos.offset) by {
        assert |cy| <= 2;
      }
      PermuteAt(p, x, pos);
      InvertAt(p, x, pos);
  }

  /** Disjoint cycles of length at most two (a plugboard of swapped pairs, a
      reflector) describe a permutation that is its own inverse. */
  lemma PairsAreInvolutive(p: Permutation)
    requires WellFormed(p)
    requires forall k :: 0 <= k < |p.cycles| ==> |p.cycles[k]| <= 2
    ensures Involutive(p)
  {
    forall x | 0 <= x < p.Size()
      ensures Twice(p, x) == Ok(x)
    {
      PermuteEqualsInvertOnPairs(p, x);
      PermuteAfterInvert(p, x);
      WrapInRange(x, p.Size());
    }
  }
}
