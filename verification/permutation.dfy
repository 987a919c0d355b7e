/** A permutation of the indices of an alphabet, written in cycle notation.

    The constructor parses the cycle text once into a list of cycles; every
    later query scans that list in order. `AddCycle` only extends the stored
    text, so it leaves the parsed list, and hence the mapping, as it was. */
module Permutations {
  import opened Errors
  import opened Text
  import opened Alphabets

  /** `text` is the cycle text as given and as extended by `AddCycle`;
      `cycles` is the list the constructor parsed from the original text. */
  datatype Permutation = Permutation(alphabet: Alphabet, text: string, cycles: seq<string>) {
    /** `size()`: the size of the alphabet permuted. */
    function Size(): nat {
      Alphabets.Size(alphabet)
    }
  }

  /** Where a character sits: the number of its cycle and its offset in that cycle. */
  datatype Position = Position(cycle: nat, offset: nat)

  /** The characters the constructor deletes before splitting. */
  const Ignored: set<char> := {' ', '('}

  /** The constructor: spaces and '(' are deleted from the text, which is then
      split at every ')' by Java's `split` rules. */
  function FromText(text: string, alphabet: Alphabet): (p: Permutation)
    ensures p.alphabet == alphabet && p.text == text
    ensures forall k :: 0 <= k < |p.cycles| ==> ' ' !in p.cycles[k] && '(' !in p.cycles[k] && ')' !in p.cycles[k]
    ensures Join(p.cycles, ')') == TrimEndChar(Remove(text, Ignored), ')')
    ensures ')' !in text ==> p.cycles == [Remove(text, Ignored)]
  {
    Permutation(alphabet, text, Split(Remove(text, Ignored), ')'))
  }

  /** `addCycle(cycle)`: the stored text grows by " (cycle)"; the parsed cycle
      list, which every query reads, is not touched. */
  function AddCycle(p: Permutation, cycle: string): (q: Permutation)
    ensures GetCycles(q) == GetCycles(p) + " (" + cycle + ")"
    ensures q.alphabet == p.alphabet && q.cycles == p.cycles
    ensures forall x :: Permute(q, x) == Permute(p, x) && Invert(q, x) == Invert(p, x)
    ensures forall c :: PermuteChar(q, c) == PermuteChar(p, c) && InvertChar(q, c) == InvertChar(p, c)
    ensures Derangement(q) == Derangement(p)
  {
    p.(text := p.text + " (" + cycle + ")")
  }

  /** `getCycles()`: the stored cycle text. */
  function GetCycles(p: Permutation): string {
    p.text
  }

  /** Java's `%` on `int`, which truncates toward zero. */
  function JavaRem(x: int, n: int): int
    requires n > 0
  {
    if x >= 0 then x % n else -((-x) % n)
  }

  lemma MulAtLeast(a: int, n: int)
    requires a >= 1 && n > 0
    ensures a * n >= n
  {
  }

  /** Quotient and remainder are unique: `q * n + r` with `0 <= r < n` has remainder `r`. */
  lemma DivModUnique(x: int, n: int, q: int, r: int)
    requires n > 0 && 0 <= r < n && x == q * n + r
    ensures x / n == q && x % n == r
  {
    var q', r' := x / n, x % n;
    assert x == q' * n + r';
    if q > q' {
      MulAtLeast(q - q', n);
    } else if q < q' {
      MulAtLeast(q' - q, n);
    }
  }

  /** Reducing a summand first does not change the remainder of a sum. */
  lemma ModOfSum(a: int, b: int, n: int)
    requires n > 0
    ensures (a % n + b) % n == (a + b) % n
  {
    var t := a % n + b;
    assert a == (a / n) * n + a % n;
    assert t == (t / n) * n + t % n;
    DivModUnique(a + b, n, a / n + t / n, t % n);
  }

  /** For negative `x`, Java's remainder moved into `[0, n)` is the true modulus. */
  lemma JavaRemNegative(x: int, n: int)
    requires n > 0 && x < 0
    ensures JavaRem(x, n) < 0 ==> JavaRem(x, n) + n == x % n
    ensures JavaRem(x, n) >= 0 ==> JavaRem(x, n) == x % n
  {
    var m := (-x) % n;
    var q := (-x) / n;
    assert -x == q * n + m;
    if m == 0 {
      DivModUnique(x, n, -q, 0);
    } else {
      DivModUnique(x, n, -q - 1, n - m);
    }
  }

  /** `wrap(x)`: Java's remainder, moved into `[0, n)` when negative, which is
      the true modulus. */
  function Wrap(x: int, n: int): (r: nat)
    requires n > 0
    ensures r < n
  {
    var rem := JavaRem(x, n);
    if rem < 0 then rem + n else rem
  }

  /** `wrap` is the true modulus, for negative arguments too. */
  lemma WrapIsMod(x: int, n: int)
    requires n > 0
    ensures Wrap(x, n) == x % n
  {
    if x < 0 {
      JavaRemNegative(x, n);
    }
  }

  /** The first cycle holding `c` (in list order) and the first offset of `c` in it. */
  function Locate(cycles: seq<string>, c: char): (r: Option<Position>)
    ensures r.None? <==> forall k :: 0 <= k < |cycles| ==> c !in cycles[k]
    ensures r.Some? ==> r.value.cycle < |cycles| && r.value.offset < |cycles[r.value.cycle]|
    ensures r.Some? ==> cycles[r.value.cycle][r.value.offset] == c
    ensures r.Some? ==> c !in cycles[r.value.cycle][..r.value.offset]
    ensures r.Some? ==> forall k :: 0 <= k < r.value.cycle ==> c !in cycles[k]
  {
    if |cycles| == 0 then None
    else
      var j := IndexOf(cycles[0], c);
      if j >= 0 then Some(Position(0, j))
      else
        match Locate(cycles[1..], c)
        case None => None
        case Some(pos) => Some(Position(pos.cycle + 1, pos.offset))
  }

  /** The character after offset `j` in a cycle, the first one after the last. */
  function Next(cycle: string, j: nat): char
    requires j < |cycle|
  {
    if j == |cycle| - 1 then cycle[0] else cycle[j + 1]
  }

  /** The character before offset `j` in a cycle, the last one before the first. */
  function Prev(cycle: string, j: nat): char
    requires j < |cycle|
  {
    if j == 0 then cycle[|cycle| - 1] else cycle[j - 1]
  }

  /** Every character written in a cycle belongs to the alphabet. */
  ghost predicate CycleCharsIn(p: Permutation) {
    forall k, j :: 0 <= k < |p.cycles| && 0 <= j < |p.cycles[k]| ==> p.cycles[k][j] in p.alphabet.chars
  }

  /** `permute(int)`: the character at the wrapped index is looked up in the cycles;
      the first cycle holding it supplies the character after it, and a character
      in no cycle maps to itself. */
  function Permute(p: Permutation, x: int): (r: Result<nat>)
    ensures p.Size() == 0 <==> r == Err(DivisionByZero)
    ensures r.Err? ==> r.error == DivisionByZero || r.error == NotInAlphabet
    ensures r.Ok? && Unpadded(p.alphabet.chars) ==> r.value < p.Size()
    ensures p.Size() > 0 && CycleCharsIn(p) ==> r.Ok?
  {
    var n := p.Size();
    if n == 0 then Err(DivisionByZero)
    else
      var w := Wrap(x, n);
      // `toChar(wrap(x))` cannot fail: the index is below `size()`.
      match Locate(p.cycles, p.alphabet.chars[w])
      case None => Ok(w)
      case Some(pos) => ToInt(p.alphabet, Next(p.cycles[pos.cycle], pos.offset))
  }

  /** `invert(int)`: as `Permute`, but the first cycle holding the character
      supplies the character before it. */
  function Invert(p: Permutation, x: int): (r: Result<nat>)
    ensures p.Size() == 0 <==> r == Err(DivisionByZero)
    ensures r.Err? ==> r.error == DivisionByZero || r.error == NotInAlphabet
    ensures r.Ok? && Unpadded(p.alphabet.chars) ==> r.value < p.Size()
    ensures p.Size() > 0 && CycleCharsIn(p) ==> r.Ok?
  {
    var n := p.Size();
    if n == 0 then Err(DivisionByZero)
    else
      var w := Wrap(x, n);
      match Locate(p.cycles, p.alphabet.chars[w])
      case None => Ok(w)
      case Some(pos) => ToInt(p.alphabet, Prev(p.cycles[pos.cycle], pos.offset))
  }

  /** `permute(char)`: the character's index is permuted and turned back into a character. */
  function PermuteChar(p: Permutation, c: char): (r: Result<char>)
    ensures c !in p.alphabet.chars ==> r == Err(NotInAlphabet)
    ensures c in p.alphabet.chars && Unpadded(p.alphabet.chars) && CycleCharsIn(p) ==> r.Ok? && r.value in p.alphabet.chars
  {
    var i :- ToInt(p.alphabet, c);
    var j :- Permute(p, i);
    ToChar(p.alphabet, j)
  }

  /** `invert(char)`: declared `int` in Java but returning the character, so
      modelled as returning the character. */
  function InvertChar(p: Permutation, c: char): (r: Result<char>)
    ensures c !in p.alphabet.chars ==> r == Err(NotInAlphabet)
    ensures c in p.alphabet.chars && Unpadded(p.alphabet.chars) && CycleCharsIn(p) ==> r.Ok? && r.value in p.alphabet.chars
  {
    var i :- ToInt(p.alphabet, c);
    var j :- Invert(p, i);
    ToChar(p.alphabet, j)
  }

  /** The summed length of all cycles. */
  function TotalLength(cycles: seq<string>): nat {
    if |cycles| == 0 then 0 else |cycles[0]| + TotalLength(cycles[1..])
  }

  /** `derangement()`: the summed cycle length equals the alphabet size. */
  function Derangement(p: Permutation): bool {
    TotalLength(p.cycles) == p.Size()
  }

  /** No character is written twice, within one cycle or across cycles. */
  ghost predicate Disjoint(cycles: seq<string>) {
    forall k1, j1, k2, j2 ::
      (0 <= k1 < |cycles| && 0 <= j1 < |cycles[k1]| && 0 <= k2 < |cycles| && 0 <= j2 < |cycles[k2]| &&
       cycles[k1][j1] == cycles[k2][j2]) ==> k1 == k2 && j1 == j2
  }

  /** The configuration the cycle notation presumes: a valid, non-empty alphabet
      and disjoint cycles of its characters. */
  ghost predicate WellFormed(p: Permutation) {
    Valid(p.alphabet) && p.Size() > 0 && CycleCharsIn(p) && Disjoint(p.cycles)
  }
}
