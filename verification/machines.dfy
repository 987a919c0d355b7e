/** The machine: an alphabet, a catalog of rotors, an ordered array of slots
    bound to rotors of the catalog, a pawl count and a plugboard.

    Java slots hold references to the catalog's rotor objects, so a rotor
    bound to two slots is one object, and settings persist in the catalog
    between setups. Here the catalog is an arena `seq<Rotor>` and a slot holds
    the arena index of its rotor (`None` for a slot never bound, Java's `null`);
    every operation that moves a rotor writes the arena entry.
 */
module Machines {
  import opened Errors
  import opened Text
  import opened Alphabets
  import opened Permutations
  import opened Rotors

  datatype Machine = Machine(
    alphabet: Alphabet,
    pawls: int,
    catalog: seq<Rotor>,
    slots: seq<Option<nat>>,
    plug: Option<Permutation>)

  /** Every bound slot refers to a rotor of the catalog (a Java reference is never dangling). */
  predicate Linked(m: Machine) {
    BoundBelow(m.slots, |m.catalog|)
  }

  /** Every bound slot holds an index below `n`. */
  predicate BoundBelow(slots: seq<Option<nat>>, n: nat) {
    forall i :: 0 <= i < |slots| && slots[i].Some? ==> slots[i].value < n
  }

  /** `b` is `a` with perhaps another setting: name, permutation and kind agree. */
  predicate SameButSetting(a: Rotor, b: Rotor) {
    b.name == a.name && b.perm == a.perm && b.kind == a.kind
  }

  /** Only rotor settings differ between `m` and `m'`. */
  ghost predicate SameButSettings(m: Machine, m': Machine) {
    m'.alphabet == m.alphabet && m'.pawls == m.pawls && m'.slots == m.slots && m'.plug == m.plug &&
    SameRotors(m.catalog, m'.catalog)
  }

  /** The two catalogs hold the same rotors, index by index, but for their settings. */
  ghost predicate SameRotors(a: seq<Rotor>, b: seq<Rotor>) {
    |b| == |a| && forall k :: 0 <= k < |a| ==> SameButSetting(a[k], b[k])
  }

  /** Only settings differ, transitively. */
  lemma SameButSettingsTrans(m: Machine, m1: Machine, m2: Machine)
    requires SameButSettings(m, m1) && SameButSettings(m1, m2)
    ensures SameButSettings(m, m2)
  {
    forall k | 0 <= k < |m.catalog|
      ensures SameButSetting(m.catalog[k], m2.catalog[k])
    {
      assert SameButSetting(m.catalog[k], m1.catalog[k]);
      assert SameButSetting(m1.catalog[k], m2.catalog[k]);
    }
  }

  /** `new Machine(alpha, numRotors, pawls, allRotors)`: every slot empty and no
      plugboard; a negative slot count fails as the array allocation does. */
  function NewMachine(alpha: Alphabet, numRotors: int, pawls: int, allRotors: seq<Rotor>): (r: Result<Machine>)
    ensures r.Err? <==> numRotors < 0
    ensures r.Err? ==> r.error == NegativeSlotCount
    ensures r.Ok? ==> Linked(r.value) && r.value.alphabet == alpha && r.value.catalog == allRotors
    ensures r.Ok? ==> NumRotors(r.value) == numRotors && NumPawls(r.value) == pawls
    ensures r.Ok? ==> r.value.plug.None? && forall i :: 0 <= i < |r.value.slots| ==> r.value.slots[i].None?
  {
    if numRotors < 0 then Err(NegativeSlotCount)
    else Ok(Machine(alpha, pawls, allRotors, seq(numRotors, _ => None), None))
  }

  /** `numRotors()`: the length of the slot array. */
  function NumRotors(m: Machine): nat {
    |m.slots|
  }

  /** `numPawls()`: the pawl count given at construction. */
  function NumPawls(m: Machine): int {
    m.pawls
  }

  /** The catalog rotor at index `k` has the name `name`, ignoring case. */
  predicate Named(catalog: seq<Rotor>, k: nat, name: string)
    requires k < |catalog|
  {
    EqualsIgnoreCase(catalog[k].name, name)
  }

  /** No catalog rotor has the name `name`. */
  ghost predicate NoneNamed(catalog: seq<Rotor>, name: string) {
    forall k :: 0 <= k < |catalog| ==> !Named(catalog, k, name)
  }

  /** `k` is the first catalog index whose rotor has the name `name`. */
  ghost predicate FirstNamed(catalog: seq<Rotor>, name: string, k: nat) {
    k < |catalog| && Named(catalog, k, name) && forall j :: 0 <= j < k ==> !Named(catalog, j, name)
  }

  /** The rotor the inner loop of `insertRotors` stops at: the first in
      catalog order whose name equals `name` ignoring case. */
  function FindRotor(catalog: seq<Rotor>, name: string): (r: Option<nat>)
    ensures r.None? <==> NoneNamed(catalog, name)
    ensures r.Some? ==> FirstNamed(catalog, name, r.value)
  {
    if |catalog| == 0 then None
    else if Named(catalog, 0, name) then Some(0)
    else
      match FindRotor(catalog[1..], name)
      case None =>
        assert forall k :: 1 <= k < |catalog| ==> Named(catalog, k, name) == Named(catalog[1..], k - 1, name);
        None
      case Some(k) =>
        assert Named(catalog, k + 1, name) by {
          assert catalog[k + 1] == catalog[1..][k];
        }
        assert forall j :: 1 <= j <= k ==> Named(catalog, j, name) == Named(catalog[1..], j - 1, name);
        Some(k + 1)
  }

  /** The binding of one slot after `insertRotors`: the rotor found, or the old binding. */
  function Rebind(catalog: seq<Rotor>, name: string, current: Option<nat>): Option<nat> {
    match FindRotor(catalog, name)
    case Some(k) => Some(k)
    case None => current
  }

  /** `insertRotors(rotors)`: slot `i` is bound to the first catalog rotor named
      `rotors[i]` ignoring case, and keeps its binding when there is none. The
      name array is only read inside the catalog loop, so it may be short when
      the catalog is empty; otherwise a short array fails. Settings are not reset. */
  function InsertRotors(m: Machine, names: seq<string>): (r: Result<Machine>)
    requires Linked(m)
    ensures r.Err? <==> |m.catalog| > 0 && |names| < |m.slots|
    ensures r.Err? ==> r.error == SlotIndexOutOfRange
    ensures r.Ok? ==> Linked(r.value) && r.value == m.(slots := r.value.slots) && |r.value.slots| == |m.slots|
    ensures r.Ok? && |m.catalog| == 0 ==> r.value == m
    ensures r.Ok? && |m.catalog| > 0 ==> forall i :: 0 <= i < |m.slots| ==>
      (NoneNamed(m.catalog, names[i]) ==> r.value.slots[i] == m.slots[i]) &&
      (!NoneNamed(m.catalog, names[i]) ==> r.value.slots[i].Some? && FirstNamed(m.catalog, names[i], r.value.slots[i].value))
  {
    if |m.catalog| == 0 then Ok(m)
    else if |names| < |m.slots| then Err(SlotIndexOutOfRange)
    else Ok(m.(slots := seq(|m.slots|, i requires 0 <= i < |m.slots| => Rebind(m.catalog, names[i], m.slots[i]))))
  }

  /** Slot `i` (from 1) can be set from `setting`: the string reaches it, its
      character is in the alphabet and the slot is bound. */
  predicate SlotReady(m: Machine, setting: string, i: nat)
    requires 1 <= i < |m.slots|
  {
    i - 1 < |setting| && setting[i - 1] in m.alphabet.chars && m.slots[i].Some?
  }

  /** Why `setRotors` fails at slot `i`, in the order Java evaluates the call:
      `charAt` first, then `toInt`, then the call on the slot's rotor. */
  function Fault(m: Machine, setting: string, i: nat): Error
    requires 1 <= i
  {
    if i - 1 >= |setting| then SettingTooShort
    else if setting[i - 1] !in m.alphabet.chars then NotInAlphabet
    else NullRotor
  }

  /** The loop of `setRotors` from slot `i` on. */
  function SetFrom(m: Machine, setting: string, i: nat): (r: Result<Machine>)
    requires Linked(m) && 1 <= i
    ensures r.Ok? ==> Linked(r.value) && SameButSettings(m, r.value)
    ensures r.Err? ==> r.error in {SettingTooShort, NotInAlphabet, NullRotor}
    decreases |m.slots| - i
  {
    if i >= |m.slots| then Ok(m)
    else if i - 1 >= |setting| then Err(SettingTooShort)
    else
      var v :- ToInt(m.alphabet, setting[i - 1]);
      match m.slots[i]
      case None => Err(NullRotor)
      case Some(k) => SetFrom(m.(catalog := m.catalog[k := Set(m.catalog[k], v)]), setting, i + 1)
  }

  /** `setRotors(setting)`: slot `i`'s rotor is set to the index of
      `setting[i - 1]`, for every slot but the reflector's slot 0. */
  function SetRotors(m: Machine, setting: string): (r: Result<Machine>)
    requires Linked(m)
    ensures r.Ok? ==> Linked(r.value) && SameButSettings(m, r.value)
    ensures r.Err? ==> r.error in {SettingTooShort, NotInAlphabet, NullRotor}
  {
    SetFrom(m, setting, 1)
  }

  /** `setPlugboard(plugboard)`: nothing but the plugboard changes. */
  function SetPlugboard(m: Machine, plugboard: Permutation): (r: Machine)
    ensures r.plug == Some(plugboard)
    ensures r.(plug := m.plug) == m
  {
    m.(plug := Some(plugboard))
  }

  /** The rotor in slot `i`; an unbound slot fails as a `null` dereference does. */
  function SlotRotor(m: Machine, i: nat): (r: Result<Rotor>)
    requires Linked(m) && i < |m.slots|
    ensures r.Ok? <==> m.slots[i].Some?
    ensures r.Ok? ==> r.value == m.catalog[m.slots[i].value]
    ensures r.Err? ==> r.error == NullRotor
  {
    match m.slots[i]
    case None => Err(NullRotor)
    case Some(k) => Ok(m.catalog[k])
  }

  /** The catalog with rotor `k` advanced: it fails exactly when `advance`
      does, and otherwise rotor `k` is the advanced rotor and every other
      catalog entry is as it was. */
  function AdvanceAt(m: Machine, k: nat): (r: Result<Machine>)
    requires Linked(m) && k < |m.catalog|
    ensures r.Ok? <==> Advance(m.catalog[k]).Ok?
    ensures r.Ok? ==> Linked(r.value) && SameButSettings(m, r.value)
    ensures r.Ok? ==> r.value.catalog[k] == Advance(m.catalog[k]).value
    ensures r.Ok? ==> forall j :: 0 <= j < |m.catalog| && j != k ==> r.value.catalog[j] == m.catalog[j]
  {
    var r :- Advance(m.catalog[k]);
    Ok(m.(catalog := m.catalog[k := r]))
  }

  /** The stepping loop of `convert(int)` from index `i` on: a moving rotor in
      slot `i` advances when the rotor in slot `i + 1` is at its notch or it is
      at its own; the right neighbour is asked first and the `||` stops there
      when it holds. A slot left of the array fails; an unbound slot `i` is
      not moving (`instanceof` is false for `null`), an unbound slot `i + 1` fails. */
  function StepFrom(m: Machine, i: int): (r: Result<Machine>)
    requires Linked(m)
    ensures r.Ok? ==> Linked(r.value) && SameButSettings(m, r.value)
    decreases |m.slots| - i
  {
    if i >= |m.slots| - 1 then Ok(m)
    else if i < 0 then Err(SlotIndexOutOfRange)
    else
      match m.slots[i]
      case None => StepFrom(m, i + 1)
      case Some(k) =>
        if !Rotates(m.catalog[k]) then StepFrom(m, i + 1)
        else
          var right :- SlotRotor(m, i + 1);
          var rightNotch :- AtNotch(right);
          var step :- if rightNotch then Ok(true) else AtNotch(m.catalog[k]);
          if step then
            var m' :- AdvanceAt(m, k);
            StepFrom(m', i + 1)
          else StepFrom(m, i + 1)
  }

  /** The unconditional advance of the rightmost slot. */
  function AdvanceLast(m: Machine): (r: Result<Machine>)
    requires Linked(m)
    ensures r.Ok? ==> Linked(r.value) && SameButSettings(m, r.value)
  {
    if |m.slots| == 0 then Err(SlotIndexOutOfRange)
    else
      var k :- match m.slots[|m.slots| - 1] case None => Err(NullRotor) case Some(k) => Ok(k);
      AdvanceAt(m, k)
  }

  /** The stepping of one keypress: the loop from slot `numRotors - pawls`, then the rightmost slot. */
  function Step(m: Machine): (r: Result<Machine>)
    requires Linked(m)
    ensures r.Ok? ==> Linked(r.value) && SameButSettings(m, r.value)
  {
    match StepFrom(m, |m.slots| - m.pawls)
    case Err(e) => Err(e)
    case Ok(m') => AdvanceLast(m')
  }

  /** The conversion slot `j` applies to a signal, forward (toward the
      reflector) or backward: the bound rotor's `convertForward` or
      `convertBackward`; an unbound slot fails as a `null` dereference does. */
  function SlotConvert(m: Machine, forward: bool, j: nat, c: int): Result<int> {
    if Linked(m) && j < |m.slots| then
      match m.slots[j]
      case None => Err(NullRotor)
      case Some(k) => if forward then ConvertForward(m.catalog[k], c) else ConvertBackward(m.catalog[k], c)
    else Err(SlotIndexOutOfRange)
  }

  /** The slot conversions in one direction, as one function of slot and signal. */
  function Stage(m: Machine, forward: bool): (nat, int) -> Result<int> {
    (j: nat, c: int) => SlotConvert(m, forward, j, c)
  }

  /** The stages `i - 1` down to 0 applied in turn, stopping at the first failure:
      the forward loop of `convert(int)`. */
  function Down(f: (nat, int) -> Result<int>, i: nat, c: int): Result<int>
    decreases i
  {
    if i == 0 then Ok(c)
    else
      var c' :- f(i - 1, c);
      Down(f, i - 1, c')
  }

  /** The stages `lo` up to `hi - 1` applied in turn, stopping at the first
      failure: the backward loop of `convert(int)`. */
  function Up(f: (nat, int) -> Result<int>, lo: nat, hi: nat, c: int): Result<int>
    decreases hi - lo
  {
    if lo >= hi then Ok(c)
    else
      var c' :- f(lo, c);
      Up(f, lo + 1, hi, c')
  }

  /** `convert(int c)`: the plugboard, then the stepping, then the forward pass
      over every slot from the rightmost, then the backward pass over slots 1
      up to the rightmost, then the plugboard again (applied forward). The
      new machine state is returned with the output index. */
  function Convert(m: Machine, c: int): (r: Result<(nat, Machine)>)
    requires Linked(m)
    ensures m.plug.None? ==> r == Err(NullPlugboard)
    ensures r.Ok? ==> Linked(r.value.1) && SameButSettings(m, r.value.1)
    ensures r.Ok? && Unpadded(m.plug.value.alphabet.chars) ==> r.value.0 < m.plug.value.Size()
  {
    match m.plug
    case None => Err(NullPlugboard)
    case Some(plug) =>
      var c1 :- Permute(plug, c);
      var m' :- Step(m);
      var c2 :- Down(Stage(m', true), |m'.slots|, c1);
      var c3 :- Up(Stage(m', false), 1, |m'.slots|, c2);
      var c4 :- Permute(plug, c3);
      Ok((c4, m'))
  }
}
