/** What configuring a machine does: which rotor each slot ends up with and
    which setting each rotor ends up in, including when slots share a rotor. */
module SetupLaws {
  import opened Errors
  import opened Text
  import opened Alphabets
  import opened PermutationLaws
  import opened Rotors
  import opened Machines

  /** Slot `j` is bound, and no slot to its right is bound to the same rotor:
      its write to that rotor is the last one `setRotors` makes. */
  ghost predicate LastBinding(slots: seq<Option<nat>>, j: nat) {
    j < |slots| && slots[j].Some? && forall l :: j < l < |slots| ==> slots[l] != slots[j]
  }

  /** No slot from `i` on is bound to rotor `k`. */
  ghost predicate UnboundFrom(slots: seq<Option<nat>>, i: nat, k: nat) {
    forall j :: i <= j < |slots| ==> slots[j] != Some(k)
  }

  /** No two slots are bound to the same rotor. */
  ghost predicate SlotsDistinct(m: Machine) {
    forall i, j :: 0 <= i < j < |m.slots| && m.slots[i].Some? ==> m.slots[j] != m.slots[i]
  }

  /** The loop of `setRotors` from slot `i` succeeds exactly when every slot from
      `i` on is ready, and otherwise fails with the fault of the first slot that is not. */
  lemma {:induction false} SetFromOutcome(m: Machine, setting: string, i: nat)
    requires Linked(m) && 1 <= i
    ensures SetFrom(m, setting, i).Ok? <==> forall j :: i <= j < |m.slots| ==> SlotReady(m, setting, j)
    ensures SetFrom(m, setting, i).Err? ==>
      exists j :: i <= j < |m.slots| && !SlotReady(m, setting, j) &&
        (forall l :: i <= l < j ==> SlotReady(m, setting, l)) &&
        SetFrom(m, setting, i).error == Fault(m, setting, j)
    decreases |m.slots| - i
  {
    if i < |m.slots| && SlotReady(m, setting, i) {
      var k := m.slots[i].value;
      var v := ToInt(m.alphabet, setting[i - 1]).value;
      var m' := m.(catalog := m.catalog[k := Set(m.catalog[k], v)]);
      SetFromOutcome(m', setting, i + 1);
      assert forall j :: i < j < |m.slots| ==> SlotReady(m', setting, j) == SlotReady(m, setting, j);
      assert forall j :: i < j ==> Fault(m', setting, j) == Fault(m, setting, j);
    }
  }

  /** Setting slot `i`'s rotor leaves every slot's readiness as it was. */
  lemma SetOneKeepsReady(m: Machine, setting: string, i: nat, k: nat, v: nat)
    requires Linked(m) && 1 <= i && k < |m.catalog|
    ensures var m' := m.(catalog := m.catalog[k := Set(m.catalog[k], v)]);
      Linked(m') && forall j :: 1 <= j < |m.slots| ==> SlotReady(m', setting, j) == SlotReady(m, setting, j)
  {
  }

  /** A `setRotors` loop from slot `i` over ready slots that ends in `r` leaves
      every rotor bound to no slot from `i` on untouched. */
  lemma {:induction false} SetFromUntouched(m: Machine, setting: string, i: nat, r: Machine)
    requires Linked(m) && 1 <= i
    requires forall j :: i <= j < |m.slots| ==> SlotReady(m, setting, j)
    requires SetFrom(m, setting, i) == Ok(r)
    ensures |r.catalog| == |m.catalog|
    ensures forall k {:trigger UnboundFrom(m.slots, i, k)} :: 0 <= k < |m.catalog| && UnboundFrom(m.slots, i, k) ==> r.catalog[k] == m.catalog[k]
    decreases |m.slots| - i
  {
    if i < |m.slots| {
      var m' := SetFromReady(m, setting, i);
      SetFromUntouched(m', setting, i + 1, r);
      forall k | 0 <= k < |m.catalog| && UnboundFrom(m.slots, i, k)
        ensures r.catalog[k] == m.catalog[k]
      {
        assert m.slots[i] != Some(k);
        assert UnboundFrom(m.slots, i + 1, k);
      }
    }
  }

  /** A `setRotors` loop from slot `i` over ready slots that ends in `r` leaves
      the rotor of every slot whose write comes last at the index of that slot's
      setting character. */
  lemma {:induction false} SetFromLastWrites(m: Machine, setting: string, i: nat, r: Machine)
    requires Linked(m) && 1 <= i
    requires forall j :: i <= j < |m.slots| ==> SlotReady(m, setting, j)
    requires SetFrom(m, setting, i) == Ok(r)
    ensures forall j {:trigger LastBinding(m.slots, j)} :: i <= j < |m.slots| && SlotReady(m, setting, j) && LastBinding(m.slots, j) ==>
      Ok(r.catalog[m.slots[j].value].setting) == ToInt(m.alphabet, setting[j - 1])
    decreases |m.slots| - i
  {
    if i < |m.slots| {
      assert SlotReady(m, setting, i);
      var k0 := m.slots[i].value;
      var m' := SetFromReady(m, setting, i);
      SetFromLastWrites(m', setting, i + 1, r);
      SetFromUntouched(m', setting, i + 1, r);
      forall j | i <= j < |m.slots| && SlotReady(m, setting, j) && LastBinding(m.slots, j)
        ensures Ok(r.catalog[m.slots[j].value].setting) == ToInt(m.alphabet, setting[j - 1])
      {
        if j == i {
          LastWriteHere(m.slots, i);
          assert r.catalog[k0] == m'.catalog[k0];
        } else {
          assert SlotReady(m', setting, j) && LastBinding(m'.slots, j);
        }
      }
    }
  }

  /** A slot whose write comes last shares its rotor with no slot to its right. */
  lemma LastWriteHere(slots: seq<Option<nat>>, i: nat)
    requires LastBinding(slots, i)
    ensures UnboundFrom(slots, i + 1, slots[i].value)
  {
    forall j | i + 1 <= j < |slots|
      ensures slots[j] != Some(slots[i].value)
    {
      assert slots[j] != slots[i];
    }
  }

  /** After a `setRotors` loop from slot `i` over ready slots, the rotor of every
      slot whose write comes last holds the index of that slot's setting
      character, and every rotor bound to no slot from `i` on is untouched. */
  lemma SetFromSettings(m: Machine, setting: string, i: nat) returns (r: Machine)
    requires Linked(m) && 1 <= i
    requires forall j :: i <= j < |m.slots| ==> SlotReady(m, setting, j)
    ensures SetFrom(m, setting, i) == Ok(r) && |r.catalog| == |m.catalog|
    ensures forall j {:trigger LastBinding(m.slots, j)} :: i <= j < |m.slots| && SlotReady(m, setting, j) && LastBinding(m.slots, j) ==>
      Ok(r.catalog[m.slots[j].value].setting) == ToInt(m.alphabet, setting[j - 1])
    ensures forall k {:trigger UnboundFrom(m.slots, i, k)} :: 0 <= k < |m.catalog| && UnboundFrom(m.slots, i, k) ==> r.catalog[k] == m.catalog[k]
  {
    SetFromOutcome(m, setting, i);
    r := SetFrom(m, setting, i).value;
    SetFromLastWrites(m, setting, i, r);
    SetFromUntouched(m, setting, i, r);
  }

  /** One ready slot `i`: the loop sets its rotor to the index of its character,
      touches no other rotor and carries on from slot `i + 1`. */
  lemma SetFromReady(m: Machine, setting: string, i: nat) returns (m': Machine)
    requires Linked(m) && 1 <= i < |m.slots| && SlotReady(m, setting, i)
    ensures Linked(m') && SetFrom(m, setting, i) == SetFrom(m', setting, i + 1)
    ensures m'.slots == m.slots && m'.alphabet == m.alphabet && |m'.catalog| == |m.catalog|
    ensures Ok(m'.catalog[m.slots[i].value].setting) == ToInt(m.alphabet, setting[i - 1])
    ensures forall k :: 0 <= k < |m.catalog| && k != m.slots[i].value ==> m'.catalog[k] == m.catalog[k]
    ensures forall j :: 1 <= j < |m.slots| ==> SlotReady(m', setting, j) == SlotReady(m, setting, j)
  {
    var k := m.slots[i].value;
    var v := ToInt(m.alphabet, setting[i - 1]).value;
    m' := m.(catalog := m.catalog[k := Set(m.catalog[k], v)]);
    SetOneKeepsReady(m, setting, i, k, v);
  }

  /** `setRotors` on slots bound to distinct rotors: the rotor of slot `i >= 1`
      gets the index of `setting[i - 1]`; slot 0's rotor and every rotor in no
      slot keep their settings. */
  lemma SetRotorsDistinct(m: Machine, setting: string) returns (r: Machine)
    requires Linked(m) && SlotsDistinct(m)
    requires forall j :: 1 <= j < |m.slots| ==> SlotReady(m, setting, j)
    ensures SetRotors(m, setting) == Ok(r) && |r.catalog| == |m.catalog|
    ensures forall j :: 1 <= j < |m.slots| && SlotReady(m, setting, j) ==>
      Ok(r.catalog[m.slots[j].value].setting) == ToInt(m.alphabet, setting[j - 1])
    ensures |m.slots| > 0 && m.slots[0].Some? ==> r.catalog[m.slots[0].value] == m.catalog[m.slots[0].value]
    ensures forall k :: 0 <= k < |m.catalog| && UnboundFrom(m.slots, 0, k) ==> r.catalog[k] == m.catalog[k]
  {
    r := SetFromSettings(m, setting, 1);
    forall j | 1 <= j < |m.slots| && SlotReady(m, setting, j)
      ensures LastBinding(m.slots, j)
    {
    }
    if |m.slots| > 0 && m.slots[0].Some? {
      assert UnboundFrom(m.slots, 1, m.slots[0].value);
    }
    forall k | 0 <= k < |m.catalog| && UnboundFrom(m.slots, 0, k)
      ensures r.catalog[k] == m.catalog[k]
    {
      assert UnboundFrom(m.slots, 1, k);
    }
  }

  /** A rotor named `name` with no such rotor before it is the one `insertRotors` finds. */
  lemma FindRotorFirst(catalog: seq<Rotor>, name: string, k: nat)
    requires k < |catalog| && Named(catalog, k, name)
    requires forall j :: 0 <= j < k ==> !Named(catalog, j, name)
    ensures FindRotor(catalog, name) == Some(k)
  {
    assert !NoneNamed(catalog, name);
  }

  /** The five catalog names of the configuration test, each found at its own index. */
  lemma FindFiveNames(catalog: seq<Rotor>)
    requires |catalog| == 5
    requires catalog[0].name == "I" && catalog[1].name == "II" && catalog[2].name == "III"
    requires catalog[3].name == "IV" && catalog[4].name == "V"
    ensures FindRotor(catalog, "I") == Some(0) && FindRotor(catalog, "II") == Some(1)
    ensures FindRotor(catalog, "III") == Some(2) && FindRotor(catalog, "IV") == Some(3)
    ensures FindRotor(catalog, "V") == Some(4)
  {
    FindRotorFirst(catalog, "I", 0);
    assert !Named(catalog, 0, "II");
    FindRotorFirst(catalog, "II", 1);
    assert !Named(catalog, 0, "III") && !Named(catalog, 1, "III");
    FindRotorFirst(catalog, "III", 2);
    assert !Named(catalog, 0, "IV") && !Named(catalog, 2, "IV");
    assert !Named(catalog, 1, "IV") by {
      assert UpperChar(catalog[1].name[1]) != UpperChar("IV"[1]);
    }
    FindRotorFirst(catalog, "IV", 3);
    assert !Named(catalog, 1, "V") && !Named(catalog, 2, "V") && !Named(catalog, 3, "V");
    assert !Named(catalog, 0, "V") by {
      assert UpperChar(catalog[0].name[0]) != UpperChar("V"[0]);
    }
    FindRotorFirst(catalog, "V", 4);
  }

  /** Inserting "I" to "V" into a fresh five-slot machine binds slot `i` to catalog rotor `i`. */
  lemma InsertFiveNames(catalog: seq<Rotor>) returns (m: Machine)
    requires |catalog| == 5
    requires catalog[0].name == "I" && catalog[1].name == "II" && catalog[2].name == "III"
    requires catalog[3].name == "IV" && catalog[4].name == "V"
    ensures NewMachine(Upper, 5, 3, catalog).Ok?
    ensures InsertRotors(NewMachine(Upper, 5, 3, catalog).value, ["I", "II", "III", "IV", "V"]) == Ok(m)
    ensures Linked(m) && m.alphabet == Upper && m.catalog == catalog && |m.slots| == 5
    ensures forall i :: 0 <= i < 5 ==> m.slots[i] == Some(i)
  {
    var names := ["I", "II", "III", "IV", "V"];
    FindFiveNames(catalog);
    m := InsertRotors(NewMachine(Upper, 5, 3, catalog).value, names).value;
    forall i | 0 <= i < 5
      ensures m.slots[i] == Some(i)
    {
      assert FindRotor(catalog, names[i]) == Some(i);
    }
  }

  /** "AXLE" read in the upper-case alphabet: indices 0, 23, 11, 4. */
  lemma AxleIndices()
    ensures ToInt(Upper, "AXLE"[0]) == Ok(0) && ToInt(Upper, "AXLE"[1]) == Ok(23)
    ensures ToInt(Upper, "AXLE"[2]) == Ok(11) && ToInt(Upper, "AXLE"[3]) == Ok(4)
  {
    UpperIsValid();
    ToIntAt(Upper, 0);
    ToIntAt(Upper, 23);
    ToIntAt(Upper, 11);
    ToIntAt(Upper, 4);
  }

  /** The configuration test: five rotors named "I" to "V" in the catalog, all
      in setting 0, inserted by name into a five-slot machine over the upper-case
      alphabet, and set from "AXLE", leave the slots at settings 0, 0, 23, 11, 4. */
  lemma AxleConfiguration(catalog: seq<Rotor>) returns (m: Machine)
    requires |catalog| == 5
    requires catalog[0].name == "I" && catalog[1].name == "II" && catalog[2].name == "III"
    requires catalog[3].name == "IV" && catalog[4].name == "V"
    requires catalog[0].setting == 0
    ensures NewMachine(Upper, 5, 3, catalog).Ok?
    ensures InsertRotors(NewMachine(Upper, 5, 3, catalog).value, ["I", "II", "III", "IV", "V"]).Ok?
    ensures SetRotors(InsertRotors(NewMachine(Upper, 5, 3, catalog).value, ["I", "II", "III", "IV", "V"]).value, "AXLE") == Ok(m)
    ensures NumRotors(m) == 5 && forall i :: 0 <= i < 5 ==> m.slots[i] == Some(i)
    ensures m.catalog[0].setting == 0 && m.catalog[1].setting == 0 && m.catalog[2].setting == 23
    ensures m.catalog[3].setting == 11 && m.catalog[4].setting == 4
  {
    var m1 := InsertFiveNames(catalog);
    AxleIndices();
    UpperIsValid();
    assert forall j :: 1 <= j < 5 ==> SlotReady(m1, "AXLE", j);
    m := SetRotorsDistinct(m1, "AXLE");
    assert SlotReady(m1, "AXLE", 1) && SlotReady(m1, "AXLE", 2);
    assert SlotReady(m1, "AXLE", 3) && SlotReady(m1, "AXLE", 4);
    assert m1.slots[0] == Some(0);
  }
}
