/** `convert(String msg)`: a message is stripped of blanks and upper-cased,
    each remaining character goes through one keypress (which steps the
    machine), and the output is laid out in groups of five separated by
    single blanks.

    The laws of a whole message are proved once for any keypress function
    threading a state (`Thread`), and then applied to the machine's keypress. */
module Messages {
  import opened Errors
  import opened Text
  import opened Alphabets
  import opened Machines
  import opened Stepping
  import opened Reciprocity

  /** A machine whose bound slots all refer into its catalog: the states a
      message is enciphered from. */
  type LinkedMachine = m: Machine | Linked(m) witness Machine(Alphabet(""), 0, [], [], None)

  /** One keypress on a character: `toInt`, then `convert(int)`, then `toChar`. */
  function KeyPress(m: LinkedMachine, ch: char): (r: Result<(char, LinkedMachine)>)
    ensures ch !in m.alphabet.chars ==> r == Err(NotInAlphabet)
    ensures m.plug.None? ==> r.Err?
    ensures r.Ok? ==> r.value.0 in m.alphabet.chars && SameButSettings(m, r.value.1)
  {
    var x :- ToInt(m.alphabet, ch);
    var p :- Convert(m, x);
    var y :- ToChar(m.alphabet, p.0);
    Ok((y, p.1))
  }

  /** The keypresses of a text in order, each from the state the previous one
      left; the first failure ends the text. */
  function Thread<S>(key: (S, char) -> Result<(char, S)>, st: S, s: string): (r: Result<(string, S)>)
    ensures r.Ok? ==> |r.value.0| == |s|
    decreases |s|
  {
    if |s| == 0 then Ok(([], st))
    else
      var p :- key(st, s[0]);
      var q :- Thread(key, p.1, s[1..]);
      Ok(([p.0] + q.0, q.1))
  }

  /** Threading a text in two parts carries the state from the first part into
      the second: the same output and final state as threading it whole, and
      the first failure if there is one. */
  lemma {:induction false} ThreadAppend<S>(key: (S, char) -> Result<(char, S)>, st: S, a: string, b: string)
    ensures Thread(key, st, a + b) ==
      (var p :- Thread(key, st, a);
       var q :- Thread(key, p.1, b);
       Ok((p.0 + q.0, q.1)))
    decreases |a|
  {
    if |a| == 0 {
      assert a + b == b;
      match Thread(key, st, b)
      case Err(_) =>
      case Ok(q) => assert [] + q.0 == q.0;
    } else {
      assert (a + b)[0] == a[0];
      assert (a + b)[1..] == a[1..] + b;
      match key(st, a[0])
      case Err(_) =>
      case Ok(p) =>
        ThreadAppend(key, p.1, a[1..], b);
        match Thread(key, p.1, a[1..])
        case Err(_) =>
        case Ok(q) =>
          match Thread(key, q.1, b)
          case Err(_) =>
          case Ok(w) =>
            assert [p.0] + (q.0 + w.0) == ([p.0] + q.0) + w.0;
    }
  }

  /** A keypress from a state satisfying `inv` leaves a state satisfying `inv`. */
  ghost predicate KeepsAt<S>(key: (S, char) -> Result<(char, S)>, inv: S -> bool, a: S, c: char) {
    inv(a) && key(a, c).Ok? ==> inv(key(a, c).value.1)
  }

  /** A state property every keypress keeps holds after a whole text. */
  lemma {:induction false} ThreadKeeps<S>(key: (S, char) -> Result<(char, S)>, inv: S -> bool, st: S, s: string)
    requires inv(st)
    requires forall a, c :: KeepsAt(key, inv, a, c)
    ensures Thread(key, st, s).Ok? ==> inv(Thread(key, st, s).value.1)
    decreases |s|
  {
    if |s| > 0 {
      assert KeepsAt(key, inv, st, s[0]);
      match key(st, s[0])
      case Err(_) =>
      case Ok(p) => ThreadKeeps(key, inv, p.1, s[1..]);
    }
  }

  /** From a state satisfying `inv`, the keypress of a character satisfying
      `ok` succeeds with such a character and such a state, and from the same
      state the output character's keypress gives the input back and the same
      state. */
  ghost predicate ReversesAt<S>(key: (S, char) -> Result<(char, S)>, inv: S -> bool, ok: char -> bool, a: S, c: char) {
    inv(a) && ok(c) ==>
      key(a, c).Ok? && ok(key(a, c).value.0) && inv(key(a, c).value.1) &&
      key(a, key(a, c).value.0) == Ok((c, key(a, c).value.1))
  }

  /** When every keypress reverses itself, so does every text: threading the
      output from the same starting state gives the text back and ends in the
      same state. */
  lemma {:induction false} ThreadReverses<S>(key: (S, char) -> Result<(char, S)>, inv: S -> bool, ok: char -> bool, st: S, s: string)
    requires inv(st)
    requires forall k :: 0 <= k < |s| ==> ok(s[k])
    requires forall a, c :: ReversesAt(key, inv, ok, a, c)
    ensures Thread(key, st, s).Ok?
    ensures forall k :: 0 <= k < |s| ==> ok(Thread(key, st, s).value.0[k])
    ensures Thread(key, st, Thread(key, st, s).value.0) == Ok((s, Thread(key, st, s).value.1))
    decreases |s|
  {
    if |s| > 0 {
      assert ReversesAt(key, inv, ok, st, s[0]);
      var p := key(st, s[0]).value;
      ThreadReverses(key, inv, ok, p.1, s[1..]);
      var q := Thread(key, p.1, s[1..]).value;
      var out := [p.0] + q.0;
      assert out[0] == p.0 && out[1..] == q.0;
      assert [s[0]] + s[1..] == s;
    }
  }

  /** The blanks removed and the rest upper-cased, as `convert(String)` does
      first. */
  function Clean(msg: string): (r: string)
    ensures |r| <= |msg| && ' ' !in r
  {
    ToUpper(Remove(msg, {' '}))
  }

  /** Text with no blank and no lower-case letter is already clean. */
  lemma CleanClean(s: string)
    requires forall k :: 0 <= k < |s| ==> s[k] != ' ' && !('a' <= s[k] <= 'z')
    ensures Clean(s) == s
  {
    RemoveNothing(s, {' '});
  }

  /** The output layout: a blank after every fifth character, none at the end. */
  function Group(s: string): string
    decreases |s|
  {
    if |s| <= 5 then s else s[..5] + " " + Group(s[5..])
  }

  /** The laid-out text is one blank per complete group of five longer,
      not counting the last group. */
  lemma {:induction false} GroupLength(s: string)
    ensures |Group(s)| == if |s| == 0 then 0 else |s| + (|s| - 1) / 5
    decreases |s|
  {
    if |s| > 5 {
      GroupLength(s[5..]);
    }
  }

  /** Position by position: every sixth character is a blank, and the others
      are the message's characters in order. */
  lemma {:induction false} GroupAt(s: string, i: nat)
    requires i < |Group(s)|
    ensures i % 6 == 5 ==> Group(s)[i] == ' '
    ensures i % 6 != 5 ==> i - i / 6 < |s| && Group(s)[i] == s[i - i / 6]
    decreases |s|
  {
    if |s| > 5 && i >= 6 {
      GroupAt(s[5..], i - 6);
    }
  }

  /** One more character extends the layout, after a blank when it starts a new group. */
  lemma {:induction false} GroupSnoc(t: string, c: char)
    ensures Group(t + [c]) == if |t| > 0 && |t| % 5 == 0 then Group(t) + " " + [c] else Group(t) + [c]
    decreases |t|
  {
    if |t| == 5 {
      assert (t + [c])[..5] == t && (t + [c])[5..] == [c];
    } else if |t| > 5 {
      assert (t + [c])[..5] == t[..5];
      assert (t + [c])[5..] == t[5..] + [c];
      GroupSnoc(t[5..], c);
    }
  }

  /** Removing the blanks from the layout of a blank-free text gives the text back. */
  lemma {:induction false} UngroupGroup(s: string)
    requires ' ' !in s
    ensures Remove(Group(s), {' '}) == s
    decreases |s|
  {
    if |s| > 5 {
      UngroupGroup(s[5..]);
      RemoveAppend(s[..5] + " ", Group(s[5..]), {' '});
      RemoveAppend(s[..5], " ", {' '});
      RemoveNothing(s[..5], {' '});
      assert s[..5] + s[5..] == s;
    } else {
      RemoveNothing(s, {' '});
    }
  }

  /** Removing characters that do not occur changes nothing. */
  lemma {:induction false} RemoveNothing(s: string, drop: set<char>)
    requires forall c :: c in s ==> c !in drop
    ensures Remove(s, drop) == s
    decreases |s|
  {
    if |s| > 0 {
      RemoveNothing(s[1..], drop);
      assert [s[0]] + s[1..] == s;
    }
  }

  /** `convert(String msg)` for any keypress: the cleaned message threaded
      and laid out in groups of five, with the state after the last keypress. */
  function Grouped<S>(key: (S, char) -> Result<(char, S)>, st: S, msg: string): (r: Result<(string, S)>)
    ensures r.Ok? ==> |r.value.0| == (if |Clean(msg)| == 0 then 0 else |Clean(msg)| + (|Clean(msg)| - 1) / 5)
    ensures r.Ok? <==> Thread(key, st, Clean(msg)).Ok?
  {
    var p :- Thread(key, st, Clean(msg));
    GroupLength(p.0);
    Ok((Group(p.0), p.1))
  }

  /** Two messages in a row: the second starts from the state the first left,
      so its keypresses are those of the two cleaned messages threaded as one
      text, while its layout starts a fresh group count with its own first
      character. */
  lemma SecondMessage<S>(key: (S, char) -> Result<(char, S)>, st: S, a: string, b: string, x: string, s1: S)
    requires Grouped(key, st, a) == Ok((x, s1))
    ensures Grouped(key, s1, b) ==
      (var t :- Thread(key, st, Clean(a) + Clean(b)); Ok((Group(t.0[|Clean(a)|..]), t.1)))
  {
    ThreadAppend(key, st, Clean(a), Clean(b));
    var u := Thread(key, st, Clean(a)).value.0;
    match Thread(key, s1, Clean(b))
    case Err(_) =>
    case Ok(v) => assert (u + v.0)[|Clean(a)|..] == v.0;
  }

  /** The one-character text is the keypress itself. */
  lemma ThreadOne<S>(key: (S, char) -> Result<(char, S)>, st: S, c: char)
    ensures Thread(key, st, [c]) == (var p :- key(st, c); Ok(([p.0], p.1)))
  {
    match key(st, c)
    case Err(_) =>
    case Ok(p) =>
      assert [c][1..] == [];
      assert [p.0] + [] == [p.0];
  }

  /** The loop's output so far: the layout of the `i` characters converted,
      with `blanks` counting the characters since the last blank; or, right
      after the blank that ends a group of five, that layout and the blank. */
  ghost predicate Laid(ret: string, out: string, blanks: int, i: nat, n: nat) {
    (ret == Group(out) && blanks == (if i == 0 then 0 else (i - 1) % 5 + 1)) ||
    (blanks == 0 && 0 < i < n && i % 5 == 0 && ret == Group(out) + " ")
  }

  /** A converted character extends the layout. */
  lemma LaidChar(ret: string, out: string, blanks: int, i: nat, n: nat, y: char)
    requires Laid(ret, out, blanks, i, n) && |out| == i && blanks != 5 && i < n
    ensures Laid(ret + [y], out + [y], blanks + 1, i + 1, n)
  {
    GroupSnoc(out, y);
  }

  /** The blank after a fifth character. */
  lemma LaidBlank(ret: string, out: string, i: nat, n: nat)
    requires Laid(ret, out, 5, i, n) && i < n
    ensures Laid(ret + " ", out, 0, i, n)
  {
  }

  /** Threading one more character of a text extends the thread of its prefix,
      or fails as the whole text does. */
  lemma ThreadPrefix<S>(key: (S, char) -> Result<(char, S)>, st: S, s: string, i: nat, out: string, cur: S)
    requires i < |s| && Thread(key, st, s[..i]) == Ok((out, cur))
    ensures key(cur, s[i]).Ok? ==>
      Thread(key, st, s[..i + 1]) == Ok((out + [key(cur, s[i]).value.0], key(cur, s[i]).value.1))
    ensures key(cur, s[i]).Err? ==> Thread(key, st, s) == Err(key(cur, s[i]).error)
  {
    if key(cur, s[i]).Ok? {
      ThreadAppend(key, st, s[..i], [s[i]]);
      ThreadOne(key, cur, s[i]);
      assert s[..i] + [s[i]] == s[..i + 1];
    } else {
      ThreadAppend(key, st, s[..i], s[i..]);
      assert s[..i] + s[i..] == s;
      assert s[i..][0] == s[i];
    }
  }

  /** The loop of `convert(String)`, for any keypress: after every fifth
      character a blank is appended and the index stepped back, so that the
      character is read on the next round. It computes the cleaned message
      threaded and laid out in groups, or the first keypress's failure. */
  method ConvertLoop<S>(key: (S, char) -> Result<(char, S)>, st: S, msg: string) returns (r: Result<(string, S)>)
    ensures r == Grouped(key, st, msg)
  {
    var s := Clean(msg);
    var ret: string := "";
    var cur := st;
    var blanks := 0;
    var i: int := 0;
    ghost var out: string := "";
    while i < |s|
      invariant 0 <= i <= |s| && |out| == i
      invariant Thread(key, st, s[..i]) == Ok((out, cur))
      invariant Laid(ret, out, blanks, i, |s|)
      decreases 2 * (|s| - i) + (if blanks == 5 then 1 else 0)
    {
      if blanks == 5 {
        LaidBlank(ret, out, i, |s|);
        ret := ret + " ";
        i := i - 1;
        blanks := 0;
      } else {
        ThreadPrefix(key, st, s, i, out, cur);
        match key(cur, s[i])
        case Err(e) =>
          return Err(e);
        case Ok(p) =>
          LaidChar(ret, out, blanks, i, |s|, p.0);
          ret := ret + [p.0];
          out := out + [p.0];
          cur := p.1;
          blanks := blanks + 1;
      }
      i := i + 1;
    }
    assert s[..i] == s;
    r := Ok((ret, cur));
  }

  /** `convert(String)`'s loop run with the machine's keypress is `ConvertMessage`. */
  method ConvertString(m: LinkedMachine, msg: string) returns (r: Result<(string, LinkedMachine)>)
    ensures r == ConvertMessage(m, msg)
  {
    r := ConvertLoop(KeyPress, m, msg);
  }

  /** `convert(String msg)`: the cleaned message enciphered and laid out in
      groups of five, with the machine state after the last keypress. */
  function ConvertMessage(m: LinkedMachine, msg: string): Result<(string, LinkedMachine)> {
    Grouped(KeyPress, m, msg)
  }

  /** The states whose rotors differ from those of `m` in their settings only. */
  ghost function SameSetup(m: Machine): LinkedMachine -> bool {
    (a: LinkedMachine) => SameButSettings(m, a)
  }

  /** A whole message changes only rotor settings. */
  lemma MessageSettingsOnly(m: LinkedMachine, msg: string)
    ensures ConvertMessage(m, msg).Ok? ==> SameButSettings(m, ConvertMessage(m, msg).value.1)
  {
    forall a: LinkedMachine, c: char
      ensures KeepsAt(KeyPress, SameSetup(m), a, c)
    {
      if SameButSettings(m, a) && KeyPress(a, c).Ok? {
        SameButSettingsTrans(m, a, KeyPress(a, c).value.1);
      }
    }
    ThreadKeeps(KeyPress, SameSetup(m), m, Clean(msg));
  }

  /** The configuration in which a machine deciphers what it enciphers: a
      reciprocal plugboard and rotor path, stepping that cannot fail (two slots
      may share a rotor), a valid alphabet as large as the plugboard's, and
      alphabet characters that the cleaning of a message leaves alone. */
  ghost predicate Reversible(m: Machine) {
    Reciprocal(m) && Runnable(m) && Valid(m.alphabet) && Size(m.alphabet) == m.plug.value.Size() &&
    forall c :: c in m.alphabet.chars ==> c != ' ' && !('a' <= c <= 'z')
  }

  /** The keypresses of the output and the input index of a character agree
      once `convert(int)` maps each index to the other. */
  lemma KeyPressFromConvert(m: LinkedMachine, ch: char, x: nat, y: nat, m': LinkedMachine)
    requires Valid(m.alphabet) && ToInt(m.alphabet, ch) == Ok(x) && y < Size(m.alphabet)
    requires Convert(m, x) == Ok((y, m')) && Convert(m, y) == Ok((x, m'))
    ensures KeyPress(m, ch) == Ok((m.alphabet.chars[y], m'))
    ensures KeyPress(m, m.alphabet.chars[y]) == Ok((ch, m'))
  {
    ToIntOfToChar(m.alphabet, y);
  }

  /** The stepping of a keypress cannot fail on a reversible machine and keeps
      it reversible. */
  lemma ReversibleKept(m: Machine) returns (m': Machine)
    requires Reversible(m)
    ensures Step(m) == Ok(m') && Reversible(m') && m'.alphabet == m.alphabet
  {
    m' := StepKeepsRunnable(m);
    ReciprocalKept(m, m');
  }

  /** One keypress of a reversible machine on an alphabet character: the output
      character's keypress from the same state gives the input back, and the
      new state is reversible again. */
  lemma KeyPressReverses(m: LinkedMachine, ch: char) returns (out: char, m': LinkedMachine)
    requires Reversible(m) && ch in m.alphabet.chars
    ensures KeyPress(m, ch) == Ok((out, m')) && KeyPress(m, out) == Ok((ch, m'))
    ensures out in m.alphabet.chars && Reversible(m') && m'.alphabet == m.alphabet
  {
    var x := ToInt(m.alphabet, ch).value;
    var m1 := ReversibleKept(m);
    var y, m2 := ConvertPair(m, x);
    m' := m2;
    KeyPressFromConvert(m, ch, x, y, m');
    out := m.alphabet.chars[y];
  }

  /** The reversible states with the alphabet of `m`. */
  ghost function ReversibleLike(m: Machine): LinkedMachine -> bool {
    (a: LinkedMachine) => Reversible(a) && a.alphabet == m.alphabet
  }

  /** Membership in an alphabet, as a character test. */
  function InAlphabet(a: Alphabet): char -> bool {
    (c: char) => c in a.chars
  }

  /** Every keypress of every reversible machine with the alphabet of `m` reverses itself. */
  lemma KeyPressesReverse(m: Machine)
    ensures forall a, c :: ReversesAt(KeyPress, ReversibleLike(m), InAlphabet(m.alphabet), a, c)
  {
    forall a: LinkedMachine, c: char
      ensures ReversesAt(KeyPress, ReversibleLike(m), InAlphabet(m.alphabet), a, c)
    {
      if Reversible(a) && a.alphabet == m.alphabet && c in a.alphabet.chars {
        var out, m' := KeyPressReverses(a, c);
      }
    }
  }

  /** For any keypress that reverses itself on characters no cleaning
      changes, a message laid out in groups converts back to its cleaned
      text in groups, ending in the same state. */
  lemma {:induction false} GroupedReverses<S>(key: (S, char) -> Result<(char, S)>, inv: S -> bool, ok: char -> bool, st: S, msg: string)
    requires inv(st)
    requires forall k :: 0 <= k < |Clean(msg)| ==> ok(Clean(msg)[k])
    requires forall c :: ok(c) ==> c != ' ' && !('a' <= c <= 'z')
    requires forall a, c :: ReversesAt(key, inv, ok, a, c)
    ensures Grouped(key, st, msg).Ok?
    ensures Grouped(key, st, Grouped(key, st, msg).value.0) == Ok((Group(Clean(msg)), Grouped(key, st, msg).value.1))
  {
    var s := Clean(msg);
    ThreadReverses(key, inv, ok, st, s);
    var out := Thread(key, st, s).value.0;
    assert forall k :: 0 <= k < |out| ==> out[k] != ' ' && !('a' <= out[k] <= 'z');
    assert ' ' !in out;
    UngroupGroup(out);
    RemoveNothing(out, {' '});
    CleanClean(out);
    assert Clean(Group(out)) == out;
  }

  /** Reciprocity of a whole message: from the same starting state, converting
      the output gives back the cleaned message laid out in groups, and ends in
      the same state. */
  lemma MessageReverses(m: LinkedMachine, msg: string)
    requires Reversible(m)
    requires forall k :: 0 <= k < |Clean(msg)| ==> Clean(msg)[k] in m.alphabet.chars
    ensures ConvertMessage(m, msg).Ok?
    ensures ConvertMessage(m, ConvertMessage(m, msg).value.0) ==
      Ok((Group(Clean(msg)), ConvertMessage(m, msg).value.1))
  {
    KeyPressesReverse(m);
    GroupedReverses(KeyPress, ReversibleLike(m), InAlphabet(m.alphabet), m, msg);
  }
}
