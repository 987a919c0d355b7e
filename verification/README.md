# Enigma cipher engine in Dafny

A model of the cipher engine of a rotor-machine (Enigma) simulator:

- the **alphabet**, which maps characters to dense indices and back;
- the **permutation** in cycle notation, with its parser and its `permute` and `invert` operations;
- the **moving rotor**, with its notch test and one-step advance;
- the **machine**, which binds slots to rotors by name, sets rotor settings, and converts one index per keypress (plugboard, stepping, forward pass, backward pass, plugboard) and whole messages in groups of five.

Everything is an immutable value. Every Java exception on the engine's path becomes an `Err` of a typed error (`errors.dfy`), in the order Java would raise it:

- `error(...)` in `toChar` and `toInt`;
- the `ArithmeticException` of `% 0` on an empty alphabet;
- the `NullPointerException` of an unbound slot or an unset plugboard;
- array indices out of range;
- a setting string that is too short;
- a negative slot count.

The machine keeps its rotors in a catalog `seq<Rotor>` (the Java `Collection`, in iteration order). Its slots hold catalog indices. Java slots alias catalog objects, so a rotor bound to two slots is one rotor, and settings persist between setups. Every operation that moves a rotor writes the catalog entry.

Modules, leaves first:

- `Errors`: result and error types.
- `Text`: the `java.lang.String` operations used: `trim`, `indexOf`, character-class `replaceAll`, ASCII `toUpperCase`, one-character `split`.
- `Alphabets`.
- `Permutations` and `PermutationLaws`.
- `CycleStructure`: derangements, fixed points, involutions.
- `Rotors`.
- `Machines`.
- `SetupLaws`: `insertRotors` and `setRotors`.
- `Stepping`: the exact stepping rule.
- `Reciprocity`: a keypress is its own inverse.
- `Messages`: `convert(String)`, the grouped layout, and reciprocity of whole messages.

The base class `Rotor` and the classes `FixedRotor` and `Reflector` are outside the modelled core. They enter only through these assumptions:

- a rotor is `{name, perm, kind: Reflector | Fixed | Moving(notches), setting}`;
- `set` stores its argument unchecked;
- a rotor's `alphabet()` and `size()` are those of its permutation;
- non-moving kinds never rotate, are never at a notch, and do not move on `advance`;
- every rotor converts forward as `wrap(permute(wrap(p + setting)) - setting)`, and backward the same way with `invert`.

Where the Java documentation and the code differ, the model follows the code:

- The constructor's documentation asks for `1 < NUMROTORS` and `0 <= PAWLS < NUMROTORS` (enigma/Machine.java:12-13). The code checks neither, so the model does not require them. A negative slot count fails, as Java's array allocation does, and with 0 pawls the rightmost slot still advances.
- `insertRotors` (enigma/Machine.java:34-46) reads `rotors[i]` once per slot, so a name array at least as long as the slot array is enough. It reads no name at all when the catalog is empty.
- The `insertRotors` documentation says all rotors start at setting 0 (enigma/Machine.java:36), but the code never resets a setting, so settings persist between setups.
- `setRotors` is documented as taking "four upper-case letters" (enigma/Machine.java:48-50). The code reads one character per slot from slot 1 on through `toInt`, accepts any alphabet character, and never touches slot 0.
- The `Permutation` constructor's documentation says whitespace is ignored (enigma/Permutation.java:14). The code deletes only the space character and '(' (enigma/Permutation.java:18), so a tab or a newline stays inside a cycle. `Permutations.FromText` follows the code.
- `invert(char)` is declared `int` (enigma/Permutation.java:80-82) but returns the converted character. It is modelled as returning the character.

## Model

Some definitions carry no contract of their own because lemmas pin them down; they have no row:
- `Messages.ConvertMessage` is `convert(String)`; see `Messages.Grouped`, `Messages.ConvertString`, `Messages.MessageSettingsOnly` and `Messages.MessageReverses`.
- `Messages.Group` is the output layout in groups of five; see `Messages.GroupLength`, `Messages.GroupAt`, `Messages.GroupSnoc` and `Messages.UngroupGroup`.
- `Permutations.Derangement` is `derangement()`; see `CycleStructure.DerangementIffCovering`, `CycleStructure.DerangementIffNoFixedPoint` and the Findings row for enigma/Permutation.java:89-100.
- `Permutations.GetCycles` is `getCycles()`; see `Permutations.AddCycle` and `PermutationLaws.AddCycleIntended`.
- `Machines.NumRotors` and `Machines.NumPawls` are `numRotors()` and `numPawls()`; see `Machines.NewMachine` and `SetupLaws.InsertFiveNames`.

| member | source | states |
|---|---|---|
| Text.Trim | enigma/Alphabet.java:23-25 | `String.trim` never lengthens a string |
| Text.TrimSpec | enigma/Alphabet.java:23-25 | `trim` returns the infix left after removing only blanks from both ends, and that infix has no blank at either end |
| Text.TrimUnpadded | enigma/Alphabet.java:23-25 | a string with no blank at either end is its own trim |
| Text.TrimmedLength | enigma/Alphabet.java:23-25 | the trimmed length is at most the length, and equals it for an unpadded string |
| Text.TrimmedLengthIsTrim | enigma/Alphabet.java:23-25 | the counted length is exactly the length of `trim()` |
| Text.IndexOf | enigma/Alphabet.java:28-30 | `indexOf(c)` is -1 exactly when `c` is absent; otherwise it is a position holding `c` with no earlier `c` |
| Text.IndexFrom | enigma/Alphabet.java:42-47 | the scan from position k is -1 exactly when no position from k on holds `c`; otherwise it is the first such position |
| Text.IndexOfDistinct | enigma/Alphabet.java:16-17 | in a duplicate-free string, `indexOf` of the character at position i is i |
| Text.Remove | enigma/Permutation.java:18 | after `replaceAll` of a character class, a character occurs exactly when it occurs in the text and is outside the class; the text never grows |
| Text.RemoveAppend | enigma/Machine.java:88 | deleting characters commutes with concatenation |
| Text.UpperChar | enigma/Machine.java:88 | the upper case of a character is never a lower-case letter; it is the character itself exactly when that is not a lower-case letter, and a lower-case letter becomes the capital at the same place in the alphabet |
| Text.ToUpper | enigma/Machine.java:88 | the upper-cased string has the same length, equals the string ignoring case, holds no lower-case letter, and keeps every character that is not a lower-case letter |
| Text.ToUpperAppend | enigma/Machine.java:88 | upper-casing distributes over concatenation |
| Text.ToUpperIdempotent | enigma/Machine.java:88 | upper-casing an upper-cased string changes nothing |
| Text.SplitAll | enigma/Permutation.java:18 | the pieces between separators contain no separator and join back to the text |
| Text.JoinDropTrailingEmpty | enigma/Permutation.java:18 | dropping trailing empty pieces drops exactly the trailing separators of the joined text |
| Text.Split | enigma/Permutation.java:18 | `split(")")`: no separator gives the text as one piece; otherwise the last piece kept is non-empty; no piece contains the separator; the pieces join to the text without its trailing separators; every piece character comes from the text |
| Alphabets.Size | enigma/Alphabet.java:23-25 | `size()` is at most the length of the string, and equals it for an unpadded alphabet |
| Alphabets.SizeIsTrimmedLength | enigma/Alphabet.java:23-25 | `size()` is the length of the trimmed string |
| Alphabets.Contains | enigma/Alphabet.java:28-30 | `contains(c)` holds exactly when `c` occurs in the string |
| Alphabets.ToChar | enigma/Alphabet.java:34-39 | `toChar(i)` succeeds exactly for `0 <= i < size()`, with the i-th character; otherwise it fails with an out-of-range error |
| Alphabets.ToInt | enigma/Alphabet.java:42-47 | `toInt(c)` succeeds exactly when `c` occurs, with the first position of `c`; otherwise it fails with not-in-alphabet |
| Alphabets.ContainsIffToInt | enigma/Alphabet.java:28-47 | `contains` holds exactly where `toInt` succeeds |
| Alphabets.ToIntOfToChar | enigma/Alphabet.java:16-47 | for a duplicate-free, unpadded alphabet, `toInt(toChar(i)) == i` for every in-range i |
| Alphabets.ToCharOfToInt | enigma/Alphabet.java:34-47 | for an unpadded alphabet, `toChar(toInt(c)) == c` for every contained c |
| Alphabets.ToIntInjective | enigma/Alphabet.java:42-47 | in a valid alphabet, two characters with the same index are equal |
| Alphabets.UpperIsValid | enigma/UnitTest.java:110 | the upper-case Latin alphabet is valid, has size 26, and holds 'A'+i at index i |
| Alphabets.UpperLookups | enigma/UnitTest.java:109-114 | `toChar(0) == 'A'`, `toChar(25) == 'Z'`, `toInt('Z') == 25`; index 26, index -1 and 'a' fail |
| Permutations.FromText | enigma/Permutation.java:15-19 | the constructor keeps the alphabet and the text. No parsed cycle holds ' ', '(' or ')'. The cycles join with ')' to the text minus spaces and '(' and minus trailing ')'. A text without ')' is one cycle |
| Permutations.AddCycle | enigma/Permutation.java:23-25 | `getCycles()` grows by `" (" + cycle + ")"`, while `permute`, `invert` (index and character forms) and `derangement` give the same answers as before |
| Permutations.JavaRemNegative | enigma/Permutation.java:28-34 | for negative x, Java's truncating remainder, moved up by n when negative, is the true modulus |
| Permutations.Wrap | enigma/Permutation.java:28-34 | `wrap(p)` lies in `[0, size())` |
| Permutations.WrapIsMod | enigma/Permutation.java:28-34 | `wrap(p)` is `p mod size()`, negative p included |
| Permutations.Locate | enigma/Permutation.java:44-46 | the scan finds nothing exactly when no cycle holds the character; otherwise it gives the first cycle holding it and the first offset of the character there |
| Permutations.Permute | enigma/Permutation.java:43-55 | `permute` fails with division by zero exactly for an empty alphabet; any other failure is not-in-alphabet. It succeeds when every cycle character is in a non-empty alphabet. On an unpadded alphabet a result lies below `size()` |
| Permutations.Invert | enigma/Permutation.java:59-71 | as `Permute`, for `invert` |
| Permutations.PermuteChar | enigma/Permutation.java:75-77 | a character outside the alphabet fails; a member of a well-formed alphabet maps to a member |
| Permutations.InvertChar | enigma/Permutation.java:80-82 | as `PermuteChar`, for `invert(char)`, which returns a character |
| PermutationLaws.WrapInRange | enigma/Permutation.java:28-34 | `wrap` leaves an in-range index alone |
| PermutationLaws.WrapOfSum | enigma/Permutation.java:28-34 | wrapping a summand first does not change the wrapped sum |
| PermutationLaws.NextIsModular | enigma/Permutation.java:47-50 | the successor in a cycle is the member one place on, modulo the cycle length |
| PermutationLaws.PrevIsModular | enigma/Permutation.java:63-66 | the predecessor in a cycle is the member one place back, modulo the cycle length |
| PermutationLaws.LocateMember | enigma/Permutation.java:45-46 | in disjoint cycles, a member is found at the cycle and offset where it is written |
| PermutationLaws.PermuteSuccessor | enigma/Permutation.java:43-55 | `permute` maps each cycle member to the next member and the last member to the first |
| PermutationLaws.InvertPredecessor | enigma/Permutation.java:59-71 | `invert` maps each cycle member to the previous member and the first member to the last |
| PermutationLaws.FixedOutsideCycles | enigma/Permutation.java:43-71 | an index whose character is in no cycle maps to its wrapped self under both `permute` and `invert` |
| PermutationLaws.EmptyTextIsIdentity | enigma/PermutationTest.java:86-90 | empty cycle text parses to one empty cycle, and both operations are then the identity up to wrapping |
| PermutationLaws.InvertAfterPermute | enigma/PermutationTest.java:28-44 | for well-formed cycles, `invert(permute(p)) == wrap(p)` for every p |
| PermutationLaws.PermuteAfterInvert | enigma/PermutationTest.java:28-44 | for well-formed cycles, `permute(invert(p)) == wrap(p)` for every p |
| PermutationLaws.InvertUndoesPermute | enigma/Permutation.java:43-71 | on an in-range index, `invert` sends the result of `permute` back |
| PermutationLaws.PermuteUndoesInvert | enigma/Permutation.java:43-71 | on an in-range index, `permute` sends the result of `invert` back |
| PermutationLaws.PermuteCharAgrees | enigma/Permutation.java:75-77 | `permute(char)` is `toChar(permute(toInt(c)))` and cannot fail on a member |
| PermutationLaws.InvertCharAgrees | enigma/Permutation.java:80-82 | `invert(char)` is `toChar(invert(toInt(c)))` and cannot fail on a member |
| PermutationLaws.InvertCharAfterPermuteChar | enigma/PermutationTest.java:28-44 | the character forms undo each other on every member |
| PermutationLaws.AddCycleIntended | enigma/Permutation.java:21-25 | the documented `addCycle`: the same `getCycles()` text as the code's, and the cycle list grows by the new cycle after the old ones |
| PermutationLaws.AddCycleSuccessor | enigma/Permutation.java:21-25 | with the documented `addCycle`, `permute` sends each member of the added cycle to the next, the last to the first |
| PermutationLaws.AddCyclePredecessor | enigma/Permutation.java:21-25 | with the documented `addCycle`, `invert` sends each member of the added cycle to the one before, the first to the last |
| PermutationLaws.AddCycleKeepsOthers | enigma/Permutation.java:21-25 | with the documented `addCycle`, an index whose character is not in the added cycle maps as before under `permute` and `invert` |
| PermutationLaws.AddCycleIgnored | enigma/Permutation.java:23-55 | with the code's `addCycle`, the first member of a fresh cycle stays fixed under `permute`, where the documented behaviour moves it |
| PermutationLaws.AddCycleExample | enigma/PermutationTest.java:56-61 | for `new Permutation("", UPPER)` after `addCycle("AB")`, the code's `permute(0)` is 0 and the documented one is 1 |
| CycleStructure.CycleCharsCard | enigma/Permutation.java:91-100 | disjoint cycles hold as many distinct characters as their summed length |
| CycleStructure.InSomeCycleLocate | enigma/Permutation.java:44-46 | a character is in some cycle exactly when the scan finds it |
| CycleStructure.DerangementIffCovering | enigma/Permutation.java:91-100 | for well-formed cycles, `derangement()` holds exactly when every alphabet character is in some cycle |
| CycleStructure.FixedIffOutside | enigma/Permutation.java:43-55 | with no one-character cycle, `permute` fixes an index exactly when its character is in no cycle |
| CycleStructure.DerangementIffNoFixedPoint | enigma/Permutation.java:89-100 | with disjoint cycles and no one-character cycle, `derangement()` holds exactly when `permute` fixes no index; a one-character cycle breaks this (see Findings) |
| CycleStructure.DerangementMissesSingleton | enigma/Permutation.java:89-100 | with disjoint cycles, a one-character cycle makes `permute` fix its character's index, so the documented test fails there whatever the code's length test answers |
| CycleStructure.DerangementOfSingletons | enigma/Permutation.java:89-100 | for the alphabet "AB" and the cycles "A" and "B", `derangement()` answers true while `permute(0)` is 0, and the corrected test answers false |
| CycleStructure.DerangementIntendedNoFixedPoint | enigma/Permutation.java:89-90 | the corrected test (the length test and no one-character cycle) holds, for disjoint cycles, exactly when `permute` fixes no index, as the documentation promises |
| CycleStructure.PermuteEqualsInvertOnPairs | enigma/Permutation.java:43-71 | when no cycle is longer than two, `permute` and `invert` agree on every in-range index |
| CycleStructure.PairsAreInvolutive | enigma/Permutation.java:43-71 | well-formed cycles of length at most two give a permutation that is its own inverse |
| Rotors.NewMoving | enigma/MovingRotor.java:15-18 | a new moving rotor keeps its name, permutation and notches, starts in setting 0, and rotates |
| Rotors.AtNotch | enigma/MovingRotor.java:26-28 | a non-moving rotor is never at a notch. A moving one is at a notch exactly when the character at its setting is in the notch string, and the lookup fails only for an out-of-range setting. An empty notch string is never at a notch |
| Rotors.Advance | enigma/MovingRotor.java:31-33 | a non-moving rotor does not change. A moving one fails only on an empty alphabet and otherwise keeps name, permutation and kind, with the new setting below the size |
| Rotors.AdvanceSteps | enigma/MovingRotor.java:31-33 | an in-range moving rotor moves to the next setting, and from `size-1` back to 0 |
| Rotors.AdvanceNSetting | enigma/MovingRotor.java:31-33 | k advances add k to the setting modulo the size |
| Rotors.AdvanceFullTurn | enigma/MovingRotor.java:31-33 | `size()` advances restore the rotor |
| Rotors.NewMovingAtNotch | enigma/MovingRotor.java:15-28 | a new moving rotor is at a notch exactly when the alphabet's first character is a notch |
| Rotors.ConvertForward | enigma/Machine.java:77 | forward conversion fails on an empty alphabet, succeeds when every cycle character is in the alphabet, and stays below the size |
| Rotors.ConvertBackward | enigma/Machine.java:80 | as `ConvertForward`, for backward conversion |
| Rotors.ForwardAtZero | enigma/Machine.java:77 | in setting 0, forward conversion is `permute` |
| Rotors.ForwardStages | enigma/Machine.java:77 | forward conversion is shift in, permute, shift out, and the output shifted back in is the permuted index |
| Rotors.BackwardStages | enigma/Machine.java:80 | as `ForwardStages`, with `invert` |
| Rotors.BackwardAfterForward | enigma/Machine.java:76-81 | for well-formed cycles, backward conversion undoes forward conversion (up to wrapping) in every setting |
| Rotors.ForwardAfterBackward | enigma/Machine.java:76-81 | for well-formed cycles, forward conversion undoes backward conversion in every setting |
| Rotors.ForwardInvolution | enigma/Machine.java:76-78 | a self-inverse permutation (a reflector's pairs) converts forward as its own inverse in every setting |
| Machines.NewMachine | enigma/Machine.java:15-22 | a negative slot count fails. Otherwise the machine has the alphabet, the catalog, that many empty slots, the pawl count and no plugboard, so `numRotors()` and `numPawls()` return the constructor arguments |
| Machines.FindRotor | enigma/Machine.java:39-44 | the inner loop finds nothing exactly when no catalog rotor has the name (ignoring case); otherwise it finds the first that has it |
| Machines.InsertRotors | enigma/Machine.java:37-46 | each slot is bound to the first catalog rotor with its name, ignoring case, or keeps its binding when there is none. The name array is read only for a non-empty catalog, and fails exactly when shorter than the slot array. Nothing but the slots changes |
| Machines.SetFrom | enigma/Machine.java:52-55 | the loop changes only rotor settings, and fails only on a short setting, a character outside the alphabet, or an unbound slot |
| Machines.SetRotors | enigma/Machine.java:51-56 | as `SetFrom`, from slot 1 |
| Machines.SetPlugboard | enigma/Machine.java:59-61 | the plugboard is the given permutation and nothing else changes |
| Machines.SlotRotor | enigma/Machine.java:70 | a slot yields its catalog rotor exactly when bound, and otherwise a null-reference error |
| Machines.AdvanceAt | enigma/Machine.java:68-75 | advancing catalog rotor k succeeds exactly when that rotor's `advance` does; then entry k is the advanced rotor, every other entry is as it was, and only settings differ |
| Machines.StepFrom | enigma/Machine.java:68-74 | the stepping loop changes only rotor settings |
| Machines.AdvanceLast | enigma/Machine.java:75 | the advance of the rightmost slot changes only rotor settings |
| Machines.Step | enigma/Machine.java:68-75 | the stepping of a keypress changes only rotor settings |
| Machines.Convert | enigma/Machine.java:66-83 | an unset plugboard fails with a null-reference error. A success changes only rotor settings, and on an unpadded alphabet the output index lies below the plugboard's size |
| SetupLaws.SetFromOutcome | enigma/Machine.java:51-56 | `setRotors` succeeds exactly when every slot from 1 is ready. Otherwise it fails with the fault of the first slot that is not: `charAt` first, then `toInt`, then the null slot |
| SetupLaws.SetFromReady | enigma/Machine.java:52-55 | one ready slot: the loop sets that slot's rotor to the index of its character, touches no other rotor and no slot's readiness, and continues from the next slot |
| SetupLaws.SetFromUntouched | enigma/Machine.java:52-55 | a loop over ready slots leaves every rotor bound to no later slot as it was |
| SetupLaws.SetFromLastWrites | enigma/Machine.java:52-55 | a loop over ready slots leaves the rotor of every slot whose write comes last at the index of that slot's setting character, even when earlier slots share the rotor |
| SetupLaws.SetFromSettings | enigma/Machine.java:51-56 | each slot whose write comes last leaves its rotor at the index of its setting character, and rotors in no later slot are untouched |
| SetupLaws.SetRotorsDistinct | enigma/Machine.java:48-56 | for slots bound to distinct rotors, slot i ≥ 1 gets `toInt(setting[i-1])`, and slot 0 and the unbound rotors keep their settings |
| SetupLaws.FindRotorFirst | enigma/Machine.java:39-44 | the first rotor with the name is the one found |
| SetupLaws.InsertFiveNames | enigma/UnitTest.java:47-57 | inserting "I" to "V" into a fresh five-slot machine binds slot i to catalog rotor i |
| SetupLaws.AxleConfiguration | enigma/UnitTest.java:45-64 | the configuration test: five slots, and after `setRotors("AXLE")` settings 0, 0, 23, 11, 4 |
| Stepping.AdvanceIsStepped | enigma/MovingRotor.java:31-33 | on a rotor whose setting is in range, `advance` is one step and cannot fail |
| Stepping.AdvanceAtSteady | enigma/Machine.java:71-75 | advancing a rotor whose setting is in range cannot fail, moves it one step, and keeps every slot's rotor in range, even when other slots share it |
| Stepping.StepFromRunnable | enigma/Machine.java:68-74 | on a machine with every slot bound and every setting in range, the stepping loop cannot fail, changes only settings, and keeps the machine so, whether or not slots share a rotor |
| Stepping.AdvanceLastRunnable | enigma/Machine.java:75 | on such a machine the advance of the rightmost slot cannot fail, changes only settings, and keeps the machine so |
| Stepping.StepOfParts | enigma/Machine.java:68-75 | a keypress's stepping is the loop from `numRotors - pawls` followed by the advance of the rightmost slot |
| Stepping.StepKeepsRunnable | enigma/Machine.java:68-75 | on a machine with every slot bound, every setting in range and at most `numRotors` pawls, a keypress's stepping cannot fail, changes only settings, and leaves the machine so, even when two slots share a rotor |
| Stepping.StepFromRule | enigma/Machine.java:68-74 | for slots bound to distinct rotors, from slot i on, the loop moves each slot's rotor as the rule says, judged on the pre-keypress settings, and leaves every other rotor alone |
| Stepping.AdvanceLastRule | enigma/Machine.java:75 | for slots bound to distinct rotors, the final advance sets the rightmost slot's rotor one step past its pre-keypress state and changes no other catalog entry |
| Stepping.StepRule | enigma/Machine.java:68-75 | for slots bound to distinct rotors, a keypress moves the rotor of slot i exactly when the rule says so. The rule: the rightmost slot always moves; a moving rotor from `numRotors - pawls` moves when its right neighbour or itself is at a notch, on the settings before the keypress. Slots further left never move, and rotors in no slot are left alone |
| Stepping.RuleKeepsLeft | enigma/Machine.java:68 | for slots bound to distinct rotors, slots left of `numRotors - pawls` (other than the rightmost) never step |
| Reciprocity.PassesAreNest | enigma/Machine.java:76-81 | the forward loop down from the rightmost slot and the backward loop up from slot 1 perform the nested path forward through a slot, the path inside it, then backward through the same slot; they fail where it fails and otherwise agree with it |
| Reciprocity.UpSnoc | enigma/Machine.java:79-81 | the backward loop over one more slot is the shorter loop followed by that slot |
| Reciprocity.ReciprocalKept | enigma/Machine.java:66-83 | a keypress changes only settings, so it keeps the reciprocal configuration |
| Reciprocity.SlotRoundTrip | enigma/Machine.java:76-81 | through one slot, backward conversion undoes forward conversion, and in slot 0 forward conversion undoes itself |
| Reciprocity.ReflectInvolution | enigma/Machine.java:76-81 | along slots with well-formed permutations of the plugboard's size and a self-inverse slot 0, the path is total, in range, and its own inverse |
| Reciprocity.ConvertIsPath | enigma/Machine.java:66-83 | a keypress is the plugboard, then the stepping, then the path through all slots on the stepped machine, then the plugboard again |
| Reciprocity.ConvertReciprocal | enigma/Machine.java:63-83 | for a machine meeting `Reciprocal` whose stepping succeeds, and an input index below the plugboard's size, converting the output again from the same pre-keypress state gives back the input and the same new state |
| Reciprocity.ConvertPair | enigma/Machine.java:63-83 | for a machine meeting `Reciprocal` whose stepping succeeds, and an input index below the plugboard's size: the reciprocal pair with its output index and new state named; the output is in range, and the new state is the one stepping gives |
| Messages.KeyPress | enigma/Machine.java:97-98 | a character outside the alphabet fails, and so does a machine without a plugboard. A success yields an alphabet character and changes only rotor settings |
| Messages.Thread | enigma/Machine.java:91-101 | converting a text one keypress at a time, threading the state, gives an output as long as the text |
| Messages.ThreadAppend | enigma/Machine.java:91-101 | converting a text in two parts, the second from the state the first left, is converting it whole, failures included |
| Messages.ThreadKeeps | enigma/Machine.java:91-101 | a state property every keypress keeps holds after a whole text |
| Messages.ThreadReverses | enigma/Machine.java:91-101 | when every keypress reverses itself, converting the output from the same starting state gives the text back and ends in the same state |
| Messages.Clean | enigma/Machine.java:88 | the cleaned message has no blank and is no longer than the message |
| Messages.CleanClean | enigma/Machine.java:88 | text without blanks or lower-case letters is left as it is by cleaning |
| Messages.GroupLength | enigma/Machine.java:89-102 | n output characters are laid out in n + (n-1)/5 characters, or none |
| Messages.GroupAt | enigma/Machine.java:89-102 | every sixth character of the layout is a blank, and the others are the output characters in order |
| Messages.GroupSnoc | enigma/Machine.java:92-99 | one more character extends the layout, after a blank exactly when it starts a new group of five |
| Messages.UngroupGroup | enigma/Machine.java:89-102 | removing the blanks from the layout of a blank-free output gives the output back |
| Messages.Grouped | enigma/Machine.java:87-103 | `convert(String)` succeeds exactly when every keypress of the cleaned message does, with the grouped length |
| Messages.ThreadPrefix | enigma/Machine.java:96-99 | one more keypress extends the converted prefix by its output, and a failing keypress is the failure of the whole message |
| Messages.ConvertLoop | enigma/Machine.java:87-103 | the loop with its blank counter and `i--` computes the cleaned message converted and laid out in groups of five, or the first keypress's failure |
| Messages.ConvertString | enigma/Machine.java:87-103 | the loop run with the machine's keypress is the message conversion |
| Messages.SecondMessage | enigma/Machine.java:89-90 | a second message starts from the state the first left, so its keypresses continue those of the first, while its grouping counter restarts |
| Messages.MessageSettingsOnly | enigma/Machine.java:85-86 | converting a message changes only rotor settings |
| Messages.KeyPressFromConvert | enigma/Machine.java:97-98 | a reciprocal pair of index conversions gives a reciprocal pair of keypresses on the corresponding characters |
| Messages.ReversibleKept | enigma/Machine.java:68-75 | a keypress's stepping cannot fail on a machine meeting `Reversible`, and the stepped machine meets it again, shared rotors included |
| Messages.KeyPressReverses | enigma/Machine.java:97-98 | for a machine meeting `Reversible`, the keypress of the output character from the same state gives back the input, and the new state is reversible again |
| Messages.MessageReverses | enigma/Machine.java:85-103 | for a machine meeting `Reversible` and a message whose cleaned characters are in the alphabet, converting the output from the same starting state gives back the cleaned message in groups, and ends in the same state |

## Findings

| source | as written | input that shows it | evidently intended | confidence | as-written member | corrected member |
|---|---|---|---|---|---|---|
| enigma/Permutation.java:21-25 | `addCycle` appends the cycle only to the stored text `_cycles`. The list `_cyclesList`, which `permute` and `invert` scan, is parsed once by the constructor and never updated, so the added cycle has no effect on the mapping. The test of `addCycle` checks only `getCycles()` | `new Permutation("", UPPER)`, then `addCycle("AB")`, then `permute(0)` returns 0 | the documentation says the cycle is added to the permutation, so `permute(0)` should return 1 ('A' to 'B') | high (not executed) | PermutationLaws.AddCycleIgnored | PermutationLaws.AddCycleIntended |
| enigma/Permutation.java:89-100 | `derangement()` only compares the summed cycle length with `size()`. A one-character cycle counts like any other character, though it maps its character to itself | alphabet "AB" with the cycles "(A) (B)": the lengths sum to 2, which is `size()`, so `derangement()` returns true, yet `permute(0)` returns 0 | the documentation says no value maps to itself, so the answer should be false whenever a cycle has one character | high (not executed) | CycleStructure.DerangementMissesSingleton | CycleStructure.DerangementIntendedNoFixedPoint |

`Permutations.AddCycle` keeps the code's behaviour, because the rest of the engine never calls `addCycle`. `AddCycleIntended` is the corrected definition; `AddCycleSuccessor`, `AddCyclePredecessor` and `AddCycleKeepsOthers` prove what it promises.

`Permutations.Derangement` keeps the code's length test, because the engine itself never calls `derangement()`. `CycleStructure.DerangementIntended` is the corrected test: the length test, and no one-character cycle. `DerangementIntendedNoFixedPoint` proves that it holds exactly when `permute` fixes no index. `DerangementMissesSingleton` and `DerangementOfSingletons` show where the code's test differs.

## Left out

- `Main.java` is not part of this model: argument checks, configuration and settings parsing, file and console I/O, `System.exit`.
- `Rotor`, `FixedRotor`, `Reflector` and `EnigmaException` are outside the modelled core. They enter only through the assumptions stated above.
- The ciphertext vectors of the tests (enigma/UnitTest.java:67-106) depend on rotor wirings that are outside the modelled core.
- The PermutationTest vectors on literal cycle texts are not restated. They are instances of `PermuteSuccessor`, `InvertPredecessor`, `FixedOutsideCycles`, `DerangementIffCovering` and `AddCycle`, and evaluating the parser on literal strings is beyond what the verifier does at reasonable cost.
- A Java method that throws part-way has already written the slots or rotors before the exception. The model returns only the error. The Java program never continues with such a machine.
- An unset plugboard is modelled as a null-reference error of `convert`, as Java's `NullPointerException`, not as a precondition.
- 32-bit `int` overflow is not modelled: indices are integers. The engine's indices are bounded by the alphabet size.
- `toUpperCase` and `equalsIgnoreCase` are restricted to the ASCII letters a–z.
- Text: a Dafny `char` is a Unicode scalar value, not a UTF-16 code unit. A character outside the Basic Multilingual Plane is one `char` here but two in Java, so `length`, `charAt` and `indexOf` differ on such text.
- `startsNotch` (enigma/Machine.java:106) is an unused field, and `getSlots` (enigma/Machine.java:109-111) only exposes the array. The tests' reads of it are modelled by reading the catalog entries of the slots.
- Stepping.StepRule: the slot-by-slot rule (with `StepFromRule`, `AdvanceLastRule` and `RuleKeepsLeft`) is stated only for slots bound to distinct rotors. With a rotor in two slots, Java reads and writes that rotor twice per keypress, so one catalog entry would have to satisfy two per-slot equations at once. For such machines `StepKeepsRunnable` still proves that stepping cannot fail and changes only settings.
- Machines.StepFrom: the exact per-slot rule is proved in `Stepping.StepRule` only for slots bound to distinct rotors. With a rotor bound to two slots, the function still models Java's behaviour (the shared rotor is read and written twice), but no slot-by-slot rule is stated for it.
- SetupLaws.SetRotorsDistinct: the settings are stated for distinct rotors only. For shared rotors, `SetFromSettings` states that the last write wins.
- Messages.KeyPressReverses: stated only for machines meeting `Reversible`, and the Java code checks none of its conditions:
  - the plugboard is set, is well-formed (disjoint cycles of characters of its valid, non-empty alphabet) and is its own inverse;
  - there is at least one slot, every slot is bound, and there are at most `numRotors` pawls;
  - every bound rotor has a well-formed permutation of the plugboard's size and a setting inside its alphabet;
  - slot 0's permutation is its own inverse;
  - the machine's alphabet is duplicate-free and unpadded, as large as the plugboard's, and holds no blank and no lower-case letter.
  Two slots may share a rotor.
- Messages.MessageReverses: stated for the same `Reversible` machines as `KeyPressReverses`, and for a message whose cleaned characters all lie in the alphabet.
- Messages.ReversibleKept: stated for the same `Reversible` machines as `KeyPressReverses`.
- Reciprocity.ConvertReciprocal: stated only for an input index below the plugboard's size, on a machine whose stepping succeeds and that meets `Reciprocal`; the Java code checks none of these. `Reciprocal` is:
  - the plugboard is set, is well-formed (disjoint cycles of characters of its valid, non-empty alphabet) and is its own inverse;
  - there is at least one slot, every slot is bound to a catalog rotor, and every bound rotor has a well-formed permutation (disjoint cycles of characters of its valid, non-empty alphabet) of the plugboard's size;
  - slot 0's permutation is its own inverse.
  On a `Reciprocal` machine, "stepping succeeds" (`Step(m).Ok?`) holds, by `Stepping.StepKeepsRunnable`, whenever there are at most `numRotors` pawls and every bound rotor's setting lies inside its alphabet. Two slots may share a rotor.
- Reciprocity.ConvertPair: stated for the same machines and inputs as `ConvertReciprocal`.
