/** The alphabet of encodable characters: an ordered string whose character
    number k has index k. Every operation is a pure lookup; the datatype is a
    value, so nothing here can change the stored string. */
module Alphabets {
  import opened Errors
  import opened Text

  datatype Alphabet = Alphabet(chars: string)

  /** The constructor's documented expectations, which it does not check:
      no character is duplicated and (so that `size()` counts every
      character) none sits as blank padding at either end. */
  predicate Valid(a: Alphabet) {
    Distinct(a.chars) && Unpadded(a.chars)
  }

  /** `size()`: the length of the trimmed character string (see `SizeIsTrimmedLength`). */
  function Size(a: Alphabet): (n: nat)
    ensures n <= |a.chars|
    ensures Unpadded(a.chars) ==> n == |a.chars|
  {
    TrimmedLength(a.chars)
  }

  /** `size()` is the length of `trim()` of the stored string. */
  lemma SizeIsTrimmedLength(a: Alphabet)
    ensures Size(a) == |Trim(a.chars)|
  {
    TrimmedLengthIsTrim(a.chars);
  }

  /** `contains(c)`: whether `c` occurs anywhere in the stored string. */
  function Contains(a: Alphabet, c: char): (b: bool)
    ensures b <==> c in a.chars
  {
    IndexOf(a.chars, c) >= 0
  }

  /** `toChar(index)`: the character at `index`, which must lie below `size()`. */
  function ToChar(a: Alphabet, index: int): (r: Result<char>)
    ensures r.Ok? <==> 0 <= index < Size(a)
    ensures r.Ok? ==> r.value == a.chars[index]
    ensures r.Err? ==> r.error == IndexOutOfRange
  {
    if index < 0 || index >= Size(a) then Err(IndexOutOfRange)
    else Ok(a.chars[index])
  }

  /** `toInt(c)`: the position of the first occurrence of `c`. */
  function ToInt(a: Alphabet, c: char): (r: Result<nat>)
    ensures r.Ok? <==> c in a.chars
    ensures r.Ok? ==> r.value < |a.chars| && a.chars[r.value] == c
    ensures r.Ok? ==> forall j :: 0 <= j < r.value ==> a.chars[j] != c
    ensures r.Err? ==> r.error == NotInAlphabet
  {
    var k := IndexOf(a.chars, c);
    if k == -1 then Err(NotInAlphabet) else Ok(k)
  }

  /** `contains` succeeds exactly where `toInt` does. */
  lemma ContainsIffToInt(a: Alphabet, c: char)
    ensures Contains(a, c) <==> ToInt(a, c).Ok?
  {
  }

  /** For a valid alphabet, `toInt` undoes `toChar` on every in-range index. */
  lemma ToIntOfToChar(a: Alphabet, i: int)
    requires Valid(a) && 0 <= i < Size(a)
    ensures ToChar(a, i).Ok? && ToInt(a, ToChar(a, i).value) == Ok(i)
  {
    IndexOfDistinct(a.chars, i);
  }

  /** For an unpadded alphabet, `toChar` undoes `toInt` on every member. */
  lemma ToCharOfToInt(a: Alphabet, c: char)
    requires Unpadded(a.chars) && c in a.chars
    ensures ToInt(a, c).Ok? && ToChar(a, ToInt(a, c).value) == Ok(c)
  {
  }

  /** Two characters of a valid alphabet with the same index are the same character. */
  lemma ToIntInjective(a: Alphabet, c: char, d: char)
    requires Valid(a) && ToInt(a, c).Ok? && ToInt(a, d).Ok?
    requires ToInt(a, c) == ToInt(a, d)
    ensures c == d
  {
  }

  /** The upper-case Latin alphabet "ABCDEFGHIJKLMNOPQRSTUVWXYZ" used throughout the engine's tests. */
  const Upper: Alphabet := Alphabet(seq(26, i requires 0 <= i < 26 => ('A' as int + i) as char))

  lemma UpperIsValid()
    ensures Valid(Upper) && Size(Upper) == 26
    ensures forall i :: 0 <= i < 26 ==> Upper.chars[i] as int == 'A' as int + i
  {
  }

  /** The alphabet test vectors: 'A' is index 0 and 'Z' is index 25; out-of-range
      indices and foreign characters fail. */
  lemma UpperLookups()
    ensures ToChar(Upper, 0) == Ok('A') && ToChar(Upper, 25) == Ok('Z')
    ensures ToInt(Upper, 'Z') == Ok(25)
    ensures ToChar(Upper, 26) == Err(IndexOutOfRange) && ToChar(Upper, -1) == Err(IndexOutOfRange)
    ensures ToInt(Upper, 'a') == Err(NotInAlphabet)
  {
    UpperIsValid();
  }
}
