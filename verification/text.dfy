/** The few `java.lang.String` operations the engine relies on.

    Each follows Java's rules as far as the engine depends on them: `trim`
    drops every character up to U+0020, `indexOf` yields the first occurrence
    or -1, and `split` drops trailing empty pieces. Case conversion is
    restricted to the ASCII letters, and a `char` here is a whole Unicode
    scalar value rather than a UTF-16 code unit.
 */
module Text {

  /** A character that `String.trim` removes from either end. */
  predicate IsBlank(c: char) {
    c <= ' '
  }

  /** Neither end of `s` is a blank, so `trim` leaves it as it is. */
  predicate Unpadded(s: string) {
    |s| == 0 || (!IsBlank(s[0]) && !IsBlank(s[|s| - 1]))
  }

  /** No character occurs twice in `s`. */
  predicate Distinct(s: string) {
    forall i, j :: 0 <= i < j < |s| ==> s[i] != s[j]
  }

  /** `String.trim`: blanks are removed from both ends, one at a time. */
  function Trim(s: string): (r: string)
    ensures |r| <= |s|
  {
    if |s| > 0 && IsBlank(s[0]) then Trim(s[1..])
    else if |s| > 0 && IsBlank(s[|s| - 1]) then Trim(s[..|s| - 1])
    else s
  }

  /** What `trim` promises: the result is the infix `s[i..j]` left after
      removing only blanks from the two ends, and it has no blank at either end. */
  lemma {:induction false} TrimSpec(s: string) returns (i: nat, j: nat)
    ensures i <= j <= |s| && Trim(s) == s[i..j]
    ensures forall k :: 0 <= k < i ==> IsBlank(s[k])
    ensures forall k :: j <= k < |s| ==> IsBlank(s[k])
    ensures Unpadded(Trim(s))
  {
    if |s| > 0 && IsBlank(s[0]) {
      var t := s[1..];
      var i', j' := TrimSpec(t);
      i, j := i' + 1, j' + 1;
      assert forall k :: 0 <= k < j - i ==> t[i'..j'][k] == t[i' + k] == s[i + k] == s[i..j][k];
      assert t[i'..j'] == s[i..j];
      forall k | 0 <= k < i
        ensures IsBlank(s[k])
      {
        if k > 0 {
          assert s[k] == t[k - 1];
        }
      }
      forall k | j <= k < |s|
        ensures IsBlank(s[k])
      {
        assert s[k] == t[k - 1];
      }
    } else if |s| > 0 && IsBlank(s[|s| - 1]) {
      var t := s[..|s| - 1];
      i, j := TrimSpec(t);
      assert t[i..j] == s[i..j];
      forall k | j <= k < |s|
        ensures IsBlank(s[k])
      {
        if k < |t| {
          assert s[k] == t[k];
        }
      }
    } else {
      i, j := 0, |s|;
    }
  }

  /** An unpadded string is its own trim. */
  lemma TrimUnpadded(s: string)
    ensures Unpadded(s) ==> Trim(s) == s
  {
  }

  /** `s.trim().length()`, counted while the blanks are removed. */
  function TrimmedLength(s: string): (n: nat)
    ensures n <= |s|
    ensures Unpadded(s) ==> n == |s|
  {
    if |s| > 0 && IsBlank(s[0]) then TrimmedLength(s[1..])
    else if |s| > 0 && IsBlank(s[|s| - 1]) then TrimmedLength(s[..|s| - 1])
    else |s|
  }

  /** The count is the length of the trimmed string. */
  lemma {:induction false} TrimmedLengthIsTrim(s: string)
    ensures TrimmedLength(s) == |Trim(s)|
  {
    if |s| > 0 && IsBlank(s[0]) {
      TrimmedLengthIsTrim(s[1..]);
    } else if |s| > 0 && IsBlank(s[|s| - 1]) {
      TrimmedLengthIsTrim(s[..|s| - 1]);
    }
  }

  /** `String.indexOf(char)`: the first position of `c`, or -1 when absent. */
  function IndexOf(s: string, c: char): (r: int)
    ensures -1 <= r < |s|
    ensures r == -1 <==> c !in s
    ensures r >= 0 ==> s[r] == c
    ensures r >= 0 ==> forall j :: 0 <= j < r ==> s[j] != c
  {
    IndexFrom(s, c, 0)
  }

  /** The scan of `indexOf` from position `k` on: the first position at or
      after `k` holding `c`, or -1 when there is none. */
  function IndexFrom(s: string, c: char, k: nat): (r: int)
    requires k <= |s|
    ensures r == -1 || k <= r < |s|
    ensures r == -1 <==> forall j :: k <= j < |s| ==> s[j] != c
    ensures r >= 0 ==> s[r] == c
    ensures r >= 0 ==> forall j :: k <= j < r ==> s[j] != c
    decreases |s| - k
  {
    if k == |s| then -1
    else if s[k] == c then k
    else IndexFrom(s, c, k + 1)
  }

  /** In a duplicate-free string the first occurrence of a character is its only one. */
  lemma IndexOfDistinct(s: string, i: int)
    requires Distinct(s) && 0 <= i < |s|
    ensures IndexOf(s, s[i]) == i
  {
  }

  /** `s.replaceAll("[...]", "")` for a character class: every character in `drop` is deleted. */
  function Remove(s: string, drop: set<char>): (r: string)
    ensures |r| <= |s|
    ensures forall c :: c in r <==> c in s && c !in drop
  {
    if |s| == 0 then []
    else (if s[0] in drop then [] else [s[0]]) + Remove(s[1..], drop)
  }

  /** Deletion works piecewise: it commutes with concatenation. */
  lemma {:induction false} RemoveAppend(a: string, b: string, drop: set<char>)
    ensures Remove(a + b, drop) == Remove(a, drop) + Remove(b, drop)
  {
    if |a| == 0 {
      assert a + b == b;
    } else {
      assert (a + b)[1..] == a[1..] + b;
      RemoveAppend(a[1..], b, drop);
    }
  }

  /** `Character.toUpperCase`, restricted to the ASCII letters. */
  function UpperChar(c: char): (u: char)
    ensures !('a' <= u <= 'z')
    ensures u == c <==> !('a' <= c <= 'z')
    ensures 'a' <= c <= 'z' ==> 'A' <= u <= 'Z' && u as int - 'A' as int == c as int - 'a' as int
  {
    if 'a' <= c <= 'z' then (c as int - 32) as char else c
  }

  /** `String.toUpperCase`, restricted to the ASCII letters. */
  function ToUpper(s: string): (r: string)
    ensures |r| == |s| && EqualsIgnoreCase(s, r)
    ensures forall i :: 0 <= i < |r| ==> !('a' <= r[i] <= 'z')
    ensures forall i :: 0 <= i < |s| && !('a' <= s[i] <= 'z') ==> r[i] == s[i]
  {
    seq(|s|, i requires 0 <= i < |s| => UpperChar(s[i]))
  }

  /** Upper-casing works character by character: it distributes over concatenation. */
  lemma ToUpperAppend(a: string, b: string)
    ensures ToUpper(a + b) == ToUpper(a) + ToUpper(b)
  {
  }

  /** Upper-casing twice is upper-casing once. */
  lemma ToUpperIdempotent(s: string)
    ensures ToUpper(ToUpper(s)) == ToUpper(s)
  {
  }

  /** `String.equalsIgnoreCase`, restricted to the ASCII letters. */
  predicate EqualsIgnoreCase(a: string, b: string) {
    |a| == |b| && forall i :: 0 <= i < |a| ==> UpperChar(a[i]) == UpperChar(b[i])
  }

  /** The pieces of `ps` with `d` written between consecutive ones. */
  function Join(ps: seq<string>, d: char): string
  {
    if |ps| == 0 then []
    else if |ps| == 1 then ps[0]
    else ps[0] + [d] + Join(ps[1..], d)
  }

  /** Joining one more piece appends the separator and that piece. */
  lemma {:induction false} JoinSnoc(ps: seq<string>, x: string, d: char)
    requires |ps| > 0
    ensures Join(ps + [x], d) == Join(ps, d) + [d] + x
  {
    if |ps| == 1 {
      assert (ps + [x])[1..] == [x];
    } else {
      assert (ps + [x])[1..] == ps[1..] + [x];
      JoinSnoc(ps[1..], x, d);
    }
  }

  /** A character of any piece occurs in the joined text. */
  lemma {:induction false} JoinContains(ps: seq<string>, d: char, k: int, c: char)
    requires 0 <= k < |ps| && c in ps[k]
    ensures c in Join(ps, d)
  {
    if k > 0 {
      JoinContains(ps[1..], d, k - 1, c);
    }
  }

  /** Every piece between occurrences of `d`, empty ones included. */
  function SplitAll(s: string, d: char): (r: seq<string>)
    ensures |r| >= 1
    ensures forall k :: 0 <= k < |r| ==> d !in r[k]
    ensures Join(r, d) == s
    decreases |s|
  {
    var i := IndexOf(s, d);
    if i < 0 then [s]
    else
      var rest := SplitAll(s[i + 1..], d);
      assert s == s[..i] + [d] + s[i + 1..];
      assert ([s[..i]] + rest)[1..] == rest;
      [s[..i]] + rest
  }

  function DropTrailingEmpty(ps: seq<string>): (r: seq<string>)
    ensures |r| <= |ps| && r == ps[..|r|]
    ensures |r| > 0 ==> r[|r| - 1] != []
  {
    if |ps| > 0 && ps[|ps| - 1] == [] then DropTrailingEmpty(ps[..|ps| - 1]) else ps
  }

  /** `s` without the run of `d` characters at its end. */
  function TrimEndChar(s: string, d: char): (r: string)
    ensures |r| <= |s| && r == s[..|r|]
    ensures |r| > 0 ==> r[|r| - 1] != d
    ensures forall i :: |r| <= i < |s| ==> s[i] == d
  {
    if |s| > 0 && s[|s| - 1] == d then TrimEndChar(s[..|s| - 1], d) else s
  }

  /** Dropping empty trailing pieces drops exactly the trailing separators of the joined text. */
  lemma {:induction false} JoinDropTrailingEmpty(ps: seq<string>, d: char)
    requires |ps| > 0
    requires forall k :: 0 <= k < |ps| ==> d !in ps[k]
    ensures Join(DropTrailingEmpty(ps), d) == TrimEndChar(Join(ps, d), d)
  {
    var n := |ps|;
    var last := ps[n - 1];
    if last != [] {
      if n > 1 {
        assert ps == ps[..n - 1] + [last];
        JoinSnoc(ps[..n - 1], last, d);
      }
      var j := Join(ps, d);
      assert j[|j| - 1] == last[|last| - 1];
      assert last[|last| - 1] in last;
    } else if n == 1 {
      assert DropTrailingEmpty(ps) == DropTrailingEmpty([]);
    } else {
      var front := ps[..n - 1];
      assert ps == front + [[]];
      JoinSnoc(front, [], d);
      assert Join(ps, d) == Join(front, d) + [d];
      assert TrimEndChar(Join(ps, d), d) == TrimEndChar(Join(front, d), d) by {
        assert (Join(front, d) + [d])[..|Join(front, d)|] == Join(front, d);
      }
      JoinDropTrailingEmpty(front, d);
    }
  }

  /** The pieces `split` keeps when the separator occurs: all pieces but the
      trailing empty ones, which join back to the text without its trailing separators. */
  lemma SplitPieces(s: string, d: char)
    ensures var r := DropTrailingEmpty(SplitAll(s, d));
      (forall k :: 0 <= k < |r| ==> d !in r[k]) &&
      Join(r, d) == TrimEndChar(s, d) &&
      (forall k, c :: 0 <= k < |r| && c in r[k] ==> c in s)
  {
    var all := SplitAll(s, d);
    JoinDropTrailingEmpty(all, d);
    var r := DropTrailingEmpty(all);
    forall k, c | 0 <= k < |r| && c in r[k]
      ensures c in s
    {
      JoinContains(r, d, k, c);
    }
  }

  /** `String.split` with a one-character separator and no limit: a string without the
      separator gives itself alone (even when empty); otherwise all pieces, with the
      trailing empty ones removed. */
  function Split(s: string, d: char): (r: seq<string>)
    ensures d !in s ==> r == [s]
    ensures d in s ==> r == [] || r[|r| - 1] != []
    ensures forall k :: 0 <= k < |r| ==> d !in r[k]
    ensures Join(r, d) == TrimEndChar(s, d)
    ensures forall k, c :: 0 <= k < |r| && c in r[k] ==> c in s
  {
    if d !in s then
      assert TrimEndChar(s, d) == s;
      [s]
    else
      SplitPieces(s, d);
      DropTrailingEmpty(SplitAll(s, d))
  }
}
