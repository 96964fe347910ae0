/** Key identifiers as the keydown handler compares them: the event's key is
    lower-cased with `toLowerCase` and compared for equality with a
    one-letter string. */
module Keys {

  /** `toLowerCase` on one character. Only the Basic Latin capitals change;
      no other character lower-cases to one of the letters the game listens
      for, so this is exact for every comparison the handler makes. */
  function LowerChar(c: char): char {
    if 'A' <= c <= 'Z' then (c as int + 32) as char else c
  }

  /** The capital form of a lower-case Basic Latin letter. */
  function UpperChar(c: char): (u: char)
    requires 'a' <= c <= 'z'
    ensures 'A' <= u <= 'Z'
    ensures LowerChar(u) == c
  {
    (c as int - 32) as char
  }

  /** `String.prototype.toLowerCase`, character by character. */
  function Lower(s: string): (r: string)
    ensures |r| == |s|
    ensures forall i :: 0 <= i < |s| && 'A' <= s[i] <= 'Z' ==> r[i] as int == s[i] as int + 32
    ensures forall i :: 0 <= i < |s| && !('A' <= s[i] <= 'Z') ==> r[i] == s[i]
  {
    seq(|s|, i requires 0 <= i < |s| => LowerChar(s[i]))
  }

  /** A key lower-cases to the one-letter string [c] exactly when it is that
      letter in either case. */
  lemma LowerIsLetter(s: string, c: char)
    requires 'a' <= c <= 'z'
    ensures Lower(s) == [c] <==> (s == [c] || s == [UpperChar(c)])
  {
    if Lower(s) == [c] {
      assert Lower(s)[0] == LowerChar(s[0]) == c;
      assert s == [s[0]];
    }
    if s == [UpperChar(c)] {
      assert Lower(s)[0] == c;
    }
  }
}
