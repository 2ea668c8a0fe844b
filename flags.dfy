/** Normalisation of the string-typed `force` and `push` task arguments:
    a flag is on exactly when its lower-cased text is "y" or "yes". */
module Flags {

  /** Lower-casing of one character (ASCII letters only; see README). */
  function LowerChar(c: char): char
  {
    if 'A' <= c <= 'Z' then (c as int - 'A' as int + 'a' as int) as char else c
  }

  /** The text of a flag, lower-cased character by character. */
  function Lower(s: string): (r: string)
    ensures |r| == |s|
    ensures forall i :: 0 <= i < |s| ==> r[i] == LowerChar(s[i])
  {
    if s == [] then [] else [LowerChar(s[0])] + Lower(s[1..])
  }

  /** A task argument is affirmative when its lower-cased text is "y" or "yes":
      exactly the ten case variants of those two words. */
  function IsAffirmative(flag: string): (on: bool)
    ensures on <==> flag in AffirmativeSpellings
  {
    NormalisedSpellings(flag);
    Lower(flag) == "y" || Lower(flag) == "yes"
  }

  /** Every spelling the task accepts as "on", written out. */
  const AffirmativeSpellings: set<string> :=
    {"y", "Y", "yes", "yeS", "yEs", "yES", "Yes", "YeS", "YEs", "YES"}

  /** A lower-case letter has exactly two pre-images under LowerChar: itself and its capital. */
  lemma LowerCharPreimage(c: char, d: char)
    requires 'a' <= d <= 'z'
    ensures LowerChar(c) == d <==> c == d || c as int == d as int - 32
  {
  }

  /** Lower-casing yields "y" or "yes" for exactly the ten case variants of those words. */
  lemma {:induction false} NormalisedSpellings(flag: string)
    ensures Lower(flag) == "y" || Lower(flag) == "yes" <==> flag in AffirmativeSpellings
  {
    if Lower(flag) == "y" || Lower(flag) == "yes" {
      var low := Lower(flag);
      if low == "y" {
        LowerCharPreimage(flag[0], 'y');
        assert flag == [flag[0]];
      } else {
        assert low == "yes";
        LowerCharPreimage(flag[0], 'y');
        LowerCharPreimage(flag[1], 'e');
        LowerCharPreimage(flag[2], 's');
        assert flag == [flag[0], flag[1], flag[2]];
      }
    }
  }

  /** The defaults of both task arguments ("no") leave the flag off. */
  lemma DefaultIsOff()
    ensures !IsAffirmative("no")
  {
  }
}
