/**
 * The random identifiers both services seed with: a run of 5 to 8 characters
 * drawn from upper-case letters and digits. The random draws are inputs here:
 * one index into the alphabet per character.
 */
module Identifiers {

  /** The alphabet both seeders draw from. */
  const Alphanumeric: string := "ABCDEFGHIJKLMNOPQRSTUVWXYZ0123456789"

  /** Every hostname the services generate starts with this prefix. */
  const DevicePrefix: string := "D"

  predicate IsCodeChar(c: char) {
    'A' <= c <= 'Z' || '0' <= c <= '9'
  }

  /** The draws for one identifier: a length in [5, 9) and, per character, an index in [0, 36). */
  predicate ValidCodeDraw(picks: seq<int>) {
    5 <= |picks| <= 8 && forall k :: 0 <= k < |picks| ==> 0 <= picks[k] < |Alphanumeric|
  }

  /** The identifier spelled by the drawn alphabet indices. */
  function RandomCode(picks: seq<int>): (code: string)
    requires ValidCodeDraw(picks)
    ensures |code| == |picks| && 5 <= |code| <= 8
    ensures forall k :: 0 <= k < |code| ==> IsCodeChar(code[k]) && code[k] == Alphanumeric[picks[k]]
  {
    seq(|picks|, k requires 0 <= k < |picks| => Alphanumeric[picks[k]])
  }

  /** The bounds drawn by `for (i = 0; i < random.Next(lo, hi + 1); i++)`, which draws
      a fresh bound at every test of the condition: at most hi + 1 tests happen. */
  predicate ValidBoundDraws(bounds: seq<int>, lo: int, hi: int) {
    |bounds| > hi && forall k :: 0 <= k < |bounds| ==> lo <= bounds[k] <= hi
  }
}
