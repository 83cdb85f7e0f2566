/** Small vocabulary shared by the other modules. */
module Prelude {
  datatype Option<+T> = None | Some(value: T)

  type byte = x: int | 0 <= x < 256
  type bytes = seq<byte>

  /** `String.prototype.toLowerCase` on the characters an address can hold. */
  function ToLowerChar(c: char): char {
    if 'A' <= c <= 'Z' then c - 'A' + 'a' else c
  }

  function ToLower(s: string): (r: string)
    ensures |r| == |s|
  {
    seq(|s|, i requires 0 <= i < |s| => ToLowerChar(s[i]))
  }

  /** Capital letters become their small letters and nothing else changes. */
  lemma ToLowerIs(s: string, i: nat)
    requires i < |s|
    ensures var n := (s[i] as int - 'A' as int);
            if 0 <= n < 26 then ToLower(s)[i] == "abcdefghijklmnopqrstuvwxyz"[n] else ToLower(s)[i] == s[i]
  {
    var letters := "abcdefghijklmnopqrstuvwxyz";
    assert forall n: nat :: n < 26 ==> letters[n] as int == 'a' as int + n;
  }

  lemma ToLowerIdempotent(s: string)
    ensures ToLower(ToLower(s)) == ToLower(s)
  {
  }
}
