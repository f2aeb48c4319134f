/**
 The two operations of Python's built-in `str` that the truncation in
 application.py relies on: `str.find` of a single character and the
 slice `s[:stop]` with Python's treatment of a negative or too-large stop.
 */
module PyStr {

  function Min(a: int, b: int): int { if a <= b then a else b }

  function Max(a: int, b: int): int { if a <= b then b else a }

  /** `s.find(c)`: the lowest index holding `c`, or -1 when `c` does not occur. */
  function Find(s: string, c: char): (i: int)
    ensures -1 <= i < |s|
    ensures 0 <= i ==> s[i] == c && forall j :: 0 <= j < i ==> s[j] != c
    ensures i == -1 ==> forall j :: 0 <= j < |s| ==> s[j] != c
  {
    if |s| == 0 then -1
    else if s[0] == c then 0
    else if Find(s[1..], c) == -1 then -1
    else Find(s[1..], c) + 1
  }

  /** Only the first occurrence matters: once it is kept, a prefix finds it at the same place. */
  lemma FindInPrefix(s: string, c: char, k: nat)
    requires 0 <= Find(s, c) < k <= |s|
    ensures Find(s[..k], c) == Find(s, c)
  {
    var p := Find(s, c);
    var q := Find(s[..k], c);
    assert s[..k][p] == c;
    assert s[..k][..p] == s[..p];
  }

  /** The stop index Python uses for `s[:stop]` on a text of length `n`. */
  function SliceStop(n: nat, stop: int): nat
  {
    if stop < 0 then Max(0, n + stop) else Min(stop, n)
  }

  /** `s[:stop]`: never fails, always a prefix; a negative stop counts from the end. */
  function SliceTo(s: string, stop: int): (r: string)
    ensures r <= s
    ensures 0 <= stop ==> |r| == Min(stop, |s|)
    ensures stop < 0 ==> |r| == Max(0, |s| + stop)
  {
    s[..SliceStop(|s|, stop)]
  }
}
