/** The few Python built-in behaviours the tools rely on, stated over Dafny values. */
module PyOps {

  /** The index Python uses for one end of a slice `s[a:b]` of a sequence of length `n`. */
  function SliceIndex(i: int, n: nat): (r: nat)
    ensures r <= n
    ensures 0 <= i <= n ==> r == i
  {
    if i < 0 then (if i + n < 0 then 0 else i + n)
    else if i > n then n
    else i
  }

  /** `s[a:b]`: both ends are clamped to the sequence, so slicing never fails. */
  function Slice<T>(s: seq<T>, a: int, b: int): (r: seq<T>)
    ensures |r| <= |s|
    ensures 0 <= a <= b <= |s| ==> r == s[a..b]
    ensures 0 <= a && |s| <= b ==> r == s[if a <= |s| then a else |s|..]
  {
    var i, j := SliceIndex(a, |s|), SliceIndex(b, |s|);
    if i <= j then s[i..j] else []
  }
}
