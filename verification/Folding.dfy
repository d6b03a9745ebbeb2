// Case folding of keys.

module Folding {
  import opened Bytes

  /** What folding needs of the C library's tolower: it settles at once and never makes a terminator. */
  ghost predicate Lowering(lower: byte -> byte) {
    forall b: byte :: lower(lower(b)) == lower(b) && (b != 0 ==> lower(b) != 0)
  }

  /** tolower in the C locale. */
  function AsciiLower(b: byte): byte {
    if 65 <= b <= 90 then b + 32 else b
  }

  lemma AsciiLowers()
    ensures Lowering(AsciiLower)
  {
  }

  ghost function Fold(lower: byte -> byte, s: Buffer): Buffer {
    seq(|s|, i requires 0 <= i < |s| => lower(s[i]))
  }

  lemma FoldStable(lower: byte -> byte, s: Buffer)
    requires Lowering(lower)
    ensures |Fold(lower, s)| == |s| && Fold(lower, Fold(lower, s)) == Fold(lower, s)
    ensures NulFree(s) ==> NulFree(Fold(lower, s))
  {
    forall i | 0 <= i < |s| && s[i] != 0 ensures Fold(lower, s)[i] != 0 {
    }
  }

  /** Two strings have one folded form if and only if their characters agree when each is lowered. */
  lemma FoldAlike(lower: byte -> byte, s: Buffer, t: Buffer)
    ensures Fold(lower, s) == Fold(lower, t) <==>
            |s| == |t| && forall i :: 0 <= i < |s| ==> lower(s[i]) == lower(t[i])
  {
    var u, v := Fold(lower, s), Fold(lower, t);
    if u == v {
      forall i | 0 <= i < |s| ensures lower(s[i]) == lower(t[i]) { assert u[i] == v[i]; }
    }
  }

  /** The folded form is the string with every character lowered. */
  lemma FoldIs(lower: byte -> byte, s: Buffer, u: Buffer)
    ensures u == Fold(lower, s) <==> |u| == |s| && forall i :: 0 <= i < |s| ==> u[i] == lower(s[i])
  {
  }

  /** udx_fold_string */
  method FoldString(lower: byte -> byte, s: CString) returns (folded: CString)
    requires Lowering(lower)
    ensures folded == Fold(lower, s)
    ensures |folded| == |s| && forall i :: 0 <= i < |s| ==> folded[i] == lower(s[i])
  {
    var out: Buffer := [];
    var i := 0;
    while i < |s|
      invariant 0 <= i <= |s| && |out| == i
      invariant forall j :: 0 <= j < i ==> out[j] == lower(s[j]) && out[j] != 0
    {
      out := out + [lower(s[i])];
      i := i + 1;
    }
    folded := out;
  }
}
