/** String helpers with the semantics of the ECMAScript string methods the
    source calls. Strings are `seq<char>`, sequences of Unicode scalar values,
    so positions count characters where ECMAScript counts UTF-16 code units. */
module Strings {

  /** `s.indexOf(c)`: the index of the FIRST occurrence of `c`, or -1. */
  function IndexOf(s: string, c: char): (r: int)
    ensures -1 <= r < |s|
    ensures r == -1 <==> c !in s
    ensures r >= 0 ==> s[r] == c && forall j :: 0 <= j < r ==> s[j] != c
  {
    if |s| == 0 then -1
    else if s[0] == c then 0
    else
      var k := IndexOf(s[1..], c);
      if k == -1 then -1 else k + 1
  }

  /** The first occurrence is unique: any index holding `c` with no `c`
      before it is the one `IndexOf` reports. */
  lemma IndexOfIsFirst(s: string, c: char, k: nat)
    requires k < |s| && s[k] == c
    requires forall j :: 0 <= j < k ==> s[j] != c
    ensures IndexOf(s, c) == k
  {
    assert s[k] in s;
  }

  /** Searching `a + [c] + b` when `a` has no `c` stops at the inserted `c`. */
  lemma IndexOfAtSeparator(a: string, c: char, b: string)
    requires c !in a
    ensures IndexOf(a + [c] + b, c) == |a|
  {
    forall j | 0 <= j < |a|
      ensures (a + [c] + b)[j] != c
    {
      assert (a + [c] + b)[j] == a[j];
    }
    IndexOfIsFirst(a + [c] + b, c, |a|);
  }

  /** Taking a prefix that lies inside the left part of a concatenation. */
  lemma TakeAppend(a: string, b: string, k: nat)
    requires k <= |a|
    ensures (a + b)[..k] == a[..k]
  {
  }

  /** Dropping a prefix of the left part of a concatenation. */
  lemma DropAppend(a: string, b: string, k: nat)
    requires k <= |a|
    ensures (a + b)[k..] == a[k..] + b
  {
  }
}
