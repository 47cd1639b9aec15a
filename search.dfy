/**
 * Leftmost occurrence of a needle in a haystack: Rust's `str::find` on the
 * cover lines and `find_subsequence` (src/bin/client_shadow.rs) on the byte
 * stream. Both scan windows left to right and report the first match.
 */
module Search {
  import opened Wrappers

  ghost predicate OccursAt<T>(hay: seq<T>, needle: seq<T>, i: nat) {
    i + |needle| <= |hay| && hay[i..i + |needle|] == needle
  }

  function FindFrom<T(==)>(hay: seq<T>, needle: seq<T>, i: nat): (r: Option<nat>)
    ensures r.Some? ==> i <= r.value && OccursAt(hay, needle, r.value)
    ensures r.Some? ==> forall j: nat :: i <= j < r.value ==> !OccursAt(hay, needle, j)
    ensures r.None? ==> forall j: nat :: i <= j ==> !OccursAt(hay, needle, j)
    decreases |hay| - i
  {
    if i + |needle| > |hay| then None
    else if hay[i..i + |needle|] == needle then Some(i)
    else FindFrom(hay, needle, i + 1)
  }

  /** The least index where `needle` occurs in `hay`, or None when it occurs nowhere. */
  function Find<T(==)>(hay: seq<T>, needle: seq<T>): (r: Option<nat>)
    ensures r.Some? <==> exists j: nat :: OccursAt(hay, needle, j)
    ensures r.Some? ==> OccursAt(hay, needle, r.value)
    ensures r.Some? ==> forall j: nat :: j < r.value ==> !OccursAt(hay, needle, j)
  {
    FindFrom(hay, needle, 0)
  }

  /** A haystack shorter than the needle never matches (`windows` yields no window). */
  lemma FindShort<T>(hay: seq<T>, needle: seq<T>)
    requires |hay| < |needle|
    ensures Find(hay, needle) == None
  {
  }

  /**
   * If the needle occurs at k and no earlier element equals the needle's first
   * element, the search reports k.
   */
  lemma FindAt<T>(hay: seq<T>, needle: seq<T>, k: nat)
    requires |needle| > 0 && OccursAt(hay, needle, k)
    requires forall i :: 0 <= i < k ==> hay[i] != needle[0]
    ensures Find(hay, needle) == Some(k)
  {
    var r := Find(hay, needle).value;
    assert hay[r..r + |needle|][0] == needle[0];
  }

  /** A needle whose first element is absent from the haystack is not found. */
  lemma FindAbsent<T>(hay: seq<T>, needle: seq<T>)
    requires |needle| > 0 && needle[0] !in hay
    ensures Find(hay, needle) == None
  {
    forall j: nat | j + |needle| <= |hay|
      ensures !OccursAt(hay, needle, j)
    {
      assert hay[j] in hay;
      assert hay[j..j + |needle|][0] == hay[j];
    }
  }

  /**
   * Appending to the haystack never moves a match that lies wholly inside it:
   * the first match in `a` is the first match in `a + b`.
   */
  lemma FindExtend<T>(a: seq<T>, b: seq<T>, needle: seq<T>)
    requires Find(a, needle).Some?
    ensures Find(a + b, needle) == Find(a, needle)
  {
    var p := Find(a, needle).value;
    assert (a + b)[p..p + |needle|] == a[p..p + |needle|];
    assert OccursAt(a + b, needle, p);
    forall j: nat | j < p
      ensures !OccursAt(a + b, needle, j)
    {
      if OccursAt(a + b, needle, j) {
        assert (a + b)[j..j + |needle|] == a[j..j + |needle|];
        assert OccursAt(a, needle, j);
      }
    }
    var q := Find(a + b, needle).value;
    assert !(q < p) && !(p < q);
  }

  /** The needle placed right after a stretch that lacks its first element is found exactly there. */
  lemma FindAfter<T>(pre: seq<T>, needle: seq<T>, post: seq<T>)
    requires |needle| > 0 && needle[0] !in pre
    ensures Find(pre + needle + post, needle) == Some(|pre|)
  {
    var hay := pre + needle + post;
    assert hay[|pre|..|pre| + |needle|] == needle;
    forall i | 0 <= i < |pre|
      ensures hay[i] != needle[0]
    {
      assert hay[i] == pre[i];
    }
    FindAt(hay, needle, |pre|);
  }

  /** An occurrence with no earlier occurrence is the one reported. */
  lemma FindFirst<T>(hay: seq<T>, needle: seq<T>, k: nat)
    requires OccursAt(hay, needle, k)
    requires forall j: nat :: j < k ==> !OccursAt(hay, needle, j)
    ensures Find(hay, needle) == Some(k)
  {
    var r := Find(hay, needle).value;
    assert !(r < k) && !(k < r);
  }
}
