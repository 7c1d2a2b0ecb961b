/**
 * First-match search over a sequence. Both `Array.prototype.find` (used to
 * pick a filter button) and a `for … of` loop that returns on its first hit
 * (used to pick the price to alert on) are this one operation.
 */
module Search {

  import opened Wrappers

  /** `k` is the first position of `s` whose element satisfies `p`. */
  predicate IsFirst<T>(s: seq<T>, p: T -> bool, k: nat) {
    k < |s| && p(s[k]) && forall j :: 0 <= j < k ==> !p(s[j])
  }

  /** The scan from position `i` on, stopping at the first hit. */
  function FindFrom<T>(s: seq<T>, p: T -> bool, i: nat): (r: Option<nat>)
    requires i <= |s|
    ensures r.Some? ==> i <= r.value < |s| && p(s[r.value])
    ensures r.Some? ==> forall j :: i <= j < r.value ==> !p(s[j])
    ensures r.None? <==> forall j :: i <= j < |s| ==> !p(s[j])
    decreases |s| - i
  {
    if i == |s| then None
    else if p(s[i]) then Some(i)
    else FindFrom(s, p, i + 1)
  }

  /** The index of the first element satisfying `p`, or `None` if there is none. */
  function FindFirst<T>(s: seq<T>, p: T -> bool): (r: Option<nat>)
    ensures r.Some? ==> IsFirst(s, p, r.value)
    ensures r.None? <==> forall j :: 0 <= j < |s| ==> !p(s[j])
  {
    FindFrom(s, p, 0)
  }

  /** There is only one first match. */
  lemma IsFirstUnique<T>(s: seq<T>, p: T -> bool, k1: nat, k2: nat)
    requires IsFirst(s, p, k1) && IsFirst(s, p, k2)
    ensures k1 == k2
  {
  }

  /** The search result is determined by its contract. */
  lemma FindFirstIs<T>(s: seq<T>, p: T -> bool, k: nat)
    requires IsFirst(s, p, k)
    ensures FindFirst(s, p) == Some(k)
  {
    var r := FindFirst(s, p);
    assert p(s[k]);
    IsFirstUnique(s, p, r.value, k);
  }

  /**
   * Searching a concatenation: a hit in the front part wins; otherwise the
   * answer is the back part's hit, shifted past the front part.
   */
  lemma FindFirstAppend<T>(a: seq<T>, b: seq<T>, p: T -> bool)
    ensures FindFirst(a + b, p) ==
      match FindFirst(a, p)
      case Some(k) => Some(k)
      case None => match FindFirst(b, p)
        case Some(k) => Some(|a| + k)
        case None => None
  {
    var ab := a + b;
    match FindFirst(a, p)
    case Some(k) =>
      assert forall j :: 0 <= j < k ==> ab[j] == a[j];
      FindFirstIs(ab, p, k);
    case None =>
      match FindFirst(b, p)
      case Some(k) =>
        assert forall j :: 0 <= j < |a| ==> ab[j] == a[j] && !p(a[j]);
        assert forall j :: |a| <= j < |a| + k ==> ab[j] == b[j - |a|];
        assert ab[|a| + k] == b[k];
        FindFirstIs(ab, p, |a| + k);
      case None =>
        forall j | 0 <= j < |ab|
          ensures !p(ab[j])
        {
          if j < |a| {
            assert ab[j] == a[j];
          } else {
            assert ab[j] == b[j - |a|];
          }
        }
  }

  /** The search only looks at the predicate on the elements of the sequence. */
  lemma FindFirstCongruent<T>(s: seq<T>, p1: T -> bool, p2: T -> bool)
    requires forall j :: 0 <= j < |s| ==> p1(s[j]) == p2(s[j])
    ensures FindFirst(s, p1) == FindFirst(s, p2)
  {
    match FindFirst(s, p1)
    case Some(k) =>
      FindFirstIs(s, p2, k);
    case None =>
  }
}
