/**
  The Python string behaviour the search handler relies on, on strings as
  sequences of characters:

  - `RemoveAll(s, pat)` is `s.replace(pat, "")`: one left-to-right pass that
    deletes every non-overlapping occurrence of `pat`, the leftmost first, and
    never looks again at text it has already emitted;
  - `Find(s, pat, from)` is `s.find(pat, from)` for `0 <= from <= len(s)`, used here only to give an
    independent, find-and-skip definition of the same removal
    (`RemoveByFind`), against which `RemoveAll` is proved equal.
 */
module PyStr {

  /**
    `pat` occurs in `s` starting at index `i`, compared character by
    character; `MatchAtIff` restates it as `s[i..i + |pat|] == pat`.
   */
  predicate MatchAt(s: string, pat: string, i: int)
  {
    0 <= i && i + |pat| <= |s| && AgreeFrom(s, pat, i, 0)
  }

  /** `s[i + k..]` agrees with `pat[k..]` for as long as `pat` lasts. */
  predicate AgreeFrom(s: string, pat: string, i: nat, k: nat)
    requires i + |pat| <= |s|
    decreases |pat| - k
  {
    k >= |pat| || (s[i + k] == pat[k] && AgreeFrom(s, pat, i, k + 1))
  }

  /** `pat` occurs somewhere in `s` (Python's `pat in s`). */
  predicate Occurs(s: string, pat: string)
  {
    exists i :: 0 <= i <= |s| - |pat| && MatchAt(s, pat, i)
  }

  /** No match of `pat` starts in `[from, i)`, stated index by index. */
  predicate NoMatchIn(s: string, pat: string, from: nat, i: nat)
    decreases i - from
  {
    from >= i || (!MatchAt(s, pat, from) && NoMatchIn(s, pat, from + 1, i))
  }

  /** `a` can be obtained from `b` by deleting characters. */
  predicate IsSubsequence(a: string, b: string)
    decreases |b|
  {
    a == [] || (b != [] && ((a[0] == b[0] && IsSubsequence(a[1..], b[1..])) || IsSubsequence(a, b[1..])))
  }

  /**
    The scan of `s.replace(pat, "")` from index `i` on: a match at `i` is
    skipped whole, otherwise `s[i]` is kept and the scan moves on by one. An
    empty `pat` keeps the text as it is, as Python does when both arguments of
    `replace` are empty.
   */
  function RemoveFrom(s: string, pat: string, i: nat): string
    requires i <= |s|
    decreases |s| - i
  {
    if pat == [] || |s| - i < |pat| then s[i..]
    else if MatchAt(s, pat, i) then RemoveFrom(s, pat, i + |pat|)
    else [s[i]] + RemoveFrom(s, pat, i + 1)
  }

  /** Python's `s.replace(pat, "")`: the scan over the whole string. */
  function RemoveAll(s: string, pat: string): (r: string)
    ensures |r| <= |s|
  {
    RemovedLength(s, pat, 0);
    RemoveFrom(s, pat, 0)
  }

  /** The number of matches the scan from `i` deletes. */
  function CountFrom(s: string, pat: string, i: nat): nat
    requires i <= |s|
    decreases |s| - i
  {
    if pat == [] || |s| - i < |pat| then 0
    else if MatchAt(s, pat, i) then 1 + CountFrom(s, pat, i + |pat|)
    else CountFrom(s, pat, i + 1)
  }

  /** The number of occurrences of `pat` that `RemoveAll(s, pat)` deletes. */
  function MatchCount(s: string, pat: string): (n: nat)
    ensures n * |pat| <= |s|
  {
    RemovedLength(s, pat, 0);
    CountFrom(s, pat, 0)
  }

  /**
    Python's `s.find(pat, from)` for `0 <= from <= len(s)`: the leftmost
    index at or after `from` where `pat` occurs, or -1 when there is none.
   */
  function Find(s: string, pat: string, from: nat): (r: int)
    requires from <= |s|
    ensures r == -1 || (from <= r && MatchAt(s, pat, r))
    ensures r != -1 ==> NoMatchIn(s, pat, from, r)
    ensures r == -1 ==> NoMatchIn(s, pat, from, |s|)
    decreases |s| - from
  {
    if from + |pat| > |s| then
      NoMatchNearEnd(s, pat, from);
      -1
    else if MatchAt(s, pat, from) then from
    else Find(s, pat, from + 1)
  }

  /**
    The removal written the other way round: find the leftmost match at or
    after `from`, keep the text before it, skip the match and go on after it;
    once nothing is found, keep the rest.
   */
  function RemoveByFind(s: string, pat: string, from: nat): string
    requires pat != [] && from <= |s|
    decreases |s| - from
  {
    var i := Find(s, pat, from);
    if i == -1 then s[from..]
    else s[from..i] + RemoveByFind(s, pat, i + |pat|)
  }

  /** Too close to the end for `pat` to fit, so no match starts there. */
  lemma {:induction false} NoMatchNearEnd(s: string, pat: string, from: nat)
    requires from + |pat| > |s|
    ensures NoMatchIn(s, pat, from, |s|)
    decreases |s| - from
  {
    if from < |s| {
      NoMatchNearEnd(s, pat, from + 1);
    }
  }

  lemma {:induction false} NoMatchInFromForall(s: string, pat: string, from: nat, i: nat)
    requires forall j :: from <= j < i ==> !MatchAt(s, pat, j)
    ensures NoMatchIn(s, pat, from, i)
    decreases i - from
  {
    if from < i {
      NoMatchInFromForall(s, pat, from + 1, i);
    }
  }

  /** A match at `j` inside `[from, i)` rules `NoMatchIn` out. */
  lemma {:induction false} MatchBreaksNoMatchIn(s: string, pat: string, from: nat, i: nat, j: nat)
    requires from <= j < i && MatchAt(s, pat, j)
    ensures !NoMatchIn(s, pat, from, i)
    decreases j - from
  {
    if from < j {
      MatchBreaksNoMatchIn(s, pat, from + 1, i, j);
    }
  }

  lemma {:induction false} AgreeFromIff(s: string, pat: string, i: nat, k: nat)
    requires i + |pat| <= |s| && k <= |pat|
    ensures AgreeFrom(s, pat, i, k) <==> s[i + k..i + |pat|] == pat[k..]
    decreases |pat| - k
  {
    if k < |pat| {
      AgreeFromIff(s, pat, i, k + 1);
      assert s[i + k..i + |pat|] == [s[i + k]] + s[i + k + 1..i + |pat|];
      assert pat[k..] == [pat[k]] + pat[k + 1..];
      if s[i + k..i + |pat|] == pat[k..] {
        assert s[i + k..i + |pat|][0] == pat[k..][0];
        assert s[i + k..i + |pat|][1..] == pat[k..][1..];
      }
    }
  }

  /** `MatchAt` is the slice comparison `s[i..i + |pat|] == pat`. */
  lemma MatchAtIff(s: string, pat: string, i: int)
    ensures MatchAt(s, pat, i) <==> 0 <= i && i + |pat| <= |s| && s[i..i + |pat|] == pat
  {
    if 0 <= i && i + |pat| <= |s| {
      AgreeFromIff(s, pat, i, 0);
      assert pat[0..] == pat;
    }
  }

  /** One differing character rules a match out. */
  lemma NoMatchAtMismatch(s: string, pat: string, i: nat, k: nat)
    requires k < |pat| && i + k < |s| && s[i + k] != pat[k]
    ensures !MatchAt(s, pat, i)
  {
    MatchAtIff(s, pat, i);
    if i + |pat| <= |s| {
      assert s[i..i + |pat|][k] == s[i + k];
    }
  }

  lemma SliceConcat(s: string, a: nat, b: nat, c: nat)
    requires a <= b <= c <= |s|
    ensures s[a..b] + s[b..c] == s[a..c]
  {
  }

  lemma ConsAppend(x: char, a: string, b: string, c: string)
    requires [x] + a == c
    ensures [x] + (a + b) == c + b
  {
    assert [x] + (a + b) == ([x] + a) + b;
  }

  /** Where `pat` cannot fit any more, the scan keeps the rest. */
  lemma RemoveFromShort(s: string, pat: string, i: nat)
    requires i <= |s| && (pat == [] || |s| - i < |pat|)
    ensures RemoveFrom(s, pat, i) == s[i..]
  {
  }

  /** A match at `i` is skipped whole. */
  lemma RemoveFromSkip(s: string, pat: string, i: nat)
    requires pat != [] && MatchAt(s, pat, i)
    ensures RemoveFrom(s, pat, i) == RemoveFrom(s, pat, i + |pat|)
  {
  }

  /** Without a match at `i`, `s[i]` is kept. */
  lemma RemoveFromKeep(s: string, pat: string, i: nat)
    requires pat != [] && i + |pat| <= |s| && !MatchAt(s, pat, i)
    ensures RemoveFrom(s, pat, i) == [s[i]] + RemoveFrom(s, pat, i + 1)
  {
  }

  /**
    While no match starts in `[from, i)`, the scan copies `s[from..i]` as it
    is and then goes on from `i`.
   */
  lemma {:induction false} ScanUntil(s: string, pat: string, from: nat, i: nat)
    requires from <= i <= |s|
    requires NoMatchIn(s, pat, from, i)
    ensures RemoveFrom(s, pat, from) == s[from..i] + RemoveFrom(s, pat, i)
    decreases i - from
  {
    if from == i {
      assert s[from..i] == [];
    } else if pat == [] || |s| - from < |pat| {
      RemoveFromShort(s, pat, from);
      RemoveFromShort(s, pat, i);
      SliceConcat(s, from, i, |s|);
    } else {
      RemoveFromKeep(s, pat, from);
      ScanUntil(s, pat, from + 1, i);
      SliceConcat(s, from, from + 1, i);
      assert s[from..from + 1] == [s[from]];
      ConsAppend(s[from], s[from + 1..i], RemoveFrom(s, pat, i), s[from..i]);
    }
  }

  /** With no match at or after `from`, the scan keeps `s[from..]` whole. */
  lemma RemoveFromNoMatch(s: string, pat: string, from: nat)
    requires from <= |s| && NoMatchIn(s, pat, from, |s|)
    ensures RemoveFrom(s, pat, from) == s[from..]
  {
    ScanUntil(s, pat, from, |s|);
    RemoveFromShort(s, pat, |s|);
    assert s[from..|s|] + s[|s|..] == s[from..];
  }

  lemma SuffixesAgree(s: string, t: string, i: nat, j: nat, d: nat)
    requires i <= |s| && j <= |t| && s[i..] == t[j..] && d <= |s| - i
    ensures s[i + d..] == t[j + d..] && s[i..i + d] == t[j..j + d]
  {
    assert s[i + d..] == s[i..][d..];
    assert t[j + d..] == t[j..][d..];
    assert s[i..i + d] == s[i..][..d];
    assert t[j..j + d] == t[j..][..d];
  }

  lemma HeadsAgree(s: string, t: string, i: nat, j: nat)
    requires i < |s| && j < |t| && s[i..] == t[j..]
    ensures s[i] == t[j]
  {
    assert s[i] == s[i..][0];
    assert t[j] == t[j..][0];
  }

  lemma MatchAtSameRest(s: string, t: string, pat: string, i: nat, j: nat)
    requires i <= |s| && j <= |t| && s[i..] == t[j..]
    ensures MatchAt(s, pat, i) <==> MatchAt(t, pat, j)
  {
    MatchAtIff(s, pat, i);
    MatchAtIff(t, pat, j);
    assert |s| - i == |t| - j;
    if |pat| <= |s| - i {
      SuffixesAgree(s, t, i, j, |pat|);
    }
  }

  /** A match at the common rest is skipped on both sides. */
  lemma SameRestSkip(s: string, t: string, pat: string, i: nat, j: nat)
    requires pat != [] && i <= |s| && j <= |t| && s[i..] == t[j..] && MatchAt(s, pat, i)
    ensures i + |pat| <= |s| && j + |pat| <= |t| && s[i + |pat|..] == t[j + |pat|..]
    ensures RemoveFrom(s, pat, i) == RemoveFrom(s, pat, i + |pat|)
    ensures RemoveFrom(t, pat, j) == RemoveFrom(t, pat, j + |pat|)
  {
    MatchAtSameRest(s, t, pat, i, j);
    SuffixesAgree(s, t, i, j, |pat|);
    RemoveFromSkip(s, pat, i);
    RemoveFromSkip(t, pat, j);
  }

  /** Without a match at the common rest, both sides keep the same character. */
  lemma SameRestKeep(s: string, t: string, pat: string, i: nat, j: nat)
    requires pat != [] && i + |pat| <= |s| && j <= |t| && s[i..] == t[j..] && !MatchAt(s, pat, i)
    ensures i < |s| && j < |t| && s[i + 1..] == t[j + 1..]
    ensures RemoveFrom(s, pat, i) == [s[i]] + RemoveFrom(s, pat, i + 1)
    ensures RemoveFrom(t, pat, j) == [s[i]] + RemoveFrom(t, pat, j + 1)
  {
    MatchAtSameRest(s, t, pat, i, j);
    SuffixesAgree(s, t, i, j, 1);
    HeadsAgree(s, t, i, j);
    RemoveFromKeep(s, pat, i);
    RemoveFromKeep(t, pat, j);
  }

  /** The scan from `i` depends only on the text from `i` on. */
  lemma {:induction false} RemoveFromSameRest(s: string, t: string, pat: string, i: nat, j: nat)
    requires i <= |s| && j <= |t| && s[i..] == t[j..]
    ensures RemoveFrom(s, pat, i) == RemoveFrom(t, pat, j)
    decreases |s| - i
  {
    assert |s| - i == |t| - j;
    if pat == [] || |s| - i < |pat| {
      RemoveFromShort(s, pat, i);
      RemoveFromShort(t, pat, j);
    } else if MatchAt(s, pat, i) {
      SameRestSkip(s, t, pat, i, j);
      RemoveFromSameRest(s, t, pat, i + |pat|, j + |pat|);
    } else {
      SameRestKeep(s, t, pat, i, j);
      RemoveFromSameRest(s, t, pat, i + 1, j + 1);
    }
  }

  lemma ConcatParts(x: string, pat: string, y: string)
    ensures (x + pat + y)[0..|x|] == x
    ensures (x + pat + y)[|x|..|x| + |pat|] == pat
    ensures (x + pat + y)[|x| + |pat|..] == y[0..]
  {
    var s := x + pat + y;
    assert s[0..|x|] == x;
    assert s[|x|..|x| + |pat|] == pat;
    assert s[|x| + |pat|..] == y;
  }

  /**
    Removal deletes a match wherever it stands: if no match starts inside
    `x`, then removing from `x + pat + y` keeps `x`, drops that `pat` and
    goes on with `y`.
   */
  lemma RemoveAfterPrefix(x: string, pat: string, y: string)
    requires pat != []
    requires forall j :: 0 <= j < |x| ==> !MatchAt(x + pat + y, pat, j)
    ensures RemoveAll(x + pat + y, pat) == x + RemoveAll(y, pat)
  {
    var s := x + pat + y;
    NoMatchInFromForall(s, pat, 0, |x|);
    ConcatParts(x, pat, y);
    ScanUntil(s, pat, 0, |x|);
    MatchAtIff(s, pat, |x|);
    RemoveFromSkip(s, pat, |x|);
    RemoveFromSameRest(s, y, pat, |x| + |pat|, 0);
  }

  /** One round of the find-and-skip definition. */
  lemma RemoveByFindStep(s: string, pat: string, from: nat)
    requires pat != [] && from <= |s|
    ensures var i := Find(s, pat, from);
      RemoveByFind(s, pat, from) == if i == -1 then s[from..] else s[from..i] + RemoveByFind(s, pat, i + |pat|)
  {
  }

  /** From any start, the scan and the find-and-skip definition agree. */
  lemma {:induction false} RemoveFromIsRemoveByFind(s: string, pat: string, from: nat)
    requires pat != [] && from <= |s|
    ensures RemoveFrom(s, pat, from) == RemoveByFind(s, pat, from)
    decreases |s| - from
  {
    var i := Find(s, pat, from);
    RemoveByFindStep(s, pat, from);
    if i == -1 {
      RemoveFromNoMatch(s, pat, from);
    } else {
      calc {
        RemoveFrom(s, pat, from);
        { ScanUntil(s, pat, from, i); }
        s[from..i] + RemoveFrom(s, pat, i);
        { RemoveFromSkip(s, pat, i); }
        s[from..i] + RemoveFrom(s, pat, i + |pat|);
        { RemoveFromIsRemoveByFind(s, pat, i + |pat|); }
        s[from..i] + RemoveByFind(s, pat, i + |pat|);
      }
    }
  }

  /** The scan and the find-and-skip definition compute the same string. */
  lemma RemoveAllIsRemoveByFind(s: string, pat: string)
    requires pat != []
    ensures RemoveAll(s, pat) == RemoveByFind(s, pat, 0)
  {
    RemoveFromIsRemoveByFind(s, pat, 0);
  }

  lemma MulSucc(a: nat, c: nat)
    ensures a * (c + 1) == a * c + a
  {
  }

  /** Every match the scan deletes shortens the result by exactly `|pat|`. */
  lemma {:induction false} RemovedLength(s: string, pat: string, i: nat)
    requires i <= |s|
    ensures |RemoveFrom(s, pat, i)| + |pat| * CountFrom(s, pat, i) == |s| - i
    decreases |s| - i
  {
    if pat == [] || |s| - i < |pat| {
      RemoveFromShort(s, pat, i);
    } else if MatchAt(s, pat, i) {
      RemoveFromSkip(s, pat, i);
      assert CountFrom(s, pat, i) == 1 + CountFrom(s, pat, i + |pat|);
      RemovedLength(s, pat, i + |pat|);
      MulSucc(|pat|, CountFrom(s, pat, i + |pat|));
    } else {
      RemoveFromKeep(s, pat, i);
      assert CountFrom(s, pat, i) == CountFrom(s, pat, i + 1);
      RemovedLength(s, pat, i + 1);
    }
  }

  /** The length of `s.replace(pat, "")` is `|s|` less `|pat|` per match. */
  lemma RemoveAllLength(s: string, pat: string)
    ensures |RemoveAll(s, pat)| + |pat| * MatchCount(s, pat) == |s|
  {
    RemovedLength(s, pat, 0);
  }

  /**
    For a non-empty pattern, the scan from `i` deletes nothing exactly when
    no match starts at or after `i`.
   */
  lemma {:induction false} CountFromZeroIff(s: string, pat: string, i: nat)
    requires pat != [] && i <= |s|
    ensures CountFrom(s, pat, i) == 0 <==> NoMatchIn(s, pat, i, |s|)
    decreases |s| - i
  {
    if |s| - i < |pat| {
      NoMatchNearEnd(s, pat, i);
    } else if MatchAt(s, pat, i) {
      MatchBreaksNoMatchIn(s, pat, i, |s|, i);
    } else {
      CountFromZeroIff(s, pat, i + 1);
    }
  }

  /** For a non-empty pattern, something is deleted exactly when it occurs. */
  lemma MatchCountPositiveIff(s: string, pat: string)
    requires pat != []
    ensures MatchCount(s, pat) > 0 <==> Occurs(s, pat)
  {
    CountFromZeroIff(s, pat, 0);
    if Occurs(s, pat) {
      var j :| 0 <= j <= |s| - |pat| && MatchAt(s, pat, j);
      MatchBreaksNoMatchIn(s, pat, 0, |s|, j);
    } else {
      NoMatchInFromForall(s, pat, 0, |s|);
    }
  }

  /**
    Removal leaves the string unchanged exactly when the (non-empty)
    pattern does not occur in it.
   */
  lemma RemoveAllUnchangedIff(s: string, pat: string)
    requires pat != []
    ensures RemoveAll(s, pat) == s <==> !Occurs(s, pat)
  {
    RemoveAllLength(s, pat);
    MatchCountPositiveIff(s, pat);
    if !Occurs(s, pat) {
      NoMatchInFromForall(s, pat, 0, |s|);
      RemoveFromNoMatch(s, pat, 0);
      assert s[0..] == s;
    } else {
      assert |pat| * MatchCount(s, pat) > 0;
    }
  }

  lemma {:induction false} SubsequenceRefl(s: string)
    ensures IsSubsequence(s, s)
    decreases |s|
  {
    if s != [] {
      SubsequenceRefl(s[1..]);
    }
  }

  lemma {:induction false} SubsequenceOfLonger(a: string, c: string, b: string)
    requires IsSubsequence(a, b)
    ensures IsSubsequence(a, c + b)
    decreases |c|
  {
    if c == [] {
      assert c + b == b;
    } else if a != [] {
      SubsequenceOfLonger(a, c[1..], b);
      assert (c + b)[1..] == c[1..] + b;
    }
  }

  /** What the scan from `i` keeps is a subsequence of `s[i..]`. */
  lemma {:induction false} RemoveFromIsSubsequence(s: string, pat: string, i: nat)
    requires i <= |s|
    ensures IsSubsequence(RemoveFrom(s, pat, i), s[i..])
    decreases |s| - i
  {
    if pat == [] || |s| - i < |pat| {
      SubsequenceRefl(s[i..]);
    } else if MatchAt(s, pat, i) {
      RemoveFromIsSubsequence(s, pat, i + |pat|);
      SubsequenceOfLonger(RemoveFrom(s, pat, i), s[i..i + |pat|], s[i + |pat|..]);
      assert s[i..i + |pat|] + s[i + |pat|..] == s[i..];
    } else {
      RemoveFromIsSubsequence(s, pat, i + 1);
      assert s[i..][1..] == s[i + 1..];
    }
  }

  /**
    Removal only deletes: what remains are characters of `s`, in the order
    they had in `s`.
   */
  lemma RemoveAllIsSubsequence(s: string, pat: string)
    ensures IsSubsequence(RemoveAll(s, pat), s)
  {
    RemoveFromIsSubsequence(s, pat, 0);
    assert s[0..] == s;
  }
}
