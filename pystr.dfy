/** Python's `str.find`, `str.split(sep)` and `str.startswith` on `seq<char>`, with
    `Join` (`sep.join(pieces)`) as the partner that undoes `Split`. */
module PyStr {
  import opened Galaxy

  /** `sep` occurs in `s` starting at position `i`. */
  predicate OccursAt(s: string, sep: string, i: int)
  {
    0 <= i && i + |sep| <= |s| && s[i..i + |sep|] == sep
  }

  /** `sep in s`. */
  predicate Contains(s: string, sep: string)
  {
    exists i | 0 <= i <= |s| :: OccursAt(s, sep, i)
  }

  /** `s.startswith(prefix)`. */
  predicate StartsWith(s: string, prefix: string)
  {
    |prefix| <= |s| && s[..|prefix|] == prefix
  }

  /** `s.find(sep, k)`: the first position at or after `k` where `sep` occurs
      (`None` for Python's `-1`); `FindFromLeftmost` says it is the first. */
  function FindFrom(s: string, sep: string, k: nat): (r: Option<nat>)
    decreases |s| - k
    ensures r.Some? ==> k <= r.value && OccursAt(s, sep, r.value)
  {
    if k + |sep| > |s| then None
    else if s[k..k + |sep|] == sep then Some(k)
    else FindFrom(s, sep, k + 1)
  }

  /** `s.split(sep)`: the pieces between the non-overlapping occurrences of `sep`,
      found left to right. Python refuses an empty separator. */
  function Split(s: string, sep: string): (r: seq<string>)
    requires |sep| > 0
    ensures |r| >= 1
  {
    SplitFrom(s, sep, 0)
  }

  /** The pieces of `s[k..]`, computed on `s` itself. */
  function SplitFrom(s: string, sep: string, k: nat): (r: seq<string>)
    requires |sep| > 0 && k <= |s|
    decreases |s| - k
    ensures |r| >= 1
  {
    match FindFrom(s, sep, k)
    case None => [s[k..]]
    case Some(i) => [s[k..i]] + SplitFrom(s, sep, i + |sep|)
  }

  /** `sep.join(pieces)`. */
  function Join(pieces: seq<string>, sep: string): string
  {
    if |pieces| == 0 then ""
    else if |pieces| == 1 then pieces[0]
    else pieces[0] + sep + Join(pieces[1..], sep)
  }

  /** `FindFrom` finds the leftmost occurrence: none lies between `k` and the result,
      and none lies at or after `k` when it finds nothing. */
  lemma {:induction false} FindFromLeftmost(s: string, sep: string, k: nat)
    ensures FindFrom(s, sep, k).Some? ==>
      forall j :: k <= j < FindFrom(s, sep, k).value ==> !OccursAt(s, sep, j)
    ensures FindFrom(s, sep, k).None? ==> forall j :: k <= j ==> !OccursAt(s, sep, j)
    decreases |s| - k
  {
    if k + |sep| <= |s| && s[k..k + |sep|] != sep {
      FindFromLeftmost(s, sep, k + 1);
    }
  }

  /** An occurrence inside a slice of `s` is an occurrence in `s`, shifted. */
  lemma OccursInSlice(s: string, sep: string, k: nat, i: nat, j: int)
    requires k <= i <= |s|
    requires OccursAt(s[k..i], sep, j)
    ensures OccursAt(s, sep, k + j) && k + j + |sep| <= i
  {
    assert |s[k..i]| == i - k;
    forall m | 0 <= m < |sep|
      ensures s[k + j..k + j + |sep|][m] == sep[m]
    {
      assert s[k..i][j..j + |sep|][m] == sep[m];
    }
  }

  /** A slice that ends before the next occurrence of `sep` does not contain it. */
  lemma SliceBeforeNext(s: string, sep: string, k: nat, i: nat)
    requires |sep| > 0 && k <= i <= |s|
    requires forall j :: k <= j < i ==> !OccursAt(s, sep, j)
    ensures !Contains(s[k..i], sep)
  {
    if Contains(s[k..i], sep) {
      var j :| 0 <= j <= i - k && OccursAt(s[k..i], sep, j);
      OccursInSlice(s, sep, k, i, j);
    }
  }

  /** One step of `SplitFrom`: a single piece when `sep` does not occur again,
      otherwise `s[k..i]` followed by the pieces after the occurrence at `i`. */
  lemma SplitFromUnfold(s: string, sep: string, k: nat)
    requires |sep| > 0 && k <= |s|
    ensures FindFrom(s, sep, k).None? ==> SplitFrom(s, sep, k) == [s[k..]]
    ensures FindFrom(s, sep, k).Some? ==>
      SplitFrom(s, sep, k) == [s[k..FindFrom(s, sep, k).value]] + SplitFrom(s, sep, FindFrom(s, sep, k).value + |sep|)
    ensures |SplitFrom(s, sep, k)| >= 2 <==> FindFrom(s, sep, k).Some?
  {
  }

  /** Joining a piece in front of at least one more puts the separator between them. */
  lemma JoinCons(p: string, tail: seq<string>, sep: string)
    requires |tail| >= 1
    ensures Join([p] + tail, sep) == p + sep + Join(tail, sep)
  {
  }

  /** Joining the pieces of `s[k..]` with the separator gives back `s[k..]`. */
  lemma {:induction false} SplitFromJoin(s: string, sep: string, k: nat)
    requires |sep| > 0 && k <= |s|
    ensures Join(SplitFrom(s, sep, k), sep) == s[k..]
    decreases |s| - k
  {
    SplitFromUnfold(s, sep, k);
    if FindFrom(s, sep, k).Some? {
      var i := FindFrom(s, sep, k).value;
      var tail := SplitFrom(s, sep, i + |sep|);
      SplitFromJoin(s, sep, i + |sep|);
      JoinCons(s[k..i], tail, sep);
      assert s[k..] == s[k..i] + s[i..i + |sep|] + s[i + |sep|..];
    }
  }

  /** Joining the pieces with the separator gives back the original string. */
  lemma SplitJoin(s: string, sep: string)
    requires |sep| > 0
    ensures Join(Split(s, sep), sep) == s
  {
    SplitFromJoin(s, sep, 0);
    assert s[0..] == s;
  }

  /** No piece of `s[k..]` contains the separator. */
  lemma {:induction false} SplitFromPiecesFree(s: string, sep: string, k: nat)
    requires |sep| > 0 && k <= |s|
    ensures forall p | p in SplitFrom(s, sep, k) :: !Contains(p, sep)
    decreases |s| - k
  {
    SplitFromUnfold(s, sep, k);
    FindFromLeftmost(s, sep, k);
    if FindFrom(s, sep, k).Some? {
      var i := FindFrom(s, sep, k).value;
      SplitFromPiecesFree(s, sep, i + |sep|);
      SliceBeforeNext(s, sep, k, i);
    } else {
      SliceBeforeNext(s, sep, k, |s|);
      assert s[k..|s|] == s[k..];
    }
  }

  /** No piece contains the separator. */
  lemma SplitPiecesFree(s: string, sep: string)
    requires |sep| > 0
    ensures forall p | p in Split(s, sep) :: !Contains(p, sep)
  {
    SplitFromPiecesFree(s, sep, 0);
  }

  /** The first piece `p` of `s[k..]` runs from `k` to the next occurrence of `sep`
      or to the end of `s`, and contains no `sep`. */
  lemma SplitFromFirstPiece(s: string, sep: string, k: nat, p: string)
    requires |sep| > 0 && k <= |s|
    requires p == SplitFrom(s, sep, k)[0]
    ensures k + |p| <= |s| && p == s[k..k + |p|]
    ensures !Contains(p, sep)
    ensures k + |p| == |s| || OccursAt(s, sep, k + |p|)
  {
    SplitFromUnfold(s, sep, k);
    FindFromLeftmost(s, sep, k);
    if FindFrom(s, sep, k).Some? {
      SliceBeforeNext(s, sep, k, FindFrom(s, sep, k).value);
    } else {
      SliceBeforeNext(s, sep, k, |s|);
    }
  }

  /** The first piece is the part of `s` before the first `sep`, or all of `s`;
      it is the only piece exactly when `sep` does not occur. */
  lemma SplitFirstPiece(s: string, sep: string, p: string)
    requires |sep| > 0
    requires p == Split(s, sep)[0]
    ensures StartsWith(s, p)
    ensures !Contains(p, sep)
    ensures p == s || OccursAt(s, sep, |p|)
    ensures |Split(s, sep)| == 1 <==> !Contains(s, sep)
  {
    SplitFromFirstPiece(s, sep, 0, p);
    SplitFromUnfold(s, sep, 0);
    FindFromLeftmost(s, sep, 0);
  }

  /** When the leftmost occurrence of `sep` is at `n`, the first piece is `s[..n]`. */
  lemma SplitFirstPieceAt(s: string, sep: string, n: nat)
    requires |sep| > 0 && OccursAt(s, sep, n)
    requires forall j | 0 <= j < n :: !OccursAt(s, sep, j)
    ensures |Split(s, sep)| >= 2 && Split(s, sep)[0] == s[..n]
  {
    FindFromLeftmost(s, sep, 0);
    SplitFromUnfold(s, sep, 0);
    assert FindFrom(s, sep, 0) == Some(n);
  }

  /** A second piece exists exactly when the first one ended at an occurrence of `sep`,
      at `i`; it is then the first piece of what follows that occurrence. */
  lemma SplitSecondPieceStart(s: string, sep: string, i: nat, q: string)
    requires |sep| > 0
    requires |Split(s, sep)| >= 2 && i == |Split(s, sep)[0]| && q == Split(s, sep)[1]
    ensures OccursAt(s, sep, i)
    ensures q == SplitFrom(s, sep, i + |sep|)[0]
  {
  }

  /** When there is a second piece `q`, the first piece (of length `i`) ended at an
      occurrence of `sep`; `q` starts right after it, contains no `sep`, and runs to
      the end of `s` or up to the next occurrence. */
  lemma SplitSecondPiece(s: string, sep: string, i: nat, q: string)
    requires |sep| > 0
    requires |Split(s, sep)| >= 2 && i == |Split(s, sep)[0]| && q == Split(s, sep)[1]
    ensures OccursAt(s, sep, i)
    ensures i + |sep| + |q| <= |s| && q == s[i + |sep|..i + |sep| + |q|]
    ensures !Contains(q, sep)
    ensures i + |sep| + |q| == |s| || OccursAt(s, sep, i + |sep| + |q|)
  {
    SplitSecondPieceStart(s, sep, i, q);
    SplitFromFirstPiece(s, sep, i + |sep|, q);
  }

  /** For a one-character separator, "contains" is plain membership. */
  lemma ContainsChar(s: string, c: char)
    ensures Contains(s, [c]) <==> c in s
  {
    if c in s {
      var i :| 0 <= i < |s| && s[i] == c;
      assert OccursAt(s, [c], i);
    }
    if Contains(s, [c]) {
      var i :| 0 <= i <= |s| && OccursAt(s, [c], i);
      assert s[i..i + 1] == [c];
      assert s[i] == c;
    }
  }
}
