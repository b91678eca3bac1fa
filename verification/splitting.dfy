/**
 * Splitting a string on a fixed, non-empty delimiter the way JavaScript's
 * `String.prototype.split` does with a regular expression that matches one
 * literal string: the input is scanned left to right, each leftmost
 * occurrence ends a piece, and scanning resumes after it (occurrences never
 * overlap).  `Join` is `Array.prototype.join` with the same delimiter.
 */
module Splitting {
  import opened Results

  /** `d` occurs in `s` starting at index `i`. */
  predicate OccursAt(s: string, d: string, i: int) {
    0 <= i && i + |d| <= |s| && s[i..i + |d|] == d
  }

  /** `d` occurs somewhere in `s`. */
  predicate Contains(s: string, d: string) {
    exists i :: 0 <= i <= |s| && OccursAt(s, d, i)
  }

  /** `s` ends with `d`. */
  predicate EndsWith(s: string, d: string) {
    |d| <= |s| && s[|s| - |d|..] == d
  }

  /** The first occurrence of `d` in `s` at or after index `k`. */
  function FirstIndexFrom(s: string, d: string, k: nat): (r: Option<nat>)
    requires k <= |s|
    ensures r.Some? ==> k <= r.value && OccursAt(s, d, r.value)
    ensures r.Some? ==> forall j :: k <= j < r.value ==> !OccursAt(s, d, j)
    ensures r.None? ==> forall j :: k <= j ==> !OccursAt(s, d, j)
    decreases |s| - k
  {
    if k + |d| > |s| then None
    else if s[k..k + |d|] == d then Some(k)
    else FirstIndexFrom(s, d, k + 1)
  }

  /** The leftmost occurrence of `d` in `s`, if there is one. */
  function FirstIndex(s: string, d: string): (r: Option<nat>)
    ensures r.None? <==> !Contains(s, d)
    ensures r.Some? ==> OccursAt(s, d, r.value)
    ensures r.Some? ==> forall j :: 0 <= j < r.value ==> !OccursAt(s, d, j)
  {
    FirstIndexFrom(s, d, 0)
  }

  /** An occurrence inside a prefix of `s` is an occurrence in `s`: where
      `s` has none, its prefix has none. */
  lemma NotInPrefix(s: string, d: string, n: nat, j: int)
    requires n <= |s|
    requires !OccursAt(s, d, j)
    ensures !OccursAt(s[..n], d, j)
  {
    if 0 <= j && j + |d| <= n {
      assert s[..n][j..j + |d|] == s[j..j + |d|];
    }
  }

  /** A string lacking the delimiter's first character cannot contain it. */
  lemma MissingFirstCharNotContained(s: string, d: string)
    requires d != []
    requires forall i :: 0 <= i < |s| ==> s[i] != d[0]
    ensures !Contains(s, d)
  {
    forall j | 0 <= j <= |s| ensures !OccursAt(s, d, j) {
      if j + |d| <= |s| {
        assert s[j..j + |d|][0] == s[j];
      }
    }
  }

  /** The pieces of `s` between the successive leftmost, non-overlapping
      occurrences of `d`: `s.split(d)`.  There is always at least one piece
      (the empty string splits into one empty piece). */
  function Split(s: string, d: string): (r: seq<string>)
    requires d != []
    ensures |r| >= 1
    decreases |s|
  {
    match FirstIndex(s, d)
    case None => [s]
    case Some(i) => [s[..i]] + Split(s[i + |d|..], d)
  }

  /** `ps.join(d)`. */
  function Join(ps: seq<string>, d: string): string {
    if |ps| == 0 then ""
    else if |ps| == 1 then ps[0]
    else ps[0] + d + Join(ps[1..], d)
  }

  /** `ps` is a legitimate way to cut `s` at occurrences of `d`, read left to
      right: joining the pieces gives back `s`, no piece contains `d`, and no
      occurrence of `d` starts inside a piece and runs into the delimiter
      after it (so each delimiter is the leftmost one still available). */
  ghost predicate IsSplitOf(ps: seq<string>, s: string, d: string)
    requires d != []
  {
    && |ps| >= 1
    && Join(ps, d) == s
    && (forall k :: 0 <= k < |ps| ==> !Contains(ps[k], d))
    && (forall k :: 0 <= k < |ps| - 1 ==> !Contains(ps[k] + d[..|d| - 1], d))
  }

  /** One step of Split: the first piece, then the split of what follows
      the leftmost delimiter. */
  lemma SplitStep(s: string, d: string, i: nat)
    requires d != []
    requires FirstIndex(s, d) == Some(i)
    ensures Split(s, d) == [s[..i]] + Split(s[i + |d|..], d)
  {
  }

  /** Cutting `s` around an occurrence of `d` loses nothing. */
  lemma CutAround(s: string, d: string, i: nat)
    requires OccursAt(s, d, i)
    ensures s == s[..i] + d + s[i + |d|..]
  {
    assert s[i..] == s[i..i + |d|] + s[i + |d|..];
    assert s == s[..i] + s[i..];
  }

  /** Splitting is lossless: joining the pieces with the delimiter
      reproduces the input. */
  lemma {:induction false} SplitJoin(s: string, d: string)
    requires d != []
    ensures Join(Split(s, d), d) == s
    decreases |s|
  {
    var first := FirstIndex(s, d);
    if first.Some? {
      var i := first.value;
      var rest := s[i + |d|..];
      SplitJoin(rest, d);
      SplitStep(s, d, i);
      CutAround(s, d, i);
      var ps := Split(s, d);
      assert ps[1..] == Split(rest, d);
    }
  }

  /** No occurrence of `d` in `s` starts before the leftmost one, so none
      fits inside the first piece followed by all but the last character of
      the delimiter. */
  lemma FirstPieceLeftmost(s: string, d: string, i: nat)
    requires d != []
    requires FirstIndex(s, d) == Some(i)
    ensures !Contains(s[..i] + d[..|d| - 1], d)
  {
    var n := i + |d| - 1;
    assert s[..i] + d[..|d| - 1] == s[..n];
    forall j | 0 <= j <= n ensures !OccursAt(s[..n], d, j) {
      if j < i {
        NotInPrefix(s, d, n, j);
      }
    }
  }

  /** No occurrence of `d` in `s` starts before the leftmost one, so the
      first piece does not contain `d`. */
  lemma FirstPieceClean(s: string, d: string, i: nat)
    requires d != []
    requires FirstIndex(s, d) == Some(i)
    ensures !Contains(s[..i], d)
  {
    forall j | 0 <= j <= i ensures !OccursAt(s[..i], d, j) {
      if j < i {
        NotInPrefix(s, d, i, j);
      }
    }
  }

  /** The split of `s` is a legitimate left-to-right cut of `s`; in
      particular no piece contains the delimiter. */
  lemma {:induction false} SplitIsSplitOf(s: string, d: string)
    requires d != []
    ensures IsSplitOf(Split(s, d), s, d)
    decreases |s|
  {
    SplitJoin(s, d);
    match FirstIndex(s, d)
    case None =>
    case Some(i) =>
      var rest := s[i + |d|..];
      SplitIsSplitOf(rest, d);
      FirstPieceLeftmost(s, d, i);
      FirstPieceClean(s, d, i);
      var ps := Split(s, d);
      assert ps == [s[..i]] + Split(rest, d);
      forall k | 0 <= k < |ps| ensures !Contains(ps[k], d) {
        if k > 0 {
          assert ps[k] == Split(rest, d)[k - 1];
        }
      }
      forall k | 0 <= k < |ps| - 1 ensures !Contains(ps[k] + d[..|d| - 1], d) {
        if k > 0 {
          assert ps[k] == Split(rest, d)[k - 1];
        }
      }
  }

  /** A legitimate left-to-right cut of `s` starting with piece `p` puts the
      leftmost occurrence of `d` right after `p`. */
  lemma FirstIndexAfterPiece(p: string, d: string, rest: string)
    requires d != []
    requires !Contains(p + d[..|d| - 1], d)
    ensures FirstIndex(p + d + rest, d) == Some(|p|)
  {
    var s := p + d + rest;
    assert s[|p|..|p| + |d|] == d;
    assert OccursAt(s, d, |p|);
    forall j | 0 <= j < |p| ensures !OccursAt(s, d, j) {
      if OccursAt(s, d, j) {
        var q := p + d[..|d| - 1];
        assert q == s[..|p| + |d| - 1];
        assert q[j..j + |d|] == s[j..j + |d|];
        assert OccursAt(q, d, j);
      }
    }
  }

  /** The left-to-right cut is unique: any legitimate cut of `s` is the one
      Split computes. */
  lemma {:induction false} SplitUnique(ps: seq<string>, s: string, d: string)
    requires d != []
    requires IsSplitOf(ps, s, d)
    ensures ps == Split(s, d)
    decreases |ps|
  {
    if |ps| == 1 {
      assert !Contains(s, d);
    } else {
      var p := ps[0];
      var rest := Join(ps[1..], d);
      assert s == p + d + rest;
      FirstIndexAfterPiece(p, d, rest);
      assert s[|p| + |d|..] == rest;
      assert s[..|p|] == p;
      forall k | 0 <= k < |ps| - 2 ensures !Contains(ps[1..][k] + d[..|d| - 1], d) {
        assert ps[1..][k] == ps[k + 1];
      }
      assert IsSplitOf(ps[1..], rest, d);
      SplitUnique(ps[1..], rest, d);
    }
  }

  /** Split is characterised by IsSplitOf: a sequence of pieces is the
      split of `s` exactly when it is a legitimate left-to-right cut. */
  lemma SplitCharacterized(ps: seq<string>, s: string, d: string)
    requires d != []
    ensures ps == Split(s, d) <==> IsSplitOf(ps, s, d)
  {
    SplitIsSplitOf(s, d);
    if IsSplitOf(ps, s, d) {
      SplitUnique(ps, s, d);
    }
  }
}
