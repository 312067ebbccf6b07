/**
 * Duplicate detection in the genre manager (public/genre-management.js):
 * the edit distance between two genre names, filled in a matrix as the
 * source does, the similarity test built on it, and the scan of all pairs
 * of genre names for suspected duplicates.
 */
module GenreSimilarity {
  import opened Values
  import opened Collections

  // ---------------------------------------------------------------------
  // Edit distance

  function Min3(a: nat, b: nat, c: nat): (m: nat)
    ensures m <= a && m <= b && m <= c
    ensures m == a || m == b || m == c
  {
    if a <= b && a <= c then a else if b <= c then b else c
  }

  lemma Min3Swap(a: nat, b: nat, c: nat)
    ensures Min3(a, b, c) == Min3(a, c, b)
  {
  }

  /**
   * `matrix[i][j]` of `levenshteinDistance(s1, s2)`: the distance between the
   * first `j` characters of `s1` and the first `i` characters of `s2`.
   */
  function Lev(s1: string, s2: string, j: nat, i: nat): (d: nat)
    requires j <= |s1| && i <= |s2|
    decreases i + j
  {
    if i == 0 then j
    else if j == 0 then i
    else if s2[i - 1] == s1[j - 1] then Lev(s1, s2, j - 1, i - 1)
    else 1 + Min3(Lev(s1, s2, j - 1, i - 1), Lev(s1, s2, j - 1, i), Lev(s1, s2, j, i - 1))
  }

  function Distance(s1: string, s2: string): nat {
    Lev(s1, s2, |s1|, |s2|)
  }

  lemma {:induction false} LevSelf(s: string, n: nat)
    requires n <= |s|
    ensures Lev(s, s, n, n) == 0
    decreases n
  {
    if n > 0 {
      LevSelf(s, n - 1);
    }
  }

  lemma {:induction false} LevSymmetric(s1: string, s2: string, j: nat, i: nat)
    requires j <= |s1| && i <= |s2|
    ensures Lev(s1, s2, j, i) == Lev(s2, s1, i, j)
    decreases i + j
  {
    if i > 0 && j > 0 {
      LevSymmetric(s1, s2, j - 1, i - 1);
      if s2[i - 1] != s1[j - 1] {
        LevSymmetric(s1, s2, j - 1, i);
        LevSymmetric(s1, s2, j, i - 1);
        Min3Swap(Lev(s1, s2, j - 1, i - 1), Lev(s1, s2, j - 1, i), Lev(s1, s2, j, i - 1));
      }
    }
  }

  lemma {:induction false} LevLowerBound(s1: string, s2: string, j: nat, i: nat)
    requires j <= |s1| && i <= |s2|
    ensures Lev(s1, s2, j, i) + i >= j && Lev(s1, s2, j, i) + j >= i
    decreases i + j
  {
    if i > 0 && j > 0 {
      LevLowerBound(s1, s2, j - 1, i - 1);
      LevLowerBound(s1, s2, j - 1, i);
      LevLowerBound(s1, s2, j, i - 1);
    }
  }

  lemma {:induction false} LevUpperBound(s1: string, s2: string, j: nat, i: nat)
    requires j <= |s1| && i <= |s2|
    ensures Lev(s1, s2, j, i) <= (if j >= i then j else i)
    decreases i + j
  {
    if i > 0 && j > 0 {
      LevStep(s1, s2, j, i);
      LevUpperBound(s1, s2, j - 1, i - 1);
    }
  }

  /**
   * The distance is a metric's first properties: zero from a name to itself,
   * the same in both directions, at least the difference of the lengths and
   * at most the longer length.
   */
  lemma DistanceProperties(s1: string, s2: string)
    ensures Distance(s1, s1) == 0
    ensures Distance(s1, s2) == Distance(s2, s1)
    ensures Distance(s1, s2) >= (if |s1| >= |s2| then |s1| - |s2| else |s2| - |s1|)
    ensures Distance(s1, s2) <= (if |s1| >= |s2| then |s1| else |s2|)
  {
    LevSelf(s1, |s1|);
    LevSymmetric(s1, s2, |s1|, |s2|);
    LevLowerBound(s1, s2, |s1|, |s2|);
    LevUpperBound(s1, s2, |s1|, |s2|);
  }

  /** `levenshteinDistance(str1, str2)`: the matrix has a row per prefix of `str2`, a column per prefix of `str1`. */
  method LevenshteinDistance(str1: string, str2: string) returns (d: nat)
    ensures d == Distance(str1, str2)
  {
    var matrix := new nat[|str2| + 1, |str1| + 1];
    var i := 0;
    while i <= |str2|
      invariant 0 <= i <= |str2| + 1
      invariant forall a :: 0 <= a < i ==> matrix[a, 0] == a
    {
      matrix[i, 0] := i;
      i := i + 1;
    }
    var j := 0;
    while j <= |str1|
      invariant 0 <= j <= |str1| + 1
      invariant forall a :: 0 < a <= |str2| ==> matrix[a, 0] == a
      invariant forall b :: 0 <= b < j ==> matrix[0, b] == b
    {
      matrix[0, j] := j;
      j := j + 1;
    }
    i := 1;
    while i <= |str2|
      invariant 1 <= i <= |str2| + 1
      invariant forall a :: 0 <= a < i ==> RowHolds(matrix, str1, str2, a)
      invariant forall a :: i <= a <= |str2| ==> matrix[a, 0] == a
    {
      label before:
      FillRow(matrix, str1, str2, i);
      forall a | 0 <= a < i
        ensures RowHolds(matrix, str1, str2, a)
      {
        assert old@before(RowHolds(matrix, str1, str2, a));
      }
      i := i + 1;
    }
    assert RowHolds(matrix, str1, str2, |str2|);
    d := matrix[|str2|, |str1|];
  }

  /** Row `r` of the matrix holds the distances from every prefix of `str1` to the first `r` characters of `str2`. */
  ghost predicate RowHolds(matrix: array2<nat>, str1: string, str2: string, r: nat)
    reads matrix
    requires matrix.Length0 == |str2| + 1 && matrix.Length1 == |str1| + 1 && r <= |str2|
  {
    forall b {:trigger matrix[r, b]} :: 0 <= b <= |str1| ==> matrix[r, b] == Lev(str1, str2, b, r)
  }

  /** The recurrence the matrix fill follows, one cell from its three neighbours. */
  lemma LevStep(s1: string, s2: string, j: nat, i: nat)
    requires 0 < j <= |s1| && 0 < i <= |s2|
    ensures Lev(s1, s2, j, i) ==
      if s2[i - 1] == s1[j - 1] then Lev(s1, s2, j - 1, i - 1)
      else Min3(Lev(s1, s2, j - 1, i - 1) + 1, Lev(s1, s2, j - 1, i) + 1, Lev(s1, s2, j, i - 1) + 1)
  {
  }

  /** One pass of the inner loop: row `i` from the row above it; no other row changes. */
  method FillRow(matrix: array2<nat>, str1: string, str2: string, i: nat)
    requires matrix.Length0 == |str2| + 1 && matrix.Length1 == |str1| + 1
    requires 1 <= i <= |str2|
    requires RowHolds(matrix, str1, str2, i - 1)
    requires matrix[i, 0] == i
    modifies matrix
    ensures RowHolds(matrix, str1, str2, i)
    ensures forall a, b {:trigger matrix[a, b]} :: 0 <= a < matrix.Length0 && 0 <= b < matrix.Length1 && a != i ==>
      matrix[a, b] == old(matrix[a, b])
  {
    var above := i - 1;
    var j := 1;
    while j <= |str1|
      invariant 1 <= j <= |str1| + 1
      invariant forall b {:trigger matrix[i, b]} :: 0 <= b < j ==> matrix[i, b] == Lev(str1, str2, b, i)
      invariant forall a, b {:trigger matrix[a, b]} :: 0 <= a < matrix.Length0 && 0 <= b < matrix.Length1 && a != i ==>
        matrix[a, b] == old(matrix[a, b])
    {
      var diagonal, left, up := matrix[above, j - 1], matrix[i, j - 1], matrix[above, j];
      LevStep(str1, str2, j, i);
      matrix[i, j] := if str2[i - 1] == str1[j - 1] then diagonal else Min3(diagonal + 1, left + 1, up + 1);
      j := j + 1;
    }
  }

  // ---------------------------------------------------------------------
  // Similar names

  function EndsWith(s: string, suffix: string): bool {
    |suffix| <= |s| && s[|s| - |suffix|..] == suffix
  }

  /** `s.replace(/<suffix>$/, rep)` */
  function ReplaceSuffix(s: string, suffix: string, rep: string): (r: string)
    ensures !EndsWith(s, suffix) ==> r == s
    ensures EndsWith(s, suffix) ==> r == s[..|s| - |suffix|] + rep
  {
    if EndsWith(s, suffix) then s[..|s| - |suffix|] + rep else s
  }

  /** The plural and Italian-ending patterns, applied in order: `s$` to nothing, `i$` to `o`, `ia$` to `io`. */
  function Normalized(g: string): string {
    ReplaceSuffix(ReplaceSuffix(ReplaceSuffix(g, "s", ""), "i", "o"), "ia", "io")
  }

  /** `areSimilarGenres(genre1, genre2)` */
  function AreSimilar(genre1: string, genre2: string): (r: bool)
    ensures genre1 == genre2 ==> r
    ensures (|genre1| > |genre2| + 3 || |genre2| > |genre1| + 3) ==> !r
  {
    if genre1 == genre2 then true
    else if |genre1| > |genre2| + 3 || |genre2| > |genre1| + 3 then false
    else Normalized(genre1) == Normalized(genre2) ||
         Contains(genre1, genre2) || Contains(genre2, genre1) ||
         Distance(genre1, genre2) <= 2
  }

  /** Similarity does not depend on the order of the two names. */
  lemma AreSimilarSymmetric(genre1: string, genre2: string)
    ensures AreSimilar(genre1, genre2) == AreSimilar(genre2, genre1)
  {
    DistanceProperties(genre1, genre2);
  }

  /** A name and its plural in `s` are similar. */
  lemma PluralIsSimilar(g: string)
    ensures AreSimilar(g, g + "s")
  {
    var p := g + "s";
    assert p[0..|g|] == g;
    assert OccursAt(p, g, 0);
  }

  // ---------------------------------------------------------------------
  // Suspected duplicates

  /** The pair test of `findSuspiciousGenres`: both names lower-cased. */
  function Similarity(genres: seq<string>): (nat, nat) -> bool {
    (i: nat, j: nat) => i < |genres| && j < |genres| && AreSimilar(Lower(genres[i]), Lower(genres[j]))
  }

  lemma SimilarityAt(genres: seq<string>, i: nat, j: nat)
    requires i < |genres| && j < |genres|
    ensures Similarity(genres)(i, j) == AreSimilar(Lower(genres[i]), Lower(genres[j]))
  {
  }

  /** The pair test gives the same answer whichever name comes first. */
  lemma SimilaritySymmetric(genres: seq<string>, i: nat, j: nat)
    ensures Similarity(genres)(i, j) == Similarity(genres)(j, i)
  {
    if i < |genres| && j < |genres| {
      AreSimilarSymmetric(Lower(genres[i]), Lower(genres[j]));
    }
  }

  /** `suspicious` after the inner loop for `i` has run up to (not including) `j`, for a pair test `similar`. */
  function RowPairs(genres: seq<string>, similar: (nat, nat) -> bool, i: nat, j: nat): (r: seq<string>)
    requires i < |genres| && j <= |genres|
    decreases j
  {
    if j <= i + 1 then []
    else if similar(i, j - 1) then RowPairs(genres, similar, i, j - 1) + [genres[i], genres[j - 1]]
    else RowPairs(genres, similar, i, j - 1)
  }

  /** `suspicious` after the outer loop has run for the first `n` names. */
  function AllPairs(genres: seq<string>, similar: (nat, nat) -> bool, n: nat): (r: seq<string>)
    requires n <= |genres|
    decreases n
  {
    if n == 0 then [] else AllPairs(genres, similar, n - 1) + RowPairs(genres, similar, n - 1, |genres|)
  }

  /** A name is pushed by the row of `i` exactly when it is one of a similar pair `(i, k)` seen so far. */
  lemma {:induction false} RowPairsMembers(genres: seq<string>, similar: (nat, nat) -> bool, i: nat, j: nat, x: string)
    requires i < |genres| && j <= |genres|
    ensures x in RowPairs(genres, similar, i, j) <==>
      exists k :: i < k < j && similar(i, k) && (x == genres[i] || x == genres[k])
    decreases j
  {
    if j > i + 1 {
      RowPairsMembers(genres, similar, i, j - 1, x);
      var r := RowPairs(genres, similar, i, j - 1);
      if similar(i, j - 1) {
        assert x in r + [genres[i], genres[j - 1]] <==> x in r || x == genres[i] || x == genres[j - 1];
      }
    }
  }

  /** A name is pushed by the first `n` rows exactly when it is one of a similar pair `(i, k)`, `i < k`, `i < n`. */
  lemma {:induction false} AllPairsMembers(genres: seq<string>, similar: (nat, nat) -> bool, n: nat, x: string)
    requires n <= |genres|
    ensures x in AllPairs(genres, similar, n) <==>
      exists i, k :: 0 <= i < n && i < k < |genres| && similar(i, k) && (x == genres[i] || x == genres[k])
    decreases n
  {
    if n > 0 {
      AllPairsMembers(genres, similar, n - 1, x);
      RowPairsMembers(genres, similar, n - 1, |genres|, x);
      var prev := AllPairs(genres, similar, n - 1);
      var row := RowPairs(genres, similar, n - 1, |genres|);
      assert x in prev + row <==> x in prev || x in row;
    }
  }

  /** `findSuspiciousGenres()` over the genre names in key order. */
  method FindSuspiciousGenres(genres: seq<string>) returns (suspicious: seq<string>)
    ensures suspicious == Dedupe(AllPairs(genres, Similarity(genres), |genres|))
  {
    var similar := Similarity(genres);
    var found: seq<string> := [];
    var i := 0;
    while i < |genres|
      invariant 0 <= i <= |genres|
      invariant found == AllPairs(genres, similar, i)
    {
      var j := i + 1;
      var row: seq<string> := [];
      while j < |genres|
        invariant i + 1 <= j <= |genres|
        invariant row == RowPairs(genres, similar, i, j)
      {
        var genre1 := Lower(genres[i]);
        var genre2 := Lower(genres[j]);
        if AreSimilar(genre1, genre2) {
          row := row + [genres[i], genres[j]];
        }
        j := j + 1;
      }
      found := found + row;
      i := i + 1;
    }
    suspicious := Dedupe(found);
  }

  /**
   * For any symmetric pair test, the pair scan reports, each once, exactly the
   * names that pass the test with some other entry of the list.
   */
  lemma PairScanMembers(genres: seq<string>, similar: (nat, nat) -> bool, x: string)
    requires forall a: nat, b: nat {:trigger similar(a, b)} :: similar(a, b) == similar(b, a)
    ensures x in Dedupe(AllPairs(genres, similar, |genres|)) <==>
      exists i, k :: 0 <= i < |genres| && 0 <= k < |genres| && i != k && genres[i] == x && similar(i, k)
    ensures Distinct(Dedupe(AllPairs(genres, similar, |genres|)))
  {
    AllPairsMembers(genres, similar, |genres|, x);
    if exists i, k :: 0 <= i < |genres| && 0 <= k < |genres| && i != k && genres[i] == x && similar(i, k) {
      var i, k :| 0 <= i < |genres| && 0 <= k < |genres| && i != k && genres[i] == x && similar(i, k);
      if k < i {
        assert similar(k, i);
      }
    }
    if x in AllPairs(genres, similar, |genres|) {
      var i, k :| 0 <= i < |genres| && i < k < |genres| && similar(i, k) && (x == genres[i] || x == genres[k]);
      if x == genres[k] {
        assert similar(k, i);
      }
    }
  }

  /**
   * The suspected duplicates are names of the list, each once, and a name is
   * among them exactly when, lower-cased, it is similar to another entry of the list.
   */
  lemma SuspiciousMembers(genres: seq<string>, x: string)
    ensures x in Dedupe(AllPairs(genres, Similarity(genres), |genres|)) <==>
      exists i, k :: 0 <= i < |genres| && 0 <= k < |genres| && i != k && genres[i] == x &&
        AreSimilar(Lower(genres[i]), Lower(genres[k]))
    ensures Distinct(Dedupe(AllPairs(genres, Similarity(genres), |genres|)))
  {
    var similar := Similarity(genres);
    forall a: nat, b: nat
      ensures similar(a, b) == similar(b, a)
    {
      SimilaritySymmetric(genres, a, b);
    }
    PairScanMembers(genres, similar, x);
    if x in Dedupe(AllPairs(genres, similar, |genres|)) {
      var i, k :| 0 <= i < |genres| && 0 <= k < |genres| && i != k && genres[i] == x && similar(i, k);
      SimilarityAt(genres, i, k);
    }
    if exists i, k :: 0 <= i < |genres| && 0 <= k < |genres| && i != k && genres[i] == x &&
        AreSimilar(Lower(genres[i]), Lower(genres[k])) {
      var i, k :| 0 <= i < |genres| && 0 <= k < |genres| && i != k && genres[i] == x &&
        AreSimilar(Lower(genres[i]), Lower(genres[k]));
      SimilarityAt(genres, i, k);
    }
  }
}
