/** Length, comparison and search in ucosii/uC-LIB/lib_str.c: `Str_Len_N`, `Str_Cmp_N`,
    `Str_CmpIgnoreCase_N` and `Str_Str_N`, on terminated strings.
  */
module LibStrSearch {
  import opened Arithmetic
  import opened LibAscii

  /** CPU_SIZE_T is a 32-bit word. */
  const SIZE_MAX: nat := 0xFFFF_FFFF

  // ------------------------------------------------ length

  /** Number of characters before the first NUL. */
  function Length(s: string): (n: nat)
    ensures n <= |s| && At(s, n) == NUL
    ensures forall k :: 0 <= k < n ==> s[k] != NUL
  {
    if At(s, 0) == NUL then 0 else 1 + Length(s[1..])
  }

  /** `Str_Len_N`. */
  method StrLenN(s: string, lenMax: nat) returns (len: nat)
    ensures len == Min(Length(s), lenMax)
  {
    len := 0;
    while At(s, len) != NUL && len < lenMax
      invariant len <= Length(s) && len <= lenMax
      decreases lenMax - len
    {
      len := len + 1;
    }
  }

  // ------------------------------------------------ comparison

  /** The strings agree on their first `k` characters, none of them NUL. */
  ghost predicate AgreeTo(s: string, t: string, k: nat) {
    k <= |s| && k <= |t| && forall i :: 0 <= i < k ==> s[i] == t[i] && s[i] != NUL
  }

  /** Position where comparing stops: the first difference, or a common NUL, or the limit. */
  ghost predicate StopsAt(s: string, t: string, lenMax: nat, k: nat) {
    AgreeTo(s, t, k) && k <= lenMax && (k == lenMax || At(s, k) != At(t, k) || At(s, k) == NUL)
  }

  /** Difference of the characters where comparing stops, zero at the limit. */
  ghost predicate Compares(s: string, t: string, lenMax: nat, cmp: int) {
    exists k: nat :: StopsAt(s, t, lenMax, k)
      && cmp == if k == lenMax then 0 else At(s, k) as int - At(t, k) as int
  }

  /** `Str_Cmp_N`: the loop reads both strings only as far as they agree. */
  method StrCmpN(s: string, t: string, lenMax: nat) returns (cmp: int)
    ensures Compares(s, t, lenMax, cmp)
  {
    if lenMax < 1 {
      assert StopsAt(s, t, lenMax, 0);
      return 0;
    }
    var k := 0;
    while At(s, k) == At(t, k) && At(s, k) != NUL && k < lenMax
      invariant AgreeTo(s, t, k) && k <= lenMax
      decreases lenMax - k
    {
      k := k + 1;
    }
    assert StopsAt(s, t, lenMax, k);
    if k == lenMax {
      return 0;
    }
    if At(s, k) != At(t, k) {
      cmp := At(s, k) as int - At(t, k) as int;
    } else {
      cmp := 0;
    }
  }

  /** `Str_CmpIgnoreCase_N`: characters are lowered one by one as they are met. */
  method StrCmpIgnoreCaseN(s: string, t: string, lenMax: nat) returns (cmp: int)
    ensures Compares(Lowered(s), Lowered(t), lenMax, cmp)
  {
    ghost var ls, lt := Lowered(s), Lowered(t);
    if lenMax < 1 {
      assert StopsAt(ls, lt, lenMax, 0);
      return 0;
    }
    var k := 0;
    var c1, c2 := ToLower(At(s, 0)), ToLower(At(t, 0));
    while c1 == c2 && At(s, k) != NUL && k < lenMax
      invariant AgreeTo(ls, lt, k) && k <= lenMax
      invariant c1 == At(ls, k) == ToLower(At(s, k)) && c2 == At(lt, k) == ToLower(At(t, k))
      decreases lenMax - k
    {
      k := k + 1;
      c1, c2 := ToLower(At(s, k)), ToLower(At(t, k));
    }
    assert StopsAt(ls, lt, lenMax, k);
    if k == lenMax {
      return 0;
    }
    if c1 != c2 {
      cmp := c1 as int - c2 as int;
    } else {
      cmp := 0;
    }
  }

  function Lowered(s: string): (r: string)
    ensures |r| == |s|
  {
    seq(|s|, i requires 0 <= i < |s| => ToLower(s[i]))
  }

  lemma StopIsUnique(s: string, t: string, lenMax: nat, j: nat, k: nat)
    requires StopsAt(s, t, lenMax, j) && StopsAt(s, t, lenMax, k)
    ensures j == k
  {
  }

  lemma {:induction false} StopExists(s: string, t: string, lenMax: nat, from: nat) returns (k: nat)
    requires AgreeTo(s, t, from) && from <= lenMax
    ensures StopsAt(s, t, lenMax, k)
    decreases lenMax - from
  {
    if from == lenMax || At(s, from) != At(t, from) || At(s, from) == NUL {
      k := from;
    } else {
      k := StopExists(s, t, lenMax, from + 1);
    }
  }

  /** The comparison as a function of the strings and the limit. */
  ghost function Cmp(s: string, t: string, lenMax: nat): (cmp: int)
    ensures Compares(s, t, lenMax, cmp)
  {
    assert exists k: nat :: StopsAt(s, t, lenMax, k) by {
      var k := StopExists(s, t, lenMax, 0);
    }
    var k: nat :| StopsAt(s, t, lenMax, k);
    if k == lenMax then 0 else At(s, k) as int - At(t, k) as int
  }

  /** `Compares` has one answer, so both comparison routines compute `Cmp`. */
  lemma ComparesIsCmp(s: string, t: string, lenMax: nat, cmp: int)
    requires Compares(s, t, lenMax, cmp)
    ensures cmp == Cmp(s, t, lenMax)
  {
    var j: nat :| StopsAt(s, t, lenMax, j) && cmp == if j == lenMax then 0 else At(s, j) as int - At(t, j) as int;
    var k: nat :| StopsAt(s, t, lenMax, k) &&
                  Cmp(s, t, lenMax) == if k == lenMax then 0 else At(s, k) as int - At(t, k) as int;
    StopIsUnique(s, t, lenMax, j, k);
  }

  lemma CmpAt(s: string, t: string, lenMax: nat, k: nat)
    requires StopsAt(s, t, lenMax, k)
    ensures Cmp(s, t, lenMax) == if k == lenMax then 0 else At(s, k) as int - At(t, k) as int
  {
    ComparesIsCmp(s, t, lenMax, if k == lenMax then 0 else At(s, k) as int - At(t, k) as int);
  }

  /** Swapping the strings negates the result. */
  lemma CmpAntisymmetric(s: string, t: string, lenMax: nat)
    ensures Cmp(t, s, lenMax) == -Cmp(s, t, lenMax)
  {
    var k := StopExists(s, t, lenMax, 0);
    CmpAt(s, t, lenMax, k);
    assert StopsAt(t, s, lenMax, k);
    CmpAt(t, s, lenMax, k);
  }

  /** The order is transitive: with the totality of integers and antisymmetry of sign, a total preorder. */
  lemma CmpTransitive(s: string, t: string, u: string, lenMax: nat)
    requires Cmp(s, t, lenMax) <= 0 && Cmp(t, u, lenMax) <= 0
    ensures Cmp(s, u, lenMax) <= 0
    ensures Cmp(s, u, lenMax) == 0 ==> Cmp(s, t, lenMax) == 0 && Cmp(t, u, lenMax) == 0
  {
    var i := StopExists(s, t, lenMax, 0);
    var j := StopExists(t, u, lenMax, 0);
    CmpAt(s, t, lenMax, i);
    CmpAt(t, u, lenMax, j);
    var k := if i < j then i else j;
    assert AgreeTo(s, u, k);
    assert StopsAt(s, u, lenMax, k);
    CmpAt(s, u, lenMax, k);
  }

  lemma EqualPrefixes(s: string, t: string, m: nat)
    requires m <= |s| && m <= |t| && s[..m] == t[..m]
    ensures forall i :: 0 <= i < m ==> s[i] == t[i]
  {
    forall i | 0 <= i < m ensures s[i] == t[i] {
      assert s[..m][i] == t[..m][i];
    }
  }

  /** Zero exactly when the strings agree up to the limit or their common terminator. */
  lemma {:induction false} CmpZero(s: string, t: string, lenMax: nat)
    ensures Cmp(s, t, lenMax) == 0 <==>
              Min(Length(s), lenMax) == Min(Length(t), lenMax)
              && s[..Min(Length(s), lenMax)] == t[..Min(Length(t), lenMax)]
  {
    var k := StopExists(s, t, lenMax, 0);
    CmpAt(s, t, lenMax, k);
    var m, n := Min(Length(s), lenMax), Min(Length(t), lenMax);
    assert k <= m && k <= n;
    if Cmp(s, t, lenMax) == 0 {
      assert m == k == n;
    }
    if m == n && s[..m] == t[..n] {
      EqualPrefixes(s, t, m);
    }
  }

  // ------------------------------------------------ substring search

  /** The search string occurs at `i`, within the first `len` characters. */
  ghost predicate OccursAt(s: string, srch: string, i: nat, len: nat) {
    i + |srch| <= len <= |s| && s[i..i + |srch|] == srch
  }

  datatype Found = Null | Ptr(at: nat)

  /** `Str_Str_N`: pointer to the first occurrence among the first `lenMax` characters, or NULL. */
  method StrStrN(s: string, srch: string, lenMax: nat) returns (r: Found)
    requires lenMax <= SIZE_MAX && Length(srch) <= SIZE_MAX
    ensures lenMax == 0 ==> r == Null
    ensures var len, word := Min(Length(s), lenMax), srch[..Length(srch)];
            lenMax > 0 ==>
              match r
              case Null => forall i: nat :: !OccursAt(s, word, i, len)
              case Ptr(at) => OccursAt(s, word, at, len) && forall i: nat :: i < at ==> !OccursAt(s, word, i, len)
    ensures lenMax > 0 && Length(srch) == 0 ==> r == Ptr(0)
  {
    if lenMax < 1 {
      return Null;
    }
    var lenMaxSrch := if lenMax < SIZE_MAX then lenMax + 1 else SIZE_MAX;
    var strLen := StrLenN(s, lenMax);
    var srchLen := StrLenN(srch, lenMaxSrch);
    if srchLen < 1 {
      return Ptr(0);
    }
    if srchLen > strLen {
      return Null;
    }
    ghost var word := srch[..Length(srch)];
    assert srchLen == Length(srch);
    var last := strLen - srchLen;
    var ix := 0;
    var at := 0;
    var cmp := 1;
    var done := false;
    while !done && ix <= last
      invariant ix <= last + 1
      invariant done <==> cmp == 0
      invariant forall i: nat :: i < ix && !(done && i == at) ==> !OccursAt(s, word, i, strLen)
      invariant done ==> at + 1 == ix && OccursAt(s, word, at, strLen)
      decreases last + 1 - ix, !done
    {
      at := ix;
      cmp := StrCmpN(s[at..], srch, srchLen);
      MatchIsOccurrence(s, srch, at, strLen, cmp);
      done := cmp == 0;
      ix := ix + 1;
    }
    if cmp != 0 {
      return Null;
    }
    return Ptr(at);
  }

  lemma {:induction false} SuffixLength(s: string, at: nat)
    requires at <= Length(s)
    ensures Length(s[at..]) == Length(s) - at
  {
    var tail, n := s[at..], Length(s);
    assert At(tail, n - at) == At(s, n) == NUL;
    assert forall k :: 0 <= k < n - at ==> tail[k] == s[at + k] != NUL;
    assert At(tail, Length(tail)) == NUL;
  }

  /** A zero comparison at `at` is an occurrence there. */
  lemma {:induction false} MatchIsOccurrence(s: string, srch: string, at: nat, len: nat, cmp: int)
    requires at + Length(srch) <= len <= Length(s) && Compares(s[at..], srch, Length(srch), cmp)
    ensures cmp == 0 <==> OccursAt(s, srch[..Length(srch)], at, len)
  {
    var tail, n := s[at..], Length(srch);
    ComparesIsCmp(tail, srch, n, cmp);
    CmpZero(tail, srch, n);
    SuffixLength(s, at);
    assert tail[..n] == s[at..at + n];
  }
}
