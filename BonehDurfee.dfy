/** The integer bookkeeping of the Boneh–Durfee small-private-exponent
    attack (Herrmann–May variant): pruning unhelpful vectors from the
    lattice basis, the index loops that enumerate the x- and y-shift
    polynomials, and the decisions that turn the lattice outcome into a
    private exponent. The lattice reduction, determinant, resultant and
    root finding belong to Sage and appear only as inputs. */
module BonehDurfee {
  import opened Outcomes
  import opened Arithmetic

  // ---------------------------------------------------------------------
  // The basis matrix and the monomial list
  // ---------------------------------------------------------------------

  /** A lattice basis, row by row. */
  type Matrix = seq<seq<int>>

  predicate IsSquare(B: Matrix)
  {
    forall r :: 0 <= r < |B| ==> |B[r]| == |B|
  }

  /** Pruning stops once the basis has at most this many vectors. */
  const DimensionMin := 7

  /** A monomial `u^u * x^x * y^y` of the substituted polynomial ring, by
      its exponents. */
  datatype Monomial = Monomial(u: nat, x: nat, y: nat)

  /** The list of monomials the basis columns stand for; pruning pops
      entries from it in place. */
  class MonomialList {
    var items: seq<Monomial>

    constructor (initial: seq<Monomial>)
      ensures items == initial
    {
      items := initial;
    }

    /** `list.pop(i)`. */
    method Pop(i: nat) returns (m: Monomial)
      requires i < |items|
      modifies this
      ensures m == old(items)[i] && items == RemoveAt(old(items), i)
    {
      m := items[i];
      items := RemoveAt(items, i);
    }

    /** `list.append(m)`. */
    method Append(m: Monomial)
      modifies this
      ensures items == old(items) + [m]
    {
      items := items + [m];
    }
  }

  // ---------------------------------------------------------------------
  // Deleting rows and columns
  // ---------------------------------------------------------------------

  /** The position, in the original, of entry `t` once index `i` is gone. */
  function Skip(t: nat, i: nat): nat
  {
    if t < i then t else t + 1
  }

  /** `s` without its entry `i`: entry `t` of the result is entry
      `Skip(t, i)` of `s`. */
  function RemoveAt<T>(s: seq<T>, i: nat): (r: seq<T>)
    requires i < |s|
    ensures |r| == |s| - 1
  {
    seq(|s| - 1, t requires 0 <= t < |s| - 1 => s[Skip(t, i)])
  }

  /** Removing entry `i` keeps the entries before it and after it, in
      order, as `del s[i]` and `s.pop(i)` do. */
  lemma RemoveAtSlices<T>(s: seq<T>, i: nat)
    requires i < |s|
    ensures RemoveAt(s, i) == s[..i] + s[i + 1..]
  {
  }

  /** `BB.delete_columns([i])` followed by `BB.delete_rows([i])`: the rows
      and columns at every index but `i`, in order. */
  function DeleteIndex(B: Matrix, i: nat): (R: Matrix)
    requires IsSquare(B) && i < |B|
    ensures IsSquare(R) && |R| == |B| - 1
  {
    Submatrix(B, AllBut(|B|, i))
  }

  /** Entry `(r, c)` of the smaller matrix is the entry at the skipped
      indices of the original. */
  lemma DeleteIndexEntries(B: Matrix, i: nat)
    requires IsSquare(B) && i < |B|
    ensures forall r, c :: 0 <= r < |B| - 1 && 0 <= c < |B| - 1 ==>
      DeleteIndex(B, i)[r][c] == B[Skip(r, i)][Skip(c, i)]
  {
  }

  /** `BB.delete_columns([j, i])` followed by `BB.delete_rows([j, i])`:
      the rows and columns at every index but `i` and `j`, in order. */
  function DeletePair(B: Matrix, i: nat, j: nat): (R: Matrix)
    requires IsSquare(B) && i < j < |B|
    ensures IsSquare(R) && |R| == |B| - 2
  {
    Submatrix(B, AllButTwo(|B|, i, j))
  }

  /** Entry `(r, c)` of the smaller matrix is the entry at the twice
      skipped indices of the original. */
  lemma DeletePairEntries(B: Matrix, i: nat, j: nat)
    requires IsSquare(B) && i < j < |B|
    ensures forall r, c :: 0 <= r < |B| - 2 && 0 <= c < |B| - 2 ==>
      DeletePair(B, i, j)[r][c] == B[Skip(Skip(r, i), j)][Skip(Skip(c, i), j)]
  {
  }

  // ---------------------------------------------------------------------
  // The tests remove_unhelpful makes
  // ---------------------------------------------------------------------

  /** How many rows `r` in `[lo, hi)` have a nonzero in column `col`
      (`affected_vectors`). */
  function CountNonZero(B: Matrix, col: nat, lo: nat, hi: nat): nat
    requires IsSquare(B) && col < |B| && lo <= hi <= |B|
    decreases hi - lo
  {
    if hi == lo then 0
    else CountNonZero(B, col, lo, hi - 1) + (if B[hi - 1][col] != 0 then 1 else 0)
  }

  /** The last such row, or 0 when there is none (`affected_vector_index`). */
  function LastNonZero(B: Matrix, col: nat, lo: nat, hi: nat): (r: nat)
    requires IsSquare(B) && col < |B| && lo <= hi <= |B|
    ensures r == 0 || lo <= r < hi
    decreases hi - lo
  {
    if hi == lo then 0
    else if B[hi - 1][col] != 0 then hi - 1
    else LastNonZero(B, col, lo, hi - 1)
  }

  /** Column `col` is zero in rows `[lo, hi)`. */
  predicate ColumnZero(B: Matrix, col: nat, lo: nat, hi: nat)
    requires IsSquare(B) && col < |B| && lo <= hi <= |B|
  {
    forall r :: lo <= r < hi ==> B[r][col] == 0
  }

  /** The one later row that vector `i` affects, when there is one. */
  function Partner(B: Matrix, i: nat): nat
    requires IsSquare(B) && i < |B|
  {
    LastNonZero(B, i, i + 1, |B|)
  }

  /** The level-0 test: `i` is unhelpful and affects no later vector. */
  predicate SingleTest(B: Matrix, bound: int, i: nat)
    requires IsSquare(B) && i < |B|
  {
    B[i][i] >= bound && CountNonZero(B, i, i + 1, |B|) == 0
  }

  /** The level-1 test: `i` is unhelpful and affects exactly one later
      vector `j`, which affects nothing below it and is closer to the bound
      than `i`. */
  predicate PairTest(B: Matrix, bound: int, i: nat)
    requires IsSquare(B) && i < |B|
  {
    var j := Partner(B, i);
    && B[i][i] >= bound
    && CountNonZero(B, i, i + 1, |B|) == 1
    && j < |B|
    && CountNonZero(B, j, j + 1, |B|) == 0
    && Abs(bound - B[j][j]) < Abs(bound - B[i][i])
  }

  // What the tests mean, stated directly on the entries.

  predicate SingleRemovable(B: Matrix, bound: int, i: nat)
    requires IsSquare(B) && i < |B|
  {
    B[i][i] >= bound && forall r :: i < r < |B| ==> B[r][i] == 0
  }

  predicate PairRemovable(B: Matrix, bound: int, i: nat, j: nat)
    requires IsSquare(B) && i < |B|
  {
    && B[i][i] >= bound
    && i < j < |B|
    && B[j][i] != 0
    && (forall r :: i < r < |B| && r != j ==> B[r][i] == 0)
    && (forall r :: j < r < |B| ==> B[r][j] == 0)
    && Abs(bound - B[j][j]) < Abs(bound - B[i][i])
  }

  ghost predicate Removable(B: Matrix, bound: int, i: nat)
    requires IsSquare(B) && i < |B|
  {
    SingleRemovable(B, bound, i) || exists j :: PairRemovable(B, bound, i, j)
  }

  lemma {:induction false} CountZero(B: Matrix, col: nat, lo: nat, hi: nat)
    requires IsSquare(B) && col < |B| && lo <= hi <= |B|
    ensures CountNonZero(B, col, lo, hi) == 0 <==> ColumnZero(B, col, lo, hi)
    decreases hi - lo
  {
    if hi > lo {
      CountZero(B, col, lo, hi - 1);
    }
  }

  lemma {:induction false} CountOneFacts(B: Matrix, col: nat, lo: nat, hi: nat)
    requires IsSquare(B) && col < |B| && lo <= hi <= |B|
    ensures CountNonZero(B, col, lo, hi) == 1 ==>
      var j := LastNonZero(B, col, lo, hi);
      lo <= j < hi && B[j][col] != 0 && forall r :: lo <= r < hi && r != j ==> B[r][col] == 0
    decreases hi - lo
  {
    if hi > lo {
      CountOneFacts(B, col, lo, hi - 1);
      CountZero(B, col, lo, hi - 1);
    }
  }

  lemma {:induction false} CountOneAt(B: Matrix, col: nat, lo: nat, hi: nat, j: nat)
    requires IsSquare(B) && col < |B| && lo <= j < hi <= |B|
    requires B[j][col] != 0 && forall r :: lo <= r < hi && r != j ==> B[r][col] == 0
    ensures CountNonZero(B, col, lo, hi) == 1 && LastNonZero(B, col, lo, hi) == j
    decreases hi - lo
  {
    if hi - 1 > j {
      CountOneAt(B, col, lo, hi - 1, j);
    } else {
      CountZero(B, col, lo, hi - 1);
    }
  }

  /** The level-0 and level-1 tests of `remove_unhelpful` decide exactly the
      removability stated on the entries, and the level-1 partner is the
      one row the test found. */
  lemma TestsMeanRemovable(B: Matrix, bound: int, i: nat)
    requires IsSquare(B) && i < |B|
    ensures SingleTest(B, bound, i) <==> SingleRemovable(B, bound, i)
    ensures PairTest(B, bound, i) ==> PairRemovable(B, bound, i, Partner(B, i))
    ensures forall j: nat :: PairRemovable(B, bound, i, j) ==> PairTest(B, bound, i) && j == Partner(B, i)
    ensures !(SingleTest(B, bound, i) && PairTest(B, bound, i))
  {
    CountZero(B, i, i + 1, |B|);
    CountOneFacts(B, i, i + 1, |B|);
    var j0 := Partner(B, i);
    if j0 < |B| {
      CountZero(B, j0, j0 + 1, |B|);
    }
    forall j: nat | PairRemovable(B, bound, i, j)
      ensures PairTest(B, bound, i) && j == Partner(B, i)
    {
      CountOneAt(B, i, i + 1, |B|, j);
      CountZero(B, j, j + 1, |B|);
    }
  }

  // ---------------------------------------------------------------------
  // The scan and the pruning recursion
  // ---------------------------------------------------------------------

  /** One deletion event: a single index, or an index and its partner. */
  datatype Deletion = Single(i: nat) | Pair(i: nat, j: nat)

  /** The `for ii in range(current, -1, -1)` scan: the first index, going
      down from `ii`, whose level-0 or level-1 test passes. */
  function Scan(B: Matrix, bound: int, ii: int): (r: Option<Deletion>)
    requires IsSquare(B) && -1 <= ii < |B|
    ensures r.Some? ==> r.value.i <= ii
    ensures r.Some? && r.value.Pair? ==> r.value.i < r.value.j < |B|
    decreases ii + 1
  {
    if ii < 0 then None
    else if SingleTest(B, bound, ii) then Some(Single(ii))
    else if PairTest(B, bound, ii) then
      CountOneFacts(B, ii, ii + 1, |B|);
      Some(Pair(ii, Partner(B, ii)))
    else Scan(B, bound, ii - 1)
  }

  /** The scan finds the highest removable index at or below `ii`, prefers
      the single deletion there, and finds nothing only when no index at
      or below `ii` is removable. */
  lemma {:induction false} ScanFindsHighestRemovable(B: Matrix, bound: int, ii: int)
    requires IsSquare(B) && -1 <= ii < |B|
    ensures Scan(B, bound, ii).None? ==> forall k :: 0 <= k <= ii ==> !Removable(B, bound, k)
    ensures Scan(B, bound, ii).Some? ==>
      var d := Scan(B, bound, ii).value;
      && (d.Single? ==> SingleRemovable(B, bound, d.i))
      && (d.Pair? ==> PairRemovable(B, bound, d.i, d.j) && !SingleRemovable(B, bound, d.i))
      && forall k :: d.i < k <= ii ==> !Removable(B, bound, k)
    decreases ii + 1
  {
    if ii >= 0 {
      TestsMeanRemovable(B, bound, ii);
      if !SingleTest(B, bound, ii) && !PairTest(B, bound, ii) {
        ScanFindsHighestRemovable(B, bound, ii - 1);
      }
    }
  }

  /** How many vectors a deletion removes. */
  function Width(d: Deletion): nat
  {
    if d.Single? then 1 else 2
  }

  /** The indices of `d` are those of a basis of `n` vectors. */
  predicate Fits(d: Deletion, n: nat)
  {
    if d.Single? then d.i < n else d.i < d.j < n
  }

  /** The basis without the vectors `d` deletes. */
  function Shrink(B: Matrix, d: Deletion): (R: Matrix)
    requires IsSquare(B) && Fits(d, |B|)
    ensures IsSquare(R) && |R| == |B| - Width(d)
  {
    match d
    case Single(i) => DeleteIndex(B, i)
    case Pair(i, j) => DeletePair(B, i, j)
  }

  /** The monomial list without the entries `d` pops, the larger index
      first. */
  function ShrinkList<M>(mons: seq<M>, d: Deletion): (r: seq<M>)
    requires Fits(d, |mons|)
    ensures |r| == |mons| - Width(d)
  {
    match d
    case Single(i) => RemoveAt(mons, i)
    case Pair(i, j) => RemoveAt(RemoveAt(mons, j), i)
  }

  /** Each deletion of `ds` fits the basis the ones before it leave. */
  predicate FitsAll(ds: seq<Deletion>, n: nat)
    decreases |ds|
  {
    ds == [] || (Fits(ds[0], n) && Width(ds[0]) <= n && FitsAll(ds[1..], n - Width(ds[0])))
  }

  /** How many vectors the deletions `ds` remove in all. */
  function Removed(ds: seq<Deletion>): nat
  {
    if ds == [] then 0 else Width(ds[0]) + Removed(ds[1..])
  }

  /** The deletions `remove_unhelpful(BB, monomials, bound, current)`
      makes, in order: none once `current` is -1 or the basis is down to
      `DimensionMin` vectors; otherwise those that follow the scan from
      `current`. */
  function Trace(B: Matrix, bound: int, current: int): (ds: seq<Deletion>)
    requires IsSquare(B) && -1 <= current < |B|
    ensures FitsAll(ds, |B|) && Removed(ds) <= |B|
    ensures current == -1 || |B| <= DimensionMin ==> ds == []
    ensures |B| > DimensionMin ==> |B| - Removed(ds) >= DimensionMin - 1
    decreases current + 1, 1
  {
    if current == -1 || |B| <= DimensionMin then []
    else TraceAfter(B, bound, current, Scan(B, bound, current))
  }

  /** The deletions made once the scan from `current` has returned `next`:
      none when it found nothing; otherwise the one it found, then those
      made below its index. */
  function TraceAfter(B: Matrix, bound: int, current: int, next: Option<Deletion>): (ds: seq<Deletion>)
    requires IsSquare(B) && 0 <= current < |B| && |B| > DimensionMin
    requires next.Some? ==> Fits(next.value, |B|) && next.value.i <= current
    ensures FitsAll(ds, |B|) && Removed(ds) <= |B|
    ensures |B| - Removed(ds) >= DimensionMin - 1
    decreases current + 1, 0
  {
    match next
    case None => []
    case Some(d) =>
      var rest := Trace(Shrink(B, d), bound, d.i - 1);
      FitsCons(d, rest, |B|);
      [d] + rest
  }

  lemma FitsCons(d: Deletion, rest: seq<Deletion>, n: nat)
    requires Fits(d, n) && Width(d) <= n && FitsAll(rest, n - Width(d))
    ensures FitsAll([d] + rest, n) && Removed([d] + rest) == Width(d) + Removed(rest)
  {
    assert ([d] + rest)[1..] == rest;
  }

  /** Carry out the deletions `ds` on the basis and the monomial list. */
  function Apply<M>(B: Matrix, mons: seq<M>, ds: seq<Deletion>): (r: (Matrix, seq<M>))
    requires IsSquare(B) && |B| <= |mons| && FitsAll(ds, |B|)
    ensures IsSquare(r.0) && |r.0| == |B| - Removed(ds)
    ensures |r.1| - |r.0| == |mons| - |B|
    decreases |ds|
  {
    if ds == [] then (B, mons)
    else Apply(Shrink(B, ds[0]), ShrinkList(mons, ds[0]), ds[1..])
  }

  /** What `remove_unhelpful(BB, monomials, bound, current)` returns, paired
      with the monomial list it leaves behind. */
  function Prune<M>(B: Matrix, mons: seq<M>, bound: int, current: int): (r: (Matrix, seq<M>))
    requires IsSquare(B) && -1 <= current < |B| && |B| <= |mons|
    ensures IsSquare(r.0) && |r.0| <= |B| && |r.0| <= |r.1|
    ensures |r.1| - |r.0| == |mons| - |B|
    ensures current == -1 || |B| <= DimensionMin ==> r == (B, mons)
    ensures |B| > DimensionMin ==> |r.0| >= DimensionMin - 1
  {
    Apply(B, mons, Trace(B, bound, current))
  }

  /** The `affected_vectors` loop: how many later rows have a nonzero in
      column `ii`, and the last of them (0 when there is none). */
  method AffectedVectors(BB: Matrix, ii: nat) returns (count: nat, index: nat)
    requires IsSquare(BB) && ii < |BB|
    ensures count == CountNonZero(BB, ii, ii + 1, |BB|) && index == LastNonZero(BB, ii, ii + 1, |BB|)
    ensures count == 0 <==> forall r :: ii < r < |BB| ==> BB[r][ii] == 0
    ensures count == 1 ==>
      && ii < index < |BB| && BB[index][ii] != 0
      && forall r :: ii < r < |BB| && r != index ==> BB[r][ii] == 0
  {
    count, index := 0, 0;
    for jj := ii + 1 to |BB|
      invariant count == CountNonZero(BB, ii, ii + 1, jj)
      invariant index == LastNonZero(BB, ii, ii + 1, jj)
    {
      if BB[jj][ii] != 0 {
        count := count + 1;
        index := jj;
      }
    }
    CountZero(BB, ii, ii + 1, |BB|);
    CountOneFacts(BB, ii, ii + 1, |BB|);
  }

  /** The `affected_deeper` loop: no row below `j` has a nonzero in column
      `j`. */
  method AffectedDeeper(BB: Matrix, j: nat) returns (deeper: bool)
    requires IsSquare(BB) && j < |BB|
    ensures deeper <==> forall r :: j < r < |BB| ==> BB[r][j] == 0
  {
    deeper := true;
    for kk := j + 1 to |BB|
      invariant deeper <==> ColumnZero(BB, j, j + 1, kk)
    {
      if BB[kk][j] != 0 {
        deeper := false;
      }
    }
  }

  /** When the scan from `current` finds nothing, `remove_unhelpful`
      returns the basis and leaves the monomials as they are. */
  lemma PruneStops<M>(B: Matrix, mons: seq<M>, bound: int, current: int)
    requires IsSquare(B) && 0 <= current < |B| && |B| <= |mons| && |B| > DimensionMin
    requires Scan(B, bound, current) == None
    ensures Prune(B, mons, bound, current) == (B, mons)
  {
    assert Trace(B, bound, current) == [];
  }

  /** One step of `remove_unhelpful`: once the scan finds `d`, the result
      is that of pruning the smaller basis below `d`'s index. */
  lemma PruneStep<M>(B: Matrix, mons: seq<M>, bound: int, current: int, d: Deletion)
    requires IsSquare(B) && 0 <= current < |B| && |B| <= |mons| && |B| > DimensionMin
    requires Scan(B, bound, current) == Some(d)
    ensures Fits(d, |B|) && d.i <= current
    ensures Prune(B, mons, bound, current) == Prune(Shrink(B, d), ShrinkList(mons, d), bound, d.i - 1)
  {
    TraceStep(B, bound, current, d);
    var rest := Trace(Shrink(B, d), bound, d.i - 1);
    ApplyFirst(B, mons, [d] + rest);
    assert ([d] + rest)[1..] == rest;
  }

  /** The deletions start with the one the scan finds. */
  lemma TraceStep(B: Matrix, bound: int, current: int, d: Deletion)
    requires IsSquare(B) && 0 <= current < |B| && |B| > DimensionMin
    requires Scan(B, bound, current) == Some(d)
    ensures Fits(d, |B|) && d.i <= current
    ensures Trace(B, bound, current) == [d] + Trace(Shrink(B, d), bound, d.i - 1)
  {
    assert Trace(B, bound, current) == TraceAfter(B, bound, current, Some(d));
  }

  lemma ApplyFirst<M>(B: Matrix, mons: seq<M>, ds: seq<Deletion>)
    requires IsSquare(B) && |B| <= |mons| && FitsAll(ds, |B|) && ds != []
    ensures Fits(ds[0], |B|) && FitsAll(ds[1..], |B| - Width(ds[0]))
    ensures Apply(B, mons, ds) == Apply(Shrink(B, ds[0]), ShrinkList(mons, ds[0]), ds[1..])
  {
  }

  /** The `for ii in range(current, -1, -1)` loop of `remove_unhelpful`,
      up to the point where it deletes: the first index, going down, whose
      level-0 or level-1 test passes. */
  method FindDeletion(BB: Matrix, bound: int, current: int) returns (d: Option<Deletion>)
    requires IsSquare(BB) && -1 <= current < |BB|
    ensures d == Scan(BB, bound, current)
  {
    var ii := current;
    while ii >= 0
      invariant -1 <= ii <= current
      invariant Scan(BB, bound, ii) == Scan(BB, bound, current)
      decreases ii + 1
    {
      if BB[ii][ii] >= bound {
        var affectedVectors, affectedVectorIndex := AffectedVectors(BB, ii);
        if affectedVectors == 0 {
          return Some(Single(ii));
        } else if affectedVectors == 1 {
          var j := affectedVectorIndex;
          var affectedDeeper := AffectedDeeper(BB, j);
          CountZero(BB, j, j + 1, |BB|);
          if affectedDeeper && Abs(bound - BB[j][j]) < Abs(bound - BB[ii][ii]) {
            assert PairTest(BB, bound, ii);
            return Some(Pair(ii, j));
          }
        }
      }
      ii := ii - 1;
    }
    return None;
  }

  /** The size check is made only on entry: a pair removal from a basis of
      eight vectors leaves six. */
  lemma PairFromEightLeavesSix<M>(B: Matrix, mons: seq<M>, bound: int, current: int)
    requires IsSquare(B) && 0 <= current < |B| && |B| <= |mons|
    requires |B| == DimensionMin + 1 && Scan(B, bound, current).Some? && Scan(B, bound, current).value.Pair?
    ensures |Prune(B, mons, bound, current).0| == DimensionMin - 1
  {
    PruneStep(B, mons, bound, current, Scan(B, bound, current).value);
  }

  /** `remove_unhelpful`: deletes the vector the scan finds (or the vector
      and its partner, popping the larger index first), recurses below it,
      and returns the basis unchanged once the scan finds nothing. */
  method RemoveUnhelpful(BB: Matrix, monomials: MonomialList, bound: int, current: int) returns (R: Matrix)
    requires IsSquare(BB) && -1 <= current < |BB| && |BB| <= |monomials.items|
    modifies monomials
    ensures (R, monomials.items) == Prune(BB, old(monomials.items), bound, current)
    decreases current + 1, 1
  {
    if current == -1 || |BB| <= DimensionMin {
      return BB;
    }
    ghost var mons := monomials.items;
    var d := FindDeletion(BB, bound, current);
    match d
    case None =>
      PruneStops(BB, mons, bound, current);
      R := BB;
    case Some(del) =>
      PruneStep(BB, mons, bound, current, del);
      R := DeleteAndContinue(BB, monomials, bound, del);
  }

  /** Levels 0 and 1 of `remove_unhelpful`: delete the rows and columns
      the scan found, pop their monomials (the larger index first), then
      continue below the smaller index. */
  method DeleteAndContinue(BB: Matrix, monomials: MonomialList, bound: int, del: Deletion) returns (R: Matrix)
    requires IsSquare(BB) && Fits(del, |BB|) && |BB| <= |monomials.items|
    modifies monomials
    ensures (R, monomials.items) == Prune(Shrink(BB, del), ShrinkList(old(monomials.items), del), bound, del.i - 1)
    decreases del.i + 1, 0
  {
    var B := Shrink(BB, del);
    match del {
      case Single(i) =>
        var _ := monomials.Pop(i);
      case Pair(i, j) =>
        var _ := monomials.Pop(j);
        var _ := monomials.Pop(i);
    }
    R := RemoveUnhelpful(B, monomials, bound, del.i - 1);
  }

  // ---------------------------------------------------------------------
  // What survives the pruning
  // ---------------------------------------------------------------------

  /** `keep` lists indices below `n` in strictly increasing order. */
  predicate Increasing(keep: seq<nat>, n: nat)
  {
    && (forall t :: 0 <= t < |keep| ==> keep[t] < n)
    && (forall s, t :: 0 <= s < t < |keep| ==> keep[s] < keep[t])
  }

  /** The rows and columns of `B` at the indices `keep`. */
  function Submatrix(B: Matrix, keep: seq<nat>): (R: Matrix)
    requires IsSquare(B) && forall t :: 0 <= t < |keep| ==> keep[t] < |B|
    ensures IsSquare(R) && |R| == |keep|
  {
    seq(|keep|, r requires 0 <= r < |keep| =>
      seq(|keep|, c requires 0 <= c < |keep| => B[keep[r]][keep[c]]))
  }

  function Select<T>(s: seq<T>, keep: seq<nat>): seq<T>
    requires forall t :: 0 <= t < |keep| ==> keep[t] < |s|
  {
    seq(|keep|, t requires 0 <= t < |keep| => s[keep[t]])
  }

  function Identity(n: nat): seq<nat>
  {
    seq(n, t requires 0 <= t < n => t)
  }

  function AllBut(n: nat, i: nat): seq<nat>
    requires i < n
  {
    seq(n - 1, t requires 0 <= t < n - 1 => Skip(t, i))
  }

  function AllButTwo(n: nat, i: nat, j: nat): seq<nat>
    requires i < j < n
  {
    seq(n - 2, t requires 0 <= t < n - 2 => Skip(Skip(t, i), j))
  }

  function Compose(outer: seq<nat>, inner: seq<nat>): seq<nat>
    requires forall t :: 0 <= t < |inner| ==> inner[t] < |outer|
  {
    seq(|inner|, t requires 0 <= t < |inner| => outer[inner[t]])
  }

  /** `r` is what pruning `B` and `mons` leaves when the vectors at the
      increasing indices `keep` survive: their submatrix, and the
      monomials at the same indices followed by the tail beyond the
      basis. */
  ghost predicate KeptAt<M>(B: Matrix, mons: seq<M>, keep: seq<nat>, r: (Matrix, seq<M>))
    requires IsSquare(B) && |B| <= |mons|
  {
    && Increasing(keep, |B|)
    && r.0 == Submatrix(B, keep)
    && r.1 == Select(mons, keep) + mons[|B|..]
  }

  lemma IncreasingCompose(outer: seq<nat>, inner: seq<nat>, n: nat)
    requires Increasing(outer, n) && Increasing(inner, |outer|)
    ensures Increasing(Compose(outer, inner), n)
  {
  }

  lemma SubmatrixCompose(B: Matrix, outer: seq<nat>, inner: seq<nat>)
    requires IsSquare(B) && Increasing(outer, |B|) && Increasing(inner, |outer|)
    ensures Submatrix(Submatrix(B, outer), inner) == Submatrix(B, Compose(outer, inner))
  {
    var S := Submatrix(B, outer);
    var L, R := Submatrix(S, inner), Submatrix(B, Compose(outer, inner));
    assert |L| == |R|;
    forall r | 0 <= r < |L|
      ensures L[r] == R[r]
    {
      assert |L[r]| == |R[r]|;
    }
  }

  lemma SelectCompose<T>(s: seq<T>, rest: seq<T>, outer: seq<nat>, inner: seq<nat>)
    requires Increasing(outer, |s|) && Increasing(inner, |outer|)
    ensures Select(Select(s, outer) + rest, inner) == Select(s, Compose(outer, inner))
  {
  }

  lemma AllButIncreasing(n: nat, i: nat)
    requires i < n
    ensures Increasing(AllBut(n, i), n)
  {
  }

  lemma AllButTwoIncreasing(n: nat, i: nat, j: nat)
    requires i < j < n
    ensures Increasing(AllButTwo(n, i, j), n)
  {
  }

  /** Popping monomial `i` of the first `n` selects all other indices and
      keeps the tail. */
  lemma RemoveAtIsSelect<M>(mons: seq<M>, n: nat, i: nat)
    requires i < n <= |mons|
    ensures RemoveAt(mons, i) == Select(mons, AllBut(n, i)) + mons[n..]
  {
    var m1, m2 := RemoveAt(mons, i), Select(mons, AllBut(n, i)) + mons[n..];
    assert |m1| == |m2|;
    forall t | 0 <= t < |m1|
      ensures m1[t] == m2[t]
    {
      if t >= n - 1 {
        assert Skip(t, i) == t + 1;
      }
    }
  }

  /** Popping monomials `j` and then `i` of the first `n` selects all other
      indices and keeps the tail. */
  lemma RemovePairIsSelect<M>(mons: seq<M>, n: nat, i: nat, j: nat)
    requires i < j < n <= |mons|
    ensures RemoveAt(RemoveAt(mons, j), i) == Select(mons, AllButTwo(n, i, j)) + mons[n..]
  {
    var m1 := RemoveAt(RemoveAt(mons, j), i);
    var m2 := Select(mons, AllButTwo(n, i, j)) + mons[n..];
    assert |m1| == |m2|;
    forall t | 0 <= t < |m1|
      ensures m1[t] == m2[t]
    {
      if t >= n - 2 {
        assert Skip(Skip(t, i), j) == t + 2;
      }
    }
  }

  lemma KeptAll<M>(B: Matrix, mons: seq<M>)
    requires IsSquare(B) && |B| <= |mons|
    ensures KeptAt(B, mons, Identity(|B|), (B, mons))
  {
    var S := Submatrix(B, Identity(|B|));
    forall r | 0 <= r < |B|
      ensures S[r] == B[r]
    {
    }
  }

  lemma MatrixAfterSingle(B: Matrix, i: nat, keep: seq<nat>)
    requires IsSquare(B) && i < |B| && Increasing(keep, |B| - 1)
    ensures Increasing(Compose(AllBut(|B|, i), keep), |B|)
    ensures Submatrix(DeleteIndex(B, i), keep) == Submatrix(B, Compose(AllBut(|B|, i), keep))
  {
    AllButIncreasing(|B|, i);
    IncreasingCompose(AllBut(|B|, i), keep, |B|);
    SubmatrixCompose(B, AllBut(|B|, i), keep);
  }

  lemma MatrixAfterPair(B: Matrix, i: nat, j: nat, keep: seq<nat>)
    requires IsSquare(B) && i < j < |B| && Increasing(keep, |B| - 2)
    ensures Increasing(Compose(AllButTwo(|B|, i, j), keep), |B|)
    ensures Submatrix(DeletePair(B, i, j), keep) == Submatrix(B, Compose(AllButTwo(|B|, i, j), keep))
  {
    AllButTwoIncreasing(|B|, i, j);
    IncreasingCompose(AllButTwo(|B|, i, j), keep, |B|);
    SubmatrixCompose(B, AllButTwo(|B|, i, j), keep);
  }

  lemma MonomialsAfterSingle<M>(mons: seq<M>, n: nat, i: nat, keep: seq<nat>)
    requires i < n <= |mons| && Increasing(keep, n - 1)
    ensures Select(RemoveAt(mons, i), keep) + RemoveAt(mons, i)[n - 1..]
      == Select(mons, Compose(AllBut(n, i), keep)) + mons[n..]
  {
    AllButIncreasing(n, i);
    RemoveAtIsSelect(mons, n, i);
    SelectCompose(mons, mons[n..], AllBut(n, i), keep);
    assert RemoveAt(mons, i)[n - 1..] == mons[n..];
  }

  lemma MonomialsAfterPair<M>(mons: seq<M>, n: nat, i: nat, j: nat, keep: seq<nat>)
    requires i < j < n <= |mons| && Increasing(keep, n - 2)
    ensures Select(RemoveAt(RemoveAt(mons, j), i), keep) + RemoveAt(RemoveAt(mons, j), i)[n - 2..]
      == Select(mons, Compose(AllButTwo(n, i, j), keep)) + mons[n..]
  {
    AllButTwoIncreasing(n, i, j);
    RemovePairIsSelect(mons, n, i, j);
    SelectCompose(mons, mons[n..], AllButTwo(n, i, j), keep);
    assert RemoveAt(RemoveAt(mons, j), i)[n - 2..] == mons[n..];
  }

  /** What survives a single deletion of `i` and then `keep` of the
      smaller basis is what survives `Compose(AllBut(|B|, i), keep)` of
      the original. */
  lemma KeptAfterSingle<M>(B: Matrix, mons: seq<M>, i: nat, keep: seq<nat>, r: (Matrix, seq<M>))
    requires IsSquare(B) && i < |B| <= |mons|
    ensures KeptAt(DeleteIndex(B, i), RemoveAt(mons, i), keep, r) ==> KeptAt(B, mons, Compose(AllBut(|B|, i), keep), r)
  {
    if KeptAt(DeleteIndex(B, i), RemoveAt(mons, i), keep, r) {
      MatrixAfterSingle(B, i, keep);
      MonomialsAfterSingle(mons, |B|, i, keep);
    }
  }

  lemma KeptAfterPair<M>(B: Matrix, mons: seq<M>, i: nat, j: nat, keep: seq<nat>, r: (Matrix, seq<M>))
    requires IsSquare(B) && i < j < |B| <= |mons|
    ensures KeptAt(DeletePair(B, i, j), RemoveAt(RemoveAt(mons, j), i), keep, r) ==> KeptAt(B, mons, Compose(AllButTwo(|B|, i, j), keep), r)
  {
    if KeptAt(DeletePair(B, i, j), RemoveAt(RemoveAt(mons, j), i), keep, r) {
      MatrixAfterPair(B, i, j, keep);
      MonomialsAfterPair(mons, |B|, i, j, keep);
    }
  }

  /** The surviving indices themselves, built along the deletions. */
  lemma {:induction false} SurvivingIndices<M>(B: Matrix, mons: seq<M>, ds: seq<Deletion>) returns (keep: seq<nat>)
    requires IsSquare(B) && |B| <= |mons| && FitsAll(ds, |B|)
    ensures KeptAt(B, mons, keep, Apply(B, mons, ds))
    decreases |ds|
  {
    if ds == [] {
      KeptAll(B, mons);
      keep := Identity(|B|);
    } else {
      var r := Apply(B, mons, ds);
      var keep1 := SurvivingIndices(Shrink(B, ds[0]), ShrinkList(mons, ds[0]), ds[1..]);
      match ds[0]
      case Single(i) =>
        KeptAfterSingle(B, mons, i, keep1, r);
        keep := Compose(AllBut(|B|, i), keep1);
      case Pair(i, j) =>
        KeptAfterPair(B, mons, i, j, keep1, r);
        keep := Compose(AllButTwo(|B|, i, j), keep1);
    }
  }

  /** Nothing else changes: the basis `remove_unhelpful` returns is the
      submatrix of the input at some increasing list of surviving
      indices, kept in their original order, and the monomial list loses
      exactly the other indices. */
  lemma PruneKeepsSurvivors<M>(B: Matrix, mons: seq<M>, bound: int, current: int)
    requires IsSquare(B) && -1 <= current < |B| && |B| <= |mons|
    ensures exists keep :: KeptAt(B, mons, keep, Prune(B, mons, bound, current))
  {
    var keep := SurvivingIndices(B, mons, Trace(B, bound, current));
    assert KeptAt(B, mons, keep, Prune(B, mons, bound, current));
  }

  /** Only entries on or below the diagonal are nonzero, as in the basis
      `boneh_durfee` builds. */
  predicate LowerTriangular(B: Matrix)
    requires IsSquare(B)
  {
    forall r, c :: 0 <= r < c < |B| ==> B[r][c] == 0
  }

  /** Pruning keeps a lower-triangular basis lower-triangular. */
  lemma PruneKeepsLowerTriangular<M>(B: Matrix, mons: seq<M>, bound: int, current: int)
    requires IsSquare(B) && -1 <= current < |B| && |B| <= |mons|
    requires LowerTriangular(B)
    ensures LowerTriangular(Prune(B, mons, bound, current).0)
  {
    var keep := SurvivingIndices(B, mons, Trace(B, bound, current));
    var R := Prune(B, mons, bound, current).0;
    forall r, c | 0 <= r < c < |R|
      ensures R[r][c] == 0
    {
      assert R[r][c] == B[keep[r]][keep[c]];
    }
  }

  // ---------------------------------------------------------------------
  // The shift polynomials of the lattice
  // ---------------------------------------------------------------------

  /** A shift polynomial by its indices: `x^i * e^(m-k) * f^k` or
      `y^j * f^k * e^(m-k)`, with `f` the substituted polynomial. */
  datatype Shift = XShift(k: nat, i: nat) | YShift(j: nat, k: nat)

  /** The x-shifts made for `kk = k`. */
  function XShiftRow(mm: nat, k: nat): seq<Shift>
    requires k <= mm
  {
    seq(mm - k + 1, i requires 0 <= i < mm - k + 1 => XShift(k, i))
  }

  /** The x-shifts made for `kk` below `k`, in loop order. */
  function XShiftRows(mm: nat, k: nat): seq<Shift>
    requires k <= mm + 1
  {
    if k == 0 then [] else XShiftRows(mm, k - 1) + XShiftRow(mm, k - 1)
  }

  /** The x-shift loops (`gg` before `gg.sort()`). */
  method XShifts(mm: nat) returns (gg: seq<Shift>)
    ensures gg == XShiftRows(mm, mm + 1)
  {
    gg := [];
    for kk := 0 to mm + 1
      invariant gg == XShiftRows(mm, kk)
    {
      for ii := 0 to mm - kk + 1
        invariant gg == XShiftRows(mm, kk) + XShiftRow(mm, kk)[..ii]
      {
        assert XShiftRow(mm, kk)[..ii + 1] == XShiftRow(mm, kk)[..ii] + [XShift(kk, ii)];
        gg := gg + [XShift(kk, ii)];
      }
    }
  }

  /** The x-shift loops make exactly the shifts with `0 <= k <= m` and
      `0 <= i <= m - k`, each once: `(m+1)(m+2)/2` of them. */
  lemma XShiftsExactly(mm: nat, k: nat)
    requires k <= mm + 1
    ensures forall s :: s in XShiftRows(mm, k) <==> s.XShift? && s.k < k && s.i <= mm - s.k
    ensures 2 * |XShiftRows(mm, k)| == k * (2 * mm + 3 - k)
    ensures forall s, t :: 0 <= s < t < |XShiftRows(mm, k)| ==> XShiftRows(mm, k)[s] != XShiftRows(mm, k)[t]
  {
    XShiftMembers(mm, k);
    XShiftLength(mm, k);
    XShiftsDistinct(mm, k);
  }

  lemma XShiftRowMembers(mm: nat, k: nat)
    requires k <= mm
    ensures forall s :: s in XShiftRow(mm, k) <==> s.XShift? && s.k == k && s.i <= mm - s.k
  {
    var row := XShiftRow(mm, k);
    forall s: Shift | s.XShift? && s.k == k && s.i <= mm - s.k
      ensures s in row
    {
      assert row[s.i] == s;
    }
  }

  lemma {:induction false} XShiftMembers(mm: nat, k: nat)
    requires k <= mm + 1
    ensures forall s :: s in XShiftRows(mm, k) <==> s.XShift? && s.k < k && s.i <= mm - s.k
  {
    if k > 0 {
      XShiftMembers(mm, k - 1);
      XShiftRowMembers(mm, k - 1);
    }
  }

  lemma {:induction false} XShiftLength(mm: nat, k: nat)
    requires k <= mm + 1
    ensures 2 * |XShiftRows(mm, k)| == k * (2 * mm + 3 - k)
  {
    if k > 0 {
      XShiftLength(mm, k - 1);
      assert 2 * |XShiftRows(mm, k)| == (k - 1) * (2 * mm + 3 - (k - 1)) + 2 * (mm - k + 2);
    }
  }

  lemma {:induction false} XShiftsDistinct(mm: nat, k: nat)
    requires k <= mm + 1
    ensures forall s, t :: 0 <= s < t < |XShiftRows(mm, k)| ==> XShiftRows(mm, k)[s] != XShiftRows(mm, k)[t]
  {
    if k > 0 {
      XShiftsDistinct(mm, k - 1);
      XShiftMembers(mm, k - 1);
      var prev, row := XShiftRows(mm, k - 1), XShiftRow(mm, k - 1);
      forall s, t | 0 <= s < t < |prev + row|
        ensures (prev + row)[s] != (prev + row)[t]
      {
        if s < |prev| && t >= |prev| {
          assert (prev + row)[s] in prev;
        }
      }
    }
  }

  /** The number of x-shifts. */
  lemma XShiftCount(mm: nat)
    ensures |XShiftRows(mm, mm + 1)| == (mm + 1) * (mm + 2) / 2
  {
    XShiftsExactly(mm, mm + 1);
    assert 2 * |XShiftRows(mm, mm + 1)| == (mm + 1) * (mm + 2);
  }

  /** `floor(m/t) * j <= m` for every row `1 <= j <= t`, so each row of
      the y-shift loops is a non-empty range. */
  lemma RowStartBelow(mm: nat, tt: nat, j: nat)
    requires 1 <= j <= tt
    ensures 0 <= (mm / tt) * j <= mm
  {
    var f := mm / tt;
    assert f * tt <= mm;
    assert f * j <= f * tt by {
      assert f * tt - f * j == f * (tt - j);
    }
  }

  /** The y-shifts `(j, k)` for `k` in `range(start, m + 1)`. */
  function YShiftRow(mm: nat, j: nat, start: nat): seq<Shift>
  {
    var n := if start <= mm then mm + 1 - start else 0;
    seq(n, t requires 0 <= t < n => YShift(j, start + t))
  }

  /** The y-shifts made for `jj` from 1 up to `j`, in loop order, where
      `f` is `floor(m/t)`. */
  function YShiftRows(mm: nat, f: nat, j: nat): seq<Shift>
  {
    if j == 0 then [] else YShiftRows(mm, f, j - 1) + YShiftRow(mm, j, f * j)
  }

  /** All the y-shifts for `m` and `t`: none when `t == 0`. */
  function YShiftList(mm: nat, tt: nat): seq<Shift>
  {
    if tt == 0 then [] else YShiftRows(mm, mm / tt, tt)
  }

  /** The monomials `u^k * y^j` for `k` in `range(start, m + 1)`. */
  function YMonomialRow(mm: nat, j: nat, start: nat): seq<Monomial>
  {
    var n := if start <= mm then mm + 1 - start else 0;
    seq(n, t requires 0 <= t < n => Monomial(start + t, 0, j))
  }

  function YMonomialRows(mm: nat, f: nat, j: nat): seq<Monomial>
  {
    if j == 0 then [] else YMonomialRows(mm, f, j - 1) + YMonomialRow(mm, j, f * j)
  }

  function YMonomialList(mm: nat, tt: nat): seq<Monomial>
  {
    if tt == 0 then [] else YMonomialRows(mm, mm / tt, tt)
  }

  /** The monomial `u^k * y^j` a y-shift contributes. */
  function YMonomial(s: Shift): Monomial
    requires s.YShift?
  {
    Monomial(s.k, 0, s.j)
  }

  /** The y-shift loop that extends `gg`; with `tt == 0` it makes nothing
      and never divides by `tt`. */
  method YShifts(mm: nat, tt: nat) returns (gg: seq<Shift>)
    ensures gg == YShiftList(mm, tt)
  {
    gg := [];
    if tt == 0 {
      return;
    }
    var f := mm / tt;
    for jj := 1 to tt + 1
      invariant gg == YShiftRows(mm, f, jj - 1)
    {
      RowStartBelow(mm, tt, jj);
      var start := f * jj;
      gg := AppendYShiftRow(gg, mm, jj, start);
    }
  }

  /** The inner y-shift loop: the shifts `(j, k)` for `k` in
      `range(start, m + 1)`, appended to `gg`. */
  method AppendYShiftRow(gg0: seq<Shift>, mm: nat, j: nat, start: nat) returns (gg: seq<Shift>)
    requires start <= mm + 1
    ensures gg == gg0 + YShiftRow(mm, j, start)
  {
    gg := gg0;
    ghost var row := YShiftRow(mm, j, start);
    for kk := start to mm + 1
      invariant gg == gg0 + row[..kk - start]
    {
      assert row[..kk - start + 1] == row[..kk - start] + [YShift(j, kk)];
      gg := gg + [YShift(j, kk)];
    }
    assert row[..mm + 1 - start] == row;
  }

  /** The second y-shift loop, appending `u^k * y^j` to the monomial list. */
  method AppendYShiftMonomials(monomials: MonomialList, mm: nat, tt: nat)
    modifies monomials
    ensures monomials.items == old(monomials.items) + YMonomialList(mm, tt)
  {
    if tt == 0 {
      return;
    }
    ghost var items0 := monomials.items;
    var f := mm / tt;
    for jj := 1 to tt + 1
      invariant monomials.items == items0 + YMonomialRows(mm, f, jj - 1)
    {
      RowStartBelow(mm, tt, jj);
      var start := f * jj;
      AppendYMonomialRow(monomials, mm, jj, start);
      AppendAssociative(items0, YMonomialRows(mm, f, jj - 1), YMonomialRow(mm, jj, start));
      assert YMonomialRows(mm, f, jj) == YMonomialRows(mm, f, jj - 1) + YMonomialRow(mm, jj, start);
    }
    assert YMonomialList(mm, tt) == YMonomialRows(mm, f, tt);
  }

  lemma AppendAssociative<T>(a: seq<T>, b: seq<T>, c: seq<T>)
    ensures (a + b) + c == a + (b + c)
  {
  }

  /** Its inner loop: `u^k * y^j` for `k` in `range(start, m + 1)`. */
  method AppendYMonomialRow(monomials: MonomialList, mm: nat, j: nat, start: nat)
    requires start <= mm + 1
    modifies monomials
    ensures monomials.items == old(monomials.items) + YMonomialRow(mm, j, start)
  {
    ghost var row := YMonomialRow(mm, j, start);
    for kk := start to mm + 1
      invariant monomials.items == old(monomials.items) + row[..kk - start]
    {
      assert row[..kk - start + 1] == row[..kk - start] + [Monomial(kk, 0, j)];
      monomials.Append(Monomial(kk, 0, j));
    }
    assert row[..mm + 1 - start] == row;
  }

  /** The two y-shift loops run in step: the `t`-th monomial appended is
      `u^k * y^j` for the `t`-th shift `(j, k)`. */
  lemma {:induction false} YMonomialsMatchShifts(mm: nat, f: nat, j: nat)
    ensures |YMonomialRows(mm, f, j)| == |YShiftRows(mm, f, j)|
    ensures forall t :: 0 <= t < |YShiftRows(mm, f, j)| ==>
      YShiftRows(mm, f, j)[t].YShift? && YMonomialRows(mm, f, j)[t] == YMonomial(YShiftRows(mm, f, j)[t])
  {
    if j > 0 {
      YMonomialsMatchShifts(mm, f, j - 1);
      var P: seq<Shift>, R: seq<Shift> := YShiftRows(mm, f, j - 1), YShiftRow(mm, j, f * j);
      var PM, RM := YMonomialRows(mm, f, j - 1), YMonomialRow(mm, j, f * j);
      assert YShiftRows(mm, f, j) == P + R && YMonomialRows(mm, f, j) == PM + RM;
      forall t | 0 <= t < |P + R|
        ensures (P + R)[t].YShift? && (PM + RM)[t] == YMonomial((P + R)[t])
      {
        if t >= |P| {
          assert (P + R)[t] == R[t - |P|];
          assert (PM + RM)[t] == RM[t - |P|];
        }
      }
    }
  }

  /** The y-shift rows up to `j` hold exactly the shifts `(j', k)` with
      `1 <= j' <= j` and `f * j' <= k <= m`, each once. */
  lemma {:induction false} YShiftMembers(mm: nat, f: nat, j: nat)
    ensures forall s :: s in YShiftRows(mm, f, j) <==> s.YShift? && 1 <= s.j <= j && f * s.j <= s.k <= mm
    ensures forall s, t :: 0 <= s < t < |YShiftRows(mm, f, j)| ==> YShiftRows(mm, f, j)[s] != YShiftRows(mm, f, j)[t]
  {
    if j > 0 {
      YShiftMembers(mm, f, j - 1);
      var prev, row := YShiftRows(mm, f, j - 1), YShiftRow(mm, j, f * j);
      assert YShiftRows(mm, f, j) == prev + row;
      YShiftRowMembers(mm, j, f * j);
      forall s, t | 0 <= s < t < |prev + row|
        ensures (prev + row)[s] != (prev + row)[t]
      {
        if s < |prev| && t >= |prev| {
          assert (prev + row)[s] in prev;
          assert (prev + row)[t] in row;
        } else if s >= |prev| {
          assert (prev + row)[s] == row[s - |prev|];
          assert (prev + row)[t] == row[t - |prev|];
        }
      }
    }
  }

  /** Row `j` holds the y-shifts `(j, k)` for `k` from `start` to `m`, each once. */
  lemma YShiftRowMembers(mm: nat, j: nat, start: nat)
    ensures forall s :: s in YShiftRow(mm, j, start) <==> s.YShift? && s.j == j && start <= s.k <= mm
    ensures forall s, t :: 0 <= s < t < |YShiftRow(mm, j, start)| ==> YShiftRow(mm, j, start)[s] != YShiftRow(mm, j, start)[t]
  {
    var row := YShiftRow(mm, j, start);
    forall s: Shift | s.YShift? && s.j == j && start <= s.k <= mm
      ensures s in row
    {
      assert row[s.k - start] == s;
    }
  }

  /** When every row is non-empty there are
      `j(m+1) - f * j(j+1)/2` y-shifts in the first `j` rows. */
  lemma {:induction false} YShiftCount(mm: nat, f: nat, j: nat)
    requires f * j <= mm
    ensures 2 * |YShiftRows(mm, f, j)| == 2 * j * (mm + 1) - f * (j * (j + 1))
  {
    if j == 0 {
      assert f * (j * (j + 1)) == 0;
    } else {
      var now := f * j;
      assert now == f * (j - 1) + f;
      YShiftCount(mm, f, j - 1);
      CountStep(|YShiftRows(mm, f, j - 1)|, |YShiftRows(mm, f, j)|, mm, f, j);
    }
  }

  lemma CountStep(before: int, after: int, mm: int, f: int, j: int)
    requires after == before + (mm + 1 - f * j)
    requires 2 * before == 2 * (j - 1) * (mm + 1) - f * ((j - 1) * j)
    ensures 2 * after == 2 * j * (mm + 1) - f * (j * (j + 1))
  {
    TriangleStep(f, j);
    assert 2 * j * (mm + 1) == 2 * (j - 1) * (mm + 1) + 2 * (mm + 1);
  }

  lemma TriangleStep(f: int, j: int)
    ensures f * (j * (j + 1)) == f * ((j - 1) * j) + 2 * (f * j)
  {
    var a := (j - 1) * j;
    assert j * (j + 1) == a + 2 * j;
    assert f * (a + 2 * j) == f * a + f * (2 * j);
  }

  /** The y-shift loops for `m` and `t >= 1` make exactly the shifts with
      `1 <= j <= t` and `floor(m/t) * j <= k <= m`, each once, and
      `t(m+1) - floor(m/t) * t(t+1)/2` of them; with `t == 0` they make
      none. */
  lemma YShiftsExactly(mm: nat, tt: nat)
    ensures tt == 0 ==> YShiftList(mm, tt) == []
    ensures tt >= 1 ==>
      && (forall s :: s in YShiftList(mm, tt) <==>
            s.YShift? && 1 <= s.j <= tt && (mm / tt) * s.j <= s.k <= mm)
      && 2 * |YShiftList(mm, tt)| == 2 * tt * (mm + 1) - (mm / tt) * (tt * (tt + 1))
    ensures forall s, t :: 0 <= s < t < |YShiftList(mm, tt)| ==> YShiftList(mm, tt)[s] != YShiftList(mm, tt)[t]
  {
    if tt >= 1 {
      YShiftMembers(mm, mm / tt, tt);
      RowStartBelow(mm, tt, tt);
      YShiftCount(mm, mm / tt, tt);
    }
  }

  /** The monomials appended match the y-shifts one for one. */
  lemma YMonomialListMatches(mm: nat, tt: nat)
    ensures |YMonomialList(mm, tt)| == |YShiftList(mm, tt)|
    ensures forall t :: 0 <= t < |YShiftList(mm, tt)| ==>
      YShiftList(mm, tt)[t].YShift? && YMonomialList(mm, tt)[t] == YMonomial(YShiftList(mm, tt)[t])
  {
    if tt >= 1 {
      YMonomialsMatchShifts(mm, mm / tt, tt);
    }
  }

  // ---------------------------------------------------------------------
  // Result decisions
  // ---------------------------------------------------------------------

  /** A rational number as Sage keeps it: a numerator over a positive
      denominator. */
  datatype Fraction = Fraction(num: int, den: int)
  type Rational = q: Fraction | q.den >= 1 witness Fraction(0, 1)

  /** The integer `k` as a rational. */
  function FromInt(k: int): (q: Rational)
    ensures q.num == k
  {
    Fraction(k, 1)
  }

  /** The pair `(solx, soly)` that `boneh_durfee` returns: one of the
      integer markers `(0, 0)` and `(-1, -1)`, or the rational roots of the
      two reduced polynomials (which are over `QQ`, since each coefficient
      is divided by `monomials[jj](UU, XX, YY)`). */
  datatype Roots = Roots(x: Rational, y: Rational)

  /** What `boneh_durfee` returns or raises once the basis is pruned to
      `nn` vectors. The Sage steps are inputs: `det` is the determinant of
      the pruned basis; `independent` says the resultant of the first two
      reduced polynomials is neither zero nor constant; `soly` is the first
      rational root of that resultant, if it has one; `solx` is the first
      rational root of `pol1(q, soly)`, if it has one, and taking `[0][0]`
      of an empty root list raises `IndexError`. A one-vector basis raises
      `IndexError` earlier, when `pol2` reads row 1 of the reduced basis. */
  function BonehDurfeeResult(nn: nat, det: int, modulus: int, mm: nat, strict: bool,
                             independent: bool, soly: Option<Rational>, solx: Option<Rational>): Result<Roots>
  {
    if nn == 0 then Ok(Roots(FromInt(0), FromInt(0)))
    else if det >= Pow(modulus, mm * nn) && strict then Ok(Roots(FromInt(-1), FromInt(-1)))
    else if nn == 1 then Err(IndexError)
    else if !independent || soly.None? then Ok(Roots(FromInt(0), FromInt(0)))
    else if solx.None? then Err(IndexError)
    else Ok(Roots(solx.value, soly.value))
  }

  /** The decisions of `boneh_durfee` once the basis is pruned to `nn`
      vectors: `(-1, -1)` when `strict` is set and the determinant is not
      below `modulus^(mm * nn)`, and otherwise only as a pair of roots found; `(0, 0)` for an empty basis,
      dependent vectors or a resultant without rational roots; `IndexError`
      exactly when one vector is left or `pol1(q, soly)` has no rational
      root; otherwise the roots found. A positive `solx` therefore always is a root found. */
  lemma BonehDurfeeDecisions(nn: nat, det: int, modulus: int, mm: nat, strict: bool,
                             independent: bool, soly: Option<Rational>, solx: Option<Rational>)
    ensures var r := BonehDurfeeResult(nn, det, modulus, mm, strict, independent, soly, solx);
      var tooLarge := strict && det >= Pow(modulus, mm * nn);
      && (nn != 0 && tooLarge ==> r == Ok(Roots(FromInt(-1), FromInt(-1))))
      && (r == Ok(Roots(FromInt(-1), FromInt(-1))) && (solx, soly) != (Some(FromInt(-1)), Some(FromInt(-1))) ==>
            nn != 0 && tooLarge)
      && (nn == 0 || (!tooLarge && nn != 1 && (!independent || soly.None?)) ==> r == Ok(Roots(FromInt(0), FromInt(0))))
      && (r.Err? <==> nn != 0 && !tooLarge && (nn == 1 || (independent && soly.Some? && solx.None?)))
      && (r.Err? ==> r.error == IndexError)
      && (r.Ok? && r.value.x.num > 0 ==>
            nn >= 2 && !tooLarge && independent && soly.Some? && solx.Some? && r.value == Roots(solx.value, soly.value))
  {
  }

  /** The basis `boneh_durfee` prunes (bound `modulus^mm`, from the last
      index down) ends up empty only when it starts empty, so the `(0, 0)`
      failure comes only from an empty basis. */
  lemma PrunedEmptyOnlyIfEmpty<M>(B: Matrix, mons: seq<M>, bound: int)
    requires IsSquare(B) && |B| <= |mons|
    ensures |Prune(B, mons, bound, |B| - 1).0| == 0 <==> |B| == 0
  {
  }

  /** `int(q)` for a rational `q = p / e`: truncation toward zero. */
  function TruncDiv(p: int, e: int): int
    requires e != 0
  {
    if (p >= 0) == (e > 0) then Abs(p) / Abs(e) else -(Abs(p) / Abs(e))
  }

  /** For a positive divisor, truncation rounds toward zero from either
      side and is exact on multiples. */
  lemma TruncDivSpec(p: int, e: int)
    requires e > 0
    ensures p >= 0 ==> 0 <= e * TruncDiv(p, e) <= p < e * TruncDiv(p, e) + e
    ensures p < 0 ==> e * TruncDiv(p, e) - e < p <= e * TruncDiv(p, e) <= 0
    ensures p % e == 0 ==> e * TruncDiv(p, e) == p
  {
    var q := Abs(p) / e;
    QuotientBounds(Abs(p), e);
    if p >= 0 {
      assert TruncDiv(p, e) == q;
    } else {
      assert TruncDiv(p, e) == -q;
      assert e * -q == -(e * q);
      if p % e == 0 {
        MultipleMod(e, -(p / e));
        assert Abs(p) == e * -(p / e);
      }
    }
  }

  /** Euclidean quotient of a non-negative number: `e * q` lies in `(a - e, a]`
      and equals `a` exactly on multiples. */
  lemma QuotientBounds(a: int, e: int)
    requires a >= 0 && e > 0
    ensures 0 <= e * (a / e) <= a < e * (a / e) + e
    ensures a % e == 0 <==> e * (a / e) == a
  {
    var q, r := a / e, a % e;
    assert a == e * q + r;
    if q < 0 {
      MulAtLeast(e, q);
    }
  }

  /** `pol(solx, soly) = 1 + x(A + y)` for rational roots, as a numerator
      over the denominator `PolDenominator`. */
  function PolNumerator(roots: Roots, A: int): int
  {
    roots.x.den * roots.y.den + roots.x.num * (A * roots.y.den + roots.y.num)
  }

  function PolDenominator(roots: Roots): (q: int)
    ensures q >= 1
  {
    MulAtLeast(roots.x.den, roots.y.den);
    roots.x.den * roots.y.den
  }

  /** What `factor` returns for the roots `(solx, soly)` of
      `pol = 1 + x * (A + y)` and public exponent `e`: `int(pol(solx, soly) / e)`,
      the rational quotient truncated toward zero, when `solx > 0`, and
      `None` otherwise; dividing by `e == 0` raises. */
  function Factor(roots: Roots, e: int, A: int): Result<Option<int>>
  {
    if roots.x.num > 0 then
      if e == 0 then Err(ZeroDivisionError)
      else
        MulAtLeast(PolDenominator(roots), e);
        Ok(Some(TruncDiv(PolNumerator(roots, A), PolDenominator(roots) * e)))
    else Ok(None)
  }

  /** `factor` yields a `d` exactly when `solx > 0` and `e != 0`, and only
      raises `ZeroDivisionError`. With `pol(solx, soly) = p / q`, for a
      positive `e` the `d` it yields is `floor(p / (q * e))` when `p >= 0`,
      and satisfies the key equation `e * d = pol(solx, soly)` when that
      quotient is exact. */
  lemma FactorSpec(roots: Roots, e: int, A: int)
    ensures Factor(roots, e, A).Ok? && Factor(roots, e, A).value.Some? <==> roots.x.num > 0 && e != 0
    ensures Factor(roots, e, A).Err? <==> roots.x.num > 0 && e == 0
    ensures Factor(roots, e, A).Err? ==> Factor(roots, e, A).error == ZeroDivisionError
    ensures var p, q := PolNumerator(roots, A), PolDenominator(roots);
      roots.x.num > 0 && e > 0 && p % (q * e) == 0 ==> q * e * Factor(roots, e, A).value.value == p
    ensures var p, q := PolNumerator(roots, A), PolDenominator(roots);
      roots.x.num > 0 && e > 0 && p >= 0 ==>
        var d := Factor(roots, e, A).value.value;
        0 <= q * e * d <= p < q * e * d + q * e
  {
    if roots.x.num > 0 && e > 0 {
      var q := PolDenominator(roots);
      MulAtLeast(q, e);
      TruncDivSpec(PolNumerator(roots, A), q * e);
    }
  }

  /** On integer roots `factor` computes `int((1 + x(A + y)) / e)`. */
  lemma FactorIntegerRoots(x: int, y: int, e: int, A: int)
    requires x > 0 && e != 0
    ensures Factor(Roots(FromInt(x), FromInt(y)), e, A) == Ok(Some(TruncDiv(1 + x * (A + y), e)))
  {
    var roots := Roots(FromInt(x), FromInt(y));
    assert PolDenominator(roots) == 1;
    assert PolNumerator(roots, A) == 1 + x * (A + y);
  }

  /** `factor`: an exception from `boneh_durfee` propagates. */
  function FactorAfter(lattice: Result<Roots>, e: int, A: int): Result<Option<int>>
  {
    match lattice
    case Ok(roots) => Factor(roots, e, A)
    case Err(err) => Err(err)
  }

  /** How the call to `factor` inside `attack` ended. */
  datatype FactorOutcome = Overflowed | Returned(d: Result<Option<int>>)

  /** What `attack` returns: `OverflowError` and a `None` result give
      `(None, None)`; a `d` is handed to `construct` (pycryptodome's
      `RSA.construct((n, e, d))`, which recovers the factors or raises),
      and the private key is built from the factors it returns. Errors
      other than `OverflowError` are not caught. */
  function BonehDurfeeAttack(n: int, e: int, outcome: FactorOutcome, construct: int -> Result<(int, int)>): Result<AttackResult>
  {
    match outcome
    case Overflowed => Ok(NoResult)
    case Returned(Err(err)) => Err(err)
    case Returned(Ok(None)) => Ok(NoResult)
    case Returned(Ok(Some(d))) =>
      match construct(d)
      case Ok((p, q)) => Ok(AttackResult(Some(PrivateKey(n, e, None, Some(p), Some(q))), None))
      case Err(err) => Err(err)
  }

  /** `attack` over `factor`: overflow and roots with `solx <= 0` give
      `(None, None)`; an exception from `boneh_durfee` escapes; otherwise,
      for `e != 0`, the key holds the factors `construct` recovers from the
      `d` that `factor` computes, and it fails exactly when `construct`
      does. */
  lemma BonehDurfeeAttackSpec(n: int, e: int, lattice: Result<Roots>, A: int, overflowed: bool, construct: int -> Result<(int, int)>)
    ensures var outcome := if overflowed then Overflowed else Returned(FactorAfter(lattice, e, A));
      var r := BonehDurfeeAttack(n, e, outcome, construct);
      && (overflowed ==> r == Ok(NoResult))
      && (!overflowed && lattice.Err? ==> r == Err(lattice.error))
      && (!overflowed && lattice.Ok? && lattice.value.x.num <= 0 ==> r == Ok(NoResult))
      && (!overflowed && lattice.Ok? && lattice.value.x.num > 0 && e != 0 ==>
            var d := Factor(lattice.value, e, A).value.value;
            && (r.Ok? <==> construct(d).Ok?)
            && (r.Ok? ==>
                  r.value == AttackResult(Some(PrivateKey(n, e, None, Some(construct(d).value.0), Some(construct(d).value.1))), None)))
  {
  }

  /** From the lattice to `attack`: without overflow, every failure marker
      of `boneh_durfee` (empty basis, a determinant too large in strict
      mode, and, with at least two vectors, dependent vectors or no
      rational root) ends as `(None, None)`; a one-vector basis and a
      missing root of `pol1(q, soly)` escape as `IndexError`. */
  lemma BonehDurfeeFailures(n: int, e: int, A: int, nn: nat, det: int, modulus: int, mm: nat, strict: bool,
                            independent: bool, soly: Option<Rational>, solx: Option<Rational>,
                            construct: int -> Result<(int, int)>)
    ensures var lattice := BonehDurfeeResult(nn, det, modulus, mm, strict, independent, soly, solx);
      var r := BonehDurfeeAttack(n, e, Returned(FactorAfter(lattice, e, A)), construct);
      var tooLarge := strict && det >= Pow(modulus, mm * nn);
      && (nn == 0 || tooLarge || (nn != 1 && (!independent || soly.None?)) ==> r == Ok(NoResult))
      && (nn == 1 && !tooLarge ==> r == Err(IndexError))
      && (lattice.Err? ==> r == Err(IndexError))
  {
    BonehDurfeeDecisions(nn, det, modulus, mm, strict, independent, soly, solx);
  }
}
