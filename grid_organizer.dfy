/** Ordering the bubbles into questions: sort top-to-bottom, cut into
    consecutive chunks of four, sort each chunk left-to-right. */
module GridOrganizer {
  import opened OmrTypes

  datatype Axis = TopToBottom | LeftToRight

  /** The bounding-box coordinate a sort along `axis` compares. */
  function Coord(b: Bubble, axis: Axis): int {
    match axis
    case TopToBottom => b.y
    case LeftToRight => b.x
  }

  /** `r` is `s` reordered by non-decreasing coordinate along `axis`; how equal
      coordinates are ordered is left open. */
  ghost predicate SortedAlong(r: seq<Bubble>, s: seq<Bubble>, axis: Axis) {
    multiset(r) == multiset(s) &&
    forall i, j :: 0 <= i < j < |r| ==> Coord(r[i], axis) <= Coord(r[j], axis)
  }

  /** What the contour-sorting routine is assumed to do, for every input. */
  ghost predicate IsContourSorter(sort: (seq<Bubble>, Axis) -> seq<Bubble>) {
    forall s, axis :: SortedAlong(sort(s, axis), s, axis)
  }

  /** Number of chunks of four that `n` bubbles are cut into: n/4 rounded up. */
  function ChunkCount(n: nat): (k: nat)
    ensures n == 0 ==> k == 0
    ensures n > 0 ==> 4 * (k - 1) < n <= 4 * k
  {
    (n + 3) / 4
  }

  /** Chunk `q` of the top-to-bottom order: the bubbles at positions
      [4q, 4q + 4), fewer only for the last chunk. */
  function Chunk(s: seq<Bubble>, q: nat): (c: seq<Bubble>)
    requires q < ChunkCount(|s|)
    ensures 1 <= |c| <= 4 && 4 * q + |c| <= |s|
    ensures q + 1 < ChunkCount(|s|) ==> |c| == 4
    ensures forall i :: 0 <= i < |c| ==> c[i] == s[4 * q + i]
  {
    s[4 * q .. Min(4 * q + 4, |s|)]
  }

  /** Row `q` of the grid is chunk `q`, sorted left-to-right. */
  function Grid(s: seq<Bubble>, sort: (seq<Bubble>, Axis) -> seq<Bubble>): (g: seq<seq<Bubble>>)
    ensures |g| == ChunkCount(|s|)
  {
    seq(ChunkCount(|s|), q requires 0 <= q < ChunkCount(|s|) => sort(Chunk(s, q), LeftToRight))
  }

  function Flatten(rows: seq<seq<Bubble>>): seq<Bubble> {
    if rows == [] then [] else Flatten(rows[..|rows| - 1]) + rows[|rows| - 1]
  }

  /** The first `m` rows laid end to end, then row m - 1 split off. */
  lemma FlattenPrefix(rows: seq<seq<Bubble>>, m: nat)
    requires 0 < m <= |rows|
    ensures multiset(Flatten(rows[..m])) == multiset(Flatten(rows[..m - 1])) + multiset(rows[m - 1])
  {
    assert rows[..m][..m - 1] == rows[..m - 1];
  }

  /** The first `m` chunks, laid end to end, are the first 4m bubbles. */
  lemma {:induction false} ChunksPrefix(s: seq<Bubble>, m: nat)
    requires m <= ChunkCount(|s|)
    ensures Flatten(seq(m, q requires 0 <= q < m => Chunk(s, q))) == s[..Min(4 * m, |s|)]
  {
    var cs := seq(m, q requires 0 <= q < m => Chunk(s, q));
    if m > 0 {
      var prev := seq(m - 1, q requires 0 <= q < m - 1 => Chunk(s, q));
      assert cs[..m - 1] == prev;
      ChunksPrefix(s, m - 1);
      assert s[..Min(4 * m, |s|)] == s[..4 * (m - 1)] + Chunk(s, m - 1);
    }
  }

  /** Rows that are row by row reorderings of each other hold the same
      bubbles once laid end to end. */
  lemma {:induction false} FlattenReordered(a: seq<seq<Bubble>>, b: seq<seq<Bubble>>)
    requires |a| == |b|
    requires forall q :: 0 <= q < |a| ==> multiset(a[q]) == multiset(b[q])
    ensures multiset(Flatten(a)) == multiset(Flatten(b))
  {
    var m := |a|;
    if m > 0 {
      assert a[..m] == a && b[..m] == b;
      FlattenPrefix(a, m);
      FlattenPrefix(b, m);
      FlattenReordered(a[..m - 1], b[..m - 1]);
    }
  }

  /** Grouping neither loses nor duplicates a bubble; every row is ordered
      left-to-right; every row but the last holds exactly four bubbles. */
  lemma GridPartitions(s: seq<Bubble>, sort: (seq<Bubble>, Axis) -> seq<Bubble>)
    requires IsContourSorter(sort)
    ensures multiset(Flatten(Grid(s, sort))) == multiset(s)
    ensures forall q :: 0 <= q < |Grid(s, sort)| ==>
      SortedAlong(Grid(s, sort)[q], Chunk(s, q), LeftToRight)
    ensures forall q :: 0 <= q < |Grid(s, sort)| - 1 ==> |Grid(s, sort)[q]| == 4
    ensures |Grid(s, sort)| > 0 ==> 1 <= |Grid(s, sort)[|Grid(s, sort)| - 1]| <= 4
  {
    var g, k := Grid(s, sort), ChunkCount(|s|);
    var cs := seq(k, q requires 0 <= q < k => Chunk(s, q));
    forall q | 0 <= q < k ensures multiset(g[q]) == multiset(cs[q]) && |g[q]| == |Chunk(s, q)| {
      assert SortedAlong(sort(Chunk(s, q), LeftToRight), Chunk(s, q), LeftToRight);
      assert |multiset(g[q])| == |multiset(Chunk(s, q))|;
    }
    FlattenReordered(g, cs);
    ChunksPrefix(s, k);
    assert s[..Min(4 * k, |s|)] == s;
  }
}
