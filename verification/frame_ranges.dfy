/** Domain decomposition of a video's frames across MPI ranks.

    Every rank derives its half-open frame range [start, end) from
    (rank, num_procs, total_frames) alone: `frames_per_rank = total / num_procs`,
    `start = rank * frames_per_rank`, and `end` is `total` for the last rank and
    `start + frames_per_rank` otherwise, so the last rank absorbs the remainder.
    The same formula appears in video_decompose.cpp, apply_lut.cpp, mpi/src/main.cpp
    and project/main.cpp; this module is the one definition all of them use. */
module FrameRanges {

  /** C's `/` on `int`: the quotient truncated toward zero (Dafny's `/` is Euclidean).
      The two main.cpp programs divide a frame count they never validate. */
  function CDiv(a: int, b: int): int
    requires b > 0
  {
    if a >= 0 then a / b else -((-a) / b)
  }

  function FramesPerRank(total: int, procs: int): int
    requires procs > 0
  {
    CDiv(total, procs)
  }

  function StartFrame(rank: int, procs: int, total: int): int
    requires procs > 0
  {
    rank * FramesPerRank(total, procs)
  }

  function EndFrame(rank: int, procs: int, total: int): int
    requires procs > 0
  {
    if rank == procs - 1 then total else StartFrame(rank, procs, total) + FramesPerRank(total, procs)
  }

  /** The arguments MPI guarantees: at least one process, and a rank below their number. */
  predicate ValidRank(rank: int, procs: int) { 0 < procs && 0 <= rank < procs }

  lemma MulLeq(a: int, b: int, c: int)
    requires a <= b && 0 <= c
    ensures a * c <= b * c
  {
    assert b * c - a * c == (b - a) * c;
  }

  lemma MulSucc(a: int, c: int)
    ensures (a + 1) * c == a * c + c
  {
  }

  /** For a non-negative count the C quotient is the Euclidean one. */
  lemma PerRankBounds(procs: int, total: int)
    requires procs > 0 && 0 <= total
    ensures FramesPerRank(total, procs) == total / procs
    ensures 0 <= total / procs && procs * (total / procs) <= total
  {
    var q, r := total / procs, total % procs;
    assert total == procs * q + r && 0 <= r;
  }

  /** For a non-negative frame count every range is well formed and inside [0, total),
      and none is negative-length. */
  lemma RangeWellFormed(rank: int, procs: int, total: int)
    requires ValidRank(rank, procs) && 0 <= total
    ensures 0 <= StartFrame(rank, procs, total) <= EndFrame(rank, procs, total) <= total
  {
    PerRankBounds(procs, total);
    var f := FramesPerRank(total, procs);
    MulLeq(0, rank, f);
    MulLeq(rank, procs - 1, f);
    MulLeq(rank + 1, procs, f);
    MulSucc(rank, f);
    MulSucc(procs - 1, f);
  }

  /** A non-last rank gets exactly total/procs frames; the last rank gets the rest. */
  lemma RangeLength(rank: int, procs: int, total: int)
    requires ValidRank(rank, procs) && 0 <= total
    ensures rank < procs - 1 ==>
      EndFrame(rank, procs, total) - StartFrame(rank, procs, total) == total / procs
    ensures rank == procs - 1 ==>
      EndFrame(rank, procs, total) - StartFrame(rank, procs, total) == total - (procs - 1) * (total / procs)
  {
  }

  /** Rank k's range ends where rank k+1's begins. */
  lemma RangesContiguous(k: int, procs: int, total: int)
    requires ValidRank(k, procs) && k + 1 < procs
    ensures EndFrame(k, procs, total) == StartFrame(k + 1, procs, total)
  {
    MulSucc(k, FramesPerRank(total, procs));
  }

  /** The first range starts at frame 0 and the last one ends at total. */
  lemma RangesSpanAll(procs: int, total: int)
    requires procs > 0
    ensures StartFrame(0, procs, total) == 0
    ensures EndFrame(procs - 1, procs, total) == total
  {
  }

  /** Ranges of distinct ranks do not overlap: a lower rank's range ends no later than
      a higher rank's range starts. */
  lemma RangesDisjoint(a: int, b: int, procs: int, total: int)
    requires ValidRank(a, procs) && ValidRank(b, procs) && a < b && 0 <= total
    ensures EndFrame(a, procs, total) <= StartFrame(b, procs, total)
  {
    PerRankBounds(procs, total);
    var f := FramesPerRank(total, procs);
    MulSucc(a, f);
    MulLeq(a + 1, b, f);
  }

  /** The rank whose range contains frame `frame`. */
  function Owner(frame: int, procs: int, total: int): int
    requires procs > 0
  {
    var f := FramesPerRank(total, procs);
    if f <= 0 then procs - 1
    else if frame / f >= procs - 1 then procs - 1
    else frame / f
  }

  /** Every frame of [0, total) belongs to its owner's range ... */
  lemma OwnerContainsFrame(frame: int, procs: int, total: int)
    requires procs > 0 && 0 <= frame < total
    ensures ValidRank(Owner(frame, procs, total), procs)
    ensures StartFrame(Owner(frame, procs, total), procs, total) <= frame < EndFrame(Owner(frame, procs, total), procs, total)
  {
    var f := FramesPerRank(total, procs);
    var o := Owner(frame, procs, total);
    if f > 0 {
      var q := frame / f;
      assert q * f <= frame < q * f + f;
      if q >= procs - 1 {
        MulLeq(procs - 1, q, f);
      } else {
        assert (q + 1) * f == q * f + f;
      }
    }
  }

  /** ... and to no other rank's range, so the ranges partition [0, total). */
  lemma OwnerIsUnique(rank: int, frame: int, procs: int, total: int)
    requires ValidRank(rank, procs) && 0 <= frame < total
    requires StartFrame(rank, procs, total) <= frame < EndFrame(rank, procs, total)
    ensures rank == Owner(frame, procs, total)
  {
    var o := Owner(frame, procs, total);
    OwnerContainsFrame(frame, procs, total);
    if rank < o {
      RangesDisjoint(rank, o, procs, total);
    } else if o < rank {
      RangesDisjoint(o, rank, procs, total);
    }
  }

  /** With fewer frames than processes every non-last range is empty at 0 and the
      last rank gets all the frames. */
  lemma FewFramesEmptyRanges(rank: int, procs: int, total: int)
    requires ValidRank(rank, procs) && 0 <= total < procs
    ensures rank < procs - 1 ==> StartFrame(rank, procs, total) == 0 == EndFrame(rank, procs, total)
    ensures rank == procs - 1 ==> StartFrame(rank, procs, total) == 0 && EndFrame(rank, procs, total) == total
  {
    PerRankBounds(procs, total);
    assert FramesPerRank(total, procs) == 0;
  }

  /** The main.cpp programs do not check the frame count they receive: a negative count
      (a capture that reports -1) gives the last rank a range whose end precedes its start. */
  lemma NegativeTotalInvertsLastRange(procs: int, total: int)
    requires procs > 0 && total < 0
    ensures EndFrame(procs - 1, procs, total) < StartFrame(procs - 1, procs, total)
  {
    var m := (-total) / procs;
    assert FramesPerRank(total, procs) == -m;
    assert StartFrame(procs - 1, procs, total) == -((procs - 1) * m);
    assert procs * m <= -total;
    assert (procs - 1) * m == procs * m - m;
  }

  /** The concatenation, in rank order, of the slices `s[start..end)` of ranks 0..k-1. */
  function Gathered<T>(s: seq<T>, procs: int, total: int, k: int): seq<T>
    requires 0 < procs && 0 <= total <= |s| && 0 <= k <= procs
  {
    if k == 0 then []
    else
      RangeWellFormed(k - 1, procs, total);
      Gathered(s, procs, total, k - 1) + s[StartFrame(k - 1, procs, total)..EndFrame(k - 1, procs, total)]
  }

  /** Gathering the first k ranks' slices yields the prefix up to rank k-1's end. */
  lemma {:induction false} GatheredIsPrefix<T>(s: seq<T>, procs: int, total: int, k: int)
    requires 0 < procs && 0 <= total <= |s| && 1 <= k <= procs
    ensures 0 <= EndFrame(k - 1, procs, total) <= total
    ensures Gathered(s, procs, total, k) == s[..EndFrame(k - 1, procs, total)]
  {
    RangeWellFormed(k - 1, procs, total);
    var lo, hi := StartFrame(k - 1, procs, total), EndFrame(k - 1, procs, total);
    var before := Gathered(s, procs, total, k - 1);
    assert Gathered(s, procs, total, k) == before + s[lo..hi];
    if k == 1 {
      assert lo == 0 && before == [];
    } else {
      GatheredIsPrefix(s, procs, total, k - 1);
      RangesContiguous(k - 2, procs, total);
      assert before == s[..lo];
    }
    assert before + s[lo..hi] == s[..hi];
  }

  /** Gathering every rank's slice in rank order reproduces exactly the first `total`
      elements: the ranges cover [0, total) once each, in order. */
  lemma GatheredAllIsWhole<T>(s: seq<T>, procs: int, total: int)
    requires 0 < procs && 0 <= total <= |s|
    ensures Gathered(s, procs, total, procs) == s[..total]
  {
    GatheredIsPrefix(s, procs, total, procs);
  }
}
