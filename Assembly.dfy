/** Ordered assembly and the stop policy shared by the download worker
    (workers.py `run`) and the standalone script (Videofragment.py `main`).
    Both walk the indices `lo, lo + 1, ...`, learn for each index whether it
    yields a blob, append the blobs to one sink, and count consecutive
    indices that yielded nothing. `at(i)` is the blob index `i` yields. */
module Assembly {
  import opened Text

  /** One appended blob and the index it came from. */
  datatype Chunk = Chunk(index: nat, bytes: seq<byte>)

  /** The chunks appended while walking `[lo, hi)`, in walking order. */
  function Written(at: nat -> Option<seq<byte>>, lo: nat, hi: nat): seq<Chunk>
    decreases hi - lo
  {
    if hi <= lo then []
    else Written(at, lo, hi - 1) + (if at(hi - 1).Some? then [Chunk(hi - 1, at(hi - 1).value)] else [])
  }

  /** The sink's contents: the chunks' bytes one after the other. */
  function Flatten(cs: seq<Chunk>): seq<byte>
  {
    if cs == [] then [] else Flatten(cs[..|cs| - 1]) + cs[|cs| - 1].bytes
  }

  /** `total_written`: the sum of the chunks' lengths. */
  function TotalSize(cs: seq<Chunk>): nat
  {
    if cs == [] then 0 else TotalSize(cs[..|cs| - 1]) + |cs[|cs| - 1].bytes|
  }

  /** `n404`: how many indices at the end of `[lo, hi)` yielded nothing in a row. */
  function Misses(at: nat -> Option<seq<byte>>, lo: nat, hi: nat): nat
    decreases hi - lo
  {
    if hi <= lo then 0
    else if at(hi - 1).Some? then 0
    else Misses(at, lo, hi - 1) + 1
  }

  lemma {:induction false} FlattenSize(cs: seq<Chunk>)
    ensures |Flatten(cs)| == TotalSize(cs)
  {
    if cs != [] { FlattenSize(cs[..|cs| - 1]); }
  }

  lemma {:induction false} FlattenAppend(cs: seq<Chunk>, ds: seq<Chunk>)
    ensures Flatten(cs + ds) == Flatten(cs) + Flatten(ds)
    decreases |ds|
  {
    if ds == [] {
      assert cs + ds == cs;
    } else {
      assert (cs + ds)[..|cs + ds| - 1] == cs + ds[..|ds| - 1];
      FlattenAppend(cs, ds[..|ds| - 1]);
    }
  }

  /** The written chunks come in strictly ascending index order, inside the
      walked range, each with the blob its index yielded; and every index of
      the range that yielded a blob is among them. So each index contributes
      at most once and nothing is reordered. */
  lemma {:induction false} WrittenInOrder(at: nat -> Option<seq<byte>>, lo: nat, hi: nat)
    ensures var cs := Written(at, lo, hi);
      && (forall k :: 0 <= k < |cs| ==> lo <= cs[k].index < hi && at(cs[k].index) == Some(cs[k].bytes))
      && (forall k, m :: 0 <= k < m < |cs| ==> cs[k].index < cs[m].index)
      && (forall i :: lo <= i < hi && at(i).Some? ==> exists k :: 0 <= k < |cs| && cs[k].index == i)
    decreases hi - lo
  {
    if hi > lo {
      WrittenInOrder(at, lo, hi - 1);
      var prev := Written(at, lo, hi - 1);
      var cs := Written(at, lo, hi);
      if at(hi - 1).Some? {
        assert cs[|cs| - 1].index == hi - 1;
      }
      forall i | lo <= i < hi && at(i).Some? ensures exists k :: 0 <= k < |cs| && cs[k].index == i {
        if i < hi - 1 {
          var k :| 0 <= k < |prev| && prev[k].index == i;
          assert cs[k] == prev[k];
        } else {
          assert cs[|cs| - 1].index == i;
        }
      }
    }
  }

  /** Chunk `k` sits in the sink right after the bytes of the chunks before
      it: the sink holds the chunks in order, back to back. */
  lemma ChunkPlacement(cs: seq<Chunk>, k: nat)
    requires k < |cs|
    ensures TotalSize(cs[..k]) + |cs[k].bytes| <= |Flatten(cs)|
    ensures Flatten(cs)[TotalSize(cs[..k])..TotalSize(cs[..k]) + |cs[k].bytes|] == cs[k].bytes
  {
    assert cs == cs[..k] + [cs[k]] + cs[k + 1..];
    FlattenAppend(cs[..k] + [cs[k]], cs[k + 1..]);
    FlattenAppend(cs[..k], [cs[k]]);
    assert Flatten([cs[k]]) == cs[k].bytes by {
      assert [cs[k]][..0] == [];
    }
    FlattenSize(cs[..k]);
  }

  /** Walking one more index appends that index's blob, if any. */
  lemma WrittenStep(at: nat -> Option<seq<byte>>, lo: nat, i: nat)
    requires lo <= i
    ensures Flatten(Written(at, lo, i + 1)) == Flatten(Written(at, lo, i)) + (if at(i).Some? then at(i).value else [])
    ensures TotalSize(Written(at, lo, i + 1)) == TotalSize(Written(at, lo, i)) + (if at(i).Some? then |at(i).value| else 0)
  {
    var cs := Written(at, lo, i + 1);
    if at(i).Some? {
      assert cs[..|cs| - 1] == Written(at, lo, i);
    } else {
      assert cs == Written(at, lo, i);
    }
  }

  /** If indices `lo .. m - 1` all yield a blob and none from `m` on does,
      then with a threshold `t >= 1` the consecutive-miss count stays below
      `t` until index `m + t - 1` has been walked, reaches `t` exactly then,
      and `m - lo` chunks have been written. */
  lemma {:induction false} StopAfterTrailingMisses(at: nat -> Option<seq<byte>>, lo: nat, m: nat, t: nat)
    requires lo <= m && t >= 1
    requires forall i :: lo <= i < m ==> at(i).Some?
    requires forall i :: m <= i ==> at(i).None?
    ensures forall j :: lo <= j < m + t ==> Misses(at, lo, j) < t
    ensures Misses(at, lo, m + t) == t
    ensures |Written(at, lo, m + t)| == m - lo
  {
    forall j | lo <= j <= m + t
      ensures Misses(at, lo, j) == if j <= m then 0 else j - m
      ensures |Written(at, lo, j)| == if j <= m then j - lo else m - lo
    {
      MissesAndCount(at, lo, m, j);
    }
  }

  lemma {:induction false} MissesAndCount(at: nat -> Option<seq<byte>>, lo: nat, m: nat, j: nat)
    requires lo <= m && lo <= j
    requires forall i :: lo <= i < m ==> at(i).Some?
    requires forall i :: m <= i ==> at(i).None?
    ensures Misses(at, lo, j) == if j <= m then 0 else j - m
    ensures |Written(at, lo, j)| == if j <= m then j - lo else m - lo
    decreases j - lo
  {
    if j > lo {
      MissesAndCount(at, lo, m, j - 1);
    }
  }

  /** When every index yields nothing, nothing is written: the sink stays
      empty and `total_written` stays 0. */
  lemma {:induction false} NothingFoundNothingWritten(at: nat -> Option<seq<byte>>, lo: nat, hi: nat)
    requires forall i :: lo <= i < hi ==> at(i).None?
    ensures Written(at, lo, hi) == [] && TotalSize(Written(at, lo, hi)) == 0
    decreases hi - lo
  {
    if hi > lo { NothingFoundNothingWritten(at, lo, hi - 1); }
  }
}
