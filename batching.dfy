/**
 * How the bulk extractor cuts a catalog of `total` pages into batches: the
 * outer loop starts a batch at every multiple of `PagesPerBatch` below
 * `total`, and the inner loop lists the page indices that batch copies.
 */
module Batching {

  /** Pages copied into each temporary PDF. */
  const PagesPerBatch: nat := 3

  function Min(a: int, b: int): int
  {
    if a <= b then a else b
  }

  /** The indices `lo, lo + 1, ..., hi - 1` in ascending order; empty when `hi <= lo`. */
  function Range(lo: nat, hi: nat): (r: seq<nat>)
    ensures |r| == if lo <= hi then hi - lo else 0
    ensures forall k :: 0 <= k < |r| ==> r[k] == lo + k
    decreases hi
  {
    if hi <= lo then [] else Range(lo, hi - 1) + [hi - 1]
  }

  /** Adjacent ranges join into one. */
  lemma RangeSplit(lo: nat, mid: nat, hi: nat)
    requires lo <= mid <= hi
    ensures Range(lo, mid) + Range(mid, hi) == Range(lo, hi)
  {
    var left, right := Range(lo, mid), Range(mid, hi);
    assert forall k :: 0 <= k < |left + right| ==> (left + right)[k] == lo + k by {
      forall k | 0 <= k < |left + right| ensures (left + right)[k] == lo + k {
        if k >= |left| { assert (left + right)[k] == right[k - |left|]; }
      }
    }
  }

  /** The pages of the batch that starts at page `i` of a `total`-page document. */
  function BatchPages(i: nat, total: nat): seq<nat>
  {
    Range(i, Min(i + PagesPerBatch, total))
  }

  /** The batches whose start pages are `i, i + 3, i + 6, ...` below `total`, in loop order. */
  function BatchesFrom(i: nat, total: nat): seq<seq<nat>>
    decreases total - i
  {
    if i >= total then [] else [BatchPages(i, total)] + BatchesFrom(i + PagesPerBatch, total)
  }

  /** All batches of a `total`-page document. */
  function Batches(total: nat): seq<seq<nat>>
  {
    BatchesFrom(0, total)
  }

  /** Concatenation of a list of page lists, front to back. */
  function Flatten(ss: seq<seq<nat>>): seq<nat>
  {
    if ss == [] then [] else ss[0] + Flatten(ss[1..])
  }

  /**
   * The inner loop of the batch orchestrator: for `j` in `0..3`, page `i + j`
   * is pushed when it lies inside the document.
   */
  method PagesToCopy(i: nat, total: nat) returns (pages: seq<nat>)
    ensures pages == BatchPages(i, total)
  {
    pages := [];
    for j := 0 to PagesPerBatch
      invariant pages == Range(i, Min(i + j, total))
    {
      if i + j < total {
        pages := pages + [i + j];
      }
    }
  }

  lemma {:induction false} BatchCountFrom(i: nat, total: nat)
    ensures |BatchesFrom(i, total)| == if i < total then (total - i + PagesPerBatch - 1) / PagesPerBatch else 0
    decreases total - i
  {
    if i < total {
      BatchCountFrom(i + PagesPerBatch, total);
    }
  }

  /** There are ceil(total / 3) batches, so none at all for an empty document. */
  lemma BatchCount(total: nat)
    ensures |Batches(total)| == (total + PagesPerBatch - 1) / PagesPerBatch
    ensures total == 0 <==> Batches(total) == []
  {
    BatchCountFrom(0, total);
  }

  lemma {:induction false} BatchAtFrom(i: nat, total: nat, b: nat)
    requires b < |BatchesFrom(i, total)|
    ensures i + b * PagesPerBatch < total
    ensures BatchesFrom(i, total)[b] == BatchPages(i + b * PagesPerBatch, total)
    decreases b
  {
    if b > 0 {
      BatchAtFrom(i + PagesPerBatch, total, b - 1);
    }
  }

  /** Batch `b` (counting from 0) is the batch the outer loop starts at page `3 * b`. */
  lemma BatchAt(total: nat, b: nat)
    requires b < |Batches(total)|
    ensures b * PagesPerBatch < total
    ensures Batches(total)[b] == BatchPages(b * PagesPerBatch, total)
  {
    BatchAtFrom(0, total, b);
  }

  lemma {:induction false} BatchIndexFrom(i: nat, total: nat, b: nat)
    ensures b < |BatchesFrom(i, total)| <==> i + b * PagesPerBatch < total
    decreases b
  {
    if b > 0 && i < total {
      BatchIndexFrom(i + PagesPerBatch, total, b - 1);
    }
  }

  /** Batch `b` exists exactly when the outer loop's page counter `3 * b` is still below `total`. */
  lemma BatchIndex(total: nat, b: nat)
    ensures b < |Batches(total)| <==> b * PagesPerBatch < total
  {
    BatchIndexFrom(0, total, b);
  }

  /**
   * The outer loop's view of batch `b`: it starts at page `i = 3 * b` and
   * exists exactly when `i` is below `total`. The last clause gives the start
   * of the next batch, `i + 3`, in the same form, so that the loop can keep
   * its counter in step with the batch number without multiplying.
   */
  lemma BatchStartsAt(total: nat, b: nat, i: nat)
    requires i == b * PagesPerBatch
    ensures b < |Batches(total)| <==> i < total
    ensures i < total ==> Batches(total)[b] == BatchPages(i, total)
    ensures i + PagesPerBatch == (b + 1) * PagesPerBatch
  {
    BatchIndex(total, b);
    if i < total {
      BatchAt(total, b);
    }
  }

  /**
   * Batch `b` starts at page `3 * b`, below `total`, and holds the pages
   * `3b, 3b + 1, ...` up to the next multiple of 3 or the end of the document:
   * between one and three pages, ascending, none past the end.
   */
  lemma BatchShape(total: nat, b: nat)
    requires b < |Batches(total)|
    ensures b * PagesPerBatch < total
    ensures Batches(total)[b] == Range(b * PagesPerBatch, Min(b * PagesPerBatch + PagesPerBatch, total))
    ensures 1 <= |Batches(total)[b]| <= PagesPerBatch
    ensures forall k :: 0 <= k < |Batches(total)[b]| ==> Batches(total)[b][k] == b * PagesPerBatch + k < total
  {
    BatchAtFrom(0, total, b);
  }

  lemma {:induction false} CoverFrom(i: nat, total: nat)
    ensures Flatten(BatchesFrom(i, total)) == Range(i, total)
    decreases total - i
  {
    if i < total {
      CoverFrom(i + PagesPerBatch, total);
      if i + PagesPerBatch <= total {
        RangeSplit(i, i + PagesPerBatch, total);
      }
      assert BatchesFrom(i, total)[1..] == BatchesFrom(i + PagesPerBatch, total);
    }
  }

  /** Read in loop order, the batches list every page `0 .. total - 1` once, in document order. */
  lemma BatchesCover(total: nat)
    ensures Flatten(Batches(total)) == Range(0, total)
  {
    CoverFrom(0, total);
  }

  /** Page `p` belongs to batch `p / 3` and to no other batch. */
  lemma PageInOneBatch(total: nat, p: nat, b: nat)
    requires p < total && b < |Batches(total)|
    ensures p / PagesPerBatch < |Batches(total)|
    ensures p in Batches(total)[b] <==> b == p / PagesPerBatch
  {
    BatchCount(total);
    BatchShape(total, b);
    var q := p / PagesPerBatch;
    BatchShape(total, q);
    if b == q {
      assert Batches(total)[b][p - b * PagesPerBatch] == p;
    }
  }
}
