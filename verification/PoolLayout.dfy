/** How RAM is divided between the kernel pool, the user pool and the frame table. */
module PoolLayout {
  import opened Prelude
  import opened PagingState
  import opened PagingRun

  const MEGABYTE_PAGES := 256
  const MAX_RAM_PAGES := 16384
  const BITMAP_HEADER := 8
  const ELEM_BITS := 32
  const ELEM_BYTES := 4

  function DivRoundUp(x: nat, step: nat): nat
    requires step > 0
  {
    (x + step - 1) / step
  }

  function BitmapBufSize(bits: nat): nat {
    BITMAP_HEADER + ELEM_BYTES * DivRoundUp(bits, ELEM_BITS)
  }

  function UserShare(ramPages: nat): nat
    requires ramPages >= MEGABYTE_PAGES
  {
    (ramPages - MEGABYTE_PAGES) / 2
  }

  /** num_user_frames as init_frametable computes it. */
  function UserFrames(ramPages: nat): int
    requires ramPages >= MEGABYTE_PAGES
  {
    UserShare(ramPages) - 1
  }

  /** Pages init_pool leaves in a pool of `pages`, the bitmap taking the first ones; negative is a panic. */
  function PoolPages(pages: nat): int {
    pages - DivRoundUp(BitmapBufSize(pages), PGSIZE)
  }

  function UserPoolPages(ramPages: nat, limit: nat): int
    requires ramPages >= MEGABYTE_PAGES
  {
    PoolPages(if UserShare(ramPages) > limit then limit else UserShare(ramPages))
  }

  /** The frame table has an entry for every user page and no more exactly when the page limit
      does not cut the user pool short. */
  lemma FramesMatchPool(ramPages: nat, limit: nat)
    requires MEGABYTE_PAGES <= ramPages <= MAX_RAM_PAGES
    ensures UserFrames(ramPages) == UserPoolPages(ramPages, limit) <==> limit >= UserShare(ramPages)
    ensures UserFrames(ramPages) >= UserPoolPages(ramPages, limit)
  {
    var share := UserShare(ramPages);
    var taken := if share > limit then limit else share;
    assert BitmapBufSize(taken) <= PGSIZE;
    assert DivRoundUp(BitmapBufSize(taken), PGSIZE) == 1;
  }

  // ---------- when the frame table is longer than the pool ----------

  /** Filled frames hold distinct pages in use, and every page in use is in a frame. */
  ghost predicate Consistent(frames: seq<MetaFrame>, used: seq<bool>) {
    && (forall i :: 0 <= i < |frames| && frames[i].filled ==>
          frames[i].page.Some? && frames[i].page.value < |used| && used[frames[i].page.value])
    && (forall i, i' :: 0 <= i < i' < |frames| && frames[i].filled && frames[i'].filled ==>
          frames[i].page != frames[i'].page)
    && (forall i :: 0 <= i < |frames| && !frames[i].filled ==> frames[i] == EMPTY_FRAME)
    && (forall k :: 0 <= k < |used| && used[k] ==> FindFrame(frames, k).Some?)
  }

  /** When next_empty_frame finds a frame without evicting, palloc_get_page has a page for it. */
  predicate PageForFrame(frames: seq<MetaFrame>, used: seq<bool>) {
    FirstEmptyFrame(frames).Some? ==> FirstFreePage(used).Some?
  }

  /** The pages of the first `m` frames, all filled. */
  function PagesOfFrames(frames: seq<MetaFrame>, m: nat): (r: set<nat>)
    requires m <= |frames| && forall i :: 0 <= i < m ==> frames[i].page.Some?
    requires forall i, i' :: 0 <= i < i' < m ==> frames[i].page != frames[i'].page
    ensures |r| == m && forall k :: k in r ==> exists i :: 0 <= i < m && frames[i].page == Some(k)
  {
    if m == 0 then {} else PagesOfFrames(frames, m - 1) + {frames[m - 1].page.value}
  }

  /** A frame table longer than the pool always has an empty frame: the clock never runs, and when the
      pool is used up assign_page gets a null page. */
  lemma LongTableNeverEvicts(frames: seq<MetaFrame>, used: seq<bool>)
    requires Consistent(frames, used) && |frames| > |used|
    ensures FirstEmptyFrame(frames).Some?
    ensures PageForFrame(frames, used) <==> exists k :: 0 <= k < |used| && !used[k]
  {
    if FirstEmptyFrame(frames).None? {
      var pages := PagesOfFrames(frames, |frames|);
      RangeSize(0, |used|);
      SubsetSize(pages, Range(0, |used|));
      assert false;
    }
  }

  lemma ShortTableHasPages(frames: seq<MetaFrame>, used: seq<bool>)
    requires Consistent(frames, used) && |frames| <= |used|
    ensures PageForFrame(frames, used)
  {
    if FirstEmptyFrame(frames).Some? && FirstFreePage(used).None? {
      var i := FirstEmptyFrame(frames).value;
      var fs := FramesOfPages(frames, |used|);
      RangeSize(0, |frames|);
      SubsetSize(fs, Range(0, |frames|) - {i});
      assert false;
    }
  }

  ghost predicate AlwaysPageForFrame(frameCount: nat, pageCount: nat) {
    forall frames, used :: |frames| == frameCount && |used| == pageCount && Consistent(frames, used) ==>
      PageForFrame(frames, used)
  }

  /** Every consistent state has a page for an empty frame exactly when the table is no longer than the pool. */
  lemma PageForFrameExactly(frameCount: nat, pageCount: nat)
    ensures AlwaysPageForFrame(frameCount, pageCount) <==> frameCount <= pageCount
  {
    if frameCount <= pageCount {
      forall frames, used | |frames| == frameCount && |used| == pageCount && Consistent(frames, used)
        ensures PageForFrame(frames, used)
      {
        ShortTableHasPages(frames, used);
      }
    } else {
      var used := seq(pageCount, _ => true);
      var frames := seq(frameCount, i requires 0 <= i < frameCount =>
        if i < pageCount then MetaFrame(true, Some(i), Some(0)) else EMPTY_FRAME);
      forall k | 0 <= k < pageCount ensures FindFrame(frames, k).Some? {
        assert frames[k].page == Some(k);
      }
      LongTableNeverEvicts(frames, used);
    }
  }
}
