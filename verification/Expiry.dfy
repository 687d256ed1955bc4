/**
 Paging through messages that expire meanwhile (crates/xmtp_archive/src/export_stream/message_save.rs,
 crates/xmtp_db/src/encrypted_store/group_message.rs): every page is a new query for the messages
 alive at that time, at an offset that counts them.
 */
module Expiry {
  import opened Wrappers
  import opened ExportStream

  /** Message i of the table, in its fixed order, expires at expiry[i], if ever. */
  type Expiries = seq<Option<int>>

  predicate Alive(x: Option<int>, now: int)
  {
    x.None? || x.value > now
  }

  /** The messages alive at a time, among the first n, by number. */
  function AliveBelow(xs: Expiries, now: int, n: nat): (r: seq<nat>)
    requires n <= |xs|
    ensures |r| <= n
  {
    if n == 0 then []
    else AliveBelow(xs, now, n - 1) + if Alive(xs[n - 1], now) then [n - 1] else []
  }

  /** How many messages alive at a time come before message i: the offset it is found at. */
  function Offset(xs: Expiries, now: int, i: nat): nat
    requires i <= |xs|
  {
    |AliveBelow(xs, now, i)|
  }

  /** Page k of a query. */
  function QueryPage(xs: Expiries, now: int, k: nat): (r: seq<nat>)
    ensures r != [] ==> k * BATCH_SIZE < |xs|
  {
    var rows := AliveBelow(xs, now, |xs|);
    var from := k * BATCH_SIZE;
    if from >= |rows| then []
    else if from + BATCH_SIZE <= |rows| then rows[from..from + BATCH_SIZE]
    else rows[from..]
  }

  /** Pages from k on, up to an empty one; there are none from the bound on. */
  function Collected(page: nat -> seq<nat>, bound: nat, k: nat): seq<nat>
    decreases bound - k
  {
    if k >= bound || page(k) == [] then [] else page(k) + Collected(page, bound, k + 1)
  }

  /** Page k is asked for at times(k). */
  function Pages(xs: Expiries, times: nat -> int): nat -> seq<nat>
  {
    (k: nat) => QueryPage(xs, times(k), k)
  }

  /** The messages exported. */
  function ExportedMessages(xs: Expiries, times: nat -> int): seq<nat>
  {
    Collected(Pages(xs, times), |xs|, 0)
  }

  predicate NotAfter(times: nat -> int, j: nat, k: nat)
  {
    times(j) <= times(k)
  }

  /** Later pages are asked for no earlier. */
  ghost predicate Ordered(times: nat -> int)
  {
    forall j: nat, k: nat :: j <= k ==> NotAfter(times, j, k)
  }

  // ----- where a message is found -----

  lemma {:induction false} RowsByOffset(xs: Expiries, now: int, n: nat, p: nat)
    requires n <= |xs| && p < |AliveBelow(xs, now, n)|
    ensures var i := AliveBelow(xs, now, n)[p];
            i < n && Alive(xs[i], now) && Offset(xs, now, i) == p
  {
    if p < |AliveBelow(xs, now, n - 1)| {
      RowsByOffset(xs, now, n - 1, p);
    }
  }

  lemma {:induction false} FoundAtOffset(xs: Expiries, now: int, n: nat, i: nat)
    requires i < n <= |xs| && Alive(xs[i], now)
    ensures Offset(xs, now, i) < |AliveBelow(xs, now, n)| && AliveBelow(xs, now, n)[Offset(xs, now, i)] == i
  {
    if i < n - 1 {
      FoundAtOffset(xs, now, n - 1, i);
    }
  }

  /** A message is on page k of a query exactly if it is alive then and its offset falls there. */
  lemma OnPageIff(xs: Expiries, now: int, k: nat, i: nat)
    requires i < |xs|
    ensures i in QueryPage(xs, now, k)
            <==> Alive(xs[i], now) && k * BATCH_SIZE <= Offset(xs, now, i) < (k + 1) * BATCH_SIZE
  {
    var rows, from := AliveBelow(xs, now, |xs|), k * BATCH_SIZE;
    var page := QueryPage(xs, now, k);
    if i in page {
      var q :| 0 <= q < |page| && page[q] == i;
      assert page[q] == rows[from + q];
      RowsByOffset(xs, now, |xs|, from + q);
    }
    if Alive(xs[i], now) && from <= Offset(xs, now, i) < from + BATCH_SIZE {
      FoundAtOffset(xs, now, |xs|, i);
      assert page[Offset(xs, now, i) - from] == i;
    }
  }

  /** Offsets only shrink as time passes. */
  lemma {:induction false} OffsetShrinks(xs: Expiries, now: int, later: int, i: nat)
    requires i <= |xs| && now <= later
    ensures Offset(xs, later, i) <= Offset(xs, now, i)
  {
    if i > 0 {
      OffsetShrinks(xs, now, later, i - 1);
    }
  }

  // ----- paging at offsets that shrink -----

  /** Where page k begins. */
  function Cursor(k: nat): nat
  {
    k * BATCH_SIZE
  }

  /**
   At page k message i is found at off(k): it is on the page exactly if that falls there, and a page
   before it is not empty.
   */
  ghost predicate FoundBy(page: nat -> seq<nat>, off: nat -> nat, i: nat, k: nat)
  {
    && (i in page(k) <==> Cursor(k) <= off(k) < Cursor(k + 1))
    && (Cursor(k) <= off(k) ==> page(k) != [])
  }

  ghost predicate Shrinks(off: nat -> nat, j: nat, k: nat)
  {
    off(k) <= off(j)
  }

  /** A message followed through the pages. */
  ghost predicate Followed(page: nat -> seq<nat>, off: nat -> nat, bound: nat, i: nat)
  {
    && (forall k: nat :: FoundBy(page, off, i, k))
    && (forall j: nat, k: nat :: j <= k ==> Shrinks(off, j, k))
    && off(0) < bound
  }

  /** Between page k and the next it slides below the cursor of the next. */
  ghost predicate Slides(off: nat -> nat, k: nat)
  {
    off(k + 1) < Cursor(k + 1) <= off(k)
  }

  ghost predicate NeverSlides(off: nat -> nat, k: nat)
  {
    forall j: nat :: j >= k ==> !Slides(off, j)
  }

  /** Once below the cursor it is on no page from there on. */
  lemma {:induction false} NotFromHere(page: nat -> seq<nat>, off: nat -> nat, bound: nat, i: nat, k: nat)
    requires Followed(page, off, bound, i) && off(k) < Cursor(k)
    ensures i !in Collected(page, bound, k)
    decreases bound - k
  {
    assert FoundBy(page, off, i, k);
    if k < bound && page(k) != [] {
      assert Shrinks(off, k, k + 1);
      NotFromHere(page, off, bound, i, k + 1);
    }
  }

  lemma SlidesNoMore(page: nat -> seq<nat>, off: nat -> nat, bound: nat, i: nat, k: nat)
    requires Followed(page, off, bound, i) && off(k) < Cursor(k + 1)
    ensures NeverSlides(off, k)
  {
    forall j: nat | j >= k ensures !Slides(off, j) {
      assert Shrinks(off, k, j);
    }
  }

  lemma {:induction false} FollowedIff(page: nat -> seq<nat>, off: nat -> nat, bound: nat, i: nat, k: nat)
    requires Followed(page, off, bound, i) && Cursor(k) <= off(k)
    ensures i in Collected(page, bound, k) <==> NeverSlides(off, k)
    decreases bound - k
  {
    assert FoundBy(page, off, i, k) && Shrinks(off, 0, k);
    if off(k) < Cursor(k + 1) {
      SlidesNoMore(page, off, bound, i, k);
    } else if Slides(off, k) {
      NotFromHere(page, off, bound, i, k + 1);
    } else {
      FollowedIff(page, off, bound, i, k + 1);
      assert NeverSlides(off, k) <==> NeverSlides(off, k + 1);
    }
  }

  // ----- what is exported -----

  /** The offset a message is found at by page k. */
  function Offsets(xs: Expiries, times: nat -> int, i: nat): nat -> nat
    requires i < |xs|
  {
    (k: nat) => Offset(xs, times(k), i)
  }

  lemma SurvivorFollowed(xs: Expiries, times: nat -> int, i: nat)
    requires Ordered(times) && i < |xs| && forall j: nat :: Alive(xs[i], times(j))
    ensures Followed(Pages(xs, times), Offsets(xs, times, i), |xs|, i)
  {
    var page, off := Pages(xs, times), Offsets(xs, times, i);
    forall k: nat ensures FoundBy(page, off, i, k) {
      OnPageIff(xs, times(k), k, i);
      FoundAtOffset(xs, times(k), |xs|, i);
    }
    forall j: nat, k: nat | j <= k ensures Shrinks(off, j, k) {
      assert NotAfter(times, j, k);
      OffsetShrinks(xs, times(j), times(k), i);
    }
    FoundAtOffset(xs, times(0), |xs|, i);
  }

  /**
   A message that is alive throughout the export is exported if and only if it never slides below
   the cursor of the next page, as messages before it expire in between.
   */
  lemma SurvivorExportedIff(xs: Expiries, times: nat -> int, i: nat)
    requires Ordered(times) && i < |xs| && forall j: nat :: Alive(xs[i], times(j))
    ensures i in ExportedMessages(xs, times) <==> NeverSlides(Offsets(xs, times, i), 0)
  {
    SurvivorFollowed(xs, times, i);
    FollowedIff(Pages(xs, times), Offsets(xs, times, i), |xs|, i, 0);
  }

  /** Whatever was alive at the first query stays so. */
  ghost predicate NothingExpires(xs: Expiries, times: nat -> int)
  {
    forall m: nat, j: nat :: m < |xs| && Alive(xs[m], times(0)) ==> Alive(xs[m], times(j))
  }

  /** If nothing expires from the first query on, nothing that is alive is lost. */
  lemma NothingExpiresAllExported(xs: Expiries, times: nat -> int, i: nat)
    requires Ordered(times) && i < |xs| && Alive(xs[i], times(0)) && NothingExpires(xs, times)
    ensures i in ExportedMessages(xs, times)
  {
    forall j: nat ensures !Slides(Offsets(xs, times, i), j) {
      SameOffset(xs, times, i, j);
      SameOffset(xs, times, i, j + 1);
    }
    SurvivorExportedIff(xs, times, i);
  }

  lemma {:induction false} SameOffset(xs: Expiries, times: nat -> int, i: nat, j: nat)
    requires Ordered(times) && i <= |xs| && NothingExpires(xs, times)
    ensures Offset(xs, times(j), i) == Offset(xs, times(0), i)
  {
    if i > 0 {
      SameOffset(xs, times, i - 1, j);
      assert NotAfter(times, 0, j);
      assert Alive(xs[i - 1], times(j)) <==> Alive(xs[i - 1], times(0));
    }
  }

  /** For instance: of a hundred and one messages the first expires after the first page, and the last is lost. */
  lemma LostBehindExpiry(xs: Expiries, times: nat -> int)
    requires |xs| == BATCH_SIZE + 1 && Ordered(times)
    requires xs[0].Some? && times(0) < xs[0].value <= times(1) && forall m :: 0 < m < |xs| ==> xs[m] == None
    ensures BATCH_SIZE !in ExportedMessages(xs, times)
  {
    AllButFirst(xs, times(0), BATCH_SIZE);
    AllButFirst(xs, times(1), BATCH_SIZE);
    assert Slides(Offsets(xs, times, BATCH_SIZE), 0);
    SurvivorExportedIff(xs, times, BATCH_SIZE);
  }

  lemma {:induction false} AllButFirst(xs: Expiries, now: int, n: nat)
    requires 0 < n <= |xs| && forall m :: 0 < m < n ==> xs[m] == None
    ensures Offset(xs, now, n) == if Alive(xs[0], now) then n else n - 1
  {
    if n > 1 {
      AllButFirst(xs, now, n - 1);
    } else {
      assert AliveBelow(xs, now, 0) == [];
    }
  }
}
