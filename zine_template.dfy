/** Page imposition for a bifold zine: the page-count rounding and the
    ordering of page numbers into (left, right) pairs, one pair per printed
    sheet side, outermost sheet face first. */
module ZineTemplate {

  /** The two page numbers printed side by side on one sheet side. */
  datatype PagePair = PagePair(left: int, right: int)

  // ---------------------------------------------------------------------
  // Rounding the requested page count
  // ---------------------------------------------------------------------

  /** The requested page count rounded up to a multiple of four. The
      remainder is taken with a positive divisor, where the floored and
      the Euclidean remainder agree, so this holds for every integer. */
  function RoundPages(pages: int): (r: int)
    ensures r % 4 == 0
    ensures pages <= r < pages + 4
    ensures pages % 4 == 0 ==> r == pages
  {
    if pages % 4 == 0 then pages else (pages + 4) - (pages % 4)
  }

  /** No multiple of four at or above `pages` is smaller than the rounded count. */
  lemma RoundPagesIsLeast(pages: int, m: int)
    requires m % 4 == 0 && pages <= m
    ensures RoundPages(pages) <= m
  {
  }

  /** Rounding a count that is already rounded changes nothing. */
  lemma RoundPagesIdempotent(pages: int)
    ensures RoundPages(RoundPages(pages)) == RoundPages(pages)
  {
  }

  lemma RoundPagesExamples()
    ensures RoundPages(1) == 4 && RoundPages(5) == 8 && RoundPages(13) == 16
    ensures RoundPages(4) == 4 && RoundPages(6) == 8
  {
  }

  // ---------------------------------------------------------------------
  // Imposition order: specification
  // ---------------------------------------------------------------------

  /** The pairs the loop emits for `n` pages from its `k`-th step on, when
      the low cursor stands at `1 + k`, the high cursor at `n - k`, and
      `lowRight` says whether the next pair that is not the centrefold puts
      the smaller page on the right. Each step moves both cursors one page
      inward; once they are adjacent, the centrefold ends the sequence. */
  function PairsFrom(n: int, k: int, lowRight: bool): (r: seq<PagePair>)
    requires n % 2 == 0 && 0 <= k < n / 2
    ensures |r| == n / 2 - k
    decreases n / 2 - k
  {
    var low, high := 1 + k, n - k;
    if low + 1 == high then
      [PagePair(low, high)]
    else
      [if lowRight then PagePair(high, low) else PagePair(low, high)]
        + PairsFrom(n, k + 1, !lowRight)
  }

  /** The imposition order for `n` pages: the pairs from the first step on,
      with the smaller page of the first pair on the right. */
  function PagePairs(n: int): (r: seq<PagePair>)
    requires n >= 2 && n % 2 == 0
    ensures |r| == n / 2
  {
    PairsFrom(n, 0, true)
  }

  /** Closed form of the `i`-th pair of a page count `n`: the outer pages
      `i + 1` and `n - i`, the high one on the left at even positions and
      on the right at odd ones, except for the centrefold, which always
      puts the low page on the left. */
  function ExpectedPair(n: int, i: int): PagePair
  {
    if i == n / 2 - 1 || i % 2 == 1 then PagePair(i + 1, n - i)
    else PagePair(n - i, i + 1)
  }

  /** How many slots, left or right, of a sequence of pairs hold page `p`. */
  function Occurrences(ps: seq<PagePair>, p: int): nat
  {
    if ps == [] then
      0
    else
      (if ps[0].left == p then 1 else 0) + (if ps[0].right == p then 1 else 0)
        + Occurrences(ps[1..], p)
  }

  // ---------------------------------------------------------------------
  // Imposition order: properties
  // ---------------------------------------------------------------------

  /** The pair at position `i` of the pairs from step `k` on, in closed
      form. */
  lemma {:induction false} PairsFromAt(n: int, k: int, lowRight: bool, i: int)
    requires n % 2 == 0 && 0 <= k && 0 <= i && k + i < n / 2
    ensures PairsFrom(n, k, lowRight)[i] ==
      if k + i == n / 2 - 1 || (i % 2 == 0) != lowRight
      then PagePair(1 + k + i, n - k - i)
      else PagePair(n - k - i, 1 + k + i)
    decreases i
  {
    if i > 0 {
      PairsFromAt(n, k + 1, !lowRight, i - 1);
    }
  }

  /** Each pair of the imposition order equals its closed form. */
  lemma PagePairsAt(n: int, i: int)
    requires n >= 2 && n % 2 == 0
    requires 0 <= i < n / 2
    ensures PagePairs(n)[i] == ExpectedPair(n, i)
  {
    PairsFromAt(n, 0, true, i);
  }

  /** Both numbers of every pair are pages of the zine, and they add up to
      `n + 1`: the low and high cursor move in step. */
  lemma PagePairsSum(n: int)
    requires n >= 2 && n % 2 == 0
    ensures forall i :: 0 <= i < |PagePairs(n)| ==>
      PagePairs(n)[i].left + PagePairs(n)[i].right == n + 1 &&
      1 <= PagePairs(n)[i].left <= n && 1 <= PagePairs(n)[i].right <= n
  {
    forall i | 0 <= i < |PagePairs(n)|
      ensures PagePairs(n)[i].left + PagePairs(n)[i].right == n + 1
      ensures 1 <= PagePairs(n)[i].left <= n && 1 <= PagePairs(n)[i].right <= n
    {
      PagePairsAt(n, i);
    }
  }

  /** Before the centrefold, the smaller number sits on the right in the
      pairs at even positions and on the left in those at odd positions,
      starting with the cover, whose first page is on the right. */
  lemma PagePairsAlternate(n: int)
    requires n >= 2 && n % 2 == 0
    ensures forall i :: 0 <= i < |PagePairs(n)| - 1 ==>
      (PagePairs(n)[i].right < PagePairs(n)[i].left <==> i % 2 == 0)
  {
    forall i | 0 <= i < |PagePairs(n)| - 1
      ensures PagePairs(n)[i].right < PagePairs(n)[i].left <==> i % 2 == 0
    {
      PagePairsAt(n, i);
    }
  }

  /** The outermost face holds the last page on the left and the first on
      the right; the innermost face is the centrefold. */
  lemma PagePairsEnds(n: int)
    requires n >= 2 && n % 2 == 0
    ensures PagePairs(n)[|PagePairs(n)| - 1] == PagePair(n / 2, n / 2 + 1)
    ensures n >= 4 ==> PagePairs(n)[0] == PagePair(n, 1)
  {
    PagePairsAt(n, 0);
    PagePairsAt(n, n / 2 - 1);
  }

  lemma PagePairsExamples()
    ensures PagePairs(2) == [PagePair(1, 2)]
    ensures PagePairs(4) == [PagePair(4, 1), PagePair(2, 3)]
    ensures PagePairs(8) ==
      [PagePair(8, 1), PagePair(2, 7), PagePair(6, 3), PagePair(4, 5)]
    ensures PagePairs(RoundPages(6)) == PagePairs(8)
  {
  }

  /** The pairs from step `k` on place each page between the cursors once
      and no other page. */
  lemma {:induction false} PairsFromPages(n: int, k: int, lowRight: bool, p: int)
    requires n % 2 == 0 && 0 <= k < n / 2
    ensures Occurrences(PairsFrom(n, k, lowRight), p) == if 1 + k <= p <= n - k then 1 else 0
    decreases n / 2 - k
  {
    var ps := PairsFrom(n, k, lowRight);
    if k + 1 < n / 2 {
      assert ps[1..] == PairsFrom(n, k + 1, !lowRight);
      PairsFromPages(n, k + 1, !lowRight, p);
    }
  }

  /** Every page from 1 to `n` is placed exactly once, and nothing else is. */
  lemma PagePairsPlaceEachPageOnce(n: int)
    requires n >= 2 && n % 2 == 0
    ensures forall p :: Occurrences(PagePairs(n), p) == if 1 <= p <= n then 1 else 0
  {
    forall p ensures Occurrences(PagePairs(n), p) == if 1 <= p <= n then 1 else 0 {
      PairsFromPages(n, 0, true, p);
    }
  }

  // ---------------------------------------------------------------------
  // Why the page count must be even and at least 2
  // ---------------------------------------------------------------------

  /** After `k` loop steps from a count of `n`, the cursors stand at
      `1 + k` and `n - k`; the loop stops when they are adjacent. */
  predicate AdjacentAfter(n: int, k: nat)
  {
    (1 + k) + 1 == n - k
  }

  /** The cursors become adjacent after some step exactly when the count
      is even and at least 2, and then after step `n / 2 - 1`. For an odd
      count they cross without ever being adjacent, so the loop never
      ends. */
  lemma LoopExitsIff(n: int, k: nat)
    ensures AdjacentAfter(n, k) <==> n >= 2 && n % 2 == 0 && k == n / 2 - 1
  {
  }

  /** A count of at least one page rounds to a count the pairing accepts,
      and one of at least 4, so the first pair is always the cover with
      page 1 on the right: the two-page order, the one count where page 1
      sits on the left, is never reached from a request. */
  lemma RoundedCountIsPairable(pages: int)
    requires pages >= 1
    ensures RoundPages(pages) >= 4 && RoundPages(pages) % 2 == 0
    ensures PagePairs(RoundPages(pages))[0] == PagePair(RoundPages(pages), 1)
  {
    PagePairsEnds(RoundPages(pages));
  }

  /** A count of zero or less rounds to a count of zero or less, for which
      the cursors never become adjacent: pairing it does not end. */
  lemma NonPositiveCountNeverAdjacent(pages: int, k: nat)
    requires pages <= 0
    ensures RoundPages(pages) <= 0
    ensures !AdjacentAfter(RoundPages(pages), k)
  {
  }

  // ---------------------------------------------------------------------
  // Imposition order: the loop
  // ---------------------------------------------------------------------

  /** Emits the pairs for a page count by walking a low and a high cursor
      towards each other, alternating which side gets the smaller page,
      and finishing with the centrefold. */
  method GetPagePairs(pageCt: int) returns (pairs: seq<PagePair>)
    requires pageCt >= 2 && pageCt % 2 == 0
    ensures pairs == PagePairs(pageCt)
    ensures |pairs| == pageCt / 2
    ensures pairs[|pairs| - 1] == PagePair(pageCt / 2, pageCt / 2 + 1)
  {
    var currentLow := 1;
    var currentHigh := pageCt;
    var lowRight := true;
    pairs := [];
    while currentLow + 1 != currentHigh
      invariant currentLow + currentHigh == pageCt + 1
      invariant 1 <= currentLow <= pageCt / 2
      invariant pairs + PairsFrom(pageCt, currentLow - 1, lowRight) == PagePairs(pageCt)
      decreases currentHigh - currentLow
    {
      var currentPair;
      if lowRight {
        currentPair := PagePair(currentHigh, currentLow);
        lowRight := false;
      } else {
        currentPair := PagePair(currentLow, currentHigh);
        lowRight := true;
      }
      pairs := pairs + [currentPair];
      currentHigh := currentHigh - 1;
      currentLow := currentLow + 1;
    }
    pairs := pairs + [PagePair(currentLow, currentHigh)];
    PagePairsEnds(pageCt);
  }
}
