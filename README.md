# Zine page imposition

A Dafny model of the page-imposition logic of `generate_zine_template.py`,
a small tool that lays out a booklet ("zine") printed as a bifold
signature. Two operations are modelled, both in module `ZineTemplate`
(`zine_template.dfy`):

- **Rounding** (`round_pages`): the requested number of content pages is
  rounded up to the next multiple of four. It is modelled as the pure
  function `RoundPages` over unbounded integers. Python's floored `%` and
  Dafny's Euclidean `%` agree for the positive divisor 4, so the function
  is stated for every integer, negative ones included. Python integers
  are unbounded too, so there is no width to model.
- **Pairing** (`get_page_pairs`): the page numbers are arranged into
  (left, right) pairs, one pair per printed sheet side, outermost face
  first. The source walks a low cursor up from 1 and a high cursor down
  from the page count. At each step it emits `(high, low)` or
  `(low, high)`, alternating which one comes first, starting with the
  smaller page on the right. When the cursors are adjacent it emits the
  centrefold `(low, high)`.
  - The loop is modelled as the method `GetPagePairs`, with the same
    cursors, flag and appended list. Its loop invariants prove that it
    returns `PagePairs(n)`.
  - `PagePairs` is a recursive specification. It is built from
    `PairsFrom(n, k, lowRight)`: the pairs emitted from step `k` on, when
    the cursors stand at `1 + k` and `n - k`.
  - `ExpectedPair` gives a closed form of each pair.
  - Lemmas prove the following about `PagePairs`:
    - its length is `n / 2`;
    - every pair is its closed form;
    - the two pages of each pair add up to `n + 1`;
    - the pair orientation alternates;
    - for `n >= 4` the pairs begin with the cover `(n, 1)`; for every `n`
      they end with the centrefold `(n/2, n/2 + 1)`. At `n = 2` the only
      pair is `[(1, 2)]`, the one count where page 1 sits on the left,
      but a request of one page or more always rounds to at least 4;
    - every page `1..n` is placed exactly once and no other number is.

The loop in `get_page_pairs` only stops once the cursors become adjacent.
That happens exactly when the page count is even and at least 2
(`LoopExitsIff`). For any other count the source never returns a result (it keeps
appending pairs until memory runs out), so the model requires an even
count of at least 2. A rounded count of one page
or more always meets this (`RoundedCountIsPairable`). A requested count of
zero or less rounds to zero or less, and then the cursors never become
adjacent (`NonPositiveCountNeverAdjacent`): the command line run with such
a count never produces a result; it keeps appending pairs until memory
runs out.

## Model

| member | source | states |
|---|---|---|
| `ZineTemplate.RoundPages` | generate_zine_template.py:11-16 | the result is a multiple of 4, at least the request and less than 4 above it; a request that is already a multiple of 4 is returned unchanged |
| `ZineTemplate.RoundPagesIsLeast` | generate_zine_template.py:11-16 | no multiple of 4 at or above the request is smaller than the rounded count, so rounding picks the least such multiple |
| `ZineTemplate.RoundPagesIdempotent` | generate_zine_template.py:12-13 | rounding an already rounded count changes nothing |
| `ZineTemplate.RoundPagesExamples` | generate_zine_template.py:11-16 | 1, 5, 13, 4 and 6 round to 4, 8, 16, 4 and 8 |
| `ZineTemplate.PairsFrom` | generate_zine_template.py:27-38 | from step `k` on, the loop and the final append emit `n/2 - k` pairs |
| `ZineTemplate.PagePairs` | generate_zine_template.py:19-39 | the imposition order of `n` pages has `n/2` pairs |
| `ZineTemplate.PairsFromAt` | generate_zine_template.py:25-38 | the `i`-th pair from step `k` on holds pages `1+k+i` and `n-k-i`; the high one is on the left exactly when the flag, flipped `i` times, is set, and the last pair puts the low page on the left |
| `ZineTemplate.PagePairsAt` | generate_zine_template.py:19-39 | pair `i` of the imposition order equals the closed form `ExpectedPair(n, i)` |
| `ZineTemplate.PagePairsSum` | generate_zine_template.py:20-37 | both numbers of every pair lie in `1..n` and add up to `n + 1` |
| `ZineTemplate.PagePairsAlternate` | generate_zine_template.py:25-34 | before the centrefold, the smaller page is on the right exactly in the pairs at even positions |
| `ZineTemplate.PagePairsEnds` | generate_zine_template.py:25-38 | the last pair is the centrefold `(n/2, n/2+1)`; for `n >= 4` the first pair is `(n, 1)` |
| `ZineTemplate.PagePairsExamples` | generate_zine_template.py:19-39 | the orders for 2, 4 and 8 pages are `[(1,2)]`, `[(4,1),(2,3)]` and `[(8,1),(2,7),(6,3),(4,5)]`, and a request of 6 pages is paired as 8 |
| `ZineTemplate.PairsFromPages` | generate_zine_template.py:27-38 | the pairs from step `k` on place each page from `1+k` to `n-k` exactly once and no other number |
| `ZineTemplate.PagePairsPlaceEachPageOnce` | generate_zine_template.py:19-39 | flattened, the imposition order holds each page `1..n` exactly once and nothing else |
| `ZineTemplate.LoopExitsIff` | generate_zine_template.py:27-36 | after `k` steps the cursors are adjacent if and only if the count is even, at least 2, and `k == n/2 - 1` |
| `ZineTemplate.RoundedCountIsPairable` | generate_zine_template.py:71-72 | a request of at least one page rounds to an even count of at least 4, which the pairing accepts, and its first pair is the cover `(n, 1)` with page 1 on the right |
| `ZineTemplate.NonPositiveCountNeverAdjacent` | generate_zine_template.py:71-72 | a request of zero pages or fewer rounds to zero or less, and then the cursors are never adjacent after any step |
| `ZineTemplate.GetPagePairs` | generate_zine_template.py:19-39 | the loop terminates, because `high - low` drops by 2 each step. It returns exactly the specification `PagePairs`: `n/2` pairs ending with the centrefold |

## Left out

- `generate_pages` (generate_zine_template.py:41-47) renders each pair through a Jinja template and concatenates the text. The template engine is an external library and is not part of this model.
- `write_latex` (generate_zine_template.py:49-52) writes the rendered wrapper template to `<project>.tex`. This is file output through the template engine.
- `main` (generate_zine_template.py:55-94) covers argument parsing, the template-engine configuration and printing to the screen. All of it is I/O or library setup. Only its composition of rounding and pairing (lines 71-72) is modelled.
- `GetPagePairs` requires an even count of at least 2. For other counts the source never returns a result (it keeps appending pairs until memory runs out), and the model does not describe that divergence. `LoopExitsIff` and `NonPositiveCountNeverAdjacent` state why the loop never exits for those counts.
- Python tuples are modelled as the datatype `PagePair(left, right)`.
