/** What `Background` computes for one output pixel, as functions: the image
    cells of the `ws`×`ws` window around it, their grey levels sorted together
    with their positions, a vote count for every sorted entry, and the entry
    the scan settles on. The output pixel is a copy of that entry's source
    pixel. */
module BackgroundWindow {
  import opened Numerics
  import opened Raster
  import opened PixelOps
  import opened PairSort

  /** An image position: row `row`, column `col`. */
  datatype Cell = Cell(row: int, col: int)

  /** `p` is a pixel of the image and of the window whose top-left corner is
      (x - ws/2, y - ws/2) and whose side is `ws`. */
  predicate InWindow(p: Cell, y: int, x: int, w: nat, h: nat, ws: nat)
  {
    0 <= p.row < h && 0 <= p.col < w &&
    y - ws / 2 <= p.row < y - ws / 2 + ws && x - ws / 2 <= p.col < x - ws / 2 + ws
  }

  // ---------------------------------------------------------------------------
  // The gathered window
  // ---------------------------------------------------------------------------

  /** The cells of image row `yn` at window columns `xi < xEnd` that lie inside
      the image, left to right. */
  function RowCells(w: nat, ws: nat, x: int, yn: int, xEnd: nat): seq<Cell>
  {
    if xEnd == 0 then []
    else
      var xn := x + (xEnd - 1 - ws / 2);
      RowCells(w, ws, x, yn, xEnd - 1) + (if 0 <= xn < w then [Cell(yn, xn)] else [])
  }

  /** The cells of window rows `yi < yEnd` that lie inside the image, in scan
      order: the order in which `Background` stores them. */
  function WindowCells(w: nat, h: nat, ws: nat, y: int, x: int, yEnd: nat): seq<Cell>
  {
    if yEnd == 0 then []
    else
      var yn := y + (yEnd - 1 - ws / 2);
      WindowCells(w, h, ws, y, x, yEnd - 1) + (if 0 <= yn < h then RowCells(w, ws, x, yn, ws) else [])
  }

  lemma {:induction false} RowCellsIn(w: nat, ws: nat, x: int, yn: int, xEnd: nat)
    ensures |RowCells(w, ws, x, yn, xEnd)| <= xEnd
    ensures forall k :: 0 <= k < |RowCells(w, ws, x, yn, xEnd)| ==>
      RowCells(w, ws, x, yn, xEnd)[k].row == yn && 0 <= RowCells(w, ws, x, yn, xEnd)[k].col < w &&
      x - ws / 2 <= RowCells(w, ws, x, yn, xEnd)[k].col < x - ws / 2 + xEnd
  {
    if xEnd > 0 {
      RowCellsIn(w, ws, x, yn, xEnd - 1);
    }
  }

  /** Every gathered cell is a pixel of the window, and there are at most
      `ws * ws` of them. */
  lemma {:induction false} WindowCellsIn(w: nat, h: nat, ws: nat, y: int, x: int, yEnd: nat)
    requires yEnd <= ws
    ensures |WindowCells(w, h, ws, y, x, yEnd)| <= Times(yEnd, ws)
    ensures forall k :: 0 <= k < |WindowCells(w, h, ws, y, x, yEnd)| ==>
      InWindow(WindowCells(w, h, ws, y, x, yEnd)[k], y, x, w, h, ws) &&
      WindowCells(w, h, ws, y, x, yEnd)[k].row < y - ws / 2 + yEnd
  {
    if yEnd > 0 {
      WindowCellsIn(w, h, ws, y, x, yEnd - 1);
      RowCellsIn(w, ws, x, y + (yEnd - 1 - ws / 2), ws);
    }
  }

  /** The window is never empty: the centre pixel itself lies in the image. */
  lemma CentreGathered(w: nat, h: nat, ws: nat, y: nat, x: nat)
    requires ws >= 1 && y < h && x < w
    ensures |WindowCells(w, h, ws, y, x, ws)| > 0
  {
    RowHasColumn(w, ws, x, y, ws, ws / 2);
    WindowCellsGrow(w, h, ws, y, x, ws / 2 + 1, ws);
  }

  /** The window's own row holds the cell of column `xi`, so it is not empty. */
  lemma {:induction false} RowHasColumn(w: nat, ws: nat, x: int, yn: int, xEnd: nat, xi: nat)
    requires xi < xEnd && 0 <= x + (xi - ws / 2) < w
    ensures |RowCells(w, ws, x, yn, xEnd)| > 0
  {
    if xi < xEnd - 1 {
      RowHasColumn(w, ws, x, yn, xEnd - 1, xi);
    }
  }

  /** Further window rows only add cells. */
  lemma {:induction false} WindowCellsGrow(w: nat, h: nat, ws: nat, y: int, x: int, yEnd: nat, yEnd': nat)
    requires yEnd <= yEnd'
    ensures |WindowCells(w, h, ws, y, x, yEnd)| <= |WindowCells(w, h, ws, y, x, yEnd')|
    decreases yEnd' - yEnd
  {
    if yEnd < yEnd' {
      WindowCellsGrow(w, h, ws, y, x, yEnd, yEnd' - 1);
    }
  }

  /** Every cell lies inside an image `w` wide and `h` high. */
  ghost predicate CellsInImage(cells: seq<Cell>, w: nat, h: nat)
  {
    forall k :: 0 <= k < |cells| ==> 0 <= cells[k].row < h && 0 <= cells[k].col < w
  }

  /** The grey levels of `cells` in the one-channel image `gray`. */
  function GreyKeys(gray: seq<byte>, w: nat, h: nat, cells: seq<Cell>): (r: seq<int>)
    requires CellsInImage(cells, w, h) && |gray| >= h * w
    ensures |r| == |cells|
    ensures forall k :: 0 <= k < |cells| ==>
      (0 <= Offset(cells[k].row, cells[k].col, 0, w, 1) < |gray| && r[k] == gray[Offset(cells[k].row, cells[k].col, 0, w, 1)])
  {
    if cells == [] then []
    else
      var p := cells[|cells| - 1];
      InImage(p.row, p.col, 0, w, h, 1);
      GreyKeys(gray, w, h, cells[..|cells| - 1]) + [gray[Offset(p.row, p.col, 0, w, 1)] as int]
  }

  /** The tags 0, 1, …, n - 1 the source stores next to the grey levels. */
  function Range(n: nat): (r: seq<int>)
    ensures |r| == n && forall k :: 0 <= k < n ==> r[k] == k
  {
    seq(n, k => k)
  }

  /** After sorting, every tag still names one of the `n` gathered cells. */
  lemma TagsInRange(sorted: seq<Pair>, keys: seq<int>, n: nat)
    requires |keys| == n && multiset(sorted) == multiset(Zip(keys, Range(n)))
    ensures |sorted| == n
    ensures forall k :: 0 <= k < |sorted| ==> 0 <= sorted[k].tag < n
  {
    assert |sorted| == |multiset(sorted)| == |multiset(Zip(keys, Range(n)))| == n;
    forall k | 0 <= k < |sorted| ensures 0 <= sorted[k].tag < n {
      assert sorted[k] in multiset(Zip(keys, Range(n)));
      var j :| 0 <= j < n && Zip(keys, Range(n))[j] == sorted[k];
    }
  }

  function Keys(s: seq<Pair>): (r: seq<int>)
    ensures |r| == |s| && forall k :: 0 <= k < |s| ==> r[k] == s[k].key
  {
    seq(|s|, k requires 0 <= k < |s| => s[k].key)
  }

  ghost predicate TagsBelow(s: seq<Pair>, n: nat)
  {
    forall k :: 0 <= k < |s| ==> 0 <= s[k].tag < n
  }

  /** The flat index of the first channel of the cell each sorted entry names,
      in the `ch`-channel image `w` pixels wide. */
  function Starts(cells: seq<Cell>, sorted: seq<Pair>, w: nat, ch: nat): (r: seq<nat>)
    requires TagsBelow(sorted, |cells|)
    requires forall k :: 0 <= k < |cells| ==> 0 <= cells[k].row && 0 <= cells[k].col
    ensures |r| == |sorted|
    ensures forall k :: 0 <= k < |sorted| ==>
      r[k] == Offset(cells[sorted[k].tag].row, cells[sorted[k].tag].col, 0, w, ch)
  {
    seq(|sorted|, k requires 0 <= k < |sorted| =>
      var p := cells[sorted[k].tag];
      OffsetNonneg(p.row, p.col, 0, w, ch);
      Offset(p.row, p.col, 0, w, ch) as nat)
  }

  // ---------------------------------------------------------------------------
  // The vote
  // ---------------------------------------------------------------------------

  /** Whole pixels start at every index of `starts` in `s`. */
  ghost predicate Placed(s: seq<byte>, ch: nat, starts: seq<nat>)
  {
    forall j :: 0 <= j < |starts| ==> starts[j] + ch <= |s|
  }

  /** The run-extension loop for entry `k`: from index `j` on, take every
      following entry whose grey level is within 50 of `g[k]`; `cur` is
      the last one taken so far. */
  function Extend(g: seq<int>, k: nat, j: nat, cur: int): (r: int)
    requires k < |g| && j <= |g|
    ensures r == cur || j <= r < |g|
    decreases |g| - j
  {
    if j < |g| && Abs(g[j] - g[k]) < 50 then Extend(g, k, j + 1, j) else cur
  }

  /** The value of `j1` while entry `k` is scanned: the end of its run of
      similar grey levels, searched from where the previous entry's run ended. */
  function RunEnd(g: seq<int>, k: nat): (r: int)
    requires k < |g|
    ensures k <= r < |g|
  {
    var start := if k == 0 then 0 else Max(k, RunEnd(g, k - 1));
    Extend(g, k, start, start)
  }

  /** How many entries `j` in `[lo, hi)` vote for entry `k`: `k` itself and
      every entry whose pixel matches `k`'s within 30 on every channel. */
  function Agreeing(s: seq<byte>, ch: nat, starts: seq<nat>, k: nat, lo: nat, hi: nat): (r: nat)
    requires Placed(s, ch, starts) && k < |starts| && lo <= hi <= |starts|
    ensures r <= hi - lo
    ensures lo <= k < hi ==> r >= 1
    decreases hi - lo
  {
    if lo == hi then 0
    else
      Agreeing(s, ch, starts, k, lo, hi - 1) +
      (if hi - 1 == k || IsSameColorInBuffer(s, ch, starts[k], starts[hi - 1], 30) then 1 else 0)
  }

  /** Entry `k` is skipped when its pixel is exactly the colour of the entry
      before it. */
  function Repeats(s: seq<byte>, ch: nat, starts: seq<nat>, k: nat): bool
    requires Placed(s, ch, starts) && k < |starts|
  {
    k > 0 && IsSameColorInBuffer(s, ch, starts[k], starts[k - 1], 0)
  }

  /** The votes entry `k` collects from its run; a skipped entry collects none,
      every other collects at least its own. */
  function Votes(s: seq<byte>, ch: nat, g: seq<int>, starts: seq<nat>, k: nat): (r: nat)
    requires Placed(s, ch, starts) && |g| == |starts| && k < |g|
    ensures r <= |g| - k
  {
    if Repeats(s, ch, starts, k) then 0 else Agreeing(s, ch, starts, k, k, RunEnd(g, k) + 1)
  }

  /** A skipped entry collects no vote, every other at least its own. */
  lemma VotesPositive(s: seq<byte>, ch: nat, g: seq<int>, starts: seq<nat>, k: nat)
    requires Placed(s, ch, starts) && |g| == |starts| && k < |g|
    ensures !Repeats(s, ch, starts, k) <==> Votes(s, ch, g, starts, k) >= 1
  {
  }

  /** The vote counts of every entry, in sorted order (see `VoteListAt`). */
  function VoteList(s: seq<byte>, ch: nat, g: seq<int>, starts: seq<nat>): (r: seq<nat>)
    requires Placed(s, ch, starts) && |g| == |starts|
    ensures |r| == |g|
  {
    VotesUpTo(s, ch, g, starts, |g|)
  }

  /** The vote counts of entries `[0, m)`. */
  function VotesUpTo(s: seq<byte>, ch: nat, g: seq<int>, starts: seq<nat>, m: nat): (r: seq<nat>)
    requires Placed(s, ch, starts) && |g| == |starts| && m <= |g|
    ensures |r| == m
  {
    if m == 0 then [] else VotesUpTo(s, ch, g, starts, m - 1) + [Votes(s, ch, g, starts, m - 1)]
  }

  lemma {:induction false} VotesUpToAt(s: seq<byte>, ch: nat, g: seq<int>, starts: seq<nat>, m: nat, k: nat)
    requires Placed(s, ch, starts) && |g| == |starts| && k < m <= |g|
    ensures VotesUpTo(s, ch, g, starts, m)[k] == Votes(s, ch, g, starts, k)
  {
    if k < m - 1 {
      VotesUpToAt(s, ch, g, starts, m - 1, k);
    }
  }

  /** Entry `k` of the list is the vote count of entry `k`. */
  lemma VoteListAt(s: seq<byte>, ch: nat, g: seq<int>, starts: seq<nat>, k: nat)
    requires Placed(s, ch, starts) && |g| == |starts| && k < |g|
    ensures VoteList(s, ch, g, starts)[k] == Votes(s, ch, g, starts, k)
  {
    VotesUpToAt(s, ch, g, starts, |g|, k);
  }

  /** The highest count among `V[..n]` and the first index reaching it, or
      (0, 0) for an empty prefix: the pair `(hmax, hi)` of the scan. */
  function Best(V: seq<nat>, n: nat): (r: (nat, nat))
    requires n <= |V|
    ensures n == 0 ==> r == (0, 0)
    ensures n > 0 ==> r.1 < n && r.0 == V[r.1]
    ensures forall k :: 0 <= k < n ==> V[k] <= r.0
    ensures forall k :: 0 <= k < r.1 ==> V[k] < r.0
  {
    if n == 0 then (0, 0)
    else
      var m := Best(V, n - 1);
      if V[n - 1] > m.0 then (V[n - 1], n - 1) else m
  }

  /** The first index from `k` on whose count exceeds `bound`, or `|V|`. */
  function FirstAbove(V: seq<nat>, bound: int, k: nat): (r: nat)
    requires k <= |V|
    ensures k <= r <= |V|
    ensures r < |V| ==> V[r] > bound
    ensures forall j :: k <= j < r ==> V[j] <= bound
    decreases |V| - k
  {
    if k == |V| then k else if V[k] > bound then k else FirstAbove(V, bound, k + 1)
  }

  /** The entry the scan settles on: the first one whose count exceeds
      `bound` (the scan stops there), otherwise the first one with the
      highest count. */
  function Chosen(V: seq<nat>, bound: int): (r: nat)
    requires |V| > 0
    ensures r < |V|
  {
    var f := FirstAbove(V, bound, 0);
    if f < |V| then f else Best(V, |V|).1
  }

  /** The chosen entry, described without the scan: a count above `bound` and
      none before it when there is one; otherwise the highest count, first of
      those reaching it. */
  lemma ChosenIsBest(V: seq<nat>, bound: int)
    requires |V| > 0
    ensures (exists k :: 0 <= k < |V| && V[k] > bound) ==>
      V[Chosen(V, bound)] > bound && forall k :: 0 <= k < Chosen(V, bound) ==> V[k] <= bound
    ensures (forall k :: 0 <= k < |V| ==> V[k] <= bound) ==>
      (forall k :: 0 <= k < |V| ==> V[k] <= V[Chosen(V, bound)]) &&
      (forall k :: 0 <= k < Chosen(V, bound) ==> V[k] < V[Chosen(V, bound)])
  {
    var f := FirstAbove(V, bound, 0);
    if f == |V| {
      assert forall k :: 0 <= k < |V| ==> V[k] <= bound;
    }
  }

  /** The window of (x, y) as the scan sees it: cells, sorted (grey, tag)
      entries, and the entry's pixel starts in the source image. */
  function SortedWindow(gray: seq<byte>, w: nat, h: nat, ws: nat, y: nat, x: nat): (r: seq<Pair>)
    requires |gray| >= h * w
    ensures TagsBelow(r, |WindowCells(w, h, ws, y, x, ws)|)
    ensures KeysSorted(r)
  {
    var cells := WindowCells(w, h, ws, y, x, ws);
    WindowCellsIn(w, h, ws, y, x, ws);
    var keys := GreyKeys(gray, w, h, cells);
    SortPairsPermutes(Zip(keys, Range(|cells|)));
    TagsInRange(SortPairs(Zip(keys, Range(|cells|))), keys, |cells|);
    SortPairsSorted(Zip(keys, Range(|cells|)));
    SortPairs(Zip(keys, Range(|cells|)))
  }

  /** The source pixel `Background` copies to (x, y): always a pixel of the
      window around (x, y). */
  function BackgroundCell(s: seq<byte>, gray: seq<byte>, w: nat, h: nat, ch: nat, ws: nat, y: nat, x: nat): (r: Cell)
    requires |gray| >= h * w && |s| >= h * w * ch
    requires ws >= 1 && y < h && x < w
    ensures InWindow(r, y, x, w, h, ws)
  {
    var cells := WindowCells(w, h, ws, y, x, ws);
    WindowCellsIn(w, h, ws, y, x, ws);
    CentreGathered(w, h, ws, y, x);
    var sorted := SortedWindow(gray, w, h, ws, y, x);
    var starts := Starts(cells, sorted, w, ch);
    StartsPlaced(s, cells, sorted, w, h, ch);
    var k := Chosen(VoteList(s, ch, Keys(sorted), starts), Times(ws, ws) / 2);
    cells[sorted[k].tag]
  }

  /** `BackgroundCell` is the cell of the entry the vote chooses. */
  lemma BackgroundCellIs(s: seq<byte>, gray: seq<byte>, w: nat, h: nat, ch: nat, ws: nat, y: nat, x: nat,
                         cells: seq<Cell>, sorted: seq<Pair>, starts: seq<nat>, k: nat)
    requires |gray| >= h * w && |s| >= h * w * ch && ws >= 1 && y < h && x < w
    requires cells == WindowCells(w, h, ws, y, x, ws) && CellsInImage(cells, w, h)
    requires sorted == SortedWindow(gray, w, h, ws, y, x) && |sorted| > 0
    requires starts == Starts(cells, sorted, w, ch) && Placed(s, ch, starts)
    requires k == Chosen(VoteList(s, ch, Keys(sorted), starts), Times(ws, ws) / 2)
    ensures k < |sorted| && sorted[k].tag < |cells|
    ensures BackgroundCell(s, gray, w, h, ch, ws, y, x) == cells[sorted[k].tag]
  {
  }

  /** The starts of cells inside the image leave room for a whole pixel. */
  lemma StartsPlaced(s: seq<byte>, cells: seq<Cell>, sorted: seq<Pair>, w: nat, h: nat, ch: nat)
    requires CellsInImage(cells, w, h) && TagsBelow(sorted, |cells|) && |s| >= h * w * ch
    ensures Placed(s, ch, Starts(cells, sorted, w, ch))
  {
    var starts := Starts(cells, sorted, w, ch);
    forall j | 0 <= j < |starts| ensures starts[j] + ch <= |s| {
      var p := cells[sorted[j].tag];
      assert starts[j] == Offset(p.row, p.col, 0, w, ch);
      if ch > 0 {
        InImage(p.row, p.col, ch - 1, w, h, ch);
        assert Offset(p.row, p.col, ch - 1, w, ch) == Offset(p.row, p.col, 0, w, ch) + ch - 1;
      } else {
        TimesZero(Times(p.row, w));
        TimesZero(p.col);
      }
    }
  }

  // ---------------------------------------------------------------------------
  // The run on sorted grey levels
  // ---------------------------------------------------------------------------

  /** Entries `[k, r]` are less than 50 above `g[k]`, and the next is not. */
  ghost predicate RunOf(g: seq<int>, k: nat, r: int)
    requires k <= r < |g|
  {
    (forall j :: k <= j <= r ==> g[j] - g[k] < 50) && (r + 1 == |g| || g[r + 1] - g[k] >= 50)
  }

  /** On sorted grey levels the run of entry `k` is exactly the entries from
      `k` on whose level is less than 50 above `g[k]`: `RunEnd` is the last of
      them. */
  lemma {:induction false} RunEndSorted(g: seq<int>, k: nat)
    requires Sorted(g) && k < |g|
    ensures RunOf(g, k, RunEnd(g, k))
  {
    if k == 0 {
      var _ := RunEndUnfolds(g, k);
      ExtendSorted(g, 0, 1);
    } else {
      RunEndSorted(g, k - 1);
      RunEndStep(g, k, RunEnd(g, k - 1));
    }
  }

  /** The first step of the run search succeeds when it starts on an entry
      close to `g[k]`: on `k` itself or on the previous run's end. */
  lemma RunEndUnfolds(g: seq<int>, k: nat) returns (start: nat)
    requires k < |g|
    requires k > 0 && RunEnd(g, k - 1) > k ==> Abs(g[RunEnd(g, k - 1)] - g[k]) < 50
    ensures start == if k == 0 then 0 else Max(k, RunEnd(g, k - 1))
    ensures start < |g|
    ensures RunEnd(g, k) == Extend(g, k, start + 1, start)
  {
    start := if k == 0 then 0 else Max(k, RunEnd(g, k - 1));
  }

  /** The run of `k` from the run of `k - 1`. */
  lemma RunEndStep(g: seq<int>, k: nat, e: nat)
    requires Sorted(g) && 0 < k < |g| && e == RunEnd(g, k - 1)
    requires RunOf(g, k - 1, e)
    ensures RunOf(g, k, RunEnd(g, k))
  {
    if e <= k {
      var start := RunEndUnfolds(g, k);
      ExtendSorted(g, k, k + 1);
    } else {
      RunStillClose(g, k, e);
      var start := RunEndUnfolds(g, k);
      ExtendSorted(g, k, e + 1);
    }
  }

  /** Entries close above `g[k - 1]` are close above the larger `g[k]`. */
  lemma RunStillClose(g: seq<int>, k: nat, e: nat)
    requires Sorted(g) && 0 < k < e < |g|
    requires forall j :: k - 1 <= j <= e ==> g[j] - g[k - 1] < 50
    ensures forall j :: k <= j < e + 1 ==> g[j] - g[k] < 50
    ensures Abs(g[e] - g[k]) < 50
  {
    assert g[k - 1] <= g[k];
  }

  /** `Extend` from `j`, with entries `[k, j)` already taken, on sorted levels. */
  lemma {:induction false} ExtendSorted(g: seq<int>, k: nat, j: nat)
    requires Sorted(g) && k < j <= |g|
    requires forall i :: k <= i < j ==> g[i] - g[k] < 50
    ensures j - 1 <= Extend(g, k, j, j - 1)
    ensures RunOf(g, k, Extend(g, k, j, j - 1))
    decreases |g| - j
  {
    if j < |g| && Abs(g[j] - g[k]) < 50 {
      ExtendSorted(g, k, j + 1);
    } else if j < |g| {
      assert g[k] <= g[j];
    }
  }
}
