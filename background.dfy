/** `Background`: every output pixel is a copy of one source pixel of the
    `ws`×`ws` window around it. The window's grey levels are sorted together
    with their positions; each sorted entry collects the votes of the entries
    whose grey level is less than 50 above its own and whose colour matches
    its own within 30 on every channel; the first entry with the most votes
    wins, and the scan stops early at the first entry with more than half of
    `ws * ws` votes. The buffers the source allocates on the stack once per
    call are arrays allocated once per call here. */
module BackgroundFilter {
  import opened Numerics
  import opened Raster
  import opened PixelOps
  import opened PairSort
  import opened BackgroundWindow

  lemma {:induction false} TimesRows(a: nat, a': nat, b: nat)
    requires a <= a'
    ensures Times(a, b) <= Times(a', b)
    decreases a' - a
  {
    if a < a' {
      TimesRows(a, a' - 1, b);
    }
  }

  /** The first `|cells|` entries of the three buffers describe `cells` in
      order: the grey level of each, its own position as tag, and its row and
      column. */
  ghost predicate Holds(window: seq<int32>, indexes: seq<int32>, coordinates: seq<int32>,
                        gray: seq<byte>, w: nat, h: nat, cells: seq<Cell>)
  {
    CellsInImage(cells, w, h) &&
    |cells| <= |window| && |cells| <= |indexes| && 2 * |cells| <= |coordinates| &&
    forall k :: 0 <= k < |cells| ==>
      Offset(cells[k].row, cells[k].col, 0, w, 1) < |gray| &&
      window[k] as int == gray[Offset(cells[k].row, cells[k].col, 0, w, 1)] as int && indexes[k] as int == k &&
      coordinates[2 * k] as int == cells[k].row && coordinates[2 * k + 1] as int == cells[k].col
  }

  /** The gather loops: the grey levels of the window's image pixels, in scan
      order, with tags 0, 1, … and their coordinates. */
  method Gather(width: nat, height: nat, grayscale: array<byte>, ws: nat, y: nat, x: nat,
                window: array<int32>, indexes: array<int32>, coordinates: array<int32>) returns (count: nat)
    requires y < height && x < width && height <= IntMax && width <= IntMax
    requires grayscale.Length >= height * width && Times(ws, ws) <= IntMax
    requires window.Length >= Times(ws, ws) && indexes.Length >= Times(ws, ws) && coordinates.Length >= 2 * Times(ws, ws)
    requires window != indexes && window != coordinates && indexes != coordinates
    modifies window, indexes, coordinates
    ensures count == |WindowCells(width, height, ws, y, x, ws)|
    ensures Holds(window[..], indexes[..], coordinates[..], grayscale[..], width, height, WindowCells(width, height, ws, y, x, ws))
  {
    ghost var gray := grayscale[..];
    count := 0;
    var yi := 0;
    while yi < ws
      invariant 0 <= yi <= ws
      invariant count == |WindowCells(width, height, ws, y, x, yi)| <= Times(yi, ws)
      invariant Holds(window[..], indexes[..], coordinates[..], gray, width, height, WindowCells(width, height, ws, y, x, yi))
    {
      var yn := y + (yi - ws / 2);
      WindowCellsIn(width, height, ws, y, x, yi + 1);
      TimesRows(yi + 1, ws, ws);
      if 0 <= yn < height {
        count := GatherRow(width, height, grayscale, gray, ws, y, x, yi, yn, window, indexes, coordinates, count);
      }
      yi := yi + 1;
    }
  }

  /** Window row `yi`, image row `yn`: appends its image pixels after the
      `count` entries gathered so far. */
  method GatherRow(width: nat, height: nat, grayscale: array<byte>, ghost gray: seq<byte>, ws: nat, y: nat, x: nat,
                   yi: nat, yn: int, window: array<int32>, indexes: array<int32>, coordinates: array<int32>,
                   count0: nat) returns (count: nat)
    requires gray == grayscale[..] && yi < ws && yn == y + (yi - ws / 2) && 0 <= yn < height
    requires height <= IntMax && width <= IntMax
    requires grayscale.Length >= height * width && Times(ws, ws) <= IntMax
    requires window.Length >= Times(ws, ws) && indexes.Length >= Times(ws, ws) && coordinates.Length >= 2 * Times(ws, ws)
    requires window != indexes && window != coordinates && indexes != coordinates
    requires Times(yi + 1, ws) <= Times(ws, ws)
    requires count0 == |WindowCells(width, height, ws, y, x, yi)| <= Times(yi, ws)
    requires Holds(window[..], indexes[..], coordinates[..], gray, width, height, WindowCells(width, height, ws, y, x, yi))
    modifies window, indexes, coordinates
    ensures count == |WindowCells(width, height, ws, y, x, yi + 1)| <= Times(yi + 1, ws)
    ensures Holds(window[..], indexes[..], coordinates[..], gray, width, height, WindowCells(width, height, ws, y, x, yi + 1))
  {
    ghost var before := WindowCells(width, height, ws, y, x, yi);
    ghost var cells := before;
    assert before + RowCells(width, ws, x, yn, 0) == cells;
    count := count0;
    var xi := 0;
    while xi < ws
      invariant 0 <= xi <= ws && cells == before + RowCells(width, ws, x, yn, xi)
      invariant count == |cells| <= Times(yi, ws) + xi
      invariant Holds(window[..], indexes[..], coordinates[..], gray, width, height, cells)
    {
      count, cells := GatherColumn(width, height, grayscale, gray, ws, x, yi, yn, xi, window, indexes, coordinates,
                                   count, before, cells);
      xi := xi + 1;
    }
    assert cells == WindowCells(width, height, ws, y, x, yi + 1);
  }

  /** Window column `xi` of image row `yn`: appends the pixel when it lies
      inside the image. */
  method GatherColumn(width: nat, height: nat, grayscale: array<byte>, ghost gray: seq<byte>, ws: nat, x: nat,
                      yi: nat, yn: nat, xi: nat, window: array<int32>, indexes: array<int32>, coordinates: array<int32>,
                      count0: nat, ghost before: seq<Cell>, ghost cells0: seq<Cell>)
      returns (count: nat, ghost cells: seq<Cell>)
    requires gray == grayscale[..] && yi < ws && xi < ws && yn < height
    requires height <= IntMax && width <= IntMax
    requires grayscale.Length >= height * width && Times(ws, ws) <= IntMax
    requires window.Length >= Times(ws, ws) && indexes.Length >= Times(ws, ws) && coordinates.Length >= 2 * Times(ws, ws)
    requires window != indexes && window != coordinates && indexes != coordinates
    requires Times(yi + 1, ws) <= Times(ws, ws) && |before| <= Times(yi, ws)
    requires cells0 == before + RowCells(width, ws, x, yn, xi) && count0 == |cells0| <= Times(yi, ws) + xi
    requires Holds(window[..], indexes[..], coordinates[..], gray, width, height, cells0)
    modifies window, indexes, coordinates
    ensures cells == before + RowCells(width, ws, x, yn, xi + 1) && count == |cells| <= Times(yi, ws) + xi + 1
    ensures Holds(window[..], indexes[..], coordinates[..], gray, width, height, cells)
  {
    var xn := x + (xi - ws / 2);
    RowCellsIn(width, ws, x, yn, xi + 1);
    count, cells := count0, cells0;
    if 0 <= xn < width {
      AppendCell(width, height, grayscale, gray, window, indexes, coordinates, cells, count, yn, xn);
      cells := cells + [Cell(yn, xn)];
      count := count + 1;
    }
  }

  /** Stores cell (xn, yn) as entry `count`, after the entries for `cells`. */
  method AppendCell(width: nat, height: nat, grayscale: array<byte>, ghost gray: seq<byte>,
                    window: array<int32>, indexes: array<int32>, coordinates: array<int32>,
                    ghost cells: seq<Cell>, count: nat, yn: nat, xn: nat)
    requires gray == grayscale[..] && yn < height && xn < width && height <= IntMax && width <= IntMax
    requires grayscale.Length >= height * width
    requires count == |cells| && count < window.Length && count < indexes.Length && 2 * count + 1 < coordinates.Length
    requires count <= IntMax
    requires window != indexes && window != coordinates && indexes != coordinates
    requires Holds(window[..], indexes[..], coordinates[..], gray, width, height, cells)
    modifies window, indexes, coordinates
    ensures Holds(window[..], indexes[..], coordinates[..], gray, width, height, cells + [Cell(yn, xn)])
  {
    InImage(yn, xn, 0, width, height, 1);
    var index := Offset(yn, xn, 0, width, 1);
    window[count] := grayscale[index] as int32;
    indexes[count] := count as int32;
    coordinates[2 * count] := yn as int32;
    coordinates[2 * count + 1] := xn as int32;
    ghost var cells' := cells + [Cell(yn, xn)];
    forall k | 0 <= k < |cells'|
      ensures Offset(cells'[k].row, cells'[k].col, 0, width, 1) < |gray| &&
        window[k] as int == gray[Offset(cells'[k].row, cells'[k].col, 0, width, 1)] as int && indexes[k] as int == k &&
        coordinates[2 * k] as int == cells'[k].row && coordinates[2 * k + 1] as int == cells'[k].col
    {
      if k < count {
        assert cells'[k] == cells[k];
      }
    }
  }

  /** The sorted window: entries `[0, n)` hold the sorted (grey, tag) pairs,
      and each tag's coordinates are still those of the cell it names. */
  ghost predicate Layout(window: seq<int32>, indexes: seq<int32>, coordinates: seq<int32>, n: nat,
                         cells: seq<Cell>, sorted: seq<Pair>)
  {
    |cells| == n && |sorted| == n && n <= |window| && n <= |indexes| && 2 * n <= |coordinates| &&
    TagsBelow(sorted, n) &&
    (forall k :: 0 <= k < n ==> window[k] as int == sorted[k].key && indexes[k] as int == sorted[k].tag) &&
    (forall k :: 0 <= k < n ==>
       0 <= cells[k].row && 0 <= cells[k].col &&
       coordinates[2 * k] as int == cells[k].row && coordinates[2 * k + 1] as int == cells[k].col)
  }

  /** Sorted entry `j`'s tag leads, through `coordinates`, to the pixel that
      starts at `starts[j]`. */
  ghost predicate Decodes(indexes: seq<int32>, coordinates: seq<int32>, n: nat, width: nat, ch: nat, starts: seq<nat>)
  {
    |starts| == n && n <= |indexes| &&
    forall j :: 0 <= j < n ==>
      0 <= indexes[j] as int && 2 * (indexes[j] as int) + 1 < |coordinates| &&
      0 <= coordinates[2 * (indexes[j] as int)] as int && 0 <= coordinates[2 * (indexes[j] as int) + 1] as int &&
      starts[j] == Offset(coordinates[2 * (indexes[j] as int)] as int, coordinates[2 * (indexes[j] as int) + 1] as int, 0, width, ch)
  }

  lemma LayoutDecodes(window: seq<int32>, indexes: seq<int32>, coordinates: seq<int32>, n: nat,
                      cells: seq<Cell>, sorted: seq<Pair>, width: nat, ch: nat)
    requires Layout(window, indexes, coordinates, n, cells, sorted)
    ensures Decodes(indexes, coordinates, n, width, ch, Starts(cells, sorted, width, ch))
    ensures forall i :: 0 <= i < n ==> window[i] as int == Keys(sorted)[i]
  {
    var starts := Starts(cells, sorted, width, ch);
    forall j | 0 <= j < n
      ensures 0 <= indexes[j] as int && 2 * (indexes[j] as int) + 1 < |coordinates|
      ensures coordinates[2 * (indexes[j] as int)] as int == cells[sorted[j].tag].row
      ensures coordinates[2 * (indexes[j] as int) + 1] as int == cells[sorted[j].tag].col
    {
      var i1 := sorted[j].tag;
      assert indexes[j] as int == i1 && 0 <= i1 < n;
    }
  }

  /** `d = y*width*channels + x*channels` for the pixel of sorted entry `k`. */
  method StartOf(width: nat, ch: nat, indexes: array<int32>, coordinates: array<int32>, k: nat,
                 ghost n: nat, ghost starts: seq<nat>) returns (d: nat)
    requires Decodes(indexes[..], coordinates[..], n, width, ch, starts) && k < n
    ensures d == starts[k]
  {
    var i1 := indexes[k] as int;
    var y1 := coordinates[2 * i1];
    var x1 := coordinates[2 * i1 + 1];
    d := Offset(y1 as int, x1 as int, 0, width, ch);
  }

  /** The run-extension loop: `j1` moves on over every following entry whose
      grey level is within 50 of entry `k`'s. */
  method ExtendRun(window: array<int32>, n: nat, k: nat, start: nat, ghost g: seq<int>) returns (j1: nat)
    requires k < n <= window.Length && start <= n
    requires |g| == n && forall i :: 0 <= i < n ==> window[i] as int == g[i]
    ensures j1 == Extend(g, k, start, start)
  {
    var g0 := window[k];
    j1 := start;
    var j := start;
    while j < n && Abs(window[j] as int - g0 as int) < 50
      invariant start <= j <= n && j1 <= n
      invariant Extend(g, k, j, j1) == Extend(g, k, start, start)
    {
      j1 := j;
      j := j + 1;
    }
  }

  /** The vote loop: entry `k` and every entry of `[k, j1]` whose pixel
      matches entry `k`'s within 30 on every channel. */
  method CountAgreeing(source: array<byte>, ch: nat, width: nat, indexes: array<int32>, coordinates: array<int32>,
                       k: nat, j1: nat, ghost n: nat, ghost starts: seq<nat>, ghost s: seq<byte>) returns (h: nat)
    requires Decodes(indexes[..], coordinates[..], n, width, ch, starts) && k <= j1 < n
    requires s == source[..] && Placed(s, ch, starts)
    ensures h == Agreeing(s, ch, starts, k, k, j1 + 1)
  {
    var d1 := StartOf(width, ch, indexes, coordinates, k, n, starts);
    h := 0;
    var j := k;
    while j <= j1
      invariant k <= j <= j1 + 1
      invariant h == Agreeing(s, ch, starts, k, k, j)
    {
      var agrees := true;
      if j != k {
        agrees := SameColorEntries(source, ch, width, indexes, coordinates, d1, j, 30, n, starts, s);
      }
      AgreeingStep(s, ch, starts, k, j, agrees);
      if agrees {
        h := h + 1;
      }
      j := j + 1;
    }
  }

  lemma RunEndFrom(g: seq<int>, k: nat, start: nat)
    requires k < |g| && start == if k == 0 then 0 else Max(k, RunEnd(g, k - 1))
    ensures RunEnd(g, k) == Extend(g, k, start, start)
  {
  }

  /** Whether the pixel starting at `d1` and the pixel of sorted entry `j`
      agree within `tolerance` on every channel. */
  method SameColorEntries(source: array<byte>, ch: nat, width: nat, indexes: array<int32>, coordinates: array<int32>,
                          d1: nat, j: nat, tolerance: int, ghost n: nat, ghost starts: seq<nat>, ghost s: seq<byte>)
      returns (r: bool)
    requires Decodes(indexes[..], coordinates[..], n, width, ch, starts) && j < n
    requires s == source[..] && Placed(s, ch, starts) && d1 + ch <= |s|
    ensures r == IsSameColorInBuffer(s, ch, d1, starts[j], tolerance)
  {
    var d2 := StartOf(width, ch, indexes, coordinates, j, n, starts);
    r := IsSameColorInBuffer(source[..], ch, d1, d2, tolerance);
  }

  lemma RepeatsIs(s: seq<byte>, ch: nat, starts: seq<nat>, k: nat, repeats: bool)
    requires Placed(s, ch, starts) && 0 < k < |starts|
    requires repeats == IsSameColorInBuffer(s, ch, starts[k], starts[k - 1], 0)
    ensures repeats == Repeats(s, ch, starts, k)
  {
  }

  lemma AgreeingStep(s: seq<byte>, ch: nat, starts: seq<nat>, k: nat, j: nat, agrees: bool)
    requires Placed(s, ch, starts) && k <= j < |starts|
    requires agrees == (j == k || IsSameColorInBuffer(s, ch, starts[k], starts[j], 30))
    ensures Agreeing(s, ch, starts, k, k, j + 1) == Agreeing(s, ch, starts, k, k, j) + (if agrees then 1 else 0)
  {
  }

  /** The scan over the sorted window: the entry it settles on is `Chosen`
      of the vote counts. */
  method Vote(source: array<byte>, ch: nat, width: nat, window: array<int32>, indexes: array<int32>, coordinates: array<int32>,
              n: nat, bound: nat, ghost cells: seq<Cell>, ghost sorted: seq<Pair>, ghost starts: seq<nat>)
      returns (hi: nat)
    requires Layout(window[..], indexes[..], coordinates[..], n, cells, sorted) && n > 0
    requires starts == Starts(cells, sorted, width, ch) && Placed(source[..], ch, starts)
    ensures hi == Chosen(VoteList(source[..], ch, Keys(sorted), starts), bound)
  {
    LayoutDecodes(window[..], indexes[..], coordinates[..], n, cells, sorted, width, ch);
    hi := Scan(source, ch, width, window, indexes, coordinates, n, bound, starts, source[..], Keys(sorted));
  }

  /** The scan loop over entries `[0, n)` with grey levels `g`. */
  method Scan(source: array<byte>, ch: nat, width: nat, window: array<int32>, indexes: array<int32>, coordinates: array<int32>,
              n: nat, bound: nat, ghost starts: seq<nat>, ghost s: seq<byte>, ghost g: seq<int>)
      returns (hi: nat)
    requires Decodes(indexes[..], coordinates[..], n, width, ch, starts) && n > 0
    requires s == source[..] && Placed(s, ch, starts)
    requires |g| == n <= window.Length && forall i :: 0 <= i < n ==> window[i] as int == g[i]
    ensures hi == Chosen(VoteList(s, ch, g, starts), bound)
  {
    ghost var votes := VoteList(s, ch, g, starts);
    var j0, j1 := 0, 0;
    var hmax := 0;
    hi := 0;
    var k := 0;
    while k < n
      invariant 0 <= k <= n
      invariant j0 == (if k == 0 then 0 else k - 1)
      invariant j1 == (if k == 0 then 0 else RunEnd(g, k - 1))
      invariant (hmax, hi) == Best(votes, k)
      invariant forall j :: 0 <= j < k ==> votes[j] <= bound
    {
      if j0 < k {
        j0 := k;
      }
      var h;
      j1, h := ScanEntry(source, ch, width, window, indexes, coordinates, n, k, j0, j1, starts, s, g);
      VoteListAt(s, ch, g, starts, k);
      if h > hmax {
        hmax, hi := h, k;
        if h > bound {
          assert FirstAbove(votes, bound, 0) == k;
          return;
        }
      }
      k := k + 1;
    }
  }

  /** One pass of the scan loop: the end of entry `k`'s run of similar grey
      levels, and its votes (none when it repeats the entry before it). */
  method ScanEntry(source: array<byte>, ch: nat, width: nat, window: array<int32>, indexes: array<int32>,
                   coordinates: array<int32>, n: nat, k: nat, j0: nat, j1: nat,
                   ghost starts: seq<nat>, ghost s: seq<byte>, ghost g: seq<int>)
      returns (run: nat, h: nat)
    requires Decodes(indexes[..], coordinates[..], n, width, ch, starts) && k < n
    requires s == source[..] && Placed(s, ch, starts)
    requires |g| == n <= window.Length && forall i :: 0 <= i < n ==> window[i] as int == g[i]
    requires j0 == k && j1 == (if k == 0 then 0 else RunEnd(g, k - 1))
    ensures run == RunEnd(g, k)
    ensures h == Votes(s, ch, g, starts, k)
  {
    var start := Max(j0, j1);
    RunEndFrom(g, k, start);
    run := ExtendRun(window, n, k, start, g);
    h := EntryVotes(source, ch, width, indexes, coordinates, n, k, run, starts, s, g);
  }

  /** The votes of entry `k` whose run ends at `run`. */
  method EntryVotes(source: array<byte>, ch: nat, width: nat, indexes: array<int32>, coordinates: array<int32>,
                    n: nat, k: nat, run: nat, ghost starts: seq<nat>, ghost s: seq<byte>, ghost g: seq<int>)
      returns (h: nat)
    requires Decodes(indexes[..], coordinates[..], n, width, ch, starts) && k < n
    requires s == source[..] && Placed(s, ch, starts)
    requires |g| == n && run == RunEnd(g, k)
    ensures h == Votes(s, ch, g, starts, k)
  {
    var d1 := StartOf(width, ch, indexes, coordinates, k, n, starts);
    var repeats := false;
    if k > 0 {
      repeats := SameColorEntries(source, ch, width, indexes, coordinates, d1, k - 1, 0, n, starts, s);
      RepeatsIs(s, ch, starts, k, repeats);
    }
    if repeats {
      h := 0;
    } else {
      h := CountAgreeing(source, ch, width, indexes, coordinates, k, run, n, starts, s);
    }
  }

  /** The colour `Background` writes to channel `c` of pixel (x, y). */
  function BackgroundValue(s: seq<byte>, gray: seq<byte>, w: nat, h: nat, ch: nat, ws: nat, y: nat, x: nat, c: nat): byte
    requires |gray| >= h * w && |s| >= h * w * ch
    requires ws >= 1 && y < h && x < w && c < ch
  {
    var p := BackgroundCell(s, gray, w, h, ch, ws, y, x);
    InImage(p.row, p.col, c, w, h, ch);
    s[Offset(p.row, p.col, c, w, ch)]
  }

  /** One output pixel: gather, sort, vote, copy. */
  method BackgroundPixel(width: nat, height: nat, source: array<byte>, ch: nat, grayscale: array<byte>,
                         background: array<byte>, ws: nat, y: nat, x: nat,
                         window: array<int32>, indexes: array<int32>, coordinates: array<int32>,
                         windowBuffer: array<int32>, indexesBuffer: array<int32>)
    requires ws >= 1 && y < height && x < width && height <= IntMax && width <= IntMax && Times(ws, ws) <= IntMax
    requires source.Length >= height * width * ch && grayscale.Length >= height * width
    requires background.Length >= height * width * ch
    requires source != background && grayscale != background
    requires window.Length >= Times(ws, ws) && indexes.Length >= Times(ws, ws) && coordinates.Length >= 2 * Times(ws, ws)
    requires windowBuffer.Length >= Times(ws, ws) && indexesBuffer.Length >= Times(ws, ws)
    requires window != indexes && window != coordinates && window != windowBuffer && window != indexesBuffer
    requires indexes != coordinates && indexes != windowBuffer && indexes != indexesBuffer
    requires coordinates != windowBuffer && coordinates != indexesBuffer && windowBuffer != indexesBuffer
    modifies window, indexes, coordinates, windowBuffer, indexesBuffer, background
    ensures forall c :: 0 <= c < ch ==>
      0 <= Offset(y, x, c, width, ch) < background.Length &&
      background[Offset(y, x, c, width, ch)] == BackgroundValue(source[..], grayscale[..], width, height, ch, ws, y, x, c)
    ensures forall k :: 0 <= k < background.Length && !(Offset(y, x, 0, width, ch) <= k < Offset(y, x, ch, width, ch)) ==>
      background[k] == old(background[k])
  {
    ghost var s := source[..];
    var n := SortedGather(width, height, grayscale, ws, y, x, window, indexes, coordinates, windowBuffer, indexesBuffer);
    var y3, x3 := ChooseCell(width, height, source, ch, grayscale, ws, y, x, window, indexes, coordinates, n);
    CopyPixel(width, height, source, ch, background, y, x, y3, x3);
    assert source[..] == s;
  }

  /** The vote over the gathered, sorted window picks `BackgroundCell`. */
  method ChooseCell(width: nat, height: nat, source: array<byte>, ch: nat, grayscale: array<byte>, ws: nat, y: nat, x: nat,
                    window: array<int32>, indexes: array<int32>, coordinates: array<int32>, n: nat)
      returns (y3: nat, x3: nat)
    requires ws >= 1 && y < height && x < width && Times(ws, ws) <= IntMax && n > 0
    requires source.Length >= height * width * ch && grayscale.Length >= height * width
    requires Layout(window[..], indexes[..], coordinates[..], n, WindowCells(width, height, ws, y, x, ws),
                    SortedWindow(grayscale[..], width, height, ws, y, x))
    ensures Cell(y3, x3) == BackgroundCell(source[..], grayscale[..], width, height, ch, ws, y, x)
  {
    ghost var s, gray := source[..], grayscale[..];
    ghost var cells := WindowCells(width, height, ws, y, x, ws);
    ghost var sorted := SortedWindow(gray, width, height, ws, y, x);
    WindowCellsIn(width, height, ws, y, x, ws);
    ghost var starts := Starts(cells, sorted, width, ch);
    StartsPlaced(s, cells, sorted, width, height, ch);
    var hi := Vote(source, ch, width, window, indexes, coordinates, n, Times(ws, ws) / 2, cells, sorted, starts);
    y3, x3 := ReadCell(window, indexes, coordinates, n, hi, cells, sorted);
    BackgroundCellIs(s, gray, width, height, ch, ws, y, x, cells, sorted, starts, hi);
  }

  /** The cell stored for sorted entry `k`. */
  method ReadCell(window: array<int32>, indexes: array<int32>, coordinates: array<int32>, n: nat, k: nat,
                  ghost cells: seq<Cell>, ghost sorted: seq<Pair>) returns (y3: nat, x3: nat)
    requires Layout(window[..], indexes[..], coordinates[..], n, cells, sorted) && k < n
    ensures sorted[k].tag < |cells| && Cell(y3, x3) == cells[sorted[k].tag]
  {
    LayoutCell(window[..], indexes[..], coordinates[..], n, cells, sorted, k);
    var i3 := indexes[k] as int;
    y3, x3 := coordinates[2 * i3] as nat, coordinates[2 * i3 + 1] as nat;
  }

  /** The coordinates stored for sorted entry `k` are its cell's. */
  lemma LayoutCell(window: seq<int32>, indexes: seq<int32>, coordinates: seq<int32>, n: nat,
                   cells: seq<Cell>, sorted: seq<Pair>, k: nat)
    requires Layout(window, indexes, coordinates, n, cells, sorted) && k < n
    ensures 0 <= indexes[k] as int < n && 2 * (indexes[k] as int) + 1 < |coordinates|
    ensures coordinates[2 * (indexes[k] as int)] as int == cells[sorted[k].tag].row >= 0
    ensures coordinates[2 * (indexes[k] as int) + 1] as int == cells[sorted[k].tag].col >= 0
  {
    var i := sorted[k].tag;
    assert indexes[k] as int == i && 0 <= i < n;
  }

  /** The gathered window, sorted by grey level: `Layout` of the sorted
      window of (x, y), which is never empty. */
  method SortedGather(width: nat, height: nat, grayscale: array<byte>, ws: nat, y: nat, x: nat,
                      window: array<int32>, indexes: array<int32>, coordinates: array<int32>,
                      windowBuffer: array<int32>, indexesBuffer: array<int32>) returns (n: nat)
    requires ws >= 1 && y < height && x < width && height <= IntMax && width <= IntMax && Times(ws, ws) <= IntMax
    requires grayscale.Length >= height * width
    requires window.Length >= Times(ws, ws) && indexes.Length >= Times(ws, ws) && coordinates.Length >= 2 * Times(ws, ws)
    requires windowBuffer.Length >= Times(ws, ws) && indexesBuffer.Length >= Times(ws, ws)
    requires window != indexes && window != coordinates && window != windowBuffer && window != indexesBuffer
    requires indexes != coordinates && indexes != windowBuffer && indexes != indexesBuffer
    requires coordinates != windowBuffer && coordinates != indexesBuffer && windowBuffer != indexesBuffer
    modifies window, indexes, coordinates, windowBuffer, indexesBuffer
    ensures n > 0
    ensures Layout(window[..], indexes[..], coordinates[..], n, WindowCells(width, height, ws, y, x, ws),
                   SortedWindow(grayscale[..], width, height, ws, y, x))
  {
    ghost var gray := grayscale[..];
    ghost var cells := WindowCells(width, height, ws, y, x, ws);
    n := Gather(width, height, grayscale, ws, y, x, window, indexes, coordinates);
    CentreGathered(width, height, ws, y, x);
    WindowCellsIn(width, height, ws, y, x, ws);
    ghost var keys := GreyKeys(gray, width, height, cells);
    ghost var window0, indexes0 := window[..], indexes[..];
    HoldsZip(window0, indexes0, coordinates[..], gray, width, height, cells);
    SortGathered(window, indexes, windowBuffer, indexesBuffer, n, Zip(keys, Range(n)));
    SortedLayout(window0, indexes0, window[..], indexes[..], coordinates[..], gray, width, height, ws, y, x);
  }

  /** Sorting the gathering by grey level lays out the sorted window. */
  lemma SortedLayout(window0: seq<int32>, indexes0: seq<int32>, window: seq<int32>, indexes: seq<int32>,
                     coordinates: seq<int32>, gray: seq<byte>, w: nat, h: nat, ws: nat, y: nat, x: nat)
    requires |gray| >= h * w
    requires Holds(window0, indexes0, coordinates, gray, w, h, WindowCells(w, h, ws, y, x, ws))
    requires |window| == |window0| && |indexes| == |indexes0|
    requires var cells := WindowCells(w, h, ws, y, x, ws);
      var input := Zip(GreyKeys(gray, w, h, cells), Range(|cells|));
      forall k :: 0 <= k < |cells| ==>
        window[k] as int == SortPairs(input)[k].key && indexes[k] as int == SortPairs(input)[k].tag
    ensures Layout(window, indexes, coordinates, |WindowCells(w, h, ws, y, x, ws)|, WindowCells(w, h, ws, y, x, ws),
                   SortedWindow(gray, w, h, ws, y, x))
  {
  }

  /** The gathered entries, as (grey level, tag) pairs. */
  lemma HoldsZip(window: seq<int32>, indexes: seq<int32>, coordinates: seq<int32>,
                 gray: seq<byte>, w: nat, h: nat, cells: seq<Cell>)
    requires Holds(window, indexes, coordinates, gray, w, h, cells) && |gray| >= h * w
    ensures Zip(window[0..|cells|], indexes[0..|cells|]) == Zip(GreyKeys(gray, w, h, cells), Range(|cells|))
  {
  }

  /** `Sort` on the first `n` entries, read back entry by entry. */
  method SortGathered(window: array<int32>, indexes: array<int32>, windowBuffer: array<int32>, indexesBuffer: array<int32>,
                      n: nat, ghost input: seq<Pair>)
    requires n <= window.Length && n <= indexes.Length && n <= windowBuffer.Length && n <= indexesBuffer.Length
    requires window != indexes && window != windowBuffer && window != indexesBuffer
    requires indexes != windowBuffer && indexes != indexesBuffer && windowBuffer != indexesBuffer
    requires Zip(window[0..n], indexes[0..n]) == input
    modifies window, indexes, windowBuffer, indexesBuffer
    ensures |SortPairs(input)| == n
    ensures forall k :: 0 <= k < n ==> window[k] as int == SortPairs(input)[k].key && indexes[k] as int == SortPairs(input)[k].tag
  {
    Sort(window, indexes, windowBuffer, indexesBuffer, 0, n);
    forall k | 0 <= k < n ensures window[k] as int == SortPairs(input)[k].key && indexes[k] as int == SortPairs(input)[k].tag {
      assert Zip(window[0..n], indexes[0..n])[k] == Pair(window[k] as int, indexes[k] as int);
    }
  }

  /** Copies the channels of source pixel (x3, y3) to pixel (x, y). */
  method CopyPixel(width: nat, height: nat, source: array<byte>, ch: nat, background: array<byte>,
                   y: nat, x: nat, y3: nat, x3: nat)
    requires y < height && x < width && y3 < height && x3 < width && source != background
    requires source.Length >= height * width * ch && background.Length >= height * width * ch
    modifies background
    ensures forall c :: 0 <= c < ch ==>
      0 <= Offset(y, x, c, width, ch) < background.Length && 0 <= Offset(y3, x3, c, width, ch) < source.Length &&
      background[Offset(y, x, c, width, ch)] == source[Offset(y3, x3, c, width, ch)]
    ensures forall k :: 0 <= k < background.Length && !(Offset(y, x, 0, width, ch) <= k < Offset(y, x, ch, width, ch)) ==>
      background[k] == old(background[k])
  {
    var dc := Offset(y, x, 0, width, ch);
    var d3 := Offset(y3, x3, 0, width, ch);
    var c := 0;
    while c < ch
      invariant 0 <= c <= ch
      invariant forall cc :: 0 <= cc < c ==>
        0 <= Offset(y, x, cc, width, ch) < background.Length && 0 <= Offset(y3, x3, cc, width, ch) < source.Length &&
        background[Offset(y, x, cc, width, ch)] == source[Offset(y3, x3, cc, width, ch)]
      invariant forall k :: 0 <= k < background.Length && !(dc <= k < dc + c) ==> background[k] == old(background[k])
    {
      InImage(y, x, c, width, height, ch);
      InImage(y3, x3, c, width, height, ch);
      background[dc + c] := source[d3 + c];
      c := c + 1;
    }
  }

  /** The colour `Background` writes at flat index `d` of the output: the
      `BackgroundValue` of the pixel and channel `d` decodes to. */
  function BackgroundAt(s: seq<byte>, gray: seq<byte>, w: nat, h: nat, ch: nat, ws: nat, d: int): byte
    requires |gray| >= h * w && |s| >= h * w * ch && ws >= 1 && 0 <= d < h * w * ch
  {
    Encode(d, w, h, ch);
    BackgroundValue(s, gray, w, h, ch, ws, RowOf(d, w, ch), ColOf(d, w, ch), ChanOf(d, ch))
  }

  /** At the offset of channel `c` of pixel (x, y) that is that pixel's colour. */
  lemma BackgroundAtPixel(s: seq<byte>, gray: seq<byte>, w: nat, h: nat, ch: nat, ws: nat, y: nat, x: nat, c: nat)
    requires |gray| >= h * w && |s| >= h * w * ch && ws >= 1 && y < h && x < w && c < ch
    ensures 0 <= Offset(y, x, c, w, ch) < h * w * ch
    ensures BackgroundAt(s, gray, w, h, ch, ws, Offset(y, x, c, w, ch)) == BackgroundValue(s, gray, w, h, ch, ws, y, x, c)
  {
    InImage(y, x, c, w, h, ch);
    Decode(y, x, c, w, ch);
  }

  /** The whole background image, entry by entry. */
  ghost function BackgroundImage(s: seq<byte>, gray: seq<byte>, w: nat, h: nat, ch: nat, ws: nat): (r: seq<byte>)
    requires |gray| >= h * w && |s| >= h * w * ch && ws >= 1
    ensures |r| == h * w * ch
  {
    seq(h * w * ch, d requires 0 <= d < h * w * ch => BackgroundAt(s, gray, w, h, ch, ws, d))
  }

  /** `t` holds, at the offset of every channel of every pixel, that pixel's
      background colour. */
  ghost predicate Paints(t: seq<byte>, s: seq<byte>, gray: seq<byte>, w: nat, h: nat, ch: nat, ws: nat)
    requires |gray| >= h * w && |s| >= h * w * ch && ws >= 1
  {
    |t| == h * w * ch &&
    forall y, x, c {:trigger t[Offset(y, x, c, w, ch)]} :: 0 <= y < h && 0 <= x < w && 0 <= c < ch ==>
      0 <= Offset(y, x, c, w, ch) < |t| && t[Offset(y, x, c, w, ch)] == BackgroundValue(s, gray, w, h, ch, ws, y, x, c)
  }

  lemma ImagePaints(s: seq<byte>, gray: seq<byte>, w: nat, h: nat, ch: nat, ws: nat)
    requires |gray| >= h * w && |s| >= h * w * ch && ws >= 1
    ensures Paints(BackgroundImage(s, gray, w, h, ch, ws), s, gray, w, h, ch, ws)
  {
    var t := BackgroundImage(s, gray, w, h, ch, ws);
    forall y, x, c | 0 <= y < h && 0 <= x < w && 0 <= c < ch
      ensures 0 <= Offset(y, x, c, w, ch) < |t| && t[Offset(y, x, c, w, ch)] == BackgroundValue(s, gray, w, h, ch, ws, y, x, c)
    {
      BackgroundAtPixel(s, gray, w, h, ch, ws, y, x, c);
    }
  }

  /** There is an image that paints every pixel: `BackgroundImage`. */
  lemma Target(s: seq<byte>, gray: seq<byte>, w: nat, h: nat, ch: nat, ws: nat) returns (t: seq<byte>)
    requires |gray| >= h * w && |s| >= h * w * ch && ws >= 1
    ensures Paints(t, s, gray, w, h, ch, ws)
  {
    t := BackgroundImage(s, gray, w, h, ch, ws);
    ImagePaints(s, gray, w, h, ch, ws);
  }

  /** The first `n` entries of `b` are those of the target `t`. */
  ghost predicate Finished(b: seq<byte>, t: seq<byte>, n: int)
  {
    0 <= n <= |t| && n <= |b| && forall d :: 0 <= d < n ==> b[d] == t[d]
  }

  /** A finished image gives every pixel its background colour. */
  lemma BackgroundDone(b: seq<byte>, t: seq<byte>, s: seq<byte>, gray: seq<byte>, w: nat, h: nat, ch: nat, ws: nat)
    requires |gray| >= h * w && |s| >= h * w * ch && ws >= 1
    requires Paints(t, s, gray, w, h, ch, ws) && Finished(b, t, h * w * ch)
    ensures forall y, x, c :: 0 <= y < h && 0 <= x < w && 0 <= c < ch ==>
      0 <= Offset(y, x, c, w, ch) < |b| && b[Offset(y, x, c, w, ch)] == BackgroundValue(s, gray, w, h, ch, ws, y, x, c)
  {
    forall y, x, c | 0 <= y < h && 0 <= x < w && 0 <= c < ch
      ensures 0 <= Offset(y, x, c, w, ch) < |b| && b[Offset(y, x, c, w, ch)] == BackgroundValue(s, gray, w, h, ch, ws, y, x, c)
    {
      InImage(y, x, c, w, h, ch);
      assert t[Offset(y, x, c, w, ch)] == BackgroundValue(s, gray, w, h, ch, ws, y, x, c);
    }
  }

  /** The background image: every pixel of the output receives the colour of
      its `BackgroundCell`, and the entries past the image are left alone. */
  method Background(width: nat, height: nat, source: array<byte>, ch: nat, grayscale: array<byte>,
                    background: array<byte>, ws: nat)
    requires ws >= 1 && height <= IntMax && width <= IntMax && Times(ws, ws) <= IntMax
    requires source.Length >= height * width * ch && grayscale.Length >= height * width
    requires background.Length >= height * width * ch
    requires source != background && grayscale != background
    modifies background
    ensures forall y, x, c :: 0 <= y < height && 0 <= x < width && 0 <= c < ch ==>
      0 <= Offset(y, x, c, width, ch) < background.Length &&
      background[Offset(y, x, c, width, ch)] == BackgroundValue(source[..], grayscale[..], width, height, ch, ws, y, x, c)
    ensures forall k :: height * width * ch <= k < background.Length ==> background[k] == old(background[k])
  {
    ghost var s, gray := source[..], grayscale[..];
    ghost var t := Target(s, gray, width, height, ch, ws);
    var window, indexes, coordinates, windowBuffer, indexesBuffer := Buffers(Times(ws, ws));
    RowStart(height, width, ch);
    var y := 0;
    while y < height
      invariant 0 <= y <= height
      invariant Finished(background[..], t, Offset(y, 0, 0, width, ch))
      invariant forall k :: Offset(y, 0, 0, width, ch) <= k < background.Length ==> background[k] == old(background[k])
    {
      RowBounds(y, 0, width, height, ch);
      BackgroundRow(width, height, source, ch, grayscale, background, ws, y,
                    window, indexes, coordinates, windowBuffer, indexesBuffer, s, gray, t);
      y := y + 1;
    }
    BackgroundDone(background[..], t, s, gray, width, height, ch, ws);
  }

  /** The scratch space `Background` allocates once: grey levels, tags and
      coordinates of a window of `m` cells, and the two sort buffers. */
  method Buffers(m: nat) returns (window: array<int32>, indexes: array<int32>, coordinates: array<int32>,
                                  windowBuffer: array<int32>, indexesBuffer: array<int32>)
    ensures fresh(window) && fresh(indexes) && fresh(coordinates) && fresh(windowBuffer) && fresh(indexesBuffer)
    ensures window.Length == m && indexes.Length == m && coordinates.Length == 2 * m
    ensures windowBuffer.Length == m && indexesBuffer.Length == m
    ensures window != indexes && window != coordinates && window != windowBuffer && window != indexesBuffer
    ensures indexes != coordinates && indexes != windowBuffer && indexes != indexesBuffer
    ensures coordinates != windowBuffer && coordinates != indexesBuffer && windowBuffer != indexesBuffer
  {
    window := new int32[m];
    indexes := new int32[m];
    coordinates := new int32[2 * m];
    windowBuffer := new int32[m];
    indexesBuffer := new int32[m];
  }

  /** Row `y` of `Background`. */
  method BackgroundRow(width: nat, height: nat, source: array<byte>, ch: nat, grayscale: array<byte>,
                       background: array<byte>, ws: nat, y: nat,
                       window: array<int32>, indexes: array<int32>, coordinates: array<int32>,
                       windowBuffer: array<int32>, indexesBuffer: array<int32>,
                       ghost s: seq<byte>, ghost gray: seq<byte>, ghost t: seq<byte>)
    requires ws >= 1 && y < height && height <= IntMax && width <= IntMax && Times(ws, ws) <= IntMax
    requires s == source[..] && gray == grayscale[..]
    requires source.Length >= height * width * ch && grayscale.Length >= height * width
    requires background.Length >= height * width * ch
    requires source != background && grayscale != background
    requires window.Length >= Times(ws, ws) && indexes.Length >= Times(ws, ws) && coordinates.Length >= 2 * Times(ws, ws)
    requires windowBuffer.Length >= Times(ws, ws) && indexesBuffer.Length >= Times(ws, ws)
    requires window != indexes && window != coordinates && window != windowBuffer && window != indexesBuffer
    requires indexes != coordinates && indexes != windowBuffer && indexes != indexesBuffer
    requires coordinates != windowBuffer && coordinates != indexesBuffer && windowBuffer != indexesBuffer
    requires Paints(t, s, gray, width, height, ch, ws)
    requires Finished(background[..], t, Offset(y, 0, 0, width, ch))
    modifies window, indexes, coordinates, windowBuffer, indexesBuffer, background
    ensures Finished(background[..], t, Offset(y + 1, 0, 0, width, ch))
    ensures forall k :: Offset(y + 1, 0, 0, width, ch) <= k < background.Length ==> background[k] == old(background[k])
  {
    var x := 0;
    while x < width
      invariant 0 <= x <= width
      invariant Finished(background[..], t, Offset(y, x, 0, width, ch))
      invariant forall k :: Offset(y, x, 0, width, ch) <= k < background.Length ==> background[k] == old(background[k])
    {
      ExtendBackground(width, height, source, ch, grayscale, background, ws, y, x,
                       window, indexes, coordinates, windowBuffer, indexesBuffer, s, gray, t);
      x := x + 1;
    }
    NextPixel(y, 0, width, ch);
  }

  /** `BackgroundPixel` for (x, y) extends the finished prefix by that pixel. */
  method ExtendBackground(width: nat, height: nat, source: array<byte>, ch: nat, grayscale: array<byte>,
                          background: array<byte>, ws: nat, y: nat, x: nat,
                          window: array<int32>, indexes: array<int32>, coordinates: array<int32>,
                          windowBuffer: array<int32>, indexesBuffer: array<int32>,
                          ghost s: seq<byte>, ghost gray: seq<byte>, ghost t: seq<byte>)
    requires ws >= 1 && y < height && x < width && height <= IntMax && width <= IntMax && Times(ws, ws) <= IntMax
    requires s == source[..] && gray == grayscale[..]
    requires source.Length >= height * width * ch && grayscale.Length >= height * width
    requires background.Length >= height * width * ch
    requires source != background && grayscale != background
    requires window.Length >= Times(ws, ws) && indexes.Length >= Times(ws, ws) && coordinates.Length >= 2 * Times(ws, ws)
    requires windowBuffer.Length >= Times(ws, ws) && indexesBuffer.Length >= Times(ws, ws)
    requires window != indexes && window != coordinates && window != windowBuffer && window != indexesBuffer
    requires indexes != coordinates && indexes != windowBuffer && indexes != indexesBuffer
    requires coordinates != windowBuffer && coordinates != indexesBuffer && windowBuffer != indexesBuffer
    requires Paints(t, s, gray, width, height, ch, ws)
    requires Finished(background[..], t, Offset(y, x, 0, width, ch))
    modifies window, indexes, coordinates, windowBuffer, indexesBuffer, background
    ensures Finished(background[..], t, Offset(y, x + 1, 0, width, ch))
    ensures forall k :: Offset(y, x + 1, 0, width, ch) <= k < background.Length ==> background[k] == old(background[k])
  {
    ghost var before := background[..];
    BackgroundPixel(width, height, source, ch, grayscale, background, ws, y, x,
                    window, indexes, coordinates, windowBuffer, indexesBuffer);
    PixelPaint(background[..], t, s, gray, width, height, ch, ws, y, x);
    PixelDone(before, background[..], t, width, height, ch, y, x);
  }

  /** The prefix up to pixel (x, y) was finished and only that pixel's
      channels changed, to its background colour: the prefix now takes in
      the pixel. */
  lemma PixelDone(b0: seq<byte>, b1: seq<byte>, t: seq<byte>, w: nat, h: nat, ch: nat, y: nat, x: nat)
    requires y < h && x < w && |b0| == |b1| >= h * w * ch && |t| == h * w * ch
    requires Finished(b0, t, Offset(y, x, 0, w, ch))
    requires forall c :: 0 <= c < ch ==>
      0 <= Offset(y, x, c, w, ch) < |b1| && Offset(y, x, c, w, ch) < |t| && b1[Offset(y, x, c, w, ch)] == t[Offset(y, x, c, w, ch)]
    requires forall k :: 0 <= k < |b1| && !(Offset(y, x, 0, w, ch) <= k < Offset(y, x, ch, w, ch)) ==> b1[k] == b0[k]
    ensures Finished(b1, t, Offset(y, x + 1, 0, w, ch))
    ensures forall k :: Offset(y, x + 1, 0, w, ch) <= k < |b1| ==> b1[k] == b0[k]
  {
    NextPixel(y, x, w, ch);
    RowBounds(y, x + 1, w, h, ch);
    PixelFlat(b1, t, w, ch, y, x);
    PrefixGrows(b0, b1, t, Offset(y, x, 0, w, ch), Offset(y, x + 1, 0, w, ch));
  }

  /** The channels of pixel (x, y), written as its background colour, are
      those of the target. */
  lemma PixelPaint(b: seq<byte>, t: seq<byte>, s: seq<byte>, gray: seq<byte>, w: nat, h: nat, ch: nat, ws: nat, y: nat, x: nat)
    requires |gray| >= h * w && |s| >= h * w * ch && ws >= 1 && y < h && x < w
    requires Paints(t, s, gray, w, h, ch, ws)
    requires forall c :: 0 <= c < ch ==>
      0 <= Offset(y, x, c, w, ch) < |b| && b[Offset(y, x, c, w, ch)] == BackgroundValue(s, gray, w, h, ch, ws, y, x, c)
    ensures forall c :: 0 <= c < ch ==>
      0 <= Offset(y, x, c, w, ch) < |b| && Offset(y, x, c, w, ch) < |t| && b[Offset(y, x, c, w, ch)] == t[Offset(y, x, c, w, ch)]
  {
    forall c | 0 <= c < ch
      ensures 0 <= Offset(y, x, c, w, ch) < |b| && Offset(y, x, c, w, ch) < |t| && b[Offset(y, x, c, w, ch)] == t[Offset(y, x, c, w, ch)]
    {
      InImage(y, x, c, w, h, ch);
      assert t[Offset(y, x, c, w, ch)] == BackgroundValue(s, gray, w, h, ch, ws, y, x, c);
    }
  }

  /** The channels of pixel (x, y) are the entries `[Offset(y, x, 0), Offset(y, x + 1, 0))`. */
  lemma PixelFlat(b: seq<byte>, t: seq<byte>, w: nat, ch: nat, y: nat, x: nat)
    requires forall c :: 0 <= c < ch ==>
      0 <= Offset(y, x, c, w, ch) < |b| && Offset(y, x, c, w, ch) < |t| && b[Offset(y, x, c, w, ch)] == t[Offset(y, x, c, w, ch)]
    requires Offset(y, x + 1, 0, w, ch) <= |b| && Offset(y, x + 1, 0, w, ch) <= |t|
    ensures forall d :: Offset(y, x, 0, w, ch) <= d < Offset(y, x + 1, 0, w, ch) ==> b[d] == t[d]
  {
    NextPixel(y, x, w, ch);
    forall d | Offset(y, x, 0, w, ch) <= d < Offset(y, x + 1, 0, w, ch) ensures b[d] == t[d] {
      ChannelAt(y, x, d, w, ch);
      var c := d - Offset(y, x, 0, w, ch);
      assert b[Offset(y, x, c, w, ch)] == t[Offset(y, x, c, w, ch)];
    }
  }

  /** A position inside a pixel's run of entries is one of its channels. */
  lemma ChannelAt(y: nat, x: nat, d: int, w: nat, ch: nat)
    requires Offset(y, x, 0, w, ch) <= d < Offset(y, x, ch, w, ch)
    ensures 0 <= d - Offset(y, x, 0, w, ch) < ch && Offset(y, x, d - Offset(y, x, 0, w, ch), w, ch) == d
  {
  }

  /** Finishing the entries `[p, q)` right after a finished prefix of `p`
      entries gives a finished prefix of `q` entries. */
  lemma PrefixGrows(b0: seq<byte>, b1: seq<byte>, t: seq<byte>, p: nat, q: nat)
    requires Finished(b0, t, p) && p <= q <= |t| && |b0| == |b1| && q <= |b1|
    requires forall d :: p <= d < q ==> b1[d] == t[d]
    requires forall k :: 0 <= k < |b1| && !(p <= k < q) ==> b1[k] == b0[k]
    ensures Finished(b1, t, q)
  {
    forall d | 0 <= d < q ensures b1[d] == t[d] {
      if d < p {
        assert b1[d] == b0[d];
      }
    }
  }
}
