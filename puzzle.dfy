/**
 * `JigsawGenerator.create_puzzle_pieces`: cut the working square into a
 * grid of equal cells in row-major order, copy and shuffle the piece list,
 * and number the pieces by their place in the shuffled list.
 */
module Puzzle {
  import opened Wrappers
  import opened Imaging
  import DataUri

  /** Python's `a // b`: the quotient rounded towards minus infinity. */
  function FloorDiv(a: int, b: int): (q: int)
    requires b != 0
    ensures b > 0 ==> q * b <= a < q * b + b
    ensures b < 0 ==> q * b + b < a <= q * b
  {
    if b > 0 then a / b else (-a) / (-b)
  }

  /** `piece_size = 400 // grid_size` */
  function PieceSize(gridSize: int): (s: int)
    requires gridSize != 0
    ensures gridSize > 0 ==> s * gridSize <= Size < s * gridSize + gridSize
    ensures gridSize > Size ==> s == 0
  {
    FloorDiv(Size, gridSize)
  }

  /** `len(pieces)`: `range` of a negative grid size is empty. */
  function PieceCount(gridSize: int): (n: nat) {
    if gridSize > 0 then gridSize * gridSize else 0
  }

  /** What one piece records: its number, its cell and its crop box. */
  datatype Cell = Cell(id: int, row: int, col: int, box: Rect, correctPosition: int)

  /** The cell the loop body produces at (row, col). */
  function CellAt(gridSize: int, row: int, col: int): (c: Cell)
    requires gridSize != 0
    ensures c.row == row && c.col == col && c.id == c.correctPosition
    ensures c.box.right - c.box.left == c.box.bottom - c.box.top == PieceSize(gridSize)
  {
    var pieceSize := PieceSize(gridSize);
    var left := col * pieceSize;
    var top := row * pieceSize;
    Cell(row * gridSize + col, row, col, Rect(left, top, left + pieceSize, top + pieceSize), row * gridSize + col)
  }

  /** The cells in the order the nested loops visit them. */
  function Layout(gridSize: int): (cells: seq<Cell>)
    requires gridSize != 0
  {
    if gridSize < 0 then []
    else seq(gridSize * gridSize, k requires 0 <= k < gridSize * gridSize => CellAt(gridSize, k / gridSize, k % gridSize))
  }

  lemma MulNonNegative(m: int, n: int)
    requires m >= 0 && n >= 0
    ensures m * n >= 0
  {
  }

  lemma MulLe(a: int, b: int, c: int)
    requires a <= b && c >= 0
    ensures a * c <= b * c
  {
    MulNonNegative(b - a, c);
    assert b * c - a * c == (b - a) * c;
  }

  /** Euclidean division is determined by its defining equation. */
  lemma DivUnique(a: int, g: int, q: int, r: int)
    requires g > 0 && 0 <= r < g && a == q * g + r
    ensures a / g == q && a % g == r
  {
    var q', r' := a / g, a % g;
    assert a == q' * g + r';
    if q' > q {
      assert (q + 1) * g == q * g + g;
      MulLe(q + 1, q', g);
    } else if q' < q {
      assert (q' + 1) * g == q' * g + g;
      MulLe(q' + 1, q, g);
    }
  }

  lemma DivModIndex(g: int, row: int, col: int)
    requires g > 0 && 0 <= col < g
    ensures (row * g + col) / g == row && (row * g + col) % g == col
  {
    DivUnique(row * g + col, g, row, col);
  }

  lemma IndexBelowSquare(g: int, k: int)
    requires g > 0 && 0 <= k < g * g
    ensures 0 <= k / g < g && 0 <= k % g < g && k == (k / g) * g + k % g
  {
    var q := k / g;
    assert k == q * g + k % g;
    if q >= g {
      MulLe(g, q, g);
    }
    if q < 0 {
      MulLe(q, -1, g);
    }
  }

  /** `len(pieces)` is grid_size squared, or zero when the grid size is negative. */
  lemma LayoutCount(gridSize: int)
    requires gridSize != 0
    ensures |Layout(gridSize)| == PieceCount(gridSize)
    ensures gridSize > 0 ==> |Layout(gridSize)| == gridSize * gridSize
  {
  }

  /** Piece k sits at row k / N, column k % N, and is numbered k both as `id` and `correct_position`. */
  lemma LayoutCell(gridSize: int, k: nat)
    requires gridSize != 0 && k < |Layout(gridSize)|
    ensures var c := Layout(gridSize)[k];
      && c.id == k && c.correctPosition == k
      && 0 <= c.row < gridSize && 0 <= c.col < gridSize
      && c.id == c.row * gridSize + c.col
  {
    IndexBelowSquare(gridSize, k);
  }

  /** The cells come row by row, left to right within a row. */
  lemma LayoutRowMajor(gridSize: int, k1: nat, k2: nat)
    requires gridSize != 0 && k1 < k2 < |Layout(gridSize)|
    ensures var c1, c2 := Layout(gridSize)[k1], Layout(gridSize)[k2];
      c1.row < c2.row || (c1.row == c2.row && c1.col < c2.col)
  {
    LayoutCell(gridSize, k1);
    LayoutCell(gridSize, k2);
    var c1, c2 := Layout(gridSize)[k1], Layout(gridSize)[k2];
    RowMajorOrder(gridSize, c1.row, c1.col, c2.row, c2.col);
  }

  lemma RowMajorOrder(g: int, r1: int, c1: int, r2: int, c2: int)
    requires 0 <= c1 < g && 0 <= c2 < g && r1 * g + c1 < r2 * g + c2
    ensures r1 < r2 || (r1 == r2 && c1 < c2)
  {
    if r1 > r2 {
      assert (r2 + 1) * g == r2 * g + g;
      MulLe(r2 + 1, r1, g);
    }
  }

  /** The ids of a list of cells, in list order. */
  function Ids(cells: seq<Cell>): (ids: seq<int>) {
    seq(|cells|, k requires 0 <= k < |cells| => cells[k].id)
  }

  /** `list(range(n))` */
  function Range(n: nat): (r: seq<int>) {
    seq(n, i requires 0 <= i < n => i)
  }

  /** The ids are exactly 0 .. N*N - 1, each once. */
  lemma LayoutIds(gridSize: int)
    requires gridSize != 0
    ensures Ids(Layout(gridSize)) == Range(PieceCount(gridSize))
    ensures forall k1, k2 :: 0 <= k1 < k2 < |Layout(gridSize)| ==> Layout(gridSize)[k1].id != Layout(gridSize)[k2].id
  {
    var cells := Layout(gridSize);
    forall k | 0 <= k < |cells|
      ensures cells[k].id == k
    {
      LayoutCell(gridSize, k);
    }
  }

  /** Span i of a 0-based row of g spans of width w lies within [0, g * w). */
  lemma SpanWithin(i: int, g: int, w: int)
    requires 0 <= i < g && w >= 0
    ensures 0 <= i * w && i * w + w <= g * w
  {
    MulNonNegative(i, w);
    assert (i + 1) * w == i * w + w;
    MulLe(i + 1, g, w);
  }

  /** Spans i < j of width w do not overlap. */
  lemma SpansApart(i: int, j: int, w: int)
    requires i < j && w >= 0
    ensures i * w + w <= j * w
  {
    assert (i + 1) * w == i * w + w;
    MulLe(i + 1, j, w);
  }

  /** The span of width w holding coordinate x < g * w is span x / w, the g-th or earlier. */
  lemma SpanOf(x: int, g: int, w: int)
    requires w > 0 && 0 <= x < g * w
    ensures 0 <= x / w < g && (x / w) * w <= x < (x / w) * w + w
  {
    var i := x / w;
    assert x == i * w + x % w;
    if i >= g {
      MulLe(g, i, w);
    }
  }

  lemma IndexInSquare(row: int, col: int, g: int)
    requires 0 <= row < g && 0 <= col < g
    ensures 0 <= row * g + col < g * g
  {
    SpanWithin(row, g, g);
  }

  /** Cell k's box, in terms of its row and column. */
  lemma LayoutBox(gridSize: int, k: nat)
    requires gridSize != 0 && k < |Layout(gridSize)|
    ensures gridSize > 0 && PieceSize(gridSize) >= 0 && gridSize * PieceSize(gridSize) <= Size
    ensures var c := Layout(gridSize)[k]; var ps := PieceSize(gridSize);
      && 0 <= c.row < gridSize && 0 <= c.col < gridSize
      && c.box == Rect(c.col * ps, c.row * ps, c.col * ps + ps, c.row * ps + ps)
  {
    LayoutCell(gridSize, k);
  }

  /** Each box is a square of side `400 // N` inside the working square. */
  lemma CellInside(gridSize: int, k: nat)
    requires gridSize != 0 && k < |Layout(gridSize)|
    ensures var b := Layout(gridSize)[k].box;
      && Inside(b)
      && b.right - b.left == PieceSize(gridSize) && b.bottom - b.top == PieceSize(gridSize)
  {
    LayoutBox(gridSize, k);
    var c := Layout(gridSize)[k];
    SpanWithin(c.col, gridSize, PieceSize(gridSize));
    SpanWithin(c.row, gridSize, PieceSize(gridSize));
  }

  /** Boxes of different pieces share no pixel. */
  lemma CellsDisjoint(gridSize: int, k1: nat, k2: nat)
    requires gridSize != 0 && k1 < |Layout(gridSize)| && k2 < |Layout(gridSize)| && k1 != k2
    ensures !Overlap(Layout(gridSize)[k1].box, Layout(gridSize)[k2].box)
  {
    LayoutBox(gridSize, k1);
    LayoutBox(gridSize, k2);
    LayoutCell(gridSize, k1);
    LayoutCell(gridSize, k2);
    var c1, c2 := Layout(gridSize)[k1], Layout(gridSize)[k2];
    var ps := PieceSize(gridSize);
    if c1.row < c2.row {
      SpansApart(c1.row, c2.row, ps);
    } else if c2.row < c1.row {
      SpansApart(c2.row, c1.row, ps);
    } else if c1.col < c2.col {
      SpansApart(c1.col, c2.col, ps);
    } else {
      SpansApart(c2.col, c1.col, ps);
    }
  }

  /** Left over at the right and at the bottom: `400 - N * (400 // N)`, which is `400 % N`. */
  lemma Margin(gridSize: int)
    requires gridSize > 0
    ensures Size - gridSize * PieceSize(gridSize) == Size % gridSize
    ensures 0 <= Size - gridSize * PieceSize(gridSize) < gridSize
  {
    assert Size == (Size / gridSize) * gridSize + Size % gridSize;
  }

  /**
   * A pixel of the working square lies in some box exactly when both its
   * coordinates are below N * (400 // N): the right and bottom strips of
   * `400 % N` pixels are never covered.
   */
  lemma Coverage(gridSize: int, x: int, y: int)
    requires gridSize > 0 && 0 <= x < Size && 0 <= y < Size
    ensures (exists k :: 0 <= k < |Layout(gridSize)| && Covers(Layout(gridSize)[k].box, x, y)) <==>
      x < gridSize * PieceSize(gridSize) && y < gridSize * PieceSize(gridSize)
  {
    var cells := Layout(gridSize);
    var ps := PieceSize(gridSize);
    if exists k :: 0 <= k < |cells| && Covers(cells[k].box, x, y) {
      var k :| 0 <= k < |cells| && Covers(cells[k].box, x, y);
      LayoutBox(gridSize, k);
      SpanWithin(cells[k].col, gridSize, ps);
      SpanWithin(cells[k].row, gridSize, ps);
    }
    if x < gridSize * ps && y < gridSize * ps {
      assert ps > 0;
      SpanOf(x, gridSize, ps);
      SpanOf(y, gridSize, ps);
      var col, row := x / ps, y / ps;
      IndexInSquare(row, col, gridSize);
      var k := row * gridSize + col;
      DivModIndex(gridSize, row, col);
      assert cells[k] == CellAt(gridSize, row, col);
      assert Covers(cells[k].box, x, y);
    }
  }

  /** With the route's grid of 6, pieces are 66 pixels wide and a 4-pixel strip is left over. */
  lemma RouteGridOfSix()
    ensures PieceSize(6) == 66 && Size - 6 * PieceSize(6) == 4 && PieceCount(6) == 36
  {
  }

  /**
   * One piece dictionary. Every key but `current_position` is written once,
   * when the piece is made; `current_position` is absent until the position
   * loop sets it.
   */
  class Piece {
    const id: int
    const row: int
    const col: int
    const data: string
    const correctPosition: int
    var currentPosition: Option<int>

    constructor (id: int, row: int, col: int, data: string, correctPosition: int)
      ensures this.id == id && this.row == row && this.col == col
      ensures this.data == data && this.correctPosition == correctPosition
      ensures currentPosition == None
    {
      this.id := id;
      this.row := row;
      this.col := col;
      this.data := data;
      this.correctPosition := correctPosition;
      currentPosition := None;
    }
  }

  /** The piece records cell c of `image`, its data being the crop encoded as a data URI. */
  predicate Shows(p: Piece, c: Cell, image: Image, png: Image -> string) {
    && p.id == c.id && p.row == c.row && p.col == c.col && p.correctPosition == c.correctPosition
    && p.data == DataUri.Wrap(png(Cropped(image, c.box)))
  }

  ghost predicate Distinct<T>(s: seq<T>) {
    forall i, j :: 0 <= i < j < |s| ==> s[i] != s[j]
  }

  lemma {:induction false} DistinctOnce<T>(s: seq<T>, x: T)
    requires Distinct(s)
    ensures multiset(s)[x] <= 1
    decreases |s|
  {
    if s != [] {
      assert s == [s[0]] + s[1..];
      DistinctOnce(s[1..], x);
      if s[0] == x {
        assert x !in s[1..];
      }
    }
  }

  /** Rearranging a list of distinct elements keeps them distinct. */
  lemma PermutationDistinct<T>(a: seq<T>, b: seq<T>)
    requires multiset(a) == multiset(b) && Distinct(a)
    ensures Distinct(b)
  {
    forall i, j | 0 <= i < j < |b|
      ensures b[i] != b[j]
    {
      if b[i] == b[j] {
        assert b == b[..i] + [b[i]] + b[i + 1..j] + [b[j]] + b[j + 1..];
        assert multiset(b)[b[i]] >= 2;
        DistinctOnce(a, b[i]);
      }
    }
  }

  /** Piece k records the cell at row k / N, column k % N. */
  predicate ShowsCells(pieces: seq<Piece>, gridSize: int, image: Image, png: Image -> string)
    requires gridSize != 0
  {
    forall k :: 0 <= k < |pieces| ==> Shows(pieces[k], CellAt(gridSize, k / gridSize, k % gridSize), image, png)
  }

  lemma AppendCell(pieces: seq<Piece>, p: Piece, gridSize: int, row: int, col: int, image: Image, png: Image -> string)
    requires gridSize > 0 && 0 <= col < gridSize && |pieces| == row * gridSize + col
    requires ShowsCells(pieces, gridSize, image, png)
    requires Shows(p, CellAt(gridSize, row, col), image, png)
    ensures ShowsCells(pieces + [p], gridSize, image, png)
  {
    DivModIndex(gridSize, row, col);
  }

  lemma CellsAreLayout(pieces: seq<Piece>, gridSize: int, image: Image, png: Image -> string)
    requires gridSize != 0 && |pieces| == PieceCount(gridSize)
    requires ShowsCells(pieces, gridSize, image, png)
    ensures |pieces| == |Layout(gridSize)|
    ensures forall k :: 0 <= k < |pieces| ==> Shows(pieces[k], Layout(gridSize)[k], image, png)
  {
  }

  /** The nested row/column loops: one fresh piece per cell, in row-major order. */
  method Partition(image: Image, gridSize: int, png: Image -> string) returns (pieces: seq<Piece>)
    requires gridSize != 0
    ensures |pieces| == |Layout(gridSize)|
    ensures forall k :: 0 <= k < |pieces| ==>
      Shows(pieces[k], Layout(gridSize)[k], image, png) && fresh(pieces[k]) && pieces[k].currentPosition == None
    ensures Distinct(pieces)
  {
    pieces := [];
    var pieceSize := FloorDiv(Size, gridSize);
    var row := 0;
    while row < gridSize
      invariant 0 <= row && (gridSize < 0 ==> row == 0) && (gridSize > 0 ==> row <= gridSize)
      invariant |pieces| == row * gridSize
      invariant ShowsCells(pieces, gridSize, image, png)
      invariant forall k :: 0 <= k < |pieces| ==> fresh(pieces[k]) && pieces[k].currentPosition == None
      invariant Distinct(pieces)
    {
      var col := 0;
      while col < gridSize
        invariant 0 <= col <= gridSize
        invariant |pieces| == row * gridSize + col
        invariant ShowsCells(pieces, gridSize, image, png)
        invariant forall k :: 0 <= k < |pieces| ==> fresh(pieces[k]) && pieces[k].currentPosition == None
        invariant Distinct(pieces)
      {
        var left := col * pieceSize;
        var top := row * pieceSize;
        var right := left + pieceSize;
        var bottom := top + pieceSize;
        var piece := Cropped(image, Rect(left, top, right, bottom));
        var pieceData := DataUri.Wrap(png(piece));
        var p := new Piece(row * gridSize + col, row, col, pieceData, row * gridSize + col);
        AppendCell(pieces, p, gridSize, row, col, image, png);
        pieces := pieces + [p];
        col := col + 1;
      }
      assert (row + 1) * gridSize == row * gridSize + gridSize;
      row := row + 1;
    }
    CellsAreLayout(pieces, gridSize, image, png);
  }

  /**
   * `random.shuffle(x)`: for i from len(x) - 1 down to 1, swap x[i] with
   * x[j] for a draw j below i + 1. `randbelow(n)` stands for the generator's
   * draw below n; a draw out of range is reduced modulo n.
   */
  method Shuffle<T>(a: array<T>, randbelow: nat -> nat)
    modifies a
    ensures multiset(a[..]) == old(multiset(a[..]))
  {
    var i := a.Length - 1;
    while i > 0
      invariant i < a.Length
      invariant multiset(a[..]) == old(multiset(a[..]))
    {
      var j := randbelow(i + 1) % (i + 1);
      a[i], a[j] := a[j], a[i];
      i := i - 1;
    }
  }

  /** `for i, piece in enumerate(shuffled_pieces): piece['current_position'] = i` */
  method AssignPositions(shuffled: seq<Piece>)
    requires Distinct(shuffled)
    modifies set k | 0 <= k < |shuffled| :: shuffled[k]
    ensures forall k :: 0 <= k < |shuffled| ==> shuffled[k].currentPosition == Some(k)
  {
    for i := 0 to |shuffled|
      invariant forall k :: 0 <= k < i ==> shuffled[k].currentPosition == Some(k)
    {
      shuffled[i].currentPosition := Some(i);
    }
  }

  /**
   * The two lists share their dictionaries, so once the shuffled list is
   * numbered every piece of the original list carries the index at which
   * the shuffled list holds it.
   */
  lemma OriginalPositions(pieces: seq<Piece>, shuffled: seq<Piece>)
    requires multiset(pieces) == multiset(shuffled)
    requires forall i :: 0 <= i < |shuffled| ==> shuffled[i].currentPosition == Some(i)
    ensures forall k :: 0 <= k < |pieces| ==>
      pieces[k].currentPosition.Some? &&
      0 <= pieces[k].currentPosition.value < |shuffled| &&
      shuffled[pieces[k].currentPosition.value] == pieces[k]
  {
    forall k | 0 <= k < |pieces|
      ensures pieces[k].currentPosition.Some? && 0 <= pieces[k].currentPosition.value < |shuffled|
      ensures shuffled[pieces[k].currentPosition.value] == pieces[k]
    {
      assert pieces[k] in multiset(shuffled);
      var i :| 0 <= i < |shuffled| && shuffled[i] == pieces[k];
    }
  }

  /** The `correct_position` values of a piece list, in list order. */
  function CorrectPositions(s: seq<Piece>): (positions: seq<int>) {
    seq(|s|, k requires 0 <= k < |s| => s[k].correctPosition)
  }

  lemma CorrectPositionsConcat(s: seq<Piece>, t: seq<Piece>)
    ensures CorrectPositions(s + t) == CorrectPositions(s) + CorrectPositions(t)
  {
  }

  /** Rearranging the pieces rearranges their correct positions the same way. */
  lemma {:induction false} PermutedPositions(a: seq<Piece>, b: seq<Piece>)
    requires multiset(a) == multiset(b)
    ensures multiset(CorrectPositions(a)) == multiset(CorrectPositions(b))
    decreases |a|
  {
    if a == [] {
      assert |b| == |multiset(b)| == 0;
    } else {
      var x := a[0];
      assert x in multiset(b);
      var i :| 0 <= i < |b| && b[i] == x;
      var front, back := b[..i], b[i + 1..];
      assert b == front + ([x] + back);
      assert a == [x] + a[1..];
      assert multiset(front + back) == multiset(b) - multiset{x};
      PermutedPositions(a[1..], front + back);
      CorrectPositionsConcat(front, [x] + back);
      CorrectPositionsConcat([x], back);
      CorrectPositionsConcat(front, back);
      CorrectPositionsConcat([x], a[1..]);
    }
  }

  /**
   * Whatever order the shuffle picks, the `correct_position` values of the
   * returned pieces are 0 .. N*N - 1, each exactly once.
   */
  lemma ShuffledPositions(gridSize: int, image: Image, png: Image -> string, pieces: seq<Piece>, shuffled: seq<Piece>)
    requires gridSize != 0 && |pieces| == |Layout(gridSize)|
    requires forall k :: 0 <= k < |pieces| ==> Shows(pieces[k], Layout(gridSize)[k], image, png)
    requires multiset(shuffled) == multiset(pieces)
    ensures multiset(CorrectPositions(shuffled)) == multiset(Range(PieceCount(gridSize)))
  {
    LayoutIds(gridSize);
    forall k | 0 <= k < |pieces|
      ensures CorrectPositions(pieces)[k] == Range(PieceCount(gridSize))[k]
    {
      LayoutCell(gridSize, k);
    }
    assert CorrectPositions(pieces) == Range(PieceCount(gridSize));
    PermutedPositions(shuffled, pieces);
  }

  /** The dictionary `create_puzzle_pieces` returns. */
  datatype PuzzleData = PuzzleData(pieces: seq<Piece>, originalImage: string, gridSize: int, totalPieces: int)

  /**
   * `create_puzzle_pieces(image_data, grid_size)`. `decode` stands for
   * base64 decoding, opening and resizing the stripped text (`None` for any
   * exception), `png` for saving a picture as PNG and base64-encoding it, and
   * `randbelow` for the shuffle's random draws. `pieces` is the unshuffled
   * list the function builds before copying it.
   */
  method CreatePuzzlePieces(imageData: string, gridSize: int, decode: string -> Option<Image>, png: Image -> string, randbelow: nat -> nat)
    returns (result: Option<PuzzleData>, ghost pieces: seq<Piece>)
    ensures result.None? <==> decode(DataUri.Strip(imageData)).None? || gridSize == 0
    ensures result.Some? ==>
      var image := decode(DataUri.Strip(imageData)).value;
      var puzzle := result.value;
      && |pieces| == |Layout(gridSize)| == PieceCount(gridSize)
      && (forall k :: 0 <= k < |pieces| ==> Shows(pieces[k], Layout(gridSize)[k], image, png) && fresh(pieces[k]))
      && multiset(puzzle.pieces) == multiset(pieces)
      && multiset(CorrectPositions(puzzle.pieces)) == multiset(Range(PieceCount(gridSize)))
      && (forall i :: 0 <= i < |puzzle.pieces| ==> puzzle.pieces[i].currentPosition == Some(i))
      && (forall k :: 0 <= k < |pieces| ==>
            pieces[k].currentPosition.Some? &&
            0 <= pieces[k].currentPosition.value < |puzzle.pieces| &&
            puzzle.pieces[pieces[k].currentPosition.value] == pieces[k])
      && puzzle.originalImage == DataUri.Wrap(png(image))
      && puzzle.gridSize == gridSize
      && puzzle.totalPieces == |pieces|
  {
    pieces := [];
    var stripped := DataUri.Strip(imageData);
    var decoded := decode(stripped);
    if decoded.None? || gridSize == 0 {
      return None, pieces;
    }
    var image := decoded.value;
    var list := Partition(image, gridSize, png);
    pieces := list;
    LayoutCount(gridSize);
    var copy := new Piece[|list|](k requires 0 <= k < |list| => list[k]);
    assert copy[..] == list;
    Shuffle(copy, randbelow);
    var shuffled := copy[..];
    PermutationDistinct(list, shuffled);
    forall i | 0 <= i < |shuffled|
      ensures fresh(shuffled[i])
    {
      assert shuffled[i] in multiset(list);
    }
    AssignPositions(shuffled);
    OriginalPositions(list, shuffled);
    ShuffledPositions(gridSize, image, png, list, shuffled);
    result := Some(PuzzleData(shuffled, DataUri.Wrap(png(image)), gridSize, |list|));
  }
}
