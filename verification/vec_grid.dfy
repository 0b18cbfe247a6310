/**
  The in-memory grid of the example server: a column-major frame of
  colours, `frame[x][y]`, with drawing and fetching checked against the
  size it was built with.
 */
module VecGrids {
  import opened Wrappers
  import opened Numeric
  import opened Pixels
  import opened Grid

  datatype VecGrid = VecGrid(size: Size, frame: seq<seq<Color>>)

  /** The frame has `size.x` columns of `size.y` cells each. */
  predicate Valid(g: VecGrid)
  {
    && |g.frame| == g.size.x
    && forall i :: 0 <= i < |g.frame| ==> |g.frame[i]| == g.size.y
  }

  predicate InBounds(g: VecGrid, c: Coordinate)
  {
    c.x < g.size.x && c.y < g.size.y
  }

  function Black(): Color
  {
    Rgb(0, 0, 0)
  }

  /** `VecGrid::new`: every cell of a `size.x` by `size.y` frame is black. */
  function New(size: Size): (g: VecGrid)
    ensures Valid(g) && g.size == size
    ensures forall c :: InBounds(g, c) ==> g.frame[c.x][c.y] == Black()
  {
    VecGrid(size, seq(size.x, _ => seq(size.y, _ => Black())))
  }

  /** `size()`: the size the grid was built with, which is the shape of its frame. */
  function GridSize(g: VecGrid): (s: Size)
    ensures Valid(g) ==> |g.frame| == s.x && forall i :: 0 <= i < |g.frame| ==> |g.frame[i]| == s.y
  {
    g.size
  }

  /**
    `draw`: an in-bounds pixel sets exactly its own cell; an out-of-bounds
    pixel is ignored.
   */
  function Draw(g: VecGrid, px: Pixel): (r: VecGrid)
    requires Valid(g)
    ensures Valid(r) && r.size == g.size
    ensures InBounds(g, px.coord) ==> r.frame[px.coord.x][px.coord.y] == px.color
    ensures forall c :: InBounds(g, c) && c != px.coord ==> r.frame[c.x][c.y] == g.frame[c.x][c.y]
    ensures !InBounds(g, px.coord) ==> r == g
  {
    var x, y := px.coord.x, px.coord.y;
    if x < g.size.x && y < g.size.y then
      g.(frame := g.frame[x := g.frame[x][y := px.color]])
    else g
  }

  /** `fetch`: the pixel at an in-bounds coordinate, nothing outside. */
  function Fetch(g: VecGrid, c: Coordinate): (r: Option<Pixel>)
    requires Valid(g)
    ensures r.Some? <==> InBounds(g, c)
    ensures r.Some? ==> r.value == Pixel(c, g.frame[c.x][c.y])
  {
    if c.x < g.size.x && c.y < g.size.y then Some(Pixel(c, g.frame[c.x][c.y])) else None
  }

  /** A fresh grid reports the size it was built with and is black everywhere inside it. */
  lemma FetchAfterNew(size: Size, c: Coordinate)
    ensures GridSize(New(size)) == size
    ensures Fetch(New(size), c) == if c.x < size.x && c.y < size.y then Some(Pixel(c, Black())) else None
  {
  }

  /**
    Reading after drawing: the drawn cell shows the new colour, every other
    coordinate shows what it showed before, and the size does not change.
   */
  lemma FetchAfterDraw(g: VecGrid, px: Pixel, c: Coordinate)
    requires Valid(g)
    ensures GridSize(Draw(g, px)) == GridSize(g)
    ensures Fetch(Draw(g, px), c) == if c == px.coord && InBounds(g, c) then Some(Pixel(c, px.color)) else Fetch(g, c)
  {
  }

  /** The drawing task: every forwarded pixel is drawn, in the order it arrived. */
  function DrawAll(g: VecGrid, ps: seq<Pixel>): (r: VecGrid)
    requires Valid(g)
    ensures Valid(r) && r.size == g.size
  {
    if |ps| == 0 then g else Draw(DrawAll(g, ps[..|ps| - 1]), ps[|ps| - 1])
  }

  /** The colour of the last pixel in `ps` drawn at `c`, if any. */
  function LastColorAt(ps: seq<Pixel>, c: Coordinate): Option<Color>
  {
    if |ps| == 0 then None
    else if ps[|ps| - 1].coord == c then Some(ps[|ps| - 1].color)
    else LastColorAt(ps[..|ps| - 1], c)
  }

  /**
    After a sequence of draws, each in-bounds cell shows the colour of the
    last pixel drawn there, or its old colour if none was; the grid never
    grows a cell outside its size.
   */
  lemma {:induction false} FetchAfterDrawAll(g: VecGrid, ps: seq<Pixel>, c: Coordinate)
    requires Valid(g)
    ensures Fetch(DrawAll(g, ps), c) ==
      if !InBounds(g, c) then None
      else match LastColorAt(ps, c)
        case Some(color) => Some(Pixel(c, color))
        case None => Fetch(g, c)
    decreases |ps|
  {
    if |ps| > 0 {
      FetchAfterDrawAll(g, ps[..|ps| - 1], c);
      FetchAfterDraw(DrawAll(g, ps[..|ps| - 1]), ps[|ps| - 1], c);
    }
  }
}
