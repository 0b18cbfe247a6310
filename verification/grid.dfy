/** The grid's extent and the capability a grid offers the server. */
module Grid {
  import opened Numeric

  /** `Size`: a width `x` and a height `y`; any pair of u32 is a size. */
  datatype Size = Size(x: u32, y: u32)

  /** `Size::new`: any width and height, zero included, kept as given. */
  function NewSize(x: u32, y: u32): (s: Size)
    ensures s.x == x && s.y == y
  {
    Size(x, y)
  }

  /** `Size::xy`: the pair the size was built from, which rebuilds the same size. */
  function Xy(s: Size): (r: (u32, u32))
    ensures NewSize(r.0, r.1) == s
  {
    (s.x, s.y)
  }

  /** Building a size and reading it back returns exactly the two dimensions given. */
  lemma XyOfNewSize(x: u32, y: u32)
    ensures Xy(NewSize(x, y)) == (x, y)
  {
  }
}
