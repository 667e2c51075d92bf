/** Random draws and the colour palette shared by every part of the show.
    Each `Math.random()` call of the animation is a parameter here: a real in
    [0, 1) supplied by the caller. */
module Draws {

  /** A CSS colour string such as "#ff6b6b". */
  type Color = string

  /** The seven colours every launch and every text particle picks from. */
  const Palette: seq<Color> :=
    ["#ff6b6b", "#4ecdc4", "#45b7d1", "#f9ca24", "#f0932b", "#eb4d4b", "#6c5ce7"]

  /** What `Math.random()` can return. */
  predicate IsDraw(r: real) {
    0.0 <= r < 1.0
  }

  /** The palette entry at the floor of r times the palette's length. */
  function PickColor(r: real): (c: Color)
    requires IsDraw(r)
    ensures c in Palette
  {
    var k := (r * |Palette| as real).Floor;
    Palette[k]
  }
}
