/** The character grid behind the text viewer, as values: a list of rows,
    every row `width` cells wide. A cell of a row that has not been created
    yet reads as a blank, which is what the row will hold once it is. */
module Grid {

  type Screen = seq<seq<char>>

  /** A freshly allocated row: `width` blanks. */
  function Blank(width: nat): seq<char>
  {
    seq(width, _ => ' ')
  }

  ghost predicate Wide(s: Screen, width: nat)
  {
    forall y :: 0 <= y < |s| ==> |s[y]| == width
  }

  /** Cell (y, x), blank where the row does not exist yet. */
  function Cell(s: Screen, y: int, x: int): char
  {
    if 0 <= y < |s| && 0 <= x < |s[y]| then s[y][x] else ' '
  }

  /** Rows 0..y exist afterwards; the added rows are blank. */
  function Grow(s: Screen, width: nat, y: nat): Screen
  {
    if y < |s| then s else s + seq(y + 1 - |s|, _ => Blank(width))
  }

  /** putchxy on a screen of `width` columns: a write outside the width is
      dropped and creates no row; otherwise rows up to y are created blank,
      cell (y, x) becomes c and no other cell changes. */
  function Put(s: Screen, width: nat, y: nat, x: int, c: char): (r: Screen)
    requires Wide(s, width)
    ensures Wide(r, width)
    ensures x < 0 || x >= width ==> r == s
    ensures 0 <= x < width ==> |r| == (if y < |s| then |s| else y + 1) && Cell(r, y, x) == c
    ensures forall yy, xx :: (yy, xx) != (y, x) ==> Cell(r, yy, xx) == Cell(s, yy, xx)
    ensures forall k :: |s| <= k < |r| && k != y ==> r[k] == Blank(width)
  {
    if x < 0 || x >= width then s
    else
      var g := Grow(s, width, y);
      g[y := g[y][x := c]]
  }

  /** Some of n characters placed from column x on fall inside the width. */
  predicate Placed(width: nat, x: int, n: nat)
  {
    n > 0 && width > 0 && x < width && x + n > 0
  }

  /** Characters of t placed on row y from column x on, one after the
      other; those that fall outside the width are dropped. */
  function PutText(s: Screen, width: nat, y: nat, x: int, t: seq<char>): (r: Screen)
    requires Wide(s, width)
    ensures Wide(r, width) && |r| >= |s|
    ensures |r| == if Placed(width, x, |t|) then (if y < |s| then |s| else y + 1) else |s|
    ensures forall i :: 0 <= i < |t| && 0 <= x + i < width ==> Cell(r, y, x + i) == t[i]
    ensures forall yy, xx :: yy != y || xx < x || xx >= x + |t| ==> Cell(r, yy, xx) == Cell(s, yy, xx)
  {
    if t == [] then s
    else
      var init := t[..|t| - 1];
      assert Placed(width, x, |t|) <==> Placed(width, x, |init|) || 0 <= x + |init| < width;
      Put(PutText(s, width, y, x, init), width, y, x + |init|, t[|t| - 1])
  }

  /** Placing characters beyond the right edge changes nothing. */
  lemma {:induction false} PutTextPastEdge(s: Screen, width: nat, y: nat, x: int, t: seq<char>, k: nat)
    requires Wide(s, width) && k <= |t| && x + k >= width
    ensures PutText(s, width, y, x, t) == PutText(s, width, y, x, t[..k])
    decreases |t|
  {
    if k < |t| {
      assert t[..|t| - 1][..k] == t[..k];
      PutTextPastEdge(s, width, y, x, t[..|t| - 1], k);
    } else {
      assert t[..k] == t;
    }
  }

  /** What dump writes: every row followed by a newline. */
  function Rendered(s: Screen): seq<char>
  {
    if s == [] then [] else Rendered(s[..|s| - 1]) + s[|s| - 1] + ['\n']
  }

  /** Index in the dump of the first character of row y. */
  function RowStart(y: nat, width: nat): nat
  {
    if y == 0 then 0 else RowStart(y - 1, width) + width + 1
  }

  lemma {:induction false} RowStartBefore(y: nat, z: nat, width: nat)
    requires y < z
    ensures RowStart(y, width) + width < RowStart(z, width)
    decreases z - y
  {
    assert RowStart(y + 1, width) == RowStart(y, width) + width + 1;
    if y + 1 < z {
      RowStartBefore(y + 1, z, width);
    }
  }

  /** dump emits exactly one line of `width` characters per row: cell (y, x)
      is character RowStart(y) + x, and each row ends with a newline. */
  lemma RenderedShape(s: Screen, width: nat)
    requires Wide(s, width)
    ensures |Rendered(s)| == RowStart(|s|, width)
    ensures forall y :: 0 <= y < |s| ==> RowStart(y, width) + width < RowStart(|s|, width)
    ensures forall y, x :: 0 <= y < |s| && 0 <= x < width ==>
      Rendered(s)[RowStart(y, width) + x] == s[y][x]
    ensures forall y :: 0 <= y < |s| ==> Rendered(s)[RowStart(y, width) + width] == '\n'
  {
    RenderedLength(s, width);
    forall y | 0 <= y < |s| ensures RowStart(y, width) + width < RowStart(|s|, width) {
      RowStartBefore(y, |s|, width);
    }
    forall y, x | 0 <= y < |s| && 0 <= x < width
      ensures Rendered(s)[RowStart(y, width) + x] == s[y][x]
    {
      RenderedCell(s, width, y, x);
    }
    forall y | 0 <= y < |s| ensures Rendered(s)[RowStart(y, width) + width] == '\n' {
      RenderedCell(s, width, y, width);
    }
  }

  lemma {:induction false} RenderedLength(s: Screen, width: nat)
    requires Wide(s, width)
    ensures |Rendered(s)| == RowStart(|s|, width)
  {
    if s != [] {
      RenderedLength(s[..|s| - 1], width);
    }
  }

  /** Cell x of row y of the dump, x == width being the newline. */
  lemma {:induction false} RenderedCell(s: Screen, width: nat, y: nat, x: nat)
    requires Wide(s, width) && y < |s| && x <= width
    ensures RowStart(y, width) + x < |Rendered(s)|
    ensures Rendered(s)[RowStart(y, width) + x] == if x < width then s[y][x] else '\n'
  {
    var n := |s|;
    var init := s[..n - 1];
    var p := Rendered(init);
    RenderedLength(init, width);
    assert Rendered(s) == p + s[n - 1] + ['\n'];
    if y < n - 1 {
      RenderedCell(init, width, y, x);
    }
  }
}
