/** graphics_draw_line and graphics_put_pixel of drivers/graphics.c. */
module Line {
  import opened Products

  type byte = x: int | 0 <= x < 256
  type u32 = x: int | 0 <= x < 0x1_0000_0000
  /** C's int: every value kept in one is checked to fit. */
  type i32 = x: int | -0x8000_0000 <= x < 0x8000_0000

  datatype Point = Point(x: int, y: int)

  function Abs(a: int): nat {
    if a < 0 then -a else a
  }

  // ----- which pixels belong to a line ------------------------------------------------------

  /** A line's extent along both axes, and the direction along each. */
  datatype Slope = Slope(dx: nat, dy: nat, sx: int, sy: int) {
    function Long(): nat {
      if dx >= dy then dx else dy
    }
  }

  /** How far a steps in x and b in y are off the line, in units of 1 / Long of a pixel. */
  function Off(s: Slope, a: int, b: int): int {
    b * s.dx - a * s.dy
  }

  /** At most half a pixel off; of two pixels equally near, only one qualifies. */
  ghost predicate Near(s: Slope, d: int) {
    if s.dx >= s.dy then 0 - s.dx <= 2 * d && (2 * d < s.dx || s.dx == d == 0)
    else 0 - s.dy < 2 * d <= s.dy
  }

  /** Step k of the line is a steps in x and b in y: it goes one step at a time along the longer
      axis, past the end of neither, and keeps near the line. */
  ghost predicate OnLine(s: Slope, k: nat, a: int, b: int) {
    && 0 <= a <= s.dx && 0 <= b <= s.dy
    && (if s.dx >= s.dy then a == k else b == k)
    && Near(s, Off(s, a, b))
  }

  /** Half a pixel: twice the distance from the line is at most the length of the longer axis. */
  lemma HalfPixel(s: Slope, k: nat, a: int, b: int)
    requires OnLine(s, k, a, b)
    ensures 2 * Abs(b * s.dx - a * s.dy) <= s.Long()
  {
  }

  lemma Beyond(m: int, n: nat)
    ensures m >= 1 ==> m * n >= n
    ensures m <= -1 ==> m * n <= 0 - n
  {
    if m >= 1 {
      StepFits(0, m, n);
    } else if m <= -1 {
      StepFits(m, 0, n);
    }
  }

  lemma OffDifference(s: Slope, a: int, b: int, a': int, b': int)
    ensures a == a' ==> Off(s, a, b) - Off(s, a', b') == (b - b') * s.dx
    ensures b == b' ==> Off(s, a, b) - Off(s, a', b') == (a' - a) * s.dy
  {
    assert (b - b') * s.dx == b * s.dx - b' * s.dx;
    assert (a' - a) * s.dy == a' * s.dy - a * s.dy;
  }

  lemma NearApart(s: Slope, d: int, d': int)
    requires Near(s, d) && Near(s, d') && s.Long() > 0
    ensures 0 - s.Long() < d - d' < s.Long()
  {
  }

  /** A step of a line is one pixel. */
  lemma OnLineUnique(s: Slope, k: nat, a: int, b: int, a': int, b': int)
    requires OnLine(s, k, a, b) && OnLine(s, k, a', b')
    ensures a == a' && b == b'
  {
    if s.Long() > 0 {
      OffDifference(s, a, b, a', b');
      NearApart(s, Off(s, a, b), Off(s, a', b'));
      if s.dx >= s.dy {
        SmallMultiple(b - b', s.dx);
      } else {
        SmallMultiple(a' - a, s.dy);
      }
    }
  }

  lemma Endpoint(s: Slope)
    ensures OnLine(s, 0, 0, 0) && OnLine(s, s.Long(), s.dx, s.dy)
  {
    assert Off(s, s.dx, s.dy) == 0 by {
      assert s.dy * s.dx == s.dx * s.dy;
    }
  }

  /** The last step of the longer axis is the last step of both. */
  lemma Arrived(s: Slope, k: nat, a: int, b: int)
    requires OnLine(s, k, a, b)
    ensures k <= s.Long()
    ensures k == s.Long() <==> (a == s.dx && b == s.dy)
  {
    Endpoint(s);
    if k == s.Long() {
      OnLineUnique(s, k, a, b, s.dx, s.dy);
    }
  }

  // ----- the loop's two tests ----------------------------------------------------------------

  /** e2 > -dy, where err is d + dx - dy. */
  predicate StepX(s: Slope, d: int) {
    2 * (d + s.dx - s.dy) > 0 - s.dy
  }

  /** e2 < dx. */
  predicate StepY(s: Slope, d: int) {
    2 * (d + s.dx - s.dy) < s.dx
  }

  function Moved(a: int, step: bool): int {
    if step then a + 1 else a
  }

  lemma OffMoved(s: Slope, a: int, b: int, x: bool, y: bool)
    ensures Off(s, Moved(a, x), Moved(b, y)) == Off(s, a, b) - (if x then s.dy else 0) + (if y then s.dx else 0)
  {
    assert (b + 1) * s.dx == b * s.dx + s.dx && (a + 1) * s.dy == a * s.dy + s.dy;
  }

  /** On a diagonal nothing is ever off. */
  lemma Diagonal(s: Slope, k: nat, a: int, b: int)
    requires OnLine(s, k, a, b) && s.dx == s.dy > 0
    ensures Off(s, a, b) == 0
  {
    assert Off(s, a, b) == (b - a) * s.dx;
    SmallMultiple(b - a, s.dx);
  }

  /** Whichever tests succeed, what they make of a near offset is near. */
  lemma StaysNear(s: Slope, d: int)
    requires Near(s, d) && s.Long() > 0 && (s.dx == s.dy ==> d == 0)
    ensures Near(s, d - (if StepX(s, d) then s.dy else 0) + (if StepY(s, d) then s.dx else 0))
    ensures if s.dx >= s.dy then StepX(s, d) else StepY(s, d)
  {
  }

  lemma OffFromEnd(s: Slope, a: int, b: int)
    ensures Off(s, a, b) == (b - s.dy) * s.dx - (a - s.dx) * s.dy
  {
    assert (b - s.dy) * s.dx == b * s.dx - s.dy * s.dx;
    assert (a - s.dx) * s.dy == a * s.dy - s.dx * s.dy;
  }

  lemma NotAbove(m: int, n: nat)
    ensures m <= 0 ==> m * n <= 0
  {
    if m <= 0 {
      NonNeg(-m, n);
      Split(m, -m, n);
    }
  }

  /** Past the end of the shorter axis is more than half a pixel off. */
  lemma NoOvershoot(s: Slope, a: int, b: int)
    requires Near(s, Off(s, a, b)) && s.Long() > 0
    ensures s.dx >= s.dy && a <= s.dx ==> b <= s.dy
    ensures s.dx < s.dy && b <= s.dy ==> a <= s.dx
  {
    hide Off;
    OffFromEnd(s, a, b);
    Beyond(b - s.dy, s.dx);
    Beyond(a - s.dx, s.dy);
    NotAbove(b - s.dy, s.dx);
    NotAbove(a - s.dx, s.dy);
  }

  /** Bresenham's step: the two tests of the loop lead from one pixel of the line to the next. */
  lemma NextOnLine(s: Slope, k: nat, a: int, b: int)
    requires OnLine(s, k, a, b) && k < s.Long()
    ensures var d := Off(s, a, b); OnLine(s, k + 1, Moved(a, StepX(s, d)), Moved(b, StepY(s, d)))
  {
    hide Off;
    var d := Off(s, a, b);
    if s.dx == s.dy {
      Diagonal(s, k, a, b);
    }
    StaysNear(s, d);
    OffMoved(s, a, b, StepX(s, d), StepY(s, d));
    NoOvershoot(s, Moved(a, StepX(s, d)), Moved(b, StepY(s, d)));
  }

  // ----- what ends up on the screen -------------------------------------------------------------

  /** From p, a steps in x and b in y. */
  function Along(s: Slope, p: Point, a: int, b: int): Point {
    Point(p.x + s.sx * a, p.y + s.sy * b)
  }

  ghost predicate PixelAt(s: Slope, p: Point, k: nat, q: Point) {
    exists a, b :: OnLine(s, k, a, b) && q == Along(s, p, a, b)
  }

  /** The pixels from p to q in the order in which they are drawn. */
  ghost predicate IsLine(s: Slope, p: Point, q: Point, pixels: seq<Point>) {
    && |pixels| == s.Long() + 1
    && pixels[0] == p && pixels[s.Long()] == q
    && forall k: nat :: k < |pixels| ==> PixelAt(s, p, k, pixels[k])
  }

  function SlopeOf(p: Point, q: Point): Slope {
    Slope(Abs(q.x - p.x), Abs(q.y - p.y), if p.x < q.x then 1 else -1, if p.y < q.y then 1 else -1)
  }

  lemma AlongArrives(p: Point, q: Point, a: int, b: int)
    requires var s := SlopeOf(p, q); 0 <= a <= s.dx && 0 <= b <= s.dy
    ensures var s := SlopeOf(p, q); Along(s, p, a, b) == q <==> a == s.dx && b == s.dy
    ensures var s := SlopeOf(p, q); var r := Along(s, p, a, b);
            Within(p, q, r)
  {
  }

  /** There is one line from p to q. */
  lemma LineUnique(p: Point, q: Point, one: seq<Point>, other: seq<Point>)
    requires IsLine(SlopeOf(p, q), p, q, one) && IsLine(SlopeOf(p, q), p, q, other)
    ensures one == other
  {
    var s := SlopeOf(p, q);
    forall k: nat | k < |one| ensures one[k] == other[k] {
      assert PixelAt(s, p, k, one[k]) && PixelAt(s, p, k, other[k]);
      var a, b :| OnLine(s, k, a, b) && one[k] == Along(s, p, a, b);
      var a', b' :| OnLine(s, k, a', b') && other[k] == Along(s, p, a', b');
      OnLineUnique(s, k, a, b, a', b');
    }
  }

  datatype Mode = Mode(width: u32, height: u32, pitch: u32) {
    predicate Inside(p: Point) {
      0 <= p.x < width && 0 <= p.y < height
    }

    function Offset(p: Point): int {
      p.y * pitch + p.x
    }

    /** Every pixel of the screen has a byte of the framebuffer, within 32 bits. */
    ghost predicate Fits(length: nat) {
      width <= pitch && height * pitch <= length <= 0x1_0000_0000
    }
  }

  lemma OffsetInRange(m: Mode, p: Point, length: nat)
    requires m.Fits(length) && m.Inside(p)
    ensures 0 <= m.Offset(p) < length
  {
    RowFits(p.y, m.height, m.pitch);
  }

  lemma RowFits(y: nat, height: nat, pitch: nat)
    requires y < height
    ensures 0 <= y * pitch && y * pitch + pitch <= height * pitch
  {
    NonNeg(y, pitch);
    StepFits(y, height, pitch);
  }

  /** Two pixels of the screen never share a byte. */
  lemma PixelsApart(m: Mode, p: Point, q: Point, length: nat)
    requires m.Fits(length) && m.Inside(p) && m.Inside(q) && m.Offset(p) == m.Offset(q)
    ensures p == q
  {
    assert (p.y - q.y) * m.pitch == q.x - p.x;
    SmallMultiple(p.y - q.y, m.pitch);
  }

  function Plotted(m: Mode, f: seq<byte>, p: Point, c: byte): (r: seq<byte>)
    requires m.Fits(|f|)
    ensures |r| == |f|
  {
    if m.Inside(p) then
      OffsetInRange(m, p, |f|);
      f[m.Offset(p) := c]
    else f
  }

  function Painted(m: Mode, f: seq<byte>, pixels: seq<Point>, c: byte): (r: seq<byte>)
    requires m.Fits(|f|)
    ensures |r| == |f|
  {
    if pixels == [] then f
    else Plotted(m, Painted(m, f, pixels[..|pixels| - 1], c), pixels[|pixels| - 1], c)
  }

  ghost predicate Hit(m: Mode, pixels: seq<Point>, i: int) {
    exists k: nat :: k < |pixels| && m.Inside(pixels[k]) && m.Offset(pixels[k]) == i
  }

  lemma HitLast(m: Mode, pixels: seq<Point>, p: Point, i: int)
    ensures Hit(m, pixels + [p], i) <==> Hit(m, pixels, i) || (m.Inside(p) && m.Offset(p) == i)
  {
    var all := pixels + [p];
    if Hit(m, pixels, i) {
      var k: nat :| k < |pixels| && m.Inside(pixels[k]) && m.Offset(pixels[k]) == i;
      assert all[k] == pixels[k];
    }
    if Hit(m, all, i) {
      var k: nat :| k < |all| && m.Inside(all[k]) && m.Offset(all[k]) == i;
      assert k < |pixels| ==> all[k] == pixels[k];
    }
    assert all[|pixels|] == p;
  }

  /** A byte has the colour if an on-screen pixel of the line is its own, and is unchanged if not. */
  lemma {:induction false} PaintedAt(m: Mode, f: seq<byte>, pixels: seq<Point>, c: byte, i: int)
    requires m.Fits(|f|) && 0 <= i < |f|
    ensures Painted(m, f, pixels, c)[i] == if Hit(m, pixels, i) then c else f[i]
  {
    if pixels != [] {
      var rest, p := pixels[..|pixels| - 1], pixels[|pixels| - 1];
      PaintedAt(m, f, rest, c, i);
      assert pixels == rest + [p];
      HitLast(m, rest, p, i);
    }
  }

  // ----- the code ------------------------------------------------------------------------------

  class Screen {
    const mode: Mode
    const framebuffer: array<byte>

    ghost predicate Valid() {
      mode.Fits(framebuffer.Length)
    }

    constructor (mode: Mode, framebuffer: array<byte>)
      requires mode.Fits(framebuffer.Length)
      ensures Valid() && this.mode == mode && this.framebuffer == framebuffer
    {
      this.mode, this.framebuffer := mode, framebuffer;
    }

    /** graphics_put_pixel: one byte changes, or none when the pixel is off the screen. */
    method PutPixel(x: u32, y: u32, color: u32)
      requires Valid()
      modifies framebuffer
      ensures framebuffer[..] == Plotted(mode, old(framebuffer[..]), Point(x, y), color % 256)
    {
      if x >= mode.width || y >= mode.height {
        return;
      }
      OffsetInRange(mode, Point(x, y), framebuffer.Length);
      var offset: u32 := y * mode.pitch + x;
      framebuffer[offset] := color % 256;
    }

    /** graphics_draw_line, for lines short enough that e2 fits an int. It ends, having drawn the
        line from (x0, y0) to (x1, y1) and nothing else. */
    method DrawLine(x0: u32, y0: u32, x1: u32, y1: u32, color: u32) returns (ghost pixels: seq<Point>)
      requires Valid() && 3 * SlopeOf(Point(x0, y0), Point(x1, y1)).Long() < 0x8000_0000
      modifies framebuffer
      ensures IsLine(SlopeOf(Point(x0, y0), Point(x1, y1)), Point(x0, y0), Point(x1, y1), pixels)
      ensures framebuffer[..] == Painted(mode, old(framebuffer[..]), pixels, color % 256)
    {
      hide OnLine, Off, Along, PixelAt, IsLine, Moved, Inv, Painted, Plotted, Mode.Fits, SlopeOf, Slope.Long, Abs;
      ghost var p, q := Point(x0, y0), Point(x1, y1);
      ghost var s := SlopeOf(p, q);
      SlopeIs(p, q);
      var x: u32, y: u32 := x0, y0;
      var dx: i32 := if x1 > x then x1 - x else x - x1;
      var dy: i32 := if y1 > y then y1 - y else y - y1;
      var sx: i32 := if x < x1 then 1 else -1;
      var sy: i32 := if y < y1 then 1 else -1;
      var err: i32 := dx - dy;
      ghost var a, b, k: nat := 0, 0, 0;
      pixels := [];
      Begins(s, p);
      PaintedNone(mode, framebuffer[..], color % 256);
      while true
        invariant Inv(s, p, k, a, b, Point(x, y), err, pixels)
        invariant framebuffer[..] == Painted(mode, old(framebuffer[..]), pixels, color % 256)
        decreases s.Long() - k
      {
        PutPixel(x, y, color);
        PaintedMore(mode, old(framebuffer[..]), pixels, Point(x, y), color % 256);
        Turn(p, q, k, a, b, Point(x, y), err, pixels);
        pixels := pixels + [Point(x, y)];
        if x == x1 && y == y1 {
          break;
        }
        FitsInt(err, dx, dy, s.Long());
        var e2: i32 := 2 * err;
        ghost var stepX, stepY := e2 > 0 - dy, e2 < dx;
        if e2 > -dy {
          err := err - dy;
          x := x + sx;
        }
        if e2 < dx {
          err := err + dx;
          y := y + sy;
        }
        a, b, k := Moved(a, stepX), Moved(b, stepY), k + 1;
      }
    }
  }

  /** Before step k: the pixels drawn so far are the line's first k, and err is what the offset
      makes it. */
  ghost predicate Inv(s: Slope, p: Point, k: nat, a: int, b: int, here: Point, err: int, pixels: seq<Point>) {
    && OnLine(s, k, a, b) && here == Along(s, p, a, b)
    && err == Off(s, a, b) + s.dx - s.dy
    && |pixels| == k
    && (k > 0 ==> pixels[0] == p)
    && forall j: nat :: j < k ==> PixelAt(s, p, j, pixels[j])
  }

  /** Everything the loop computes from err fits an int. */
  lemma FitsInt(err: int, dx: int, dy: int, long: int)
    requires 2 * Abs(err) <= 3 * long < 0x8000_0000 && 0 <= dx <= long && 0 <= dy <= long
    ensures -0x8000_0000 <= 2 * err < 0x8000_0000 && -0x8000_0000 <= err - dy && err + dx < 0x8000_0000
    ensures -0x8000_0000 <= err && err < 0x8000_0000
  {
  }

  lemma SlopeIs(p: Point, q: Point)
    ensures var s := SlopeOf(p, q);
            && s.dx == (if q.x > p.x then q.x - p.x else p.x - q.x) && s.dy == (if q.y > p.y then q.y - p.y else p.y - q.y)
            && s.sx == (if p.x < q.x then 1 else -1) && s.sy == (if p.y < q.y then 1 else -1)
            && s.dx <= s.Long() && s.dy <= s.Long()
  {
  }

  lemma Begins(s: Slope, p: Point)
    ensures Inv(s, p, 0, 0, 0, p, s.dx - s.dy, [])
  {
    Endpoint(s);
  }

  lemma PaintedNone(m: Mode, f: seq<byte>, c: byte)
    requires m.Fits(|f|)
    ensures Painted(m, f, [], c) == f
  {
  }

  lemma PaintedMore(m: Mode, f: seq<byte>, pixels: seq<Point>, p: Point, c: byte)
    requires m.Fits(|f|)
    ensures Painted(m, f, pixels + [p], c) == Plotted(m, Painted(m, f, pixels, c), p, c)
  {
    var all := pixels + [p];
    assert all[..|all| - 1] == pixels;
  }

  lemma Grown(s: Slope, p: Point, k: nat, a: int, b: int, here: Point, pixels: seq<Point>)
    requires OnLine(s, k, a, b) && here == Along(s, p, a, b) && |pixels| == k && (k > 0 ==> pixels[0] == p)
    requires forall j: nat :: j < k ==> PixelAt(s, p, j, pixels[j])
    ensures (pixels + [here])[0] == p
    ensures forall j: nat :: j < k + 1 ==> PixelAt(s, p, j, (pixels + [here])[j])
  {
    if k == 0 {
      Endpoint(s);
      OnLineUnique(s, 0, a, b, 0, 0);
    }
    hide OnLine, Along;
    var all := pixels + [here];
    forall j: nat | j < k + 1 ensures PixelAt(s, p, j, all[j]) {
      assert j < k ==> all[j] == pixels[j];
    }
  }

  lemma NextAlong(s: Slope, p: Point, a: int, b: int, x: bool, y: bool)
    requires (s.sx == 1 || s.sx == -1) && (s.sy == 1 || s.sy == -1)
    ensures Next(s, Along(s, p, a, b), x, y) == Along(s, p, Moved(a, x), Moved(b, y))
  {
  }

  /** The same on numbers: e2 stays within three lengths, and the next step is on the line. */
  lemma Forward(s: Slope, k: nat, a: int, b: int, err: int)
    requires OnLine(s, k, a, b) && err == Off(s, a, b) + s.dx - s.dy && k < s.Long()
    ensures var x, y := 2 * err > 0 - s.dy, 2 * err < s.dx;
            && OnLine(s, k + 1, Moved(a, x), Moved(b, y))
            && err - (if x then s.dy else 0) + (if y then s.dx else 0) == Off(s, Moved(a, x), Moved(b, y)) + s.dx - s.dy
  {
    hide Off, OnLine, Moved;
    NextOnLine(s, k, a, b);
    var d := Off(s, a, b);
    OffMoved(s, a, b, StepX(s, d), StepY(s, d));
  }

  lemma RoomForE2(s: Slope, k: nat, a: int, b: int, err: int)
    requires OnLine(s, k, a, b) && err == Off(s, a, b) + s.dx - s.dy
    ensures 2 * Abs(err) <= 3 * s.Long()
  {
    hide Off;
  }

  lemma Bounds(s: Slope, k: nat, a: int, b: int)
    requires OnLine(s, k, a, b)
    ensures 0 <= a <= s.dx && 0 <= b <= s.dy
  {
    hide Off;
  }

  /** One turn of the loop: err has room for e2, the line is complete when the end is reached,
      and until then the two tests lead to its next pixel. */
  lemma Turn(p: Point, q: Point, k: nat, a: int, b: int, here: Point, err: int, pixels: seq<Point>)
    requires Inv(SlopeOf(p, q), p, k, a, b, here, err, pixels)
    ensures var s := SlopeOf(p, q); 2 * Abs(err) <= 3 * s.Long() && k <= s.Long()
    ensures here == q ==> IsLine(SlopeOf(p, q), p, q, pixels + [here])
    ensures var s := SlopeOf(p, q);
            var x, y := 2 * err > 0 - s.dy, 2 * err < s.dx;
            here != q ==> k < s.Long() && Within(p, q, Next(s, here, x, y))
                          && Inv(s, p, k + 1, Moved(a, x), Moved(b, y), Next(s, here, x, y),
                                 err - (if x then s.dy else 0) + (if y then s.dx else 0), pixels + [here])
  {
    hide Off, OnLine, Along, PixelAt, Moved, Next, Within, Abs;
    var s := SlopeOf(p, q);
    Arrived(s, k, a, b);
    Bounds(s, k, a, b);
    AlongArrives(p, q, a, b);
    Grown(s, p, k, a, b, here, pixels);
    RoomForE2(s, k, a, b, err);
    if here != q {
      var x, y := 2 * err > 0 - s.dy, 2 * err < s.dx;
      Forward(s, k, a, b, err);
      Bounds(s, k + 1, Moved(a, x), Moved(b, y));
      NextAlong(s, p, a, b, x, y);
      AlongArrives(p, q, Moved(a, x), Moved(b, y));
    }
  }

  function Next(s: Slope, here: Point, stepX: bool, stepY: bool): Point {
    Point(if stepX then here.x + s.sx else here.x, if stepY then here.y + s.sy else here.y)
  }

  predicate Within(p: Point, q: Point, r: Point) {
    (p.x <= r.x <= q.x || q.x <= r.x <= p.x) && (p.y <= r.y <= q.y || q.y <= r.y <= p.y)
  }
}
