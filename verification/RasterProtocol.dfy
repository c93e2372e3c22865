/**
 The fractal generator's raster protocol: the server computes pixels row by row and
 sends them in packets, interspersed with cookies that name the current position; the
 client paints each packet from its start position on, wrapping at the row ends, and
 after a failure another server resumes from the last cookie.

 A pixel (x, y) of an image of the given width is named by its number y * width + x in
 row order.  The colour of each pixel is a parameter.
 */
module RasterProtocol {

  const MAX_POINTS := 324

  type Colours = nat -> int
  type Canvas = map<nat, int>

  /** `pending` is history: the number of points buffered when the cookie was sent. */
  datatype Message =
    | Data(startX: nat, startY: nat, points: seq<int>)
    | Cookie(x: nat, y: nat, pending: nat)

  function Pixel(width: nat, x: nat, y: nat): nat { y * width + x }

  // ---- The client ------------------------------------------------------------------------

  /** Paints points onto consecutive pixels, as far as the image reaches. */
  function Paint(canvas: Canvas, from: nat, points: seq<int>, end: nat): Canvas
    decreases |points|
  {
    if points == [] || from >= end then canvas
    else Paint(canvas[from := points[0]], from + 1, points[1..], end)
  }

  /** What the client does with a message of a server: packets that start outside of the
      image or have too many points are ignored. */
  function Receive(width: nat, height: nat, canvas: Canvas, m: Message): Canvas {
    if m.Data? && m.startX < width && m.startY < height && |m.points| <= MAX_POINTS
    then Paint(canvas, Pixel(width, m.startX, m.startY), m.points, height * width)
    else canvas
  }

  function ReceiveAll(width: nat, height: nat, canvas: Canvas, ms: seq<Message>): Canvas
    decreases |ms|
  {
    if ms == [] then canvas else ReceiveAll(width, height, Receive(width, height, canvas, ms[0]), ms[1..])
  }

  lemma NextRow(width: nat, y: nat)
    ensures Pixel(width, width, y) == Pixel(width, 0, y + 1)
  {
  }

  lemma PixelInside(width: nat, height: nat, x: nat, y: nat)
    requires x < width && y < height
    ensures Pixel(width, x, y) < height * width
  {
    assert (height - 1 - y) * width >= 0;
  }

  lemma PixelOutside(width: nat, height: nat, x: nat, y: nat)
    requires y >= height
    ensures Pixel(width, x, y) >= height * width
  {
    assert (y - height) * width >= 0;
  }

  /** The loop that wraps at the end of each row. */
  method HandleDataMessage(width: nat, height: nat, canvas: Canvas, m: Message) returns (r: Canvas, ok: bool)
    requires m.Data?
    ensures r == Receive(width, height, canvas, m)
    ensures ok <==> m.startX < width && m.startY < height && |m.points| <= MAX_POINTS
    ensures !ok ==> r == canvas
  {
    r := canvas;
    ok := m.startX < width && m.startY < height && |m.points| <= MAX_POINTS;
    if !ok { return; }
    ghost var goal := Receive(width, height, canvas, m);
    var p: nat, x: nat, y: nat := 0, m.startX, m.startY;
    while y < height && p < |m.points|
      invariant p <= |m.points| && x <= width
      invariant x == width ==> p == |m.points|
      invariant goal == Paint(r, Pixel(width, x, y), m.points[p..], height * width)
      decreases height - y, |m.points| - p
    {
      while x < width && p < |m.points|
        invariant p <= |m.points| && x <= width
        invariant goal == Paint(r, Pixel(width, x, y), m.points[p..], height * width)
        decreases |m.points| - p
      {
        PixelInside(width, height, x, y);
        r := r[Pixel(width, x, y) := m.points[p]];
        assert m.points[p..][1..] == m.points[p + 1..];
        p := p + 1;
        x := x + 1;
      }
      if p < |m.points| {
        NextRow(width, y);
        x := 0;
        y := y + 1;
      }
    }
    if y >= height { PixelOutside(width, height, x, y); }
  }

  // ---- What a server sends --------------------------------------------------------------------

  /** The packets in `ms` carry exactly the pixels from `from` to `to`, in order and with
      their colours.  A cookie names the pixel that is being worked on: the next one to be
      computed at the start of a session, later the last one put into the buffer. */
  predicate Tiles(width: nat, colours: Colours, from: nat, ms: seq<Message>, to: nat)
    decreases |ms|
  {
    if ms == [] then from == to
    else match ms[0]
      case Data(x, y, points) =>
        && x < width && |points| <= MAX_POINTS
        && (points != [] ==> Pixel(width, x, y) == from)
        && (points == [] ==> y == 0)
        && (forall k :: 0 <= k < |points| ==> points[k] == colours(from + k))
        && Tiles(width, colours, from + |points|, ms[1..], to)
      case Cookie(x, y, pending) =>
        && x < width
        && (Pixel(width, x, y) + 1 == from + pending || (Pixel(width, x, y) == from && pending == 0))
        && Tiles(width, colours, from, ms[1..], to)
  }

  lemma {:induction false} TilesConcat(width: nat, colours: Colours, from: nat, a: seq<Message>, mid: nat, b: seq<Message>, to: nat)
    requires Tiles(width, colours, from, a, mid) && Tiles(width, colours, mid, b, to)
    ensures Tiles(width, colours, from, a + b, to)
    decreases |a|
  {
    if a == [] {
      assert a + b == b;
    } else {
      assert (a + b)[1..] == a[1..] + b;
      TilesConcat(width, colours, if a[0].Data? then from + |a[0].points| else from, a[1..], mid, b, to);
    }
  }

  lemma {:induction false} TilesSplit(width: nat, colours: Colours, from: nat, ms: seq<Message>, to: nat, i: nat) returns (mid: nat)
    requires Tiles(width, colours, from, ms, to) && i <= |ms|
    ensures Tiles(width, colours, from, ms[..i], mid) && Tiles(width, colours, mid, ms[i..], to)
    ensures from <= mid <= to
    decreases |ms|
  {
    if i == 0 {
      mid := from;
      assert ms[0..] == ms;
      if ms != [] {
        var _ := TilesSplit(width, colours, if ms[0].Data? then from + |ms[0].points| else from, ms[1..], to, 0);
      }
    } else {
      mid := TilesSplit(width, colours, if ms[0].Data? then from + |ms[0].points| else from, ms[1..], to, i - 1);
      assert ms[..i][1..] == ms[1..][..i - 1] && ms[i..] == ms[1..][i - 1..];
    }
  }

  // ---- Painting what a server sends ---------------------------------------------------------------

  /** The pixels below `n` have their colours. */
  predicate Good(canvas: Canvas, colours: Colours, n: nat) {
    forall p: nat :: p < n ==> p in canvas && canvas[p] == colours(p)
  }

  lemma {:induction false} PaintExtends(canvas: Canvas, from: nat, points: seq<int>, end: nat, colours: Colours, n: nat)
    requires Good(canvas, colours, n) && from <= n
    requires forall k :: 0 <= k < |points| ==> points[k] == colours(from + k)
    requires from + |points| <= end
    ensures Good(Paint(canvas, from, points, end), colours, if from + |points| > n then from + |points| else n)
    decreases |points|
  {
    if points != [] {
      var canvas' := canvas[from := points[0]];
      assert points[0] == colours(from + 0);
      forall k | 0 <= k < |points[1..]| ensures points[1..][k] == colours(from + 1 + k) {
        assert points[k + 1] == colours(from + (k + 1));
      }
      PaintExtends(canvas', from + 1, points[1..], end, colours, if from == n then n + 1 else n);
    }
  }

  /** Painting exactly the pixels of a run of points. */
  lemma {:induction false} PaintKeys(canvas: Canvas, from: nat, points: seq<int>, end: nat, p: nat)
    requires from + |points| <= end
    ensures p in Paint(canvas, from, points, end) <==> p in canvas || from <= p < from + |points|
    decreases |points|
  {
    if points != [] { PaintKeys(canvas[from := points[0]], from + 1, points[1..], end, p); }
  }

  lemma StartsInside(width: nat, height: nat, x: nat, y: nat)
    requires x < width && Pixel(width, x, y) < height * width
    ensures y < height
  {
    if y >= height { PixelOutside(width, height, x, y); }
  }

  /** A session that starts within the good part extends it to where its packets end. */
  lemma {:induction false} SessionExtends(width: nat, height: nat, canvas: Canvas, colours: Colours, from: nat, ms: seq<Message>, to: nat, n: nat)
    requires width > 0 && height > 0
    requires Tiles(width, colours, from, ms, to) && to <= height * width
    requires Good(canvas, colours, n) && from <= n
    ensures Good(ReceiveAll(width, height, canvas, ms), colours, if to > n then to else n)
    decreases |ms|
  {
    if ms != [] {
      var m := ms[0];
      var next := if m.Data? then from + |m.points| else from;
      var _ := TilesSplit(width, colours, next, ms[1..], to, 0);
      if m.Data? && m.points != [] {
        StartsInside(width, height, m.startX, m.startY);
        PaintExtends(canvas, from, m.points, height * width, colours, n);
      }
      SessionExtends(width, height, Receive(width, height, canvas, m), colours, next, ms[1..], to,
                     if next > n then next else n);
    }
  }

  /** And it paints nothing else. */
  lemma {:induction false} SessionKeys(width: nat, height: nat, canvas: Canvas, colours: Colours, from: nat, ms: seq<Message>, to: nat, p: nat)
    requires width > 0 && height > 0
    requires Tiles(width, colours, from, ms, to) && to <= height * width
    ensures p in ReceiveAll(width, height, canvas, ms) <==> p in canvas || from <= p < to
    decreases |ms|
  {
    if ms != [] {
      var m := ms[0];
      var next := if m.Data? then from + |m.points| else from;
      var _ := TilesSplit(width, colours, next, ms[1..], to, 0);
      if m.Data? && m.points != [] {
        StartsInside(width, height, m.startX, m.startY);
        PaintKeys(canvas, from, m.points, height * width, p);
      }
      SessionKeys(width, height, Receive(width, height, canvas, m), colours, next, ms[1..], to, p);
    }
  }
}
