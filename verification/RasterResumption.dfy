/**
 What the client sees of the raster protocol: the complete image after an undisturbed
 session, and after failures exactly when the cookie names no pixel behind the next one to
 be painted.
 */
module RasterResumption {
  import opened RasterProtocol

  /** Every pixel of the image has the server's colour. */
  ghost predicate ImageComplete(width: nat, height: nat, canvas: Canvas, colours: Colours) {
    forall x: nat, y: nat :: x < width && y < height ==>
      Pixel(width, x, y) in canvas && canvas[Pixel(width, x, y)] == colours(Pixel(width, x, y))
  }

  lemma GoodIsComplete(width: nat, height: nat, canvas: Canvas, colours: Colours)
    requires Good(canvas, colours, height * width)
    ensures ImageComplete(width, height, canvas, colours)
  {
    forall x: nat, y: nat | x < width && y < height
      ensures Pixel(width, x, y) in canvas && canvas[Pixel(width, x, y)] == colours(Pixel(width, x, y))
    {
      PixelInside(width, height, x, y);
    }
  }

  /** An undisturbed session paints the whole image, whatever was on the canvas before and
      however its points were distributed over packets. */
  lemma UndisturbedSession(width: nat, height: nat, canvas: Canvas, colours: Colours, ms: seq<Message>)
    requires width > 0 && height > 0 && Tiles(width, colours, 0, ms, height * width)
    ensures ImageComplete(width, height, ReceiveAll(width, height, canvas, ms), colours)
  {
    SessionExtends(width, height, canvas, colours, 0, ms, height * width, 0);
    GoodIsComplete(width, height, ReceiveAll(width, height, canvas, ms), colours);
  }

  lemma CookiePosition(width: nat, colours: Colours, from: nat, ms: seq<Message>, to: nat, i: nat) returns (mid: nat)
    requires Tiles(width, colours, from, ms, to) && i < |ms| && ms[i].Cookie?
    ensures from <= mid <= to && Tiles(width, colours, from, ms[..i], mid)
    ensures var at := Pixel(width, ms[i].x, ms[i].y);
      at + 1 == mid + ms[i].pending || (at == mid && ms[i].pending == 0)
    ensures i == |ms| - 1 ==> mid == to
  {
    mid := TilesSplit(width, colours, from, ms, to, i);
    assert ms[i..][0] == ms[i];
    if i == |ms| - 1 { assert ms[i..][1..] == []; }
  }

  /** The pixels are painted up to here. */
  function Reach(n: nat, to: nat): nat { if to > n then to else n }

  /** A server fails and another one resumes from any of its cookies: the image is completed
      if and only if the cookie names a pixel that is painted or is the next one to be.  If
      the server fails right after the cookie, that is if and only if its buffer held at
      most the current pixel, which the second server computes again. */
  lemma ResumptionIff(width: nat, height: nat, canvas: Canvas, colours: Colours, n: nat, from: nat,
                      first: seq<Message>, to: nat, i: nat, second: seq<Message>)
    requires width > 0 && height > 0
    requires Good(canvas, colours, n) && (forall p: nat :: p in canvas ==> p < n) && from <= n <= height * width
    requires Tiles(width, colours, from, first, to) && to <= height * width && i < |first| && first[i].Cookie?
    requires Tiles(width, colours, Pixel(width, first[i].x, first[i].y), second, height * width)
    ensures var end := ReceiveAll(width, height, ReceiveAll(width, height, canvas, first), second);
      && (Good(end, colours, height * width) <==> Pixel(width, first[i].x, first[i].y) <= Reach(n, to))
      && (i == |first| - 1 && n <= to ==> (Good(end, colours, height * width) <==> first[i].pending <= 1))
  {
    var at, lost := Pixel(width, first[i].x, first[i].y), Reach(n, to);
    var mid := ReceiveAll(width, height, canvas, first);
    var end := ReceiveAll(width, height, mid, second);
    var pos := CookiePosition(width, colours, from, first, to, i);
    if at <= lost {
      SessionExtends(width, height, canvas, colours, from, first, to, n);
      SessionExtends(width, height, mid, colours, at, second, height * width, lost);
    } else {
      var start := TilesSplit(width, colours, at, second, height * width, 0);
      SessionKeys(width, height, canvas, colours, from, first, to, lost);
      SessionKeys(width, height, mid, colours, at, second, height * width, lost);
      assert lost !in end;
    }
  }

  /** The alert path sends a cookie while two pixels are still buffered, and the server
      fails: the first of them is painted by neither server. */
  lemma BufferedPixelsAreLost(colours: Colours)
    ensures var first, second := [Cookie(0, 0, 0), Cookie(1, 0, 2)], [Cookie(1, 0, 0), Data(1, 0, [colours(1)])];
      && Tiles(2, colours, 0, first, 0) && Tiles(2, colours, 1, second, 2)
      && 0 !in ReceiveAll(2, 1, ReceiveAll(2, 1, map[], first), second)
  {
    var first, second := [Cookie(0, 0, 0), Cookie(1, 0, 2)], [Cookie(1, 0, 0), Data(1, 0, [colours(1)])];
    assert first[1..] == [Cookie(1, 0, 2)] && first[1..][1..] == [];
    assert second[1..] == [Data(1, 0, [colours(1)])] && second[1..][1..] == [];
    assert Tiles(2, colours, 0, [], 0) && Tiles(2, colours, 2, [], 2);
    assert Tiles(2, colours, 0, first[1..], 0) && Tiles(2, colours, 1, second[1..], 2);
    SessionKeys(2, 1, map[], colours, 0, first, 0, 0);
    SessionKeys(2, 1, ReceiveAll(2, 1, map[], first), colours, 1, second, 2, 0);
  }

  /** What the client received from one server, and which of its cookies the next one
      resumed from. */
  datatype Session = Session(messages: seq<Message>, cookie: nat)

  /** Each server but the last resumes from a cookie of its predecessor that names no pixel
      behind the next one to be painted; the last one finishes the image. */
  ghost predicate Chain(width: nat, height: nat, colours: Colours, from: nat, sessions: seq<Session>)
    decreases |sessions|
  {
    sessions != [] &&
    var ms, i := sessions[0].messages, sessions[0].cookie;
    if |sessions| == 1 then Tiles(width, colours, from, ms, height * width)
    else
      && i < |ms| && ms[i].Cookie?
      && (exists to: nat :: to <= height * width && Tiles(width, colours, from, ms, to) && Pixel(width, ms[i].x, ms[i].y) <= to)
      && Chain(width, height, colours, Pixel(width, ms[i].x, ms[i].y), sessions[1..])
  }

  function ReceiveSessions(width: nat, height: nat, canvas: Canvas, sessions: seq<Session>): Canvas
    decreases |sessions|
  {
    if sessions == [] then canvas
    else ReceiveSessions(width, height, ReceiveAll(width, height, canvas, sessions[0].messages), sessions[1..])
  }

  /** Any number of such failovers completes the same image. */
  lemma {:induction false} FailoversComplete(width: nat, height: nat, canvas: Canvas, colours: Colours,
                                             from: nat, n: nat, sessions: seq<Session>)
    requires width > 0 && height > 0 && Chain(width, height, colours, from, sessions)
    requires Good(canvas, colours, n) && from <= n
    ensures ImageComplete(width, height, ReceiveSessions(width, height, canvas, sessions), colours)
    decreases |sessions|
  {
    var ms, i := sessions[0].messages, sessions[0].cookie;
    var next := ReceiveAll(width, height, canvas, ms);
    if |sessions| == 1 {
      SessionExtends(width, height, canvas, colours, from, ms, height * width, n);
      assert ReceiveSessions(width, height, next, sessions[1..]) == next;
      GoodIsComplete(width, height, next, colours);
    } else {
      var to: nat :| to <= height * width && Tiles(width, colours, from, ms, to) && Pixel(width, ms[i].x, ms[i].y) <= to;
      SessionExtends(width, height, canvas, colours, from, ms, to, n);
      FailoversComplete(width, height, next, colours, Pixel(width, ms[i].x, ms[i].y), if to > n then to else n, sessions[1..]);
    }
  }
}
