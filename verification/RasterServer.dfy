/**
 The server side of the raster protocol: the nested loops over the image, the fixed
 buffer of points and the decisions to flush it or to send a cookie.
 */
module RasterServer {
  import opened RasterProtocol

  /** What clock, timers, settings and transport decide for one pixel. */
  datatype Decision = Decision(
    failureTest: bool,   // the failure tester strikes after a full packet
    alerted: bool,       // the asynchronous timer has fired
    late: bool,          // the last transmission is more than a second ago
    cookieDue: bool,
    shutdown: bool,
    dataSent: bool,      // transmissions of data succeed
    cookieSent: bool)    // transmissions of cookies succeed

  datatype Outcome = Okay | Abort | Shutdown

  /** Nothing is due for a pixel that does not fill the buffer. */
  predicate IsQuiet(d: Decision) { !d.alerted && !d.shutdown }

  /** Only a cookie is due: the timer has fired, but the last data went out recently. */
  predicate IsCookieOnly(d: Decision) { d.alerted && !d.late && d.cookieDue && d.cookieSent && !d.shutdown }

  /** The buffer is sent: it is full, or the last transmission was too long ago. */
  predicate IsFlushed(d: Decision, full: bool) { full || (d.alerted && d.late) }

  /** A cookie goes out last: before a provoked failure, or when it is due. */
  predicate EndsWithCookie(d: Decision, full: bool) {
    d.cookieSent && if full && d.failureTest then true else d.alerted && d.cookieDue
  }

  /** The session goes on: no failure is provoked, the server does not shut down, and all
      that is due can be sent. */
  predicate Continues(d: Decision, full: bool) {
    && !(full && d.failureTest) && !d.shutdown
    && (IsFlushed(d, full) ==> d.dataSent) && (d.alerted && d.cookieDue ==> d.cookieSent)
  }

  class FractalGeneratorServer {
    const width: nat
    const height: nat
    const colours: Colours
    const buffer: array<int>
    var currentX: nat
    var currentY: nat
    var points: nat
    var startX: nat
    var startY: nat
    var sent: seq<Message>
    ghost var from: nat

    ghost predicate Valid()
      reads this, buffer
    {
      && buffer.Length == MAX_POINTS && width > 0 && height > 0
      && currentX <= width && points <= MAX_POINTS
    }

    /** The next pixel to be put into the buffer. */
    ghost function Position(): nat
      reads this
    {
      Pixel(width, currentX, currentY)
    }

    /** All pixels from `from` up to `next` are either in the packets sent or in the buffer. */
    ghost predicate Complete(next: nat)
      requires Valid()
      reads this, buffer
    {
      && points <= next
      && Tiles(width, colours, from, sent, next - points)
      && (forall k :: 0 <= k < points ==> buffer[k] == colours(next - points + k))
      && (points > 0 ==> startX < width && Pixel(width, startX, startY) == next - points)
      && (points == 0 ==> startX == 0 && startY == 0)
    }

    constructor (width: nat, height: nat, colours: Colours, x: nat, y: nat)
      requires width > 0 && height > 0 && x < width && y < height
      ensures Valid() && Position() == from == Pixel(width, x, y) && Complete(Position())
      ensures this.width == width && this.height == height && this.colours == colours
      ensures currentX == x && currentY == y && sent == [] && points == 0 && fresh(buffer)
    {
      this.width, this.height, this.colours := width, height, colours;
      buffer := new int[MAX_POINTS](_ => 0);
      currentX, currentY, points, startX, startY := x, y, 0, 0, 0;
      sent, from := [], Pixel(width, x, y);
    }

    method SendData(ok: bool, ghost next: nat)
      requires Valid() && Complete(next)
      modifies this`points, this`startX, this`startY, this`sent
      ensures Valid() && points == 0
      ensures ok ==> Complete(next)
      ensures !ok ==> sent == old(sent) && Partial(next)
    {
      ghost var to: nat := next - points;
      assert Tiles(width, colours, from, sent, to);
      if ok {
        ghost var packet := Data(startX, startY, buffer[..points]);
        assert [packet][1..] == [];
        TilesConcat(width, colours, from, sent, next - points, [packet], next);
        sent := sent + [Data(startX, startY, buffer[..points])];
      }
      points, startX, startY := 0, 0, 0;
      assert ok || Tiles(width, colours, from, sent, to);
    }

    method SendCookie(ok: bool, ghost next: nat)
      requires Valid() && Complete(next) && currentX < width
      requires next == Position() + 1 || (next == Position() && points == 0)
      modifies this`sent
      ensures Valid() && Complete(next)
      ensures sent == if ok then old(sent) + [Cookie(currentX, currentY, points)] else old(sent)
    {
      if ok {
        ghost var cookie := Cookie(currentX, currentY, points);
        assert [cookie][1..] == [];
        TilesConcat(width, colours, from, sent, next - points, [cookie], next - points);
        sent := sent + [Cookie(currentX, currentY, points)];
      }
    }

    /** Some prefix of the pixels has been sent completely. */
    ghost predicate Partial(limit: nat)
      reads this
    {
      exists to: nat :: to <= limit && Tiles(width, colours, from, sent, to)
    }

    /** Puts a pixel into the buffer. */
    method PutPoint(colour: int)
      requires Valid() && Complete(Position())
      requires points < MAX_POINTS && currentX < width && colour == colours(Position())
      modifies this`points, this`startX, this`startY, buffer
      ensures Valid() && Complete(Position() + 1) && points == old(points) + 1
    {
      if points == 0 {
        startX, startY := currentX, currentY;
      }
      buffer[points] := colour;
      points := points + 1;
    }

    /** Sends what is due after a pixel: the full buffer, what a timer asks for, and
        everything when the server shuts down. */
    method SendWhatIsDue(d: Decision) returns (result: Outcome)
      requires Valid() && Complete(Position() + 1) && currentX < width
      modifies this`points, this`startX, this`startY, this`sent
      ensures Valid()
      ensures result == Okay ==> Complete(Position() + 1) && points < MAX_POINTS
      ensures result != Okay ==> Partial(Position() + 1)
      ensures old(points) < MAX_POINTS && (IsQuiet(d) || IsCookieOnly(d)) ==>
        && result == Okay && points == old(points)
        && sent == old(sent) + if IsCookieOnly(d) then [Cookie(currentX, currentY, points)] else []
      ensures result == Okay <==> Continues(d, old(points) >= MAX_POINTS)
      ensures result == Okay && IsFlushed(d, old(points) >= MAX_POINTS) ==> points == 0
      ensures result != Abort && EndsWithCookie(d, old(points) >= MAX_POINTS) ==>
        sent != [] && sent[|sent| - 1] == Cookie(currentX, currentY, points)
      ensures result == Shutdown <==> old(points) >= MAX_POINTS && d.dataSent && d.failureTest
      ensures result == Abort && d.dataSent && d.cookieSent ==>
        d.shutdown && points == 0 && sent != [] && sent[|sent| - 1] == Cookie(currentX, currentY, 0)
    {
      ghost var next := Position() + 1;
      hide Tiles, Complete, Partial, Pixel;
      if points >= MAX_POINTS {
        SendData(d.dataSent, next);
        if !d.dataSent { return Abort; }
        if d.failureTest {
          SendCookie(d.cookieSent, next);
          CompleteIsPartial(next);
          return Shutdown;
        }
      }
      if d.alerted {
        if d.late {
          SendData(d.dataSent, next);
          if !d.dataSent { return Abort; }
        }
        if d.cookieDue {
          SendCookie(d.cookieSent, next);
          CompleteIsPartial(next);
          if !d.cookieSent { return Abort; }
        }
      }
      if d.shutdown {
        SendData(d.dataSent, next);
        if d.dataSent {
          SendCookie(d.cookieSent, next);
          CompleteIsPartial(next);
        }
        return Abort;
      }
      return Okay;
    }

    lemma CompleteIsPartial(next: nat)
      requires Valid() && Complete(next)
      ensures Partial(next)
    {
      assert Tiles(width, colours, from, sent, next - points);
    }

    /** Handles the current pixel and moves on to the next one of the row. */
    method AdvanceX(colour: int, d: Decision) returns (result: Outcome)
      requires Valid() && Complete(Position())
      requires points < MAX_POINTS && currentX < width && colour == colours(Position())
      modifies this`currentX, this`points, this`startX, this`startY, this`sent, buffer
      ensures Valid()
      ensures result == Okay ==>
        Complete(Position()) && currentX == old(currentX) + 1 && points < MAX_POINTS
      ensures result != Okay ==> Partial(old(Position()) + 1)
      ensures old(points) + 1 < MAX_POINTS && (IsQuiet(d) || IsCookieOnly(d)) ==>
        && result == Okay && points == old(points) + 1
        && sent == old(sent) + if IsCookieOnly(d) then [Cookie(old(currentX), currentY, points)] else []
      ensures result == Okay <==> Continues(d, old(points) + 1 >= MAX_POINTS)
      ensures result == Okay && IsFlushed(d, old(points) + 1 >= MAX_POINTS) ==> points == 0
      ensures result != Abort && EndsWithCookie(d, old(points) + 1 >= MAX_POINTS) ==>
        sent != [] && sent[|sent| - 1] == Cookie(old(currentX), currentY, points)
      ensures result == Abort && d.dataSent && d.cookieSent ==>
        d.shutdown && points == 0 && sent != [] && sent[|sent| - 1] == Cookie(old(currentX), currentY, 0)
    {
      hide Tiles, Complete, IsQuiet, IsCookieOnly, Pixel, Continues, IsFlushed, EndsWithCookie;
      PutPoint(colour);
      result := SendWhatIsDue(d);
      if result == Okay { NextColumn(); }
    }

    method NextColumn()
      requires Valid() && Complete(Position() + 1) && currentX < width
      modifies this`currentX
      ensures Valid() && Complete(Position()) && Position() == old(Position()) + 1 && currentX == old(currentX) + 1
    {
      currentX := currentX + 1;
    }

    method AdvanceY()
      requires Valid() && Complete(Position()) && currentX == width
      modifies this`currentX, this`currentY
      ensures Valid() && Complete(Position()) && currentX == 0 && currentY == old(currentY) + 1
    {
      NextRow(width, currentY);
      currentY := currentY + 1;
      currentX := 0;
    }

    /** Computes the rest of the current row. */
    method CalculateRow(decide: nat -> Decision, first: nat) returns (result: Outcome, step: nat)
      requires Valid() && Complete(Position()) && currentX < width && currentY < height && points < MAX_POINTS
      modifies this`currentX, this`points, this`startX, this`startY, this`sent, buffer
      ensures Valid()
      ensures result == Okay ==> Complete(Position()) && currentX == width && points < MAX_POINTS
      ensures result != Okay ==> Partial(height * width)
    {
      step, result := first, Okay;
      while currentX < width
        invariant Valid() && Complete(Position()) && points < MAX_POINTS
        decreases width - currentX
      {
        PixelInside(width, height, currentX, currentY);
        step := step + 1;
        result := AdvanceX(colours(Pixel(width, currentX, currentY)), decide(step));
        if result != Okay { return; }
      }
      result := Okay;
    }

    /** Computes the image from the current position on.  After an undisturbed run the
        packets carry all remaining pixels; in any case what was sent is a correct part. */
    method CalculateImage(decide: nat -> Decision) returns (result: Outcome)
      requires Valid() && Complete(Position()) && currentX < width && currentY < height
      requires points == 0 && from == Position() && sent == []
      modifies this, buffer
      ensures result == Okay ==> Tiles(width, colours, from, sent, height * width)
      ensures result != Okay ==> Partial(height * width)
      ensures from == old(from)
    {
      PixelInside(width, height, currentX, currentY);
      SendCookie(decide(0).cookieSent, Position());
      if !decide(0).cookieSent {
        assert Tiles(width, colours, from, sent, Position());
        return Abort;
      }
      var step := 0;
      while currentY < height
        invariant Valid() && Complete(Position()) && currentX < width && currentY <= height && points < MAX_POINTS
        invariant currentY == height ==> currentX == 0
        invariant from == old(from)
        decreases height - currentY
      {
        result, step := CalculateRow(decide, step);
        if result != Okay { return; }
        AdvanceY();
      }
      assert Position() == height * width;
      if points > 0 {
        SendData(decide(step + 1).dataSent, height * width);
        if !decide(step + 1).dataSent { return Abort; }
      }
      result := Okay;
    }

    /** A pixel that goes into the buffer and stays there, perhaps with a cookie. */
    method BufferPixel(d: Decision)
      requires Valid() && Complete(Position()) && currentX < width && points + 1 < MAX_POINTS
      requires IsQuiet(d) || IsCookieOnly(d)
      modifies this`currentX, this`points, this`startX, this`startY, this`sent, buffer
      ensures Valid() && Complete(Position()) && currentX == old(currentX) + 1 && points == old(points) + 1
      ensures sent == old(sent) + if IsCookieOnly(d) then [Cookie(old(currentX), currentY, points)] else []
    {
      var _ := AdvanceX(colours(Pixel(width, currentX, currentY)), d);
    }
  }

  /** A server that has sent its start cookie. */
  method StartSession(width: nat, height: nat, colours: Colours) returns (server: FractalGeneratorServer)
    requires width > 0 && height > 0
    ensures fresh(server) && fresh(server.buffer) && server.Valid() && server.Complete(server.Position())
    ensures server.width == width && server.currentX == 0 && server.currentY == 0 && server.points == 0
    ensures server.sent == [Cookie(0, 0, 0)]
  {
    server := new FractalGeneratorServer(width, height, colours, 0, 0);
    server.SendCookie(true, server.Position());
  }

  /** A session on an image of two pixels in one row: the start cookie, a quiet pixel, and
      a cookie while both pixels are still in the buffer. */
  method CookieWithBufferedPixels(colours: Colours, quiet: Decision, cookie: Decision) returns (sent: seq<Message>)
    requires IsQuiet(quiet) && IsCookieOnly(cookie)
    ensures sent == [Cookie(0, 0, 0), Cookie(1, 0, 2)]
  {
    hide Tiles, Pixel, FractalGeneratorServer.Complete;
    var server := StartSession(2, 1, colours);
    server.BufferPixel(quiet);
    server.BufferPixel(cookie);
    sent := server.sent;
  }
}
