/**
 * The pixel sink the drawing functions write to.
 *
 * The rasterisers, the font and the test pattern receive a pixel-write
 * function and an opaque framebuffer; they never read pixels back and they
 * ignore what the write function returns. They are therefore modelled as
 * producing the sequence of calls they make, and `Paint` plays such a
 * sequence into the framebuffer with `Framebuffer.SetPixel`.
 */
module Canvas {
  import opened Common
  import FB = Framebuffer

  /** An `int` argument passed to a `uint16_t` parameter: C reduces it modulo 2^16. */
  function U16(v: int): (r: nat)
    ensures r < 0x1_0000
    ensures 0 <= v < 0x1_0000 ==> r == v
  {
    v % 0x1_0000
  }

  /** One call of the pixel-write function, with the coordinates as the
      callee receives them. */
  datatype Call = Call(x: nat, y: nat, v: nat)

  /** The framebuffer after the calls are made in order; the status of each
      write is discarded, as every caller in the drawing code does. */
  function Paint(fb: FB.Framebuffer, calls: seq<Call>): (r: FB.Framebuffer)
    requires FB.Shape(fb)
    ensures FB.Shape(r) && r.columns == fb.columns && r.pages == fb.pages
    decreases |calls|
  {
    if calls == [] then fb
    else Paint(FB.SetPixel(fb, calls[0].x, calls[0].y, calls[0].v).1, calls[1..])
  }

  /** The value of the last call aimed at (x, y), if any. */
  function LastWrite(calls: seq<Call>, x: nat, y: nat): (r: Option<nat>)
    ensures r.None? <==> forall i :: 0 <= i < |calls| ==> (calls[i].x, calls[i].y) != (x, y)
    ensures r.Some? ==> exists i :: 0 <= i < |calls| && calls[i] == Call(x, y, r.value)
    decreases |calls|
  {
    if calls == [] then None
    else
      var rest := LastWrite(calls[1..], x, y);
      if rest.Some? then
        var i :| 0 <= i < |calls[1..]| && calls[1..][i] == Call(x, y, rest.value);
        assert calls[i + 1] == calls[1..][i];
        rest
      else if (calls[0].x, calls[0].y) == (x, y) then Some(calls[0].v)
      else
        assert forall i :: 1 <= i < |calls| ==> calls[i] == calls[1..][i - 1];
        None
  }

  /** A pixel after painting holds the last value written to it (as a bit),
      and a pixel no call aims at is unchanged. */
  lemma {:induction false} PaintReads(fb: FB.Framebuffer, calls: seq<Call>, x: nat, y: nat)
    requires FB.Shape(fb) && FB.InBounds(fb, x, y)
    ensures FB.InBounds(Paint(fb, calls), x, y)
    ensures FB.Pixel(Paint(fb, calls), x, y) ==
              match LastWrite(calls, x, y)
              case None => FB.Pixel(fb, x, y)
              case Some(v) => FB.Bit(v)
    decreases |calls|
  {
    if calls != [] {
      var c := calls[0];
      var f := FB.SetPixel(fb, c.x, c.y, c.v).1;
      PaintReads(f, calls[1..], x, y);
      if (c.x, c.y) == (x, y) {
        FB.SetPixelReadsBack(fb, x, y, c.v);
      } else {
        FB.SetPixelFrame(fb, c.x, c.y, c.v, x, y);
      }
    }
  }

  /** Painting keeps the dirty counter equal to the number of dirty tiles. */
  lemma {:induction false} PaintKeepsValid(fb: FB.Framebuffer, calls: seq<Call>)
    requires FB.Valid(fb)
    ensures FB.Valid(Paint(fb, calls))
    decreases |calls|
  {
    if calls != [] {
      FB.SetPixelKeepsValid(fb, calls[0].x, calls[0].y, calls[0].v);
      PaintKeepsValid(FB.SetPixel(fb, calls[0].x, calls[0].y, calls[0].v).1, calls[1..]);
    }
  }

  /** Positions a call sequence writes to. */
  predicate Hits(calls: seq<Call>, x: nat, y: nat) {
    exists i :: 0 <= i < |calls| && calls[i].x == x && calls[i].y == y
  }

  /** Every call writes the same value. */
  predicate Uniform(calls: seq<Call>, v: nat) {
    forall i :: 0 <= i < |calls| ==> calls[i].v == v
  }

  /** Painting a single-valued trace: every pixel it hits reads `Bit(v)`,
      every other pixel is unchanged. */
  lemma PaintUniform(fb: FB.Framebuffer, calls: seq<Call>, v: nat, x: nat, y: nat)
    requires FB.Shape(fb) && FB.InBounds(fb, x, y) && Uniform(calls, v)
    ensures FB.InBounds(Paint(fb, calls), x, y)
    ensures Hits(calls, x, y) ==> FB.Pixel(Paint(fb, calls), x, y) == FB.Bit(v)
    ensures !Hits(calls, x, y) ==> FB.Pixel(Paint(fb, calls), x, y) == FB.Pixel(fb, x, y)
  {
    PaintReads(fb, calls, x, y);
    var w := LastWrite(calls, x, y);
    if w.Some? {
      var i :| 0 <= i < |calls| && calls[i] == Call(x, y, w.value);
      assert calls[i].v == v;
    }
  }
}
