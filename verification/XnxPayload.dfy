/** The payloads of XNX messages as bytes (user/xnx/protocol.h): what the compositor takes them for
    (user/xnx/compositor.c), and which bytes a pixel write reads.  Sizes are 32-bit and wrap. */
module XnxPayload {
  import opened Bytes
  import opened XnxUpload
  import XnxFraming
  import Compositor
  import Desktop

  /** sizeof(struct xnx_write_buffer) */
  const WRITE_HEADER := 20
  const READ_BUF_SIZE := 65536

  datatype Write = Write(id: U32, x: U32, y: U32, width: U32, height: U32)

  function DecodeWrite(p: seq<Byte>): Write
    requires |p| >= WRITE_HEADER
  {
    Write(Load32(p, 0), Load32(p, 4), Load32(p, 8), Load32(p, 12), Load32(p, 16))
  }

  /** A product of two size_t. */
  function Times(a: U32, b: U32): U32 { a * b % WORD }

  /** pixel_bytes, and the test that follows. */
  function PixelBytes(w: Write): U32 { Times(Times(w.width, w.height), 4) }

  predicate Accepts(p: seq<Byte>) { |p| >= WRITE_HEADER && PixelBytes(DecodeWrite(p)) <= |p| - WRITE_HEADER }

  /** How much of n pixels from `at` on lies on a surface of this size. */
  function Clipped(size: nat, at: U32, n: U32): (k: nat)
    ensures k <= n && (k > 0 ==> at + k <= size)
  {
    if at >= size then 0 else if n > size - at then size - at else n
  }

  /** Where a row of the source starts, behind the header. */
  function Offset(width: U32, row: U32): U32 { Times(Times(row, width), 4) }

  /** The rows copied to a surface of sw by sh pixels are within the first `limit` pixel bytes. */
  ghost predicate ReadsWithin(w: Write, sw: nat, sh: nat, limit: int) {
    Clipped(sw, w.x, w.width) > 0 ==>
      forall row: U32 :: row < Clipped(sh, w.y, w.height) ==> RowWithin(w, sw, row, limit)
  }

  predicate RowWithin(w: Write, sw: nat, row: U32, limit: int) {
    Offset(w.width, row) + 4 * Clipped(sw, w.x, w.width) <= limit
  }

  /** The pixel at (r, c) of the surface after the write. */
  function Written(p: seq<Byte>, was: U32, sw: nat, sh: nat, r: nat, c: nat): U32
    requires |p| >= WRITE_HEADER
  {
    var w := DecodeWrite(p);
    Stored(p, w, Clipped(sw, w.x, w.width), Clipped(sh, w.y, w.height), was, r, c)
  }

  /** The same for the first rows of it. */
  function Stored(p: seq<Byte>, w: Write, width: U32, rows: U32, was: U32, r: nat, c: nat): U32 {
    if w.y <= r < w.y + rows && w.x <= c < w.x + width then PixelIn(p, Offset(w.width, r - w.y), c - w.x) else was
  }

  /** The pixel c of the row at this offset, if the payload reaches that far. */
  function PixelIn(p: seq<Byte>, offset: nat, c: nat): U32 {
    var a := WRITE_HEADER + offset + 4 * c;
    if a + 4 <= |p| then Load32(p, a) else 0
  }

  /** The XNX_WRITE_BUFFER case, on a surface of this client.  `inside` is whether only the payload has
      been read; the source goes on reading behind it. */
  method HandleBuffer(dst: array2<U32>, p: seq<Byte>) returns (ok: bool, inside: bool)
    modifies dst
    ensures ok <==> Accepts(p)
    ensures ok ==> (inside <==> ReadsWithin(DecodeWrite(p), dst.Length1, dst.Length0, |p| - WRITE_HEADER))
    ensures !ok ==> forall r, c :: 0 <= r < dst.Length0 && 0 <= c < dst.Length1 ==> dst[r, c] == old(dst[r, c])
    ensures ok && inside ==> forall r, c :: 0 <= r < dst.Length0 && 0 <= c < dst.Length1 ==>
      dst[r, c] == Written(p, old(dst[r, c]), dst.Length1, dst.Length0, r, c)
  {
    inside := true;
    if |p| < WRITE_HEADER {
      return false, inside;
    }
    var w := DecodeWrite(p);
    if PixelBytes(w) > |p| - WRITE_HEADER {
      return false, inside;
    }
    ok := true;
    var width, height := Clipped(dst.Length1, w.x, w.width), Clipped(dst.Length0, w.y, w.height);
    if width == 0 || height == 0 {
      return;
    }
    inside := CopyRows(dst, p, w, width, height);
  }

  /** The loop of handle_write_buffer. */
  method CopyRows(dst: array2<U32>, p: seq<Byte>, w: Write, width: nat, height: nat) returns (inside: bool)
    requires |p| >= WRITE_HEADER && w == DecodeWrite(p) && width > 0 && height > 0
    requires width == Clipped(dst.Length1, w.x, w.width) && height == Clipped(dst.Length0, w.y, w.height)
    modifies dst
    ensures inside <==> ReadsWithin(w, dst.Length1, dst.Length0, |p| - WRITE_HEADER)
    ensures inside ==> forall r, c :: 0 <= r < dst.Length0 && 0 <= c < dst.Length1 ==>
      dst[r, c] == Written(p, old(dst[r, c]), dst.Length1, dst.Length0, r, c)
  {
    var row, limit := 0, |p| - WRITE_HEADER;
    while row < height
      invariant row <= height
      invariant forall i: U32 :: i < row ==> RowWithin(w, dst.Length1, i, limit)
      invariant forall r, c :: 0 <= r < dst.Length0 && 0 <= c < dst.Length1 ==>
        dst[r, c] == Stored(p, w, width, row, old(dst[r, c]), r, c)
    {
      if Offset(w.width, row) + 4 * width > limit {
        assert !RowWithin(w, dst.Length1, row, limit);
        return false;
      }
      CopyRow(dst, p, w.x, w.y + row, width, Offset(w.width, row));
      row := row + 1;
    }
    inside := true;
  }

  method CopyRow(dst: array2<U32>, p: seq<Byte>, x: nat, y: nat, width: nat, offset: nat)
    requires y < dst.Length0 && x + width <= dst.Length1
    modifies dst
    ensures forall r, c :: 0 <= r < dst.Length0 && 0 <= c < dst.Length1 ==>
      dst[r, c] == if r == y && x <= c < x + width then PixelIn(p, offset, c - x) else old(dst[r, c])
  {
    forall c | x <= c < x + width {
      dst[y, c] := PixelIn(p, offset, c - x);
    }
  }

  // ----- when the reads stay inside -----

  lemma {:induction false} TimesExact(a: U32, b: U32)
    requires a * b < WORD
    ensures Times(a, b) == a * b
  {
  }

  lemma {:induction false} RowsBefore(width: nat, row: nat, height: nat)
    requires row < height
    ensures row * width + width <= height * width && 0 <= row * width
  {
    if row + 1 < height {
      RowsBefore(width, row, height - 1);
    }
    assert height * width == (height - 1) * width + width;
  }

  /** Where no wrap-around happens. */
  lemma {:induction false} OffsetExact(width: U32, row: U32, height: U32)
    requires row < height && 4 * (height * width) < WORD
    ensures Offset(width, row) == 4 * (row * width) && 4 * (row * width) + 4 * width <= 4 * (height * width)
  {
    RowsBefore(width, row, height);
    TimesExact(row, width);
    TimesExact(row * width, 4);
  }

  /** Without wrap-around an accepted write reads its payload only. */
  lemma {:induction false} InsideWithoutWrap(p: seq<Byte>, sw: nat, sh: nat)
    requires Accepts(p) && 4 * (DecodeWrite(p).width * DecodeWrite(p).height) < WORD
    ensures ReadsWithin(DecodeWrite(p), sw, sh, |p| - WRITE_HEADER)
  {
    var w, limit := DecodeWrite(p), |p| - WRITE_HEADER;
    TimesExact(w.width, w.height);
    TimesExact(w.width * w.height, 4);
    forall row: U32 | row < Clipped(sh, w.y, w.height) ensures RowWithin(w, sw, row, limit) {
      assert w.height * w.width == w.width * w.height;
      OffsetExact(w.width, row, w.height);
    }
  }

  /** As long as no row offset wraps, the last row decides. */
  lemma {:induction false} LastRowDecides(w: Write, sw: nat, sh: nat, limit: int)
    requires Clipped(sw, w.x, w.width) > 0 && Clipped(sh, w.y, w.height) > 0
    requires 4 * ((Clipped(sh, w.y, w.height) - 1) * w.width) < WORD
    ensures ReadsWithin(w, sw, sh, limit) <==>
      4 * ((Clipped(sh, w.y, w.height) - 1) * w.width) + 4 * Clipped(sw, w.x, w.width) <= limit
  {
    var last: U32 := Clipped(sh, w.y, w.height) - 1;
    forall row: U32 | row <= last
      ensures Offset(w.width, row) == 4 * (row * w.width) <= Offset(w.width, last) == 4 * (last * w.width)
    {
      if row < last { RowsBefore(w.width, row, last); }
      TimesExact(row, w.width);
      TimesExact(row * w.width, 4);
      TimesExact(last, w.width);
      TimesExact(last * w.width, 4);
    }
    assert RowWithin(w, sw, last, limit) <==> 4 * (last * w.width) + 4 * Clipped(sw, w.x, w.width) <= limit;
  }

  /** An accepted message without a single pixel: its size wraps to 0.  On every surface the first row
      is read behind the payload, and the second one behind the whole read buffer. */
  lemma {:induction false} WrapAccepted(p: seq<Byte>, sw: nat, sh: nat)
    requires |p| == WRITE_HEADER && DecodeWrite(p).x == 0 && DecodeWrite(p).y == 0
    requires DecodeWrite(p).width == 0x1_0000 && DecodeWrite(p).height == 0x4000 && sw > 0 && sh > 0
    ensures Accepts(p) && !ReadsWithin(DecodeWrite(p), sw, sh, |p| - WRITE_HEADER)
    ensures sh > 1 ==> !ReadsWithin(DecodeWrite(p), sw, sh, READ_BUF_SIZE - WRITE_HEADER)
  {
    var w := DecodeWrite(p);
    assert Times(0x1_0000, 0x4000) == 0x4000_0000 && Times(0x4000_0000, 4) == 0;
    assert Offset(w.width, 0) == 0 && !RowWithin(w, sw, 0, 0);
    assert Times(1, 0x1_0000) == 0x1_0000 && Times(0x1_0000, 4) == 0x4_0000;
    assert !RowWithin(w, sw, 1, READ_BUF_SIZE - WRITE_HEADER);
  }

  // ----- what the client sends -----

  function RowBytes(row: seq<U32>): (s: seq<Byte>)
    ensures |s| == 4 * |row|
  {
    if row == [] then [] else Encode(row[0]) + RowBytes(row[1..])
  }

  function AllBytes(rows: Rows): seq<Byte> {
    if rows == [] then [] else RowBytes(rows[0]) + AllBytes(rows[1..])
  }

  /** Where row r starts: 4 * (r * width), added up. */
  function Start(r: nat, width: nat): nat { if r == 0 then 0 else 4 * width + Start(r - 1, width) }

  lemma {:induction false} StartIs(r: nat, width: nat)
    ensures Start(r, width) == 4 * (r * width)
  {
    if r > 0 {
      StartIs(r - 1, width);
      assert r * width == width + (r - 1) * width;
    }
  }

  lemma {:induction false} AllBytesLength(rows: Rows, width: nat)
    requires Rectangle(rows, width)
    ensures |AllBytes(rows)| == Start(|rows|, width)
  {
    if rows != [] {
      AllBytesLength(rows[1..], width);
    }
  }

  lemma {:induction false} WordIn(a: seq<Byte>, b: seq<Byte>, at: nat)
    requires at + 4 <= |b|
    ensures Load32(a + b, |a| + at) == Load32(b, at)
  {
    assert (a + b)[|a| + at..|a| + at + 4] == b[at..at + 4];
  }

  lemma {:induction false} WordBefore(a: seq<Byte>, b: seq<Byte>, at: nat)
    requires at + 4 <= |a|
    ensures Load32(a + b, at) == Load32(a, at)
  {
    assert (a + b)[at..at + 4] == a[at..at + 4];
  }

  lemma {:induction false} RowPixel(row: seq<U32>, c: nat)
    requires c < |row|
    ensures Load32(RowBytes(row), 4 * c) == row[c]
  {
    var head, tail := Encode(row[0]), RowBytes(row[1..]);
    if c == 0 {
      WordBefore(head, tail, 0);
      DecodeEncode(row[0]);
      assert head[0..4] == head;
    } else {
      RowPixel(row[1..], c - 1);
      WordIn(head, tail, 4 * (c - 1));
    }
  }

  /** Pixel c of row r stands where the compositor looks for it. */
  lemma {:induction false} PixelAt(rows: Rows, width: nat, r: nat, c: nat)
    requires Rectangle(rows, width) && r < |rows| && c < width
    ensures WordAt(AllBytes(rows), Start(r, width) + 4 * c, rows[r][c])
  {
    var head, tail := RowBytes(rows[0]), AllBytes(rows[1..]);
    if r == 0 {
      RowPixel(rows[0], c);
      WordBefore(head, tail, 4 * c);
    } else {
      PixelAt(rows[1..], width, r - 1, c);
      WordBehind(head, tail, Start(r - 1, width) + 4 * c, rows[r][c]);
    }
  }

  /** The word at this place is x. */
  predicate WordAt(s: seq<Byte>, at: nat, x: U32) { at + 4 <= |s| && Load32(s, at) == x }

  lemma {:induction false} WordBehind(a: seq<Byte>, b: seq<Byte>, at: nat, x: U32)
    requires WordAt(b, at, x)
    ensures WordAt(a + b, |a| + at, x)
  {
    WordIn(a, b, at);
  }

  /** struct xnx_write_buffer as xnx_write_buffer fills it. */
  function Header(id: U32, m: Chunk): (s: seq<Byte>)
    requires |m.rows| < WORD
    ensures |s| == WRITE_HEADER
  {
    Encode(id) + Encode(m.x) + Encode(m.y) + Encode(m.width) + Encode(|m.rows|)
  }

  function EncodeWrite(id: U32, m: Chunk): (p: seq<Byte>)
    requires |m.rows| < WORD
    ensures |p| >= WRITE_HEADER
  {
    Header(id, m) + AllBytes(m.rows)
  }

  lemma {:induction false} DecodeEncodeWrite(id: U32, m: Chunk)
    requires |m.rows| < WORD
    ensures DecodeWrite(EncodeWrite(id, m)) == Write(id, m.x, m.y, m.width, |m.rows|)
  {
    var p := EncodeWrite(id, m);
    DecodeEncode(id);
    DecodeEncode(m.x);
    DecodeEncode(m.y);
    DecodeEncode(m.width);
    DecodeEncode(|m.rows|);
    assert p[0..4] == Encode(id) && p[4..8] == Encode(m.x) && p[8..12] == Encode(m.y);
    assert p[12..16] == Encode(m.width) && p[16..20] == Encode(|m.rows|);
  }

  /** A chunk the client may send: the pixels of a rectangle, as many as fit a message. */
  predicate Sendable(m: Chunk) { Good(m) && |m.rows| < WORD && 4 * (|m.rows| * m.width) <= MAX_PIXEL_BYTES }

  /** Such a message is accepted, and read as the pixels that were sent. */
  lemma {:induction false} SentIsRead(id: U32, m: Chunk, sw: nat, sh: nat)
    requires Sendable(m)
    ensures var p := EncodeWrite(id, m); Accepts(p) && ReadsWithin(DecodeWrite(p), sw, sh, |p| - WRITE_HEADER)
  {
    var p := EncodeWrite(id, m);
    DecodeEncodeWrite(id, m);
    AllBytesLength(m.rows, m.width);
    StartIs(|m.rows|, m.width);
    assert |m.rows| * m.width == m.width * |m.rows|;
    TimesExact(m.width, |m.rows|);
    TimesExact(m.width * |m.rows|, 4);
    InsideWithoutWrap(p, sw, sh);
  }

  lemma {:induction false} SentWord(id: U32, m: Chunk, row: nat, col: nat)
    requires Sendable(m) && row < |m.rows| && col < m.width
    ensures PixelIn(EncodeWrite(id, m), Start(row, m.width), col) == m.rows[row][col]
  {
    PixelAt(m.rows, m.width, row, col);
    WordBehind(Header(id, m), AllBytes(m.rows), Start(row, m.width) + 4 * col, m.rows[row][col]);
  }

  lemma {:induction false} SentPixel(id: U32, m: Chunk, was: U32, sw: nat, sh: nat, r: nat, c: nat)
    requires Sendable(m) && r < sh && c < sw
    ensures Written(EncodeWrite(id, m), was, sw, sh, r, c) == Pixel(was, m.x, m.y, m.width, m.rows, r, c)
  {
    DecodeEncodeWrite(id, m);
    if m.y <= r < m.y + |m.rows| && m.x <= c < m.x + m.width {
      SentWord(id, m, r - m.y, c - m.x);
      OffsetExact(m.width, r - m.y, |m.rows|);
      StartIs(r - m.y, m.width);
    }
  }

  /** From the client's rows through the bytes to the surface: what `HandleWrite` does with the rows. */
  method WriteThrough(dst: array2<U32>, id: U32, m: Chunk)
    requires Sendable(m)
    modifies dst
    ensures forall r, c :: 0 <= r < dst.Length0 && 0 <= c < dst.Length1 ==>
      dst[r, c] == Pixel(old(dst[r, c]), m.x, m.y, m.width, m.rows, r, c)
  {
    SentIsRead(id, m, dst.Length1, dst.Length0);
    var ok, inside := HandleBuffer(dst, EncodeWrite(id, m));
    forall r, c | 0 <= r < dst.Length0 && 0 <= c < dst.Length1
      ensures dst[r, c] == Pixel(old(dst[r, c]), m.x, m.y, m.width, m.rows, r, c)
    {
      SentPixel(id, m, old(dst[r, c]), dst.Length1, dst.Length0, r, c);
    }
  }

  // ----- dispatch -----

  /** The bits of a word as an int32_t. */
  function Signed(x: U32): (y: int)
    ensures Desktop.Int32(y)
  {
    if x < 0x8000_0000 then x else x - WORD
  }

  /** What handle_client_message takes a message for; `image` is whether pixels for it can be had. */
  function Parse(m: XnxFraming.Message, image: bool): Compositor.Message {
    var p := m.payload;
    if m.kind == 1 then (if |p| < 8 then Compositor.Malformed else Compositor.Create(Load32(p, 0), Load32(p, 4), image))
    else if m.kind == 2 then (if |p| < 4 then Compositor.Malformed else Compositor.Destroy(Load32(p, 0)))
    else if m.kind == 3 then (if |p| < 5 then Compositor.Malformed else Compositor.SetTitle)
    else if m.kind == 4 then
      (if |p| < 20 then Compositor.Malformed
       else
         var x, y := Signed(Load32(p, 4)), Signed(Load32(p, 8));
         Compositor.SetGeometry(Load32(p, 0), x, y, Load32(p, 12), Load32(p, 16), image))
    else if m.kind == 5 then (if Accepts(p) then Compositor.WriteBuffer else Compositor.Malformed)
    else if m.kind == 6 then (if |p| < 4 then Compositor.Malformed else Compositor.CommitTo(Load32(p, 0)))
    else if m.kind == 7 then Compositor.GetDisplayInfo
    else Compositor.Malformed
  }

  /** A message as it was read off the stream. */
  method HandleBytes(s: Compositor.Server, c: nat, m: XnxFraming.Message, image: bool, sent: bool) returns (ok: bool)
    requires s.Ready() && c < |s.d.clients| && Compositor.Sensible(Parse(m, image))
    modifies s
    ensures s.Ready() && Compositor.OthersKept(old(s.d), s.d, c)
    ensures ok <==> Compositor.Accepted(old(s.d), c, Parse(m, image)) && (Compositor.Answered(Parse(m, image)) ==> sent)
    ensures if Compositor.Accepted(old(s.d), c, Parse(m, image))
            then Compositor.Effect(old(s.d), c, Parse(m, image), s.d) else s.d == old(s.d)
  {
    ok := Compositor.HandleMessage(s, c, Parse(m, image), sent);
  }
}
