/** Shared value types of the model: bytes, optional and fallible results,
    RGB pixels and row-major images built by `put_pixel`-style updates. */
module Common {

  /** An unsigned 8-bit value (Rust `u8`). */
  type Byte = x: int | 0 <= x < 256

  /** An unsigned 16-bit value (Rust `u16`). */
  type U16 = x: int | 0 <= x < 0x1_0000

  /** An unsigned 32-bit value (Rust `u32`). */
  type U32 = x: int | 0 <= x < 0x1_0000_0000

  /** `u16::from_be_bytes([hi, lo])`. */
  function FromBigEndian16(hi: Byte, lo: Byte): U16 {
    hi as int * 0x100 + lo as int
  }

  /** The high byte of the word is `hi` and the low byte `lo`. */
  lemma BigEndian16Bytes(hi: Byte, lo: Byte)
    ensures FromBigEndian16(hi, lo) / 0x100 == hi && FromBigEndian16(hi, lo) % 0x100 == lo
  {
    ShiftByte(hi, lo);
  }

  /** `u32::from_be_bytes(b)`: the first byte is the most significant. */
  function FromBigEndian32(b: seq<Byte>): (w: U32)
    requires |b| == 4
  {
    ((b[0] as int * 0x100 + b[1] as int) * 0x100 + b[2] as int) * 0x100 + b[3] as int
  }

  /** `u32::to_be_bytes(w)`: the word's bytes, most significant first,
      peeled off eight bits at a time. */
  function ToBigEndian32(w: U32): (b: seq<Byte>)
    ensures |b| == 4
  {
    var w1 := w / 0x100;
    var w2 := w1 / 0x100;
    [w2 / 0x100, w2 % 0x100, w1 % 0x100, w % 0x100]
  }

  lemma ShiftByte(high: int, low: Byte)
    ensures (high * 0x100 + low) / 0x100 == high && (high * 0x100 + low) % 0x100 == low
  {
  }

  lemma SplitByte(w: nat)
    ensures w == (w / 0x100) * 0x100 + w % 0x100 && w % 0x100 < 0x100
  {
  }

  /** Reading four bytes as a big-endian word and writing it back gives
      the same bytes, and the other way round. */
  lemma BigEndian32RoundTrip(b: seq<Byte>, w: U32)
    requires |b| == 4
    ensures ToBigEndian32(FromBigEndian32(b)) == b
    ensures FromBigEndian32(ToBigEndian32(w)) == w
  {
    var b01 := b[0] as int * 0x100 + b[1];
    var b012 := b01 * 0x100 + b[2];
    ShiftByte(b012, b[3]);
    ShiftByte(b01, b[2]);
    ShiftByte(b[0], b[1]);
    var w1 := w / 0x100;
    var w2 := w1 / 0x100;
    SplitByte(w);
    SplitByte(w1);
    SplitByte(w2);
  }

  datatype Option<T> = None | Some(value: T)

  datatype Result<T, E> = Ok(value: T) | Err(error: E)

  /** An `image::Rgb<u8>` pixel. */
  datatype Rgb = Rgb(r: Byte, g: Byte, b: Byte)

  const Black: Rgb := Rgb(0, 0, 0)

  /** An image buffer of `width` x `height` pixels, stored row by row:
      the pixel at column `x` and row `y` is `rows[y][x]`. The dimensions are
      kept explicitly, so that a 3x0 image differs from a 0x3 one. */
  datatype Image<T> = Image(width: nat, height: nat, rows: seq<seq<T>>)
  {
    predicate Valid() {
      |rows| == height && forall y :: 0 <= y < |rows| ==> |rows[y]| == width
    }

    predicate InBounds(x: int, y: int) {
      0 <= x < width && 0 <= y < height
    }

    /** `get_pixel(x, y)`. */
    function At(x: int, y: int): T
      requires Valid() && InBounds(x, y)
    {
      rows[y][x]
    }

    /** `put_pixel(x, y, v)`: the image with one pixel replaced. */
    function Put(x: int, y: int, v: T): (img: Image<T>)
      requires Valid() && InBounds(x, y)
      ensures img.Valid() && img.width == width && img.height == height
      ensures forall i, j :: img.InBounds(i, j) ==>
                img.At(i, j) == if i == x && j == y then v else At(i, j)
    {
      Image(width, height, rows[y := rows[y][x := v]])
    }
  }

  /** `ImageBuffer::new(width, height)` filled with `v`. */
  function Blank<T>(width: nat, height: nat, v: T): (img: Image<T>)
    ensures img.Valid() && img.width == width && img.height == height
    ensures forall i, j :: img.InBounds(i, j) ==> img.At(i, j) == v
  {
    Image(width, height, seq(height, _ => seq(width, _ => v)))
  }

  function Min(a: int, b: int): int { if a <= b then a else b }

  function Max(a: int, b: int): int { if a >= b then a else b }
}
