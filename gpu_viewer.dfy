/** The recorded GPU command list of the viewer: vertices with their
    texture-page coordinates, polygons, their display names, and frames
    that collect commands. */
module GpuViewer {
  import opened Common

  /** A signed 16-bit value (Rust `i16`). */
  type I16 = x: int | -0x8000 <= x < 0x8000

  datatype GpuVertex = GpuVertex(position: (I16, I16), texcoord: (bv8, bv8), colour: (Byte, Byte, Byte))

  /** `GpuVertex::new`. */
  const NewVertex: GpuVertex := GpuVertex((0, 0), (0, 0), (0, 0, 0))

  /** The new vertex is all zeros, so its texture coordinate in any page is
      that page's origin. */
  lemma NewVertexIsZero(texpage: bv16)
    ensures NewVertex.position == (0, 0) && NewVertex.texcoord == (0, 0) && NewVertex.colour == (0, 0, 0)
    ensures TexcoordReference(NewVertex, texpage) == (64 * (texpage % 16), 256 * ((texpage / 16) % 2))
  {
  }

  /** The bits per texel of `texpage`: 0 for 4-bit, 1 for 8-bit, 2 (and the
      reserved 3) for 15-bit textures. */
  function ColourDepth(texpage: bv16): bv16 {
    (texpage / 0x80) % 4
  }

  /** The texture coordinate in arithmetic terms: the page's origin is
      `64 * (texpage mod 16)` across and `256 * bit 4` down; `u` counts
      texels, four to a halfword at 4 bits and two at 8 bits. */
  function TexcoordReference(vertex: GpuVertex, texpage: bv16): (bv16, bv16) {
    var u := vertex.texcoord.0 as bv16;
    var depth := ColourDepth(texpage);
    var u := if depth == 0 then u / 4 else if depth == 1 then u / 2 else u;
    (64 * (texpage % 16) + u, 256 * ((texpage / 16) % 2) + vertex.texcoord.1 as bv16)
  }

  /** The page origin is a multiple of 64 up to 960 across and 0 or 256
      down; the scaled `u` lies within the page's 256 columns and `v` is
      added unchanged. */
  lemma TexcoordReferenceInPage(vertex: GpuVertex, texpage: bv16)
    ensures var (x, y) := TexcoordReference(vertex, texpage);
            var originX := 64 * (texpage % 16);
            && originX % 64 == 0 && originX <= 960
            && originX <= x < originX + 256
            && (y == vertex.texcoord.1 as bv16 || y == 256 + vertex.texcoord.1 as bv16)
  {
  }

  /** `GpuVertex::texcoord`: the vertex's texture coordinate inside the
      texture page `texpage`, in VRAM pixels (the `f32` conversion of these
      16-bit values is exact). The masks and shifts compute the reference
      coordinate. */
  function Texcoord(vertex: GpuVertex, texpage: bv16): (r: (bv16, bv16))
    ensures r == TexcoordReference(vertex, texpage)
  {
    var tpx := (texpage & 0xf) << 6;
    var tpy := (texpage & 0x10) << 4;
    var depth := (texpage & 0x180) >> 7;
    var u := vertex.texcoord.0 as bv16;
    var v := vertex.texcoord.1 as bv16;
    var u := if depth == 0 then u >> 2 else if depth == 1 then u >> 1 else u;
    PageOriginBits(texpage);
    TexelShiftBits(vertex.texcoord.0);
    (tpx + u, tpy + v)
  }

  /** The masks and shifts on `texpage` are its page origin and depth. */
  lemma PageOriginBits(texpage: bv16)
    ensures (texpage & 0xf) << 6 == 64 * (texpage % 16)
    ensures (texpage & 0x10) << 4 == 256 * ((texpage / 16) % 2)
    ensures (texpage & 0x180) >> 7 == ColourDepth(texpage)
  {
  }

  /** Shifting `u` right divides it. */
  lemma TexelShiftBits(u: bv8)
    ensures (u as bv16) >> 2 == (u as bv16) / 4 && (u as bv16) >> 1 == (u as bv16) / 2
  {
  }

  datatype GpuPolygon = GpuPolygon(
    vertices: seq<GpuVertex>,
    texpage: bv16,
    shaded: bool,
    quad: bool,
    textured: bool,
    semiTransparent: bool,
    rawTexture: bool)

  /** `GpuPolygon::new`: four new vertices, texture page 0, no flags. */
  const NewPolygon: GpuPolygon := GpuPolygon([NewVertex, NewVertex, NewVertex, NewVertex], 0, false, false, false, false, false)

  datatype GpuCommand = Polygon(polygon: GpuPolygon)

  /** `GpuCommand::name`. */
  function Name(command: GpuCommand): string {
    match command
    case Polygon(p) =>
      match (p.shaded, p.textured, p.quad)
      case (false, false, false) => "Monochrome Triangle"
      case (false, false, true) => "Monochrome Quad"
      case (false, true, false) => "Textured Triangle"
      case (false, true, true) => "Textured Quad"
      case (true, false, false) => "Shaded Triangle"
      case (true, false, true) => "Shaded Quad"
      case (true, true, false) => "Shaded Textured Triangle"
      case (true, true, true) => "Shaded Textured Quad"
  }

  /** A name is made of "Shaded " for a shaded polygon, then "Textured "
      for a textured one or "Monochrome " for one neither shaded nor
      textured, and last the shape, "Quad" or "Triangle". */
  lemma NameParts(command: GpuCommand)
    ensures var p := command.polygon;
            Name(command) == (if p.shaded then "Shaded " else "")
                             + (if p.textured then "Textured " else if p.shaded then "" else "Monochrome ")
                             + (if p.quad then "Quad" else "Triangle")
  {
    var p := command.polygon;
    var kind := if p.shaded then "Shaded " else "";
    var colour := if p.textured then "Textured " else if p.shaded then "" else "Monochrome ";
    var shape := if p.quad then "Quad" else "Triangle";
    assert Name(command) == kind + colour + shape by {
      match (p.shaded, p.textured, p.quad)
      case (false, false, false) => assert kind + colour + shape == "Monochrome Triangle";
      case (false, false, true) => assert kind + colour + shape == "Monochrome Quad";
      case (false, true, false) => assert kind + colour + shape == "Textured Triangle";
      case (false, true, true) => assert kind + colour + shape == "Textured Quad";
      case (true, false, false) => assert kind + colour + shape == "Shaded Triangle";
      case (true, false, true) => assert kind + colour + shape == "Shaded Quad";
      case (true, true, false) => assert kind + colour + shape == "Shaded Textured Triangle";
      case (true, true, true) => assert kind + colour + shape == "Shaded Textured Quad";
    }
  }

  /** Two polygons have the same name exactly when they agree on being
      shaded, textured and a quad: the eight combinations have eight
      different names, and no other field matters. */
  lemma NameIdentifiesKind(c1: GpuCommand, c2: GpuCommand)
    ensures Name(c1) == Name(c2) <==>
            (c1.polygon.shaded, c1.polygon.textured, c1.polygon.quad) ==
            (c2.polygon.shaded, c2.polygon.textured, c2.polygon.quad)
  {
    var n1, n2 := Name(c1), Name(c2);
    if (c1.polygon.shaded, c1.polygon.textured, c1.polygon.quad) !=
       (c2.polygon.shaded, c2.polygon.textured, c2.polygon.quad) {
      // the names differ in length or in their first letters
      assert |n1| != |n2| || n1[..3] != n2[..3] || n1[|n1| - 4..] != n2[|n2| - 4..];
    }
  }

  /** The new polygon has four new vertices, texture page 0 and every flag
      false: it is a monochrome triangle. */
  lemma NewPolygonIsBlank()
    ensures |NewPolygon.vertices| == 4 && forall v :: v in NewPolygon.vertices ==> v == NewVertex
    ensures NewPolygon.texpage == 0
    ensures !NewPolygon.shaded && !NewPolygon.quad && !NewPolygon.textured
    ensures !NewPolygon.semiTransparent && !NewPolygon.rawTexture
    ensures Name(Polygon(NewPolygon)) == "Monochrome Triangle"
  {
  }

  /** A frame's list of GPU commands, in submission order. */
  class GpuFrame {
    var commands: seq<GpuCommand>

    /** `GpuFrame::new`. */
    constructor ()
      ensures commands == []
    {
      commands := [];
    }

    /** `add`: the command goes last. */
    method Add(command: GpuCommand)
      modifies this
      ensures commands == old(commands) + [command]
    {
      commands := commands + [command];
    }

    /** `take`: this frame's commands become the other frame's, which is left
        empty. Rust's borrows make the two frames distinct. */
    method Take(frame: GpuFrame)
      requires frame != this
      modifies this, frame
      ensures commands == old(frame.commands) && frame.commands == []
    {
      commands := frame.commands;
      frame.commands := [];
    }
  }
}
