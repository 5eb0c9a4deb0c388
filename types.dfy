/** Value types shared by every stage of the tile encoder. */
module Types {

  /** One byte of a Python 2 byte string. */
  type Byte = b: int | 0 <= b < 0x100

  /** One unsigned 16-bit word, as written with struct.pack("<H"). */
  type Word = w: int | 0 <= w < 0x1_0000

  /** A tile's pixel bytes, row-major. */
  type Tile = seq<Byte>

  /** The bit depths the command line accepts. */
  type Bpp = b: nat | b == 2 || b == 4 || b == 8 witness 2

  /** The tile sizes the command line accepts; both are square. */
  datatype TileSize = Size8x8 | Size16x16 {
    function Side(): (n: nat)
      ensures n == 8 || n == 16
    {
      if Size8x8? then 8 else 16
    }
  }

  /** An RGB colour with 8-bit channels. */
  datatype Rgb = Rgb(r: Byte, g: Byte, b: Byte)

  /** One tile-map entry: (tileIndex, paletteNum, flipFlags). */
  datatype Entry = Entry(index: nat, palette: nat, flip: nat)

  /** The conditions under which the tool raises its Error exception. */
  datatype Error =
    | Mode7NeedsBpp8
    | Mode7NeedsTile8x8
    | DirectSelectNeedsBpp8
    | ImageNotPaletted
    | PaletteNotRgb
    | WidthNotMultiple
    | HeightNotMultiple

  datatype Result<+T> = Ok(value: T) | Err(error: Error)

  datatype Option<+T> = None | Some(value: T)
}
