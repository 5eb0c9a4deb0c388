/** The option checks at the top of process. */
module Config {

  import opened Types

  /** The command-line options that reach process. */
  datatype Options = Options(
    bpp: Bpp,
    size: TileSize,
    dupes: bool,
    mirrors: bool,
    directSelect: bool,
    mode7: bool)

  /** The options process continues with, and whether it warned that mirror
      optimisation is ignored in mode 7. */
  datatype Checked = Checked(opts: Options, mirrorsIgnored: bool)

  /** Mode 7, direct-select, palette and size checks, in the order they are
      made. `paletted` and `rgbPalette` stand for the decoded image's mode
      "P" and its palette's mode "RGB". */
  function Validate(o: Options, paletted: bool, rgbPalette: bool, width: nat, height: nat): (r: Result<Checked>)
    ensures r.Ok? <==>
      && (o.mode7 ==> o.bpp == 8 && o.size == Size8x8)
      && (o.directSelect ==> o.bpp == 8)
      && (!o.directSelect ==> paletted && rgbPalette)
      && width % o.size.Side() == 0
      && height % o.size.Side() == 0
    ensures r.Ok? ==>
      && r.value.opts == o.(mirrors := o.mirrors && !o.mode7)
      && r.value.mirrorsIgnored == (o.mode7 && o.mirrors)
    ensures r == Err(Mode7NeedsBpp8) <==> o.mode7 && o.bpp != 8
    ensures r == Err(Mode7NeedsTile8x8) <==> o.mode7 && o.bpp == 8 && o.size != Size8x8
    ensures r == Err(DirectSelectNeedsBpp8) <==> !o.mode7 && o.directSelect && o.bpp != 8
    ensures r == Err(ImageNotPaletted) <==>
      (o.mode7 ==> o.bpp == 8 && o.size == Size8x8) && !o.directSelect && !paletted
    ensures r == Err(PaletteNotRgb) <==>
      (o.mode7 ==> o.bpp == 8 && o.size == Size8x8) && !o.directSelect && paletted && !rgbPalette
    ensures r == Err(WidthNotMultiple) <==>
      && (o.mode7 ==> o.bpp == 8 && o.size == Size8x8)
      && (o.directSelect ==> o.bpp == 8)
      && (!o.directSelect ==> paletted && rgbPalette)
      && width % o.size.Side() != 0
    ensures r == Err(HeightNotMultiple) <==>
      && (o.mode7 ==> o.bpp == 8 && o.size == Size8x8)
      && (o.directSelect ==> o.bpp == 8)
      && (!o.directSelect ==> paletted && rgbPalette)
      && width % o.size.Side() == 0
      && height % o.size.Side() != 0
  {
    if o.mode7 && o.bpp != 8 then Err(Mode7NeedsBpp8)
    else if o.mode7 && o.size != Size8x8 then Err(Mode7NeedsTile8x8)
    else
      var o' := if o.mode7 && o.mirrors then o.(mirrors := false) else o;
      if o.directSelect && o.bpp != 8 then Err(DirectSelectNeedsBpp8)
      else if !o.directSelect && !paletted then Err(ImageNotPaletted)
      else if !o.directSelect && !rgbPalette then Err(PaletteNotRgb)
      else if width % o.size.Side() != 0 then Err(WidthNotMultiple)
      else if height % o.size.Side() != 0 then Err(HeightNotMultiple)
      else Ok(Checked(o', o.mode7 && o.mirrors))
  }
}
