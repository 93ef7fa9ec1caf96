/** The decision part of `resize_image`: whether an image needs shrinking,
    and the format the shrunk copy is written in. Decoding, orientation,
    thumbnailing and encoding are Pillow's; their results come in as
    parameters. */
module Resize {
  import opened Wrappers
  import opened Bytes
  import opened Text
  import DriveItems

  datatype Format = JPEG | PNG | WEBP | BMP | TIFF

  /** Pixel size of a decoded image, after EXIF orientation. */
  datatype Dims = Dims(width: nat, height: nat)

  /** Why `resize_image` raises: `Image.open` cannot read the bytes, or the
      shrinking itself fails (`thumbnail`, `convert` or `save` raises, for
      instance a mode that JPEG cannot store). */
  datatype ResizeError = DecodeError | EncodeError

  /** What `resize_image` returns: the bytes, the pixel size and whether it
      resized, plus the format it asked Pillow for when it did. */
  datatype Outcome = Outcome(content: Bytes, size: Dims, didResize: bool, format: Option<Format>)

  /** `ext_to_fmt`. */
  const FormatTable: map<string, Format> := map[
    ".jpg" := JPEG, ".jpeg" := JPEG, ".png" := PNG, ".webp" := WEBP,
    ".bmp" := BMP, ".tif" := TIFF, ".tiff" := TIFF, ".heic" := JPEG]

  /** `ext_to_fmt.get(out_ext.lower(), "JPEG")`. */
  function FormatFor(ext: string): Format {
    var key := Lower(ext);
    if key in FormatTable then FormatTable[key] else JPEG
  }

  function LongerEdge(d: Dims): nat {
    if d.width >= d.height then d.width else d.height
  }

  /** `resize_image(content, max_edge, out_ext)`. `decoded` is the size
      Pillow reads (None when it cannot open the bytes), `thumbSize` the
      size its thumbnail gives, and `encoded` what its save writes (None
      when the thumbnail, the conversion or the save raises). */
  function ResizeImage(content: Bytes, decoded: Option<Dims>, maxEdge: int, outExt: string,
                       thumbSize: Dims, encoded: Option<Bytes>): (r: Result<Outcome, ResizeError>)
    ensures r == Err(DecodeError) <==> decoded.None?
    ensures r == Err(EncodeError) <==> decoded.Some? && LongerEdge(decoded.value) > maxEdge && encoded.None?
    ensures r.Ok? ==> (r.value.didResize <==> LongerEdge(decoded.value) > maxEdge)
    ensures r.Ok? && !r.value.didResize ==>
      r.value.content == content && r.value.size == decoded.value && r.value.format.None?
    ensures r.Ok? && r.value.didResize ==>
      && encoded.Some? && r.value.content == encoded.value
      && r.value.size == thumbSize && r.value.format == Some(FormatFor(outExt))
  {
    match decoded
    case None => Err(DecodeError)
    case Some(size) =>
      if LongerEdge(size) <= maxEdge then Ok(Outcome(content, size, false, None))
      else if encoded.None? then Err(EncodeError)
      else Ok(Outcome(encoded.value, thumbSize, true, Some(FormatFor(outExt))))
  }

  /** The lookup ignores letter case. */
  lemma FormatForIgnoresCase(ext: string)
    ensures FormatFor(ext) == FormatFor(Lower(ext))
  {
    LowerIdempotent(ext);
  }

  /** The format table and `IMG_EXT` list the same extensions, so every
      extension the selection accepts by name has its own table entry;
      outside the table the format is JPEG. */
  lemma FormatTableMatchesImageExtensions(ext: string)
    ensures FormatTable.Keys == set e | e in DriveItems.ImageExtensions
    ensures Lower(ext) !in DriveItems.ImageExtensions ==> FormatFor(ext) == JPEG
    ensures FormatFor(ext) == PNG <==> Lower(ext) == ".png"
    ensures FormatFor(ext) == WEBP <==> Lower(ext) == ".webp"
    ensures FormatFor(ext) == BMP <==> Lower(ext) == ".bmp"
    ensures FormatFor(ext) == TIFF <==> Lower(ext) == ".tif" || Lower(ext) == ".tiff"
  {
  }
}
