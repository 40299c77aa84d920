/** Image renditions: named size/format variants that a store produces for its images. */
module ImageRendition {
  import opened Wrappers
  import opened JavaText

  const FormatJpeg := "jpeg"
  const FormatGif := "gif"
  const FormatBmp := "bmp"
  const FormatPng := "png"
  const FormatTiff := "tiff"

  datatype Rendition = Rendition(name: string, format: string, maxWidth: int, maxHeight: int)

  /** The pattern `[A-Za-z][0-9A-Za-z_-]+`. */
  predicate ValidRenditionName(name: string)
  {
    |name| >= 2 && IsAsciiLetter(name[0])
    && forall i :: 1 <= i < |name| ==> IsAsciiLetter(name[i]) || IsAsciiDigit(name[i]) || name[i] == '_' || name[i] == '-'
  }

  /** The constructor: a name that does not match the pattern raises "Invalid image rendition name.". */
  function NewRendition(name: string, format: string, maxWidth: int, maxHeight: int): (r: Result<Rendition>)
    ensures r.Ok? <==> ValidRenditionName(name)
    ensures r.Ok? ==> r.value.name == name && r.value.format == format
                      && r.value.maxWidth == maxWidth && r.value.maxHeight == maxHeight
    ensures r.Err? ==> r.error == "Invalid image rendition name."
  {
    if ValidRenditionName(name) then Ok(Rendition(name, format, maxWidth, maxHeight))
    else Err("Invalid image rendition name.")
  }

  const MimePrefix := "image/"

  function MimeTypeFromFormat(format: string): (mime: string)
    ensures StartsWith(mime, MimePrefix) && mime[|MimePrefix|..] == format
  {
    MimePrefix + format
  }

  /** A MIME type not starting with "image/" raises an error; otherwise the prefix is stripped. */
  function FormatFromMimeType(mime: string): (r: Result<string>)
    ensures r.Ok? <==> StartsWith(mime, MimePrefix)
    ensures r.Ok? ==> mime == MimePrefix + r.value
  {
    if StartsWith(mime, MimePrefix) then Ok(mime[|MimePrefix|..])
    else Err("Invalid image MIME-type: " + mime)
  }

  lemma FormatMimeRoundTrip(format: string)
    ensures FormatFromMimeType(MimeTypeFromFormat(format)) == Ok(format)
  {
  }

  /** A valid name has at least two characters and starts with a letter; one character is never enough. */
  lemma RenditionNameShape(name: string)
    ensures NewRendition(name, FormatPng, 100, 100).Ok? ==> |name| >= 2 && IsAsciiLetter(name[0])
    ensures |name| == 1 ==> NewRendition(name, FormatPng, 100, 100).Err?
    ensures NewRendition("thumb_1", FormatJpeg, 80, 80).Ok? && NewRendition("1thumb", FormatJpeg, 80, 80).Err?
  {
    assert ValidRenditionName("thumb_1");
    assert !IsAsciiLetter("1thumb"[0]);
  }
}
