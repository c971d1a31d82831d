/**
  The display record both record-producing scripts emit for a QR code
  generator: a station name, the text to encode, the image size and the
  error-correction level.
 */
module Records {

  import Strip

  /** QR error-correction levels. */
  datatype Ecl = L | M | Q | H

  datatype DisplayRecord = DisplayRecord(name: string, text: string, size: int, ecl: Ecl)

  const UNNAMED_STATION := "Unnamed Station"

  /** A raw station name trimmed, with a blank one replaced by the default. */
  function DisplayName(raw: string): (r: string)
    ensures !Strip.AllSpace(raw) ==> r == Strip.Strip(raw)
    ensures Strip.AllSpace(raw) ==> r == UNNAMED_STATION
  {
    Strip.StripEmptyIff(raw);
    var name := Strip.Strip(raw);
    if name == [] then UNNAMED_STATION else name
  }

  /** The default name is itself a normal name. */
  lemma UnnamedNormal()
    ensures !Strip.AllSpace(UNNAMED_STATION)
    ensures Strip.Strip(UNNAMED_STATION) == UNNAMED_STATION
  {
    var u := UNNAMED_STATION;
    assert u[0] == 'U' && u[|u| - 1] == 'n';
    assert !Strip.IsSpace(u[0]);
    Strip.StripKeeps(u);
  }

  /** A display name is never blank and has no outer whitespace, so
      normalising it again changes nothing. */
  lemma DisplayNameNormal(raw: string)
    ensures !Strip.AllSpace(DisplayName(raw))
    ensures Strip.Strip(DisplayName(raw)) == DisplayName(raw)
    ensures DisplayName(DisplayName(raw)) == DisplayName(raw)
  {
    var name := Strip.Strip(raw);
    Strip.StripEmptyIff(raw);
    if name == [] {
      UnnamedNormal();
    } else {
      Strip.StripIdempotent(raw);
      Strip.StripEmptyIff(name);
    }
  }
}
