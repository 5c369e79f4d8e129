/** The size-keyed format table: a recording is identified by its exact
    byte size, and that size fixes where the metadata track starts. */
module FormatRegistry {
  import opened Errors

  /** The `FileSizes` enumeration: known total sizes in bytes. */
  datatype FileSizes = VID1 | VID3 {
    function Bytes(): nat {
      match this
      case VID1 => 100663296
      case VID3 => 301989888
    }
  }

  /** The `SeekSizes` enumeration: byte offset of the metadata track. */
  datatype SeekSizes = VID1M | VID3M {
    function Offset(): nat {
      match this
      case VID1M => 100065228
      case VID3M => 301391820
    }
  }

  /** `getFileSize`: the known variant of this exact size, or
      Mp4UnrecognizableException. */
  function GetFileSize(size: int): (r: Result<FileSizes>)
    ensures r.Ok? ==> r.value.Bytes() == size
    ensures r.Err? ==> r.error == Unrecognizable
  {
    if size == VID1.Bytes() then Ok(VID1)
    else if size == VID3.Bytes() then Ok(VID3)
    else Err(Unrecognizable)
  }

  /** `getStartPoint`: the metadata offset belonging to the file's size.  The
      source's fall-through case (commented as impossible) has no
      counterpart: the match over the two variants is complete. */
  function GetStartPoint(size: int): (r: Result<SeekSizes>)
    ensures r.Ok? <==> GetFileSize(size).Ok?
    ensures r.Ok? ==> r.value.Offset() + 40 <= size
  {
    match GetFileSize(size)
    case Err(e) => Err(e)
    case Ok(VID1) => Ok(VID1M)
    case Ok(VID3) => Ok(VID3M)
  }

  /** Every variant is recognised from its own size, and only from it. */
  lemma ClassifyRoundTrip(v: FileSizes, size: int)
    ensures GetFileSize(v.Bytes()) == Ok(v)
    ensures GetFileSize(size) == Ok(v) <==> size == v.Bytes()
  {
  }

  /** The two concrete rows of the table; every other size is refused. */
  lemma KnownSizes(size: int)
    ensures GetStartPoint(100663296) == Ok(VID1M) && VID1M.Offset() == 100065228
    ensures GetStartPoint(301989888) == Ok(VID3M) && VID3M.Offset() == 301391820
    ensures size != 100663296 && size != 301989888 ==> GetStartPoint(size) == Err(Unrecognizable)
  {
  }
}
