/** Output compression kinds and the lookup of a kind by its configuration name. */
module Compression {

  datatype CompressionType = CompressionUnknown | CompressionNone | CompressionGzip

  /** The names the `stringer` tool generates for the constants (used by `%s`). */
  function TypeName(t: CompressionType): string
  {
    match t
    case CompressionUnknown => "CompressionUnknown"
    case CompressionNone => "CompressionNone"
    case CompressionGzip => "CompressionGzip"
  }

  datatype CompressionInfo = CompressionInfo(Type: CompressionType, Ext: string)

  const NoCompression: CompressionInfo := CompressionInfo(CompressionNone, "")

  const GzipCompression: CompressionInfo := CompressionInfo(CompressionGzip, ".gz")

  /** The names a user may give, and what each selects. */
  const CompressionMap: map<string, CompressionInfo> :=
    map["" := NoCompression, "none" := NoCompression, "gzip" := GzipCompression, "gz" := GzipCompression]

  /**
   * The compression selected by a name; a name that is not in the table (a
   * misspelling, another case) silently selects no compression.
   */
  function GetCompressionType(compression: string): (info: CompressionInfo)
    ensures info.Type != CompressionUnknown
    ensures info.Type == CompressionGzip <==> compression == "gzip" || compression == "gz"
    ensures info.Ext == ".gz" <==> info.Type == CompressionGzip
    ensures info.Ext == "" <==> info.Type == CompressionNone
  {
    if compression in CompressionMap then CompressionMap[compression] else NoCompression
  }

  /** Only the four listed names are recognised; any other name falls back to none. */
  lemma {:induction false} UnknownNamesFallBack(compression: string)
    requires compression !in {"", "none", "gzip", "gz"}
    ensures GetCompressionType(compression) == NoCompression
  {
    assert compression !in CompressionMap.Keys;
  }

  lemma GetCompressionTypeExamples()
    ensures GetCompressionType("") == NoCompression && GetCompressionType("none") == NoCompression
    ensures GetCompressionType("gzip") == GzipCompression && GetCompressionType("gz") == GzipCompression
    ensures GetCompressionType("GZIP") == NoCompression && GetCompressionType("bzip2") == NoCompression
  {
    UnknownNamesFallBack("GZIP");
    UnknownNamesFallBack("bzip2");
  }
}
