/**
 * What AzureFileObject does with a blob besides talking to the storage service:
 * the routing of attributes between the blob's fixed properties and its free
 * metadata map, and the content size it writes on close and reads back on attach.
 */
module AzureBlobs {
  import opened Wrappers
  import opened Text

  /**
   * A CloudBlob as this model sees it: its length property, its other properties by the
   * name doGetAttributes reports them under (a null or unset property is None, and one that
   * is not a string, such as the blob type or the lease state, is carried as its text),
   * and its metadata.
   */
  datatype Blob = Blob(length: int, props: map<string, Option<string>>, metadata: map<string, string>)

  /** The six names doSetAttribute stores in the properties rather than in the metadata. */
  const SETTABLE: set<string> :=
    {"cacheControl", "contentType", "contentMD5", "contentLanguage", "contentDisposition", "contentEncoding"}

  /** The twelve property names doGetAttributes reports and doRemoveAttribute refuses to remove. */
  const RESERVED: set<string> :=
    {"cacheControl", "blobType", "contentDisposition", "contentEncoding", "contentLanguage", "contentType",
     "copyState", "etag", "leaseDuration", "leaseState", "leaseStatus", "pageBlobSequenceNumber"}

  /** The value of a property; one never set is null. */
  function Prop(props: map<string, Option<string>>, name: string): Option<string> {
    if name in props then props[name] else None
  }

  // ---------------------------------------------------------------- attributes

  /** doSetAttribute on an attached blob: six names go to the properties, any other to the metadata. */
  function SetAttr(b: Blob, name: string, value: string): Blob {
    if name in SETTABLE then b.(props := b.props[name := Some(value)])
    else b.(metadata := b.metadata[name := value])
  }

  /** doRemoveAttribute on an attached blob, past the check for reserved names: the metadata loses the key. */
  function RemoveAttr(b: Blob, name: string): Blob {
    b.(metadata := b.metadata - {name})
  }

  /** The twelve properties under the names doGetAttributes puts them. */
  function PropertyAttributes(props: map<string, Option<string>>): (r: map<string, Option<string>>)
    ensures r.Keys == RESERVED
  {
    map k | k in RESERVED :: Prop(props, k)
  }

  /** The metadata as attribute values. */
  function MetadataAttributes(md: map<string, string>): map<string, Option<string>> {
    map k | k in md :: Some(md[k])
  }

  /**
   * doGetAttributes on an attached blob: the twelve properties, then every metadata entry,
   * so that a metadata key equal to a property name hides the property.
   */
  function Attributes(b: Blob): (r: map<string, Option<string>>)
    ensures r.Keys == RESERVED + b.metadata.Keys
    ensures forall k :: k in b.metadata ==> r[k] == Some(b.metadata[k])
    ensures forall k :: k in RESERVED && k !in b.metadata ==> r[k] == Prop(b.props, k)
  {
    PropertyAttributes(b.props) + MetadataAttributes(b.metadata)
  }

  /** A key the first map lacks is taken out of a merge by taking it out of the second. */
  lemma MergeRemove<K, V>(p: map<K, V>, m: map<K, V>, n: K)
    requires n !in p
    ensures (p + m) - {n} == p + (m - {n})
  {
  }

  /** A key the second map holds hides any change to it in the first. */
  lemma MergeShadow<K, V>(p: map<K, V>, m: map<K, V>, n: K, x: V)
    requires n in m
    ensures p[n := x] + m == p + m
  {
  }

  lemma MetadataRemove(md: map<string, string>, n: string)
    ensures MetadataAttributes(md - {n}) == MetadataAttributes(md) - {n}
  {
  }

  /** Setting a property doGetAttributes does not report leaves the reported ones alone. */
  lemma UnreportedProperty(props: map<string, Option<string>>, n: string, x: Option<string>)
    requires n !in RESERVED
    ensures PropertyAttributes(props[n := x]) == PropertyAttributes(props)
  {
  }

  /** A set leaves every other attribute as it was. */
  lemma SetAttrFrame(b: Blob, name: string, value: string, k: string)
    requires k != name
    ensures k in Attributes(b) <==> k in Attributes(SetAttr(b, name, value))
    ensures k in Attributes(b) ==> Attributes(SetAttr(b, name, value))[k] == Attributes(b)[k]
  {
    var b' := SetAttr(b, name, value);
    assert Prop(b'.props, k) == Prop(b.props, k);
    assert k in b'.metadata <==> k in b.metadata;
    if k in b.metadata {
      assert b'.metadata[k] == b.metadata[k];
    }
  }

  /**
   * A set value is read back under its name, unless it went to a property that a metadata
   * entry of the same name hides, or to contentMD5, which doGetAttributes never reports.
   */
  lemma SetThenGet(b: Blob, name: string, value: string)
    requires name != "contentMD5"
    requires name in SETTABLE ==> name !in b.metadata
    ensures name in Attributes(SetAttr(b, name, value))
    ensures Attributes(SetAttr(b, name, value))[name] == Some(value)
  {
  }

  /** A property set under a name the metadata also holds stays hidden behind the metadata entry. */
  lemma MetadataHidesProperty(b: Blob, name: string, value: string)
    requires name in SETTABLE && name in b.metadata
    ensures Attributes(SetAttr(b, name, value)) == Attributes(b)
  {
    var p := PropertyAttributes(b.props);
    if name in RESERVED {
      assert PropertyAttributes(b.props[name := Some(value)]) == p[name := Some(value)];
      MergeShadow(p, MetadataAttributes(b.metadata), name, Some(value));
    } else {
      UnreportedProperty(b.props, name, Some(value));
    }
  }

  /** contentMD5 can be set but is not among the attributes doGetAttributes reports. */
  lemma ContentMD5Invisible(b: Blob, value: string)
    ensures Attributes(SetAttr(b, "contentMD5", value)) == Attributes(b)
  {
    assert "contentMD5" !in RESERVED;
    UnreportedProperty(b.props, "contentMD5", Some(value));
  }

  /** Removing a name that is not a property drops exactly that attribute. */
  lemma RemoveDropsAttribute(b: Blob, name: string)
    requires name !in RESERVED
    ensures Attributes(RemoveAttr(b, name)) == Attributes(b) - {name}
  {
    MergeRemove(PropertyAttributes(b.props), MetadataAttributes(b.metadata), name);
    MetadataRemove(b.metadata, name);
  }

  /** A metadata attribute set and then removed leaves the blob as removing it alone would. */
  lemma SetThenRemove(b: Blob, name: string, value: string)
    requires name !in SETTABLE
    ensures RemoveAttr(SetAttr(b, name, value), name) == RemoveAttr(b, name)
  {
    assert b.metadata[name := value] - {name} == b.metadata - {name};
  }

  /**
   * Nine of the reserved names are not settable properties: setting one stores a metadata
   * entry that doGetAttributes reports, while removing the name is refused.
   */
  lemma ReservedNameGoesToMetadata(b: Blob, name: string, value: string)
    requires name in RESERVED - SETTABLE
    ensures SetAttr(b, name, value).metadata == b.metadata[name := value]
    ensures SetAttr(b, name, value).props == b.props
    ensures Attributes(SetAttr(b, name, value))[name] == Some(value)
  {
  }

  // ---------------------------------------------------------------- content size

  /** The metadata key close() stores the byte count under. */
  const ACTUAL_LENGTH: string := "ActualLength"

  /** The start of the content disposition close() writes. */
  const DISPOSITION_PREFIX: string := "vfs ; length=\""

  /** Why reading the size back can throw. */
  datatype SizeError = NumberFormat | IndexOutOfBounds

  predicate StartsWith(s: string, prefix: string) {
    |prefix| <= |s| && s[..|prefix|] == prefix
  }

  /** Long.parseLong, with its NumberFormatException as a Failure. */
  function ParseSize(s: string): (r: Result<int, SizeError>)
    ensures r.Success? <==> ParseLong(s).Some?
    ensures r.Success? ==> r.value == ParseLong(s).value
    ensures r.Failure? ==> r.error == NumberFormat
  {
    match ParseLong(s)
    case Some(v) => Success(v)
    case None => Failure(NumberFormat)
  }

  /** The content disposition close() writes for a given byte count. */
  function Disposition(written: int): string {
    DISPOSITION_PREFIX + LongToString(written) + "\""
  }

  /** What close() does to the append blob's metadata and properties before uploading them. */
  function Closed(b: Blob, written: int): Blob {
    b.(metadata := b.metadata[ACTUAL_LENGTH := LongToString(written)],
       props := b.props["contentDisposition" := Some(Disposition(written))])
  }

  /** The content disposition is there and starts with the vfs prefix. */
  predicate HasVfsDisposition(b: Blob) {
    Prop(b.props, "contentDisposition").Some? && StartsWith(Prop(b.props, "contentDisposition").value, DISPOSITION_PREFIX)
  }

  /**
   * The size doAttach takes for a blob: the length property, overridden by the ActualLength
   * metadata when that key is there, overridden again by the number in a content
   * disposition that starts with the vfs prefix, read from position 14 up to the last
   * character. A number that does not parse, or a disposition too short for that range,
   * throws. Only a text that was read can make it throw, and the length is what remains
   * when neither text is there.
   */
  function DecodeSize(b: Blob): (r: Result<int, SizeError>)
    ensures r.Failure? ==> ACTUAL_LENGTH in b.metadata || HasVfsDisposition(b)
    ensures !(ACTUAL_LENGTH in b.metadata || HasVfsDisposition(b)) ==> r == Success(b.length)
  {
    var base := if ACTUAL_LENGTH in b.metadata then ParseSize(b.metadata[ACTUAL_LENGTH]) else Success(b.length);
    if base.Failure? then base
    else
      var disp := Prop(b.props, "contentDisposition");
      if disp.Some? && StartsWith(disp.value, DISPOSITION_PREFIX) then
        if |disp.value| - 1 < 14 then Failure(IndexOutOfBounds)
        else ParseSize(disp.value[14..|disp.value| - 1])
      else base
  }

  /** The disposition close() writes carries the number between position 14 and the closing quote. */
  lemma DispositionNumber(written: int)
    ensures StartsWith(Disposition(written), DISPOSITION_PREFIX)
    ensures |Disposition(written)| >= 15
    ensures Disposition(written)[14..|Disposition(written)| - 1] == LongToString(written)
  {
    var d := Disposition(written);
    assert |DISPOSITION_PREFIX| == 14;
    assert d[..14] == DISPOSITION_PREFIX;
    assert d[14..|d| - 1] == LongToString(written);
  }

  /** Round trip: the size read back from a closed blob is the number of bytes written. */
  lemma SizeRoundTrip(b: Blob, written: int)
    requires InLongRange(written)
    ensures DecodeSize(Closed(b, written)) == Success(written)
  {
    LongRoundTrip(written);
    DispositionNumber(written);
  }

  /** Without ActualLength and without a vfs disposition the length property is the size. */
  lemma SizeFromLength(b: Blob)
    requires ACTUAL_LENGTH !in b.metadata
    requires Prop(b.props, "contentDisposition").None? || !StartsWith(Prop(b.props, "contentDisposition").value, DISPOSITION_PREFIX)
    ensures DecodeSize(b) == Success(b.length)
  {
  }

  /** ActualLength, when it parses, overrides the length property unless a vfs disposition follows. */
  lemma SizeFromActualLength(b: Blob)
    requires ACTUAL_LENGTH in b.metadata && ParseLong(b.metadata[ACTUAL_LENGTH]).Some?
    requires Prop(b.props, "contentDisposition").None? || !StartsWith(Prop(b.props, "contentDisposition").value, DISPOSITION_PREFIX)
    ensures DecodeSize(b) == Success(ParseLong(b.metadata[ACTUAL_LENGTH]).value)
  {
  }

  /** A vfs disposition decides the size whatever ActualLength says, as long as that parses. */
  lemma SizeFromDisposition(b: Blob, written: int)
    requires InLongRange(written)
    requires ACTUAL_LENGTH in b.metadata ==> ParseLong(b.metadata[ACTUAL_LENGTH]).Some?
    requires Prop(b.props, "contentDisposition") == Some(Disposition(written))
    ensures DecodeSize(b) == Success(written)
  {
    LongRoundTrip(written);
    DispositionNumber(written);
  }

  /** An ActualLength that does not parse throws before the disposition is looked at. */
  lemma BadActualLengthThrows(b: Blob)
    requires ACTUAL_LENGTH in b.metadata && ParseLong(b.metadata[ACTUAL_LENGTH]).None?
    ensures DecodeSize(b) == Failure(NumberFormat)
  {
  }

  /** A disposition that is the bare vfs prefix leaves an empty-range substring: it throws. */
  lemma BarePrefixThrows(b: Blob)
    requires ACTUAL_LENGTH !in b.metadata
    requires Prop(b.props, "contentDisposition") == Some(DISPOSITION_PREFIX)
    ensures DecodeSize(b) == Failure(IndexOutOfBounds)
  {
    assert DISPOSITION_PREFIX[..|DISPOSITION_PREFIX|] == DISPOSITION_PREFIX;
  }
}
