/**
 * AzureFileObject and its AppendBlobOutputStream: the attribute operations on the
 * attached blob, the hidden marker file, and the byte counter of the output stream
 * with the size it leaves on the blob when it is closed.
 */
module AzureFiles {
  import opened Wrappers
  import opened Text
  import opened AzureBlobs

  /** The name of the placeholder blob that keeps an empty folder in existence. */
  const MARKER_FILE_NAME: string := ".cvfs.temp"

  /** getName().getBaseName(): the part of the path after its last '/'. */
  function BaseName(path: string): string
    decreases |path|
  {
    if |path| == 0 || path[|path| - 1] == '/' then "" else BaseName(path[..|path| - 1]) + [path[|path| - 1]]
  }

  /** The base name of a path is a slash-free tail of it, preceded by a '/' or by nothing. */
  lemma {:induction false} BaseNameIsTail(path: string)
    ensures |BaseName(path)| <= |path|
    ensures BaseName(path) == path[|path| - |BaseName(path)|..]
    ensures forall j :: 0 <= j < |BaseName(path)| ==> BaseName(path)[j] != '/'
    ensures |BaseName(path)| == |path| || path[|path| - |BaseName(path)| - 1] == '/'
    decreases |path|
  {
    if |path| > 0 && path[|path| - 1] != '/' {
      var t := path[..|path| - 1];
      BaseNameIsTail(t);
      var b := BaseName(t);
      var c := path[|path| - 1];
      assert BaseName(path) == b + [c];
      assert t[|t| - |b|..] == path[|path| - |b| - 1..|path| - 1];
      assert path[|path| - |b| - 1..] == path[|path| - |b| - 1..|path| - 1] + [c];
      assert |b| < |t| ==> path[|path| - |b| - 2] == t[|t| - |b| - 1];
    }
  }

  /**
   * A slash-free name at the start of a path or after a '/' is the base name of the path:
   * the marker file placed in a folder has the marker's name as its base name.
   */
  lemma {:induction false} BaseNameAfter(prefix: string, name: string)
    requires |prefix| == 0 || prefix[|prefix| - 1] == '/'
    requires forall j :: 0 <= j < |name| ==> name[j] != '/'
    ensures BaseName(prefix + name) == name
    decreases |name|
  {
    var p := prefix + name;
    if |name| > 0 {
      var n := name[..|name| - 1];
      assert p[..|p| - 1] == prefix + n;
      BaseNameAfter(prefix, n);
      assert name == n + [name[|name| - 1]];
    } else {
      assert p == prefix;
    }
  }

  /** Why an attribute operation throws a FileSystemException. */
  datatype FileSystemError = SettingNotSupported | ReservedAttribute | RemovalNotSupported

  /**
   * The state of an attached AzureFileObject that the attribute operations look at:
   * whether it has a container, the path after the container, and the blob it found,
   * plus the size and modification time its output stream keeps up to date.
   */
  class AzureFileObject {
    const path: string
    var hasContainer: bool
    var containerPath: string
    var cloudBlob: Option<Blob>
    var size: int
    var lastModified: int

    /** The object as doAttach leaves it. */
    constructor (path: string, hasContainer: bool, containerPath: string, cloudBlob: Option<Blob>, size: int)
      ensures this.path == path && this.hasContainer == hasContainer && this.containerPath == containerPath
      ensures this.cloudBlob == cloudBlob && this.size == size && lastModified == 0
    {
      this.path := path;
      this.hasContainer := hasContainer;
      this.containerPath := containerPath;
      this.cloudBlob := cloudBlob;
      this.size := size;
      lastModified := 0;
    }

    /** A container and a path inside it: the file is a blob or a directory, not a container. */
    predicate InContainer()
      reads this
    {
      hasContainer && containerPath != ""
    }

    /**
     * doSetAttribute: outside a container it throws; with no blob found it does nothing;
     * otherwise the blob takes the attribute, in its properties or its metadata.
     */
    method SetAttribute(attrName: string, value: string) returns (r: Result<(), FileSystemError>)
      modifies this`cloudBlob
      ensures !InContainer() ==> r == Failure(SettingNotSupported) && cloudBlob == old(cloudBlob)
      ensures InContainer() ==> r == Success(())
      ensures InContainer() ==>
        cloudBlob == (if old(cloudBlob).Some? then Some(SetAttr(old(cloudBlob).value, attrName, value)) else None)
    {
      if hasContainer && containerPath != "" {
        if cloudBlob.Some? {
          cloudBlob := Some(SetAttr(cloudBlob.value, attrName, value));
        }
        r := Success(());
      } else {
        r := Failure(SettingNotSupported);
      }
    }

    /**
     * doGetAttributes: nothing outside a container or without a blob; otherwise the twelve
     * properties, overwritten by the metadata entries of the same name.
     */
    method GetAttributes() returns (attrs: map<string, Option<string>>)
      ensures !(InContainer() && cloudBlob.Some?) ==> attrs == map[]
      ensures InContainer() && cloudBlob.Some? ==>
        attrs.Keys == RESERVED + cloudBlob.value.metadata.Keys &&
        (forall k :: k in cloudBlob.value.metadata ==> attrs[k] == Some(cloudBlob.value.metadata[k])) &&
        (forall k :: k in RESERVED && k !in cloudBlob.value.metadata ==> attrs[k] == Prop(cloudBlob.value.props, k))
    {
      attrs := map[];
      if hasContainer && containerPath != "" {
        if cloudBlob.Some? {
          attrs := PropertyAttributes(cloudBlob.value.props);
          attrs := attrs + MetadataAttributes(cloudBlob.value.metadata);
        }
      }
    }

    /**
     * doRemoveAttribute: it throws outside a container or without a blob, and for the
     * twelve property names; otherwise only that key leaves the blob's metadata.
     */
    method RemoveAttribute(attrName: string) returns (r: Result<(), FileSystemError>)
      modifies this`cloudBlob
      ensures !(InContainer() && old(cloudBlob).Some?) ==> r == Failure(RemovalNotSupported) && cloudBlob == old(cloudBlob)
      ensures InContainer() && old(cloudBlob).Some? && attrName in RESERVED ==>
        r == Failure(ReservedAttribute) && cloudBlob == old(cloudBlob)
      ensures InContainer() && old(cloudBlob).Some? && attrName !in RESERVED ==>
        r == Success(()) && cloudBlob == Some(RemoveAttr(old(cloudBlob).value, attrName))
    {
      if hasContainer && containerPath != "" && cloudBlob.Some? {
        if attrName in RESERVED {
          r := Failure(ReservedAttribute);
        } else {
          cloudBlob := Some(RemoveAttr(cloudBlob.value, attrName));
          r := Success(());
        }
      } else {
        r := Failure(RemovalNotSupported);
      }
    }

    /** doIsHidden: the base name is the marker file's name. */
    predicate IsHidden()
      reads this
    {
      BaseName(path) == MARKER_FILE_NAME
    }
  }

  /** A file is hidden exactly when it is the marker file, at the top or inside some folder. */
  lemma HiddenExactlyMarker(f: AzureFileObject)
    ensures f.IsHidden() <==> (f.path == MARKER_FILE_NAME ||
      (|f.path| > |MARKER_FILE_NAME| && f.path == f.path[..|f.path| - |MARKER_FILE_NAME| - 1] + "/" + MARKER_FILE_NAME))
  {
    var p := f.path;
    var m := MARKER_FILE_NAME;
    assert forall j :: 0 <= j < |m| ==> m[j] != '/';
    BaseNameIsTail(p);
    if p == m {
      BaseNameAfter([], m);
      assert [] + m == p;
    } else if |p| > |m| && p == p[..|p| - |m| - 1] + "/" + m {
      var d := p[..|p| - |m| - 1] + "/";
      BaseNameAfter(d, m);
      assert d + m == p;
    }
  }

  /** Why a stream operation throws an IOException or an IndexOutOfBoundsException. */
  datatype StreamError = RangeOutOfBounds | MetadataUpload

  /**
   * AppendBlobOutputStream: forwards bytes to the append blob's stream and counts them,
   * keeping the owning file's size equal to the count; on close it records the count in
   * the blob's metadata and content disposition.
   */
  class AppendBlobOutputStream {
    const owner: AzureFileObject
    var blob: Blob
    var sent: seq<bv8>
    var written: int
    var closed: bool

    constructor (owner: AzureFileObject, blob: Blob)
      ensures this.owner == owner && this.blob == blob && sent == [] && written == 0 && !closed
    {
      this.owner := owner;
      this.blob := blob;
      sent := [];
      written := 0;
      closed := false;
    }

    /** The counter is the number of bytes passed on so far. */
    predicate Valid()
      reads this
    {
      written == |sent|
    }

    /**
     * written(len): the counter grows by len, the owner's modification time becomes the
     * current time and its size the counter.
     */
    method Written(len: int, now: int)
      modifies this`written, owner`size, owner`lastModified
      ensures written == old(written) + len && owner.size == written && owner.lastModified == now
    {
      written := written + len;
      owner.lastModified := now;
      owner.size := written;
    }

    /** write(int): the low eight bits go out as one byte, and one byte is counted. */
    method WriteByte(b: int, now: int)
      requires Valid()
      modifies this`sent, this`written, owner`size, owner`lastModified
      ensures Valid()
      ensures sent == old(sent) + [(b % 256) as bv8] && written == old(written) + 1
      ensures owner.size == written && owner.lastModified == now
    {
      sent := sent + [(b % 256) as bv8];
      Written(1, now);
    }

    /**
     * write(b, off, len): the wrapped stream refuses a range outside b, and then nothing is
     * counted; otherwise it takes b[off..off+len] and len bytes are counted.
     */
    method WriteRange(b: seq<bv8>, off: int, len: int, now: int) returns (r: Result<(), StreamError>)
      requires Valid()
      modifies this`sent, this`written, owner`size, owner`lastModified
      ensures Valid()
      ensures !(0 <= off && 0 <= len && off + len <= |b|) ==>
        r == Failure(RangeOutOfBounds) && sent == old(sent) && written == old(written) &&
        owner.size == old(owner.size) && owner.lastModified == old(owner.lastModified)
      ensures 0 <= off && 0 <= len && off + len <= |b| ==>
        r == Success(()) && sent == old(sent) + b[off..off + len] && written == old(written) + len &&
        owner.size == written && owner.lastModified == now
    {
      if !(0 <= off && 0 <= len && off + len <= |b|) {
        r := Failure(RangeOutOfBounds);
      } else {
        sent := sent + b[off..off + len];
        Written(len, now);
        r := Success(());
      }
    }

    /** write(b): the whole array, which is always in range. */
    method Write(b: seq<bv8>, now: int)
      requires Valid()
      modifies this`sent, this`written, owner`size, owner`lastModified
      ensures Valid()
      ensures sent == old(sent) + b && written == old(written) + |b|
      ensures owner.size == written && owner.lastModified == now
    {
      var r := WriteRange(b, 0, |b|, now);
      assert b[0..|b|] == b;
    }

    /**
     * close(): the blob's metadata gets ActualLength and its disposition the vfs length,
     * both the counter in decimal; a failed upload throws before the stream is closed.
     * The size a later attach reads back from the blob is then the number of bytes sent.
     */
    method Close(uploadOk: bool) returns (r: Result<(), StreamError>)
      modifies this`blob, this`closed
      ensures blob == Closed(old(blob), written)
      ensures Valid() && written <= LONG_MAX ==> DecodeSize(blob) == Success(|sent|)
      ensures uploadOk ==> r == Success(()) && closed
      ensures !uploadOk ==> r == Failure(MetadataUpload) && closed == old(closed)
    {
      if Valid() && written <= LONG_MAX {
        SizeRoundTrip(blob, written);
      }
      blob := Closed(blob, written);
      if uploadOk {
        closed := true;
        r := Success(());
      } else {
        r := Failure(MetadataUpload);
      }
    }
  }
}
