/** Image storage in an S3-compatible bucket: the object key an image is
    stored under, the permanent link built from it, and the pairing of
    files with save names during upload. The bucket name and endpoint come
    from the environment and are parameters; the transfer itself is
    outside the model, and a stored object is recorded as the file and the
    key it was put under. */
module Uploader {
  import opened Wrappers
  import opened Text
  import opened Percent
  import Seqs

  const HttpsScheme := "https://"
  const DefaultFormat := "jpg"

  /** `LIARA_BUCKET_NAME` and `LIARA_ENDPOINT`. */
  datatype Bucket = Bucket(name: string, endpoint: string)

  /** An uploaded file as the route receives it. */
  datatype FileRef = FileRef(filename: string)

  /** An object put into the bucket. */
  datatype StoredObject = StoredObject(file: FileRef, bucket: string, key: string)

  /** The key of one image: `<destination>/<save name>.<format>`. */
  function ObjectKey(destination: string, saveName: string, format: string): (k: string)
    ensures |k| == |destination| + |saveName| + |format| + 2
    ensures k[|destination|] == '/' && k[|destination| + 1 + |saveName|] == '.'
  {
    destination + "/" + saveName + "." + format
  }

  /** With the destination and format fixed, the key determines the save
      name: two save names never share a key. */
  lemma ObjectKeyInjective(destination: string, a: string, b: string, format: string)
    requires ObjectKey(destination, a, format) == ObjectKey(destination, b, format)
    ensures a == b
  {
    var k := ObjectKey(destination, a, format);
    assert |a| == |b|;
    assert forall i :: 0 <= i < |a| ==> a[i] == k[|destination| + 1 + i] == b[i];
  }

  /** The endpoint with every `https://` removed. */
  function Host(b: Bucket): string {
    RemoveAll(b.endpoint, HttpsScheme)
  }

  /** Everything of a link before the quoted key. */
  function LinkPrefix(b: Bucket): string {
    HttpsScheme + b.name + "." + Host(b) + "/"
  }

  /** The permanent link of a key: virtual-hosted style, key quoted. */
  function PermaLink(b: Bucket, key: string): (link: string)
    ensures StartsWith(link, HttpsScheme)
  {
    LinkPrefix(b) + Quote(key)
  }

  /** The key can be read back from its link: what follows the prefix
      decodes to the key's UTF-8 bytes. */
  lemma PermaLinkDecodes(b: Bucket, key: string)
    ensures var link := PermaLink(b, key);
      StartsWith(link, LinkPrefix(b)) && UnquoteBytes(link[|LinkPrefix(b)|..]) == Some(Utf8String(key))
  {
    var link := PermaLink(b, key);
    assert link[|LinkPrefix(b)|..] == Quote(key);
    UnquoteQuote(key);
  }

  /** For an endpoint written `https://<host>` and a key of unreserved
      characters and `/`, the link is the plain concatenation. */
  lemma PermaLinkVerbatim(b: Bucket, host: string, key: string)
    requires b.endpoint == HttpsScheme + host && !Contains(host, HttpsScheme)
    requires AllSafe(key)
    ensures PermaLink(b, key) == "https://" + b.name + "." + host + "/" + key
  {
    RemoveAllLeading(HttpsScheme, host);
    QuoteSafeIdentity(key);
  }

  /** `generate_perma_links`: one link per save name, in order. */
  method GeneratePermaLinks(b: Bucket, saveNames: seq<string>, destination: string, format: string) returns (links: seq<string>)
    ensures |links| == |saveNames|
    ensures forall i :: 0 <= i < |links| ==> links[i] == PermaLink(b, ObjectKey(destination, saveNames[i], format))
  {
    links := [];
    var i := 0;
    while i < |saveNames|
      invariant 0 <= i <= |saveNames|
      invariant |links| == i
      invariant forall j :: 0 <= j < i ==> links[j] == PermaLink(b, ObjectKey(destination, saveNames[j], format))
    {
      var key := ObjectKey(destination, saveNames[i], format);
      links := links + [PermaLink(b, key)];
      i := i + 1;
    }
  }

  /** The error `upload_images` raises for a missing file. */
  function MissingFileMessage(saveName: string): string {
    "Error with file " + saveName + ": File for " + saveName + " is None"
  }

  /** `upload_images`: files and save names are paired as `zip` pairs them,
      up to the shorter list. Each present file is stored under its key;
      the first missing file stops the run with a ValueError, the objects
      stored before it staying in the bucket. */
  method UploadImages(files: seq<Option<FileRef>>, saveNames: seq<string>, destination: string, format: string, bucketName: string)
    returns (stored: seq<StoredObject>, error: Option<string>)
    ensures |stored| <= Seqs.Min(|files|, |saveNames|)
    ensures forall i :: 0 <= i < |stored| ==>
      files[i].Some? && stored[i] == StoredObject(files[i].value, bucketName, ObjectKey(destination, saveNames[i], format))
    ensures error.None? <==> forall i :: 0 <= i < Seqs.Min(|files|, |saveNames|) ==> files[i].Some?
    ensures error.None? ==> |stored| == Seqs.Min(|files|, |saveNames|)
    ensures error.Some? ==> (|stored| < Seqs.Min(|files|, |saveNames|) && files[|stored|].None?
      && error.value == MissingFileMessage(saveNames[|stored|]))
  {
    var n := Seqs.Min(|files|, |saveNames|);
    stored := [];
    error := None;
    var i := 0;
    while i < n
      invariant 0 <= i <= n
      invariant |stored| == i
      invariant forall j :: 0 <= j < i ==> files[j].Some?
      invariant forall j :: 0 <= j < i ==>
        stored[j] == StoredObject(files[j].value, bucketName, ObjectKey(destination, saveNames[j], format))
    {
      match files[i]
      case None =>
        error := Some(MissingFileMessage(saveNames[i]));
        return;
      case Some(f) =>
        stored := stored + [StoredObject(f, bucketName, ObjectKey(destination, saveNames[i], format))];
        i := i + 1;
    }
  }

  /** Upload then link, as the event image route does. The links are
      generated when the bucket object is built, but a missing file raises
      out of the upload, so the route returns no link; otherwise there is
      one link per save name, and every stored object's link is the link at
      the same position, built from the object's own key. */
  method UploadAndLink(files: seq<Option<FileRef>>, saveNames: seq<string>, destination: string, format: string, b: Bucket)
    returns (stored: seq<StoredObject>, error: Option<string>, links: seq<string>)
    ensures error.Some? ==> links == []
    ensures error.None? ==> |links| == |saveNames| && |stored| <= |links|
    ensures error.None? ==> forall i :: 0 <= i < |stored| ==> stored[i].bucket == b.name && links[i] == PermaLink(b, stored[i].key)
    ensures error.None? && |files| == |saveNames| ==> |stored| == |links|
  {
    stored, error := UploadImages(files, saveNames, destination, format, b.name);
    if error.Some? {
      links := [];
      return;
    }
    links := GeneratePermaLinks(b, saveNames, destination, format);
  }
}
