/**
 The streamed upload route: POST reads the request body chunk by chunk with a
 100 MiB cap and stores the joined buffer in an in-memory table under a
 timestamp key; GET serves a stored file back as an attachment, or 404.
 */
module UploadRoute {

  import opened Wrappers
  import opened Chunks
  import opened Decimal

  /** A stored upload: the joined body, its content type and its name. */
  datatype Entry = Entry(buffer: seq<byte>, contentType: string, name: string)

  /** What reading the body produced: the joined buffer, or the 413 cut-off. */
  datatype BodyOutcome =
    | Complete(buffer: seq<byte>, totalSize: nat)
    | TooLarge(chunksRead: nat)

  /** POST's answer: status 200 with the new key and byte count, or 413. */
  datatype PostResponse =
    | Uploaded(filename: string, size: nat)
    | PayloadTooLarge

  /** GET's answer: status 404, or the stored bytes with their two headers. */
  datatype GetResponse =
    | NotFound
    | Download(body: seq<byte>, contentType: string, contentDisposition: string)

  const DefaultContentType: string := "application/octet-stream"

  const KeySuffix: string := "-file"

  /**
   The content type POST records: the request header when it is present and
   not empty (an empty string is falsy), otherwise the generic binary type.
   */
  function EffectiveContentType(header: Option<string>): (t: string)
    ensures t != ""
    ensures header.Some? && header.value != "" ==> t == header.value
    ensures header.None? || header.value == "" ==> t == DefaultContentType
  {
    if header.Some? && header.value != "" then header.value else DefaultContentType
  }

  /**
   The key of an upload received at millisecond timestamp `now`; a clock set
   before 1970 gives a negative timestamp and a key starting with '-'.
   */
  function FileKey(now: int): (key: string)
    ensures |key| > |KeySuffix| && key[|key| - |KeySuffix|..] == KeySuffix
    ensures key[..|key| - |KeySuffix|] == IntToDecimal(now)
  {
    IntToDecimal(now) + KeySuffix
  }

  /** Uploads received at different instants get different keys. */
  lemma FileKeyInjective(a: int, b: int)
    requires FileKey(a) == FileKey(b)
    ensures a == b
  {
    IntToDecimalInjective(a, b);
  }

  /** The Content-Disposition header naming a download; the name can be read back. */
  function AttachmentDisposition(name: string): (d: string)
    ensures |d| == |name| + 23
    ensures d[..22] == "attachment; filename=\"" && d[|d| - 1] == '"'
    ensures d[22..|d| - 1] == name
  {
    "attachment; filename=\"" + name + "\""
  }

  /**
   The accumulation loop of POST: append each chunk, add its length to the
   running total, and stop with 413 as soon as the total exceeds the cap;
   when the stream is exhausted, join the chunks into one buffer.
   */
  method ReadBody(body: seq<seq<byte>>) returns (r: BodyOutcome)
    ensures r.Complete? <==> TotalSize(body) <= MaxBodyBytes
    ensures r.Complete? ==> r.buffer == Concat(body) && r.totalSize == |r.buffer| == TotalSize(body)
    ensures r.TooLarge? ==> 0 < r.chunksRead <= |body|
    ensures r.TooLarge? ==> TotalSize(body[..r.chunksRead]) > MaxBodyBytes
    ensures r.TooLarge? ==> WithinCapUpTo(body, r.chunksRead - 1)
  {
    var chunks: seq<seq<byte>> := [];
    var totalSize := 0;
    var i := 0;
    while i < |body|
      invariant 0 <= i <= |body|
      invariant chunks == body[..i]
      invariant totalSize == TotalSize(chunks) <= MaxBodyBytes
      invariant WithinCapUpTo(body, i)
    {
      var value := body[i];
      ReadOneMore(body, i);
      chunks := chunks + [value];
      totalSize := totalSize + |value|;
      i := i + 1;
      if totalSize > MaxBodyBytes {
        OverLimitIffSomePrefix(body, MaxBodyBytes);
        return TooLarge(i);
      }
      WithinCapExtend(body, i - 1);
    }
    assert chunks == body;
    var buffer := Concat(chunks);
    r := Complete(buffer, totalSize);
  }

  /** The module-level table of uploaded files and the two route handlers. */
  class UploadStore {
    var uploadedFiles: map<string, Entry>

    /** Every entry is named after its key and respects the cap. */
    ghost predicate Valid()
      reads this
    {
      forall key :: key in uploadedFiles ==>
        uploadedFiles[key].name == key && |uploadedFiles[key].buffer| <= MaxBodyBytes
    }

    constructor ()
      ensures Valid() && uploadedFiles == map[]
    {
      uploadedFiles := map[];
    }

    /**
     POST /api/upload. `body` is the request stream, `contentType` the
     Content-Type header and `now` the clock reading used for the key.
     */
    method Post(body: seq<seq<byte>>, contentType: Option<string>, now: int) returns (resp: PostResponse)
      requires Valid()
      modifies this
      ensures Valid()
      ensures resp.PayloadTooLarge? <==> TotalSize(body) > MaxBodyBytes
      ensures resp.PayloadTooLarge? ==> uploadedFiles == old(uploadedFiles)
      ensures resp.Uploaded? ==>
        && resp.filename == FileKey(now)
        && resp.size == |Concat(body)| == TotalSize(body) <= MaxBodyBytes
        && uploadedFiles == old(uploadedFiles)[FileKey(now) :=
             Entry(Concat(body), EffectiveContentType(contentType), FileKey(now))]
    {
      var outcome := ReadBody(body);
      if outcome.TooLarge? {
        return PayloadTooLarge;
      }
      var buffer := outcome.buffer;
      var fileType := EffectiveContentType(contentType);
      var filename := FileKey(now);
      uploadedFiles := uploadedFiles[filename := Entry(buffer, fileType, filename)];
      resp := Uploaded(filename, |buffer|);
    }

    /** GET /api/upload?filename=...; `filename` is the query parameter. */
    method Get(filename: Option<string>) returns (resp: GetResponse)
      ensures resp.NotFound? <==>
        filename.None? || filename.value == "" || filename.value !in uploadedFiles
      ensures resp.Download? ==>
        var file := uploadedFiles[filename.value];
        resp == Download(file.buffer, file.contentType, AttachmentDisposition(file.name))
      ensures resp.Download? && Valid() ==>
        resp.contentDisposition == AttachmentDisposition(filename.value) && |resp.body| <= MaxBodyBytes
    {
      if filename.None? || filename.value == "" || filename.value !in uploadedFiles {
        return NotFound;
      }
      var file := uploadedFiles[filename.value];
      resp := Download(file.buffer, file.contentType, AttachmentDisposition(file.name));
    }
  }

  /**
   A client's POST followed, when it succeeded, by a GET for the key it
   reported: the download is the joined body under the recorded type, named
   after the key. A rejected POST leaves the table as it was and is not
   followed by a GET.
   */
  method UploadThenDownload(store: UploadStore, body: seq<seq<byte>>, contentType: Option<string>, now: int)
    returns (posted: PostResponse, fetched: GetResponse)
    requires store.Valid()
    modifies store
    ensures store.Valid()
    ensures posted.Uploaded? ==>
      fetched == Download(Concat(body), EffectiveContentType(contentType), AttachmentDisposition(FileKey(now)))
    ensures posted.PayloadTooLarge? ==> store.uploadedFiles == old(store.uploadedFiles)
  {
    posted := store.Post(body, contentType, now);
    if posted.Uploaded? {
      fetched := store.Get(Some(posted.filename));
    } else {
      fetched := NotFound;
    }
  }
}
