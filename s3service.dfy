/** `src/app/services/S3Service.ts`: listing a bucket page by page,
    fetching one object, deciding whether it is text, and materialising its
    body as a string or a blob.  The AWS client's `send` is an oracle: a
    function from the request record to the response record (or the error
    it throws), passed in by the caller. */
module S3Service {
  import opened Wrappers
  import opened Utf8
  import Storage

  // ---------------------------------------------------------------------
  // Records exchanged with the service
  // ---------------------------------------------------------------------

  /** An error thrown by the SDK or by `getFile`, reduced to its message. */
  datatype Failure = Failure(message: string)

  /** One listed object as the add-in keeps it (timestamps as milliseconds). */
  datatype S3FileObject = S3FileObject(key: string, lastModified: Option<int>, size: Option<int>)

  datatype ListResult = ListResult(files: seq<S3FileObject>, nextContinuationToken: Option<string>)

  /** The `ListObjectsV2Command` input: bucket, `MaxKeys`, `ContinuationToken`. */
  datatype ListObjectsV2Input = ListObjectsV2Input(bucket: string, maxKeys: int, continuationToken: Option<string>)

  /** One entry of the service's `Contents`; any of its fields may be missing. */
  datatype S3Object = S3Object(key: Option<string>, lastModified: Option<int>, size: Option<int>)

  datatype ListObjectsV2Output = ListObjectsV2Output(contents: Option<seq<S3Object>>, nextContinuationToken: Option<string>)

  type ListSender = ListObjectsV2Input -> Result<ListObjectsV2Output, Failure>

  /** A blob: its bytes and its MIME type. */
  datatype Blob = Blob(bytes: Bytes, blobType: string)

  /** The body of a `GetObject` response: missing, a stream read chunk by
      chunk (each `read()` result's `value`, which may be `undefined`), or a
      blob the SDK already buffered. */
  datatype Body = Absent | Stream(values: seq<Option<Bytes>>) | Buffered(blob: Blob)

  datatype GetObjectInput = GetObjectInput(bucket: string, key: string)

  datatype GetObjectOutput = GetObjectOutput(contentType: Option<string>, body: Body)

  type GetSender = GetObjectInput -> Result<GetObjectOutput, Failure>

  /** What `getFile` returns: the text or the blob, the content type, and the verdict. */
  datatype GetObjectResult = GetObjectResult(textContent: Option<string>, blob: Option<Blob>,
                                             contentType: Option<string>, isTextLike: bool)

  const DefaultPageSize := 50
  const DefaultContentType := "application/octet-stream"
  const EmptyBodyMessage := "Empty object body"

  // ---------------------------------------------------------------------
  // Classification
  // ---------------------------------------------------------------------

  /** The Word document type, written in pieces so that the verifier can read its characters. */
  const WordDocumentType: string :=
    "application/vnd.openxml" + "formats-officedocument" + ".wordprocessingml.document"

  const TextLikeContentTypes: seq<string> := [
    "text/plain",
    "text/csv",
    "application/json",
    "application/xml",
    "text/xml",
    WordDocumentType
  ]

  /** `s.startsWith(prefix)`. */
  predicate StartsWith(s: string, prefix: string)
  {
    |prefix| <= |s| && s[..|prefix|] == prefix
  }

  /** `types.some((t) => s.startsWith(t))`. */
  function SomePrefix(s: string, types: seq<string>): (r: bool)
    ensures r <==> exists i :: 0 <= i < |types| && StartsWith(s, types[i])
  {
    if types == [] then false
    else StartsWith(s, types[0]) || SomePrefix(s, types[1..])
  }

  /** The text/binary verdict, a function of the content type alone. */
  predicate IsTextLike(contentType: string)
  {
    SomePrefix(contentType, TextLikeContentTypes) || StartsWith(contentType, "text/")
  }

  /** The three `text/...` entries of the allow-list are already covered by
      the `text/` rule: a type is text exactly when it starts with `text/`,
      `application/json`, `application/xml` or the Word document type. */
  lemma IsTextLikeExactly(ct: string)
    ensures IsTextLike(ct) <==>
              || StartsWith(ct, "text/")
              || StartsWith(ct, "application/json")
              || StartsWith(ct, "application/xml")
              || StartsWith(ct, WordDocumentType)
  {
    if SomePrefix(ct, TextLikeContentTypes) {
      var i :| 0 <= i < |TextLikeContentTypes| && StartsWith(ct, TextLikeContentTypes[i]);
      TextEntries(ct, i);
    }
    ListedTypes(ct);
  }

  /** Each of the three non-`text/` types is on the allow-list. */
  lemma ListedTypes(ct: string)
    ensures (|| StartsWith(ct, "application/json")
             || StartsWith(ct, "application/xml")
             || StartsWith(ct, WordDocumentType))
            ==> SomePrefix(ct, TextLikeContentTypes)
  {
    var types := TextLikeContentTypes;
    if StartsWith(ct, "application/json") { assert StartsWith(ct, types[2]); }
    if StartsWith(ct, "application/xml") { assert StartsWith(ct, types[3]); }
    if StartsWith(ct, WordDocumentType) { assert StartsWith(ct, types[5]); }
  }

  /** The `text/...` entries of the allow-list all start with `text/`. */
  lemma TextEntries(ct: string, i: nat)
    requires i < |TextLikeContentTypes| && StartsWith(ct, TextLikeContentTypes[i])
    ensures StartsWith(ct, "text/") || StartsWith(ct, "application/json")
            || StartsWith(ct, "application/xml") || StartsWith(ct, WordDocumentType)
  {
    if i == 0 || i == 1 || i == 4 {
      assert StartsWith(TextLikeContentTypes[i], "text/");
      StartsWithTransitive(ct, TextLikeContentTypes[i], "text/");
    }
  }

  lemma StartsWithTransitive(s: string, p: string, q: string)
    requires StartsWith(s, p) && StartsWith(p, q)
    ensures StartsWith(s, q)
  {
    assert s[..|q|] == s[..|p|][..|q|];
  }

  lemma NotPrefixAt(s: string, prefix: string, i: nat)
    requires i < |s| && i < |prefix| && s[i] != prefix[i]
    ensures !StartsWith(s, prefix)
  {
    if |prefix| <= |s| { assert s[..|prefix|][i] == s[i]; }
  }

  /** The default for a missing content type is binary; a Word document is text. */
  lemma ClassificationExamples()
    ensures !IsTextLike(DefaultContentType)
    ensures !IsTextLike("image/png")
    ensures IsTextLike("application/json")
    ensures IsTextLike("text/x-foo")
    ensures IsTextLike(WordDocumentType)
  {
    IsTextLikeExactly(DefaultContentType);
    NotPrefixAt(DefaultContentType, "text/", 0);
    NotPrefixAt(DefaultContentType, "application/json", 12);
    NotPrefixAt(DefaultContentType, "application/xml", 12);
    NotPrefixAt(DefaultContentType, WordDocumentType, 12);
    IsTextLikeExactly("image/png");
    NotPrefixAt("image/png", "text/", 0);
    NotPrefixAt("image/png", "application/json", 0);
    NotPrefixAt("image/png", "application/xml", 0);
    NotPrefixAt("image/png", WordDocumentType, 0);
    assert StartsWith("application/json", "application/json");
    IsTextLikeExactly("application/json");
    assert StartsWith("text/x-foo", "text/");
    assert StartsWith(WordDocumentType, WordDocumentType);
    IsTextLikeExactly(WordDocumentType);
  }

  /** `resp.ContentType || "application/octet-stream"`. */
  function EffectiveContentType(contentType: Option<string>): (ct: string)
    ensures contentType.Some? && contentType.value != "" ==> ct == contentType.value
    ensures contentType.None? || contentType.value == "" ==> !IsTextLike(ct)
  {
    ClassificationExamples();
    if contentType.Some? && contentType.value != "" then contentType.value else DefaultContentType
  }

  // ---------------------------------------------------------------------
  // testConnection and listFiles
  // ---------------------------------------------------------------------

  /** `testConnection`: one list call capped at one key; any error is passed on. */
  function TestConnection(config: Storage.S3Config, send: ListSender): (r: Result<(), Failure>)
    ensures var out := send(ListObjectsV2Input(config.bucketName, 1, None));
            && (r.Ok? <==> out.Ok?)
            && (out.Err? ==> r == Err(out.error))
  {
    match send(ListObjectsV2Input(config.bucketName, 1, None))
    case Ok(_) => Ok(())
    case Err(e) => Err(e)
  }

  /** `{ key: o.Key || "", lastModified: o.LastModified, size: o.Size }`. */
  function ToFileObject(o: S3Object): S3FileObject
  {
    S3FileObject(if o.key.Some? then o.key.value else "", o.lastModified, o.size)
  }

  predicate HasKey(o: S3Object)
  {
    o.key.Some? && o.key.value != ""
  }

  /** `.filter((f) => !!f.key)`. */
  function KeepKeyed(fs: seq<S3FileObject>): (r: seq<S3FileObject>)
    ensures |r| <= |fs|
    ensures forall f | f in r :: f in fs && f.key != ""
  {
    if fs == [] then []
    else if fs[0].key != "" then [fs[0]] + KeepKeyed(fs[1..])
    else KeepKeyed(fs[1..])
  }

  /** `resp.Contents?.map(...).filter(...) ?? []`. */
  function Project(contents: Option<seq<S3Object>>): seq<S3FileObject>
  {
    match contents
    case None => []
    case Some(os) => KeepKeyed(seq(|os|, i requires 0 <= i < |os| => ToFileObject(os[i])))
  }

  /** Filtering commutes with concatenation: entries keep service order. */
  lemma {:induction false} KeepKeyedAppend(a: seq<S3FileObject>, b: seq<S3FileObject>)
    ensures KeepKeyed(a + b) == KeepKeyed(a) + KeepKeyed(b)
    decreases |a|
  {
    if a == [] {
      assert a + b == b;
    } else {
      assert (a + b)[0] == a[0] && (a + b)[1..] == a[1..] + b;
      KeepKeyedAppend(a[1..], b);
    }
  }

  /** The listing is the service's entries, in order, with every entry
      whose key is missing or empty dropped and nothing else dropped. */
  lemma ProjectEntries(os: seq<S3Object>, os': seq<S3Object>)
    ensures Project(Some(os + os')) == Project(Some(os)) + Project(Some(os'))
    ensures forall o :: Project(Some([o])) == if HasKey(o) then [S3FileObject(o.key.value, o.lastModified, o.size)] else []
    ensures Project(Some([])) == [] && Project(None) == []
  {
    var f := (o: S3Object) => ToFileObject(o);
    var all := seq(|os + os'|, i requires 0 <= i < |os + os'| => ToFileObject((os + os')[i]));
    var left := seq(|os|, i requires 0 <= i < |os| => ToFileObject(os[i]));
    var right := seq(|os'|, i requires 0 <= i < |os'| => ToFileObject(os'[i]));
    assert all == left + right;
    KeepKeyedAppend(left, right);
    forall o ensures Project(Some([o])) == if HasKey(o) then [S3FileObject(o.key.value, o.lastModified, o.size)] else [] {
      var one := seq(1, i requires 0 <= i < 1 => ToFileObject([o][i]));
      assert one == [ToFileObject(o)];
      assert one[1..] == [];
    }
  }

  /** `listFiles(config, continuationToken, pageSize)`: sends the token and
      the page size unchanged, and returns the projected entries (described
      by `ProjectEntries`) and the service's continuation token unchanged;
      an error is passed on. */
  function ListFiles(config: Storage.S3Config, continuationToken: Option<string>, pageSize: int,
                     send: ListSender): (r: Result<ListResult, Failure>)
    ensures var out := send(ListObjectsV2Input(config.bucketName, pageSize, continuationToken));
            && (out.Err? ==> r == Err(out.error))
            && (out.Ok? ==> && r.Ok? && r.value.nextContinuationToken == out.value.nextContinuationToken
                            && r.value.files == Project(out.value.contents)
                            && forall f | f in r.value.files :: f.key != "")
  {
    var input := ListObjectsV2Input(config.bucketName, pageSize, continuationToken);
    match send(input)
    case Err(e) => Err(e)
    case Ok(resp) => Ok(ListResult(Project(resp.contents), resp.nextContinuationToken))
  }

  // ---------------------------------------------------------------------
  // Reading a body
  // ---------------------------------------------------------------------

  /** The bytes a `read()` result carries; `undefined` carries none. */
  function ChunkBytes(value: Option<Bytes>): Bytes
  {
    if value.Some? then value.value else []
  }

  /** Every byte the stream delivered, in arrival order. */
  function Received(values: seq<Option<Bytes>>): Bytes
  {
    if values == [] then [] else Received(values[..|values| - 1]) + ChunkBytes(values[|values| - 1])
  }

  /** The chunks `getFile` keeps: the defined `read()` values, in order. */
  function Present(values: seq<Option<Bytes>>): (chunks: seq<Bytes>)
    ensures Flatten(chunks) == Received(values)
  {
    if values == [] then []
    else if values[|values| - 1].Some? then Present(values[..|values| - 1]) + [values[|values| - 1].value]
    else Present(values[..|values| - 1])
  }

  /** `streamToString`: every chunk goes through one `TextDecoder` with
      `stream: true`, then a final `decode()` flushes it.  The text is the
      UTF-8 decoding of all the bytes at once, wherever the chunk
      boundaries fall, multi-byte characters split across chunks included. */
  method StreamToString(values: seq<Option<Bytes>>) returns (result: string)
    ensures result == Utf8.Decode(Received(values))
  {
    var decoder := new TextDecoder();
    result := "";
    var i := 0;
    while i < |values|
      invariant 0 <= i <= |values|
      invariant decoder.Valid() && (!decoder.doNotFlush ==> i == 0)
      invariant decoder.decoder == Run(Initial, Received(values[..i])).0
      invariant (decoder.bomSeen, result) == SkipBom(false, Replace(Run(Initial, Received(values[..i])).1))
    {
      var chunk := ChunkBytes(values[i]);
      ReceivedStep(values, i);
      StreamChunk(Received(values[..i]), chunk);
      var text := decoder.Decode(chunk, true);
      result := result + text;
      i := i + 1;
    }
    assert values[..i] == values;
    StreamFlush(Received(values));
    var tail := decoder.Decode([], false);
    result := result + tail;
  }

  lemma ReceivedStep(values: seq<Option<Bytes>>, i: nat)
    requires i < |values|
    ensures Received(values[..i + 1]) == Received(values[..i]) + ChunkBytes(values[i])
  {
    assert values[..i + 1][..i] == values[..i];
  }

  /** The non-text branch of `getFile` for a stream: the loop pushing each
      defined `read()` value onto `chunks`. */
  method CollectChunks(values: seq<Option<Bytes>>) returns (chunks: seq<Bytes>)
    ensures chunks == Present(values)
    ensures Flatten(chunks) == Received(values)
  {
    chunks := [];
    var i := 0;
    while i < |values|
      invariant 0 <= i <= |values|
      invariant chunks == Present(values[..i])
    {
      assert values[..i + 1][..i] == values[..i];
      if values[i].Some? {
        chunks := chunks + [values[i].value];
      }
      i := i + 1;
    }
    assert values[..i] == values;
  }

  /** What `getFile` makes of a response: "Empty object body" when there
      is no body; otherwise the text for a text-like type (decoded from the
      stream or by `Blob.text()`), else the blob (the chunks joined under
      the content type, or the buffered blob itself). */
  function Retrieve(resp: GetObjectOutput): (r: Result<GetObjectResult, Failure>)
    ensures r.Err? <==> resp.body.Absent?
    ensures r.Err? ==> r.error == Failure(EmptyBodyMessage)
    ensures r.Ok? ==>
              var ct := EffectiveContentType(resp.contentType);
              && r.value.contentType == Some(ct)
              && r.value.isTextLike == IsTextLike(ct)
              && (r.value.textContent.Some? <==> r.value.isTextLike)
              && (r.value.blob.Some? <==> !r.value.isTextLike)
  {
    var ct := EffectiveContentType(resp.contentType);
    match resp.body
    case Absent => Err(Failure(EmptyBodyMessage))
    case Stream(values) =>
      if IsTextLike(ct) then Ok(GetObjectResult(Some(Utf8.Decode(Received(values))), None, Some(ct), true))
      else Ok(GetObjectResult(None, Some(Blob(Flatten(Present(values)), ct)), Some(ct), false))
    case Buffered(blob) =>
      if IsTextLike(ct) then Ok(GetObjectResult(Some(Utf8.Decode(blob.bytes)), None, Some(ct), true))
      else Ok(GetObjectResult(None, Some(blob), Some(ct), false))
  }

  /** The bytes a text-like result is decoded from, and a binary result's
      blob bytes, are every received byte in arrival order. */
  lemma RetrieveStream(ct: Option<string>, values: seq<Option<Bytes>>)
    ensures var r := Retrieve(GetObjectOutput(ct, Stream(values)));
            && r.Ok?
            && (r.value.isTextLike ==> r.value.textContent == Some(Utf8.Decode(Received(values))))
            && (!r.value.isTextLike ==> r.value.blob == Some(Blob(Received(values), EffectiveContentType(ct))))
  {
  }

  /** The outcome of `getFile(config, key)` when `client.send` behaves as `send`. */
  function GetFileOutcome(config: Storage.S3Config, key: string, send: GetSender): Result<GetObjectResult, Failure>
  {
    match send(GetObjectInput(config.bucketName, key))
    case Err(e) => Err(e)
    case Ok(resp) => Retrieve(resp)
  }

  /** `getFile`: one `GetObject` call for the key, then the body read as
      `Retrieve` describes, with the stream drained by the two loops. */
  method GetFile(config: Storage.S3Config, key: string, send: GetSender)
    returns (r: Result<GetObjectResult, Failure>)
    ensures r == GetFileOutcome(config, key, send)
  {
    var out := send(GetObjectInput(config.bucketName, key));
    if out.Err? {
      return Err(out.error);
    }
    var resp := out.value;
    var contentType := EffectiveContentType(resp.contentType);
    if resp.body.Absent? {
      return Err(Failure(EmptyBodyMessage));
    }
    var isTextLike := IsTextLike(contentType);
    if resp.body.Stream? {
      if isTextLike {
        var textContent := StreamToString(resp.body.values);
        return Ok(GetObjectResult(Some(textContent), None, Some(contentType), true));
      }
      var chunks := CollectChunks(resp.body.values);
      var blob := Blob(Flatten(chunks), contentType);
      return Ok(GetObjectResult(None, Some(blob), Some(contentType), false));
    }
    var blob := resp.body.blob;
    if isTextLike {
      var textContent := Utf8.Decode(blob.bytes);
      return Ok(GetObjectResult(Some(textContent), None, Some(contentType), true));
    }
    return Ok(GetObjectResult(None, Some(blob), Some(contentType), false));
  }
}
