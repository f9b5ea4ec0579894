/** The `FileList` component of `src/app/components/FileList.tsx`: the list
    of a bucket's objects, loaded page by page, and the "insert" button of
    each row, which puts a text object into the document at the cursor and
    offers any other object as a download.  The component's state hooks
    become the fields of a class and its two handlers become methods; the
    AWS client, the Office host and the browser's download are oracles or
    recorded requests. */
module FileList {
  import opened Wrappers
  import opened S3Service
  import Storage

  /** A listed object together with the id of its row. */
  datatype FileWithActions = FileWithActions(key: string, lastModified: Option<int>, size: Option<int>, id: string)

  /** The four kinds of message bar the component shows. */
  datatype MessageKind = Warning | ErrorKind | Success | Info

  /** The messages the component sets, with what each one mentions. */
  datatype Notice =
    | ConfigMissing
    | ListFailed(detail: string)
    | TextInserted(key: string)
    | DownloadStarted(key: string)
    | CannotProcess(key: string)
    | InsertFailed(detail: string)

  /** The `MessageBarType` set together with each message. */
  function Kind(n: Notice): MessageKind
  {
    match n
    case ConfigMissing => Warning
    case ListFailed(_) => ErrorKind
    case TextInserted(_) => Success
    case DownloadStarted(_) => Info
    case CannotProcess(_) => Warning
    case InsertFailed(_) => ErrorKind
  }

  /** `e.message || e.toString()` for a thrown `Error`: its message, or the
      text `Error` when the message is empty. */
  function ErrorText(f: Failure): (t: string)
    ensures t != []
    ensures f.message != [] ==> t == f.message
  {
    if f.message != [] then f.message else "Error"
  }

  /** JavaScript truthiness of an optional string: present and non-empty. */
  predicate Truthy(token: Option<string>)
  {
    token.Some? && token.value != []
  }

  // ---------------------------------------------------------------------
  // Row ids
  // ---------------------------------------------------------------------

  function DigitChar(d: int): char
    requires 0 <= d < 10
  {
    ('0' as int + d) as char
  }

  /** The decimal text of a row index, as a template literal writes it. */
  function NatToString(n: nat): (s: string)
    ensures |s| >= 1 && (n >= 10 ==> |s| >= 2)
    ensures forall i :: 0 <= i < |s| ==> '0' <= s[i] <= '9'
    decreases n
  {
    if n < 10 then [DigitChar(n)] else NatToString(n / 10) + [DigitChar(n % 10)]
  }

  /** Different indexes have different decimal texts. */
  lemma {:induction false} NatToStringInjective(n: nat, m: nat)
    requires NatToString(n) == NatToString(m)
    ensures n == m
    decreases n
  {
    var s, t := NatToString(n), NatToString(m);
    if n >= 10 && m >= 10 {
      assert s[..|s| - 1] == NatToString(n / 10);
      assert t[..|t| - 1] == NatToString(m / 10);
      NatToStringInjective(n / 10, m / 10);
      assert s[|s| - 1] == DigitChar(n % 10) && t[|t| - 1] == DigitChar(m % 10);
    }
  }

  /** `token || "first"`. */
  function TokenLabel(token: Option<string>): string
  {
    if Truthy(token) then token.value else "first"
  }

  /** `${key}-${token || "first"}-${index}`. */
  function RowId(key: string, token: Option<string>, index: nat): string
  {
    key + "-" + TokenLabel(token) + "-" + NatToString(index)
  }

  /** The rows of one page: each listed object with its row id. */
  function Rows(files: seq<S3FileObject>, token: Option<string>): (rows: seq<FileWithActions>)
    ensures |rows| == |files|
  {
    seq(|files|, i requires 0 <= i < |files| =>
      FileWithActions(files[i].key, files[i].lastModified, files[i].size, RowId(files[i].key, token, i)))
  }

  /** In `p + "-" + d` with a dash-free `d`, the dash after `p` is the last one. */
  lemma LastDash(p: string, d: string)
    requires forall i :: 0 <= i < |d| ==> d[i] != '-'
    ensures var s := p + "-" + d;
            && s[|p|] == '-' && s[|p| + 1..] == d
            && forall k :: |p| < k < |s| ==> s[k] != '-'
  {
    var s := p + "-" + d;
    forall k | |p| < k < |s| ensures s[k] != '-' {
      assert s[k] == d[k - |p| - 1];
    }
  }

  /** When two texts end in a dash followed by dash-free texts, those
      trailing texts are equal. */
  lemma DashSuffix(p1: string, d1: string, p2: string, d2: string)
    requires p1 + "-" + d1 == p2 + "-" + d2
    requires forall i :: 0 <= i < |d1| ==> d1[i] != '-'
    requires forall i :: 0 <= i < |d2| ==> d2[i] != '-'
    ensures d1 == d2
  {
    LastDash(p1, d1);
    LastDash(p2, d2);
  }

  /** Every row of a page keeps its object's fields, and its id names the
      key, the page's token (or `first`) and the row's position; the ids of
      one page are pairwise distinct. */
  lemma RowIds(files: seq<S3FileObject>, token: Option<string>)
    ensures forall i :: 0 <= i < |files| ==>
              var row := Rows(files, token)[i];
              && row.key == files[i].key && row.lastModified == files[i].lastModified && row.size == files[i].size
              && row.id == files[i].key + "-" + TokenLabel(token) + "-" + NatToString(i)
    ensures forall i, j :: 0 <= i < |files| && 0 <= j < |files| && Rows(files, token)[i].id == Rows(files, token)[j].id ==> i == j
  {
    var rows := Rows(files, token);
    forall i, j | 0 <= i < |files| && 0 <= j < |files| && rows[i].id == rows[j].id
      ensures i == j
    {
      var di, dj := NatToString(i), NatToString(j);
      DashSuffix(files[i].key + "-" + TokenLabel(token), di, files[j].key + "-" + TokenLabel(token), dj);
      NatToStringInjective(i, j);
    }
  }

  // ---------------------------------------------------------------------
  // The download name
  // ---------------------------------------------------------------------

  /** `parts.join(sep)`. */
  function Join(parts: seq<string>, sep: char): string
  {
    if parts == [] then []
    else if |parts| == 1 then parts[0]
    else Join(parts[..|parts| - 1], sep) + [sep] + parts[|parts| - 1]
  }

  /** `s.split(sep)` for a one-character separator: never empty, no piece
      holds the separator, and joining the pieces gives `s` back. */
  function Split(s: string, sep: char): (parts: seq<string>)
    ensures |parts| >= 1
    ensures forall i, j :: 0 <= i < |parts| && 0 <= j < |parts[i]| ==> parts[i][j] != sep
    ensures Join(parts, sep) == s
    decreases |s|
  {
    if s == [] then [[]]
    else
      var init, c := s[..|s| - 1], s[|s| - 1];
      assert s == init + [c];
      var p := Split(init, sep);
      if c == sep then
        var parts := p + [[]];
        assert parts[..|parts| - 1] == p;
        parts
      else
        var last := p[|p| - 1] + [c];
        var parts := p[..|p| - 1] + [last];
        assert parts[..|parts| - 1] == p[..|p| - 1];
        assert |p| > 1 ==> Join(p, sep) == Join(p[..|p| - 1], sep) + [sep] + p[|p| - 1];
        parts
  }

  /** `parts.pop()` of the split key: the text after the key's last `/`,
      or the whole key when it has none. */
  lemma LastSegment(key: string)
    ensures var parts := Split(key, '/');
            var last := parts[|parts| - 1];
            && (forall i :: 0 <= i < |last| ==> last[i] != '/')
            && |last| <= |key| && key[|key| - |last|..] == last
            && (|last| < |key| ==> key[|key| - |last| - 1] == '/')
  {
    var parts := Split(key, '/');
    var last := parts[|parts| - 1];
    assert forall i :: 0 <= i < |last| ==> last[i] != '/' by {
      forall i | 0 <= i < |last| ensures last[i] != '/' {
        assert parts[|parts| - 1][i] == last[i];
      }
    }
    if |parts| > 1 {
      assert key == Join(parts[..|parts| - 1], '/') + ['/'] + last;
    }
  }

  /** `key.split("/").pop() || "download"`. */
  function DownloadName(key: string): string
  {
    var parts := Split(key, '/');
    var last := parts[|parts| - 1];
    if last != [] then last else "download"
  }

  /** The download name is the key's last path segment, or `download` when
      the key is empty or ends with `/`. */
  lemma DownloadNameSegment(key: string)
    ensures var name := DownloadName(key);
            if key == [] || key[|key| - 1] == '/' then name == "download"
            else
              && name != []
              && (forall i :: 0 <= i < |name| ==> name[i] != '/')
              && |name| <= |key| && key[|key| - |name|..] == name
              && (|name| < |key| ==> key[|key| - |name| - 1] == '/')
  {
    LastSegment(key);
    var parts := Split(key, '/');
    var last := parts[|parts| - 1];
    if key != [] {
      assert last != [] ==> key[|key| - 1] == last[|last| - 1];
    }
  }

  // ---------------------------------------------------------------------
  // The dispatch rule
  // ---------------------------------------------------------------------

  /** What the insert button does with a fetched object. */
  datatype Action = Insert(text: string) | Download(fileName: string, blob: Blob) | Neither

  /** Insert the text when the object is text-like and the text is
      non-empty; otherwise download the blob if there is one; otherwise
      neither. */
  function Dispatch(result: GetObjectResult, key: string): Action
  {
    if result.isTextLike && result.textContent.Some? && result.textContent.value != [] then
      Insert(result.textContent.value)
    else if result.blob.Some? then
      Download(DownloadName(key), result.blob.value)
    else
      Neither
  }

  /** For a fetched object: a text-like object with non-empty text is
      inserted, a text-like object with empty text can be neither inserted
      nor downloaded, and every other object is downloaded under its
      download name as the blob `getFile` built. */
  lemma DispatchRetrieved(resp: GetObjectOutput, key: string)
    requires !resp.body.Absent?
    ensures var r := Retrieve(resp);
            var ct := EffectiveContentType(resp.contentType);
            && r.Ok?
            && (IsTextLike(ct) && r.value.textContent.value != [] ==> Dispatch(r.value, key) == Insert(r.value.textContent.value))
            && (IsTextLike(ct) && r.value.textContent.value == [] ==> Dispatch(r.value, key) == Neither)
            && (!IsTextLike(ct) ==> Dispatch(r.value, key) == Download(DownloadName(key), r.value.blob.value))
  {
  }

  /** An empty text object, streamed or buffered, is reported as one that
      cannot be processed. */
  lemma EmptyTextCannotBeProcessed(contentType: Option<string>, key: string, values: seq<Option<Utf8.Bytes>>, t: string)
    requires IsTextLike(EffectiveContentType(contentType))
    requires Received(values) == []
    ensures Dispatch(Retrieve(GetObjectOutput(contentType, Stream(values))).value, key) == Neither
    ensures Dispatch(Retrieve(GetObjectOutput(contentType, Buffered(Blob([], t)))).value, key) == Neither
  {
    assert Utf8.Decode([]) == [];
  }

  // ---------------------------------------------------------------------
  // The component
  // ---------------------------------------------------------------------

  /** The component's state: the hooks `config`, `files`, `nextToken`,
      `loading`, `inserting` and `message`, plus the requests it has made of
      the service, the host and the browser, in order. */
  class FileListState {
    var config: Option<Storage.S3Config>
    var files: seq<FileWithActions>
    var nextToken: Option<string>
    var loading: bool
    var inserting: Option<string>
    var message: Option<Notice>
    var listRequests: seq<ListObjectsV2Input>
    var getRequests: seq<GetObjectInput>
    var insertRequests: seq<string>
    var downloads: seq<(string, Blob)>

    /** Mounting: the initial state, then the effect that reads the saved config. */
    constructor (store: Storage.LocalStorage)
      ensures config == Storage.Load(Storage.Lookup(store.items, Storage.StorageKey))
      ensures files == [] && nextToken.None? && !loading && inserting.None? && message.None?
      ensures listRequests == [] && getRequests == [] && insertRequests == [] && downloads == []
    {
      var loaded := Storage.LoadConfig(store);
      config := loaded;
      files := [];
      nextToken := None;
      loading := false;
      inserting := None;
      message := None;
      listRequests := [];
      getRequests := [];
      insertRequests := [];
      downloads := [];
    }

    /** `disabled={!!inserting}` on every insert button. */
    predicate InsertDisabled()
      reads this
    {
      inserting.Some? && inserting.value != []
    }

    /** The "load more" link is shown: `nextToken && !loading`. */
    predicate LoadMoreOffered()
      reads this
    {
      Truthy(nextToken) && !loading
    }

    /** The part of `loadPage` before its `await`: the spinner is on, the
        message is cleared, and the "load more" link is hidden. */
    method BeginLoad()
      modifies this
      ensures loading && message.None? && !LoadMoreOffered()
      ensures config == old(config) && files == old(files) && nextToken == old(nextToken) && inserting == old(inserting)
      ensures listRequests == old(listRequests) && getRequests == old(getRequests)
      ensures insertRequests == old(insertRequests) && downloads == old(downloads)
    {
      loading := true;
      message := None;
    }

    /** `loadPage(token)`.  Without a config: a warning and nothing else.
        Otherwise one `listFiles` request for the token and the default page
        size; on success the page's rows follow the current list when the
        token is truthy and replace it otherwise, and the cursor becomes the
        page's continuation token; on failure the list and the cursor stay
        and an error is shown; the spinner is off afterwards either way. */
    method LoadPage(token: Option<string>, send: ListSender)
      modifies this
      ensures config == old(config) && inserting == old(inserting)
      ensures getRequests == old(getRequests) && insertRequests == old(insertRequests) && downloads == old(downloads)
      ensures old(config).None? ==>
                && message == Some(ConfigMissing) && Kind(message.value) == Warning
                && files == old(files) && nextToken == old(nextToken) && loading == old(loading)
                && listRequests == old(listRequests)
      ensures old(config).Some? ==>
                var r := ListFiles(old(config).value, token, DefaultPageSize, send);
                && listRequests == old(listRequests) + [ListObjectsV2Input(old(config).value.bucketName, DefaultPageSize, token)]
                && !loading
                && (r.Ok? ==> && nextToken == r.value.nextContinuationToken
                              && message.None?
                              && (Truthy(token) ==> files == old(files) + Rows(r.value.files, token))
                              && (!Truthy(token) ==> files == Rows(r.value.files, token)))
                && (r.Err? ==> && files == old(files) && nextToken == old(nextToken)
                               && message == Some(ListFailed(ErrorText(r.error))) && Kind(message.value) == ErrorKind)
    {
      if config.None? {
        message := Some(ConfigMissing);
        return;
      }
      var cfg := config.value;
      BeginLoad();
      listRequests := listRequests + [ListObjectsV2Input(cfg.bucketName, DefaultPageSize, token)];
      var res := ListFiles(cfg, token, DefaultPageSize, send);
      if res.Ok? {
        var newFiles := Rows(res.value.files, token);
        if Truthy(token) {
          files := files + newFiles;
        } else {
          files := newFiles;
        }
        nextToken := res.value.nextContinuationToken;
      } else {
        message := Some(ListFailed(ErrorText(res.error)));
      }
      loading := false;
    }

    /** A click on "load more": `loadPage(nextToken)`, which asks for the
        page after the cursor and appends it. */
    method LoadMore(send: ListSender)
      requires LoadMoreOffered()
      modifies this
      ensures config == old(config) && inserting == old(inserting) && !loading
      ensures getRequests == old(getRequests) && insertRequests == old(insertRequests) && downloads == old(downloads)
      ensures old(config).None? ==>
                && message == Some(ConfigMissing) && Kind(message.value) == Warning
                && files == old(files) && nextToken == old(nextToken) && listRequests == old(listRequests)
      ensures old(config).Some? ==>
                var r := ListFiles(old(config).value, old(nextToken), DefaultPageSize, send);
                && listRequests == old(listRequests) + [ListObjectsV2Input(old(config).value.bucketName, DefaultPageSize, old(nextToken))]
                && (r.Ok? ==> && files == old(files) + Rows(r.value.files, old(nextToken))
                              && nextToken == r.value.nextContinuationToken
                              && message.None?)
                && (r.Err? ==> && files == old(files) && nextToken == old(nextToken)
                               && message == Some(ListFailed(ErrorText(r.error))) && Kind(message.value) == ErrorKind)
    {
      LoadPage(nextToken, send);
    }

    /** The part of `handleInsert` before its first `await`: the row's id is
        held in `inserting` and, when that id is non-empty (as every row id
        is), every insert button is disabled. */
    method BeginInsert(file: FileWithActions)
      modifies this
      ensures inserting == Some(file.id) && message.None?
      ensures InsertDisabled() <==> file.id != []
      ensures config == old(config) && files == old(files) && nextToken == old(nextToken) && loading == old(loading)
      ensures listRequests == old(listRequests) && getRequests == old(getRequests)
      ensures insertRequests == old(insertRequests) && downloads == old(downloads)
    {
      inserting := Some(file.id);
      message := None;
    }

    /** The dispatch step of `handleInsert` for the object stored under
        `key`: the text is handed to the host, or the download is recorded,
        or the object is reported as one that cannot be processed. */
    method Deliver(key: string, action: Action, host: string -> Result<(), Failure>)
      modifies this
      ensures config == old(config) && files == old(files) && nextToken == old(nextToken) && loading == old(loading)
      ensures inserting == old(inserting) && listRequests == old(listRequests) && getRequests == old(getRequests)
      ensures action.Insert? ==> && insertRequests == old(insertRequests) + [action.text]
                                 && downloads == old(downloads)
                                 && message == if host(action.text).Ok? then Some(TextInserted(key))
                                               else Some(InsertFailed(ErrorText(host(action.text).error)))
      ensures action.Download? ==> && downloads == old(downloads) + [(action.fileName, action.blob)]
                                   && insertRequests == old(insertRequests)
                                   && message == Some(DownloadStarted(key))
      ensures action.Neither? ==> && insertRequests == old(insertRequests) && downloads == old(downloads)
                                  && message == Some(CannotProcess(key))
    {
      match action {
        case Insert(text) =>
          insertRequests := insertRequests + [text];
          var status := host(text);
          if status.Ok? {
            message := Some(TextInserted(key));
          } else {
            message := Some(InsertFailed(ErrorText(status.error)));
          }
        case Download(fileName, blob) =>
          downloads := downloads + [(fileName, blob)];
          message := Some(DownloadStarted(key));
        case Neither =>
          message := Some(CannotProcess(key));
      }
    }

    /** `handleInsert(file)`.  Without a config: a warning and nothing else.
        Otherwise one `getFile` request for the key, then the dispatch rule:
        the text goes to the host (`host` answers for
        `setSelectedDataAsync`), or the blob is offered as a download under
        the key's last segment, or the object is reported as one that cannot
        be processed; a failure of the request or of the host is shown as an
        error; `inserting` is cleared afterwards in every case. */
    method HandleInsert(file: FileWithActions, send: GetSender, host: string -> Result<(), Failure>)
      modifies this
      ensures config == old(config) && files == old(files) && nextToken == old(nextToken) && loading == old(loading)
      ensures listRequests == old(listRequests)
      ensures old(config).None? ==>
                && message == Some(ConfigMissing) && Kind(message.value) == Warning && inserting == old(inserting)
                && getRequests == old(getRequests) && insertRequests == old(insertRequests) && downloads == old(downloads)
      ensures old(config).Some? ==>
                var r := GetFileOutcome(old(config).value, file.key, send);
                && inserting.None?
                && getRequests == old(getRequests) + [GetObjectInput(old(config).value.bucketName, file.key)]
                && message.Some?
                && (Kind(message.value) == ErrorKind <==>
                      r.Err? || (Dispatch(r.value, file.key).Insert? && host(Dispatch(r.value, file.key).text).Err?))
                && (r.Err? ==> && message == Some(InsertFailed(ErrorText(r.error)))
                               && insertRequests == old(insertRequests) && downloads == old(downloads))
                && (r.Ok? ==>
                      var a := Dispatch(r.value, file.key);
                      && (a.Insert? ==> && insertRequests == old(insertRequests) + [a.text]
                                        && downloads == old(downloads)
                                        && message == if host(a.text).Ok? then Some(TextInserted(file.key))
                                                      else Some(InsertFailed(ErrorText(host(a.text).error))))
                      && (a.Download? ==> && downloads == old(downloads) + [(a.fileName, a.blob)]
                                          && insertRequests == old(insertRequests)
                                          && message == Some(DownloadStarted(file.key)))
                      && (a.Neither? ==> && insertRequests == old(insertRequests) && downloads == old(downloads)
                                         && message == Some(CannotProcess(file.key))))
    {
      if config.None? {
        message := Some(ConfigMissing);
        return;
      }
      var cfg := config.value;
      BeginInsert(file);
      getRequests := getRequests + [GetObjectInput(cfg.bucketName, file.key)];
      var result := GetFile(cfg, file.key, send);
      if result.Err? {
        message := Some(InsertFailed(ErrorText(result.error)));
      } else {
        Deliver(file.key, Dispatch(result.value, file.key), host);
      }
      inserting := None;
    }
  }

  /** Every row id is non-empty, so while a row is being inserted every
      insert button is disabled. */
  lemma RowIdsNonEmpty(files: seq<S3FileObject>, token: Option<string>)
    ensures forall i :: 0 <= i < |files| ==> Rows(files, token)[i].id != []
  {
    forall i | 0 <= i < |files| ensures Rows(files, token)[i].id != [] {
      var id := Rows(files, token)[i].id;
      assert |id| >= |NatToString(i)| >= 1;
    }
  }
}
