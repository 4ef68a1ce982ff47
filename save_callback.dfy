/** The document server's save callback, `POST /save`: the collaborative editor reports a
    document's state; when it is ready to save, the server downloads the edited file and
    overwrites its copy in the saved-documents directory, then acknowledges. */
module SaveCallback {
  import opened Base
  import opened JsValues
  import opened JsStrings
  import opened Sequences

  /** The saved-documents directory: file name to contents. */
  type Store = map<string, Bytes>

  /** The fields of the callback's JSON body the handler reads. */
  datatype Callback = Callback(status: JsValue, url: JsValue, key: JsValue)

  /** The answer: `200 {error: 0}`, or `500 {error: 1, message}` when something threw. */
  datatype SaveResponse = Ack | Fail(message: string)
  {
    /** 200 for the acknowledgement, 500 for a failure. */
    function HttpStatus(): int
    {
      if Ack? then 200 else 500
    }

    /** The `error` field of the JSON body: 0 for the acknowledgement, 1 for a failure. */
    function ErrorCode(): int
    {
      if Ack? then 0 else 1
    }
  }

  /** What one callback leaves behind: the answer and the directory afterwards. */
  datatype Outcome = Outcome(response: SaveResponse, store: Store)

  const LocalHost: string := "localhost"
  const DockerHost: string := "host.docker.internal"
  const DefaultFilename: string := "edited.docx"

  /** The messages of the TypeError thrown when `replace` is called on a value that is not a
      string (a truthy url, or a truthy key, of another JSON type). */
  const UrlNotString: string := "downloadUrl.replace is not a function"
  const KeyNotString: string := "(req.body.key || \"edited.docx\").replace is not a function"

  /** Status 2 (ready to save) or 4 (ready to save, forced), compared strictly, and a
      truthy url: only then does the handler download and write. */
  predicate Triggers(cb: Callback)
    ensures Triggers(cb) <==> cb.status in {Num(2.0), Num(4.0)} && cb.url !in Falsy
  {
    (IsNumber(cb.status, 2.0) || IsNumber(cb.status, 4.0)) && Truthy(cb.url)
  }

  /** The download address: the first `localhost` in the url, wherever it is, becomes the
      Docker host alias. */
  function RewriteUrl(url: string): (r: string)
    ensures (forall j: nat :: !OccursAt(url, LocalHost, j)) ==> r == url
    ensures forall i: nat :: IsFirstOccurrence(url, LocalHost, i) ==>
              r == url[..i] + DockerHost + url[i + |LocalHost|..]
  {
    ReplaceFirst(url, LocalHost, DockerHost)
  }

  /** The parts of the class `[a-zA-Z0-9._-]`, written out. */
  const Lower: string := "abcdefghijklmnopqrstuvwxyz"
  const Upper: string := "ABCDEFGHIJKLMNOPQRSTUVWXYZ"
  const Digits: string := "0123456789"
  const Punctuation: string := "._-"

  /** The characters `[a-zA-Z0-9._-]` that survive in a saved file's name. */
  predicate IsSafeChar(c: char)
  {
    ('a' <= c <= 'z') || ('A' <= c <= 'Z') || ('0' <= c <= '9') || c == '.' || c == '_' || c == '-'
  }

  /** The allowed characters are exactly the letters, the digits, `.`, `_` and `-`. */
  lemma SafeCharsSpelledOut(c: char)
    ensures IsSafeChar(c) <==> c in Lower || c in Upper || c in Digits || c in Punctuation
  {
  }

  /** `name.replace(/[^a-zA-Z0-9._-]/g, "")`: every other character is deleted. */
  function Sanitize(name: string): (r: string)
    ensures |r| <= |name|
    ensures forall i :: 0 <= i < |r| ==> IsSafeChar(r[i])
    ensures '/' !in r && '\\' !in r
  {
    Filter(name, IsSafeChar)
  }

  /** The default name is made of allowed characters only, so sanitising keeps it. */
  lemma DefaultFilenameIsSafe()
    ensures Sanitize(DefaultFilename) == DefaultFilename
  {
    assert forall i :: 0 <= i < |DefaultFilename| ==> IsSafeChar(DefaultFilename[i]);
    FilterFixpoint(DefaultFilename, IsSafeChar);
  }

  /** `(key || "edited.docx").replace(...)`: the default replaces a falsy key only; a truthy
      key that is not a string has no `replace` and throws. */
  function Filename(key: JsValue): (r: Result<string>)
    ensures r.Ok? <==> !Truthy(key) || key.Str?
    ensures r.Err? ==> r.message == KeyNotString
    ensures r.Ok? ==> forall i :: 0 <= i < |r.value| ==> IsSafeChar(r.value[i])
    ensures !Truthy(key) ==> r == Ok(DefaultFilename)
  {
    DefaultFilenameIsSafe();
    var chosen := if Truthy(key) then key else Str(DefaultFilename);
    if chosen.Str? then Ok(Sanitize(chosen.s)) else Err(KeyNotString)
  }

  /** The handler, as a function of the directory before the callback. `fetch` is the
      download (the response body, or the error axios throws); `writeError` says whether
      the file system refuses to write a given name, and with what message. */
  function Reconcile(store: Store, cb: Callback, fetch: string -> Result<Bytes>,
                     writeError: string -> Option<string>): (o: Outcome)
    ensures !Triggers(cb) ==> o == Outcome(Ack, store)
    ensures o.response.Fail? ==> o.store == store
    ensures store.Keys <= o.store.Keys
  {
    if !Triggers(cb) then Outcome(Ack, store)
    else if !cb.url.Str? then Outcome(Fail(UrlNotString), store)
    else
      var downloadUrl := RewriteUrl(cb.url.s);
      match Filename(cb.key)
      case Err(m) => Outcome(Fail(m), store)
      case Ok(filename) =>
        match fetch(downloadUrl)
        case Err(m) => Outcome(Fail(m), store)
        case Ok(data) =>
          match writeError(filename)
          case Some(m) => Outcome(Fail(m), store)
          case None => Outcome(Ack, store[filename := data])
  }

  /** The directory changes only for status 2 or 4 and a non-empty string url. */
  lemma WriteOnlyWhenTriggered(store: Store, cb: Callback, fetch: string -> Result<Bytes>,
                               writeError: string -> Option<string>)
    ensures Reconcile(store, cb, fetch, writeError).store != store ==>
              (cb.status == Num(2.0) || cb.status == Num(4.0)) && cb.url.Str? && |cb.url.s| > 0
  {
  }

  /** A triggering callback whose download and write succeed stores exactly the downloaded
      bytes under the sanitised key, replacing any earlier file of that name, leaves every
      other file as it was, and is acknowledged. */
  lemma SuccessfulSave(store: Store, cb: Callback, fetch: string -> Result<Bytes>,
                       writeError: string -> Option<string>, name: string, data: Bytes)
    requires Triggers(cb) && cb.url.Str?
    requires Filename(cb.key) == Ok(name)
    requires fetch(RewriteUrl(cb.url.s)) == Ok(data)
    requires writeError(name) == None
    ensures var o := Reconcile(store, cb, fetch, writeError);
            && o.response == Ack
            && o.store.Keys == store.Keys + {name}
            && o.store[name] == data
            && forall other :: other in store && other != name ==> o.store[other] == store[other]
  {
  }

  /** A failed download writes nothing and is answered with 500 and the error's message. */
  lemma FetchFailureWritesNothing(store: Store, cb: Callback, fetch: string -> Result<Bytes>,
                                  writeError: string -> Option<string>, message: string)
    requires Triggers(cb) && cb.url.Str? && Filename(cb.key).Ok?
    requires fetch(RewriteUrl(cb.url.s)) == Err(message)
    ensures Reconcile(store, cb, fetch, writeError) == Outcome(Fail(message), store)
    ensures Fail(message).HttpStatus() == 500 && Fail(message).ErrorCode() == 1
  {
  }

  /** The answer is `200 {error: 0}` exactly when the callback did not trigger a save or
      every step of the save succeeded; otherwise it is `500 {error: 1, message}` and nothing
      was written. */
  lemma AcknowledgedExactly(store: Store, cb: Callback, fetch: string -> Result<Bytes>,
                            writeError: string -> Option<string>)
    ensures var o := Reconcile(store, cb, fetch, writeError);
            o.response == Ack <==>
              || !Triggers(cb)
              || (&& cb.url.Str?
                  && Filename(cb.key).Ok?
                  && fetch(RewriteUrl(cb.url.s)).Ok?
                  && writeError(Filename(cb.key).value).None?)
    ensures var o := Reconcile(store, cb, fetch, writeError);
            o.response == Ack ==> o.response.HttpStatus() == 200 && o.response.ErrorCode() == 0
    ensures var o := Reconcile(store, cb, fetch, writeError);
            o.response != Ack ==>
              o.response.HttpStatus() == 500 && o.response.ErrorCode() == 1 && o.store == store
  {
  }

  /** Every file a callback creates has a name made only of `[a-zA-Z0-9._-]`. */
  lemma NewFilesHaveSafeNames(store: Store, cb: Callback, fetch: string -> Result<Bytes>,
                              writeError: string -> Option<string>)
    ensures var o := Reconcile(store, cb, fetch, writeError);
            forall name :: name in o.store && name !in store ==>
              forall i :: 0 <= i < |name| ==> IsSafeChar(name[i])
  {
    var o := Reconcile(store, cb, fetch, writeError);
    if o.store != store {
      var name := Filename(cb.key).value;
      assert o.store.Keys <= store.Keys + {name};
    }
  }

  /** Delivering the same callback again, with the same download, changes nothing more. */
  lemma RepeatedCallbackIdempotent(store: Store, cb: Callback, fetch: string -> Result<Bytes>,
                                   writeError: string -> Option<string>)
    ensures var once := Reconcile(store, cb, fetch, writeError);
            Reconcile(once.store, cb, fetch, writeError) == once
  {
    var once := Reconcile(store, cb, fetch, writeError);
    if Triggers(cb) && cb.url.Str? && Filename(cb.key).Ok? {
      var name := Filename(cb.key).value;
      var fetched := fetch(RewriteUrl(cb.url.s));
      if fetched.Ok? && writeError(name).None? {
        assert once.store == store[name := fetched.value];
        assert once.store[name := fetched.value] == once.store;
      }
    }
  }

  /** Two successful saves of the same key: the second one's bytes win. */
  lemma LastWriteWins(store: Store, first: Callback, second: Callback,
                      fetch1: string -> Result<Bytes>, fetch2: string -> Result<Bytes>,
                      writeError: string -> Option<string>)
    requires Triggers(second) && second.url.Str? && Filename(second.key).Ok?
    requires fetch2(RewriteUrl(second.url.s)).Ok?
    requires writeError(Filename(second.key).value).None?
    ensures var o := Reconcile(Reconcile(store, first, fetch1, writeError).store, second, fetch2, writeError);
            && o.response == Ack
            && Filename(second.key).value in o.store
            && o.store[Filename(second.key).value] == fetch2(RewriteUrl(second.url.s)).value
  {
  }

  /** The key is sanitised whenever it is a non-empty string; only an absent or falsy key
      gets the default name. A non-empty key without allowed characters gives the empty
      name, not the default. */
  lemma FallbackOnlyForFalsyKey(key: string)
    ensures |key| == 0 ==> Filename(Str(key)) == Ok(DefaultFilename)
    ensures |key| > 0 ==> Filename(Str(key)) == Ok(Sanitize(key))
    ensures |key| > 0 && (forall i :: 0 <= i < |key| ==> !IsSafeChar(key[i])) ==>
              Filename(Str(key)) == Ok("")
  {
    FilterEmpty(key, IsSafeChar);
  }

  /** The sanitised name is the input with exactly the disallowed characters deleted: in
      order, every allowed character as often as in the input, no other character. */
  lemma SanitizeKeepsAllowedInOrder(name: string)
    ensures IsSubsequence(Sanitize(name), name)
    ensures forall c :: multiset(Sanitize(name))[c] == if IsSafeChar(c) then multiset(name)[c] else 0
  {
    FilterIsSubsequence(name, IsSafeChar);
    forall c ensures multiset(Sanitize(name))[c] == if IsSafeChar(c) then multiset(name)[c] else 0 {
      FilterCount(name, IsSafeChar, c);
    }
  }

  /** Each character is kept or deleted on its own, regardless of its neighbours. */
  lemma SanitizeConcat(a: string, b: string)
    ensures Sanitize(a + b) == Sanitize(a) + Sanitize(b)
  {
    FilterConcat(a, b, IsSafeChar);
  }

  /** Sanitising a sanitised name changes nothing. */
  lemma SanitizeIdempotent(name: string)
    ensures Sanitize(Sanitize(name)) == Sanitize(name)
  {
    FilterIdempotent(name, IsSafeChar);
  }

  /** A name is left as it is exactly when it holds only allowed characters. */
  lemma SanitizeUnchangedIffSafe(name: string)
    ensures Sanitize(name) == name <==> forall i :: 0 <= i < |name| ==> IsSafeChar(name[i])
  {
    FilterFixpoint(name, IsSafeChar);
  }

  /** When `localhost` first appears right after `prefix`, that occurrence is rewritten and
      everything after it, further occurrences included, is kept as it is. */
  lemma RewriteAfterPrefix(prefix: string, rest: string)
    requires forall j: nat :: j < |prefix| ==> !OccursAt(prefix + LocalHost + rest, LocalHost, j)
    ensures RewriteUrl(prefix + LocalHost + rest) == prefix + DockerHost + rest
  {
    var url := prefix + LocalHost + rest;
    var n := |prefix|;
    assert url[n..n + |LocalHost|] == LocalHost;
    assert IsFirstOccurrence(url, LocalHost, n);
    assert url[..n] == prefix;
    assert url[n + |LocalHost|..] == rest;
  }

  /** A single disallowed character between two allowed parts is deleted and nothing else
      changes: `report#1.docx` is saved as `report1.docx`. */
  lemma SanitizeDropsOne(a: string, c: char, b: string)
    requires forall i :: 0 <= i < |a| ==> IsSafeChar(a[i])
    requires forall i :: 0 <= i < |b| ==> IsSafeChar(b[i])
    requires !IsSafeChar(c)
    ensures Sanitize(a + [c] + b) == a + b
  {
    SanitizeConcat(a + [c], b);
    SanitizeConcat(a, [c]);
    SanitizeUnchangedIffSafe(a);
    SanitizeUnchangedIffSafe(b);
    FilterEmpty([c], IsSafeChar);
  }

  /** The end-to-end scenario: status 2, a url such as `http://localhost:9000/doc` and a key
      such as `report#1.docx`. The server downloads `http://host.docker.internal:9000/doc`,
      saves the bytes as `report1.docx` and acknowledges. */
  lemma EndToEnd(store: Store, fetch: string -> Result<Bytes>, writeError: string -> Option<string>,
                 scheme: string, rest: string, a: string, c: char, b: string, data: Bytes)
    requires forall j: nat :: j < |scheme| ==> !OccursAt(scheme + LocalHost + rest, LocalHost, j)
    requires forall i :: 0 <= i < |a| ==> IsSafeChar(a[i])
    requires forall i :: 0 <= i < |b| ==> IsSafeChar(b[i])
    requires !IsSafeChar(c)
    requires fetch(scheme + DockerHost + rest) == Ok(data)
    requires writeError(a + b) == None
    ensures Reconcile(store, Callback(Num(2.0), Str(scheme + LocalHost + rest), Str(a + [c] + b)),
                      fetch, writeError)
            == Outcome(Ack, store[a + b := data])
  {
    RewriteAfterPrefix(scheme, rest);
    SanitizeDropsOne(a, c, b);
  }

  /** The scenario above with concrete values: the url `http://localhost:9000/doc` is
      downloaded as `http://host.docker.internal:9000/doc`, and the key `report#1.docx` is
      saved as `report1.docx`. */
  lemma EndToEndExample(store: Store, fetch: string -> Result<Bytes>,
                        writeError: string -> Option<string>, data: Bytes)
    requires fetch("http://" + "host.docker.internal" + ":9000/doc") == Ok(data)
    requires writeError("report" + "1.docx") == None
    ensures Reconcile(store, Callback(Num(2.0), Str("http://" + "localhost" + ":9000/doc"),
                                      Str("report" + "#" + "1.docx")), fetch, writeError)
            == Outcome(Ack, store["report" + "1.docx" := data])
  {
    var scheme, rest := "http://", ":9000/doc";
    forall j: nat | j < |scheme|
      ensures !OccursAt(scheme + LocalHost + rest, LocalHost, j)
    {
      assert (scheme + LocalHost + rest)[j] != 'l';
    }
    EndToEnd(store, fetch, writeError, scheme, rest, "report", '#', "1.docx", data);
  }

  /** The saved-documents directory, which `POST /save` overwrites a file of. */
  class SavedDocuments {
    var files: Store

    constructor (existing: Store)
      ensures files == existing
    {
      files := existing;
    }

    /** Handles one callback step by step: check the trigger, rewrite the url, derive the
        file name, download, write; anything that throws becomes a 500 answer. */
    method HandleSave(cb: Callback, fetch: string -> Result<Bytes>,
                      writeError: string -> Option<string>) returns (response: SaveResponse)
      modifies this
      ensures Outcome(response, files) == Reconcile(old(files), cb, fetch, writeError)
      ensures !Triggers(cb) ==> response == Ack && files == old(files)
      ensures response.Fail? ==> files == old(files)
    {
      if Triggers(cb) {
        if !cb.url.Str? {
          return Fail(UrlNotString);
        }
        var downloadUrl := RewriteUrl(cb.url.s);
        var filename := Filename(cb.key);
        if filename.Err? {
          return Fail(filename.message);
        }
        var fetched := fetch(downloadUrl);
        if fetched.Err? {
          return Fail(fetched.message);
        }
        var refused := writeError(filename.value);
        if refused.Some? {
          return Fail(refused.value);
        }
        files := files[filename.value := fetched.value];
      }
      response := Ack;
    }
  }
}
