/** The read side of the server: `GET /files` lists the source documents and
    `GET /file/:filename` returns one of them. The source directory is a map from
    file name to contents; its enumeration order is the sequence `entries`. */
module Registry {
  import opened Base
  import opened JsStrings
  import opened Sequences

  const DocxExtension: string := ".docx"
  const NotFoundText: string := "File not found"

  /** The name is listed: it ends in `.docx` (case-sensitive, as `endsWith` is). */
  predicate IsDocx(name: string)
    ensures IsDocx(name) <==> exists stem: string :: name == stem + ".docx"
  {
    EndsWith(name, DocxExtension)
  }

  /** The JSON array `GET /files` answers with, given the directory's entries. */
  function ListDocuments(entries: seq<string>): (names: seq<string>)
    ensures forall i :: 0 <= i < |names| ==> IsDocx(names[i])
  {
    Filter(entries, IsDocx)
  }

  /** The listing holds exactly the `.docx` entries, each as often as the directory holds it,
      in directory order. */
  lemma ListingExact(entries: seq<string>)
    ensures forall name :: name in ListDocuments(entries) <==> name in entries && IsDocx(name)
    ensures forall name :: multiset(ListDocuments(entries))[name] ==
                           if IsDocx(name) then multiset(entries)[name] else 0
    ensures IsSubsequence(ListDocuments(entries), entries)
  {
    forall name ensures multiset(ListDocuments(entries))[name] ==
                        if IsDocx(name) then multiset(entries)[name] else 0 {
      FilterCount(entries, IsDocx, name);
    }
    FilterIsSubsequence(entries, IsDocx);
  }

  /** An empty directory, or one without `.docx` entries, lists as the empty array. */
  lemma ListingEmpty(entries: seq<string>)
    ensures |ListDocuments(entries)| == 0 <==> forall i :: 0 <= i < |entries| ==> !IsDocx(entries[i])
  {
    FilterEmpty(entries, IsDocx);
  }

  /** A directory holding a.docx, b.txt and c.docx lists a.docx and c.docx. */
  lemma ListingExample()
    ensures ListDocuments(["a.docx", "b.txt", "c.docx"]) == ["a.docx", "c.docx"]
  {
    var entries := ["a.docx", "b.txt", "c.docx"];
    assert IsDocx(entries[0]) && !IsDocx(entries[1]) && IsDocx(entries[2]);
    assert entries == [entries[0]] + ([entries[1]] + [entries[2]]);
    FilterConcat([entries[0]], [entries[1]] + [entries[2]], IsDocx);
    FilterConcat([entries[1]], [entries[2]], IsDocx);
  }

  /** The answer to `GET /file/:filename`: the file's bytes with status 200 (the
      Content-Type and Content-Disposition headers are not modelled), or 404 with a
      plain-text body. */
  datatype FileResponse = Document(content: Bytes) | Missing(status: int, body: string)

  /** `GET /file/:filename` against the source directory `files`. */
  function FetchDocument(files: map<string, Bytes>, filename: string): (r: FileResponse)
    ensures r.Missing? <==> filename !in files
    ensures r.Missing? ==> r.status == 404 && r.body == NotFoundText
    ensures r.Document? ==> r.content == files[filename]
  {
    if filename !in files then Missing(404, NotFoundText)
    else Document(files[filename])
  }
}
