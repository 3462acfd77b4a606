/**
 * PDFLoader (app/document_processing/pdf_loader.py): turns the PDF files
 * in one directory into documents. The directory listing, the PDF reader
 * and the file-size lookup are the outside world and are given as values.
 */
module PdfLoader {
  import opened Wrappers
  import opened Sequences
  import opened TextUtils
  import opened Schema

  /** A file the loader looks at: its directory and its name. */
  datatype PdfPath = PdfPath(dir: string, name: string)

  /** str(pdf_path) for a path made of a directory and a name. */
  function PathString(p: PdfPath): string {
    p.dir + "/" + p.name
  }

  /**
   * A loader and the world it sees: the directory it was given, the names
   * listed in that directory (in listing order), what PyMuPDFReader.load
   * returns for a path (the page texts, or None when it raises), and what
   * os.path.getsize returns (None when it raises).
   */
  datatype Loader = Loader(
    pdfDir: string,
    listing: seq<string>,
    readPages: PdfPath -> Option<seq<string>>,
    fileSize: PdfPath -> Option<nat>)

  predicate EndsWith(s: string, suffix: string) {
    |suffix| <= |s| && s[|s| - |suffix|..] == suffix
  }

  /** The glob "*.pdf": a name matches when it ends with ".pdf". */
  predicate IsPdfName(name: string) {
    EndsWith(name, ".pdf")
  }

  /** The matching names of a listing, in listing order. */
  function PdfNames(names: seq<string>): (r: seq<string>)
    ensures forall n :: n in r <==> n in names && IsPdfName(n)
    ensures IsSubsequence(r, names)
    decreases |names|
  {
    if names == [] then []
    else
      var rest := PdfNames(names[1..]);
      if IsPdfName(names[0]) then
        assert IsSubsequence([names[0]] + rest, names) by {
          assert ([names[0]] + rest)[1..] == rest;
        }
        [names[0]] + rest
      else
        SubsequenceCons(rest, names[0], names[1..]);
        assert [names[0]] + names[1..] == names;
        rest
  }

  /** get_pdf_files: the paths of the listed names matching "*.pdf", in listing order. */
  function GetPdfFiles(loader: Loader): (files: seq<PdfPath>)
    ensures |files| <= |loader.listing|
    ensures forall p :: p in files <==> p.dir == loader.pdfDir && p.name in loader.listing && IsPdfName(p.name)
  {
    var names := PdfNames(loader.listing);
    SubsequenceLength(names, loader.listing);
    var files := seq(|names|, i requires 0 <= i < |names| => PdfPath(loader.pdfDir, names[i]));
    assert forall p: PdfPath :: p in files <==> p.dir == loader.pdfDir && p.name in names by {
      forall p: PdfPath | p.dir == loader.pdfDir && p.name in names ensures p in files {
        var i :| 0 <= i < |names| && names[i] == p.name;
        assert files[i] == p;
      }
    }
    files
  }

  /** The four fields load_single_pdf adds to the extracted metadata. */
  const FileKeys: set<string> := {"source", "file_path", "file_size", "file_type"}

  /**
   * The metadata of a loaded file: every extracted entry as a string value,
   * updated with the file's name, path string, size and type.
   */
  function FileMetadata(extracted: map<string, string>, p: PdfPath, size: nat): Metadata {
    var fields: Metadata := map["source" := Text(p.name), "file_path" := Text(PathString(p)),
                                "file_size" := Number(size), "file_type" := Text("pdf")];
    LiftEntries(extracted) + fields
  }

  /** The extracted string entries as metadata values. */
  function LiftEntries(extracted: map<string, string>): (m: Metadata)
    ensures m.Keys == extracted.Keys
    ensures forall k :: k in extracted ==> m[k] == Text(extracted[k])
  {
    map k | k in extracted :: Text(extracted[k])
  }

  /**
   * As with dict.update, the four file fields are added and win over an
   * extracted entry of the same key; every other extracted entry is kept.
   */
  lemma FileMetadataUpdate(extracted: map<string, string>, p: PdfPath, size: nat)
    ensures var m := FileMetadata(extracted, p, size);
      && m.Keys == extracted.Keys + FileKeys
      && (forall k :: k in extracted && k !in FileKeys ==> m[k] == Text(extracted[k]))
      && m["source"] == Text(p.name) && m["file_path"] == Text(PathString(p))
      && m["file_size"] == Number(size) && m["file_type"] == Text("pdf")
  {
  }

  /** For the keys extract_metadata produces, the update overwrites no extracted entry. */
  lemma FileMetadataContents(extracted: map<string, string>, p: PdfPath, size: nat)
    requires extracted.Keys <= {"title", "authors"}
    ensures var m := FileMetadata(extracted, p, size);
      && m.Keys == extracted.Keys + FileKeys
      && (forall k :: k in extracted ==> m[k] == Text(extracted[k]))
      && m["source"] == Text(p.name) && m["file_path"] == Text(PathString(p))
      && m["file_size"] == Number(size) && m["file_type"] == Text("pdf")
  {
    FileMetadataUpdate(extracted, p, size);
    MetadataKeysDisjoint(extracted);
  }

  /** The extracted keys and the file keys never collide, so update overwrites nothing. */
  lemma MetadataKeysDisjoint(extracted: map<string, string>)
    requires extracted.Keys <= {"title", "authors"}
    ensures extracted.Keys * FileKeys == {}
  {
    assert {"title", "authors"} * FileKeys == {};
  }

  /**
   * load_single_pdf: the pages joined by blank lines and cleaned, with the
   * metadata extracted from the cleaned text plus the file fields; None,
   * rather than an exception, when the reader or the size lookup fails.
   */
  function LoadSinglePdf(loader: Loader, p: PdfPath): (r: Option<Document>)
    ensures r.None? <==> loader.readPages(p).None? || loader.fileSize(p).None?
    ensures r.Some? ==> r.value.text == CleanText(Join(loader.readPages(p).value, "\n\n"))
  {
    match loader.readPages(p)
    case None => None
    case Some(pages) =>
      var text := CleanText(Join(pages, "\n\n"));
      var extracted := ExtractMetadata(text);
      match loader.fileSize(p)
      case None => None
      case Some(size) => Some(Document(text, FileMetadata(extracted, p, size)))
  }

  /** A loaded document's text is in clean_text's normal form and keeps only characters of its pages, in order. */
  lemma LoadSinglePdfText(loader: Loader, p: PdfPath)
    requires LoadSinglePdf(loader, p).Some?
    ensures IsClean(LoadSinglePdf(loader, p).value.text)
    ensures IsSubsequence(LoadSinglePdf(loader, p).value.text, Join(loader.readPages(p).value, "\n\n"))
  {
  }

  /**
   * A loaded document's metadata: the extracted title and authors as
   * strings, and the file's name, path string, size and type, with no
   * other keys.
   */
  lemma LoadSinglePdfMetadata(loader: Loader, p: PdfPath)
    requires LoadSinglePdf(loader, p).Some?
    ensures var d := LoadSinglePdf(loader, p).value;
      && d.metadata.Keys == ExtractMetadata(d.text).Keys + FileKeys
      && (forall k :: k in ExtractMetadata(d.text) ==> d.metadata[k] == Text(ExtractMetadata(d.text)[k]))
      && d.metadata["source"] == Text(p.name)
      && d.metadata["file_path"] == Text(PathString(p))
      && d.metadata["file_size"] == Number(loader.fileSize(p).value)
      && d.metadata["file_type"] == Text("pdf")
  {
    var d := LoadSinglePdf(loader, p).value;
    FileMetadataContents(ExtractMetadata(d.text), p, loader.fileSize(p).value);
  }

  /** What load_single_pdf returns for each of the files, in file order. */
  function LoadResults(loader: Loader, files: seq<PdfPath>): (results: seq<Option<Document>>)
    ensures |results| == |files|
    decreases |files|
  {
    if files == [] then [] else [LoadSinglePdf(loader, files[0])] + LoadResults(loader, files[1..])
  }

  lemma {:induction false} LoadResultsAt(loader: Loader, files: seq<PdfPath>, i: nat)
    requires i < |files|
    ensures LoadResults(loader, files)[i] == LoadSinglePdf(loader, files[i])
    decreases i
  {
    if i > 0 {
      LoadResultsAt(loader, files[1..], i - 1);
    }
  }

  /** The documents that load from the given files, in file order, failures dropped. */
  function LoadedDocs(loader: Loader, files: seq<PdfPath>): seq<Document> {
    Values(LoadResults(loader, files))
  }

  lemma {:induction false} LoadResultsAppend(loader: Loader, a: seq<PdfPath>, b: seq<PdfPath>)
    ensures LoadResults(loader, a + b) == LoadResults(loader, a) + LoadResults(loader, b)
    decreases |a|
  {
    if a == [] {
      assert a + b == b;
    } else {
      assert (a + b)[0] == a[0];
      assert (a + b)[1..] == a[1..] + b;
      LoadResultsAppend(loader, a[1..], b);
    }
  }

  /** A file that fails to load leaves no trace: dropping it changes nothing. */
  lemma LoadedDocsSkipsFailure(loader: Loader, a: seq<PdfPath>, f: PdfPath, b: seq<PdfPath>)
    requires LoadSinglePdf(loader, f).None?
    ensures LoadedDocs(loader, a + [f] + b) == LoadedDocs(loader, a + b)
  {
    LoadResultsAppend(loader, a + [f], b);
    LoadResultsAppend(loader, a, [f]);
    LoadResultsAppend(loader, a, b);
    var ra, rb := LoadResults(loader, a), LoadResults(loader, b);
    assert LoadResults(loader, [f]) == [None];
    ValuesAppend(ra + [None], rb);
    ValuesAppend(ra, [None]);
    ValuesAppend(ra, rb);
    assert Values([None] + []) == [] + Values<Document>([]);
  }

  /** A document is returned exactly when some file's load result holds it. */
  lemma LoadedDocsMembers(loader: Loader, files: seq<PdfPath>, d: Document)
    ensures d in LoadedDocs(loader, files) <==> Some(d) in LoadResults(loader, files)
  {
    ValuesMembers(LoadResults(loader, files), d);
  }

  /** When every file loads, one document per file comes back, in file order. */
  lemma LoadedDocsAllLoad(loader: Loader, files: seq<PdfPath>)
    requires forall i :: 0 <= i < |files| ==> LoadResults(loader, files)[i].Some?
    ensures |LoadedDocs(loader, files)| == |files|
    ensures forall i :: 0 <= i < |files| ==> LoadedDocs(loader, files)[i] == LoadResults(loader, files)[i].value
  {
    ValuesAllSome(LoadResults(loader, files));
  }

  /** Three files with a corrupt one in the middle give the other two documents, in order. */
  lemma CorruptFileExample(loader: Loader, good: PdfPath, corrupt: PdfPath, good2: PdfPath)
    requires LoadSinglePdf(loader, good).Some? && LoadSinglePdf(loader, good2).Some?
    requires loader.readPages(corrupt).None?
    ensures LoadedDocs(loader, [good, corrupt, good2]) ==
              [LoadSinglePdf(loader, good).value, LoadSinglePdf(loader, good2).value]
  {
    assert LoadSinglePdf(loader, corrupt).None?;
    LoadedDocsSkipsFailure(loader, [good], corrupt, [good2]);
    assert [good] + [corrupt] + [good2] == [good, corrupt, good2];
    var files := [good, good2];
    assert [good] + [good2] == files;
    LoadResultsAt(loader, files, 0);
    LoadResultsAt(loader, files, 1);
    LoadedDocsAllLoad(loader, files);
  }

  /** One more file either adds its document at the end or changes nothing. */
  lemma LoadedDocsStep(loader: Loader, files: seq<PdfPath>, i: nat)
    requires i < |files|
    ensures LoadedDocs(loader, files[..i + 1]) ==
              LoadedDocs(loader, files[..i]) + (match LoadSinglePdf(loader, files[i]) case Some(d) => [d] case None => [])
  {
    assert files[..i + 1] == files[..i] + [files[i]];
    LoadResultsAppend(loader, files[..i], [files[i]]);
    ValuesAppend(LoadResults(loader, files[..i]), LoadResults(loader, [files[i]]));
    var one := LoadResults(loader, [files[i]]);
    assert one == [LoadSinglePdf(loader, files[i])];
    assert one[1..] == [];
  }

  /**
   * load_all_pdfs: the loop over get_pdf_files that keeps each document
   * load_single_pdf returns, so the result is the loaded documents in file
   * order with every failed file dropped.
   */
  method LoadAllPdfs(loader: Loader) returns (allDocs: seq<Document>)
    ensures allDocs == LoadedDocs(loader, GetPdfFiles(loader))
    ensures |allDocs| <= |GetPdfFiles(loader)|
  {
    var pdfFiles := GetPdfFiles(loader);
    allDocs := [];
    for i := 0 to |pdfFiles|
      invariant allDocs == LoadedDocs(loader, pdfFiles[..i])
    {
      var document := LoadSinglePdf(loader, pdfFiles[i]);
      LoadedDocsStep(loader, pdfFiles, i);
      if document.Some? {
        allDocs := allDocs + [document.value];
      }
    }
    assert pdfFiles[..|pdfFiles|] == pdfFiles;
    ValuesLength(LoadResults(loader, pdfFiles));
  }
}
