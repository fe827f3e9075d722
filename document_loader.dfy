/**
  `DocumentHandler` of DocuBot's document ingestor: `save` stores an upload
  under the documents directory with a timestamped name, `load` picks a
  parser from the extension of a stored path.

  The documents directory is a map from path to bytes, the clock reading is
  an argument, and each third-party parser is a tag saying which one `load`
  chose.
 */
module DocumentLoader {
  import opened Wrappers
  import PyStr
  import PosixPath
  import Timestamp

  newtype byte = x: int | 0 <= x < 256

  /** An uploaded file: the name the client gave it and its bytes. */
  datatype Upload = Upload(name: string, content: seq<byte>)

  /** The parser `load` hands a path to: `text_loader`, `doc_loader`,
      `pdf_loader`, or `csv_loader` with its delimiter and quote character. */
  datatype Loader = TextLoader | WordLoader | PdfLoader | CsvLoader(delimiter: char, quotechar: char)

  /** What `load` returns: the documents the chosen parser makes of the
      stored bytes, the sentinel string for an unsupported extension, or
      `None` when the parser raised (here: the path holds no file). */
  datatype LoadResult =
    | Loaded(loader: Loader, source: string, data: seq<byte>)
    | NotSupported(message: string)
    | LoadFailed

  const NotSupportedMessage: string := "File type not supported!"

  /** The extensions the HTTP handler admits before it calls `save`. */
  const AcceptedExtensions: seq<string> := ["txt", "doc", "pdf", "csv"]

  /** `path.split(".")[-1]`: the longest suffix of `path` without a `.`,
      which is all of `path` when it has no `.`. */
  function Extension(path: string): (e: string)
    ensures '.' !in e
    ensures |e| <= |path| && path[|path| - |e|..] == e
    ensures '.' !in path <==> e == path
    ensures '.' in path ==> path[|path| - |e| - 1] == '.'
  {
    PyStr.LastPieceIsSeparatorFreeSuffix(path, '.');
    PyStr.LastPiece(path, '.')
  }

  /** The `if`/`elif` chain of `load`: an exact, case-sensitive match that
      picks a loader exactly for the extensions the HTTP handler accepts. */
  function LoaderFor(ext: string): (r: Option<Loader>)
    ensures r.Some? <==> ext in AcceptedExtensions
  {
    if ext == "txt" then Some(TextLoader)
    else if ext == "doc" then Some(WordLoader)
    else if ext == "pdf" then Some(PdfLoader)
    else if ext == "csv" then Some(CsvLoader(',', '"'))
    else None
  }

  /** Different extensions never reach the same loader. */
  lemma LoaderForOneToOne(e1: string, e2: string)
    requires LoaderFor(e1).Some? && LoaderFor(e1) == LoaderFor(e2)
    ensures e1 == e2
  {
  }

  /** `filename, ext = name.split(".")`: succeeds exactly when `name` holds
      one `.`, and then cuts `name` at that `.` into two dot-free halves. */
  function StemAndExtension(name: string): (r: Option<(string, string)>)
    ensures r.Some? <==> PyStr.Count(name, '.') == 1
    ensures r.Some? ==> var (stem, ext) := r.value;
      stem + "." + ext == name && '.' !in stem && '.' !in ext
  {
    var parts := PyStr.Split(name, '.');
    if |parts| == 2 then
      PyStr.JoinSplit(name, '.');
      assert PyStr.JoinWith(parts, '.') == parts[0] + "." + parts[1];
      Some((parts[0], parts[1]))
    else
      None
  }

  /** The name `save` stores under: `stem-DD-MM-YYYY-HH-MM-SS.ext`. */
  function StorageName(stem: string, ext: string, now: Timestamp.Clock): (r: string)
    requires Timestamp.Valid(now)
    ensures |r| == |stem| + |ext| + 21
    ensures r[..|stem|] == stem && r[|stem| + 21..] == ext
  {
    stem + "-" + Timestamp.Format(now) + "." + ext
  }

  /** The path `save` returns for `name` at time `now`, when the name splits. */
  function SavePath(dir: string, name: string, now: Timestamp.Clock): (r: Option<string>)
    requires Timestamp.Valid(now)
    ensures r.Some? <==> PyStr.Count(name, '.') == 1
    ensures r.Some? ==> |r.value| >= |name| + 20
  {
    match StemAndExtension(name)
    case None => None
    case Some((stem, ext)) => Some(PosixPath.Join(dir, StorageName(stem, ext, now)))
  }

  /** The layout of a storage name: the stem, `-`, the 19-character stamp
      of `now`, `.`, the extension; the extension reads back. */
  lemma StorageNameLayout(stem: string, ext: string, now: Timestamp.Clock)
    requires Timestamp.Valid(now)
    requires '.' !in ext
    ensures var n := StorageName(stem, ext, now);
      && |n| == |stem| + 1 + 19 + 1 + |ext|
      && n[..|stem|] == stem
      && n[|stem|] == '-'
      && Timestamp.Parse(n[|stem| + 1..|stem| + 20]) == Some(now)
      && n[|stem| + 20] == '.'
      && n[|stem| + 21..] == ext
      && Extension(n) == ext
  {
    var n := StorageName(stem, ext, now);
    var ts := Timestamp.Format(now);
    assert n[|stem| + 1..|stem| + 20] == ts;
    Timestamp.ParseFormat(now);
    ExtensionAfterDot(stem + "-" + ts, ext);
  }

  /** The text after the last `.` of `prefix + "." + ext`, for a dot-free
      `ext`, is `ext`. */
  lemma ExtensionAfterDot(prefix: string, ext: string)
    requires '.' !in ext
    ensures Extension(prefix + "." + ext) == ext
  {
    var tail := "." + ext;
    assert prefix + "." + ext == prefix + tail;
    assert tail[0] == '.';
    PyStr.LastPieceOfAppend(prefix, tail, '.');
    PyStr.SplitAppend(".", ext, '.');
    PyStr.SplitOfSeparator('.');
    PyStr.SplitWithoutSeparator(ext, '.');
  }

  /** When `save` accepts a name, the stored name keeps the stem as prefix
      and the extension as suffix and is exactly 20 characters longer (`-`
      and the stamp); the returned path ends in it. */
  lemma SavePathLayout(dir: string, name: string, now: Timestamp.Clock)
    requires Timestamp.Valid(now)
    requires StemAndExtension(name).Some?
    ensures var (stem, ext) := StemAndExtension(name).value;
      var n := StorageName(stem, ext, now);
      && SavePath(dir, name, now) == Some(PosixPath.Join(dir, n))
      && |n| == |name| + 20
      && n[..|stem|] == stem
      && n[|n| - |ext| - 1..] == "." + ext
  {
    var (stem, ext) := StemAndExtension(name).value;
    StorageNameLayout(stem, ext, now);
    var n := StorageName(stem, ext, now);
    assert n[|n| - |ext| - 1..] == n[|stem| + 20..];
  }

  /** Joining a file name that holds a `.` to any directory leaves its
      extension as it was. */
  lemma ExtensionOfJoin(dir: string, n: string)
    requires '.' in n
    ensures Extension(PosixPath.Join(dir, n)) == Extension(n)
  {
    var p := PosixPath.Join(dir, n);
    var head := p[..|p| - |n|];
    assert p == head + n;
    PyStr.LastPieceOfAppend(head, n, '.');
  }

  /** Round trip: every one-dot name is given a path, and the extension
      `load` reads off that path is the extension of the uploaded name,
      wherever the directory is and whatever it contains. */
  lemma SavedExtensionRoundTrip(dir: string, name: string, now: Timestamp.Clock)
    requires Timestamp.Valid(now)
    requires PyStr.Count(name, '.') == 1
    ensures SavePath(dir, name, now).Some?
    ensures Extension(SavePath(dir, name, now).value) == Extension(name)
    ensures LoaderFor(Extension(SavePath(dir, name, now).value)) == LoaderFor(Extension(name))
  {
    var (stem, ext) := StemAndExtension(name).value;
    var n := StorageName(stem, ext, now);
    assert SavePath(dir, name, now) == Some(PosixPath.Join(dir, n));
    StorageNameLayout(stem, ext, now);
    assert n[|stem| + 20] == '.';
    ExtensionOfJoin(dir, n);
    ExtensionAfterDot(stem, ext);
  }

  /** An upload the HTTP handler admits and `save` accepts is always sent
      to a real loader, never to the sentinel. */
  lemma AcceptedUploadReachesLoader(dir: string, name: string, now: Timestamp.Clock)
    requires Timestamp.Valid(now)
    requires Extension(name) in AcceptedExtensions
    requires PyStr.Count(name, '.') == 1
    ensures SavePath(dir, name, now).Some?
    ensures LoaderFor(Extension(SavePath(dir, name, now).value)).Some?
  {
    SavedExtensionRoundTrip(dir, name, now);
  }

  /** A name with several dots (`report.v2.pdf`) keeps the extension the
      HTTP handler checks, but `save`'s two-way split rejects it. */
  lemma SeveralDotsRejected(dir: string, prefix: string, ext: string, now: Timestamp.Clock)
    requires Timestamp.Valid(now)
    requires '.' in prefix && '.' !in ext
    ensures Extension(prefix + "." + ext) == ext
    ensures SavePath(dir, prefix + "." + ext, now).None?
  {
    var name := prefix + "." + ext;
    ExtensionAfterDot(prefix, ext);
    PyStr.CountAppend(prefix, "." + ext, '.');
    assert name == prefix + ("." + ext);
    PyStr.CountPositiveIffPresent(prefix, '.');
    assert ("." + ext)[0] == '.';
    PyStr.CountPositiveIffPresent("." + ext, '.');
  }

  /** A name with no dot is all extension, and `save` rejects it. */
  lemma NoDotRejected(dir: string, name: string, now: Timestamp.Clock)
    requires Timestamp.Valid(now)
    requires '.' !in name
    ensures Extension(name) == name
    ensures SavePath(dir, name, now).None?
  {
  }

  /** Storage names built at different seconds, or from different uploads,
      never coincide: the stem, extension and reading are all recoverable. */
  lemma StorageNameInjective(stem1: string, ext1: string, now1: Timestamp.Clock,
                             stem2: string, ext2: string, now2: Timestamp.Clock)
    requires Timestamp.Valid(now1) && Timestamp.Valid(now2)
    requires '.' !in ext1 && '.' !in ext2
    requires StorageName(stem1, ext1, now1) == StorageName(stem2, ext2, now2)
    ensures stem1 == stem2 && ext1 == ext2 && now1 == now2
  {
    StorageNameLayout(stem1, ext1, now1);
    StorageNameLayout(stem2, ext2, now2);
  }

  /** Saved paths under one directory tell uploads apart, as long as the
      names are relative: equal paths come from the same name and second. */
  lemma SavePathInjective(dir: string, name1: string, name2: string,
                          now1: Timestamp.Clock, now2: Timestamp.Clock)
    requires Timestamp.Valid(now1) && Timestamp.Valid(now2)
    requires !PosixPath.IsAbsolute(name1) && !PosixPath.IsAbsolute(name2)
    requires SavePath(dir, name1, now1).Some?
    requires SavePath(dir, name1, now1) == SavePath(dir, name2, now2)
    ensures name1 == name2 && now1 == now2
  {
    var (stem1, ext1) := StemAndExtension(name1).value;
    var (stem2, ext2) := StemAndExtension(name2).value;
    var n1, n2 := StorageName(stem1, ext1, now1), StorageName(stem2, ext2, now2);
    StorageNameLayout(stem1, ext1, now1);
    StorageNameLayout(stem2, ext2, now2);
    assert !PosixPath.IsAbsolute(n1) by {
      if stem1 != [] { assert n1[0] == stem1[0] == name1[0]; }
    }
    assert !PosixPath.IsAbsolute(n2) by {
      if stem2 != [] { assert n2[0] == stem2[0] == name2[0]; }
    }
    PosixPath.JoinRelativeInjective(dir, n1, n2);
    StorageNameInjective(stem1, ext1, now1, stem2, ext2, now2);
  }

  /** An absolute name ignores the documents directory: its file is stored at
      the absolute storage name itself, so `/d/x.txt` and `x.txt` saved under
      `/d` in the same second land on the same path. */
  lemma AbsoluteNameIgnoresDirectory(dir: string, name: string, now: Timestamp.Clock)
    requires Timestamp.Valid(now)
    requires PosixPath.IsAbsolute(name) && PyStr.Count(name, '.') == 1
    ensures var (stem, ext) := StemAndExtension(name).value;
      SavePath(dir, name, now) == Some(StorageName(stem, ext, now))
  {
    var (stem, ext) := StemAndExtension(name).value;
    assert stem != [] && stem[0] == name[0];
    assert StorageName(stem, ext, now)[0] == stem[0];
  }

  /** The handler, with the files it has written under its documents
      directory. */
  class DocumentHandler {
    const documentPath: string
    var files: map<string, seq<byte>>

    constructor (documentPath: string, files: map<string, seq<byte>>)
      ensures this.documentPath == documentPath && this.files == files
    {
      this.documentPath := documentPath;
      this.files := files;
    }

    /** `save`: `ioOk` is whether the file system lets the directory be
        created and the file be written. On success exactly one entry is
        written (replacing any file already at that path) and nothing else
        changes; on any failure nothing changes and the result is `None`. */
    method Save(upload: Upload, now: Timestamp.Clock, ioOk: bool) returns (path: Option<string>)
      requires Timestamp.Valid(now)
      modifies this`files
      ensures path == (if ioOk then SavePath(documentPath, upload.name, now) else None)
      ensures path.Some? ==> files == old(files)[path.value := upload.content]
      ensures path.None? ==> files == old(files)
    {
      var parts := PyStr.Split(upload.name, '.');
      if |parts| != 2 {
        // the two-way unpack raises; the handler logs it and returns None
        return None;
      }
      var filename := parts[0] + "-" + Timestamp.Format(now) + "." + parts[1];
      var filePath := PosixPath.Join(documentPath, filename);
      if !ioOk {
        return None;
      }
      files := files[filePath := upload.content];
      path := Some(filePath);
    }

    /** `load`: a path whose extension has no loader gets the sentinel
        string and is not read; otherwise the chosen loader reads the stored
        bytes, and a path with no file behind it gives `None`. */
    method Load(path: string) returns (r: LoadResult)
      ensures r.NotSupported? <==> LoaderFor(Extension(path)).None?
      ensures r.NotSupported? ==> r.message == NotSupportedMessage
      ensures r.Loaded? <==> LoaderFor(Extension(path)).Some? && path in files
      ensures r.Loaded? ==> r.loader == LoaderFor(Extension(path)).value
      ensures r.Loaded? ==> r.source == path && r.data == files[path]
    {
      var ext := Extension(path);
      var loader := LoaderFor(ext);
      if loader.None? {
        r := NotSupported(NotSupportedMessage);
      } else if path !in files {
        r := LoadFailed;
      } else {
        r := Loaded(loader.value, path, files[path]);
      }
    }
  }

  /** The upload path of the HTTP handler: the extension check, `save`, then
      `load` on what `save` returned (`None` when it failed, which `load`
      turns into `None` too). `None` here is the 406-style rejection. */
  method UploadAndLoad(h: DocumentHandler, upload: Upload, now: Timestamp.Clock, ioOk: bool)
    returns (r: Option<LoadResult>)
    requires Timestamp.Valid(now)
    modifies h`files
    ensures Extension(upload.name) !in AcceptedExtensions ==> r.None? && h.files == old(h.files)
    ensures Extension(upload.name) in AcceptedExtensions && (PyStr.Count(upload.name, '.') != 1 || !ioOk)
      ==> r == Some(LoadFailed) && h.files == old(h.files)
    ensures Extension(upload.name) in AcceptedExtensions && PyStr.Count(upload.name, '.') == 1 && ioOk
      ==> var p := SavePath(h.documentPath, upload.name, now).value;
          && h.files == old(h.files)[p := upload.content]
          && r == Some(Loaded(LoaderFor(Extension(upload.name)).value, p, upload.content))
  {
    if Extension(upload.name) !in AcceptedExtensions {
      return None;
    }
    var path := h.Save(upload, now, ioOk);
    if path.None? {
      return Some(LoadFailed);
    }
    SavedExtensionRoundTrip(h.documentPath, upload.name, now);
    var loaded := h.Load(path.value);
    r := Some(loaded);
  }
}
