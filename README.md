# DocuBot document ingestor, modelled in Dafny

DocuBot is a document question-answering chatbot. A user uploads a text, Word,
PDF or CSV file. The system stores the file, parses it, chunks and embeds the
text into a vector index, and answers questions with a local language model.
Almost all of that is calls into third-party libraries. The one piece of its
own logic is `DocumentHandler` in `backend/src/document_loader.py`, and this
project models it:

- `save` splits the uploaded name on `.` into exactly a stem and an extension.
  It builds `stem-DD-MM-YYYY-HH-MM-SS.ext` from the current time, joins that to
  the documents directory, and writes the bytes there. Any failure is logged
  and the method returns `None`.
- `load` takes the text after the last `.` of a path as the extension. It
  hands `txt`, `doc`, `pdf` and `csv` to their parsers. Any other extension
  gets the string `"File type not supported!"`.

How the model represents the source:

- `wrappers.dfy` holds `Option`.
- `py_str.dfy` (module `PyStr`) models Python's `str.split` for a
  one-character separator, and its `[-1]` element.
- `posix_path.dfy` (module `PosixPath`) models the two-argument
  `os.path.join` on POSIX.
- `timestamp.dfy` (module `Timestamp`) models the clock reading as a
  six-field datatype. `strftime("%d-%m-%Y-%H-%M-%S")` is a pure function of
  it, and a parser for the stamp is given so that the round trip can be
  proved.
- `document_loader.dfy` (module `DocumentLoader`) holds the rest:
  - the loader tags and the dispatch function;
  - the name construction;
  - class `DocumentHandler`, whose `files: map<string, seq<byte>>` is the
    documents directory. `Save` updates it in place; `Load` only reads it.

The inputs that come from the environment are parameters:

- the clock reading;
- whether the file system lets the directory be created and the file be
  written (`ioOk`);
- the initial contents of the documents directory.

Two behaviours of the code are worth knowing:

- `save` returns `None` not only on an I/O error but also for a name without
  exactly one `.`, because the two-way unpack raises.
- Names such as `report.v2.pdf` pass the HTTP handler's extension check at
  backend/main.py:52 and are then rejected by `save` (`SeveralDotsRejected`).

## Model

| member | source | states |
|---|---|---|
| `PyStr.Split` | backend/src/document_loader.py:108 | `s.split(sep)` has exactly one piece more than `s` has separators, and no piece contains the separator |
| `PyStr.JoinSplit` | backend/src/document_loader.py:108 | joining the pieces of `s.split(sep)` with `sep` gives `s` back |
| `PyStr.SplitJoin` | backend/src/document_loader.py:108 | splitting the `sep`-join of a non-empty list of separator-free pieces (which may themselves be empty) gives that list back, so `Split` is the only such decomposition |
| `PyStr.CountAppend` | backend/src/document_loader.py:108 | the number of dots in a concatenation is the sum of the two counts |
| `PyStr.SplitAppend` | backend/src/document_loader.py:136 | the pieces of `a + b` are those of `a` and of `b`, with the last piece of `a` fused to the first piece of `b` |
| `PyStr.LastPiece` | backend/src/document_loader.py:136 | `s.split(sep)[-1]` holds no separator; `LastPieceIsSeparatorFreeSuffix` proves it is the longest such suffix of `s` |
| `PyStr.LastPieceIsSeparatorFreeSuffix` | backend/src/document_loader.py:136 | `s.split(sep)[-1]` is a separator-free suffix of `s`; it is all of `s` exactly when `s` has no separator, and otherwise a separator precedes it |
| `PyStr.LastPieceOfAppend` | backend/src/document_loader.py:136 | when `b` contains a separator, anything put in front of `b` does not change the last piece |
| `PosixPath.Join` | backend/src/document_loader.py:111 | the joined path always ends with the file name; an absolute file name is returned alone; otherwise the directory is the prefix, and one `/` is added between them exactly when the directory is non-empty and does not already end in `/` |
| `PosixPath.JoinRelativeInjective` | backend/src/document_loader.py:111 | under one directory, two relative file names that join to the same path are the same name |
| `Timestamp.ZeroPad` | backend/src/document_loader.py:110 | a field is printed as exactly `width` decimal digits |
| `Timestamp.Format` | backend/src/document_loader.py:110 | the stamp is 19 characters: digits laid out DD-MM-YYYY-HH-MM-SS, with `-` at offsets 2, 5, 10, 13 and 16 |
| `Timestamp.ParseFormat` | backend/src/document_loader.py:110 | every valid clock reading is read back from its stamp |
| `Timestamp.FormatParse` | backend/src/document_loader.py:110 | every stamp that parses is exactly the stamp of the reading it parses to |
| `Timestamp.FormatInjective` | backend/src/document_loader.py:110 | two readings give the same stamp if and only if they are equal, so the name resolves to the second |
| `DocumentLoader.Extension` | backend/src/document_loader.py:136 | the extension `load` uses is the longest dot-free suffix of the path; it is the whole path exactly when the path has no `.` |
| `DocumentLoader.LoaderFor` | backend/src/document_loader.py:137-146 | a loader is chosen if and only if the extension is one of `txt`, `doc`, `pdf`, `csv`, matched exactly and case-sensitively (so `PDF`, `docx` and `png` get none) |
| `DocumentLoader.LoaderForOneToOne` | backend/src/document_loader.py:137-144 | different extensions never select the same loader |
| `DocumentLoader.StemAndExtension` | backend/src/document_loader.py:108 | the two-way unpack succeeds if and only if the name holds exactly one `.`; the name is then `stem + "." + ext`, with both halves dot-free |
| `DocumentLoader.StorageName` | backend/src/document_loader.py:110 | the stored name is 21 characters longer than stem and extension together, starting with the stem and ending with the extension; `StorageNameLayout` proves the full layout and `StorageNameInjective` that it is one-to-one |
| `DocumentLoader.SavePath` | backend/src/document_loader.py:108-111 | `save` produces a path exactly when the name holds one `.`, and that path is at least 20 characters longer than the name; `SavePathLayout` and `SavedExtensionRoundTrip` prove its layout and that it keeps the extension |
| `DocumentLoader.StorageNameLayout` | backend/src/document_loader.py:110 | the stored name is the stem, `-`, the 19-character stamp (which parses back to the clock reading), `.`, and the extension; its extension reads back as `ext` |
| `DocumentLoader.SavePathLayout` | backend/src/document_loader.py:108-111 | for an accepted name, the stored name is exactly 20 characters longer than the uploaded name, starts with the stem and ends with `.` plus the extension; the returned path is the directory joined to it |
| `DocumentLoader.ExtensionOfJoin` | backend/src/document_loader.py:111 | joining a file name that holds a `.` to any documents directory, even one with dots in it, leaves the extension `load` reads unchanged |
| `DocumentLoader.SavedExtensionRoundTrip` | backend/src/document_loader.py:108-144 | every one-dot name gets a path, and `load` reads back from that path the same extension the uploaded name had, for any directory, so it selects the same loader |
| `DocumentLoader.AcceptedUploadReachesLoader` | backend/main.py:52-56 | a one-dot name whose extension the HTTP handler admits is saved, and its path is sent to a real loader, never to the sentinel |
| `DocumentLoader.SeveralDotsRejected` | backend/src/document_loader.py:108 | a name with more than one `.` keeps the extension `load` and the HTTP handler read, yet `save` rejects it |
| `DocumentLoader.NoDotRejected` | backend/src/document_loader.py:108 | a name without a `.` is all extension to `load`, and `save` rejects it |
| `DocumentLoader.StorageNameInjective` | backend/src/document_loader.py:110 | equal storage names (before joining to the directory) come from the same stem, extension and clock second |
| `DocumentLoader.SavePathInjective` | backend/src/document_loader.py:108-111 | under one directory, two relative names saved to the same path are the same name saved in the same second |
| `DocumentLoader.AbsoluteNameIgnoresDirectory` | backend/src/document_loader.py:108-111 | an absolute one-dot name is stored at its absolute storage name whatever the documents directory, because `os.path.join` drops the directory |
| `DocumentLoader.DocumentHandler.constructor` | backend/src/document_loader.py:12-21 | the handler starts with the given documents directory and its current files |
| `DocumentLoader.DocumentHandler.Save` | backend/src/document_loader.py:93-122 | returns the timestamped path exactly when the name has one `.` and the I/O succeeds. On success it maps that path to exactly the uploaded bytes and leaves every other file unchanged; a save of the same name in the same second replaces the earlier file, since the file is opened with `"wb"`. On failure it returns `None` and changes nothing |
| `DocumentLoader.DocumentHandler.Load` | backend/src/document_loader.py:125-152 | returns the sentinel `"File type not supported!"` exactly when the extension has no loader, without reading the file. Otherwise the chosen loader gets the path and its stored bytes, and a path with no file gives `None` |
| `DocumentLoader.UploadAndLoad` | backend/main.py:50-56 | an upload whose extension the handler does not admit is rejected and nothing is written; an admitted one-dot name is stored and loaded back by the loader of its extension with exactly its bytes; otherwise `load` gets `None` and gives `None` |

## Left out

- The four parsers (`TextLoader`, `Docx2txtLoader`, `PyMuPDFLoader`, `CSVLoader`) are third-party code. Each is a tag recording which one was chosen, together with the bytes it would read; the CSV tag keeps its delimiter `,` and quote character `"`.
- DocumentLoader.DocumentHandler.Load: the only parser failure modelled is a path with no stored file. A parser that raises on malformed content, which the source also turns into `None`, is not captured.
- DocumentLoader.DocumentHandler.Save: one flag `ioOk` stands for every file-system failure (`os.makedirs`, `open`, `write`). Two cases fold into it: a write that fails after `open(..., "wb")` has already truncated the file, and a name containing `/` whose sub-directory does not exist. In both, the model writes nothing.
- The documents directory is a flat map from path to bytes, with no directories, permissions or path normalisation. `os.makedirs` is not modelled beyond `ioOk`.
- Timestamp.ZeroPad: `%Y` is padded to four digits for every year. For years below 1000, some Python and C-library versions print fewer digits. `datetime.now()` never gives such years in practice.
- DocumentLoader.SavePathInjective: it covers relative names only. An absolute name such as `/d/x.txt` is stored outside the documents directory (`AbsoluteNameIgnoresDirectory`). Under the directory `/d` it lands on the same path as `x.txt` saved in the same second, so the model does not promise distinct paths for such names.
- Only the POSIX `os.path.join` is modelled. Windows path joining is not.
- Logging (`Logger`), the real clock (`datetime.now()`) and the actual file I/O are not modelled. The clock reading and the I/O outcome are parameters.
- Uploads are plain `(name, bytes)` pairs. The callers do not match that interface: `save` reads `file.name` and `file.getvalue()`, the HTTP handler passes an object with `filename`, and `streamlit_app.py` imports `save_document` and `load_document`, which the module does not define. The attribute errors these would raise are not modelled.
- `base_path` and `model_path` are set by the constructor and never used by `save` or `load`; `base_path` is a one-element tuple because of a trailing comma. Neither is modelled.
- `backend/src/helper.py` is not part of this model. It holds text splitting, embeddings, model download and loading, and the QA chain, all of which delegate to LangChain, HuggingFace and CTransformers.
- `backend/database.py` is not part of this model. It is a Pinecone network client whose readiness poll has no bound.
- The rest of the HTTP handler and the Streamlit UI are not part of this model, beyond the extension check and the save-then-load step in `UploadAndLoad`. This includes the reference to `status.HTTP_406`, which the import does not provide.
- The logger, the configuration and the prompt template are not part of this model; they hold no logic.
