/**
 * The web front end's own logic (app.py): the extension allow-list, the
 * upload loop, the per-item processing loop and the selection of files for
 * the zip download. Routing, JSON and the zip format are not modelled.
 */
module App {
  import opened Wrappers
  import opened PyPath
  import opened Files
  import opened RemoverFundo

  /** Extensions an upload may have, compared in lower case. */
  const AllowedExtensions: set<string> := {"png", "jpg", "jpeg", "gif", "bmp"}

  /** Folder where uploads are saved. */
  const UploadFolder := "uploads"

  /** Error text when a request carries no 'files' part. */
  const NoFilesSent := "Nenhum arquivo enviado"

  /** Lower-casing of one character (ASCII letters only). */
  function LowerChar(c: char): char {
    if 'A' <= c <= 'Z' then (c as int + 32) as char else c
  }

  /** `str.lower` on ASCII text. */
  function Lower(s: string): (r: string)
    ensures |r| == |s|
    ensures forall i :: 0 <= i < |s| ==> r[i] == LowerChar(s[i])
  {
    seq(|s|, i requires 0 <= i < |s| => LowerChar(s[i]))
  }

  /**
   * allowed_file: the name has a '.', and the text after the last one,
   * lower-cased, is an allowed extension. Equivalently, some '.' with no '.'
   * after it is followed by an allowed extension.
   */
  predicate AllowedFile(filename: string): (ok: bool)
    ensures ok <==>
            exists i :: 0 <= i < |filename| && filename[i] == '.'
                        && (forall k :: i < k < |filename| ==> filename[k] != '.')
                        && Lower(filename[i + 1..]) in AllowedExtensions
  {
    var dot := RFind(filename, '.');
    assert dot >= 0 ==> filename[dot] == '.';
    dot >= 0 && Lower(filename[dot + 1..]) in AllowedExtensions
  }

  /** The check ignores case: a name and its lower-cased form are judged alike. */
  lemma AllowedFileIgnoresCase(filename: string)
    ensures AllowedFile(Lower(filename)) == AllowedFile(filename)
  {
    var lower := Lower(filename);
    LowerKeepsLastDot(filename);
    var dot := RFind(filename, '.');
    assert AllowedFile(filename) == (dot >= 0 && Lower(filename[dot + 1..]) in AllowedExtensions);
    assert AllowedFile(lower) == (dot >= 0 && Lower(lower[dot + 1..]) in AllowedExtensions);
    if dot >= 0 {
      LowerAgain(filename, dot + 1);
    }
  }

  /** Lower-casing moves no dot. */
  lemma LowerKeepsLastDot(s: string)
    ensures RFind(Lower(s), '.') == RFind(s, '.')
  {
    var lower := Lower(s);
    forall k | 0 <= k < |s| ensures lower[k] == '.' <==> s[k] == '.' {
      assert lower[k] == LowerChar(s[k]);
    }
    var dot := RFind(s, '.');
    if dot >= 0 {
      RFindUnique(lower, '.', dot);
    }
  }

  /** Lower-casing a suffix of lower-cased text changes nothing more. */
  lemma LowerAgain(s: string, i: nat)
    requires i <= |s|
    ensures Lower(Lower(s)[i..]) == Lower(s[i..])
  {
    var a := Lower(Lower(s)[i..]);
    var b := Lower(s[i..]);
    assert |a| == |b|;
    forall k | 0 <= k < |a| ensures a[k] == b[k] {
      assert Lower(s)[i..][k] == LowerChar(s[i + k]);
    }
  }

  /** A few names as the allow-list judges them. */
  lemma AllowedFileExamples()
    ensures AllowedFile("Foto.PNG")
    ensures AllowedFile("arquivo.tar.jpeg")
    ensures !AllowedFile("png")
    ensures !AllowedFile("imagem.tiff")
    ensures !AllowedFile("")
  {
    RFindUnique("Foto.PNG", '.', 4);
    assert "Foto.PNG"[5..] == "PNG";
    assert Lower("PNG") == "png";
    RFindUnique("arquivo.tar.jpeg", '.', 11);
    assert "arquivo.tar.jpeg"[12..] == "jpeg";
    assert Lower("jpeg") == "jpeg";
    assert RFind("png", '.') == -1;
    RFindUnique("imagem.tiff", '.', 6);
    assert "imagem.tiff"[7..] == "tiff";
    assert Lower("tiff") == "tiff";
  }

  // ----- upload_files -----

  /** One part of the multipart upload. */
  datatype FileUpload = FileUpload(filename: string, content: Bytes)

  /** One entry of the upload response: the sanitised name and where it was saved. */
  datatype StoredUpload = StoredUpload(filename: string, path: string)

  /** The loop's filter: a non-empty name that passes allowed_file. */
  predicate Accepted(u: FileUpload) {
    u.filename != "" && AllowedFile(u.filename)
  }

  /** The record kept for an accepted upload; `sanitize` is werkzeug's secure_filename. */
  function StoredAs(u: FileUpload, sanitize: string -> string): StoredUpload {
    var name := sanitize(u.filename);
    StoredUpload(name, Join(UploadFolder, name))
  }

  /** The response list: one record per accepted upload, in order. */
  function Uploaded(entries: seq<FileUpload>, sanitize: string -> string): (r: seq<StoredUpload>)
    ensures |r| <= |entries|
  {
    if entries == [] then []
    else
      var last := entries[|entries| - 1];
      Uploaded(entries[..|entries| - 1], sanitize) + (if Accepted(last) then [StoredAs(last, sanitize)] else [])
  }

  /** The files after saving every accepted upload in turn. */
  function SavedUploads(files: map<string, Bytes>, entries: seq<FileUpload>, sanitize: string -> string)
    : map<string, Bytes>
  {
    if entries == [] then files
    else
      var last := entries[|entries| - 1];
      var before := SavedUploads(files, entries[..|entries| - 1], sanitize);
      if Accepted(last) then before[StoredAs(last, sanitize).path := last.content] else before
  }

  /** Checking for an empty name first changes nothing: allowed_file already rejects it. */
  lemma AcceptedIsAllowed(u: FileUpload)
    ensures Accepted(u) <==> AllowedFile(u.filename)
  {
    if u.filename == "" {
      assert RFind(u.filename, '.') == -1;
    }
  }

  /** The response keeps the order of the request: it distributes over concatenation. */
  lemma {:induction false} UploadedAppend(a: seq<FileUpload>, b: seq<FileUpload>, sanitize: string -> string)
    ensures Uploaded(a + b, sanitize) == Uploaded(a, sanitize) + Uploaded(b, sanitize)
  {
    if b != [] {
      var init := b[..|b| - 1];
      assert (a + b)[..|a + b| - 1] == a + init;
      UploadedAppend(a, init, sanitize);
    } else {
      assert a + b == a;
    }
  }

  /** A record is in the response exactly when some accepted upload produced it. */
  lemma {:induction false} UploadedMembers(entries: seq<FileUpload>, sanitize: string -> string, s: StoredUpload)
    ensures s in Uploaded(entries, sanitize) <==>
            exists i :: 0 <= i < |entries| && Accepted(entries[i]) && s == StoredAs(entries[i], sanitize)
  {
    if s in Uploaded(entries, sanitize) {
      UploadedSound(entries, sanitize, s);
    }
    if exists i :: 0 <= i < |entries| && Accepted(entries[i]) && s == StoredAs(entries[i], sanitize) {
      var i :| 0 <= i < |entries| && Accepted(entries[i]) && s == StoredAs(entries[i], sanitize);
      UploadedComplete(entries, sanitize, i);
    }
  }

  /** Every record in the response comes from some accepted upload. */
  lemma {:induction false} UploadedSound(entries: seq<FileUpload>, sanitize: string -> string, s: StoredUpload)
    requires s in Uploaded(entries, sanitize)
    ensures exists i :: 0 <= i < |entries| && Accepted(entries[i]) && s == StoredAs(entries[i], sanitize)
  {
    var init := entries[..|entries| - 1];
    var last := entries[|entries| - 1];
    var tail := if Accepted(last) then [StoredAs(last, sanitize)] else [];
    assert Uploaded(entries, sanitize) == Uploaded(init, sanitize) + tail;
    if s in Uploaded(init, sanitize) {
      UploadedSound(init, sanitize, s);
      var i :| 0 <= i < |init| && Accepted(init[i]) && s == StoredAs(init[i], sanitize);
      assert entries[i] == init[i];
    } else {
      assert s in tail;
      assert Accepted(entries[|entries| - 1]) && s == StoredAs(entries[|entries| - 1], sanitize);
    }
  }

  /** Every accepted upload has its record in the response. */
  lemma {:induction false} UploadedComplete(entries: seq<FileUpload>, sanitize: string -> string, i: int)
    requires 0 <= i < |entries| && Accepted(entries[i])
    ensures StoredAs(entries[i], sanitize) in Uploaded(entries, sanitize)
  {
    var init := entries[..|entries| - 1];
    var last := entries[|entries| - 1];
    var tail := if Accepted(last) then [StoredAs(last, sanitize)] else [];
    assert Uploaded(entries, sanitize) == Uploaded(init, sanitize) + tail;
    if i < |init| {
      assert entries[i] == init[i];
      UploadedComplete(init, sanitize, i);
      assert StoredAs(entries[i], sanitize) in Uploaded(init, sanitize);
    } else {
      assert tail == [StoredAs(entries[i], sanitize)];
    }
  }

  /**
   * Saving writes exactly the paths of the response: each of them exists
   * afterwards, and every other file keeps its contents.
   */
  lemma {:induction false} SavedUploadsFrame(files: map<string, Bytes>, entries: seq<FileUpload>, sanitize: string -> string)
    ensures var after := SavedUploads(files, entries, sanitize);
            var uploaded := Uploaded(entries, sanitize);
            && (forall s :: s in uploaded ==> s.path in after)
            && (forall path :: path in files ==> path in after)
            && (forall path :: path in after && path !in files ==> exists s :: s in uploaded && s.path == path)
            && (forall path :: path in files && (forall s :: s in uploaded ==> s.path != path) ==>
                  after[path] == files[path])
  {
    if entries != [] {
      var init := entries[..|entries| - 1];
      SavedUploadsFrame(files, init, sanitize);
    }
  }

  /**
   * A saved path holds the bytes of the last accepted upload saved there:
   * file.save overwrites, so a later upload with the same sanitised name wins.
   */
  lemma {:induction false} SavedUploadsContent(files: map<string, Bytes>, entries: seq<FileUpload>, sanitize: string -> string, i: int)
    requires 0 <= i < |entries| && Accepted(entries[i])
    requires forall j :: i < j < |entries| && Accepted(entries[j]) ==>
               StoredAs(entries[j], sanitize).path != StoredAs(entries[i], sanitize).path
    ensures var after := SavedUploads(files, entries, sanitize);
            var path := StoredAs(entries[i], sanitize).path;
            path in after && after[path] == entries[i].content
  {
    var init := entries[..|entries| - 1];
    if i < |entries| - 1 {
      assert init[i] == entries[i];
      forall j | i < j < |init| && Accepted(init[j])
        ensures StoredAs(init[j], sanitize).path != StoredAs(init[i], sanitize).path
      {
        assert init[j] == entries[j];
      }
      SavedUploadsContent(files, init, sanitize, i);
    }
  }

  /**
   * upload_files: without a 'files' part the request fails; otherwise every
   * accepted upload is saved under its sanitised name and listed, in order.
   */
  method UploadFiles(fs: FileSystem, request: Option<seq<FileUpload>>, sanitize: string -> string)
    returns (r: Result<seq<StoredUpload>, string>)
    modifies fs
    ensures request.None? ==> r == Err(NoFilesSent) && fs.files == old(fs.files)
    ensures request.Some? ==>
              && r == Ok(Uploaded(request.value, sanitize))
              && fs.files == SavedUploads(old(fs.files), request.value, sanitize)
  {
    if request.None? {
      return Err(NoFilesSent);
    }
    var files := request.value;
    var uploaded := [];
    for i := 0 to |files|
      invariant uploaded == Uploaded(files[..i], sanitize)
      invariant fs.files == SavedUploads(old(fs.files), files[..i], sanitize)
    {
      assert files[..i + 1][..i] == files[..i];
      var file := files[i];
      if file.filename != "" && AllowedFile(file.filename) {
        var filename := sanitize(file.filename);
        var filepath := Join(UploadFolder, filename);
        fs.Write(filepath, file.content);
        uploaded := uploaded + [StoredUpload(filename, filepath)];
      }
    }
    assert files[..|files|] == files;
    r := Ok(uploaded);
  }

  // ----- processar -----

  /** One item of the processing request, as JSON gives it: either field may be missing. */
  datatype FileInfo = FileInfo(filename: Option<string>, path: Option<string>)

  /** The processing request: the item list and the tolerance, both optional. */
  datatype ProcessRequest = ProcessRequest(files: Option<seq<FileInfo>>, tolerance: Option<int>)

  /** Why an item failed. */
  datatype ItemError =
    | PathNotText       // no path: the existence check raises a TypeError, caught by the loop
    | FileMissing       // reported as "Arquivo não encontrado"
    | Raised(e: Error)  // processar_imagem raised; its message is reported

  /** One entry of the response, in the order of the request. */
  datatype ItemResult =
    | Done(filename: Option<string>, processed: string, urlOriginal: string, urlProcessed: string)
    | Failed(filename: Option<string>, error: ItemError)

  /** How an f-string renders an optional text: None prints as "None". */
  function Show(s: Option<string>): string {
    match s
    case Some(t) => t
    case None => "None"
  }

  /** The loop body for one item: its result and the files afterwards. */
  function ProcessItem(files: map<string, Bytes>, info: FileInfo, tolerance: int, codec: Codec)
    : (outcome: (ItemResult, map<string, Bytes>))
    ensures outcome.0.filename == info.filename
    ensures info.path.None? ==> outcome == (Failed(info.filename, PathNotText), files)
    ensures info.path.Some? && info.path.value !in files ==> outcome == (Failed(info.filename, FileMissing), files)
    ensures info.path.Some? && info.path.value in files ==>
              outcome.1 == Process(files, info.path.value, tolerance, true, codec).1
    ensures info.path.Some? && info.path.value in files ==>
              var r := Process(files, info.path.value, tolerance, true, codec).0;
              && (r.Ok? <==> outcome.0.Done?)
              && (r.Err? ==> outcome.0 == Failed(info.filename, Raised(r.error)))
    ensures outcome.0.Done? ==>
              && info.path.Some?
              && Process(files, info.path.value, tolerance, true, codec).0 == Ok(DefaultOutputPath(info.path.value))
              && outcome.0.processed == SplitExtRoot(Basename(info.path.value)) + ".png"
              && outcome.0.urlOriginal == "/uploads/" + Show(info.filename)
              && outcome.0.urlProcessed == "/sem_fundo/" + outcome.0.processed
  {
    match info.path
    case None => (Failed(info.filename, PathNotText), files)
    case Some(path) =>
      if path !in files then (Failed(info.filename, FileMissing), files)
      else
        var (r, after) := Process(files, path, tolerance, true, codec);
        match r
        case Err(e) => (Failed(info.filename, Raised(e)), after)
        case Ok(out) =>
          ProcessOutput(files, path, tolerance, true, codec);
          DefaultOutputPathShape(path);
          BasenameAfterSlash(ProcessedDir, SplitExtRoot(Basename(path)) + ".png");
          var name := Basename(out);
          (Done(info.filename, name, "/uploads/" + Show(info.filename), "/sem_fundo/" + name), after)
  }

  /** The whole loop: each item is processed against the files its predecessors left. */
  function ProcessAll(files: map<string, Bytes>, infos: seq<FileInfo>, tolerance: int, codec: Codec)
    : (seq<ItemResult>, map<string, Bytes>)
  {
    if infos == [] then ([], files)
    else
      var (results, before) := ProcessAll(files, infos[..|infos| - 1], tolerance, codec);
      var (r, after) := ProcessItem(before, infos[|infos| - 1], tolerance, codec);
      (results + [r], after)
  }

  /**
   * One result per item, in request order, each computed from the files left
   * by the items before it: a failing item does not stop the ones after it.
   */
  lemma {:induction false} ProcessAllAt(files: map<string, Bytes>, infos: seq<FileInfo>, tolerance: int, codec: Codec, k: int)
    requires 0 <= k < |infos|
    ensures var results := ProcessAll(files, infos, tolerance, codec).0;
            var before := ProcessAll(files, infos[..k], tolerance, codec).1;
            && |results| == |infos|
            && results[k] == ProcessItem(before, infos[k], tolerance, codec).0
  {
    var init := infos[..|infos| - 1];
    if k < |infos| - 1 {
      ProcessAllAt(files, init, tolerance, codec, k);
      assert init[..k] == infos[..k];
    } else {
      assert init == infos[..k];
    }
    ProcessAllLength(files, init, tolerance, codec);
  }

  /** The response has exactly one entry per item. */
  lemma {:induction false} ProcessAllLength(files: map<string, Bytes>, infos: seq<FileInfo>, tolerance: int, codec: Codec)
    ensures |ProcessAll(files, infos, tolerance, codec).0| == |infos|
  {
    if infos != [] {
      ProcessAllLength(files, infos[..|infos| - 1], tolerance, codec);
    }
  }

  /**
   * Each entry carries its item's filename; an item whose path is missing when
   * its turn comes is reported as not found and leaves the files as they were.
   */
  lemma ProcessAllReports(files: map<string, Bytes>, infos: seq<FileInfo>, tolerance: int, codec: Codec, k: int)
    requires 0 <= k < |infos|
    ensures var results := ProcessAll(files, infos, tolerance, codec).0;
            var before := ProcessAll(files, infos[..k], tolerance, codec).1;
            && |results| == |infos|
            && results[k].filename == infos[k].filename
            && (infos[k].path.Some? && infos[k].path.value !in before ==>
                  results[k] == Failed(infos[k].filename, FileMissing)
                  && ProcessAll(files, infos[..k + 1], tolerance, codec).1 == before)
  {
    ProcessAllAt(files, infos, tolerance, codec, k);
    assert infos[..k + 1][..k] == infos[..k];
  }

  /**
   * processar: the tolerance defaults to DefaultTolerance and the item list to
   * empty; every item gets a result and the files evolve as ProcessAll says.
   */
  method ProcessFiles(fs: FileSystem, request: ProcessRequest, codec: Codec) returns (results: seq<ItemResult>)
    modifies fs
    ensures (results, fs.files) ==
            ProcessAll(old(fs.files), request.files.GetOr([]), request.tolerance.GetOr(DefaultTolerance), codec)
  {
    var infos := request.files.GetOr([]);
    var tolerance := request.tolerance.GetOr(DefaultTolerance);
    results := [];
    for i := 0 to |infos|
      invariant (results, fs.files) == ProcessAll(old(fs.files), infos[..i], tolerance, codec)
    {
      assert infos[..i + 1][..i] == infos[..i];
      var info := infos[i];
      var result: ItemResult;
      match info.path {
        case None =>
          result := Failed(info.filename, PathNotText);
        case Some(filepath) =>
          if !fs.Exists(filepath) {
            result := Failed(info.filename, FileMissing);
          } else {
            var outcome := ProcessImage(fs, filepath, tolerance, true, codec);
            match outcome {
              case Err(e) =>
                result := Failed(info.filename, Raised(e));
              case Ok(out) =>
                var name := Basename(out);
                result := Done(info.filename, name, "/uploads/" + Show(info.filename), "/sem_fundo/" + name);
            }
          }
      }
      results := results + [result];
    }
    assert infos[..|infos|] == infos;
  }

  // ----- download_all -----

  /** One member of the zip archive: its name inside the archive and its bytes. */
  datatype ZipEntry = ZipEntry(arcname: string, content: Bytes)

  /** The archive members for the requested names: those found under ProcessedDir, in order. */
  function Bundle(files: map<string, Bytes>, names: seq<string>): (r: seq<ZipEntry>)
    ensures |r| <= |names|
  {
    if names == [] then []
    else
      var name := names[|names| - 1];
      var path := Join(ProcessedDir, name);
      Bundle(files, names[..|names| - 1]) + (if path in files then [ZipEntry(name, files[path])] else [])
  }

  /** The archive keeps request order: Bundle distributes over concatenation. */
  lemma {:induction false} BundleAppend(files: map<string, Bytes>, a: seq<string>, b: seq<string>)
    ensures Bundle(files, a + b) == Bundle(files, a) + Bundle(files, b)
  {
    if b != [] {
      var init := b[..|b| - 1];
      assert (a + b)[..|a + b| - 1] == a + init;
      BundleAppend(files, a, init);
    } else {
      assert a + b == a;
    }
  }

  /**
   * Every member is a requested name found under ProcessedDir, with that file's
   * bytes; every requested name found there is a member; the others are skipped.
   */
  lemma {:induction false} BundleMembers(files: map<string, Bytes>, names: seq<string>)
    ensures forall e :: e in Bundle(files, names) ==>
              e.arcname in names && Join(ProcessedDir, e.arcname) in files
              && e.content == files[Join(ProcessedDir, e.arcname)]
    ensures forall n :: n in names && Join(ProcessedDir, n) in files ==>
              ZipEntry(n, files[Join(ProcessedDir, n)]) in Bundle(files, names)
  {
    if names != [] {
      var init := names[..|names| - 1];
      BundleMembers(files, init);
      assert names == init + [names[|names| - 1]];
    }
  }

  /** The batch example: only the existing name ends up in the archive, the missing one raises nothing. */
  lemma BundleExample(content: Bytes)
    ensures Bundle(map["sem_fundo/a.png" := content], ["a.png", "missing.png"]) == [ZipEntry("a.png", content)]
  {
    var files := map["sem_fundo/a.png" := content];
    assert Join(ProcessedDir, "a.png") == "sem_fundo/a.png";
    assert Join(ProcessedDir, "missing.png") == "sem_fundo/missing.png";
    assert "sem_fundo/missing.png" != "sem_fundo/a.png";
    assert ["a.png", "missing.png"][..1] == ["a.png"];
    assert ["a.png"][..0] == [];
  }

  /** download_all: the name list defaults to empty; existing files are added in request order. */
  method DownloadAll(fs: FileSystem, requested: Option<seq<string>>) returns (entries: seq<ZipEntry>)
    ensures entries == Bundle(fs.files, requested.GetOr([]))
  {
    var filenames := requested.GetOr([]);
    entries := [];
    for i := 0 to |filenames|
      invariant entries == Bundle(fs.files, filenames[..i])
    {
      assert filenames[..i + 1][..i] == filenames[..i];
      var filename := filenames[i];
      var filepath := Join(ProcessedDir, filename);
      if fs.Exists(filepath) {
        entries := entries + [ZipEntry(filename, fs.Read(filepath))];
      }
    }
    assert filenames[..|filenames|] == filenames;
  }
}
