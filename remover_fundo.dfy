/**
 * The white-background stripper (remover_fundo.py): a per-pixel threshold
 * transform over an RGBA image, the derivation of its default output path, and
 * the orchestration that archives the original once and writes the result.
 */
module RemoverFundo {
  import opened Wrappers
  import opened PyPath
  import opened Files

  /** One 8-bit colour channel. */
  type Channel = c: int | 0 <= c <= 255

  /** An (R, G, B, A) pixel, as an image converted to RGBA yields it. */
  type Pixel = (Channel, Channel, Channel, Channel)

  /** A decoded image: its pixels in the order the image library lists them. */
  type Image = seq<Pixel>

  /** What a near-white pixel becomes: white RGB with zero alpha. */
  const Transparent: Pixel := (255, 255, 255, 0)

  /** Tolerance used when the caller gives none. */
  const DefaultTolerance := 10

  /** Folder holding the first copy seen of every input. */
  const ArchiveDir := "originais"

  /** Folder holding the processed PNG files. */
  const ProcessedDir := "sem_fundo"

  /**
   * The threshold test: R, G and B each strictly above 255 - tolerance.
   * Alpha plays no part.
   */
  predicate NearWhite(p: Pixel, tolerance: int) {
    p.0 > 255 - tolerance && p.1 > 255 - tolerance && p.2 > 255 - tolerance
  }

  /** The decision for one pixel. */
  function Whiten(p: Pixel, tolerance: int): Pixel {
    if NearWhite(p, tolerance) then Transparent else p
  }

  /**
   * The stripped image, built the way the loop builds its list of new pixels:
   * one decision appended per input pixel, in order.
   */
  function Stripped(s: Image, tolerance: int): (r: Image)
    ensures |r| == |s|
  {
    if s == [] then []
    else Stripped(s[..|s| - 1], tolerance) + [Whiten(s[|s| - 1], tolerance)]
  }

  /** The rule for each pixel: the k-th output depends on the k-th input alone. */
  lemma {:induction false} StrippedAt(s: Image, tolerance: int, k: int)
    requires 0 <= k < |s|
    ensures NearWhite(s[k], tolerance) ==> Stripped(s, tolerance)[k] == Transparent
    ensures !NearWhite(s[k], tolerance) ==> Stripped(s, tolerance)[k] == s[k]
  {
    if k < |s| - 1 {
      StrippedAt(s[..|s| - 1], tolerance, k);
    }
  }

  /** A second pass with the same tolerance changes nothing. */
  lemma {:induction false} StrippedIdempotent(s: Image, tolerance: int)
    ensures Stripped(Stripped(s, tolerance), tolerance) == Stripped(s, tolerance)
  {
    var once := Stripped(s, tolerance);
    var twice := Stripped(once, tolerance);
    forall k | 0 <= k < |s| ensures twice[k] == once[k] {
      StrippedAt(s, tolerance, k);
      StrippedAt(once, tolerance, k);
    }
  }

  /** With tolerance 0 or below no 8-bit pixel passes the test, not even pure white. */
  lemma {:induction false} StrippedNonPositiveTolerance(s: Image, tolerance: int)
    requires tolerance <= 0
    ensures Stripped(s, tolerance) == s
  {
    if s != [] {
      StrippedNonPositiveTolerance(s[..|s| - 1], tolerance);
      assert s == s[..|s| - 1] + [s[|s| - 1]];
    }
  }

  /** With tolerance 256 or above every pixel becomes transparent white. */
  lemma {:induction false} StrippedTolerance256(s: Image, tolerance: int)
    requires tolerance >= 256
    ensures forall k :: 0 <= k < |s| ==> Stripped(s, tolerance)[k] == Transparent
  {
    forall k | 0 <= k < |s| ensures Stripped(s, tolerance)[k] == Transparent {
      StrippedAt(s, tolerance, k);
    }
  }

  /** At tolerance 255 a pixel with a zero red, green or blue channel is still kept. */
  lemma {:induction false} StrippedTolerance255(s: Image, k: int)
    requires 0 <= k < |s|
    requires s[k].0 == 0 || s[k].1 == 0 || s[k].2 == 0
    ensures Stripped(s, 255)[k] == s[k]
  {
    StrippedAt(s, 255, k);
  }

  /** Every pixel that matches at some tolerance is also made transparent at any higher one. */
  lemma {:induction false} StrippedMonotone(s: Image, lower: int, higher: int)
    requires lower <= higher
    ensures forall k :: 0 <= k < |s| && NearWhite(s[k], lower) ==>
              Stripped(s, lower)[k] == Transparent && Stripped(s, higher)[k] == Transparent
  {
    forall k | 0 <= k < |s| && NearWhite(s[k], lower)
      ensures Stripped(s, lower)[k] == Transparent && Stripped(s, higher)[k] == Transparent
    {
      StrippedAt(s, lower, k);
      StrippedAt(s, higher, k);
    }
  }

  /** The worked example: 250 > 245 so the light grey pixel goes, black stays. */
  lemma StrippedExample()
    ensures Stripped([(255, 255, 255, 255), (250, 250, 250, 255), (0, 0, 0, 255), (255, 255, 255, 0)], 10)
         == [Transparent, Transparent, (0, 0, 0, 255), Transparent]
  {
    var s: Image := [(255, 255, 255, 255), (250, 250, 250, 255), (0, 0, 0, 255), (255, 255, 255, 0)];
    StrippedAt(s, 10, 0);
    StrippedAt(s, 10, 1);
    StrippedAt(s, 10, 2);
    StrippedAt(s, 10, 3);
  }

  /** The pixel loop: reads the image's data and builds the list of new pixels. */
  method NewPixelData(data: Image, tolerance: int) returns (novos: Image)
    ensures novos == Stripped(data, tolerance)
  {
    novos := [];
    for i := 0 to |data|
      invariant novos == Stripped(data[..i], tolerance)
    {
      assert data[..i + 1][..i] == data[..i];
      var item := data[i];
      if item.0 > 255 - tolerance && item.1 > 255 - tolerance && item.2 > 255 - tolerance {
        novos := novos + [(255, 255, 255, 0)];
      } else {
        novos := novos + [item];
      }
    }
    assert data[..|data|] == data;
  }

  /** Strips the image buffer in place: the new data is put back over the old. */
  method StripImage(img: array<Pixel>, tolerance: int)
    modifies img
    ensures img[..] == Stripped(old(img[..]), tolerance)
  {
    var novos := NewPixelData(img[..], tolerance);
    forall i | 0 <= i < img.Length {
      img[i] := novos[i];
    }
  }

  /** The output path used when none is given: the input's base name, last extension replaced by ".png", under ProcessedDir. */
  function DefaultOutputPath(input: string): string {
    Join(ProcessedDir, SplitExtRoot(Basename(input)) + ".png")
  }

  /** An explicitly given output path is used as it is. */
  function OutputPath(input: string, output: Option<string>): string {
    match output
    case Some(path) => path
    case None => DefaultOutputPath(input)
  }

  /** The default output path names a file directly inside ProcessedDir. */
  lemma DefaultOutputPathShape(input: string)
    ensures var stem := SplitExtRoot(Basename(input));
            && DefaultOutputPath(input) == ProcessedDir + "/" + stem + ".png"
            && stem <= Basename(input)
            && (forall k :: 0 <= k < |stem| ==> stem[k] != '/')
  {
    var base := Basename(input);
    var stem := SplitExtRoot(base);
    BasenameSpec(input);
    assert stem <= base;
    var name := stem + ".png";
    assert name[0] != '/' by {
      if |stem| > 0 { assert name[0] == base[0]; } else { assert name[0] == '.'; }
    }
    JoinRelative(ProcessedDir, name);
  }

  /** Where processar_imagem keeps the first copy of `input`. */
  function ArchivePath(input: string): string {
    Join(ArchiveDir, Basename(input))
  }

  /** The archive copy and the processed output never share a path. */
  lemma ArchiveIsNotOutput(input: string)
    ensures ArchivePath(input) != DefaultOutputPath(input)
  {
    ArchivePathShape(input);
    DefaultOutputPathShape(input);
    assert DefaultOutputPath(input)[0] == ProcessedDir[0];
  }

  /** The archive path names a file directly inside ArchiveDir. */
  lemma ArchivePathShape(input: string)
    ensures ArchivePath(input) == ArchiveDir + "/" + Basename(input)
  {
    BasenameSpec(input);
    JoinRelative(ArchiveDir, Basename(input));
  }

  /** The failures the orchestrator reports. */
  datatype Error =
    | NotFound(path: string)       // the input file does not exist
    | DecodeError(path: string)    // the input's bytes are not a readable image

  /**
   * The image library, which is not modelled: decoding a file into RGBA pixels
   * (None when the bytes are not an image) and encoding pixels as PNG.
   */
  datatype Codec = Codec(decode: Bytes -> Option<Image>, encode: Image -> Bytes)

  /** remover_fundo_branco on the file map: the result and the files afterwards. */
  function StripFile(files: map<string, Bytes>, input: string, output: Option<string>, tolerance: int, codec: Codec)
    : (Result<string, Error>, map<string, Bytes>)
  {
    if input !in files then (Err(NotFound(input)), files)
    else match codec.decode(files[input])
      case None => (Err(DecodeError(input)), files)
      case Some(image) =>
        var out := OutputPath(input, output);
        (Ok(out), files[out := codec.encode(Stripped(image, tolerance))])
  }

  /**
   * remover_fundo_branco writes at most one file: the given output path, used
   * verbatim, or else `sem_fundo/<stem>.png` for the input's base name. On
   * success that file holds the encoded stripped image and its path is
   * returned; on failure nothing is written. Every other file keeps its bytes.
   * The call fails exactly when the input is missing (NotFound) or its bytes
   * do not decode (DecodeError).
   */
  lemma StripFileWrites(files: map<string, Bytes>, input: string, output: Option<string>, tolerance: int, codec: Codec)
    ensures var (r, after) := StripFile(files, input, output, tolerance, codec);
            var out := OutputPath(input, output);
            && (output.Some? ==> out == output.value)
            && (output.None? ==> out == ProcessedDir + "/" + SplitExtRoot(Basename(input)) + ".png")
            && (forall path :: path in files && path != out ==> path in after && after[path] == files[path])
            && (forall path :: path in after ==> path in files || path == out)
            && (input !in files ==> r == Err(NotFound(input)))
            && (input in files && codec.decode(files[input]).None? ==> r == Err(DecodeError(input)))
            && (input in files && codec.decode(files[input]).Some? ==> r.Ok?)
            && (r.Err? ==> after == files)
            && (r.Ok? ==>
                  && r.value == out
                  && input in files && codec.decode(files[input]).Some?
                  && out in after && after[out] == codec.encode(Stripped(codec.decode(files[input]).value, tolerance)))
  {
    DefaultOutputPathShape(input);
  }

  /** processar_imagem on the file map: check, archive if absent, strip. */
  function Process(files: map<string, Bytes>, input: string, tolerance: int, saveOriginal: bool, codec: Codec)
    : (Result<string, Error>, map<string, Bytes>)
  {
    if input !in files then (Err(NotFound(input)), files)
    else
      var archived :=
        if saveOriginal && ArchivePath(input) !in files then files[ArchivePath(input) := files[input]]
        else files;
      StripFile(archived, input, None, tolerance, codec)
  }

  /** remover_fundo_branco: open, strip, save as PNG at the given or default path. */
  method RemoveWhiteBackground(fs: FileSystem, input: string, output: Option<string>, tolerance: int, codec: Codec)
    returns (r: Result<string, Error>)
    modifies fs
    ensures (r, fs.files) == StripFile(old(fs.files), input, output, tolerance, codec)
  {
    if !fs.Exists(input) {
      return Err(NotFound(input));
    }
    var decoded := codec.decode(fs.Read(input));
    if decoded.None? {
      return Err(DecodeError(input));
    }
    var pixels := decoded.value;
    var img := new Pixel[|pixels|](i requires 0 <= i < |pixels| => pixels[i]);
    assert img[..] == pixels;
    StripImage(img, tolerance);
    var out := OutputPath(input, output);
    fs.Write(out, codec.encode(img[..]));
    r := Ok(out);
  }

  /** processar_imagem: fail on a missing input, archive the original once, then strip. */
  method ProcessImage(fs: FileSystem, input: string, tolerance: int, saveOriginal: bool, codec: Codec)
    returns (r: Result<string, Error>)
    modifies fs
    ensures (r, fs.files) == Process(old(fs.files), input, tolerance, saveOriginal, codec)
  {
    if !fs.Exists(input) {
      return Err(NotFound(input));
    }
    if saveOriginal {
      var archive := Join(ArchiveDir, Basename(input));
      if !fs.Exists(archive) {
        fs.Copy(input, archive);
      }
    }
    r := RemoveWhiteBackground(fs, input, None, tolerance, codec);
  }

  /** A missing input is reported and nothing is written. */
  lemma ProcessMissing(files: map<string, Bytes>, input: string, tolerance: int, saveOriginal: bool, codec: Codec)
    requires input !in files
    ensures Process(files, input, tolerance, saveOriginal, codec) == (Err(NotFound(input)), files)
  {
  }

  /**
   * First write wins: with saveOriginal an absent archive receives the input's
   * bytes, an existing archive is never overwritten, and without saveOriginal
   * the archive path is left as it was.
   */
  lemma ProcessArchive(files: map<string, Bytes>, input: string, tolerance: int, saveOriginal: bool, codec: Codec)
    requires input in files
    ensures var after := Process(files, input, tolerance, saveOriginal, codec).1;
            var archive := ArchivePath(input);
            && (saveOriginal && archive !in files ==> archive in after && after[archive] == files[input])
            && (archive in files ==> archive in after && after[archive] == files[archive])
            && (!saveOriginal && archive !in files ==> archive !in after)
  {
    ArchiveIsNotOutput(input);
    var archive := ArchivePath(input);
    var archived :=
      if saveOriginal && archive !in files then files[archive := files[input]] else files;
    assert archived[input] == files[input];
    var after := Process(files, input, tolerance, saveOriginal, codec).1;
    assert after == StripFile(archived, input, None, tolerance, codec).1;
    match codec.decode(files[input]) {
      case None =>
        assert after == archived;
      case Some(image) =>
        assert after == archived[DefaultOutputPath(input) := codec.encode(Stripped(image, tolerance))];
    }
  }

  /**
   * The processed file is always (re)written at the default output path and
   * that path is returned; a decoding failure leaves any existing processed
   * file as it was, creates none, and keeps the archive copy in place.
   */
  lemma ProcessOutput(files: map<string, Bytes>, input: string, tolerance: int, saveOriginal: bool, codec: Codec)
    requires input in files
    ensures var (r, after) := Process(files, input, tolerance, saveOriginal, codec);
            var out := DefaultOutputPath(input);
            match codec.decode(files[input])
            case None =>
              && r == Err(DecodeError(input))
              && (out in after <==> out in files)
              && (out in files ==> after[out] == files[out])
            case Some(image) => r == Ok(out) && out in after && after[out] == codec.encode(Stripped(image, tolerance))
  {
    ArchiveIsNotOutput(input);
    var archive := ArchivePath(input);
    var archived :=
      if saveOriginal && archive !in files then files[archive := files[input]] else files;
    assert archived[input] == files[input];
    assert Process(files, input, tolerance, saveOriginal, codec) == StripFile(archived, input, None, tolerance, codec);
  }

  /** Apart from the archive copy and the output, processar_imagem leaves every file as it was. */
  lemma ProcessFrame(files: map<string, Bytes>, input: string, tolerance: int, saveOriginal: bool, codec: Codec)
    ensures var after := Process(files, input, tolerance, saveOriginal, codec).1;
            var out := DefaultOutputPath(input);
            && (forall path :: path in files && path != out && path != ArchivePath(input) ==>
                  path in after && after[path] == files[path])
            && (forall path :: path in after ==> path in files || path == out || path == ArchivePath(input))
  {
    if input in files {
      var archive := ArchivePath(input);
      var out := DefaultOutputPath(input);
      var archived :=
        if saveOriginal && archive !in files then files[archive := files[input]] else files;
      assert forall path :: path in files && path != archive ==> path in archived && archived[path] == files[path];
      assert forall path :: path in archived ==> path in files || path == archive;
      var after := Process(files, input, tolerance, saveOriginal, codec).1;
      assert after == StripFile(archived, input, None, tolerance, codec).1;
      match codec.decode(archived[input]) {
        case None =>
          assert after == archived;
        case Some(image) =>
          assert after == archived[out := codec.encode(Stripped(image, tolerance))];
      }
    }
  }

  /**
   * Processing the same input twice keeps exactly the bytes the input had the
   * first time in the archive, while the output reflects the second tolerance.
   */
  lemma ReprocessKeepsFirstArchive(files: map<string, Bytes>, input: string, first: int, second: int, codec: Codec)
    requires input in files && ArchivePath(input) !in files
    ensures var once := Process(files, input, first, true, codec).1;
            var (r, twice) := Process(once, input, second, true, codec);
            && input in once
            && ArchivePath(input) in twice && twice[ArchivePath(input)] == files[input]
            && (codec.decode(once[input]).Some? ==>
                  r == Ok(DefaultOutputPath(input))
                  && twice[DefaultOutputPath(input)] == codec.encode(Stripped(codec.decode(once[input]).value, second)))
  {
    ProcessArchive(files, input, first, true, codec);
    var once := Process(files, input, first, true, codec).1;
    ProcessArchive(once, input, second, true, codec);
    ProcessOutput(once, input, second, true, codec);
  }
}
