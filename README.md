# White-background stripper: a verified model

This project models the core of a small web application that removes white
backgrounds from images. An uploaded image is decoded to RGBA pixels. Every
pixel whose red, green and blue channels are all strictly above
`255 - tolerancia` becomes transparent white `(255, 255, 255, 0)`. All other
pixels are kept as they were, alpha included. The result is written as a PNG
file under `sem_fundo/`. The first copy ever seen of each input base name is archived
under `originais/` and is never overwritten. Two inputs that share a base name
share one archive, so the second of them is never archived.

Around that core, the web layer has four pieces of logic that are modelled too:

- the extension allow-list (`allowed_file`);
- the upload loop, which keeps only allowed files;
- the processing loop, which gives one result per requested file and keeps going after a failure;
- the batch download, which zips each requested name whose `os.path.join('sem_fundo', name)` exists and silently skips the rest.

Modules:

- `Wrappers` (wrappers.dfy): `Option` and `Result`.
- `PyPath` (pypath.dfy): the Python string and `os.path` functions the code relies on. These are `str.rfind`, `os.path.basename`, `os.path.splitext` and the two-argument `os.path.join`, with POSIX rules.
- `Files` (files.dfy): bytes, and a `FileSystem` class. Its only field is a `map<string, Bytes>` from path to contents, and its methods reassign that field.
- `RemoverFundo` (remover_fundo.dfy): the pixel transform, the output-path rule, `remover_fundo_branco` and `processar_imagem`.
- `App` (app.dfy): `allowed_file`, `upload_files`, `processar` and `download_all`.

The pixel loop is imperative. `NewPixelData` builds the list of new pixels one
append at a time, as the loop over `getdata()` does. `StripImage` then puts that
list back into the image's pixel array, as `putdata` does. The file-level
operations are methods on a `FileSystem` object. Each is proved equal to a pure
specification function: `StripFile`, `Process`, `Uploaded`/`SavedUploads`,
`ProcessAll` or `Bundle`. The lemmas state the promised properties of those
functions.

At the edges of the tolerance range the strict `>` test behaves as follows:

- A tolerance of 0 or less matches no pixel, so even pure white is kept (`StrippedNonPositiveTolerance`).
- At tolerance 255 a pixel with a zero red, green or blue channel still fails the test (`StrippedTolerance255`).
- Only a tolerance of 256 or more matches every pixel (`StrippedTolerance256`).

## Model

| member | source | states |
|---|---|---|
| `RemoverFundo.Stripped` | remover_fundo.py:19-28 | the new pixel list has exactly as many pixels as the input |
| `RemoverFundo.StrippedAt` | remover_fundo.py:22-26 | for each index k, output k is (255,255,255,0) if input k has R, G and B all above 255 - tolerance (alpha ignored); otherwise it is input k unchanged, alpha included |
| `RemoverFundo.StrippedIdempotent` | remover_fundo.py:22-26 | stripping twice with the same tolerance gives the same image as stripping once |
| `RemoverFundo.StrippedNonPositiveTolerance` | remover_fundo.py:23 | with tolerance <= 0 no 8-bit pixel matches, so the output equals the input (pure white is kept) |
| `RemoverFundo.StrippedTolerance256` | remover_fundo.py:23 | with tolerance >= 256 every pixel becomes (255,255,255,0) |
| `RemoverFundo.StrippedTolerance255` | remover_fundo.py:23 | at tolerance 255 a pixel with a zero R, G or B channel is left unchanged |
| `RemoverFundo.StrippedMonotone` | remover_fundo.py:23 | every pixel that matches at some tolerance is made (255,255,255,0) at that tolerance and at any higher one |
| `RemoverFundo.StrippedExample` | remover_fundo.py:22-26 | the four pixels (255,255,255,255), (250,250,250,255), (0,0,0,255), (255,255,255,0) at tolerance 10 become transparent, transparent, unchanged black, transparent |
| `RemoverFundo.NewPixelData` | remover_fundo.py:19-26 | the loop appends exactly one decision per pixel, in order; the result is the stripped image |
| `RemoverFundo.StripImage` | remover_fundo.py:19-28 | after putdata the image's pixel array holds the stripped version of its old contents |
| `PyPath.Join` | remover_fundo.py:33 | os.path.join: an absolute name replaces the folder; otherwise the result is the folder, a '/' inserted exactly when the folder is non-empty and lacks a trailing '/', then the name |
| `PyPath.BasenameSpec` | remover_fundo.py:31 | the base name is the longest suffix of the path without '/', preceded by '/' when shorter than the path |
| `PyPath.SplitExtRootSpec` | remover_fundo.py:32 | splitext's root is a prefix of the name; what it drops is a '.' followed by text with no '.' or '/', whose path component has a non-dot before that '.'; nothing is dropped exactly when no such extension exists |
| `RemoverFundo.DefaultOutputPathShape` | remover_fundo.py:30-33 | with no output path given, the output is `sem_fundo/` + (base name minus its last extension) + `.png`, a file directly inside `sem_fundo` |
| `RemoverFundo.ArchivePathShape` | remover_fundo.py:46-47 | the archive copy lives at `originais/` + base name of the input |
| `RemoverFundo.ArchiveIsNotOutput` | remover_fundo.py:45-52 | the archive path and the processed-output path of an input never coincide |
| `RemoverFundo.StripFileWrites` | remover_fundo.py:13-37 | a missing input fails with NotFound and undecodable bytes with DecodeError; every input that opens succeeds; only one file is written: the explicit output path verbatim, or else `sem_fundo/` + splitext(basename)[0] + `.png`; on success it holds the encoded stripped image and its path is returned; on failure nothing is written; every other file keeps its bytes |
| `RemoverFundo.RemoveWhiteBackground` | remover_fundo.py:13-37 | the method's result and new file map are those of `StripFile` on the old file map |
| `RemoverFundo.ProcessImage` | remover_fundo.py:39-53 | the method's result and new file map are those of `Process` on the old file map |
| `RemoverFundo.ProcessMissing` | remover_fundo.py:42-43 | a missing input yields not-found and leaves every file unchanged |
| `RemoverFundo.ProcessArchive` | remover_fundo.py:45-50 | with salvar_original an absent archive receives the input's bytes, an existing archive is never overwritten, and without salvar_original an absent archive stays absent |
| `RemoverFundo.ProcessOutput` | remover_fundo.py:52-53 | when the input decodes, the output path is returned and holds the encoded stripped image; when it does not, a decode error is returned, no output is created and an existing processed file keeps its bytes |
| `RemoverFundo.ProcessFrame` | remover_fundo.py:39-53 | no file other than the archive copy and the processed output is created or changed |
| `RemoverFundo.ReprocessKeepsFirstArchive` | remover_fundo.py:45-53 | processing the same input twice leaves the archive holding the input's original bytes, and the output reflects the second tolerance |
| `App.AllowedFile` | app.py:14-15 | allowed_file holds iff the name has a '.' with no further '.' after it, and the text after it, lower-cased, is png, jpg, jpeg, gif or bmp |
| `App.AllowedFileIgnoresCase` | app.py:15 | a name and its lower-cased form are accepted or rejected alike |
| `App.AllowedFileExamples` | app.py:12-15 | "Foto.PNG" and "arquivo.tar.jpeg" pass; "png", "imagem.tiff" and "" fail |
| `App.AcceptedIsAllowed` | app.py:33 | the loop's filter (non-empty name and allowed_file) is exactly allowed_file |
| `App.UploadedAppend` | app.py:32-40 | the uploaded list of a concatenation is the concatenation of the lists, so request order is kept |
| `App.UploadedMembers` | app.py:32-40 | a record is listed iff some accepted upload produced it (sanitised name, path under `uploads`) |
| `App.UploadedSound` | app.py:32-40 | every listed record comes from some accepted upload |
| `App.UploadedComplete` | app.py:32-40 | every accepted upload has its record in the list |
| `App.SavedUploadsContent` | app.py:33-36 | a saved path holds the bytes of the last accepted upload whose sanitised name maps to it |
| `App.SavedUploadsFrame` | app.py:34-36 | every listed path exists afterwards; every new file is a listed path; every file not at a listed path keeps its bytes |
| `App.UploadFiles` | app.py:22-42 | without a 'files' part the request fails with "Nenhum arquivo enviado" and writes nothing; otherwise the response and the new files are `Uploaded` and `SavedUploads` of the request |
| `App.ProcessItem` | app.py:53-78 | each item's result carries its filename; a missing path value or a path absent from the files gives a failure and changes no file; otherwise the files become those of processar_imagem, the item is reported as done exactly when processar_imagem succeeds, a failure carries processar_imagem's error, and a success reports `<stem>.png` with the two URLs |
| `App.ProcessAllLength` | app.py:52-78 | the response has exactly one entry per requested item |
| `App.ProcessAllAt` | app.py:52-78 | entry k is item k processed against the files left by items 0..k-1, whatever their outcome, so a failure never stops later items |
| `App.ProcessAllReports` | app.py:54-61 | entry k carries item k's filename; an item whose path is missing when its turn comes gets "file not found" and changes no file |
| `App.ProcessFiles` | app.py:45-80 | the files list defaults to empty and the tolerance to 10; the results and the new file map are those of `ProcessAll` |
| `App.Bundle` | app.py:106-109 | the archive never has more members than names requested |
| `App.BundleAppend` | app.py:106-109 | the archive of a concatenation of requests is the concatenation of the archives, so request order is kept |
| `App.BundleMembers` | app.py:106-109 | every member is a requested name whose `os.path.join('sem_fundo', name)` exists in the file map, with that file's bytes, and every such requested name is a member |
| `App.BundleExample` | app.py:106-109 | requesting "a.png" and "missing.png" when only `sem_fundo/a.png` exists gives exactly one member, "a.png", and no error |
| `App.DownloadAll` | app.py:99-111 | the names list defaults to empty; the archive members are `Bundle` of the current files and the requested names |

## Left out

- Image decoding, RGBA conversion and PNG encoding are calls into the imaging library. They are the `decode`/`encode` functions of a `Codec` parameter, and the image is a flat pixel sequence without width and height.
- Creating the folders (`criar_pastas`, `os.makedirs`) is not modelled. Directories do not exist in the file map, so `os.path.exists` on a directory is not covered.
- `shutil.copy2` copies file metadata as well as contents; only the contents are modelled.
- Writes cannot fail in the model. Permission errors, a full disk and other I/O errors are not represented.
- `secure_filename` belongs to the web framework. It is the opaque `sanitize` function parameter.
- Flask routing, JSON decoding and encoding, `send_file`/`send_from_directory` and the file-serving routes (`index`, `uploaded_file`, `sem_fundo_file`, `original_file`, `download_file`) are I/O plumbing.
- The upload size limit, the temporary zip file and the zip container format are also plumbing. This includes zipfile's normalisation of member names and its duplicate-name warning.
- The `tolerancia` value is taken as an already converted integer. `int()` parsing of strings and truncation of floats are not modelled, and neither is a value `int()` rejects: that raises before the loop and ends the request.
- A missing JSON body is not modelled. `data.get` then raises before any item is processed.
- A path is modelled as a string or absent. A non-string path is not modelled. Depending on its value, the item is reported as not found or fails with the exception's text. For example, an integer naming an open descriptor passes `os.path.exists`, then `os.path.basename` raises `TypeError`, which the per-item handler catches.
- In `/processar` and `/download_all`, the model's absent list means only that the `files` key is missing, which gives `[]`. An explicit `"files": null` is not modelled. Then `data.get('files', [])` returns `None`, the `for` loop raises before any item, and the request aborts.
- An item that is not a JSON object is not modelled. `file_info.get` raises, the handler's own `file_info.get('filename')` raises again, and the whole request aborts. This is the one case where a failing item stops the items after it.
- Paths are compared as literal strings. `.`, `..`, repeated `/` and symbolic links are not normalised. So `"sem_fundo/../x"` and `"x"` count as different files, although on disk a name such as `"../x"` in a batch download reaches outside `sem_fundo`.
- The exception text reported for a failed item (`str(e)`) is represented by the `Error` value it carries, not by a string.
- `Lower` lower-cases ASCII letters only. For this allow-list that is exact: no non-ASCII character lower-cases to a letter of png, jpg, jpeg, gif or bmp.
- The command-line entry points, the browser script and the screenshot tooling are outside the core.
- Concurrent requests racing on the same base name are not modelled.
