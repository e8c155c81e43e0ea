/** The local file system as the application sees it: paths mapped to file contents. */
module Files {

  newtype byte = b: int | 0 <= b < 256

  type Bytes = seq<byte>

  /**
   * The files on disk. Directories are not modelled: the two output folders
   * and the upload folder are assumed to exist.
   */
  class FileSystem {
    var files: map<string, Bytes>

    constructor (initial: map<string, Bytes>)
      ensures files == initial
    {
      files := initial;
    }

    /** `os.path.exists` */
    predicate Exists(path: string)
      reads this
    {
      path in files
    }

    /** Reading a whole file. */
    function Read(path: string): Bytes
      reads this
      requires path in files
    {
      files[path]
    }

    /** Writing a whole file, replacing whatever was there. */
    method Write(path: string, data: Bytes)
      modifies this
      ensures files == old(files)[path := data]
    {
      files := files[path := data];
    }

    /** `shutil.copy2` (contents only; file metadata is not modelled). */
    method Copy(source: string, target: string)
      requires source in files
      modifies this
      ensures files == old(files)[target := old(files)[source]]
    {
      files := files[target := files[source]];
    }
  }
}
