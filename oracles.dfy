/** What the modelled code asks of the world outside the program: the
    Windows registry, the file system and the image decoder. Each is a
    value handed to the operations that consult it. */
module Oracles {
  import opened Wrappers

  /** A decoded image, named by a handle. Bitmaps are compared by handle in
      place of reference equality. The decoders below are fixed maps, so
      every decode of one file gives the same handle, where the runtime
      creates a new object on each decode. */
  datatype Bitmap = Bitmap(handle: nat)

  /** A `FileInfo`: the file's full path and its length in bytes. */
  datatype FileEntry = FileEntry(fullName: string, length: nat)

  /** The machine the program runs on.
      - `systemFolder`: `Environment.GetFolderPath(SpecialFolder.System)`;
      - `files`, `directories`: the paths `File.Exists` and `Directory.Exists` accept;
      - `listing[d]`: `new DirectoryInfo(d).GetFiles()`, the files directly in `d`
        in enumeration order (a directory missing from the map cannot be read);
      - `tree[d]`: every file in `d` and below it, in enumeration order (same convention);
      - `icons[(p, e)]`: the best-quality icon of file `p` decoded as type `e`
        (`None`: as the file's own type); a missing pair fails to decode, and
        each decode of one pair gives the same handle;
      - `images[p]`: `new Bitmap(p)`; a missing path fails to decode, and each
        decode of one path gives the same handle. */
  datatype Machine = Machine(
    systemFolder: string,
    files: set<string>,
    directories: set<string>,
    listing: map<string, seq<FileEntry>>,
    tree: map<string, seq<FileEntry>>,
    icons: map<(string, Option<string>), Bitmap>,
    images: map<string, Bitmap>)
  {
    /** The files directly in `d`, or the I/O failure of listing it. */
    function Listing(d: string): Result<seq<FileEntry>>
    {
      if d in listing then Ok(listing[d]) else Err(IOFailure)
    }

    /** Every file in and below `d`, or the I/O failure of walking it. */
    function Tree(d: string): Result<seq<FileEntry>>
    {
      if d in tree then Ok(tree[d]) else Err(IOFailure)
    }

    /** `new IconData(p, e).GetIconWithBestQuality().ToBitmap()`. */
    function DecodeIcon(p: string, forcedType: Option<string>): Result<Bitmap>
    {
      if (p, forcedType) in icons then Ok(icons[(p, forcedType)]) else Err(DecodeFailure)
    }

    /** `new Bitmap(p)`. */
    function DecodeImage(p: string): Result<Bitmap>
    {
      if p in images then Ok(images[p]) else Err(DecodeFailure)
    }
  }

  /** The registry: the subkey names and the values (name to `ToString()`
      text, `None` for null) of each key path that exists. */
  datatype Registry = Registry(
    subkeys: map<string, seq<string>>,
    values: map<string, map<string, Option<string>>>)
  {
    /** `RegistryHelper.GetRegKeys`: no subkeys when the key cannot be opened. */
    function SubKeyNames(path: string): seq<string>
    {
      if path in subkeys then subkeys[path] else []
    }

    /** `RegistryHelper.GetRegKeyValues`: a key that cannot be opened is
        dereferenced as null. */
    function ValueMap(path: string): Result<map<string, Option<string>>>
    {
      if path in values then Ok(values[path]) else Err(NullReference)
    }
  }
}
