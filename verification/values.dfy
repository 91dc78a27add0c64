/** The dynamically typed values that flow between the ingestion steps:
    bytes, dictionary values, JSON documents, transcript segments and the
    file system the steps read and write. */
module Values {

  import opened Wrappers

  newtype byte = x: int | 0 <= x < 256

  type Bytes = seq<byte>

  /** A value held under a key of a Python dict or a dataframe cell. Numbers
      are reals (the source's float32/float64 distinction is not modelled);
      `Null` is a missing value (None or NaN). */
  datatype Scalar = Num(x: real) | Text(s: string) | Blob(b: Bytes) | Null

  /** A Python dict with string keys, as passed around as `**kwargs`. */
  type Record = map<string, Scalar>

  /** A JSON-like document, as returned by ffprobe. */
  datatype Json =
    | JNull
    | JBool(b: bool)
    | JNum(x: real)
    | JStr(s: string)
    | JArr(items: seq<Json>)
    | JObj(fields: map<string, Json>)

  /** A normalised transcript segment: its scalar keys (start, end, text,
      no_speech_prob and, once attached, thumbnail) and its word dicts. */
  datatype Segment = Segment(fields: Record, words: seq<Record>)

  /** The part of the file system the pipeline touches: regular files with
      their contents, and directories. */
  datatype FileSystem = FileSystem(files: map<string, Bytes>, dirs: set<string>)

  /** `os.path.exists`. */
  predicate Exists(fs: FileSystem, path: string) {
    path in fs.files || path in fs.dirs
  }

  /** Reads a whole file as `open(path, "rb").read()` does. */
  function ReadBytes(fs: FileSystem, path: string): (r: Result<Bytes>)
    ensures r.Ok? <==> path in fs.files
    ensures r.Ok? ==> r.value == fs.files[path]
    ensures !Exists(fs, path) ==> r == Err(FileNotFound(path))
  {
    if path in fs.files then Ok(fs.files[path])
    else if path in fs.dirs then Err(IsADirectory(path))
    else Err(FileNotFound(path))
  }

  /** `d[key]` on a dict: the value, or KeyError. */
  function Lookup(d: Record, key: string): (r: Result<Scalar>)
    ensures r.Ok? <==> key in d
    ensures r.Ok? ==> r.value == d[key]
    ensures r.Err? ==> r.error == MissingKey(key)
  {
    if key in d then Ok(d[key]) else Err(MissingKey(key))
  }
}
