/** Content fingerprinting, the stream-to-logger adapter and the stdout/stderr
    redirection scope. */
module Utils {

  import opened Wrappers
  import opened Values
  import opened Text

  /** `get_checksum(path)`: the hex digest, computed by `md5Hex` (a stand-in
      for `hashlib.md5(data).hexdigest()`), of the file's bytes. */
  function GetChecksum(fs: FileSystem, md5Hex: Bytes -> string, path: string): (r: Result<string>)
    ensures !Exists(fs, path) ==> r == Err(FileNotFound(path))
    ensures r.Ok? <==> path in fs.files
    ensures r.Ok? ==> r.value == md5Hex(fs.files[path])
  {
    if !Exists(fs, path) then Err(FileNotFound(path))
    else
      var data :- ReadBytes(fs, path);
      Ok(md5Hex(data))
  }

  /** The digest depends only on the bytes: byte-identical files under any
      names, in any file system, have equal checksums. */
  lemma ChecksumDependsOnlyOnContent(
    fs1: FileSystem, p1: string, fs2: FileSystem, p2: string, md5Hex: Bytes -> string)
    requires p1 in fs1.files && p2 in fs2.files && fs1.files[p1] == fs2.files[p2]
    ensures GetChecksum(fs1, md5Hex, p1) == GetChecksum(fs2, md5Hex, p2)
    ensures GetChecksum(fs1, md5Hex, p1).Ok?
  {
  }

  /** One `logger.log(level, line)` call. */
  datatype LogCall = LogCall(level: int, line: string)

  /** A `StreamToLogger`: the level it logs at and the calls emitted so far. */
  datatype StreamToLogger = StreamToLogger(level: int, emitted: seq<LogCall>)

  /** The lines `write(buf)` logs: the lines of `buf.rstrip()`, each right-stripped. */
  function WrittenLines(buf: string): (r: seq<string>)
    ensures forall k :: 0 <= k < |r| ==> |r[k]| == 0 || !IsSpace(r[k][|r[k]| - 1])
    ensures forall k, j :: 0 <= k < |r| && 0 <= j < |r[k]| ==> !IsLineBreak(r[k][j])
  {
    var lines := SplitLines(RStrip(buf));
    seq(|lines|, k requires 0 <= k < |lines| => RStrip(lines[k]))
  }

  /** `StreamToLogger.write(buf)`: one log call per line, in order, at the stream's level. */
  function Write(s: StreamToLogger, buf: string): (r: StreamToLogger)
    ensures r.level == s.level
    ensures |r.emitted| == |s.emitted| + |WrittenLines(buf)|
    ensures r.emitted[..|s.emitted|] == s.emitted
    ensures forall k :: 0 <= k < |WrittenLines(buf)| ==>
      r.emitted[|s.emitted| + k] == LogCall(s.level, WrittenLines(buf)[k])
  {
    var lines := WrittenLines(buf);
    s.(emitted := s.emitted + seq(|lines|, k requires 0 <= k < |lines| => LogCall(s.level, lines[k])))
  }

  /** A buffer emits nothing exactly when it is empty or all whitespace. */
  lemma {:induction false} WriteEmitsNothingIffBlank(buf: string)
    ensures |WrittenLines(buf)| == 0 <==> forall i :: 0 <= i < |buf| ==> IsSpace(buf[i])
  {
    var t := RStrip(buf);
    if |t| > 0 {
      assert !IsSpace(buf[|t| - 1]);
    }
  }

  /** For a buffer whose only boundary is "\n", the logged lines joined by
      "\n" give back `buf.rstrip()` when no line carries trailing whitespace. */
  lemma WriteRoundTrip(buf: string)
    requires OnlyNewlineBreaks(RStrip(buf))
    requires forall k :: 0 <= k < |SplitLines(RStrip(buf))| ==>
      RStrip(SplitLines(RStrip(buf))[k]) == SplitLines(RStrip(buf))[k]
    ensures Join(WrittenLines(buf), "\n") == RStrip(buf)
  {
    var t := RStrip(buf);
    if |t| > 0 {
      LineBreakIsSpace('\n');
    }
    SplitLinesJoin(t);
    assert WrittenLines(buf) == SplitLines(t);
  }

  /** `StreamToLogger.flush()` does nothing. */
  function Flush(s: StreamToLogger): (r: StreamToLogger)
    ensures r.emitted == s.emitted && r.level == s.level
  {
    s
  }

  /** The interpreter's current `sys.stdout` and `sys.stderr`. */
  datatype Streams<S> = Streams(stdout: S, stderr: S)

  /** How the body of a `with` block ended. */
  datatype Completion = Normal | Raised(error: Error)

  /** `with stdout_redirector(out, err): body`: the body runs with the streams
      redirected and may itself reassign them; on every exit, normal or by an
      exception, the original streams are restored and the body's completion
      is passed on. */
  function WithRedirectedStreams<S>(
    original: Streams<S>, out: S, err: S, body: Streams<S> -> (Streams<S>, Completion)
  ): (r: (Streams<S>, Completion))
    ensures r.0 == original
    ensures r.1 == body(Streams(out, err)).1
  {
    var (_, completion) := body(Streams(out, err));
    (original, completion)
  }
}
