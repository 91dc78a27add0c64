/** The GPS normaliser: variant dispatch and the TrackAddict column
    projection and rename. CSV tokenising is a function parameter that yields
    the header and each line as a comment or a header-to-value map. */
module GpsProcessing {

  import opened Wrappers
  import opened Values
  import opened Seqs
  import opened JobConfig

  datatype CsvLine = CommentLine | DataLine(cells: Record)

  datatype CsvFile = CsvFile(header: seq<string>, lines: seq<CsvLine>)

  /** The TrackAddict source columns, each with its canonical name. */
  const ColumnMap: seq<(string, string)> := [
    ("Time", "relative_time"),
    ("UTC Time", "utc_time"),
    ("Latitude", "latitude"),
    ("Longitude", "longitude"),
    ("Altitude (m)", "altitude_m"),
    ("Speed (Km/h)", "speed_kmh")
  ]

  const SourceColumns: set<string> :=
    {"Time", "UTC Time", "Latitude", "Longitude", "Altitude (m)", "Speed (Km/h)"}

  const CanonicalColumns: set<string> :=
    {"relative_time", "utc_time", "latitude", "longitude", "altitude_m", "speed_kmh"}

  /** The value of `column` in a data line; a missing cell reads as NaN. */
  function Cell(cells: Record, column: string): Scalar
  {
    if column in cells then cells[column] else Null
  }

  /** One data line reduced to the six source columns and renamed. */
  function ProjectRow(cells: Record): (r: Record)
    ensures r.Keys == CanonicalColumns
    ensures forall i :: 0 <= i < |ColumnMap| ==> r[ColumnMap[i].1] == Cell(cells, ColumnMap[i].0)
  {
    map[
      "relative_time" := Cell(cells, "Time"),
      "utc_time" := Cell(cells, "UTC Time"),
      "latitude" := Cell(cells, "Latitude"),
      "longitude" := Cell(cells, "Longitude"),
      "altitude_m" := Cell(cells, "Altitude (m)"),
      "speed_kmh" := Cell(cells, "Speed (Km/h)")]
  }

  predicate IsData(l: CsvLine) {
    l.DataLine?
  }

  /** The projected rows of the data lines, in file order; comments produce nothing. */
  function DataRows(lines: seq<CsvLine>): (r: seq<Record>)
    ensures |r| == |Filter(lines, IsData)|
    ensures forall i :: 0 <= i < |r| ==> r[i] == ProjectRow(Filter(lines, IsData)[i].cells)
  {
    if |lines| == 0 then []
    else if lines[0].DataLine? then [ProjectRow(lines[0].cells)] + DataRows(lines[1..])
    else DataRows(lines[1..])
  }

  /** `parse_trackaddict_gps(gps_csv_path)`: the existence check comes before
      any read; a header lacking one of the six columns is a ValueError. */
  function ParseTrackAddictGps(fs: FileSystem, readCsv: Bytes -> Result<CsvFile>, path: string): (r: Result<seq<Record>>)
    ensures !Exists(fs, path) ==> r == Err(FileNotFound(path))
    ensures r.Ok? ==> path in fs.files && readCsv(fs.files[path]).Ok?
    ensures r.Ok? ==> forall c :: c in SourceColumns ==> c in readCsv(fs.files[path]).value.header
    ensures r.Ok? ==> r.value == DataRows(readCsv(fs.files[path]).value.lines)
    ensures (path in fs.files && readCsv(fs.files[path]).Ok?
             && exists c :: c in SourceColumns && c !in readCsv(fs.files[path]).value.header) ==>
      r.Err? && r.error.InvalidValue?
  {
    if !Exists(fs, path) then Err(FileNotFound(path))
    else
      var data :- ReadBytes(fs, path);
      var csv :- readCsv(data);
      if exists c :: c in SourceColumns && c !in csv.header then Err(InvalidValue("Usecols do not match columns"))
      else Ok(DataRows(csv.lines))
  }

  /** Every row of a parsed log has exactly the six canonical columns, and
      there is one row per data line. */
  lemma ParsedRowsAreCanonical(fs: FileSystem, readCsv: Bytes -> Result<CsvFile>, path: string)
    requires ParseTrackAddictGps(fs, readCsv, path).Ok?
    ensures var rows := ParseTrackAddictGps(fs, readCsv, path).value;
      && |rows| == |Filter(readCsv(fs.files[path]).value.lines, IsData)|
      && forall i :: 0 <= i < |rows| ==> rows[i].Keys == CanonicalColumns
  {
  }

  /** `parse_gps_file(gps_file_path, video_type)`: only TrackAddict logs are
      supported; every other variant, GoPro included, is a ValueError. */
  function ParseGpsFile(fs: FileSystem, readCsv: Bytes -> Result<CsvFile>, path: string, videoType: VideoType): (r: Result<seq<Record>>)
    ensures videoType != TrackAddict ==> r.Err? && r.error.InvalidValue?
    ensures videoType == TrackAddict ==> r == ParseTrackAddictGps(fs, readCsv, path)
  {
    if videoType == TrackAddict then ParseTrackAddictGps(fs, readCsv, path)
    else Err(InvalidValue("Unsupported video type"))
  }
}
