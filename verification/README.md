# Dash-cam video search: ingestion and search UI model

This project models, in Dafny, how a tool for searching dash-cam video
ingests a video and how its search UI behaves. Ingestion is the path that
`process_video` drives:

- extract the audio track with ffmpeg;
- read the container metadata with ffprobe;
- transcribe the audio with Whisper and normalise the words;
- grab one thumbnail per transcribed segment;
- parse the TrackAddict GPS log;
- checksum both files;
- save everything through `Repository.save_data`. That call reuses an
  existing video or audio row with the same checksum and otherwise adds a new one.

The UI side models the Dash callbacks in `dash_no_video.py` and `dash.py`:

- the search form and its result cards;
- the "which result was clicked last" selection;
- the thumbnail carousel;
- the video-source URL with its media fragment;
- the GPS map;
- the `highlight` helper, which splits a segment text around a case-insensitive match.

Both front ends read one global repository, set by `build_app`. Which
repository each callback's rows come from:

- The search callbacks take the rows of `query_text_segments` as a
  parameter. The SQL repository produces them from a query file that is not
  part of this model.
- Over the mock repository the search callbacks fail on any match, because
  its rows have a `text` column where the card reads `segment`.
  `Ui.SearchOnMock` states this.
- The click callbacks (video source, carousel, map) run over the mock
  repository. The SQL repository's `query_video_path_by_id` passes a
  keyword `get_video` does not take, so it always raises.

External programs are function parameters of the model:

- ffmpeg, ffprobe, Whisper and md5;
- the CSV reader, float parsing and base64.

The file system is a value (`FileSystem`: a map from path to bytes plus a
set of directories). The database is a value (`Repository.Store`: one
sequence of rows per table, with ids 1, 2, … in insertion order). Every
exception the code raises becomes an `Err` of `Wrappers.Result`.

Modules, one per source file:

- `Wrappers`, `Values`, `Seqs` and `Text` are shared vocabulary:
  - `Result` and `Option`;
  - byte strings, scalars, JSON and records;
  - filtering and concatenation;
  - Python's `str.rstrip`, `splitlines`, `lower`, `str(int)` and `int(str)`.
- `JobConfig` models `job_config.py`.
- `Utils` models `src/backend/utils.py`.
- `VideoProcessing` models `src/backend/video_processing.py`.
- `AudioProcessing` models `audio_processing.py`.
- `GpsProcessing` models `gps_processing.py`.
- `Repository` models `src/backend/repository.py`.
- `EndToEnd` models `src/backend/end_to_end.py`.
- `MockRepo` models `src/test/backend/mock_repo.py`.
- `Ui` holds what both front ends share, plus dash.py's own cards and search callback:
  - click selection and the clicked card's GPS window;
  - the `re.split` used by `highlight`;
  - the odd-index highlight of dash.py.
- `DashNoVideo` models `src/frontend/dash_no_video.py`.
- `DashVideo` models `src/frontend/dash.py`.

## Model

| member | source | states |
|---|---|---|
| JobConfig.NewWhisperConfig | job_config.py:33-58 | an empty download location raises FileNotFoundError and changes nothing; any other location exists afterwards (created only when missing, files untouched); construction succeeds iff the location is non-empty and the model name is one of the whitelisted Whisper models, and a bad name is a ValueError |
| JobConfig.WhisperConfigValidation | job_config.py:52-58 | acceptance of a configuration does not depend on the file system, and constructing it again on the file system it left changes nothing |
| JobConfig.DefaultWhisperConfig | job_config.py:33-58 | the defaults are model "tiny.en" downloading to "." with no extra options, and "." exists afterwards |
| JobConfig.InvalidNameRejectedAfterDirectoryCreated | job_config.py:52-58 | an unknown model name is rejected; for a non-empty location it is a ValueError raised only after the download directory has been created |
| JobConfig.NewEndToEndConfig | job_config.py:62-65 | the thumbnail width defaults to 300 and the other two fields are stored as given |
| Utils.GetChecksum | src/backend/utils.py:133-156 | a missing path raises FileNotFoundError; otherwise the checksum is the md5 hex digest of the file's bytes, and it succeeds exactly when the path is a file |
| Utils.ChecksumDependsOnlyOnContent | src/backend/utils.py:133-156 | two files with the same bytes get the same checksum, whatever their paths or file systems |
| Utils.WrittenLines | src/backend/utils.py:54-64 | the lines a write emits contain no line break and never end in whitespace |
| Utils.Write | src/backend/utils.py:54-64 | a write appends one log record per line of the right-stripped buffer, at the logger's level, and keeps the earlier records |
| Utils.WriteEmitsNothingIffBlank | src/backend/utils.py:54-64 | a write emits no record iff the buffer is all whitespace |
| Utils.WriteRoundTrip | src/backend/utils.py:54-64 | for a buffer broken only by '\n' with no trailing blanks on its lines, joining the emitted lines with '\n' gives back the right-stripped buffer |
| Utils.Flush | src/backend/utils.py:66-72 | flushing emits nothing and changes nothing |
| Utils.WithRedirectedStreams | src/backend/utils.py:77-88 | after the body runs, the original streams are restored, whatever the body wrote |
| VideoProcessing.ExtractAudio | src/backend/video_processing.py:37-76 | a missing video raises FileNotFoundError; an existing audio file without overwrite is left alone and ffmpeg is not run; with overwrite, an existing audio file makes ffmpeg fail, because it runs without overwrite_output; otherwise ffmpeg runs once and writes the audio path, and no other file changes |
| VideoProcessing.ExtractAudioOverwriteRefused | src/backend/video_processing.py:62-72 | asking to overwrite an existing audio file is an ffmpeg failure and leaves the old file |
| VideoProcessing.ExtractAudioIsIdempotent | src/backend/video_processing.py:57-64 | once extraction has succeeded, running it again without overwrite runs no ffmpeg and changes nothing |
| VideoProcessing.GetMetadata | src/backend/video_processing.py:79-99 | a missing video raises FileNotFoundError; otherwise the result is ffprobe's JSON for the file's bytes |
| VideoProcessing.GetThumbnail | src/backend/video_processing.py:102-126 | the frame is produced iff the video is a file; ffmpeg's failure is the only error |
| VideoProcessing.ThumbnailDependsOnlyOnInputs | src/backend/video_processing.py:102-126 | equal video bytes, width and time give the same thumbnail |
| VideoProcessing.SaveClip | src/backend/video_processing.py:143-185 | the clip is written iff the video is a file, the output is not a directory and the end is after the start (ffmpeg aborts otherwise); it writes exactly the output path, and every failure is ffmpeg's |
| VideoProcessing.SaveClipAcceptsInvalidRange | src/backend/video_processing.py:168-178 | a half-second clip (start 0.0, end 0.5) is written although the documented check rejects it, because the errors are built but not raised |
| VideoProcessing.SaveClipChecked | src/backend/video_processing.py:143-185 | the clip is written only for 0 <= start <= end with end - start >= 1; a bad range is a ValueError and a missing video a FileNotFoundError |
| VideoProcessing.DurationOf | src/backend/video_processing.py:204 | a missing "format" or "duration" gives -1.0; a non-dict metadata or "format" is an AttributeError; a number duration is itself, a boolean is 1.0 or 0.0, a string is float's parse of it or a ValueError when it does not parse, and null, a list or an object is a TypeError |
| VideoProcessing.GetVideoLength | src/backend/video_processing.py:188-204 | a missing file reaches ffprobe, which fails; an existing file's length is the duration from its metadata |
| VideoProcessing.GetVideoLengthChecked | src/backend/video_processing.py:188-204 | a missing file is a FileNotFoundError; an existing file behaves as GetVideoLength |
| VideoProcessing.VideoLengthMissingFileNotReported | src/backend/video_processing.py:200-201 | for a missing file the reported error is ffprobe's failure, not FileNotFoundError |
| AudioProcessing.DeletedMatchesTable | audio_processing.py:109-111 | the translation table deletes exactly the punctuation other than the apostrophe, plus whitespace |
| AudioProcessing.WhitespaceIsRange | audio_processing.py:109-111 | `string.whitespace` is the space and the characters '\t' to '\r' |
| AudioProcessing.DeletedPunctuationListed | audio_processing.py:109-111 | every deleted character other than whitespace is in `string.punctuation` and is not the apostrophe |
| AudioProcessing.PunctuationDeleted | audio_processing.py:109-111 | every character of `string.punctuation` except the apostrophe is deleted |
| AudioProcessing.Translate | audio_processing.py:109-126 | a normalised word is no longer than the original and holds no deleted character |
| AudioProcessing.TranslateConcat | audio_processing.py:109-126 | translating a concatenation is the concatenation of the translations |
| AudioProcessing.TranslateKeepsOthers | audio_processing.py:109-126 | every kept character occurs in the result exactly as often as in the word |
| AudioProcessing.TranslateKeepsClean | audio_processing.py:109-126 | a word with nothing to delete is unchanged |
| AudioProcessing.TranslateIdempotent | audio_processing.py:109-126 | normalising twice is normalising once |
| AudioProcessing.TranslateAt | audio_processing.py:109-126 | translation works one character at a time: each is kept or dropped on its own |
| AudioProcessing.TranslateExampleContraction | audio_processing.py:109-126 | " don't, " normalises to "don't": the apostrophe survives |
| AudioProcessing.TranslateExamplePunctuation | audio_processing.py:109-126 | " the!! " normalises to "the" |
| AudioProcessing.TranslateExampleSymbols | audio_processing.py:109-126 | a word of punctuation only, "?!", normalises to the empty string |
| AudioProcessing.NormaliseWord | audio_processing.py:113-126 | a word record keeps its keys and other values, and only its "word" text is translated; a non-string word is an error |
| AudioProcessing.NormaliseWords | audio_processing.py:113-126 | every word of a segment is normalised in order, and normalisation succeeds iff it succeeds for each word |
| AudioProcessing.NormaliseSegment | audio_processing.py:101-126 | a segment keeps exactly the kept keys it has, with their values, plus its normalised words; a segment without "words" is a KeyError |
| AudioProcessing.NormaliseSegments | audio_processing.py:113-126 | segments are normalised one by one, in order, and all must succeed |
| AudioProcessing.NormalisedWordsAreClean | audio_processing.py:113-126 | no stored word holds a deleted character |
| AudioProcessing.TranscribeAudioWhisper | audio_processing.py:37-152 | a missing Whisper package is an ImportError; it is checked before the audio file, whose absence is a FileNotFoundError; when the package is installed and the audio is a file, the result is exactly the engine's segments normalised |
| AudioProcessing.TranscribeAudio | audio_processing.py:155-163 | only a Whisper configuration is supported, and a missing one is a ValueError |
| GpsProcessing.ProjectRow | gps_processing.py:74-103 | a GPS row has exactly the canonical columns, each read from its TrackAddict source column |
| GpsProcessing.DataRows | gps_processing.py:74-93 | the rows are the data lines, with comment lines skipped, projected in order |
| GpsProcessing.ParseTrackAddictGps | gps_processing.py:35-103 | a missing file is a FileNotFoundError; success means the CSV parsed and has every source column, and the rows are its data lines projected |
| GpsProcessing.ParsedRowsAreCanonical | gps_processing.py:94-103 | every parsed row has exactly the canonical column names |
| GpsProcessing.ParseGpsFile | gps_processing.py:106-116 | only TrackAddict logs are supported; any other type is a ValueError |
| EndToEnd.GetFname | src/backend/end_to_end.py:113-114 | the file name is the longest suffix without '/', the part after the last '/' |
| EndToEnd.FnameOfJoinedPath | src/backend/end_to_end.py:113-114 | the file name of dir + "/" + name is name |
| EndToEnd.WithThumbnail | src/backend/end_to_end.py:90-97 | a segment gains a "thumbnail" field and keeps all its other fields |
| EndToEnd.AttachThumbnails | src/backend/end_to_end.py:90-97 | every segment gets the thumbnail at its own start time, in order; a segment without "start" is a KeyError, and ffmpeg's failure is the only other error |
| EndToEnd.Ingest | src/backend/end_to_end.py:39-142 | the work after extraction: on success the result is `save_data` of the payload assembled from the inputs (file names via get_fname, MD5s, dumped probe and configuration, the engine's segments one for one with the thumbnail at each start, the parsed GPS rows in order), and whenever that payload can be assembled the outcome is exactly that save; the store stays well formed and keeps every earlier row |
| EndToEnd.ThumbnailsStored | src/backend/end_to_end.py:90-97 | segments with thumbnails attached are saved with those thumbnails |
| EndToEnd.AssembledPayloadUnique | src/backend/end_to_end.py:90-142 | the inputs determine the payload handed to save_data |
| EndToEnd.AttachThumbnailsThumbnailed | src/backend/end_to_end.py:90-97 | on a readable video with a start in every segment, the thumbnail loop succeeds and thumbnails each segment at its own start |
| EndToEnd.PayloadAssembles | src/backend/end_to_end.py:85-142 | when transcription, the thumbnail keys and GPS parsing all succeed, the payload exists |
| EndToEnd.ProcessVideo | src/backend/end_to_end.py:39-142 | a failed step leaves the store unchanged; a missing video and an unsupported GPS type raise; on success the store is `save_data` of the payload assembled from the files left after extraction, and after a successful extraction the run succeeds iff that save does; existing parents are reused |
| EndToEnd.MissingConfigKeepsExtractedAudio | src/backend/end_to_end.py:70-88 | without a transcription config the run raises, but the audio extracted before the failure stays on disk |
| EndToEnd.ReprocessingReusesParents | src/backend/end_to_end.py:39-142 | processing the same video twice adds no second video or audio row |
| Repository.OneOrNone | src/backend/repository.py:133 | no row gives None, one row gives that row, and more than one is MultipleResultsFound |
| Repository.AtMostOneMatch | src/backend/repository.py:133 | when no two rows match, at most one row is selected |
| Repository.SelectOne | src/backend/repository.py:127-133 | a selected row is in the table, matches, and is the only match; None means no row matches; distinct keys guarantee success |
| Repository.CheckSelectors | src/backend/repository.py:122-131 | exactly one selector must be given, else ValueError; a falsy id (0) or empty checksum builds no statement, which is an unbound-variable error |
| Repository.GetVideo | src/backend/repository.py:104-133 | selector errors come first; a found video matches the selector, None means no video does, and a well-formed store never finds two |
| Repository.GetAudio | src/backend/repository.py:135-164 | the same as GetVideo, for audio rows |
| Repository.ResolveVideo | src/backend/repository.py:189-193 | an empty checksum fails; a stored checksum reuses its row and adds nothing; otherwise one new row with the next id is added |
| Repository.ResolveAudio | src/backend/repository.py:195-199 | the same for audio; a new audio row links to the resolved video |
| Repository.TextSegmentOf | src/backend/repository.py:206-213 | a text segment row is built iff text, start, end, no_speech_prob and thumbnail are present, and it copies them |
| Repository.WordSegmentOf | src/backend/repository.py:216-222 | a word row is built iff word, start, end and probability are present, and it copies them |
| Repository.BuildWords | src/backend/repository.py:215-224 | one word row per word, in order, with consecutive ids, all linked to their text segment |
| Repository.WordOffsetPrefix | src/backend/repository.py:205-224 | the words of the first n segments are numbered the same whether or not later segments follow |
| Repository.WordOffsetGrows | src/backend/repository.py:205-224 | the word ids of one segment come before those of any later segment |
| Repository.SegmentRowsExtend | src/backend/repository.py:205-224 | adding the next segment's row keeps every earlier row in place |
| Repository.WordRowsExtend | src/backend/repository.py:215-224 | adding the next segment's words keeps every earlier word row in place |
| Repository.WordRowKept | src/backend/repository.py:215-224 | an earlier word row is unchanged when the next segment's words are appended |
| Repository.WordLinksExtend | src/backend/repository.py:215-224 | every word row still points at one of the new text segments |
| Repository.BuildSegments | src/backend/repository.py:203-224 | rows are built iff every segment is complete; there is one text row per segment and one word row per word, in order, each word linked to its segment |
| Repository.BuildGps | src/backend/repository.py:226-228 | one GPS row per parsed record, in order, all linked to the resolved video |
| Repository.Committed | src/backend/repository.py:230-237 | the commit only appends: every earlier row stays |
| Repository.SaveData | src/backend/repository.py:166-238 | save succeeds iff both checksums are non-empty and every segment and word carries the keys read from it; the store stays well formed, keeps its rows, resolves the parents, and adds one transcription, the segment and word rows, and the GPS rows |
| Repository.SaveDataSound | src/backend/repository.py:166-238 | the committed store meets every clause of the save contract |
| Repository.SaveDataParents | src/backend/repository.py:189-199 | the resolved ids point at rows with the payload's checksums |
| Repository.SaveDataChildren | src/backend/repository.py:201-228 | the transcription, segments, words and GPS rows are those the payload describes |
| Repository.VideosStayWellFormed | src/backend/repository.py:189-193 | video ids stay consecutive and checksums stay distinct |
| Repository.AudiosStayWellFormed | src/backend/repository.py:195-199 | audio ids stay consecutive, checksums distinct, and every audio points at a stored video |
| Repository.ChildrenStayWellFormed | src/backend/repository.py:201-228 | transcriptions, segments, words and GPS rows all point at stored parents |
| Repository.SavedParentsStored | src/backend/repository.py:166-238 | after a save, the video and audio checksums are both stored |
| Repository.SavedVideoIsRetrievable | src/backend/repository.py:104-133 | after a save, get_video by that checksum finds that video |
| Repository.ReingestionReusesParents | src/backend/repository.py:189-199 | saving a second payload with the same checksums adds no video or audio row |
| Repository.FirstIngestion | src/backend/repository.py:166-238 | the first save into an empty store leaves one video, one audio, one transcription, one commit and every GPS row of the payload |
| Repository.TwoIngestionsFromEmpty | src/backend/repository.py:166-238 | two saves of the same files into an empty store both succeed and leave one video, one audio, two transcriptions, two commits and the GPS rows of both |
| MockRepo.NewMockRepository | src/test/backend/mock_repo.py:34-61 | with no frames the default tables are used; passing any frame hits the ambiguous truth value of a DataFrame and raises ValueError |
| MockRepo.MockGetVideo | src/test/backend/mock_repo.py:63-81 | get_video always fails: the mock has no `df` attribute |
| MockRepo.QueryTextSegments | src/test/backend/mock_repo.py:83-93 | a text row is returned iff its text contains the query, ignoring case |
| MockRepo.QueryIgnoresCase | src/test/backend/mock_repo.py:92-93 | the query's case does not matter |
| MockRepo.QueryGpsCoords | src/test/backend/mock_repo.py:106-125 | a GPS row is returned iff it belongs to the video and its time lies in the closed window |
| MockRepo.WiderWindowKeepsRows | src/test/backend/mock_repo.py:119-125 | widening the window keeps every row the narrower window returned |
| MockRepo.QueryVideoPathById | src/test/backend/mock_repo.py:95-104 | a path is found iff some video has the id, and a missing id is an IndexError |
| MockRepo.DefaultVideosResolve | src/test/backend/mock_repo.py:127-144 | the two default videos have ids 1 and 2 and distinct checksums; id 2 resolves to its archive.org URL and id 3 is an IndexError |
| MockRepo.DefaultGpsWindow | src/test/backend/mock_repo.py:185-226 | the window 100..104 of video 1 returns exactly the first two default points |
| MockRepo.OccursLowered | src/test/backend/mock_repo.py:92 | a case-insensitive match at a position is a match in the lower-cased text |
| MockRepo.BooksRowsMatch | src/test/backend/mock_repo.py:146-183 | both "books" sentences of the default text match "books" |
| MockRepo.NoLetterK | src/test/backend/mock_repo.py:146-183 | the "bombs" sentences contain no 'k' |
| MockRepo.BombsRowsDoNotMatch | src/test/backend/mock_repo.py:146-183 | the "bombs" sentences do not match "books" |
| MockRepo.DefaultBooksQuery | src/test/backend/mock_repo.py:146-183 | querying the default texts for "books" returns exactly the two "books" rows |
| Ui.NormaliseClicks | src/frontend/dash_no_video.py:330-332 | None timestamps become 0, and "any click" holds iff some timestamp is a non-zero number |
| Ui.ArgMaxFirst | src/frontend/dash_no_video.py:339 | the index of the first largest timestamp |
| Ui.MostRecentUnique | src/frontend/dash_no_video.py:339 | at most one card is the first most recently clicked |
| Ui.SelectResult | src/frontend/dash_no_video.py:330-341 | no click selects nothing; otherwise the result is the id at the first most recent click, and the only error is an index past the end of the ids |
| Ui.OffsetOf | src/frontend/dash_no_video.py:208-212 | the card offset is timedelta.seconds: whole seconds modulo a day, 0 for a zero start |
| Ui.ImgSrc | src/frontend/dash_no_video.py:200-205 | a present, non-empty thumbnail becomes a base64 PNG data URL, and anything else the placeholder image |
| Ui.ImgSrcPlaceholderIffMissing | src/frontend/dash_no_video.py:200-205 | the placeholder is shown iff the thumbnail is missing or empty |
| Ui.WindowAround | src/frontend/dash.py:476-479 | the GPS points queried for a card: exactly the mock's rows of its video within 5 seconds of its offset |
| Ui.ClickedWindow | src/frontend/dash.py:462-479 | nothing until a card is clicked; then the GPS window of the most recently clicked card; the only error is an index past the end of the ids |
| Ui.SplitFrom | src/frontend/dash_no_video.py:494 | from a scan position with no match before it: the pieces have odd count and spell the text; every odd piece is a case-insensitive match of `\b<search>` at the position where it stands, and no match starts inside an even piece |
| Ui.SplitMatchStep | src/frontend/dash_no_video.py:494 | at a match, the unmatched text before it and the match, put in front of the split of the text after the match, give the split from the earlier position |
| Ui.SplitEnd | src/frontend/dash_no_video.py:494 | with too little text left for a match, the rest of the text is one unmatched piece |
| Ui.RegexSplit | src/frontend/dash.py:553 | `re.split` with one capturing group: the pieces spell the text, every odd piece is a match at its own position, and no match starts inside an even piece |
| Ui.RegexSplitCapturesEveryMatch | src/frontend/dash.py:553 | every match position of the pattern lies inside an odd (captured) piece |
| Ui.PieceTexts | src/frontend/dash.py:553-556 | the texts of the pieces, in order |
| Ui.CardFor | src/frontend/dash.py:210-264 | a card carries the row's video id and offset and the given body, and shows the placeholder iff the thumbnail is missing |
| Ui.ResultCard | src/frontend/dash.py:197-267 | dash.py's card: the id of the row, the placeholder iff the thumbnail is missing, and a body that is the split of the segment with exactly the odd pieces badged |
| Ui.HighlightMatches | src/frontend/dash.py:543-556 | the pieces are the split's pieces; exactly the odd ones are badges; every badge is a match where it stands, and no match starts inside plain text |
| Ui.SearchFormSubmitted | src/frontend/dash.py:276-305 | "No text found" iff there are no rows; otherwise one card per row in order, with that row's video id and offset, body pieces that are the split of the segment text with exactly the odd ones badged, and the placeholder image iff the thumbnail is missing |
| Ui.SearchOnMock | src/frontend/dash.py:296-305 | over the mock, a query matching no text row shows "No text found", and any match raises KeyError('segment'), because the mock's rows have `text` where the card reads `segment` |
| Ui.ClickSelectsCard | src/frontend/dash.py:260-264 | clicking a card last selects that card's video id and offset |
| Ui.ClickedCardWindow | src/frontend/dash.py:462-479 | clicking a card makes the map query exactly the clicked row's video within 5 seconds of its offset |
| DashNoVideo.Linspace | src/frontend/dash_no_video.py:354 | num evenly spaced values from start to stop, both included |
| DashNoVideo.LinspaceEvenAndBounded | src/frontend/dash_no_video.py:354 | neighbouring frame times are one step apart and all lie between start and stop |
| DashNoVideo.FrameTimes | src/frontend/dash_no_video.py:350-354 | 11 frame times from max(offset - 5, 0) to min(offset + 5, length) |
| DashNoVideo.FrameTimesWithinVideo | src/frontend/dash_no_video.py:350-354 | when 0 <= length, -5 <= offset and offset - 5 <= length, every frame time lies within [0, length] |
| DashNoVideo.Frames | src/frontend/dash_no_video.py:355-366 | one PNG data URL per frame time, each a width-0 frame of the video at that time, or ffmpeg's failure |
| DashNoVideo.Slides | src/frontend/dash_no_video.py:369-370 | carousel items carry the frames in order; item i's key is a canonical numeral (digits, no leading zero) whose value is i + 1, so it is exactly `str(i + 1)` by Text.CanonicalNatIsNatToString |
| DashNoVideo.SlideKeysDistinct | src/frontend/dash_no_video.py:369-370 | no two carousel items share a key |
| DashNoVideo.ClickedCarousel | src/frontend/dash_no_video.py:340-373 | a carousel of 11 PNG slides centred on slide 6; the video path resolves to a stored file, its length is read as get_video_length reads it, and slide i is the width-0 frame at the i-th frame time; whenever the path and the length are both found, the carousel is shown; the errors are those of the path lookup and the length lookup |
| DashNoVideo.Thumbnails | src/frontend/dash_no_video.py:315-373 | the placeholder slide iff nothing was clicked; otherwise, unless the click index is past the result ids, exactly ClickedCarousel of the most recently clicked result id, an 11-slide carousel whose path resolves to a stored file, with errors from the path lookup and get_video_length |
| DashNoVideo.ClickedCardCarousel | src/frontend/dash_no_video.py:315-373 | clicking a card shows ClickedCarousel of that card's own video id and offset |
| DashNoVideo.Highlight | src/frontend/dash_no_video.py:484-504 | the pieces are the split's pieces, and a piece is a badge iff it equals the search ignoring case |
| DashNoVideo.ResultCard | src/frontend/dash_no_video.py:187-261 | this front end's card: the id of the row, the placeholder iff the thumbnail is missing, and a body that is the split of the segment with a badge on every piece equal to the search |
| DashNoVideo.SearchFormSubmitted | src/frontend/dash_no_video.py:270-298 | "No text found" iff there are no rows; otherwise one card per row in order, with the row's id, body pieces spelling the segment with a badge iff the piece equals the search, and the placeholder iff the thumbnail is missing |
| DashNoVideo.SearchFormsSameIds | src/frontend/dash_no_video.py:187-298 | both front ends give the cards of a search the same ids in the same order |
| DashNoVideo.SearchFormsAgree | src/frontend/dash_no_video.py:187-298 | the two front ends show the same cards for the same rows, differing only in badges, and every badge of dash.py's card is a badge here |
| DashNoVideo.MapCallback | src/frontend/dash_no_video.py:387-481 | over the mock: the default map iff nothing was clicked; "GPS Missing" when the clicked card's window is empty; otherwise KeyError('longitude'), never a map |
| DashNoVideo.ClickedCardMap | src/frontend/dash_no_video.py:416-428 | clicking a card gives "GPS Missing" iff its row's window is empty, and KeyError('longitude') otherwise |
| DashNoVideo.HighlightBadgesEveryMatch | src/frontend/dash_no_video.py:484-504 | every piece the odd-index rule badges is badged here too |
| DashNoVideo.SplitNana | src/frontend/dash_no_video.py:494 | "nana" split on "na" at word starts is "", "na", "na": the second "na" is not a match |
| DashNoVideo.HighlightBadgesUnmatchedText | src/frontend/dash_no_video.py:484-504 | highlighting "na" in "nana" badges both "na" pieces, the unmatched one too |
| DashNoVideo.HighlightMatchesLeavesUnmatchedText | src/frontend/dash.py:553-556 | the odd-index rule badges only the matched "na" |
| DashVideo.IndexOf | src/frontend/dash.py:365 | the first position of a character, or none if it does not occur |
| DashVideo.ParseFragment | src/frontend/dash.py:365 | a parsed fragment starts with "#t=" and contains a comma |
| DashVideo.FirstCommaAfter | src/frontend/dash.py:365 | the first comma after a comma-free prefix is at the prefix's end |
| DashVideo.ParseFragmentOf | src/frontend/dash.py:365 | "#t=a,b" parses back to the two integers a and b |
| DashVideo.TimeFragment | src/frontend/dash.py:365 | the media fragment starts with "#t=", reads back as the interval offset - 2 .. offset + 2, and writes both bounds as `str` does (CanonicalFragment) |
| DashVideo.CanonicalFragmentOf | src/frontend/dash.py:365 | "#t=a,b" with canonical integer numerals a and b is a canonical fragment |
| DashVideo.CanonicalFragmentParts | src/frontend/dash.py:365 | a canonical fragment is "#t=" + a + "," + b where a and b are `str` of the integers it reads back as |
| DashVideo.CanonicalFragmentUnique | src/frontend/dash.py:365 | two canonical fragments that read back as the same interval are equal, so TimeFragment(offset) is the only one for its window |
| DashVideo.VideoSrc | src/frontend/dash.py:319-365 | "" iff nothing was clicked; otherwise "./" + the clicked video's path + the fragment around its offset |
| DashVideo.ClickedCardVideo | src/frontend/dash.py:319-365 | a click whose card has a known video path plays exactly "./" + that path + the fragment around that card's offset |
| DashVideo.Thumbnails | src/frontend/dash.py:379-405 | "Thumnails not found." iff nothing was clicked; a click always fails, because the mock has no query_video_path |
| DashVideo.MapCallback | src/frontend/dash.py:447-540 | over the mock: the default map iff nothing was clicked; "GPS Missing" for an empty window; a map only under pandas before 2.0, holding exactly the clicked card's window; under pandas 2 the `to_dict("rows")` call is a ValueError |
| DashVideo.ClickedCardMap | src/frontend/dash.py:462-486 | clicking a card (pandas before 2.0) maps exactly the points of that row's window, or shows "GPS Missing" when there are none |
| Text.SplitLinesJoin | src/backend/utils.py:54-64 | for a string broken only by '\n' that does not end in one, splitlines then joining with '\n' is the identity |
| Text.RStrip | src/backend/utils.py:64 | `str.rstrip()`: the longest prefix that does not end in whitespace; only whitespace is removed |
| Text.SplitLines | src/backend/utils.py:64 | `str.splitlines()`: no lines for the empty string, and no line contains a line break |
| Text.NatToString | src/frontend/dash_no_video.py:369-370 | `str(n)`: a canonical numeral (digits only, no leading zero), and "0" only for zero |
| Text.IntToString | src/frontend/dash.py:365 | `str(i)`: a canonical numeral for i >= 0; for a negative i, a minus sign followed by a canonical numeral that is not "0" |
| Text.ParseNatPositive | src/frontend/dash_no_video.py:369-370 | a digit string without a leading zero has a positive value |
| Text.CanonicalNatIsNatToString | src/frontend/dash_no_video.py:369-370 | a canonical numeral is `str` of its value: `str` writes each natural number in exactly one way |
| Text.CanonicalIntIsIntToString | src/frontend/dash.py:365 | a canonical signed numeral is `str` of its value |
| Text.LowerIdempotent | src/test/backend/mock_repo.py:92 | lower-casing twice is lower-casing once |
| Text.IntToStringRoundTrip | src/frontend/dash.py:365 | int(str(i)) == i |
| Seqs.Filter | src/test/backend/mock_repo.py:92-93 | a row mask keeps exactly the rows that satisfy it, in order |
| Seqs.FilterPrefix | src/test/backend/mock_repo.py:92-93 | a mask that holds on a prefix and fails on the rest keeps exactly that prefix |
| Seqs.FilterConcat | src/test/backend/mock_repo.py:92-93 | masking a concatenation masks each part |

## Left out

- External programs are parameters:
  - ffmpeg (audio extraction, frames, clips), ffprobe and Whisper's engine;
  - md5, pandas' CSV reader, float parsing and base64.
  
  Their outputs are whatever those functions return. The tools are total:
  they never fail on an existing regular file. `ffmpeg.probe` and
  `ffmpeg.run` raise `ffmpeg.Error` on a corrupt or unreadable video
  (video_processing.py:99 and 121-125), and that failure is not modelled.
  So VideoProcessing.GetMetadata and VideoProcessing.GetThumbnail promise
  success for every regular file, DashNoVideo.ClickedCarousel takes the
  frames of a readable video as always produced, and
  EndToEnd.ProcessVideo's "Normal iff the save succeeds" holds only for
  videos the tools can read. Logging, `LogTime` timing and the timing print
  in the thumbnail callback are not modelled.
- DashNoVideo.ClickedCarousel: the model has one notion of a readable
  video, the `FileSystem` map, where the source has two. `os.path.exists`
  looks at the local disk, while ffprobe and ffmpeg also open URLs over the
  network. The mock's only video paths are archive.org URLs
  (src/test/backend/mock_repo.py:129-130). `os.path.exists` is False for
  them, but `get_video_length` does not raise (video_processing.py:200-201),
  so ffprobe and ffmpeg fetch them. To model the default mock, read
  `fs.files` as "what the tools can open", with each URL's entry holding
  the bytes the tools download. Under that reading VideoProcessing.GetVideoLength,
  VideoProcessing.GetThumbnail and DashNoVideo.ClickedCarousel show the
  carousel as Python does. Over a file system without URL keys, the click
  is `Err(ToolFailure("ffprobe"))` instead. Network access, its failures
  and its time-outs are not modelled.
- VideoProcessing.GetVideoLengthChecked: tests the same `FileSystem` map,
  so under that reading it accepts a URL, where a version raising on
  `os.path.exists` would refuse it.
- Floating point: times and durations are exact reals. `np.linspace` uses
  the exact formula. float32/64 rounding is not modelled.
- Ui.OffsetOf: models only the `timedelta.seconds` value stored in the card id; the
  string `str(td)` shown on the card is not modelled. `timedelta` rounds its
  argument to whole microseconds, and the model floors the exact value
  instead: a start of 1.9999999 gives offset 2 in Python and 1 here.
- Ui.RegexSplit: models the pattern `(\b<search>)` only for a literal search.
  The search must be non-empty, with no regular-expression metacharacters.
  Case folding and `\b` are ASCII-only. Python's `\b` treats every Unicode
  letter as a word character and IGNORECASE folds Unicode case, so the
  results differ for non-ASCII text. An example is "éna" with search "na":
  Python finds no match, while the model matches at index 1.
  Ui.HighlightMatches, DashNoVideo.Highlight, both SearchFormSubmitted
  callbacks, their ResultCards and Ui.ClickSelectsCard therefore require
  `LiteralSearch`. A search that Python would read as a pattern, or would
  reject, is outside the model.
- MockRepo.QueryTextSegments: treats the query as a literal substring.
  pandas' `str.contains` reads it as a regular expression. The two agree for
  queries without metacharacters. `case=False` folds Unicode case, whereas
  the model folds ASCII letters only.
- The SQL repository's `query_*` methods, `get_sql`, `drop_and_create` and
  `execute_*` are not part of this model, and neither are the SQL files they
  read.
- Repository.SaveData: requires `Repository.WellFormed` of the store it is given.
  This is the database's own invariant (unique checksums, consecutive ids,
  valid foreign keys). The SQLAlchemy session is not modelled. A save can
  fail partway, for example with a KeyError while building the segments
  (repository.py:205-222) after `get_video`/`get_audio` returned stored
  rows. The new Audio and Transcription objects are then already attached
  to those rows, and the backref cascade puts them in the shared session.
  The next `save_data`'s autoflush or commit writes those orphans too. So
  "an Err leaves the store unchanged, and the next save adds exactly its own
  rows" holds only after a history without failed saves. Session rollback
  and the pending objects after a failed commit are not modelled either.
- AudioProcessing.NormaliseSegment: the first `text_segments` mapping at
  audio_processing.py:101-105 is built and then overwritten; only the second
  is modelled.
- DashVideo.Thumbnails: the OpenCV frame grabbing after `query_video_path`
  is not modelled, because that call always fails on the mock first.
- DashNoVideo.MapCallback and DashVideo.MapCallback model the outcome of
  the map callbacks over the mock repository, not the leaflet components
  they build. dash_no_video.py asks `dicts_to_geojson` for the keys
  `longitude` and `latitude`, which the mock's rows lack, so any non-empty
  window raises KeyError('longitude'). dash.py's `to_dict("rows")` is read
  as "records" by pandas before 2.0 and raises ValueError under pandas 2.
  The pandas version is the `legacyPandas` parameter.
- JobConfig.NewWhisperConfig: adds only the download directory itself.
  `os.makedirs` also creates missing parent directories, and it fails when
  a prefix of the path is a regular file. The model does not track parent
  directories.
- VideoProcessing.ExtractAudio: with an existing output and no
  `overwrite_output`, ffmpeg asks for confirmation when its input is a
  terminal. The model takes the non-interactive case, in which ffmpeg
  refuses and fails.
- Dash layout, styles, colour bars, tooltips and GeoJSON encoding are not
  modelled. Neither are `src/frontend/dash_v2.py` and the older root-level
  duplicates of the backend modules.

## Findings

| source | as written | input that shows it | evidently intended | confidence | as-written member | corrected member |
|---|---|---|---|---|---|---|
| src/backend/video_processing.py:168-178 | the ValueErrors for a bad clip range are constructed but never raised | start = 0.0, end = 0.5 on an existing video: the half-second clip is written | raise on start < 0, end < start, or a clip shorter than one second | not executed | VideoProcessing.SaveClipAcceptsInvalidRange | VideoProcessing.SaveClipChecked |
| src/backend/video_processing.py:200-201 | the FileNotFoundError for a missing video is constructed but never raised | a path not in the file system: ffprobe is run and fails | raise FileNotFoundError before running ffprobe | not executed | VideoProcessing.VideoLengthMissingFileNotReported | VideoProcessing.GetVideoLengthChecked |
| src/frontend/dash_no_video.py:484-504 | every piece equal to the search, ignoring case, becomes a badge, including text that `\b` did not match | text "nana", search "na": the trailing "na" follows a word character and is not a match, yet it is badged | badge only the matched (odd-index) pieces, as dash.py:553-556 and the commented-out code at dash_no_video.py:507-511 do | not executed | DashNoVideo.HighlightBadgesUnmatchedText | Ui.HighlightMatches |
