/** The transcription adapter: the Whisper call is a function parameter; what
    is modelled is the normalisation of its output and the dispatch on the
    configuration type. */
module AudioProcessing {

  import opened Wrappers
  import opened Values
  import opened JobConfig

  /** Python's `string.punctuation`. */
  const Punctuation: string := "!\"#$%&'()*+,-./:;<=>?@[\\]^_`{|}~"

  /** Python's `string.whitespace`. */
  const Whitespace: string := " \t\n\r\U{B}\U{C}"

  /** The characters the translation table deletes: all of `string.punctuation`
      except the apostrophe, and all of `string.whitespace`. */
  predicate Deleted(c: char) {
    || ('!' <= c <= '/' && c != '\'')
    || (':' <= c <= '@')
    || ('[' <= c <= '`')
    || ('{' <= c <= '~')
    || c == ' '
    || ('\t' <= c <= '\r')
  }

  /** The range test above is exactly the table built from the two constants. */
  lemma DeletedMatchesTable(c: char)
    ensures Deleted(c) <==> (c in Punctuation && c != '\'') || c in Whitespace
  {
    WhitespaceIsRange(c);
    if Deleted(c) && c != ' ' && !('\t' <= c <= '\r') {
      DeletedPunctuationListed(c);
    }
    if c in Punctuation {
      PunctuationDeleted(c);
    }
  }

  /** `string.whitespace` is the space and the control characters '\t' to '\r'. */
  lemma WhitespaceIsRange(c: char)
    ensures c in Whitespace <==> c == ' ' || ('\t' <= c <= '\r')
  {
    assert Whitespace == [' ', '\t', '\n', '\r', '\U{B}', '\U{C}'];
  }

  /** Every deleted character outside the whitespace is listed in `string.punctuation`. */
  lemma DeletedPunctuationListed(c: char)
    requires Deleted(c) && c != ' ' && !('\t' <= c <= '\r')
    ensures c in Punctuation && c != '\''
  {
    var k := if c <= '/' then c as int - 33
             else if c <= '@' then c as int - 58 + 15
             else if c <= '`' then c as int - 91 + 22
             else c as int - 123 + 28;
    assert Punctuation[k] == c;
  }

  /** Every character of `string.punctuation` but the apostrophe is deleted. */
  lemma PunctuationDeleted(c: char)
    requires c in Punctuation
    ensures c == '\'' || Deleted(c)
  {
    assert forall i :: 0 <= i < |Punctuation| ==> Punctuation[i] == '\'' || Deleted(Punctuation[i]);
  }

  /** `word.translate(remove_punc_table)`: every deleted character is dropped,
      wherever it occurs; every other character is kept, in order. */
  function Translate(w: string): (r: string)
    ensures |r| <= |w|
    ensures forall i :: 0 <= i < |r| ==> !Deleted(r[i])
  {
    if |w| == 0 then ""
    else if Deleted(w[0]) then Translate(w[1..]) else [w[0]] + Translate(w[1..])
  }

  /** Translation works character by character, so it distributes over concatenation. */
  lemma {:induction false} TranslateConcat(a: string, b: string)
    ensures Translate(a + b) == Translate(a) + Translate(b)
  {
    if |a| > 0 {
      assert (a + b)[0] == a[0];
      assert (a + b)[1..] == a[1..] + b;
      TranslateConcat(a[1..], b);
      if !Deleted(a[0]) {
        assert Translate(a + b) == [a[0]] + (Translate(a[1..]) + Translate(b));
        assert Translate(a) == [a[0]] + Translate(a[1..]);
      }
    } else {
      assert a + b == b;
    }
  }

  /** Every character the table does not delete survives, as often as it occurred. */
  lemma {:induction false} TranslateKeepsOthers(w: string, c: char)
    requires !Deleted(c)
    ensures multiset(Translate(w))[c] == multiset(w)[c]
  {
    if |w| > 0 {
      assert w == [w[0]] + w[1..];
      TranslateKeepsOthers(w[1..], c);
    }
  }

  /** A word with nothing to delete is left as it is. */
  lemma {:induction false} TranslateKeepsClean(w: string)
    requires forall i :: 0 <= i < |w| ==> !Deleted(w[i])
    ensures Translate(w) == w
  {
    if |w| > 0 {
      TranslateKeepsClean(w[1..]);
    }
  }

  /** Normalising a word twice is the same as normalising it once. */
  lemma TranslateIdempotent(w: string)
    ensures Translate(Translate(w)) == Translate(w)
  {
    TranslateKeepsClean(Translate(w));
  }

  /** One step of the translation, taken at position `k`. */
  lemma TranslateAt(w: string, k: nat)
    requires k < |w|
    ensures Translate(w[k..]) == (if Deleted(w[k]) then "" else [w[k]]) + Translate(w[k + 1..])
  {
    assert w[k..][1..] == w[k + 1..];
  }

  /** The documented example: surrounding whitespace and the interior comma
      go, the apostrophe stays. */
  lemma TranslateExampleContraction()
    ensures Translate(" don't, ") == "don't"
  {
  }

  /** Repeated trailing punctuation goes. */
  lemma TranslateExamplePunctuation()
    ensures Translate(" the!! ") == "the"
  {
  }

  /** A punctuation-only token becomes empty. */
  lemma TranslateExampleSymbols()
    ensures Translate("?!") == ""
  {
    var w := "?!";
    TranslateAt(w, 1);
    TranslateAt(w, 0);
    assert w[0..] == w;
  }

  /** The segment keys the adapter keeps (besides `words`). */
  const KeepKeys: set<string> := {"start", "end", "text", "no_speech_prob"}

  /** A segment as the engine returns it: all its scalar keys, and its
      `words` list when the key is present. */
  datatype EngineSegment = EngineSegment(fields: Record, words: Option<seq<Record>>)

  /** The speech engine: whether `import whisper` succeeds, and
      `load_model(...).transcribe(audio, word_timestamps=True, **kwargs)["segments"]`. */
  datatype Whisper = Whisper(installed: bool, transcribe: (Bytes, WhisperConfig) -> seq<EngineSegment>)

  /** One word dict: `word` is translated, every other key is copied. A
      non-string `word` has no `translate` method. */
  function NormaliseWord(d: Record): (r: Result<Record>)
    ensures r.Ok? <==> ("word" !in d || d["word"].Text?)
    ensures r.Ok? ==> r.value.Keys == d.Keys
    ensures r.Ok? ==> forall k :: k in d && k != "word" ==> r.value[k] == d[k]
    ensures r.Ok? && "word" in d ==> r.value["word"] == Text(Translate(d["word"].s))
  {
    if "word" !in d then Ok(d)
    else match d["word"]
      case Text(s) => Ok(d["word" := Text(Translate(s))])
      case _ => Err(MissingAttribute("translate"))
  }

  /** The word dicts of one segment, normalised in order; the first failure aborts. */
  function NormaliseWords(ws: seq<Record>): (r: Result<seq<Record>>)
    ensures r.Ok? <==> forall i :: 0 <= i < |ws| ==> NormaliseWord(ws[i]).Ok?
    ensures r.Ok? ==> |r.value| == |ws|
    ensures r.Ok? ==> forall i :: 0 <= i < |ws| ==> Ok(r.value[i]) == NormaliseWord(ws[i])
  {
    if |ws| == 0 then Ok([])
    else
      var w :- NormaliseWord(ws[0]);
      var rest :- NormaliseWords(ws[1..]);
      assert forall i :: 1 <= i < |ws| ==> ws[i] == ws[1..][i - 1];
      Ok([w] + rest)
  }

  /** One engine segment: only the kept keys that are present, plus the
      normalised `words` (a segment without `words` raises KeyError). */
  function NormaliseSegment(seg: EngineSegment): (r: Result<Segment>)
    ensures r.Ok? <==> seg.words.Some? && NormaliseWords(seg.words.value).Ok?
    ensures seg.words.None? ==> r == Err(MissingKey("words"))
    ensures r.Ok? ==> forall k :: k in r.value.fields <==> k in seg.fields && k in KeepKeys
    ensures r.Ok? ==> forall k :: k in r.value.fields ==> r.value.fields[k] == seg.fields[k]
    ensures r.Ok? ==> Ok(r.value.words) == NormaliseWords(seg.words.value)
  {
    var kept := map k | k in seg.fields && k in KeepKeys :: seg.fields[k];
    if seg.words.None? then Err(MissingKey("words"))
    else
      var words :- NormaliseWords(seg.words.value);
      Ok(Segment(kept, words))
  }

  /** All engine segments, normalised in order: exactly one output segment per
      engine segment. */
  function NormaliseSegments(segs: seq<EngineSegment>): (r: Result<seq<Segment>>)
    ensures r.Ok? <==> forall i :: 0 <= i < |segs| ==> NormaliseSegment(segs[i]).Ok?
    ensures r.Ok? ==> |r.value| == |segs|
    ensures r.Ok? ==> forall i :: 0 <= i < |segs| ==> Ok(r.value[i]) == NormaliseSegment(segs[i])
  {
    if |segs| == 0 then Ok([])
    else
      var s :- NormaliseSegment(segs[0]);
      var rest :- NormaliseSegments(segs[1..]);
      assert forall i :: 1 <= i < |segs| ==> segs[i] == segs[1..][i - 1];
      Ok([s] + rest)
  }

  /** Every word token of a normalised transcript is free of deleted characters,
      and the word counts are those of the engine's output. */
  lemma NormalisedWordsAreClean(segs: seq<EngineSegment>)
    requires NormaliseSegments(segs).Ok?
    ensures var out := NormaliseSegments(segs).value;
      forall i :: 0 <= i < |out| ==> i < |segs| && segs[i].words.Some? && |out[i].words| == |segs[i].words.value|
    ensures var out := NormaliseSegments(segs).value;
      forall i, j :: 0 <= i < |out| && 0 <= j < |out[i].words| ==>
        ("word" in out[i].words[j] ==>
              && out[i].words[j]["word"].Text?
              && forall k :: 0 <= k < |out[i].words[j]["word"].s| ==> !Deleted(out[i].words[j]["word"].s[k]))
  {
  }

  /** `transcribe_audio_whisper(audio_file_path, whisper_config)`: the import
      is checked before the file, the file before the engine runs. */
  function TranscribeAudioWhisper(w: Whisper, fs: FileSystem, audioPath: string, cfg: WhisperConfig): (r: Result<seq<Segment>>)
    ensures !w.installed ==> r == Err(ImportFailure("whisper"))
    ensures w.installed && !Exists(fs, audioPath) ==> r == Err(FileNotFound(audioPath))
    ensures w.installed && audioPath in fs.files ==> r == NormaliseSegments(w.transcribe(fs.files[audioPath], cfg))
    ensures w.installed && Exists(fs, audioPath) && audioPath !in fs.files ==> r == Err(ToolFailure("whisper"))
    ensures r.Ok? ==> w.installed && audioPath in fs.files
    ensures r.Ok? ==> |r.value| == |w.transcribe(fs.files[audioPath], cfg)|
  {
    if !w.installed then Err(ImportFailure("whisper"))
    else if !Exists(fs, audioPath) then Err(FileNotFound(audioPath))
    else if audioPath !in fs.files then Err(ToolFailure("whisper"))
    else NormaliseSegments(w.transcribe(fs.files[audioPath], cfg))
  }

  /** `transcribe_audio(audio_file_path, model_config)`: only a WhisperConfig
      is accepted; an absent configuration raises ValueError. */
  function TranscribeAudio(w: Whisper, fs: FileSystem, audioPath: string, config: Option<WhisperConfig>): (r: Result<seq<Segment>>)
    ensures config.None? ==> r.Err? && r.error.InvalidValue?
    ensures config.Some? ==> r == TranscribeAudioWhisper(w, fs, audioPath, config.value)
  {
    match config
    case None => Err(InvalidValue("Invalid model config"))
    case Some(cfg) => TranscribeAudioWhisper(w, fs, audioPath, cfg)
  }
}
