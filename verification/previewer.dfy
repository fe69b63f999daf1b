/** The file previewer of television-previewers: the `preview` state machine
    over the preview cache, the deferred job that highlights a text file and
    resolves its `Loading` entry, file-type classification, and the
    plain-text preview.

    The file system, the MIME sniffer, the extension table and the syntax
    highlighter are inputs: a `Probe` carries what `preview` observes of the
    file, a sequence of `LineRead`s is what the background job reads, and a
    `Highlighter` is the highlighting function. The spawned task is a later
    `CompleteHighlightedTextPreview` step over the set of pending jobs;
    `preview` takes `&mut self`, so requests are sequential. */
module FilePreviewer {
  import opened Wrappers
  import opened Utf8
  import opened Strings

  /** An entry's name: the path of the file and the key of its cache entry. */
  type Name = string

  /** `MAX_FILE_SIZE`: 4 MiB. */
  const MaxFileSize: nat := 4 * 1024 * 1024

  /** `TEMP_PLAIN_TEXT_PREVIEW_HEIGHT`. */
  const PlainTextPreviewHeight: nat := 200

  /** The size of the buffer `get_file_type` reads its sample into. */
  const SampleSize: nat := 256

  datatype FileType = Text | Image | Other | Unknown

  /** A piece of highlighted text with the style the theme gave it. */
  datatype Fragment = Fragment(style: nat, text: string)

  /** The content of a preview. The title every preview carries is the
      entry's name and is left out. */
  datatype PreviewContent =
    | PlainText(lines: seq<string>)
    | SyntectHighlightedText(highlighted: seq<seq<Fragment>>)
    | Loading
    | NotSupported
    | FileTooLarge

  /** The bytes one `read` into the 256-byte buffer returned. */
  type Sample = s: seq<byte> | |s| <= SampleSize witness []

  /** What one call of `preview` observes of the file named by the entry. */
  datatype Probe = Probe(
    size: Option<nat>,          // get_file_size; None when it fails
    mime: Option<string>,       // MIME type from content sniffing; None when nothing matched or sniffing failed
    knownTextExtension: bool,   // is_known_text_extension
    sample: Option<Sample>,     // open + one read for the printable test; None when either fails
    opens: bool)                // whether File::open succeeds in the text branch

  /** One item of `BufReader::lines()`: a line without its terminator, or an
      error (which includes a line that is not valid UTF-8). */
  datatype LineRead = Line(bytes: seq<byte>) | ReadError

  /** `syntax::compute_highlights_for_path`: None stands for its error. */
  type Highlighter = (Name, seq<string>) -> Option<seq<seq<Fragment>>>

  // ---------------------------------------------------------------------
  // File-type classification
  // ---------------------------------------------------------------------

  /** Rust's `str::contains` for a string pattern. */
  predicate Contains(s: string, pattern: string)
    decreases |s|
  {
    pattern <= s || (|s| > 0 && Contains(s[1..], pattern))
  }

  /** The file type a sniffed MIME type gives: "image" is tested before "text". */
  function MimeFileType(mime: Option<string>): (t: FileType)
    ensures t == Unknown <==> mime.None?
    ensures t == Image <==> mime.Some? && Contains(mime.value, "image")
    ensures t == Text <==> mime.Some? && !Contains(mime.value, "image") && Contains(mime.value, "text")
  {
    match mime
    case None => Unknown
    case Some(m) =>
      if Contains(m, "image") then Image
      else if Contains(m, "text") then Text
      else Other
  }

  /** The sample is non-empty and more than 70% printable ASCII. */
  predicate SampleLooksLikeText(sample: Option<Sample>) {
    && sample.Some?
    && |sample.value| > 0
    && ExceedsPrintableThreshold(ProportionOfPrintableAsciiCharacters(sample.value))
  }

  /** `get_file_type`: the sniffed type when there is one; otherwise `Text`
      for a known extension or a sample that looks like text, and `Unknown`
      for everything else. */
  function GetFileType(probe: Probe): (t: FileType)
    ensures probe.mime.Some? ==> t == MimeFileType(probe.mime) && t != Unknown
    ensures probe.mime.None? ==> (t == Text || t == Unknown)
    ensures probe.mime.None? ==>
              (t == Text <==> probe.knownTextExtension || SampleLooksLikeText(probe.sample))
  {
    var sniffed := MimeFileType(probe.mime);
    if sniffed == Unknown then
      if probe.knownTextExtension then Text
      else if SampleLooksLikeText(probe.sample) then Text
      else Unknown
    else
      sniffed
  }

  /** With nothing sniffed and no known extension, the printable counts decide:
      a non-empty all-printable sample is text, a sample without a printable
      byte is not, and in general the test is `10 * printable > 7 * total`. */
  lemma FallbackFollowsPrintableCount(probe: Probe)
    requires probe.mime.None? && !probe.knownTextExtension
    ensures GetFileType(probe) == Text <==>
              (probe.sample.Some?
               && 10 * CountPrintableAscii(probe.sample.value) > 7 * |probe.sample.value|)
    ensures (probe.sample.Some? && |probe.sample.value| > 0 && AllPrintableAscii(probe.sample.value))
              ==> GetFileType(probe) == Text
    ensures (probe.sample.Some?
             && forall i :: 0 <= i < |probe.sample.value| ==> !IsPrintableAscii(probe.sample.value[i]))
              ==> GetFileType(probe) == Unknown
  {
  }

  // ---------------------------------------------------------------------
  // The cache and the previewer state
  // ---------------------------------------------------------------------

  /** The preview cache and the names whose highlighting job is scheduled
      but not finished. */
  datatype State = State(cache: map<Name, PreviewContent>, pending: set<Name>)

  /** A fresh previewer: empty cache, no jobs. */
  const Init: State := State(map[], {})

  /** Exactly the names cached as `Loading` have a pending job: a job is
      never scheduled twice for one name, and every `Loading` entry has a job
      that will overwrite it. */
  ghost predicate Inv(st: State) {
    forall k :: k in st.pending <==> k in st.cache && st.cache[k] == Loading
  }

  /** `cache_preview`: an unconditional upsert of one key. */
  function CachePreview(st: State, key: Name, p: PreviewContent): (r: State)
    ensures key in r.cache && r.cache[key] == p
    ensures r.cache.Keys == st.cache.Keys + {key}
    ensures forall k :: k in st.cache && k != key ==> r.cache[k] == st.cache[k]
    ensures r.pending == st.pending
  {
    st.(cache := st.cache[key := p])
  }

  /** The latest insert of a key wins: a lookup of `k` keeps giving what
      was last inserted under `k` while only other keys are inserted. */
  lemma {:induction false} CacheLatestInsertWins(st: State, k: Name, others: seq<(Name, PreviewContent)>)
    requires k in st.cache
    requires forall i :: 0 <= i < |others| ==> others[i].0 != k
    ensures var r := InsertAll(st, others);
            k in r.cache && r.cache[k] == st.cache[k]
    decreases |others|
  {
    if |others| > 0 {
      CacheLatestInsertWins(CachePreview(st, others[0].0, others[0].1), k, others[1..]);
    }
  }

  /** A series of cache inserts, first to last. */
  function InsertAll(st: State, inserts: seq<(Name, PreviewContent)>): (r: State)
    ensures r.pending == st.pending
    ensures r.cache.Keys >= st.cache.Keys
    decreases |inserts|
  {
    if |inserts| == 0 then st
    else InsertAll(CachePreview(st, inserts[0].0, inserts[0].1), inserts[1..])
  }

  /** What `preview` returns together with the state it leaves; `spawned`
      tells whether it scheduled a highlighting job. */
  datatype Outcome = Outcome(state: State, preview: PreviewContent, spawned: bool)

  /** The size gate: a size strictly above 4 MiB. A size that cannot be read
      does not count as too large. */
  function IsTooLarge(size: Option<nat>): (tooLarge: bool)
    ensures !tooLarge <==> size.None? || size.value <= 4 * 1024 * 1024
  {
    size.Some? && size.value > MaxFileSize
  }

  /** Scheduling the background job for `name` (`compute_highlighted_text_preview`
      up to the spawn). */
  function ScheduleHighlight(st: State, name: Name): (r: State)
    ensures r.cache == st.cache && r.pending == st.pending + {name}
  {
    st.(pending := st.pending + {name})
  }

  /** `FilePreviewer::preview`. A cache hit returns the cached content and
      changes nothing. A miss caches exactly one entry, under the entry's
      name, and returns it: `FileTooLarge` past the size gate; for a text
      file that opens, `Loading`, cached before the job is scheduled; and
      `NotSupported` for a text file that does not open and for every other
      file type. Only the text file that opens schedules a job. */
  function Preview(st: State, name: Name, probe: Probe): (o: Outcome)
    ensures name in st.cache ==> o == Outcome(st, st.cache[name], false)
    ensures name !in st.cache ==> o.state.cache == st.cache[name := o.preview]
    ensures name !in st.cache ==> (o.preview == FileTooLarge <==> IsTooLarge(probe.size))
    ensures name !in st.cache ==>
              (o.spawned <==> !IsTooLarge(probe.size) && GetFileType(probe) == Text && probe.opens)
    ensures o.spawned ==> o.preview == Loading && o.state.pending == st.pending + {name}
    ensures name !in st.cache && !o.spawned ==>
              o.state.pending == st.pending && (o.preview == FileTooLarge || o.preview == NotSupported)
  {
    if name in st.cache then
      Outcome(st, st.cache[name], false)
    else if IsTooLarge(probe.size) then
      Outcome(CachePreview(st, name, FileTooLarge), FileTooLarge, false)
    else
      match GetFileType(probe)
      case Text =>
        if probe.opens then
          var withPlaceholder := CachePreview(st, name, Loading);
          Outcome(ScheduleHighlight(withPlaceholder, name), Loading, true)
        else
          Outcome(CachePreview(st, name, NotSupported), NotSupported, false)
      case Image => Outcome(CachePreview(st, name, NotSupported), NotSupported, false)
      case Other => Outcome(CachePreview(st, name, NotSupported), NotSupported, false)
      case Unknown => Outcome(CachePreview(st, name, NotSupported), NotSupported, false)
  }

  /** The lines the background job hands to the highlighter: each line read
      before the first read error, preprocessed and followed by "\n". */
  function HighlightInput(lineReads: seq<LineRead>): (r: seq<string>)
    ensures |r| <= |lineReads|
    ensures |r| < |lineReads| ==> lineReads[|r|].ReadError?
    ensures forall j :: 0 <= j < |r| ==> lineReads[j].Line? && r[j] == PreprocessLine(lineReads[j].bytes) + "\n"
    decreases |lineReads|
  {
    if |lineReads| == 0 || lineReads[0].ReadError? then []
    else
      var rest := HighlightInput(lineReads[1..]);
      assert forall j :: 1 <= j < |lineReads| ==> lineReads[1..][j - 1] == lineReads[j];
      [PreprocessLine(lineReads[0].bytes) + "\n"] + rest
  }

  /** The body of the spawned task of `compute_highlighted_text_preview`:
      it overwrites the entry with the highlighted text, or with
      `NotSupported` when highlighting fails, and the job is done. Nothing
      else in the cache changes. */
  function CompleteHighlightedTextPreview(st: State, name: Name, lineReads: seq<LineRead>, highlight: Highlighter): (r: State)
    requires name in st.pending
    ensures r.pending == st.pending - {name}
    ensures name in r.cache && r.cache == st.cache[name := r.cache[name]]
    ensures r.cache[name] != Loading
    ensures r.cache[name] == match highlight(name, HighlightInput(lineReads))
                             case Some(h) => SyntectHighlightedText(h)
                             case None => NotSupported
  {
    var content := match highlight(name, HighlightInput(lineReads))
                   case Some(h) => SyntectHighlightedText(h)
                   case None => NotSupported;
    State(st.cache[name := content], st.pending - {name})
  }

  // ---------------------------------------------------------------------
  // Properties of the state machine
  // ---------------------------------------------------------------------

  /** `preview` keeps the invariant. */
  lemma PreviewKeepsInv(st: State, name: Name, probe: Probe)
    requires Inv(st)
    ensures Inv(Preview(st, name, probe).state)
  {
  }

  /** Completing a job keeps the invariant: its `Loading` entry is resolved
      in the same step that retires the job. */
  lemma CompleteKeepsInv(st: State, name: Name, lineReads: seq<LineRead>, highlight: Highlighter)
    requires Inv(st) && name in st.pending
    ensures Inv(CompleteHighlightedTextPreview(st, name, lineReads, highlight))
  {
  }

  /** A second request for a name the first request missed is a cache hit:
      it returns what the first returned, schedules nothing and changes
      nothing. A cold text file is therefore highlighted once however often
      it is requested. */
  lemma SecondRequestIsCacheHit(st: State, name: Name, first: Probe, second: Probe)
    ensures var o1 := Preview(st, name, first);
            var o2 := Preview(o1.state, name, second);
            o2 == Outcome(o1.state, o1.preview, false)
  {
  }

  /** A terminal entry is final: neither a request nor the completion of a
      job changes it. */
  lemma TerminalEntriesAreFinal(st: State, k: Name, name: Name, probe: Probe,
                                lineReads: seq<LineRead>, highlight: Highlighter)
    requires Inv(st) && k in st.cache && st.cache[k] != Loading
    ensures var o := Preview(st, name, probe);
            k in o.state.cache && o.state.cache[k] == st.cache[k]
    ensures name in st.pending ==>
              var r := CompleteHighlightedTextPreview(st, name, lineReads, highlight);
              k in r.cache && r.cache[k] == st.cache[k]
  {
  }

  /** The events of a run: a request by the render loop, or the scheduled
      job of `name` finishing after reading `lineReads`. */
  datatype Event = Request(name: Name, probe: Probe) | Finish(name: Name, lineReads: seq<LineRead>)

  /** The final state of a run and, in order, the names a job was scheduled for. */
  datatype Trace = Trace(final: State, spawned: seq<Name>)

  /** Runs the events in order. A `Finish` for a name without a pending job
      does nothing: no such task exists. */
  function Run(st: State, events: seq<Event>, highlight: Highlighter): (t: Trace)
    ensures st.cache.Keys <= t.final.cache.Keys
    ensures |t.spawned| <= |events|
    decreases |events|
  {
    if |events| == 0 then
      Trace(st, [])
    else
      match events[0]
      case Request(name, probe) =>
        var o := Preview(st, name, probe);
        var rest := Run(o.state, events[1..], highlight);
        Trace(rest.final, (if o.spawned then [name] else []) + rest.spawned)
      case Finish(name, lineReads) =>
        if name in st.pending then
          Run(CompleteHighlightedTextPreview(st, name, lineReads, highlight), events[1..], highlight)
        else
          Run(st, events[1..], highlight)
  }

  /** Every state a run reaches keeps the invariant. */
  lemma {:induction false} RunKeepsInv(st: State, events: seq<Event>, highlight: Highlighter)
    requires Inv(st)
    ensures Inv(Run(st, events, highlight).final)
    decreases |events|
  {
    if |events| > 0 {
      match events[0]
      case Request(name, probe) =>
        PreviewKeepsInv(st, name, probe);
        RunKeepsInv(Preview(st, name, probe).state, events[1..], highlight);
      case Finish(name, lineReads) =>
        if name in st.pending {
          CompleteKeepsInv(st, name, lineReads, highlight);
          RunKeepsInv(CompleteHighlightedTextPreview(st, name, lineReads, highlight), events[1..], highlight);
        } else {
          RunKeepsInv(st, events[1..], highlight);
        }
    }
  }

  /** At most one highlighting job is ever scheduled per name: none for a
      name already cached, at most one for any other. */
  lemma {:induction false} RunSchedulesAtMostOnce(st: State, events: seq<Event>, highlight: Highlighter, k: Name)
    requires Inv(st)
    ensures multiset(Run(st, events, highlight).spawned)[k] <= if k in st.cache then 0 else 1
    decreases |events|
  {
    if |events| > 0 {
      match events[0]
      case Request(name, probe) =>
        var o := Preview(st, name, probe);
        PreviewKeepsInv(st, name, probe);
        RunSchedulesAtMostOnce(o.state, events[1..], highlight, k);
        var rest := Run(o.state, events[1..], highlight);
        var head: seq<Name> := if o.spawned then [name] else [];
        assert multiset(head + rest.spawned) == multiset(head) + multiset(rest.spawned);
      case Finish(name, lineReads) =>
        if name in st.pending {
          CompleteKeepsInv(st, name, lineReads, highlight);
          RunSchedulesAtMostOnce(CompleteHighlightedTextPreview(st, name, lineReads, highlight), events[1..], highlight, k);
        } else {
          RunSchedulesAtMostOnce(st, events[1..], highlight, k);
        }
    }
  }

  // ---------------------------------------------------------------------
  // The plain-text preview
  // ---------------------------------------------------------------------

  /** The number of lines the plain-text preview looks at. */
  function PlainTextLineCount(lineReads: seq<LineRead>): (n: nat)
    ensures n <= |lineReads| && n <= PlainTextPreviewHeight
    ensures n == |lineReads| || n == PlainTextPreviewHeight
  {
    if |lineReads| < PlainTextPreviewHeight then |lineReads| else PlainTextPreviewHeight
  }

  /** `plain_text_preview`: the first 200 lines, each preprocessed, or
      `NotSupported` if reading any of them fails. A read error after the
      200th line is never seen. */
  method PlainTextPreview(lineReads: seq<LineRead>) returns (p: PreviewContent)
    ensures p == NotSupported ==>
              exists i :: 0 <= i < PlainTextLineCount(lineReads) && lineReads[i].ReadError?
    ensures p != NotSupported ==>
              && p.PlainText?
              && |p.lines| == PlainTextLineCount(lineReads)
              && forall j :: 0 <= j < |p.lines| ==>
                   lineReads[j].Line? && p.lines[j] == PreprocessLine(lineReads[j].bytes)
  {
    var n := PlainTextLineCount(lineReads);
    var lines: seq<string> := [];
    var i := 0;
    while i < n
      invariant i <= n
      invariant |lines| == i
      invariant forall j :: 0 <= j < i ==> lineReads[j].Line? && lines[j] == PreprocessLine(lineReads[j].bytes)
    {
      if lineReads[i].ReadError? {
        return NotSupported;
      }
      lines := lines + [PreprocessLine(lineReads[i].bytes)];
      i := i + 1;
    }
    return PlainText(lines);
  }

  // ---------------------------------------------------------------------
  // End-to-end scenarios
  // ---------------------------------------------------------------------

  /** A 10-byte printable-ASCII file with nothing sniffed: the first request
      returns `Loading` and schedules one job; once the job has read the
      single line, the next request returns what the highlighter made of
      that one preprocessed line, and schedules nothing. */
  lemma SmallTextFileScenario(name: Name, line: seq<byte>, highlight: Highlighter)
    requires |line| == 10 && AllPrintableAscii(line)
    ensures var probe := Probe(Some(10), None, false, Some(line), true);
            var first := Preview(Init, name, probe);
            var done := CompleteHighlightedTextPreview(first.state, name, [Line(line)], highlight);
            var second := Preview(done, name, probe);
            && first.preview == Loading && first.spawned
            && !second.spawned
            && second.preview == match highlight(name, [PreprocessLine(line) + "\n"])
                                 case Some(h) => SyntectHighlightedText(h)
                                 case None => NotSupported
  {
    var probe := Probe(Some(10), None, false, Some(line), true);
    assert SampleLooksLikeText(probe.sample);
    assert HighlightInput([Line(line)]) == [PreprocessLine(line) + "\n"];
  }

  /** A file over 4 MiB is answered `FileTooLarge` at once, with no job. */
  lemma LargeFileScenario(st: State, name: Name, probe: Probe)
    requires name !in st.cache && probe.size == Some(5 * 1024 * 1024)
    ensures var o := Preview(st, name, probe);
            o.preview == FileTooLarge && !o.spawned && o.state.cache[name] == FileTooLarge
  {
  }

  /** A binary file that nothing sniffs, with no known extension and a
      sample at most 70% printable, is answered `NotSupported` at once. */
  lemma BinaryFileScenario(st: State, name: Name, size: Option<nat>, sample: Sample, opens: bool)
    requires name !in st.cache && !IsTooLarge(size)
    requires 10 * CountPrintableAscii(sample) <= 7 * |sample|
    ensures var o := Preview(st, name, Probe(size, None, false, Some(sample), opens));
            o.preview == NotSupported && !o.spawned && o.state.pending == st.pending
  {
  }
}
