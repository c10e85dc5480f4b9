/** One talk's detail page: the seven fields extracted from it, each in its
    own `try` (global_tech.py:58-128), and the 10-column CSV row assembled
    from them and the listing's title, speaker and URL (global_tech.py:11,
    131-143). */
module Detail {
  import opened Wrappers
  import opened Strings
  import opened Normalise

  /** What the browser yields on one talk page, reduced to the raw input of
      each field: the text of the field's element (`None` when
      `find_element` or `.text` raises); for tags and transcript, whether
      the control was found and clicked without raising, and the texts of
      all elements the follow-up query matched (`None` when reading them
      raises; an empty sequence when nothing matched). */
  datatype DetailPage = DetailPage(
    viewsText: Option<string>,
    dateText: Option<string>,
    tagsClicked: bool,
    tagsPanels: Option<seq<string>>,
    summaryText: Option<string>,
    translationsText: Option<string>,
    transcriptClicked: bool,
    transcriptLines: Option<seq<string>>,
    commentsText: Option<string>)

  /** The seven extracted fields, in the order the source extracts them. */
  datatype Details = Details(
    numViews: Option<string>,
    date: Option<Date>,
    tags: Option<seq<string>>,
    summary: Option<string>,
    numTranslations: Option<string>,
    transcript: Option<string>,
    numComments: Option<string>)

  function ExtractNumViews(page: DetailPage): (r: Option<string>)
    ensures r.Some? <==> page.viewsText.Some?
    ensures r.Some? ==> r.value == DropChar(page.viewsText.value, ',')
  {
    match page.viewsText
    case None => None
    case Some(text) => Some(NumViews(text))
  }

  function ExtractDate(page: DetailPage): (r: Option<Date>)
    ensures r.Some? ==> r.value.day == 1 && 1 <= r.value.month <= 12
    ensures r.Some? ==> page.dateText.Some? && MonthYearText(Remove(page.dateText.value, "| "), r.value)
  {
    match page.dateText
    case None => None
    case Some(text) => ParseDate(text)
  }

  /** `None` when the control is missing or its click raises, when reading
      the panels raises, or when `Tags` refuses the panel text. */
  function ExtractTags(page: DetailPage): (r: Option<seq<string>>)
    ensures r.Some? <==> page.tagsClicked && page.tagsPanels.Some? && |page.tagsPanels.value| > 0
                         && '\n' in page.tagsPanels.value[0]
  {
    if !page.tagsClicked || page.tagsPanels.None? then None
    else Tags(page.tagsPanels.value)
  }

  function ExtractNumTranslations(page: DetailPage): (r: Option<string>)
    ensures r.Some? <==> page.translationsText.Some?
    ensures r.Some? ==> |r.value| <= |page.translationsText.value|
  {
    match page.translationsText
    case None => None
    case Some(text) => Some(NumTranslations(text))
  }

  /** Present whenever the control was clicked and the lines were read,
      including when no line matched (the empty join `""`). */
  function ExtractTranscript(page: DetailPage): (r: Option<string>)
    ensures r.Some? <==> page.transcriptClicked && page.transcriptLines.Some?
    ensures r.Some? && page.transcriptLines.value == [] ==> r.value == ""
  {
    if !page.transcriptClicked || page.transcriptLines.None? then None
    else Some(Transcript(page.transcriptLines.value))
  }

  function ExtractNumComments(page: DetailPage): (r: Option<string>)
    ensures r.None? <==> page.commentsText.None?
                         || forall j :: 0 <= j < |page.commentsText.value| ==> !IsDigit(page.commentsText.value[j])
    ensures r.Some? ==> |r.value| > 0 && AllDigits(r.value)
  {
    match page.commentsText
    case None => None
    case Some(text) => NumComments(text)
  }

  /** All seven fields, each computed from its own raw input only. */
  function ExtractDetails(page: DetailPage): Details
  {
    Details(ExtractNumViews(page), ExtractDate(page), ExtractTags(page), page.summaryText,
            ExtractNumTranslations(page), ExtractTranscript(page), ExtractNumComments(page))
  }

  // ---------------------------------------------------------------------
  // Field isolation

  datatype Field = NumViewsField | DateField | TagsField | SummaryField
                 | TranslationsField | TranscriptField | CommentsField

  /** The page with field `f`'s element missing (or its control failing). */
  function Without(page: DetailPage, f: Field): DetailPage
  {
    match f
    case NumViewsField => page.(viewsText := None)
    case DateField => page.(dateText := None)
    case TagsField => page.(tagsClicked := false, tagsPanels := None)
    case SummaryField => page.(summaryText := None)
    case TranslationsField => page.(translationsText := None)
    case TranscriptField => page.(transcriptClicked := false, transcriptLines := None)
    case CommentsField => page.(commentsText := None)
  }

  /** The details with field `f` set to `None`. */
  function Blank(d: Details, f: Field): Details
  {
    match f
    case NumViewsField => d.(numViews := None)
    case DateField => d.(date := None)
    case TagsField => d.(tags := None)
    case SummaryField => d.(summary := None)
    case TranslationsField => d.(numTranslations := None)
    case TranscriptField => d.(transcript := None)
    case CommentsField => d.(numComments := None)
  }

  /** A failing field is absent and every other field keeps its value. */
  lemma FieldFailureIsIsolated(page: DetailPage, f: Field)
    ensures ExtractDetails(Without(page, f)) == Blank(ExtractDetails(page), f)
  {
  }

  /** Whatever happens to one field's raw input changes no other field. */
  lemma FieldsAreIndependent(page: DetailPage, other: DetailPage, f: Field)
    requires Without(page, f) == Without(other, f)
    ensures Blank(ExtractDetails(page), f) == Blank(ExtractDetails(other), f)
  {
    FieldFailureIsIsolated(page, f);
    FieldFailureIsIsolated(other, f);
  }

  // ---------------------------------------------------------------------
  // The CSV row

  /** One CSV cell before rendering: text, an absent field (an empty cell),
      a date, or a tag list. */
  datatype Cell = Text(text: string) | Empty | DateCell(date: Date) | ListCell(items: seq<string>)

  type Line = seq<Cell>

  /** The header row (global_tech.py:11). */
  const Columns: seq<string> :=
    ["title", "speaker", "num_views", "summary", "date", "tags",
     "num_translations", "transcript", "num_comments", "video_url"]

  const HeaderLine: Line := seq(|Columns|, k requires 0 <= k < |Columns| => Text(Columns[k]))

  /** A key of `detail_dict` (global_tech.py:131-140); `Name` is the
      string literal the source uses. */
  datatype Column =
    | TitleColumn | SpeakerColumn | NumViewsColumn | SummaryColumn | DateColumn
    | TagsColumn | NumTranslationsColumn | TranscriptColumn | NumCommentsColumn | VideoUrlColumn

  function Name(c: Column): string
  {
    match c
    case TitleColumn => "title"
    case SpeakerColumn => "speaker"
    case NumViewsColumn => "num_views"
    case SummaryColumn => "summary"
    case DateColumn => "date"
    case TagsColumn => "tags"
    case NumTranslationsColumn => "num_translations"
    case TranscriptColumn => "transcript"
    case NumCommentsColumn => "num_comments"
    case VideoUrlColumn => "video_url"
  }

  /** The keys in the order the source stores them. */
  const Order: seq<Column> :=
    [TitleColumn, SpeakerColumn, NumViewsColumn, SummaryColumn, DateColumn,
     TagsColumn, NumTranslationsColumn, TranscriptColumn, NumCommentsColumn, VideoUrlColumn]

  /** The dictionary's keys, in insertion order, are the header's names:
      each value lands under its own header column. */
  lemma OrderMatchesHeader()
    ensures |Order| == |Columns|
    ensures forall k :: 0 <= k < |Order| ==> Name(Order[k]) == Columns[k]
  {
  }

  /** Distinct keys have distinct names, so keying the dictionary by
      `Column` rather than by its name changes nothing. */
  lemma NamesDistinct(a: Column, b: Column)
    requires a != b
    ensures Name(a) != Name(b)
  {
  }

  /** One visited talk: the listing's three texts and the detail fields. */
  datatype Record = Record(title: string, speaker: string, details: Details, videoUrl: string)

  function TextCell(o: Option<string>): Cell
  {
    match o
    case None => Empty
    case Some(s) => Text(s)
  }

  /** The value `detail_dict` holds under key `c`
      (global_tech.py:131-140): the cell of the row at that key's header
      position; the listing's three columns always hold text. */
  function Value(r: Record, c: Column): (v: Cell)
    ensures v == RowOf(r)[Position(c)]
    ensures c == TitleColumn || c == SpeakerColumn || c == VideoUrlColumn ==> v.Text?
  {
    match c
    case TitleColumn => Text(r.title)
    case SpeakerColumn => Text(r.speaker)
    case NumViewsColumn => TextCell(r.details.numViews)
    case SummaryColumn => TextCell(r.details.summary)
    case DateColumn => if r.details.date.Some? then DateCell(r.details.date.value) else Empty
    case TagsColumn => if r.details.tags.Some? then ListCell(r.details.tags.value) else Empty
    case NumTranslationsColumn => TextCell(r.details.numTranslations)
    case TranscriptColumn => TextCell(r.details.transcript)
    case NumCommentsColumn => TextCell(r.details.numComments)
    case VideoUrlColumn => Text(r.videoUrl)
  }

  /** `detail_dict.values()`: the record's values, one per header column,
      in header order. */
  function RowOf(r: Record): (line: Line)
    ensures |line| == |Columns|
  {
    var d := r.details;
    [Text(r.title), Text(r.speaker), TextCell(d.numViews), TextCell(d.summary),
     if d.date.Some? then DateCell(d.date.value) else Empty,
     if d.tags.Some? then ListCell(d.tags.value) else Empty,
     TextCell(d.numTranslations), TextCell(d.transcript), TextCell(d.numComments),
     Text(r.videoUrl)]
  }

  /** Each cell of the row is the value stored under the key named by its
      header column. */
  lemma RowFollowsHeader(r: Record)
    ensures forall k :: 0 <= k < |Order| ==> Name(Order[k]) == Columns[k] && RowOf(r)[k] == Value(r, Order[k])
  {
    OrderMatchesHeader();
  }

  /** The key under which field `f` is stored. */
  function KeyOf(f: Field): Column
  {
    match f
    case NumViewsField => NumViewsColumn
    case SummaryField => SummaryColumn
    case DateField => DateColumn
    case TagsField => TagsColumn
    case TranslationsField => NumTranslationsColumn
    case TranscriptField => TranscriptColumn
    case CommentsField => NumCommentsColumn
  }

  /** The column that holds field `f`: its key's header position, between
      the listing's title and speaker and its URL. */
  function ColumnOf(f: Field): (k: nat)
    ensures 2 <= k < 9
    ensures Columns[k] == Name(KeyOf(f))
  {
    Position(KeyOf(f))
  }

  /** Blanking field `f` empties its own cell and no other. */
  lemma BlankEmptiesOneCell(r: Record, f: Field)
    ensures var blanked := RowOf(r.(details := Blank(r.details, f)));
            && blanked[ColumnOf(f)] == Empty
            && forall k :: 0 <= k < |Columns| && k != ColumnOf(f) ==> blanked[k] == RowOf(r)[k]
  {
    var full, blanked := RowOf(r), RowOf(r.(details := Blank(r.details, f)));
    forall k | 0 <= k < |Columns| && k != ColumnOf(f)
      ensures blanked[k] == full[k]
    {
      match f
      case NumViewsField =>
      case DateField =>
      case TagsField =>
      case SummaryField =>
      case TranslationsField =>
      case TranscriptField =>
      case CommentsField =>
    }
  }

  /** A failed field empties its own cell and no other; the row still has
      all ten cells, and the title, speaker and URL are the listing's. */
  lemma FailedFieldEmptiesOneCell(title: string, speaker: string, page: DetailPage, url: string, f: Field)
    ensures var full := RowOf(Record(title, speaker, ExtractDetails(page), url));
            var failed := RowOf(Record(title, speaker, ExtractDetails(Without(page, f)), url));
            && |failed| == |Columns|
            && failed[ColumnOf(f)] == Empty
            && (forall k :: 0 <= k < |Columns| && k != ColumnOf(f) ==> failed[k] == full[k])
            && failed[0] == Text(title) && failed[1] == Text(speaker) && failed[9] == Text(url)
  {
    FieldFailureIsIsolated(page, f);
    BlankEmptiesOneCell(Record(title, speaker, ExtractDetails(page), url), f);
  }

  /** `detail_dict`, an insertion-ordered dictionary: its keys in the
      order they were first stored, and the value under each, position by
      position. */
  datatype Dict = Dict(keys: seq<Column>, values: seq<Cell>)

  predicate WellFormed(d: Dict)
  {
    |d.keys| == |d.values|
  }

  /** Where `key` sits among the keys. */
  function IndexOf(keys: seq<Column>, key: Column): (i: nat)
    requires key in keys
    ensures i < |keys| && keys[i] == key && key !in keys[..i]
  {
    if keys[0] == key then 0 else 1 + IndexOf(keys[1..], key)
  }

  /** `d[key] = v`: a new key goes last; a key already there keeps its
      place and only its value changes. */
  function Put(d: Dict, key: Column, v: Cell): (r: Dict)
    requires WellFormed(d)
    ensures WellFormed(r)
  {
    if key in d.keys then Dict(d.keys, d.values[IndexOf(d.keys, key) := v])
    else Dict(d.keys + [key], d.values + [v])
  }

  /** `d.get(key)`: the value at the key's place, or `None` when the key
      was never stored. */
  function Get(d: Dict, key: Column): (r: Option<Cell>)
    requires WellFormed(d)
    ensures r.Some? <==> key in d.keys
    ensures r.Some? ==> exists i :: 0 <= i < |d.keys| && d.keys[i] == key && key !in d.keys[..i] && r.value == d.values[i]
  {
    if key in d.keys then
      var i := IndexOf(d.keys, key);
      assert d.keys[i] == key && key !in d.keys[..i];
      Some(d.values[i])
    else None
  }

  /** The dictionary laws of `d[key] = v`: the key now maps to `v`, every
      other key keeps its value, and a new key goes after the old ones. */
  lemma PutThenGet(d: Dict, key: Column, v: Cell, other: Column)
    requires WellFormed(d)
    ensures Get(Put(d, key, v), key) == Some(v)
    ensures other != key ==> Get(Put(d, key, v), other) == Get(d, other)
    ensures Put(d, key, v).keys == if key in d.keys then d.keys else d.keys + [key]
  {
    if key in d.keys {
      PutExistingGet(d, key, v, other);
    } else {
      PutNewGet(d, key, v, other);
    }
  }

  lemma PutExistingGet(d: Dict, key: Column, v: Cell, other: Column)
    requires WellFormed(d) && key in d.keys
    ensures Get(Put(d, key, v), key) == Some(v)
    ensures other != key ==> Get(Put(d, key, v), other) == Get(d, other)
  {
    var i := IndexOf(d.keys, key);
    var r := Put(d, key, v);
    assert r == Dict(d.keys, d.values[i := v]);
    if other != key && other in d.keys {
      var j := IndexOf(d.keys, other);
      assert d.keys[j] != d.keys[i];
      assert r.values[j] == d.values[j];
    }
  }

  lemma PutNewGet(d: Dict, key: Column, v: Cell, other: Column)
    requires WellFormed(d) && key !in d.keys
    ensures Get(Put(d, key, v), key) == Some(v)
    ensures other != key ==> Get(Put(d, key, v), other) == Get(d, other)
  {
    assert Put(d, key, v) == Dict(d.keys + [key], d.values + [v]);
    NewKeyGet(d, key, v);
    if other != key && other in d.keys {
      OldKeyGet(d, key, v, other);
    }
  }

  lemma NewKeyGet(d: Dict, key: Column, v: Cell)
    requires WellFormed(d) && key !in d.keys
    ensures var r := Dict(d.keys + [key], d.values + [v]);
            key in r.keys && r.values[IndexOf(r.keys, key)] == v
  {
    assert (d.keys + [key])[|d.keys|] == key;
    IndexOfAppend(d.keys, key, key);
  }

  lemma OldKeyGet(d: Dict, key: Column, v: Cell, other: Column)
    requires WellFormed(d) && key !in d.keys && other in d.keys
    ensures var r := Dict(d.keys + [key], d.values + [v]);
            other in r.keys && r.values[IndexOf(r.keys, other)] == d.values[IndexOf(d.keys, other)]
  {
    IndexOfAppend(d.keys, key, other);
  }

  /** Appending a key leaves the places of the old ones alone. */
  lemma {:induction false} IndexOfAppend(keys: seq<Column>, key: Column, c: Column)
    requires key !in keys && (c in keys || c == key)
    ensures IndexOf(keys + [key], c) == if c in keys then IndexOf(keys, c) else |keys|
  {
    if keys != [] {
      assert (keys + [key])[1..] == keys[1..] + [key];
      if keys[0] != c {
        IndexOfAppend(keys[1..], key, c);
      }
    }
  }

  /** The header position of a key: where it sits in `Order`. */
  function Position(c: Column): (k: nat)
    ensures k < |Order| && Order[k] == c
  {
    match c
    case TitleColumn => 0
    case SpeakerColumn => 1
    case NumViewsColumn => 2
    case SummaryColumn => 3
    case DateColumn => 4
    case TagsColumn => 5
    case NumTranslationsColumn => 6
    case TranscriptColumn => 7
    case NumCommentsColumn => 8
    case VideoUrlColumn => 9
  }

  /** `d` holds `k` entries, all under keys of the first `k` columns. */
  predicate HoldsFirst(d: Dict, k: nat)
  {
    WellFormed(d) && |d.keys| == k && forall c :: c in d.keys ==> Position(c) < k
  }

  /** Storing the key of the next column appends it. */
  lemma PutNext(d: Dict, k: nat, v: Cell)
    requires k < |Order| && HoldsFirst(d, k)
    ensures Put(d, Order[k], v) == Dict(d.keys + [Order[k]], d.values + [v])
    ensures HoldsFirst(Put(d, Order[k], v), k + 1)
  {
    assert Position(Order[k]) == k;
  }

  /** Fill a fresh `detail_dict` (global_tech.py:131-140) and return its
      values (global_tech.py:143). The ten assignments are the statement
      `detail_dict[key] = value` for the keys in `Order`; the loop's k-th
      pass is the k-th assignment. */
  method AssembleRow(r: Record) returns (line: Line)
    ensures line == RowOf(r)
  {
    var dict := Dict([], []);
    for k := 0 to |Order|
      invariant HoldsFirst(dict, k)
      invariant dict.values == RowOf(r)[..k]
    {
      PutNext(dict, k, Value(r, Order[k]));
      assert Value(r, Order[k]) == RowOf(r)[k];
      assert RowOf(r)[..k + 1] == RowOf(r)[..k] + [RowOf(r)[k]];
      dict := Put(dict, Order[k], Value(r, Order[k]));
    }
    line := dict.values;
  }
}
