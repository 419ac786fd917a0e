/**
 The summary builder `generate_log_embed` and the entry point
 `log_file_read`. The Discord embed becomes a plain value: a title, a
 footer and an ordered list of named sections.
 */
module LogEmbed {
  import opened Wrappers
  import opened Text
  import FilenameGate
  import opened FieldExtractor
  import ModDetector
  import ErrorExcerpt
  import LogNotes

  /** The fields `generate_log_embed` can add, in the order it adds them. */
  datatype SectionKind = RyujinxInfo | HardwareInfo | EmptyLog | ErrorSummary | Mods | Notes

  /** The field name shown for each kind of section. */
  function SectionName(k: SectionKind): string
  {
    match k
    case RyujinxInfo => "Ryujinx Info"
    case HardwareInfo => "Hardware Info"
    case EmptyLog => "Empty Log"
    case ErrorSummary => "Error Summary"
    case Mods => "Mods"
    case Notes => "Notes"
  }

  /** Position of a kind in the order the builder adds sections. */
  function Rank(k: SectionKind): nat
  {
    match k
    case RyujinxInfo => 0
    case HardwareInfo => 1
    case EmptyLog => 2
    case ErrorSummary => 3
    case Mods => 4
    case Notes => 5
  }

  datatype Section = Section(kind: SectionKind, body: string)

  datatype Embed = Embed(title: string, footer: string, sections: seq<Section>)

  const EmptyLogText: string :=
    "This log file appears to be empty. To get a proper log, follow these steps:\n"
    + " 1) Start a game up.\n 2) Play until your issue occurs.\n 3) Upload your log file."

  /** The kinds of the sections, in order. */
  function Kinds(sections: seq<Section>): (kinds: seq<SectionKind>)
    ensures |kinds| == |sections|
    ensures forall k :: 0 <= k < |sections| ==> kinds[k] == sections[k].kind
  {
    seq(|sections|, k requires 0 <= k < |sections| => sections[k].kind)
  }

  /** The body of the first section of this kind, if there is one. */
  function Find(sections: seq<Section>, kind: SectionKind): (r: Option<string>)
    ensures r.Some? <==> kind in Kinds(sections)
  {
    if sections == [] then None
    else if sections[0].kind == kind then Some(sections[0].body)
    else
      assert Kinds(sections) == [sections[0].kind] + Kinds(sections[1..]);
      Find(sections[1..], kind)
  }

  /** Looking up in a concatenation looks in the first part, then in the second. */
  lemma {:induction false} FindAppend(x: seq<Section>, y: seq<Section>, kind: SectionKind)
    ensures Find(x + y, kind) == if Find(x, kind).Some? then Find(x, kind) else Find(y, kind)
  {
    if x != [] {
      assert (x + y)[1..] == x[1..] + y;
      FindAppend(x[1..], y, kind);
    } else {
      assert x + y == y;
    }
  }

  /** Strictly increasing rank: the builder's order, each kind at most once. */
  predicate InCanonicalOrder(kinds: seq<SectionKind>)
  {
    forall i, j :: 0 <= i < j < |kinds| ==> Rank(kinds[i]) < Rank(kinds[j])
  }

  /** The section kinds the builder emits for the three conditions. */
  function Layout(empty: bool, error: bool, mods: bool): seq<SectionKind>
  {
    [RyujinxInfo, HardwareInfo]
    + (if empty then [EmptyLog] else [])
    + (if error then [ErrorSummary] else [])
    + (if mods then [Mods] else [])
    + [Notes]
  }

  /** Every kind in `kinds` ranks below `n`. */
  predicate RanksBelow(kinds: seq<SectionKind>, n: int)
  {
    forall i :: 0 <= i < |kinds| ==> Rank(kinds[i]) < n
  }

  /** Appending `kind` (or nothing) after kinds that rank below it keeps the order. */
  lemma ExtendOrder(kinds: seq<SectionKind>, present: bool, kind: SectionKind)
    requires InCanonicalOrder(kinds) && RanksBelow(kinds, Rank(kind))
    ensures InCanonicalOrder(kinds + (if present then [kind] else []))
    ensures RanksBelow(kinds + (if present then [kind] else []), Rank(kind) + 1)
  {
    var l := kinds + (if present then [kind] else []);
    forall i | 0 <= i < |l|
      ensures Rank(l[i]) <= Rank(kind)
    {
      if i < |kinds| { assert l[i] == kinds[i]; }
    }
    forall i, j | 0 <= i < j < |l|
      ensures Rank(l[i]) < Rank(l[j])
    {
      if j < |kinds| {
        assert l[i] == kinds[i] && l[j] == kinds[j];
      } else {
        assert l[i] == kinds[i];
      }
    }
  }

  /** Each layout is in the canonical order. */
  lemma LayoutOrdered(empty: bool, error: bool, mods: bool)
    ensures InCanonicalOrder(Layout(empty, error, mods))
  {
    var l0: seq<SectionKind> := [RyujinxInfo, HardwareInfo];
    assert InCanonicalOrder(l0) && RanksBelow(l0, Rank(EmptyLog));
    ExtendOrder(l0, empty, EmptyLog);
    var l1 := l0 + (if empty then [EmptyLog] else []);
    ExtendOrder(l1, error, ErrorSummary);
    var l2 := l1 + (if error then [ErrorSummary] else []);
    ExtendOrder(l2, mods, Mods);
    var l3 := l2 + (if mods then [Mods] else []);
    ExtendOrder(l3, true, Notes);
  }

  function RyujinxInfoBody(info: map<Field, string>): string
    requires AllFields <= info.Keys
  {
    "**Version:** " + info[RyuVersion] + "\n**Firmware:** " + info[Firmware]
  }

  function HardwareInfoBody(info: map<Field, string>): string
    requires AllFields <= info.Keys
  {
    "**CPU:** " + info[CPU] + "\n**GPU:** " + info[GPU] + "\n**RAM:** " + info[RAM] + "\n**OS:** " + info[OS]
  }

  /** A section list holding `s` when `present`, and nothing otherwise. */
  function Optional(present: bool, s: Section): seq<Section>
  {
    if present then [s] else []
  }

  /** The error section: the excerpt in a code block, when one was found. */
  function ErrorSections(err: Option<string>): seq<Section>
  {
    match err
    case None => []
    case Some(m) => [Section(ErrorSummary, "```" + m + "```")]
  }

  /** The mods section: one line per mod, when any was found. */
  function ModSections(mods: Option<seq<string>>): seq<Section>
  {
    match mods
    case None => []
    case Some(lines) => [Section(Mods, Join(lines, '\n'))]
  }

  /**
   `generate_log_embed`. The order in which Python iterates the set of
   disabled categories is not fixed, so it is the parameter `order`.
   */
  function GenerateLogEmbed(author: string, info: map<Field, string>, log: string, order: seq<string>): (e: Embed)
    requires AllFields <= info.Keys
    requires LogNotes.IsEnumeration(order)
    ensures e.title == info[GameName]
    ensures e.footer == "Log uploaded by " + author
    ensures 3 <= |e.sections| <= 6
    ensures InCanonicalOrder(Kinds(e.sections))
    ensures e.sections[0] == Section(RyujinxInfo, RyujinxInfoBody(info))
    ensures e.sections[1] == Section(HardwareInfo, HardwareInfoBody(info))
    ensures e.sections[|e.sections| - 1]
         == Section(Notes, LogNotes.NotesBody(LogNotes.DisabledLogs(info[LogsEnabled]), order))
    ensures Find(e.sections, EmptyLog) == if info[GameName] == Unknown then Some(EmptyLogText) else None
    ensures Find(e.sections, ErrorSummary).Some? <==> ErrorExcerpt.FindErrorMessage(log).Some?
    ensures Find(e.sections, ErrorSummary).Some?
        ==> Find(e.sections, ErrorSummary).value == "```" + ErrorExcerpt.FindErrorMessage(log).value + "```"
    ensures Find(e.sections, Mods).Some? <==> ModDetector.ModsInformation(log).Some?
    ensures Find(e.sections, Mods).Some?
        ==> Split(Find(e.sections, Mods).value, '\n') == ModDetector.ModsInformation(log).value
  {
    var head := [Section(RyujinxInfo, RyujinxInfoBody(info)), Section(HardwareInfo, HardwareInfoBody(info))];
    var notes := Section(Notes, LogNotes.NotesBody(LogNotes.DisabledLogs(info[LogsEnabled]), order));
    ModLinesSplit(log);
    Embed(info[GameName], "Log uploaded by " + author,
          Assemble(head, info[GameName] == Unknown, ErrorExcerpt.FindErrorMessage(log), ModDetector.ModsInformation(log), notes))
  }

  /**
   The section list: the two fixed sections, then the empty-log warning, the
   error excerpt and the mod list when they apply, then the notes.
   */
  function Assemble(head: seq<Section>, empty: bool, err: Option<string>, mods: Option<seq<string>>, notes: Section): (ss: seq<Section>)
    requires Kinds(head) == [RyujinxInfo, HardwareInfo] && notes.kind == Notes
    ensures 3 <= |ss| <= 6
    ensures ss[..2] == head && ss[|ss| - 1] == notes
    ensures InCanonicalOrder(Kinds(ss))
    ensures Find(ss, EmptyLog) == if empty then Some(EmptyLogText) else None
    ensures Find(ss, ErrorSummary) == if err.Some? then Some("```" + err.value + "```") else None
    ensures Find(ss, Mods) == if mods.Some? then Some(Join(mods.value, '\n')) else None
  {
    AssembledShape(head, empty, err, mods, notes);
    AssembledFinds(head, empty, err, mods, notes);
    head + Optional(empty, Section(EmptyLog, EmptyLogText)) + ErrorSections(err) + ModSections(mods) + [notes]
  }

  lemma AssembledShape(head: seq<Section>, empty: bool, err: Option<string>, mods: Option<seq<string>>, notes: Section)
    requires Kinds(head) == [RyujinxInfo, HardwareInfo] && notes.kind == Notes
    ensures var ss := head + Optional(empty, Section(EmptyLog, EmptyLogText)) + ErrorSections(err) + ModSections(mods) + [notes];
      && 3 <= |ss| <= 6
      && ss[..2] == head && ss[|ss| - 1] == notes
      && InCanonicalOrder(Kinds(ss))
  {
    var a := Optional(empty, Section(EmptyLog, EmptyLogText));
    SectionKinds(head, a, ErrorSections(err), ModSections(mods), notes, empty, err, mods);
    LayoutOrdered(empty, err.Some?, mods.Some?);
    assert |head| == 2 by { assert |Kinds(head)| == |head|; }
  }

  lemma AssembledFinds(head: seq<Section>, empty: bool, err: Option<string>, mods: Option<seq<string>>, notes: Section)
    requires Kinds(head) == [RyujinxInfo, HardwareInfo] && notes.kind == Notes
    ensures var ss := head + Optional(empty, Section(EmptyLog, EmptyLogText)) + ErrorSections(err) + ModSections(mods) + [notes];
      && Find(ss, EmptyLog) == (if empty then Some(EmptyLogText) else None)
      && Find(ss, ErrorSummary) == (if err.Some? then Some("```" + err.value + "```") else None)
      && Find(ss, Mods) == (if mods.Some? then Some(Join(mods.value, '\n')) else None)
  {
    var a := Optional(empty, Section(EmptyLog, EmptyLogText));
    var b := ErrorSections(err);
    var c := ModSections(mods);
    FindInMiddle(head, a, b, c, notes, EmptyLog);
    FindInMiddle(head, a, b, c, notes, ErrorSummary);
    FindInMiddle(head, a, b, c, notes, Mods);
    FindOptional(a, b, c, EmptyLog);
    FindOptional(a, b, c, ErrorSummary);
    FindOptional(a, b, c, Mods);
  }

  /** The kinds of the assembled sections are the layout for the three conditions. */
  lemma SectionKinds(head: seq<Section>, a: seq<Section>, b: seq<Section>, c: seq<Section>, notes: Section,
                     empty: bool, err: Option<string>, mods: Option<seq<string>>)
    requires Kinds(head) == [RyujinxInfo, HardwareInfo] && notes.kind == Notes
    requires a == Optional(empty, Section(EmptyLog, EmptyLogText))
    requires b == ErrorSections(err) && c == ModSections(mods)
    ensures Kinds(head + a + b + c + [notes]) == Layout(empty, err.Some?, mods.Some?)
  {
    KindsAppend(head, a);
    KindsAppend(head + a, b);
    KindsAppend(head + a + b, c);
    KindsAppend(head + a + b + c, [notes]);
    assert Kinds(a) == (if empty then [EmptyLog] else []);
    assert Kinds(b) == (if err.Some? then [ErrorSummary] else []);
    assert Kinds(c) == (if mods.Some? then [Mods] else []);
    assert Kinds([notes]) == [Notes];
  }

  lemma KindsAppend(x: seq<Section>, y: seq<Section>)
    ensures Kinds(x + y) == Kinds(x) + Kinds(y)
  {
  }

  /** Outside the three optional parts there is nothing to find for an optional kind. */
  lemma FindInMiddle(head: seq<Section>, a: seq<Section>, b: seq<Section>, c: seq<Section>, notes: Section, kind: SectionKind)
    requires Kinds(head) == [RyujinxInfo, HardwareInfo] && notes.kind == Notes
    requires kind in {EmptyLog, ErrorSummary, Mods}
    ensures Find(head + a + b + c + [notes], kind) == Find(a + (b + c), kind)
  {
    assert kind !in Kinds(head);
    assert kind !in Kinds([notes]);
    assert head + a + b + c + [notes] == head + ((a + (b + c)) + [notes]);
    FindAppend(head, (a + (b + c)) + [notes], kind);
    FindAppend(a + (b + c), [notes], kind);
  }

  /** When each optional part holds at most its own kind, each kind is found in its own part. */
  lemma FindOptional(a: seq<Section>, b: seq<Section>, c: seq<Section>, kind: SectionKind)
    requires Kinds(a) <= [EmptyLog] && Kinds(b) <= [ErrorSummary] && Kinds(c) <= [Mods]
    ensures Find(a + (b + c), kind)
         == if kind == EmptyLog then Find(a, kind) else if kind == ErrorSummary then Find(b, kind)
            else if kind == Mods then Find(c, kind) else None
  {
    FindAppend(a, b + c, kind);
    FindAppend(b, c, kind);
  }

  /** The mod lines have no line breaks, so joining them and splitting again gives them back. */
  lemma ModLinesSplit(log: string)
    ensures ModDetector.ModsInformation(log).Some?
        ==> Split(Join(ModDetector.ModsInformation(log).value, '\n'), '\n') == ModDetector.ModsInformation(log).value
  {
    match ModDetector.ModsInformation(log)
    case None =>
    case Some(lines) =>
      forall k | 0 <= k < |lines|
        ensures '\n' !in lines[k]
      {
        ModDetector.ModLineOneLine(log, k);
      }
      SplitJoin(lines, '\n');
  }

  /**
   `log_file_read` for one attachment: a log whose name fails the filter gives
   no embed; any other gives the embed built from its text, signed with the
   author's `@name`.
   */
  function LogFileRead(filename: string, authorName: string, log: string, order: seq<string>): (r: Option<Embed>)
    requires LogNotes.IsEnumeration(order)
    ensures r.None? <==> !FilenameGate.IsLogFilename(filename)
    ensures r.Some? ==> r.value == GenerateLogEmbed("@" + authorName, SpecsSearch(log), log, order)
  {
    if FilenameGate.IsLogFilename(filename) then
      Some(GenerateLogEmbed("@" + authorName, SpecsSearch(log), log, order))
    else None
  }

  /**
   An accepted log's embed is titled with the game name read from the log,
   signed with the author's `@name`, and carries the empty-log warning
   exactly when no game name was found.
   */
  lemma LogFileReadEmbed(filename: string, authorName: string, log: string, order: seq<string>)
    requires LogNotes.IsEnumeration(order)
    requires FilenameGate.IsLogFilename(filename)
    ensures var e := LogFileRead(filename, authorName, log, order).value;
      && e.title == FindSpecs(log, Label(GameName))
      && e.footer == "Log uploaded by " + ("@" + authorName)
      && (Find(e.sections, EmptyLog).Some? <==> FindSpecs(log, Label(GameName)) == Unknown)
  {
    var info := SpecsSearch(log);
    assert GameName in info;
    var e := GenerateLogEmbed("@" + authorName, info, log, order);
    assert e.title == FindSpecs(log, Label(GameName));
  }

  /** A log with no game line is reported as empty, with the instructions for a proper log. */
  lemma NoGameLineIsEmptyLog(filename: string, authorName: string, log: string, order: seq<string>)
    requires LogNotes.IsEnumeration(order)
    requires FilenameGate.IsLogFilename(filename)
    requires forall i :: !LabelAt(log, Label(GameName), i)
    ensures var e := LogFileRead(filename, authorName, log, order).value;
      e.title == Unknown && Find(e.sections, EmptyLog) == Some(EmptyLogText)
  {
    var info := SpecsSearch(log);
    assert GameName in info;
    assert info[GameName] == Unknown;
  }

  /** A log without the ` |E| ` marker gets no error section. */
  lemma NoMarkerNoErrorSection(filename: string, authorName: string, log: string, order: seq<string>)
    requires LogNotes.IsEnumeration(order)
    requires FilenameGate.IsLogFilename(filename)
    requires forall b :: !StartsWithAt(log, b, ErrorExcerpt.Marker)
    ensures Find(LogFileRead(filename, authorName, log, order).value.sections, ErrorSummary) == None
  {
    ErrorExcerpt.NoMarkerNoExcerpt(log);
  }
}
