/**
 The Notes section of `generate_log_embed`: the log categories of the
 reference list that the `Logs_Enabled` field does not name, and the lines
 that report them.
 */
module LogNotes {
  import opened Text
  import opened Icons

  /** `default_logs`, the categories a default configuration enables. */
  const DefaultLogs: seq<string> := ["Info", "Warning", "Error", "Guest", "Stub"]

  /** The single Notes line when nothing is disabled. */
  const DefaultsEnabledLine: string := InfoIcon + " Default logs enabled"

  /** `user_logs`: the field value right-stripped, spaces removed, split on commas. */
  function UserLogs(logsEnabled: string): seq<string>
  {
    Split(Remove(RStrip(logsEnabled), ' '), ',')
  }

  /** `disabled_logs`: the reference categories the user's list does not name. */
  function DisabledLogs(logsEnabled: string): (d: set<string>)
    ensures d <= set c | c in DefaultLogs
    ensures forall c :: c in DefaultLogs ==> (c in d <==> c !in UserLogs(logsEnabled))
  {
    set c | c in DefaultLogs && c !in UserLogs(logsEnabled)
  }

  /**
   A comma-separated list of names free of spaces, commas and trailing
   whitespace disables exactly the reference categories it leaves out.
   */
  lemma {:induction false} DisabledOfList(names: seq<string>)
    requires |names| >= 1
    requires forall k :: 0 <= k < |names| ==> ',' !in names[k] && ' ' !in names[k]
    requires var v := Join(names, ','); v == [] || !IsSpace(v[|v| - 1])
    ensures forall c :: c in DefaultLogs ==> (c in DisabledLogs(Join(names, ',')) <==> c !in names)
  {
    var v := Join(names, ',');
    assert RStrip(v) == v;
    JoinWithoutSpaces(names);
    RemoveAbsent(v, ' ');
    SplitJoin(names, ',');
  }

  /** Joining space-free parts with commas gives a space-free string. */
  lemma {:induction false} JoinWithoutSpaces(names: seq<string>)
    requires forall k :: 0 <= k < |names| ==> ' ' !in names[k]
    ensures ' ' !in Join(names, ',')
  {
    if |names| > 1 {
      JoinWithoutSpaces(names[1..]);
    }
  }

  /** A value without spaces or trailing whitespace is split on commas as it stands. */
  lemma UserLogsPlain(v: string)
    requires ' ' !in v && (v == [] || !IsSpace(v[|v| - 1]))
    ensures UserLogs(v) == Split(v, ',')
  {
    RemoveAbsent(v, ' ');
  }

  /**
   Any run of spaces on either side of a comma changes nothing: only the
   tokens between commas matter.
   */
  lemma SpacesIgnored(a: string, s1: string, s2: string, b: string)
    requires forall k :: 0 <= k < |s1| ==> s1[k] == ' '
    requires forall k :: 0 <= k < |s2| ==> s2[k] == ' '
    requires b != [] && !IsSpace(b[|b| - 1])
    ensures UserLogs(a + s1 + "," + s2 + b) == UserLogs(a + "," + b)
    ensures DisabledLogs(a + s1 + "," + s2 + b) == DisabledLogs(a + "," + b)
  {
    var spaced := a + s1 + "," + s2 + b;
    var tight := a + "," + b;
    assert spaced[|spaced| - 1] == b[|b| - 1];
    assert tight[|tight| - 1] == b[|b| - 1];
    RemoveSpacedComma(a, s1, s2, b);
  }

  /** Removing spaces from the padded text gives what it gives for the tight one. */
  lemma RemoveSpacedComma(a: string, s1: string, s2: string, b: string)
    requires forall k :: 0 <= k < |s1| ==> s1[k] == ' '
    requires forall k :: 0 <= k < |s2| ==> s2[k] == ' '
    ensures Remove(a + s1 + "," + s2 + b, ' ') == Remove(a + "," + b, ' ')
  {
    var ra := Remove(a, ' ');
    var rb := Remove(b, ' ');
    RemoveSpaces(s1);
    RemoveSpaces(s2);
    RemoveComma();
    RemoveAppend(a, s1, ' ');
    assert Remove(a + s1, ' ') == ra;
    RemoveAppend(a + s1, ",", ' ');
    RemoveAppend(a + s1 + ",", s2, ' ');
    assert Remove(a + s1 + "," + s2, ' ') == ra + ",";
    RemoveAppend(a + s1 + "," + s2, b, ' ');
    RemoveAppend(a, ",", ' ');
    RemoveAppend(a + ",", b, ' ');
  }

  /** A run of spaces disappears entirely. */
  lemma {:induction false} RemoveSpaces(s: string)
    requires forall k :: 0 <= k < |s| ==> s[k] == ' '
    ensures Remove(s, ' ') == []
  {
    if s != [] {
      RemoveSpaces(s[1..]);
    }
  }

  lemma RemoveComma()
    ensures Remove(",", ' ') == ","
  {
    assert ","[1..] == [];
  }

  /** A field reading "Unknown" is one token that names no category. */
  lemma UnknownTokens()
    ensures UserLogs("Unknown") == ["Unknown"]
  {
    var v := "Unknown";
    assert v[|v| - 1] == 'n';
    assert forall k :: 0 <= k < |v| ==> v[k] != ' ' && v[k] != ',';
    UserLogsPlain(v);
    SplitAbsent(v, ',');
  }

  lemma DisabledByUnknownToken(v: string)
    requires UserLogs(v) == ["Unknown"]
    ensures DisabledLogs(v) == set c | c in DefaultLogs
  {
    var d := DisabledLogs(v);
    forall c | c in DefaultLogs
      ensures c in d
    {
      assert c != "Unknown";
    }
  }

  /** When the field is missing ("Unknown") every reference category is disabled. */
  lemma UnknownDisablesAll()
    ensures DisabledLogs("Unknown") == set c | c in DefaultLogs
  {
    UnknownTokens();
    DisabledByUnknownToken("Unknown");
  }

  lemma InfoGuestSplit()
    ensures Split("Info,Guest", ',') == ["Info", "Guest"]
  {
    var names := ["Info", "Guest"];
    assert Join(names, ',') == "Info,Guest";
    assert forall k :: 0 <= k < |names| ==> ',' !in names[k];
    SplitJoin(names, ',');
  }

  lemma InfoGuestTokens()
    ensures UserLogs("Info,Guest") == ["Info", "Guest"]
  {
    var v := "Info,Guest";
    assert v[|v| - 1] == 't';
    assert forall k :: 0 <= k < |v| ==> v[k] != ' ';
    UserLogsPlain(v);
    InfoGuestSplit();
  }

  lemma DisabledByInfoGuest(v: string)
    requires UserLogs(v) == ["Info", "Guest"]
    ensures DisabledLogs(v) == {"Warning", "Error", "Stub"}
  {
    InfoGuestDisables(v);
    InfoGuestKeeps(v);
  }

  lemma InfoGuestDisables(v: string)
    requires UserLogs(v) == ["Info", "Guest"]
    ensures {"Warning", "Error", "Stub"} <= DisabledLogs(v)
  {
    NotInPair("Warning", "Info", "Guest");
    NotInPair("Error", "Info", "Guest");
    NotInPair("Stub", "Info", "Guest");
    assert DefaultLogs[1] == "Warning" && DefaultLogs[2] == "Error" && DefaultLogs[4] == "Stub";
  }

  /** A name whose first letter starts neither token is not among them. */
  lemma NotInPair(c: string, a: string, b: string)
    requires c != [] && a != [] && b != [] && c[0] != a[0] && c[0] != b[0]
    ensures c !in [a, b]
  {
  }

  lemma InfoGuestKeeps(v: string)
    requires UserLogs(v) == ["Info", "Guest"]
    ensures DisabledLogs(v) <= {"Warning", "Error", "Stub"}
  {
    var u := ["Info", "Guest"];
    assert u[0] == "Info" && u[1] == "Guest";
    forall c | c in DisabledLogs(v)
      ensures c in {"Warning", "Error", "Stub"}
    {
      assert c in DefaultLogs && c !in u;
    }
  }

  /** `Info,Guest` leaves Warning, Error and Stub disabled. */
  lemma InfoGuestExample()
    ensures DisabledLogs("Info,Guest") == {"Warning", "Error", "Stub"}
  {
    InfoGuestTokens();
    DisabledByInfoGuest("Info,Guest");
  }

  /** Naming every reference category disables none of them. */
  lemma DefaultListDisablesNothing()
    ensures DisabledLogs(Join(DefaultLogs, ',')) == {}
  {
    var v := Join(DefaultLogs, ',');
    assert DefaultLogs[4..] == ["Stub"];
    assert v[|v| - 1] == 'b' by {
      JoinLast(DefaultLogs, ',');
    }
    forall k | 0 <= k < |DefaultLogs|
      ensures ',' !in DefaultLogs[k] && ' ' !in DefaultLogs[k]
    {
    }
    DisabledOfList(DefaultLogs);
    NamedAllDisablesNothing(v);
  }

  /** A value naming every reference category disables nothing. */
  lemma NamedAllDisablesNothing(v: string)
    requires forall c :: c in DefaultLogs ==> c !in DisabledLogs(v)
    ensures DisabledLogs(v) == {}
  {
  }

  /**
   An iteration order of Python's `set` over the reference categories: each
   category exactly once. Any order of a subset is a filtered such order.
   */
  predicate IsEnumeration(order: seq<string>)
  {
    && Distinct(order)
    && (forall c :: c in order ==> c in DefaultLogs)
    && (forall c :: c in DefaultLogs ==> c in order)
  }

  /** The warning line for one disabled category. */
  function WarnLine(category: string): string
  {
    WarnIcon + " " + category + " log is not enabled"
  }

  /** The categories of `order` that are in `d`, in the order of `order`. */
  function Keep(order: seq<string>, d: set<string>): (r: seq<string>)
    ensures forall c :: c in r <==> c in order && c in d
    ensures Distinct(order) ==> Distinct(r)
  {
    if order == [] then []
    else if order[0] in d then [order[0]] + Keep(order[1..], d)
    else Keep(order[1..], d)
  }

  /** The Notes body: one warning line per disabled category, or the defaults line. */
  function NotesBody(disabled: set<string>, order: seq<string>): (body: string)
    requires disabled <= set c | c in DefaultLogs
    requires IsEnumeration(order)
    ensures disabled == {} ==> body == DefaultsEnabledLine
    ensures disabled != {} ==> |Split(body, '\n')| == |disabled|
    ensures disabled != {} ==> forall line :: line in Split(body, '\n') <==> exists c :: c in disabled && line == WarnLine(c)
  {
    if disabled == {} then DefaultsEnabledLine
    else
      var kept := Keep(order, disabled);
      var lines := seq(|kept|, k requires 0 <= k < |kept| => WarnLine(kept[k]));
      NotesLines(disabled, order, kept, lines);
      Join(lines, '\n')
  }

  lemma NotesLines(disabled: set<string>, order: seq<string>, kept: seq<string>, lines: seq<string>)
    requires disabled != {} && disabled <= set c | c in DefaultLogs
    requires IsEnumeration(order)
    requires kept == Keep(order, disabled)
    requires lines == seq(|kept|, k requires 0 <= k < |kept| => WarnLine(kept[k]))
    ensures Split(Join(lines, '\n'), '\n') == lines
    ensures |lines| == |disabled|
    ensures forall line :: line in lines <==> exists c :: c in disabled && line == WarnLine(c)
  {
    NotesLinesCount(disabled, order, kept);
    NotesLinesSplit(disabled, kept, lines);
    NotesLinesMembers(disabled, order, kept, lines);
  }

  /** Every disabled category is kept, once. */
  lemma NotesLinesCount(disabled: set<string>, order: seq<string>, kept: seq<string>)
    requires disabled != {} && disabled <= set c | c in DefaultLogs
    requires IsEnumeration(order)
    requires kept == Keep(order, disabled)
    ensures |kept| == |disabled| > 0
  {
    assert (set c | c in kept) == disabled;
    DistinctCard(kept);
  }

  /** The warning lines are single lines, so the joined body splits back into them. */
  lemma NotesLinesSplit(disabled: set<string>, kept: seq<string>, lines: seq<string>)
    requires disabled <= set c | c in DefaultLogs
    requires forall c :: c in kept ==> c in disabled
    requires |lines| == |kept| > 0
    requires forall k :: 0 <= k < |kept| ==> lines[k] == WarnLine(kept[k])
    ensures Split(Join(lines, '\n'), '\n') == lines
  {
    forall k | 0 <= k < |lines|
      ensures '\n' !in lines[k]
    {
      assert kept[k] in kept;
      assert kept[k] in disabled;
      DefaultsOneLine(kept[k]);
      WarnLineOneLine(kept[k]);
    }
    SplitJoin(lines, '\n');
  }

  /** The lines are exactly the warning lines of the disabled categories. */
  lemma NotesLinesMembers(disabled: set<string>, order: seq<string>, kept: seq<string>, lines: seq<string>)
    requires forall c :: c in kept <==> c in order && c in disabled
    requires forall c :: c in disabled ==> c in order
    requires |lines| == |kept|
    requires forall k :: 0 <= k < |kept| ==> lines[k] == WarnLine(kept[k])
    ensures forall line :: line in lines <==> exists c :: c in disabled && line == WarnLine(c)
  {
    forall line | line in lines
      ensures exists c :: c in disabled && line == WarnLine(c)
    {
      var k :| 0 <= k < |lines| && lines[k] == line;
      assert kept[k] in disabled;
    }
    forall c | c in disabled
      ensures WarnLine(c) in lines
    {
      var k :| 0 <= k < |kept| && kept[k] == c;
      assert lines[k] == WarnLine(c);
    }
  }

  /** A warning line is a single line when its category is. */
  lemma WarnLineOneLine(category: string)
    requires '\n' !in category
    ensures '\n' !in WarnLine(category)
  {
    var tail := " log is not enabled";
    assert forall k :: 0 <= k < |tail| ==> tail[k] != '\n';
    assert forall k :: 0 <= k < |WarnIcon| ==> WarnIcon[k] != '\n';
    assert WarnLine(category) == (WarnIcon + " ") + category + tail;
  }

  /** No reference category holds a newline. */
  lemma DefaultsOneLine(category: string)
    requires category in DefaultLogs
    ensures '\n' !in category
  {
    var k :| 0 <= k < |DefaultLogs| && DefaultLogs[k] == category;
    assert forall j :: 0 <= j < |category| ==> category[j] != '\n';
  }
}
