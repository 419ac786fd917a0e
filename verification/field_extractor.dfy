/**
 The field extractor of `log_file_read` (`regex_map`, `make_regex_obj`,
 `find_specs`, `specs_search`). For every field the pattern is
 `{name}:(\sTotal)?\s(?P<key>[^;\r]*)`, searched from the start of the
 text; the captured value is right-stripped, and a field with no match
 reads "Unknown".
 */
module FieldExtractor {
  import opened Wrappers
  import opened Text

  /** The eight keys of `regex_map`. */
  datatype Field = RyuVersion | Firmware | OS | CPU | GPU | RAM | GameName | LogsEnabled

  const AllFields: set<Field> := {RyuVersion, Firmware, OS, CPU, GPU, RAM, GameName, LogsEnabled}

  /** The sentinel stored for a field whose pattern does not match. */
  const Unknown: string := "Unknown"

  /** The text that precedes a field's value in the log. */
  function Label(f: Field): string
  {
    match f
    case RyuVersion => "Ryujinx Version"
    case Firmware => "Firmware Version"
    case OS => "Operating System"
    case CPU => "CPU"
    case GPU => "PrintGpuInformation"
    case RAM => "RAM"
    case GameName => "Loader LoadNca: Application Loaded"
    case LogsEnabled => "Logs Enabled"
  }

  /** The characters `[^;\r]` refuses, which end a captured value. */
  predicate IsStop(c: char)
  {
    c == ';' || c == '\r'
  }

  /** The pattern can start at `i`: the name, a colon and one whitespace character. */
  predicate LabelAt(t: string, name: string, i: nat)
  {
    StartsWithAt(t, i, name + ":") && i + |name| + 1 < |t| && IsSpace(t[i + |name| + 1])
  }

  /** `i` is where `re.search` finds the pattern: it starts there and nowhere earlier. */
  ghost predicate FirstLabelAt(t: string, name: string, i: nat)
  {
    LabelAt(t, name, i) && forall k :: 0 <= k < i ==> !LabelAt(t, name, k)
  }

  /** The leftmost start of the pattern at or after `from`. */
  function FindLabel(t: string, name: string, from: nat): (r: Option<nat>)
    ensures r.Some? ==> from <= r.value && LabelAt(t, name, r.value)
    ensures r.Some? ==> forall k :: from <= k < r.value ==> !LabelAt(t, name, k)
    ensures r.None? ==> forall k :: from <= k ==> !LabelAt(t, name, k)
    decreases |t| - from
  {
    if |t| < from + |name| + 2 then None
    else if LabelAt(t, name, from) then Some(from)
    else FindLabel(t, name, from + 1)
  }

  /**
   Where the captured value begins, given the index `j` of the whitespace after
   the colon: the optional group `(\sTotal)` is greedy, so a whitespace, "Total"
   and a further whitespace are skipped when all three are there.
   */
  function ValueStart(t: string, j: nat): nat
  {
    if j + 6 < |t| && t[j + 1..j + 6] == "Total" && IsSpace(t[j + 6]) then j + 7 else j + 1
  }

  /** End of the run `[^;\r]*` starting at `c`: the first stop character, or the end of the text. */
  function RunEnd(t: string, c: nat): (e: nat)
    requires c <= |t|
    ensures c <= e <= |t|
    ensures forall k :: c <= k < e ==> !IsStop(t[k])
    ensures e == |t| || IsStop(t[e])
    decreases |t| - c
  {
    if c == |t| || IsStop(t[c]) then c else RunEnd(t, c + 1)
  }

  /** The named group of a match starting at `i`, before stripping. */
  function Capture(t: string, name: string, i: nat): (v: string)
    requires LabelAt(t, name, i)
    ensures forall k :: 0 <= k < |v| ==> !IsStop(v[k])
  {
    var c := ValueStart(t, i + |name| + 1);
    t[c..RunEnd(t, c)]
  }

  /** `find_specs`: the stripped capture of the leftmost match, or "Unknown". */
  function FindSpecs(t: string, name: string): (v: string)
    ensures (forall i :: !LabelAt(t, name, i)) ==> v == Unknown
    ensures forall i :: FirstLabelAt(t, name, i) ==> v == RStrip(Capture(t, name, i))
    ensures ';' !in v && '\r' !in v
    ensures v == [] || !IsSpace(v[|v| - 1])
  {
    match FindLabel(t, name, 0)
    case None => Unknown
    case Some(i) =>
      FirstLabelUnique(t, name, i);
      StrippedCaptureShape(Capture(t, name, i));
      RStrip(Capture(t, name, i))
  }

  /** The leftmost match is the only one with no match before it. */
  lemma FirstLabelUnique(t: string, name: string, i: nat)
    requires LabelAt(t, name, i) && forall k :: 0 <= k < i ==> !LabelAt(t, name, k)
    ensures forall i' :: FirstLabelAt(t, name, i') ==> i' == i
  {
  }

  /** Stripping a capture keeps it free of stop characters. */
  lemma StrippedCaptureShape(raw: string)
    requires forall k :: 0 <= k < |raw| ==> !IsStop(raw[k])
    ensures ';' !in RStrip(raw) && '\r' !in RStrip(raw)
  {
    var v := RStrip(raw);
    assert forall k :: 0 <= k < |v| ==> v[k] == raw[k];
  }

  /** `specs_search`: every key of `regex_map`, each with its own field's value. */
  function SpecsSearch(t: string): (fields: map<Field, string>)
    ensures fields.Keys == AllFields
    ensures forall f :: f in fields ==> fields[f] == FindSpecs(t, Label(f))
    ensures forall f :: f in fields ==> ';' !in fields[f] && '\r' !in fields[f]
  {
    map f | f in AllFields :: FindSpecs(t, Label(f))
  }

  /** A found value is already right-stripped, so stripping it again changes nothing. */
  lemma FoundValueStripped(t: string, name: string)
    ensures RStrip(FindSpecs(t, name)) == FindSpecs(t, name)
  {
  }

  /** No field key is left out, whatever the text. */
  lemma SpecsSearchTotal(t: string, f: Field)
    ensures f in SpecsSearch(t)
  {
  }

  /** A run stops at the first stop character, or at the end of the text. */
  lemma RunEndAt(t: string, c: nat, e: nat)
    requires c <= e <= |t| && (e == |t| || IsStop(t[e]))
    requires forall k :: c <= k < e ==> !IsStop(t[k])
    ensures RunEnd(t, c) == e
  {
  }

  /**
   A field written as `name: value` at the head of the text, and ended by a
   stop character or by the end of the text, reads back as `value`, provided
   the value is what a capture can be: free of stop characters, without
   trailing whitespace, and not starting with the absorbed word "Total"
   followed by whitespace. A carriage return counts as that whitespace, so a
   bare "Total" must not be ended by one.
   */
  lemma {:induction false} RenderedFieldReadsBack(name: string, value: string, ending: string)
    requires ';' !in value && '\r' !in value
    requires value == [] || !IsSpace(value[|value| - 1])
    requires !(|value| > 5 && value[..5] == "Total" && IsSpace(value[5]))
    requires ending == [] || IsStop(ending[0])
    requires value == "Total" ==> ending == [] || ending[0] == ';'
    ensures FindSpecs(name + ": " + value + ending, name) == value
  {
    var t := name + ": " + value + ending;
    var j := |name| + 1;
    var e := j + 1 + |value|;
    assert t[..|name| + 1] == name + ":";
    assert t[j] == ' ';
    assert LabelAt(t, name, 0);
    assert FirstLabelAt(t, name, 0);
    assert t[j + 1..e] == value;
    assert e == |t| || t[e] == ending[0];
    assert |value| > 5 ==> t[j + 1..j + 6] == value[..5] && t[j + 6] == value[5];
    assert |value| < 5 && j + 6 <= |t| ==> t[j + 1..j + 6][|value|] == t[e];
    assert forall k :: 0 <= k < 5 ==> !IsStop("Total"[k]);
    assert ValueStart(t, j) == j + 1;
    forall k | j + 1 <= k < e
      ensures !IsStop(t[k])
    {
      assert t[k] == value[k - j - 1];
    }
    RunEndAt(t, j + 1, e);
    assert Capture(t, name, 0) == value;
  }

  /** A log line `Ryujinx Version: 1.2.3` gives the version `1.2.3`. */
  lemma VersionExample()
    ensures FindSpecs("Ryujinx Version: 1.2.3", Label(RyuVersion)) == "1.2.3"
  {
    RenderedFieldReadsBack("Ryujinx Version", "1.2.3", "");
    assert "Ryujinx Version" + ": " + "1.2.3" + "" == "Ryujinx Version: 1.2.3";
  }

  /**
   The "Total" quirk of the RAM line: after `name: Total ` the optional group
   swallows the word, and whitespace before the terminator is stripped, so
   `RAM: Total 16297 MB ;` reads as `16297 MB`.
   */
  lemma {:induction false} TotalAbsorbed(name: string, value: string, pad: string, ending: string)
    requires ';' !in value && '\r' !in value
    requires value == [] || !IsSpace(value[|value| - 1])
    requires forall k :: 0 <= k < |pad| ==> IsSpace(pad[k]) && pad[k] != '\r'
    requires ending == [] || IsStop(ending[0])
    ensures FindSpecs(name + ": Total " + value + pad + ending, name) == value
  {
    var head := name + ": Total ";
    var body := value + pad;
    var t := head + body + ending;
    assert t == name + ": Total " + value + pad + ending;
    var j := |name| + 1;
    var e := |head| + |body|;
    assert t[..|head|] == head;
    assert head[..|name| + 1] == name + ":";
    assert head[j..] == " Total ";
    assert t[j] == ' ';
    assert LabelAt(t, name, 0);
    assert FirstLabelAt(t, name, 0);
    assert t[j + 1..j + 6] == "Total" && t[j + 6] == ' ';
    assert ValueStart(t, j) == |head|;
    assert t[|head|..e] == body;
    assert e == |t| || t[e] == ending[0];
    forall k | |head| <= k < e
      ensures !IsStop(t[k])
    {
      assert t[k] == body[k - |head|];
    }
    RunEndAt(t, |head|, e);
    assert Capture(t, name, 0) == body;
    RStripPadding(value, pad);
  }

  /** Right-stripping removes exactly a whitespace tail. */
  lemma {:induction false} RStripPadding(value: string, pad: string)
    requires value == [] || !IsSpace(value[|value| - 1])
    requires forall k :: 0 <= k < |pad| ==> IsSpace(pad[k])
    ensures RStrip(value + pad) == value
    decreases |pad|
  {
    if pad == [] {
      assert value + pad == value;
    } else {
      var shorter := pad[..|pad| - 1];
      assert (value + pad)[..|value + pad| - 1] == value + shorter;
      RStripPadding(value, shorter);
    }
  }
}
