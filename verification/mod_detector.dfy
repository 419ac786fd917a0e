/**
 The mod detector `mods_information`: `re.findall` of
 `Found mod\s'(.+?)'\s(\[.+?\])` over the whole log, each match rendered as
 an information line naming the mod and its storage kind. `.` matches any
 character but a newline; both `.+?` are lazy, so the name ends at the first
 quote that lets the rest match, and the tag at the first closing bracket
 after at least one character.
 */
module ModDetector {
  import opened Wrappers
  import opened Text
  import opened Icons

  const Header: string := "Found mod"

  datatype StorageKind = ExeFS | RomFS

  /** One `findall` match: where it starts and ends in the log, and its two groups. */
  datatype ModMatch = ModMatch(start: nat, end: nat, name: string, tag: string)

  /** The status tag `[E]` marks an ExeFS mod; every other tag a RomFS mod. */
  function KindOf(tag: string): StorageKind
  {
    if tag == "[E]" then ExeFS else RomFS
  }

  function KindName(k: StorageKind): string
  {
    match k
    case ExeFS => "ExeFS"
    case RomFS => "RomFS"
  }

  /** `Found mod`, one whitespace character and the opening quote, at `i`. */
  predicate HeaderAt(t: string, i: nat)
  {
    StartsWithAt(t, i, Header) && i + 10 < |t| && IsSpace(t[i + 9]) && t[i + 10] == '\''
  }

  /** `\[.+?\]` matches `t[q..r + 1]`: `r` is the first `]` after at least one newline-free character. */
  ghost predicate TagEndsAt(t: string, q: nat, r: nat)
  {
    && q + 2 <= r < |t|
    && t[q] == '['
    && t[r] == ']'
    && (forall k :: q < k < r ==> t[k] != '\n')
    && (forall k :: q + 1 < k < r ==> t[k] != ']')
  }

  /** `\[.+?\]` matches at `q`. */
  ghost predicate HasTagAt(t: string, q: nat)
  {
    exists r :: TagEndsAt(t, q, r)
  }

  /** A name group starting at `s` may end at `p`: newline-free, then `'`, whitespace and a tag. */
  ghost predicate NameEndsAt(t: string, s: nat, p: nat)
  {
    && s < p
    && p + 1 < |t|
    && (forall k :: s <= k < p ==> t[k] != '\n')
    && t[p] == '\''
    && IsSpace(t[p + 1])
    && HasTagAt(t, p + 2)
  }

  /** The pattern matches at `i` with the name ending at `p`. */
  ghost predicate ModAt(t: string, i: nat, p: nat)
  {
    HeaderAt(t, i) && NameEndsAt(t, i + 11, p)
  }

  ghost predicate NoModAt(t: string, i: nat)
  {
    forall p :: !ModAt(t, i, p)
  }

  /** No match of the pattern starts in `[lo, hi)`. */
  ghost predicate NoModIn(t: string, lo: nat, hi: nat)
  {
    forall i :: lo <= i < hi ==> NoModAt(t, i)
  }

  /** `m` is the match the regular expression engine reports for a start at `m.start`. */
  ghost predicate IsModMatch(t: string, m: ModMatch)
  {
    var s := m.start + 11;
    var p := s + |m.name|;
    && 0 < m.end <= |t|
    && ModAt(t, m.start, p)
    && (forall p' :: s < p' < p ==> !NameEndsAt(t, s, p'))
    && TagEndsAt(t, p + 2, m.end - 1)
    && m.name == t[s..p]
    && m.tag == t[p + 2..m.end]
  }

  /** Scans for the closing bracket of a tag opened at `q`; `k` is the next candidate. */
  function CloseBracket(t: string, q: nat, k: nat): (r: Option<nat>)
    requires q + 2 <= k && q < |t| && t[q] == '['
    requires forall j :: q < j < k && j < |t| ==> t[j] != '\n'
    requires forall j :: q + 1 < j < k && j < |t| ==> t[j] != ']'
    ensures r.Some? ==> TagEndsAt(t, q, r.value)
    ensures r.None? ==> forall e :: !TagEndsAt(t, q, e)
    decreases |t| - k
  {
    if k >= |t| then None
    else if t[k] == ']' then Some(k)
    else if t[k] == '\n' then None
    else CloseBracket(t, q, k + 1)
  }

  /** The end of the tag opened at `q`, if `\[.+?\]` matches there. */
  function TagEnd(t: string, q: nat): (r: Option<nat>)
    ensures r.Some? ==> TagEndsAt(t, q, r.value)
    ensures r.None? ==> forall e :: !TagEndsAt(t, q, e)
  {
    if q + 1 < |t| && t[q] == '[' && t[q + 1] != '\n' then CloseBracket(t, q, q + 2) else None
  }

  /** The lazy name group: the least end at or after `p` for a name starting at `s`. */
  function NameEnd(t: string, s: nat, p: nat): (r: Option<nat>)
    requires s < p <= |t|
    requires forall k :: s <= k < p - 1 ==> t[k] != '\n'
    requires forall p' :: s < p' < p ==> !NameEndsAt(t, s, p')
    ensures r.Some? ==> NameEndsAt(t, s, r.value)
    ensures r.Some? ==> forall p' :: s < p' < r.value ==> !NameEndsAt(t, s, p')
    ensures r.None? ==> forall p' :: !NameEndsAt(t, s, p')
    decreases |t| - p
  {
    if p + 1 >= |t| || t[p - 1] == '\n' then None
    else if t[p] == '\'' && IsSpace(t[p + 1]) && TagEnd(t, p + 2).Some? then Some(p)
    else NameEnd(t, s, p + 1)
  }

  /** The match that starts at `i`, if any. */
  function MatchAt(t: string, i: nat): (r: Option<ModMatch>)
    ensures r.Some? ==> r.value.start == i && IsModMatch(t, r.value)
    ensures r.None? ==> NoModAt(t, i)
  {
    if !HeaderAt(t, i) || |t| < i + 12 then None
    else match NameEnd(t, i + 11, i + 12)
      case None => None
      case Some(p) =>
        var r := TagEnd(t, p + 2).value;
        Some(ModMatch(i, r + 1, t[i + 11..p], t[p + 2..r + 1]))
  }

  /**
   `ms` is what `re.findall` reports from `from` on: nothing matches before
   the first match, the first match is a genuine one, and the rest is what is
   reported from its end on; with no match, nothing matches anywhere.
   */
  ghost predicate Scanned(t: string, from: nat, ms: seq<ModMatch>)
    decreases ms
  {
    if ms == [] then NoModIn(t, from, |t|)
    else
      && IsModMatch(t, ms[0])
      && from <= ms[0].start
      && NoModIn(t, from, ms[0].start)
      && Scanned(t, ms[0].end, ms[1..])
  }

  /** `re.findall` from `from` on. */
  function ScanMods(t: string, from: nat): (ms: seq<ModMatch>)
    ensures Scanned(t, from, ms)
    decreases |t| - from
  {
    if from >= |t| then []
    else match MatchAt(t, from)
      case None =>
        SkipScanned(t, from, ScanMods(t, from + 1));
        ScanMods(t, from + 1)
      case Some(m) =>
        assert ([m] + ScanMods(t, m.end))[1..] == ScanMods(t, m.end);
        [m] + ScanMods(t, m.end)
  }

  /** A position where nothing matches can be skipped. */
  lemma SkipScanned(t: string, from: nat, ms: seq<ModMatch>)
    requires NoModAt(t, from) && Scanned(t, from + 1, ms)
    ensures Scanned(t, from, ms)
  {
  }

  /** Every reported match is genuine and starts at or after `from`. */
  lemma {:induction false} ScannedMatches(t: string, from: nat, ms: seq<ModMatch>)
    requires Scanned(t, from, ms)
    ensures forall k :: 0 <= k < |ms| ==> IsModMatch(t, ms[k]) && from <= ms[k].start
    decreases ms
  {
    if ms != [] {
      ScannedMatches(t, ms[0].end, ms[1..]);
      forall k | 0 < k < |ms|
        ensures IsModMatch(t, ms[k]) && from <= ms[k].start
      {
        assert ms[k] == ms[1..][k - 1];
      }
    }
  }

  /** The reported matches are in order and do not overlap. */
  lemma {:induction false} ScannedOrdered(t: string, from: nat, ms: seq<ModMatch>)
    requires Scanned(t, from, ms)
    ensures forall k :: 0 <= k < |ms| - 1 ==> ms[k].start < ms[k].end <= ms[k + 1].start
    decreases ms
  {
    if ms != [] {
      ScannedOrdered(t, ms[0].end, ms[1..]);
      if |ms| > 1 {
        ScannedMatches(t, ms[0].end, ms[1..]);
        assert ms[1] == ms[1..][0];
      }
      forall k | 0 < k < |ms| - 1
        ensures ms[k].start < ms[k].end <= ms[k + 1].start
      {
        assert ms[k] == ms[1..][k - 1] && ms[k + 1] == ms[1..][k];
      }
    }
  }

  /** A reported match is a start position the pattern matches at, inside the log. */
  lemma MatchIsFound(t: string, m: ModMatch)
    requires IsModMatch(t, m)
    ensures m.start < |t| && !NoModAt(t, m.start)
  {
    assert ModAt(t, m.start, m.start + 11 + |m.name|);
  }

  /** The line shown for one mod. */
  function ModLine(m: ModMatch): string
  {
    InfoIcon + " " + m.name + " (" + KindName(KindOf(m.tag)) + ")"
  }

  /**
   `mods_information`: one line per match, in the order of the log, or
   `None` (never an empty list) when nothing matches.
   */
  function ModsInformation(t: string): (r: Option<seq<string>>)
    ensures r.None? <==> NoModIn(t, 0, |t|)
    ensures r.Some? ==> |r.value| == |ScanMods(t, 0)| > 0
    ensures r.Some? ==> forall k :: 0 <= k < |r.value| ==> r.value[k] == ModLine(ScanMods(t, 0)[k])
  {
    var ms := ScanMods(t, 0);
    if |ms| == 0 then None
    else
      MatchIsFound(t, ms[0]);
      Some(seq(|ms|, k requires 0 <= k < |ms| => ModLine(ms[k])))
  }

  /** A tag has one end: the first closing bracket after its first character. */
  lemma TagEndUnique(t: string, q: nat, r1: nat, r2: nat)
    requires TagEndsAt(t, q, r1) && TagEndsAt(t, q, r2)
    ensures r1 == r2
  {
  }

  /** The text a `Found mod` log line carries for a mod with this name and status. */
  function ModLogText(name: string, status: string): string
  {
    Header + " '" + name + "' [" + status + "]"
  }

  /**
   A `Found mod` line for a newline- and quote-free name and a non-empty
   newline- and bracket-free status is detected as exactly that mod, whatever
   follows it.
   */
  lemma {:induction false} RenderedModDetected(name: string, status: string, rest: string)
    requires |name| > 0 && '\n' !in name && '\'' !in name
    requires |status| > 0 && '\n' !in status && ']' !in status
    ensures MatchAt(ModLogText(name, status) + rest, 0)
         == Some(ModMatch(0, 15 + |name| + |status|, name, "[" + status + "]"))
  {
    var t := ModLogText(name, status) + rest;
    var p := 11 + |name|;
    var r := p + 3 + |status|;
    RenderedHeaderAndName(name, status, rest);
    RenderedEnds(name, status, rest);
    assert t[p + 2..r + 1] == "[" + status + "]";
  }

  /** The lazy name group ends at the closing quote, and the tag at its own bracket. */
  lemma RenderedEnds(name: string, status: string, rest: string)
    requires |name| > 0 && '\n' !in name && '\'' !in name
    requires |status| > 0 && '\n' !in status && ']' !in status
    ensures var t := ModLogText(name, status) + rest;
      && NameEnd(t, 11, 12) == Some(11 + |name|)
      && TagEnd(t, 11 + |name| + 2) == Some(11 + |name| + 3 + |status|)
  {
    var t := ModLogText(name, status) + rest;
    var p := 11 + |name|;
    var r := p + 3 + |status|;
    RenderedHeaderAndName(name, status, rest);
    RenderedTag(name, status, rest);
    assert IsSpace(t[p + 1]) && HasTagAt(t, p + 2);
    assert NameEndsAt(t, 11, p);
    var ne := NameEnd(t, 11, 12);
    assert ne.Some? && ne.value <= p;
    assert ne.value == p by {
      assert 11 <= ne.value ==> t[ne.value] == '\'';
    }
    var e := TagEnd(t, p + 2);
    TagEndUnique(t, p + 2, e.value, r);
  }

  /** The header, and a name group that can end only at the closing quote. */
  lemma RenderedHeaderAndName(name: string, status: string, rest: string)
    requires |name| > 0 && '\n' !in name && '\'' !in name
    ensures var t := ModLogText(name, status) + rest;
      && HeaderAt(t, 0)
      && t[11..11 + |name|] == name
      && t[11 + |name|] == '\'' && t[11 + |name| + 1] == ' ' && t[11 + |name| + 2] == '['
      && forall k :: 11 <= k < 11 + |name| ==> t[k] != '\n' && t[k] != '\''
  {
    var t := ModLogText(name, status) + rest;
    var p := 11 + |name|;
    assert t[..9] == Header;
    assert t[p] == '\'' && t[p + 1] == ' ' && t[p + 2] == '[';
    forall k | 11 <= k < p
      ensures t[k] != '\n' && t[k] != '\''
    {
      assert t[k] == name[k - 11];
    }
  }

  /** The bracketed status is a tag that ends at its own closing bracket. */
  lemma RenderedTag(name: string, status: string, rest: string)
    requires |status| > 0 && '\n' !in status && ']' !in status
    ensures var t := ModLogText(name, status) + rest;
      TagEndsAt(t, 11 + |name| + 2, 11 + |name| + 3 + |status|)
  {
    var t := ModLogText(name, status) + rest;
    var p := 11 + |name|;
    var r := p + 3 + |status|;
    assert t[p + 2] == '[' && t[r] == ']';
    forall k | p + 2 < k < r
      ensures t[k] != '\n' && t[k] != ']'
    {
      assert t[k] == status[k - p - 3];
    }
  }

  /** A log with such a line has a non-empty mod list whose first entry names that mod. */
  lemma RenderedModListed(name: string, status: string, rest: string)
    requires |name| > 0 && '\n' !in name && '\'' !in name
    requires |status| > 0 && '\n' !in status && ']' !in status
    ensures ModsInformation(ModLogText(name, status) + rest).Some?
    ensures ModsInformation(ModLogText(name, status) + rest).value[0]
         == InfoIcon + " " + name + " (" + (if status == "E" then "ExeFS" else "RomFS") + ")"
  {
    var t := ModLogText(name, status) + rest;
    var m := ModMatch(0, 15 + |name| + |status|, name, "[" + status + "]");
    RenderedModDetected(name, status, rest);
    assert |t| > 0;
    assert ScanMods(t, 0) == [m] + ScanMods(t, m.end);
    assert ModsInformation(t).value[0] == ModLine(m);
    BracketedKind(status);
  }

  /** A status written between brackets is ExeFS exactly when it is `E`. */
  lemma BracketedKind(status: string)
    ensures KindOf("[" + status + "]") == (if status == "E" then ExeFS else RomFS)
  {
    var tag := "[" + status + "]";
    assert tag[1..|tag| - 1] == status;
    assert tag == "[E]" ==> status == "[E]"[1..2];
  }

  /** A matched name is newline-free, since `.` does not match a newline. */
  lemma MatchedNameOneLine(t: string, m: ModMatch)
    requires IsModMatch(t, m)
    ensures '\n' !in m.name
  {
    var s := m.start + 11;
    var p := s + |m.name|;
    assert NameEndsAt(t, s, p);
    forall j | 0 <= j < |m.name|
      ensures m.name[j] != '\n'
    {
      assert m.name[j] == t[s + j];
    }
  }

  /** A mod line for a newline-free name is a single line. */
  lemma ModLineNoNewline(m: ModMatch)
    requires '\n' !in m.name
    ensures '\n' !in ModLine(m)
  {
    var kind := KindName(KindOf(m.tag));
    assert '\n' !in kind;
    assert ModLine(m) == (InfoIcon + " " + m.name) + (" (" + kind + ")");
  }

  /** Every mod line is a single line, since neither a name nor a kind holds a newline. */
  lemma ModLineOneLine(t: string, k: nat)
    requires ModsInformation(t).Some? && k < |ModsInformation(t).value|
    ensures '\n' !in ModsInformation(t).value[k]
  {
    var lines := ModsInformation(t).value;
    ScannedMatches(t, 0, ScanMods(t, 0));
    var m := ScanMods(t, 0)[k];
    MatchedNameOneLine(t, m);
    ModLineNoNewline(m);
    assert lines[k] == ModLine(m);
  }
}
