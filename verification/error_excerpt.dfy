/**
 The first-error excerpt `find_error_message`: the first match of
 `\n?[\d:\.]+ \|E\| (.*\n.*)`, whose group is the rest of the error line,
 a newline and the whole next line.
 */
module ErrorExcerpt {
  import opened Wrappers
  import opened Text

  /** The error-level marker that follows a log line's timestamp. */
  const Marker: string := " |E| "

  /** A character of the timestamp class `[\d:\.]`. */
  predicate IsStampChar(c: char)
  {
    '0' <= c <= '9' || c == ':' || c == '.'
  }

  /** The marker starts at `b` and a timestamp character stands just before it. */
  predicate MarkerAt(t: string, b: nat)
  {
    1 <= b && StartsWithAt(t, b, Marker) && IsStampChar(t[b - 1])
  }

  ghost predicate HasNewlineFrom(t: string, k: nat)
  {
    exists j :: k <= j < |t| && t[j] == '\n'
  }

  /** `[\d:\.]+ \|E\| ` followed by `.*\n` matches from `a`, the timestamp run ending at `b`. */
  ghost predicate BodyAt(t: string, a: nat, b: nat)
  {
    && a < b
    && StartsWithAt(t, b, Marker)
    && (forall k :: a <= k < b ==> IsStampChar(t[k]))
    && HasNewlineFrom(t, b + |Marker|)
  }

  /** The whole pattern, with its optional leading newline, matches from `s` with its marker at `b`. */
  ghost predicate RegexMatch(t: string, s: nat, b: nat)
  {
    BodyAt(t, s, b) || (s < |t| && t[s] == '\n' && BodyAt(t, s + 1, b))
  }

  /** The least marker position at or after `b`. */
  function FirstMarker(t: string, b: nat): (r: Option<nat>)
    ensures r.Some? ==> b <= r.value && MarkerAt(t, r.value)
    ensures r.Some? ==> forall k :: b <= k < r.value ==> !MarkerAt(t, k)
    ensures r.None? ==> forall k :: b <= k ==> !MarkerAt(t, k)
    decreases |t| - b
  {
    if |t| < b + |Marker| then None
    else if MarkerAt(t, b) then Some(b)
    else FirstMarker(t, b + 1)
  }

  /** The index of the first newline at or after `k`, or the end of the text. */
  function LineEnd(t: string, k: nat): (e: nat)
    requires k <= |t|
    ensures k <= e <= |t|
    ensures forall j :: k <= j < e ==> t[j] != '\n'
    ensures e == |t| || t[e] == '\n'
    decreases |t| - k
  {
    if k == |t| || t[k] == '\n' then k else LineEnd(t, k + 1)
  }

  /** The text from `k` to its line end holds no newline. */
  lemma LineHasNoNewline(t: string, k: nat, e: nat)
    requires k <= e <= |t|
    requires forall j :: k <= j < e ==> t[j] != '\n'
    ensures '\n' !in t[k..e]
  {
    forall j | 0 <= j < e - k
      ensures t[k..e][j] != '\n'
    {
      assert t[k..e][j] == t[k + j];
    }
  }

  /** The capture group `(.*\n.*)` for a marker at `b`: rest of the line, newline, next line. */
  function Excerpt(t: string, b: nat): (x: string)
    requires b + |Marker| <= |t| && LineEnd(t, b + |Marker|) < |t|
    ensures b + |Marker| + |x| <= |t| && x == t[b + |Marker|..b + |Marker| + |x|]
    ensures b + |Marker| + |x| == |t| || t[b + |Marker| + |x|] == '\n'
    ensures exists k :: 0 <= k < |x| && x[k] == '\n' && '\n' !in x[..k] && '\n' !in x[k + 1..]
  {
    var nl := LineEnd(t, b + |Marker|);
    var x := t[b + |Marker|..LineEnd(t, nl + 1)];
    var k := nl - b - |Marker|;
    var e := LineEnd(t, nl + 1);
    assert x[k] == '\n';
    assert x[..k] == t[b + |Marker|..nl];
    assert x[k + 1..] == t[nl + 1..e];
    LineHasNoNewline(t, b + |Marker|, nl);
    LineHasNoNewline(t, nl + 1, e);
    x
  }

  /**
   `find_error_message`: the excerpt of the first error line, or `None` when no
   error line is followed by a newline somewhere after its marker.
   */
  function FindErrorMessage(t: string): (r: Option<string>)
    ensures r.None? <==> forall s, b :: !RegexMatch(t, s, b)
    ensures r.Some? ==> |r.value| > 0 && '\n' in r.value
  {
    match FirstMarker(t, 1)
    case None =>
      NoMarkerNoMatch(t);
      None
    case Some(b) =>
      var nl := LineEnd(t, b + |Marker|);
      if nl == |t| then
        NoNewlineNoMatch(t, b);
        None
      else
        assert BodyAt(t, b - 1, b);
        assert RegexMatch(t, b - 1, b);
        Some(Excerpt(t, b))
  }

  /** Every regular-expression match ends its timestamp at a marker, with a newline after it. */
  lemma MatchHasMarker(t: string, s: nat, b: nat)
    requires RegexMatch(t, s, b)
    ensures MarkerAt(t, b) && HasNewlineFrom(t, b + |Marker|)
  {
  }

  lemma NoMarkerNoMatch(t: string)
    requires forall k :: 1 <= k ==> !MarkerAt(t, k)
    ensures forall s, b :: !RegexMatch(t, s, b)
  {
    forall s: nat, b: nat | RegexMatch(t, s, b)
      ensures false
    {
      MatchHasMarker(t, s, b);
    }
  }

  /** With no newline after the first marker there is none after any later marker either. */
  lemma NoNewlineNoMatch(t: string, b: nat)
    requires MarkerAt(t, b) && forall k :: 1 <= k < b ==> !MarkerAt(t, k)
    requires LineEnd(t, b + |Marker|) == |t|
    ensures forall s, b' :: !RegexMatch(t, s, b')
  {
    forall s: nat, b': nat | RegexMatch(t, s, b')
      ensures false
    {
      MatchHasMarker(t, s, b');
    }
  }

  /**
   The excerpt is the group of the match `re` reports first, the one with the
   least start: whichever match starts leftmost has its marker at the first
   marker of the log.
   */
  lemma {:induction false} LeftmostMatchGivesExcerpt(t: string, s: nat, b: nat)
    requires RegexMatch(t, s, b)
    requires forall s', b' :: 0 <= s' < s ==> !RegexMatch(t, s', b')
    ensures b + |Marker| <= |t| && LineEnd(t, b + |Marker|) < |t|
    ensures FindErrorMessage(t) == Some(Excerpt(t, b))
  {
    MatchHasMarker(t, s, b);
    var b0 := FirstMarker(t, 1).value;
    assert b0 <= b;
    var j :| b + |Marker| <= j < |t| && t[j] == '\n';
    assert HasNewlineFrom(t, b0 + |Marker|);
    assert LineEnd(t, b0 + |Marker|) < |t|;
    assert BodyAt(t, b0 - 1, b0);
    assert RegexMatch(t, b0 - 1, b0);
    assert s <= b0 - 1;
    assert t[b0] == ' ' by {
      assert t[b0..b0 + |Marker|] == Marker;
    }
    assert b0 < b ==> IsStampChar(t[b0]);
    assert b0 == b;
  }

  /** A log without the ` |E| ` marker has no excerpt. */
  lemma NoMarkerNoExcerpt(t: string)
    requires forall b :: !StartsWithAt(t, b, Marker)
    ensures FindErrorMessage(t) == None
  {
    NoMarkerNoMatch(t);
  }
}
