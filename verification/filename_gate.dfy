/**
 The attachment filter of `log_file_read`: only attachments whose name
 matches `^Ryujinx_.*\.log$` are analysed. In Python `.` matches anything
 but a newline, and `$` matches at the very end or just before a final
 newline.
 */
module FilenameGate {
  import opened Text

  const Prefix: string := "Ryujinx_"
  const Suffix: string := ".log"

  /** The names the pattern describes without the optional final newline. */
  function Shape(middle: string): string
  {
    Prefix + middle + Suffix
  }

  /** The regular expression's language, stated directly: some newline-free middle part. */
  ghost predicate MatchesPattern(filename: string)
  {
    exists middle :: '\n' !in middle && (filename == Shape(middle) || filename == Shape(middle) + "\n")
  }

  /** The check as a scanner performs it: drop one final newline, then test prefix, suffix and body. */
  function IsLogFilename(filename: string): (accepted: bool)
    ensures accepted ==> |filename| >= |Prefix| + |Suffix|
    ensures accepted ==> StartsWithAt(filename, 0, Prefix)
  {
    var core := if filename != [] && filename[|filename| - 1] == '\n' then filename[..|filename| - 1] else filename;
    && |core| >= |Prefix| + |Suffix|
    && core[..|Prefix|] == Prefix
    && core[|core| - |Suffix|..] == Suffix
    && '\n' !in core
  }

  /** The scanner accepts exactly the names the regular expression matches. */
  lemma IsLogFilenameCorrect(filename: string)
    ensures IsLogFilename(filename) <==> MatchesPattern(filename)
  {
    if IsLogFilename(filename) {
      AcceptedMatches(filename);
    }
    if MatchesPattern(filename) {
      var middle :| '\n' !in middle && (filename == Shape(middle) || filename == Shape(middle) + "\n");
      MatchedAccepted(filename, middle);
    }
  }

  lemma AcceptedMatches(filename: string)
    requires IsLogFilename(filename)
    ensures MatchesPattern(filename)
  {
    var core := if filename != [] && filename[|filename| - 1] == '\n' then filename[..|filename| - 1] else filename;
    var middle := core[|Prefix|..|core| - |Suffix|];
    assert core == Shape(middle);
    assert '\n' !in middle by {
      forall k | 0 <= k < |middle|
        ensures middle[k] != '\n'
      {
        assert middle[k] == core[|Prefix| + k];
      }
    }
    if core != filename {
      assert filename == core + "\n";
    }
  }

  lemma MatchedAccepted(filename: string, middle: string)
    requires '\n' !in middle
    requires filename == Shape(middle) || filename == Shape(middle) + "\n"
    ensures IsLogFilename(filename)
  {
    var core := Shape(middle);
    assert core[|core| - 1] == 'g';
    assert core[..|Prefix|] == Prefix;
    assert core[|core| - |Suffix|..] == Suffix;
    assert '\n' !in core by {
      forall k | 0 <= k < |core|
        ensures core[k] != '\n'
      {
        if k < |Prefix| {
          assert core[k] == Prefix[k];
        } else if k < |Prefix| + |middle| {
          assert core[k] == middle[k - |Prefix|];
        } else {
          assert core[k] == Suffix[k - |Prefix| - |middle|];
        }
      }
    }
    if filename == core + "\n" {
      assert filename[..|filename| - 1] == core;
    }
  }

  /** The shortest accepted name is `Ryujinx_.log`; a name without the suffix is refused. */
  lemma FilenameExamples()
    ensures IsLogFilename("Ryujinx_.log")
    ensures IsLogFilename("Ryujinx_1.0.0_2021-01-01_12-00-00.log")
    ensures !IsLogFilename("Ryujinx_.txt")
    ensures !IsLogFilename("ryujinx_x.log")
  {
    assert "ryujinx_x.log"[..|Prefix|][0] == 'r';
  }
}
