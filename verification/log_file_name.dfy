/** The log file name built when the user saves the text log: the locale date
    and time strings, each with every character outside [A-Za-z0-9] replaced
    by '-', wrapped as "log-" + date + "-" + time + ".txt". The date and time
    strings come from the platform's clock and locale, so here they are
    arbitrary strings. */
module LogFileName {

  /** The character class [A-Za-z0-9] (ASCII only; no case folding). */
  predicate IsAlphanumeric(c: char) {
    ('A' <= c <= 'Z') || ('a' <= c <= 'z') || ('0' <= c <= '9')
  }

  /** A character that can appear in a sanitised fragment. */
  predicate IsFragmentChar(c: char) {
    IsAlphanumeric(c) || c == '-'
  }

  /** `s.replace(/[^A-Za-z0-9]/g, '-')`: every character outside the class
      becomes '-', every character inside it stays where it is. */
  function Sanitize(s: string): (r: string)
    ensures |r| == |s|
    ensures forall i :: 0 <= i < |s| ==> IsFragmentChar(r[i])
    ensures forall i :: 0 <= i < |s| && IsAlphanumeric(s[i]) ==> r[i] == s[i]
    ensures forall i :: 0 <= i < |s| && !IsAlphanumeric(s[i]) ==> r[i] == '-'
  {
    if s == [] then []
    else [if IsAlphanumeric(s[0]) then s[0] else '-'] + Sanitize(s[1..])
  }

  /** Sanitising twice changes nothing more. */
  lemma SanitizeIdempotent(s: string)
    ensures Sanitize(Sanitize(s)) == Sanitize(s)
  {
  }

  /** A string is left unchanged exactly when it already consists of
      alphanumerics and '-' only. */
  lemma SanitizeFixedPoint(s: string)
    ensures Sanitize(s) == s <==> forall i :: 0 <= i < |s| ==> IsFragmentChar(s[i])
  {
  }

  /** The name of the log file for the given date and time strings. */
  function FileName(date: string, time: string): (name: string)
    ensures |name| == |date| + |time| + 9
    ensures name[..4] == "log-"
    ensures name[|name| - 4..] == ".txt"
    ensures name[4..4 + |date|] == Sanitize(date)
    ensures name[4 + |date|] == '-'
    ensures name[5 + |date|..|name| - 4] == Sanitize(time)
  {
    "log-" + Sanitize(date) + "-" + Sanitize(time) + ".txt"
  }

  /** A file name holds only alphanumerics, '-' and '.', and its one '.' is
      the one that starts the ".txt" extension. */
  lemma FileNameCharacters(date: string, time: string)
    ensures var name := FileName(date, time);
      && (forall i :: 0 <= i < |name| ==> IsFragmentChar(name[i]) || name[i] == '.')
      && (forall i :: 0 <= i < |name| && name[i] == '.' ==> i == |name| - 4)
  {
  }
}
