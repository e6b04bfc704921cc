/**
 * The truncator of DemoApplication, `truncate(length, s)`, and the
 * composition `stripAndTruncate(length, s)` that every report cell goes through.
 */
module Truncation {
  import opened Wrappers
  import opened Sanitizer

  /** The marker appended to a cut string. */
  const Ellipsis: string := "..."

  /**
   * The inputs on which `truncate` returns normally: `s.substring(0, length - 3)`
   * is evaluated only for a non-null string longer than `length`, and it
   * throws unless `length - 3` is a valid end index.
   */
  predicate TruncateDefined(length: int, s: Option<string>) {
    s.None? || |s.value| <= length || length >= 3
  }

  /**
   * `truncate`: null stays null, a string of at most `length` characters is
   * returned as it is, a longer one is cut to its first `length - 3`
   * characters followed by "...", so that it is exactly `length` long.
   */
  function Truncate(length: int, s: Option<string>): (r: Option<string>)
    requires TruncateDefined(length, s)
    ensures r.Some? <==> s.Some?
    ensures s.Some? ==> (r == s <==> |s.value| <= length)
    ensures s.Some? && |s.value| > length ==>
      |r.value| == length &&
      r.value[..length - 3] == s.value[..length - 3] &&
      r.value[length - 3..] == Ellipsis
  {
    if s.Some? && |s.value| > length then Some(s.value[..length - 3] + Ellipsis) else s
  }

  /** `stripAndTruncate`: sanitise, then truncate to `length`. */
  function StripAndTruncate(length: int, s: Option<string>): (r: string)
    requires TruncateDefined(length, Some(StripNewlinesAndTabs(s)))
    ensures |r| <= length
    ensures Collapsed(r)
  {
    var t := StripNewlinesAndTabs(s);
    TruncateKeepsCollapsed(length, t);
    Truncate(length, Some(t)).value
  }

  /** For a bound of at least 3 the result is never longer than the bound, and it is as long as it can be. */
  lemma TruncateLength(length: int, s: string)
    requires length >= 3
    ensures |Truncate(length, Some(s)).value| == if |s| <= length then |s| else length
  {
  }

  /** Truncating an already truncated string changes nothing. */
  lemma TruncateIdempotent(length: int, s: string)
    requires length >= 3
    ensures Truncate(length, Truncate(length, Some(s))) == Truncate(length, Some(s))
  {
  }

  /** A cut keeps a collapsed string collapsed: the prefix is collapsed and "..." holds no whitespace. */
  lemma TruncateKeepsCollapsed(length: int, s: string)
    requires TruncateDefined(length, Some(s))
    requires Collapsed(s)
    ensures Collapsed(Truncate(length, Some(s)).value)
  {
    if |s| > length {
      var p := s[..length - 3];
      var r := p + Ellipsis;
      forall i | 0 <= i < |r| && IsWhitespace(r[i]) ensures r[i] == ' ' {
        assert i < |p| && r[i] == s[i];
      }
      forall i, j | 0 <= i < j < |r| && j == i + 1 ensures !(r[i] == ' ' && r[j] == ' ') {
        if j < |p| {
          assert r[i] == s[i] && r[j] == s[j];
        } else {
          assert r[j] == '.';
        }
      }
    }
  }

  /**
   * What a report cell holds: for a bound of at least 3 the sanitised string
   * when it fits, and otherwise its first `length - 3` characters and "...".
   * In both cases it has no tab, newline, carriage return, form feed or
   * vertical tab and no two adjacent spaces. This is `Truncate`'s contract
   * seen through the composition, for the renderers that call
   * `StripAndTruncate`; it adds no fact of its own.
   */
  lemma StripAndTruncateShape(length: int, s: Option<string>)
    requires length >= 3
    ensures var t, r := StripNewlinesAndTabs(s), StripAndTruncate(length, s);
      |r| <= length && Collapsed(r) &&
      (|t| <= length ==> r == t) &&
      (|t| > length ==> |r| == length && r == t[..length - 3] + Ellipsis)
  {
  }

  /** The sanitised null reference is the empty cell. */
  lemma StripAndTruncateNull(length: int)
    requires length >= 0
    ensures StripAndTruncate(length, None) == ""
  {
  }
}
