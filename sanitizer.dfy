/**
 * The sanitiser of DemoApplication: `stripNewlinesAndTabs`, which maps null
 * to the empty string and otherwise performs `s.replaceAll("\\s+", " ")`,
 * that is, replaces every maximal run of whitespace by one space.
 */
module Sanitizer {
  import opened Wrappers

  /** The characters of Java's regular-expression class `\s`: [ \t\n\x0B\f\r]. */
  predicate IsWhitespace(c: char) {
    c == ' ' || c == '\t' || c == '\n' || c == '\U{000B}' || c == '\U{000C}' || c == '\r'
  }

  /**
   * The shape every sanitised string has: the only whitespace character left
   * is the plain space, and no two spaces stand next to each other.
   */
  ghost predicate Collapsed(s: string) {
    (forall i :: 0 <= i < |s| && IsWhitespace(s[i]) ==> s[i] == ' ') &&
    (forall i, j :: 0 <= i < j < |s| && j == i + 1 ==> !(s[i] == ' ' && s[j] == ' '))
  }

  /** The text of a string: its non-whitespace characters, in order. */
  function NonWhitespace(s: string): string {
    if s == [] then []
    else (if IsWhitespace(s[0]) then [] else [s[0]]) + NonWhitespace(s[1..])
  }

  /** Drops the whitespace at the front of `s` (the rest of a run `\s+`). */
  function SkipWhitespace(s: string): (r: string)
    ensures |r| <= |s| && r == s[|s| - |r|..]
    ensures forall i :: 0 <= i < |s| - |r| ==> IsWhitespace(s[i])
    ensures r != [] ==> !IsWhitespace(r[0])
  {
    if s != [] && IsWhitespace(s[0]) then SkipWhitespace(s[1..]) else s
  }

  /** `s.replaceAll("\\s+", " ")`: each maximal whitespace run becomes one space. */
  function Collapse(s: string): (r: string)
    ensures |r| <= |s|
    ensures r == [] <==> s == []
    ensures s != [] ==> r[0] == (if IsWhitespace(s[0]) then ' ' else s[0])
    decreases |s|
  {
    if s == [] then []
    else if IsWhitespace(s[0]) then [' '] + Collapse(SkipWhitespace(s[1..]))
    else [s[0]] + Collapse(s[1..])
  }

  /** `stripNewlinesAndTabs`: null becomes "", anything else is collapsed. */
  function StripNewlinesAndTabs(s: Option<string>): (r: string)
    ensures s.None? ==> r == ""
    ensures Collapsed(r)
    ensures s.Some? ==> |r| <= |s.value| && NonWhitespace(r) == NonWhitespace(s.value)
  {
    match s
    case None => ""
    case Some(t) => CollapseIsCollapsed(t); CollapseKeepsText(t); Collapse(t)
  }

  /** The sanitiser's result has only plain spaces for whitespace, never two in a row. */
  lemma {:induction false} CollapseIsCollapsed(s: string)
    ensures Collapsed(Collapse(s))
    decreases |s|
  {
    if s != [] {
      var t := if IsWhitespace(s[0]) then SkipWhitespace(s[1..]) else s[1..];
      var c := Collapse(t);
      CollapseIsCollapsed(t);
      var r := Collapse(s);
      assert r == [if IsWhitespace(s[0]) then ' ' else s[0]] + c;
      forall i | 0 <= i < |r| && IsWhitespace(r[i]) ensures r[i] == ' ' {
        if i > 0 {
          assert r[i] == c[i - 1];
        }
      }
      forall i, j | 0 <= i < j < |r| && j == i + 1 ensures !(r[i] == ' ' && r[j] == ' ') {
        if i > 0 {
          assert r[i] == c[i - 1] && r[j] == c[j - 1];
        } else if IsWhitespace(s[0]) {
          assert r[1] == c[0] == t[0];
        } else {
          assert r[0] == s[0];
        }
      }
    }
  }

  lemma {:induction false} NonWhitespaceAppend(a: string, b: string)
    ensures NonWhitespace(a + b) == NonWhitespace(a) + NonWhitespace(b)
    decreases |a|
  {
    if a == [] {
      assert a + b == b;
    } else {
      assert (a + b)[0] == a[0] && (a + b)[1..] == a[1..] + b;
      NonWhitespaceAppend(a[1..], b);
      var h := if IsWhitespace(a[0]) then [] else [a[0]];
      calc {
        NonWhitespace(a + b);
        h + NonWhitespace(a[1..] + b);
        h + (NonWhitespace(a[1..]) + NonWhitespace(b));
        (h + NonWhitespace(a[1..])) + NonWhitespace(b);
        NonWhitespace(a) + NonWhitespace(b);
      }
    }
  }

  /** Skipping a whitespace run loses no text. */
  lemma {:induction false} SkipWhitespaceKeepsText(s: string)
    ensures NonWhitespace(SkipWhitespace(s)) == NonWhitespace(s)
    decreases |s|
  {
    if s != [] && IsWhitespace(s[0]) {
      SkipWhitespaceKeepsText(s[1..]);
    }
  }

  /** Collapsing keeps every non-whitespace character, in order, and adds none. */
  lemma {:induction false} CollapseKeepsText(s: string)
    ensures NonWhitespace(Collapse(s)) == NonWhitespace(s)
    decreases |s|
  {
    if s != [] {
      if IsWhitespace(s[0]) {
        var t := SkipWhitespace(s[1..]);
        CollapseKeepsText(t);
        SkipWhitespaceKeepsText(s[1..]);
        NonWhitespaceAppend([' '], Collapse(t));
      } else {
        CollapseKeepsText(s[1..]);
        NonWhitespaceAppend([s[0]], Collapse(s[1..]));
      }
    }
  }

  /** A string is left unchanged by the sanitiser exactly when it is already collapsed. */
  lemma {:induction false} CollapseFixedPoint(s: string)
    ensures Collapse(s) == s <==> Collapsed(s)
    decreases |s|
  {
    CollapseIsCollapsed(s);
    if s != [] && Collapsed(s) {
      assert Collapsed(s[1..]) by {
        forall i, j | 0 <= i < j < |s[1..]| && j == i + 1
          ensures !(s[1..][i] == ' ' && s[1..][j] == ' ')
        {
          assert s[1..][i] == s[i + 1] && s[1..][j] == s[j + 1];
        }
      }
      CollapseFixedPoint(s[1..]);
      if IsWhitespace(s[0]) {
        assert s[1..] != [] ==> !IsWhitespace(s[1]);
        assert SkipWhitespace(s[1..]) == s[1..];
      }
    }
  }

  /** Sanitising twice is the same as sanitising once. */
  lemma CollapseIdempotent(s: string)
    ensures Collapse(Collapse(s)) == Collapse(s)
  {
    CollapseIsCollapsed(s);
    CollapseFixedPoint(Collapse(s));
  }

  /** Reference definition, step 1: every whitespace character becomes a space. */
  function Normalize(s: string): string {
    if s == [] then [] else [if IsWhitespace(s[0]) then ' ' else s[0]] + Normalize(s[1..])
  }

  /** Reference definition, step 2: a space that follows a space is dropped. */
  function Squeeze(s: string): string {
    if |s| <= 1 then s
    else if s[0] == ' ' && s[1] == ' ' then Squeeze(s[1..])
    else [s[0]] + Squeeze(s[1..])
  }

  lemma {:induction false} SqueezeAfterSpace(u: string)
    ensures Squeeze([' '] + Normalize(u)) == [' '] + Squeeze(Normalize(SkipWhitespace(u)))
    decreases |u|
  {
    var n := [' '] + Normalize(u);
    if u != [] {
      if IsWhitespace(u[0]) {
        assert n[1..] == [' '] + Normalize(u[1..]);
        SqueezeAfterSpace(u[1..]);
      } else {
        assert n[1..] == Normalize(u);
      }
    }
  }

  /**
   * The sanitiser agrees with the two-step reference definition: turn every
   * whitespace character into a space, then squeeze runs of spaces to one.
   */
  lemma {:induction false} CollapseIsSqueezedNormalize(s: string)
    ensures Collapse(s) == Squeeze(Normalize(s))
    decreases |s|
  {
    if s != [] {
      if IsWhitespace(s[0]) {
        var t := SkipWhitespace(s[1..]);
        CollapseIsSqueezedNormalize(t);
        SqueezeAfterSpace(s[1..]);
      } else {
        CollapseIsSqueezedNormalize(s[1..]);
        var n := Normalize(s);
        assert n[1..] == Normalize(s[1..]);
      }
    }
  }

  /** The example of a value holding a newline and a tab. */
  lemma NewlineTabExample()
    ensures StripNewlinesAndTabs(Some("a\n\tb")) == "a b"
  {
    var b := Collapse("b");
    assert "b"[1..] == [];
    assert b == "b";
    assert "\tb"[1..] == "b";
    assert SkipWhitespace("\tb") == "b";
    assert "\n\tb"[1..] == "\tb";
    assert Collapse("\n\tb") == " b";
    assert "a\n\tb"[1..] == "\n\tb";
  }

  /**
   * The whole behaviour of `stripNewlinesAndTabs` on a string: every
   * whitespace character becomes a space, then each run of spaces is
   * squeezed to one.
   */
  lemma StripNewlinesAndTabsIsSqueezedNormalize(s: string)
    ensures StripNewlinesAndTabs(Some(s)) == Squeeze(Normalize(s))
  {
    CollapseIsSqueezedNormalize(s);
  }
}
