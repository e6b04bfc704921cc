/**
 * `getEnvironmentPlain`: the fixed-width text table for command-line
 * clients, one 80-character line per variable in TreeMap order. The
 * environment and the formatted timestamp are parameters.
 */
module PlainReport {
  import opened Wrappers
  import opened Truncation
  import opened Lines
  import opened KeyOrder

  /** Column width and cut bound of the key column (KUBERNETES_SERVICE_PORT_HTTPS fits). */
  const KeyWidth := 30
  /** Column width and cut bound of the value column (the table fits 80 columns). */
  const ValueWidth := 42

  /** The first line: "ENVIRONMENT (" timestamp ")". */
  function Header(timestamp: string): (r: string)
    ensures |r| == |timestamp| + 14
    ensures NoNewline(r) <==> NoNewline(timestamp)
  {
    "ENVIRONMENT (" + timestamp + ")"
  }

  /** The second line: 33 dashes. */
  function Rule(): (r: string)
    ensures |r| == 33 && forall i :: 0 <= i < |r| ==> r[i] == '-'
  {
    "---------------------------------"
  }

  /**
   * The `%-<width>s` conversion of `String.format`: `s` left-justified, padded
   * with spaces on the right to at least `width` characters, never cut.
   */
  function PadRight(s: string, width: int): (r: string)
    ensures |r| == if |s| < width then width else |s|
    ensures r[..|s|] == s
    ensures forall i :: |s| <= i < |r| ==> r[i] == ' '
  {
    if |s| < width then s + seq(width - |s|, _ => ' ') else s
  }

  /** `String.format("| %-30s | %-42s |\n", keyCell, valueCell)` without its final "\n". */
  function FormatRow(keyCell: string, valueCell: string): string {
    "| " + PadRight(keyCell, KeyWidth) + " | " + PadRight(valueCell, ValueWidth) + " |"
  }

  /** The line of the table for one variable. */
  function RowLine(key: string, value: string): string {
    FormatRow(StripAndTruncate(KeyWidth, Some(key)), StripAndTruncate(ValueWidth, Some(value)))
  }

  /** The lines for the variables `keys`, in that order. */
  function TableLines(env: map<string, string>, keys: seq<string>): (ls: seq<string>)
    requires forall k :: k in keys ==> k in env
    ensures |ls| == |keys|
  {
    seq(|keys|, i requires 0 <= i < |keys| => RowLine(keys[i], env[keys[i]]))
  }

  /** The text `getEnvironmentPlain` returns for environment `env` at time `timestamp`. */
  ghost function Report(env: map<string, string>, timestamp: string): string {
    JoinLines([Header(timestamp), Rule()] + TableLines(env, SortedKeys(env.Keys)))
  }

  /**
   * `getEnvironmentPlain`, with `System.getenv()` and the formatted current
   * time passed in: the header line, the rule, then one line per variable.
   */
  method GetEnvironmentPlain(env: map<string, string>, timestamp: string) returns (result: string)
    ensures result == Report(env, timestamp)
  {
    result := Header(timestamp) + "\n";
    result := result + Rule() + "\n";
    JoinTwoLines(Header(timestamp), Rule());
    JoinLinesAppend([Header(timestamp), Rule()], TableLines(env, SortedKeys(env.Keys)));
    result := AppendRows(result, env);
  }

  /**
   * The loop of `getEnvironmentPlain`: one formatted line per variable, taken
   * from the TreeMap in ascending key order, appended to `prefix`.
   */
  method AppendRows(prefix: string, env: map<string, string>) returns (result: string)
    ensures result == prefix + JoinLines(TableLines(env, SortedKeys(env.Keys)))
  {
    result := prefix;
    var remaining := env.Keys;
    ghost var visited: seq<string> := [];
    while remaining != {}
      invariant remaining <= env.Keys
      invariant forall k :: k in visited ==> k in env
      invariant SortedKeys(env.Keys) == visited + SortedKeys(remaining)
      invariant result == prefix + JoinLines(TableLines(env, visited))
      decreases |remaining|
    {
      LeastExists(remaining);
      var key :| key in remaining && IsLeast(key, remaining);
      NextKey(env.Keys, visited, remaining, key);
      var value := env[key];
      var line := FormatRow(StripAndTruncate(KeyWidth, Some(key)), StripAndTruncate(ValueWidth, Some(value)));
      AppendLine(prefix, TableLines(env, visited), line);
      TableLinesSnoc(env, visited, key);
      result := result + line + "\n";
      visited := visited + [key];
      remaining := remaining - {key};
    }
    assert SortedKeys(remaining) == [];
    assert visited == SortedKeys(env.Keys);
  }

  lemma TableLinesSnoc(env: map<string, string>, keys: seq<string>, key: string)
    requires forall k :: k in keys ==> k in env
    requires key in env
    ensures TableLines(env, keys + [key]) == TableLines(env, keys) + [RowLine(key, env[key])]
  {
    var ls := TableLines(env, keys + [key]);
    assert ls[..|keys|] == TableLines(env, keys);
  }

  lemma JoinTwoLines(a: string, b: string)
    ensures JoinLines([a, b]) == a + "\n" + b + "\n"
  {
    assert [a, b][1..] == [b] && [b][1..] == [];
    assert JoinLines([b]) == b + "\n";
  }

  lemma AppendLine(prefix: string, lines: seq<string>, line: string)
    ensures prefix + JoinLines(lines) + line + "\n" == prefix + JoinLines(lines + [line])
  {
    JoinLinesAppend(lines, [line]);
    assert JoinLines([line]) == line + "\n" by {
      assert [line][1..] == [];
    }
  }

  /** Padding adds only spaces, so it adds no newline. */
  lemma PadRightNoNewline(s: string, width: int)
    requires NoNewline(s)
    ensures NoNewline(PadRight(s, width))
  {
    var r := PadRight(s, width);
    forall i | 0 <= i < |r| ensures r[i] != '\n' {
      if i < |s| {
        assert r[i] == r[..|s|][i] == s[i];
      }
    }
  }

  /** Where each of five concatenated parts sits. */
  lemma FiveParts(a: string, b: string, c: string, d: string, e: string)
    ensures var l, i := a + b + c + d + e, |a| + |b|;
      l[..|a|] == a && l[|a|..i] == b && l[i..i + |c|] == c &&
      l[i + |c|..i + |c| + |d|] == d && l[i + |c| + |d|..] == e
  {
  }

  /** The layout of a formatted line, for cells that fit their columns. */
  lemma FormatRowLayout(k: string, v: string)
    requires |k| <= KeyWidth && |v| <= ValueWidth
    requires NoNewline(k) && NoNewline(v)
    ensures var l := FormatRow(k, v);
      |l| == 79 && NoNewline(l) &&
      l[..2] == "| " && l[32..35] == " | " && l[77..] == " |" &&
      l[2..2 + |k|] == k && (forall i :: 2 + |k| <= i < 32 ==> l[i] == ' ') &&
      l[35..35 + |v|] == v && (forall i :: 35 + |v| <= i < 77 ==> l[i] == ' ')
  {
    var pk, pv := PadRight(k, KeyWidth), PadRight(v, ValueWidth);
    PadRightNoNewline(k, KeyWidth);
    PadRightNoNewline(v, ValueWidth);
    var l := FormatRow(k, v);
    assert |pk| == 30 && |pv| == 42;
    assert l == "| " + pk + " | " + pv + " |";
    FiveParts("| ", pk, " | ", pv, " |");
    assert l[2..32] == pk && l[35..77] == pv;
    assert l[2..2 + |k|] == pk[..|k|];
    assert l[35..35 + |v|] == pv[..|v|];
    forall i | 0 <= i < |l| ensures l[i] != '\n' {
      if 2 <= i < 32 {
        assert l[i] == pk[i - 2];
      } else if 35 <= i < 77 {
        assert l[i] == pv[i - 35];
      }
    }
  }

  /**
   * Every table line is 79 characters (80 with its newline) and holds no
   * newline: "| ", the cut key left-justified in 30 columns, " | ", the cut
   * value left-justified in 42 columns, " |".
   */
  lemma RowLayout(key: string, value: string)
    ensures var k, v, l := StripAndTruncate(KeyWidth, Some(key)), StripAndTruncate(ValueWidth, Some(value)), RowLine(key, value);
      |l| == 79 && NoNewline(l) &&
      l[..2] == "| " && l[32..35] == " | " && l[77..] == " |" &&
      l[2..2 + |k|] == k && (forall i :: 2 + |k| <= i < 32 ==> l[i] == ' ') &&
      l[35..35 + |v|] == v && (forall i :: 35 + |v| <= i < 77 ==> l[i] == ' ')
  {
    var k, v := StripAndTruncate(KeyWidth, Some(key)), StripAndTruncate(ValueWidth, Some(value));
    assert NoNewline(k) && NoNewline(v);
    FormatRowLayout(k, v);
  }

  /** No line of the report holds a newline of its own. */
  lemma ReportLinesNoNewline(env: map<string, string>, keys: seq<string>, timestamp: string)
    requires forall k :: k in keys ==> k in env
    requires NoNewline(timestamp)
    ensures var all := [Header(timestamp), Rule()] + TableLines(env, keys);
      forall j :: 0 <= j < |all| ==> NoNewline(all[j])
  {
    var rows := TableLines(env, keys);
    HeadLinesNoNewline(timestamp);
    forall j | 0 <= j < |rows| ensures NoNewline(rows[j]) {
      RowLineNoNewline(keys[j], env[keys[j]]);
    }
    PrependTwoLines(Header(timestamp), Rule(), rows);
  }

  /** Two lines without newline put before lines without newline. */
  lemma PrependTwoLines(a: string, b: string, rest: seq<string>)
    requires NoNewline(a) && NoNewline(b)
    requires forall j :: 0 <= j < |rest| ==> NoNewline(rest[j])
    ensures var all := [a, b] + rest;
      forall j :: 0 <= j < |all| ==> NoNewline(all[j])
  {
    var all := [a, b] + rest;
    forall j | 2 <= j < |all| ensures NoNewline(all[j]) {
      assert all[j] == rest[j - 2];
    }
  }

  /** Neither the header nor the rule holds a newline. */
  lemma HeadLinesNoNewline(timestamp: string)
    requires NoNewline(timestamp)
    ensures NoNewline(Header(timestamp)) && NoNewline(Rule())
  {
    var h := Header(timestamp);
    forall i | 0 <= i < |h| ensures h[i] != '\n' {
      if 13 <= i < 13 + |timestamp| {
        assert h[i] == timestamp[i - 13];
      }
    }
  }

  /** A table line holds no newline. */
  lemma RowLineNoNewline(key: string, value: string)
    ensures NoNewline(RowLine(key, value))
  {
    RowLayout(key, value);
  }

  /** The table lines take 80 characters each, newline included. */
  lemma RowsLength(env: map<string, string>, keys: seq<string>)
    requires forall k :: k in keys ==> k in env
    ensures |JoinLines(TableLines(env, keys))| == 80 * |keys|
  {
    var rows := TableLines(env, keys);
    forall i | 0 <= i < |rows| ensures |rows[i]| == 79 {
      RowLayout(keys[i], env[keys[i]]);
    }
    JoinLinesLength(rows, 79);
  }

  /**
   * The report read back line by line: the header, the rule, then exactly
   * one 79-character line per variable, the i-th holding the i-th key in
   * strictly ascending order; nothing follows the last line. Each line
   * takes 80 characters with its newline.
   */
  lemma OneLinePerVariable(env: map<string, string>, timestamp: string)
    requires NoNewline(timestamp)
    ensures var keys := SortedKeys(env.Keys);
      var lines := SplitLines(Report(env, timestamp));
      StrictlyAscending(keys) && (forall k :: k in keys <==> k in env) &&
      |lines| == 2 + |env| &&
      lines[0] == Header(timestamp) && lines[1] == Rule() &&
      (forall i :: 0 <= i < |keys| ==> lines[2 + i] == RowLine(keys[i], env[keys[i]]) && |lines[2 + i]| == 79) &&
      |Report(env, timestamp)| == |Header(timestamp)| + 1 + |Rule()| + 1 + 80 * |env|
  {
    var keys := SortedKeys(env.Keys);
    var rows := TableLines(env, keys);
    ReportLinesNoNewline(env, keys, timestamp);
    SplitJoin([Header(timestamp), Rule()] + rows);
    forall i | 0 <= i < |keys| ensures |rows[i]| == 79 {
      RowLayout(keys[i], env[keys[i]]);
    }
    JoinLinesAppend([Header(timestamp), Rule()], rows);
    JoinTwoLines(Header(timestamp), Rule());
    RowsLength(env, keys);
  }

  /**
   * Two requests over the same environment differ only in the header line:
   * everything after it is the same whatever the timestamp.
   */
  lemma OnlyHeaderDependsOnTime(env: map<string, string>, t1: string, t2: string)
    ensures Report(env, t1)[|Header(t1)| + 1..] == Report(env, t2)[|Header(t2)| + 1..]
  {
    var rest := Rule() + "\n" + JoinLines(TableLines(env, SortedKeys(env.Keys)));
    ReportSplitsAfterHeader(env, t1);
    ReportSplitsAfterHeader(env, t2);
    assert (Header(t1) + "\n" + rest)[|Header(t1)| + 1..] == rest;
    assert (Header(t2) + "\n" + rest)[|Header(t2)| + 1..] == rest;
  }

  lemma ReportSplitsAfterHeader(env: map<string, string>, timestamp: string)
    ensures Report(env, timestamp) ==
      Header(timestamp) + "\n" + (Rule() + "\n" + JoinLines(TableLines(env, SortedKeys(env.Keys))))
  {
    var rows := TableLines(env, SortedKeys(env.Keys));
    JoinLinesAppend([Header(timestamp), Rule()], rows);
    JoinTwoLines(Header(timestamp), Rule());
  }
}
