/**
 * `getEnvironment`: the HTML page listing the environment, one table row
 * per variable in TreeMap order. The environment and the formatted
 * timestamp are parameters; the page boilerplate is constant text.
 */
module HtmlReport {
  import opened Wrappers
  import opened Truncation
  import opened Lines
  import opened KeyOrder

  /** Bound on the key cell. */
  const KeyWidth := 50
  /** Bound on the value cell. */
  const ValueWidth := 100

  /** The head of the page up to the timestamp: lines 1 to 15 and the start of line 16. */
  const HeadStart: string :=
    "<!DOCTYPE html>\n" +
    "<html lang=\"en\">\n" +
    "<head>\n" +
    "    <meta charset=\"UTF-8\">\n" +
    "    <meta name=\"viewport\" content=\"width=device-width, initial-scale=1.0\">\n" +
    "    <title>Environment Variables</title>\n" +
    "    <link href=\"https://cdn.jsdelivr.net/npm/bootstrap@5.3.0/dist/css/bootstrap.min.css\" rel=\"stylesheet\">\n" +
    "    <style>\n" +
    "        body { padding: 20px; }\n" +
    "        .timestamp { margin-bottom: 20px; font-style: italic; }\n" +
    "    </style>\n" +
    "</head>\n" +
    "<body>\n" +
    "    <div class=\"container\">\n" +
    "        <h1 class=\"mt-4 mb-4\">Environment Variables</h1>\n" +
    "        <div class=\"timestamp\">Current time: "

  /** The head of the page after the timestamp, up to the opening of the table body. */
  const HeadEnd: string :=
    "</div>\n" +
    "        <div class=\"table-responsive\">\n" +
    "            <table class=\"table table-striped table-hover table-bordered\">\n" +
    "                <thead class=\"table-dark\">\n" +
    "                    <tr>\n" +
    "                        <th>Variable</th>\n" +
    "                        <th>Value</th>\n" +
    "                    </tr>\n" +
    "                </thead>\n" +
    "                <tbody>\n"

  /**
   * Everything the page holds before the first table row: constant text,
   * the timestamp, then constant text again.
   */
  function Head(timestamp: string): string {
    HeadStart + timestamp + HeadEnd
  }

  /** The head is a constant prefix, the timestamp, then a constant suffix. */
  lemma HeadLayout(timestamp: string)
    ensures var r := Head(timestamp);
      |r| == |HeadStart| + |timestamp| + |HeadEnd| &&
      r[..|HeadStart|] == HeadStart &&
      r[|HeadStart|..|HeadStart| + |timestamp|] == timestamp &&
      r[|HeadStart| + |timestamp|..] == HeadEnd
  {
    ThreeParts(HeadStart, timestamp, HeadEnd);
  }

  /** Where each of three concatenated parts sits. */
  lemma ThreeParts(a: string, b: string, c: string)
    ensures var l := a + b + c;
      l[..|a|] == a && l[|a|..|a| + |b|] == b && l[|a| + |b|..] == c
  {
  }

  /** Everything the page holds after the last table row, auto-refresh script included. */
  function Tail(): (r: string)
    ensures |r| >= 8 && r[|r| - 8..] == "</html>\n"
  {
    "                </tbody>\n" +
    "            </table>\n" +
    "        </div>\n" +
    "    </div>\n" +
    "    <script>\n" +
    "        setTimeout(function() { location.reload(); }, 30000); // Refresh every 30 seconds\n" +
    "    </script>\n" +
    "</body>\n" +
    "</html>\n"
  }

  const RowOpen := "                    <tr>"
  const RowClose := "                    </tr>"
  const CellOpen := "                        <td>"
  const CellClose := "</td>"

  /** The line of one table cell; the text is embedded as it is, without escaping. */
  function Cell(text: string): string {
    CellOpen + text + CellClose
  }

  /** The four lines of the table row for one variable. */
  function RowLines(key: string, value: string): (ls: seq<string>)
    ensures |ls| == 4
  {
    [RowOpen, Cell(StripAndTruncate(KeyWidth, Some(key))), Cell(StripAndTruncate(ValueWidth, Some(value))), RowClose]
  }

  /** The rows for the variables `keys`, in that order. */
  function Rows(env: map<string, string>, keys: seq<string>): (rows: seq<seq<string>>)
    requires forall k :: k in keys ==> k in env
    ensures |rows| == |keys|
  {
    seq(|keys|, i requires 0 <= i < |keys| => RowLines(keys[i], env[keys[i]]))
  }

  /** The table body: the rows of all variables, in TreeMap order. */
  ghost function TableBody(env: map<string, string>): string {
    JoinLines(Flatten(Rows(env, SortedKeys(env.Keys))))
  }

  /** The page `getEnvironment` returns for environment `env` at time `timestamp`. */
  ghost function Page(env: map<string, string>, timestamp: string): string {
    Head(timestamp) + Rest(env)
  }

  /** Everything after the head: the table body, then the tail. */
  ghost function Rest(env: map<string, string>): string {
    TableBody(env) + Tail()
  }

  /**
   * `getEnvironment`, with `System.getenv()` and the formatted current time
   * passed in: the head, then the table rows, then the tail.
   */
  method GetEnvironment(env: map<string, string>, timestamp: string) returns (result: string)
    ensures result == Page(env, timestamp)
  {
    result := Head(timestamp);
    result := AppendRows(result, env);
    result := result + Tail();
    Associative(Head(timestamp), TableBody(env), Tail());
  }

  lemma Associative(a: string, b: string, c: string)
    ensures a + b + c == a + (b + c)
  {
  }

  /**
   * The loop of `getEnvironment`: one row per variable, taken from the
   * TreeMap in ascending key order, appended to what `result` already holds.
   */
  method AppendRows(prefix: string, env: map<string, string>) returns (result: string)
    ensures result == prefix + TableBody(env)
  {
    result := prefix;
    var remaining := env.Keys;
    ghost var visited: seq<string> := [];
    while remaining != {}
      invariant remaining <= env.Keys
      invariant forall k :: k in visited ==> k in env
      invariant SortedKeys(env.Keys) == visited + SortedKeys(remaining)
      invariant result == prefix + JoinLines(Flatten(Rows(env, visited)))
      decreases |remaining|
    {
      LeastExists(remaining);
      var key :| key in remaining && IsLeast(key, remaining);
      NextKey(env.Keys, visited, remaining, key);
      var value := env[key];
      var row := RowOpen + "\n";
      row := row + Cell(StripAndTruncate(KeyWidth, Some(key))) + "\n";
      row := row + Cell(StripAndTruncate(ValueWidth, Some(value))) + "\n";
      row := row + RowClose + "\n";
      JoinFourLines(RowLines(key, value));
      RowsSnoc(env, visited, key);
      AppendLines(prefix, Flatten(Rows(env, visited)), RowLines(key, value));
      result := result + row;
      visited := visited + [key];
      remaining := remaining - {key};
    }
    assert SortedKeys(remaining) == [];
    assert visited == SortedKeys(env.Keys);
  }

  lemma RowsSnoc(env: map<string, string>, keys: seq<string>, key: string)
    requires forall k :: k in keys ==> k in env
    requires key in env
    ensures Flatten(Rows(env, keys + [key])) == Flatten(Rows(env, keys)) + RowLines(key, env[key])
  {
    var rs := Rows(env, keys + [key]);
    assert rs[..|keys|] == Rows(env, keys);
  }

  /** Appending the text of more lines to a prefix and some lines. */
  lemma AppendLines(prefix: string, lines: seq<string>, more: seq<string>)
    ensures prefix + JoinLines(lines) + JoinLines(more) == prefix + JoinLines(lines + more)
  {
    JoinLinesAppend(lines, more);
  }

  /** The text of four lines, as a row of the table is appended. */
  lemma JoinFourLines(ls: seq<string>)
    requires |ls| == 4
    ensures JoinLines(ls) == ls[0] + "\n" + ls[1] + "\n" + ls[2] + "\n" + ls[3] + "\n"
  {
    assert JoinLines(ls[3..]) == ls[3] + "\n" by {
      assert ls[3..][1..] == [];
    }
    assert JoinLines(ls[2..]) == ls[2] + "\n" + JoinLines(ls[3..]) by {
      assert ls[2..][1..] == ls[3..];
    }
    assert JoinLines(ls[1..]) == ls[1] + "\n" + JoinLines(ls[2..]) by {
      assert ls[1..][1..] == ls[2..];
    }
  }

  /** No line of a row holds a newline: sanitising removed those of the variable. */
  lemma RowLinesNoNewline(key: string, value: string)
    ensures forall i :: 0 <= i < 4 ==> NoNewline(RowLines(key, value)[i])
  {
    var k := StripAndTruncate(KeyWidth, Some(key));
    var v := StripAndTruncate(ValueWidth, Some(value));
    assert NoNewline(k) && NoNewline(v);
  }

  /** Every line of the table body is free of newlines. */
  lemma BodyLinesNoNewline(env: map<string, string>, keys: seq<string>)
    requires forall k :: k in keys ==> k in env
    ensures forall j :: 0 <= j < |Flatten(Rows(env, keys))| ==> NoNewline(Flatten(Rows(env, keys))[j])
  {
    var rows := Rows(env, keys);
    var ls := Flatten(rows);
    forall j | 0 <= j < |ls| ensures NoNewline(ls[j]) {
      FlattenMember(rows, ls[j]);
      var i :| 0 <= i < |rows| && ls[j] in rows[i];
      RowLinesNoNewline(keys[i], env[keys[i]]);
    }
  }

  /** Lines 4i to 4i + 3 of the table body are the row of keys[i]. */
  lemma BodyBlock(env: map<string, string>, keys: seq<string>, i: nat)
    requires forall k :: k in keys ==> k in env
    requires i < |keys|
    ensures var ls := Flatten(Rows(env, keys));
      4 * i + 3 < |ls| &&
      ls[4 * i] == RowOpen &&
      ls[4 * i + 1] == Cell(StripAndTruncate(KeyWidth, Some(keys[i]))) &&
      ls[4 * i + 2] == Cell(StripAndTruncate(ValueWidth, Some(env[keys[i]]))) &&
      ls[4 * i + 3] == RowClose
  {
    var rows := Rows(env, keys);
    var ls := Flatten(rows);
    FlattenBlock(rows, 4, i);
    var row := ls[4 * i..4 * i + 4];
    assert row == RowLines(keys[i], env[keys[i]]);
    assert ls[4 * i] == row[0] && ls[4 * i + 1] == row[1] && ls[4 * i + 2] == row[2] && ls[4 * i + 3] == row[3];
  }

  /**
   * The table body of the page read back line by line: exactly four lines
   * per variable, and block i opens a row, holds the cut key and the cut
   * value of the i-th key in strictly ascending order, and closes the row.
   * Sanitising keeps the variables' own newlines from adding lines.
   */
  lemma OneRowPerVariable(env: map<string, string>)
    ensures var keys := SortedKeys(env.Keys);
      var lines := SplitLines(TableBody(env));
      StrictlyAscending(keys) && (forall k :: k in keys <==> k in env) &&
      |lines| == 4 * |env| &&
      forall i :: 0 <= i < |keys| ==>
        lines[4 * i] == RowOpen &&
        lines[4 * i + 1] == Cell(StripAndTruncate(KeyWidth, Some(keys[i]))) &&
        lines[4 * i + 2] == Cell(StripAndTruncate(ValueWidth, Some(env[keys[i]]))) &&
        lines[4 * i + 3] == RowClose
  {
    var keys := SortedKeys(env.Keys);
    var ls := Flatten(Rows(env, keys));
    FlattenLength(Rows(env, keys), 4);
    BodyLinesNoNewline(env, keys);
    SplitJoin(ls);
    forall i | 0 <= i < |keys|
      ensures ls[4 * i] == RowOpen
      ensures ls[4 * i + 1] == Cell(StripAndTruncate(KeyWidth, Some(keys[i])))
      ensures ls[4 * i + 2] == Cell(StripAndTruncate(ValueWidth, Some(env[keys[i]])))
      ensures ls[4 * i + 3] == RowClose
    {
      BodyBlock(env, keys, i);
    }
  }

  /**
   * The page is the head, then text that depends on the environment alone:
   * two requests over the same environment differ only in the head, and
   * the head only in its timestamp.
   */
  lemma OnlyTimestampDependsOnTime(env: map<string, string>, timestamp: string)
    ensures Page(env, timestamp)[..|Head(timestamp)|] == Head(timestamp)
    ensures Page(env, timestamp)[|Head(timestamp)|..] == Rest(env)
  {
    PrefixOf(Head(timestamp), Rest(env));
  }

  /** `a` and then `b`, read back from `a + b`. */
  lemma PrefixOf(a: string, b: string)
    ensures (a + b)[..|a|] == a && (a + b)[|a|..] == b
  {
  }
}
