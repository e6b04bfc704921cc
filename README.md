# Environment report: a Dafny model

`DemoApplication` is a small web endpoint that lists the process environment.
It has two renderers. `getEnvironment` builds an HTML page with one table row
per variable. `getEnvironmentPlain` builds a fixed-width text table for
terminals. Both iterate a `TreeMap` copy of the environment, so keys come in
ascending `String.compareTo` order. Every key and value goes through
`stripAndTruncate`. That helper first collapses each run of whitespace to one
space (`stripNewlinesAndTabs`). It then cuts a string longer than the bound to
`bound - 3` characters followed by `"..."` (`truncate`).

This project models that pipeline. The environment map and the formatted
timestamp are parameters:

- `wrappers.dfy`: `Option`, which stands for a Java reference that may be null.
- `sanitizer.dfy`: `stripNewlinesAndTabs`. It is modelled as `Collapse`, a
  recursive version of `replaceAll("\\s+", " ")` over Java's `\s` class.
  `Collapse` is proved equal to a two-step reference definition: map every
  whitespace character to a space, then squeeze runs of spaces.
- `truncation.dfy`: `truncate` and `stripAndTruncate`.
- `key_order.dfy`: `String.compareTo` as `Less`, with its order laws.
  `SortedKeys` is the TreeMap iteration order. Any strictly ascending
  enumeration of the keys equals it.
- `lines.dfy`: `JoinLines` (each line followed by `"\n"`) and `SplitLines`,
  which reads the lines back when none holds a newline. These state what the
  rendered text looks like line by line.
- `html_report.dfy`: `getEnvironment`. The page head and tail are the
  source's literal text. The row loop is the method `AppendRows`.
- `plain_report.dfy`: `getEnvironmentPlain`, with `%-30s` / `%-42s` as
  `PadRight`.

Each renderer's loop takes the least remaining key on every iteration, which
is how a `TreeMap` is iterated. Each loop is proved to produce exactly the
text that the ghost functions `Page` and `Report` define: the prefix, then
the row lines for the keys in ascending order.

## Model

| member | source | states |
|---|---|---|
| `Sanitizer.IsWhitespace` | src/main/java/de/fstab/demo/DemoApplication.java:89 | The regular-expression class `\s` of Java: space, tab, newline, vertical tab, form feed and carriage return, and no other character. |
| `Sanitizer.Collapse` | src/main/java/de/fstab/demo/DemoApplication.java:89 | The result is no longer than the input. It is empty exactly when the input is. Its first character is a space when the input starts with whitespace, and is the input's first character otherwise. |
| `Sanitizer.CollapseIsCollapsed` | src/main/java/de/fstab/demo/DemoApplication.java:89 | After sanitising, the only whitespace character left is the plain space, and no two spaces are adjacent. |
| `Sanitizer.StripNewlinesAndTabs` | src/main/java/de/fstab/demo/DemoApplication.java:85-90 | A null input gives `""`. Any result has no tab, newline, carriage return, form feed or vertical tab, and no two adjacent spaces. It is no longer than the input and has the same non-whitespace characters in the same order. |
| `Sanitizer.StripNewlinesAndTabsIsSqueezedNormalize` | src/main/java/de/fstab/demo/DemoApplication.java:85-90 | On any non-null string the sanitiser's result is fully determined: every whitespace character becomes a space, then each run of spaces is squeezed to one. |
| `Sanitizer.CollapseKeepsText` | src/main/java/de/fstab/demo/DemoApplication.java:89 | Collapsing keeps every non-whitespace character of the input, in order, and adds none. |
| `Sanitizer.CollapseFixedPoint` | src/main/java/de/fstab/demo/DemoApplication.java:89 | A string is left unchanged by the sanitiser if and only if it is already collapsed (both directions). |
| `Sanitizer.CollapseIdempotent` | src/main/java/de/fstab/demo/DemoApplication.java:89 | Sanitising twice gives the same string as sanitising once. |
| `Sanitizer.CollapseIsSqueezedNormalize` | src/main/java/de/fstab/demo/DemoApplication.java:89 | The sanitiser equals an independent reference definition: first turn every whitespace character into a space, then drop every space that follows a space. |
| `Sanitizer.NewlineTabExample` | src/main/java/de/fstab/demo/DemoApplication.java:85-90 | `"a\n\tb"` is sanitised to `"a b"`. |
| `Truncation.Truncate` | src/main/java/de/fstab/demo/DemoApplication.java:92-97 | It is defined exactly where `substring` does not throw. Null stays null. A string is returned unchanged if and only if it is at most `length` long. A longer string becomes exactly `length` characters: the input's first `length - 3` characters, then `"..."`. |
| `Truncation.TruncateLength` | src/main/java/de/fstab/demo/DemoApplication.java:93-96 | For a bound N ≥ 3 the result is as long as the input or N characters, whichever is less. |
| `Truncation.TruncateIdempotent` | src/main/java/de/fstab/demo/DemoApplication.java:93-96 | Truncating an already truncated string changes nothing. |
| `Truncation.TruncateKeepsCollapsed` | src/main/java/de/fstab/demo/DemoApplication.java:89-97 | Cutting a collapsed string leaves it collapsed, so truncation brings back no tab, newline or double space. |
| `Truncation.StripAndTruncate` | src/main/java/de/fstab/demo/DemoApplication.java:81-83 | The cell text is at most `length` characters. It has no tab, newline, carriage return, form feed or vertical tab, and no two adjacent spaces. |
| `Truncation.StripAndTruncateShape` | src/main/java/de/fstab/demo/DemoApplication.java:81-97 | For N ≥ 3 the cell is the sanitised string when that fits in N. Otherwise it is exactly N characters: the first N - 3 sanitised characters, then `"..."`. |
| `Truncation.StripAndTruncateNull` | src/main/java/de/fstab/demo/DemoApplication.java:81-90 | A null input gives the empty cell. |
| `KeyOrder.Less` | src/main/java/de/fstab/demo/DemoApplication.java:59 | `a.compareTo(b) < 0`: the strings are compared character by character, and at the first difference the smaller character wins. A proper prefix comes before the longer string. |
| `KeyOrder.LessCharacterised` | src/main/java/de/fstab/demo/DemoApplication.java:59 | `Less` holds exactly when the first string is a proper prefix of the second, or the first position where they differ holds a smaller character in the first (both directions). |
| `KeyOrder.LessTransitive` | src/main/java/de/fstab/demo/DemoApplication.java:59 | `compareTo` order is transitive. |
| `KeyOrder.LessTotal` | src/main/java/de/fstab/demo/DemoApplication.java:59 | Any two different strings are ordered one way or the other. |
| `KeyOrder.LessAsymmetric` | src/main/java/de/fstab/demo/DemoApplication.java:59 | No two strings are each less than the other. |
| `KeyOrder.LeastExists` | src/main/java/de/fstab/demo/DemoApplication.java:59 | Every non-empty key set has a least key, which a TreeMap hands out first. |
| `KeyOrder.SortedKeys` | src/main/java/de/fstab/demo/DemoApplication.java:59 | The iteration order is strictly ascending. It holds exactly the map's keys, each once. |
| `KeyOrder.SortedKeysCharacterised` | src/main/java/de/fstab/demo/DemoApplication.java:59 | A sequence is the iteration order of a key set if and only if it is strictly ascending and holds exactly those keys. |
| `KeyOrder.NextKey` | src/main/java/de/fstab/demo/DemoApplication.java:59 | Each iteration step yields the least key not yet visited, and the rest of the order follows it. That key is the only least key, so the step is determined. |
| `HtmlReport.Head` | src/main/java/de/fstab/demo/DemoApplication.java:32-56 | The page text before the first row: the literal lines of the source, with the timestamp inserted after `Current time: ` inside `<div class="timestamp">`, before `</div>`. |
| `HtmlReport.HeadLayout` | src/main/java/de/fstab/demo/DemoApplication.java:32-56 | The head is a constant prefix, then the timestamp, then a constant suffix. Its length is the sum of the three. |
| `HtmlReport.Tail` | src/main/java/de/fstab/demo/DemoApplication.java:66-76 | The page text after the last row: the literal lines of the source, including the 30-second refresh script. The page ends with `</html>` and a newline. |
| `HtmlReport.GetEnvironment` | src/main/java/de/fstab/demo/DemoApplication.java:23-78 | The page is the head with the timestamp, then the table body for the environment, then the tail. |
| `HtmlReport.AppendRows` | src/main/java/de/fstab/demo/DemoApplication.java:59-64 | The loop appends exactly the rows of all variables, in TreeMap order, to what the builder already holds. |
| `HtmlReport.RowLinesNoNewline` | src/main/java/de/fstab/demo/DemoApplication.java:60-63 | No line of a row holds a newline. The variable's own newlines are gone after sanitising. |
| `HtmlReport.BodyBlock` | src/main/java/de/fstab/demo/DemoApplication.java:60-63 | Lines 4i to 4i+3 of the body are `<tr>`, the cell of the cut key (bound 50), the cell of the cut value (bound 100), and `</tr>`. |
| `HtmlReport.OneRowPerVariable` | src/main/java/de/fstab/demo/DemoApplication.java:59-64 | Read back line by line, the table body has exactly 4 lines per variable. Block i is the row of the i-th key, and the keys are strictly ascending and cover the environment. |
| `HtmlReport.OnlyTimestampDependsOnTime` | src/main/java/de/fstab/demo/DemoApplication.java:23-78 | The page is the head, then text that depends on the environment alone. Two requests over the same environment differ only in the head, and the head differs only in the timestamp. |
| `PlainReport.Header` | src/main/java/de/fstab/demo/DemoApplication.java:111 | The first line is `ENVIRONMENT (`, the timestamp, then `)`: 14 characters more than the timestamp. It holds a newline exactly when the timestamp does. |
| `PlainReport.Rule` | src/main/java/de/fstab/demo/DemoApplication.java:112 | The second line is exactly 33 dashes. |
| `PlainReport.FormatRow` | src/main/java/de/fstab/demo/DemoApplication.java:117 | `String.format("| %-30s | %-42s |\n", key, value)` without its final newline: a bar and a space, the key padded to 30, a space, a bar and a space, the value padded to 42, a space and a bar. |
| `PlainReport.PadRight` | src/main/java/de/fstab/demo/DemoApplication.java:117 | `%-Ns` pads with spaces on the right to at least N characters. It keeps the text as a prefix and never cuts it. |
| `PlainReport.FormatRowLayout` | src/main/java/de/fstab/demo/DemoApplication.java:117 | For cells that fit their columns and hold no newline, the formatted line is 79 characters with no newline. Each cell sits left-justified in its column, followed by spaces. |
| `PlainReport.RowLayout` | src/main/java/de/fstab/demo/DemoApplication.java:115-117 | Every table line is 79 characters with no newline. It is a bar and a space, the cut key padded to 30 columns, a space, a bar and a space, the cut value padded to 42 columns, then a space and a bar. |
| `PlainReport.GetEnvironmentPlain` | src/main/java/de/fstab/demo/DemoApplication.java:103-120 | The text is the header line, the rule, then one line per variable in ascending key order. |
| `PlainReport.AppendRows` | src/main/java/de/fstab/demo/DemoApplication.java:114-118 | The loop appends one formatted line plus `"\n"` per variable, in TreeMap order. |
| `PlainReport.RowsLength` | src/main/java/de/fstab/demo/DemoApplication.java:114-118 | The table lines take 80 characters per variable, newline included. |
| `PlainReport.OneLinePerVariable` | src/main/java/de/fstab/demo/DemoApplication.java:111-120 | Read back line by line, the text is `ENVIRONMENT (<timestamp>)`, 33 dashes, then exactly one 79-character line per variable in strictly ascending key order. Nothing follows the last line, and the total length is the header's plus 35 plus 80 per variable. |
| `PlainReport.OnlyHeaderDependsOnTime` | src/main/java/de/fstab/demo/DemoApplication.java:107-118 | Two reports of the same environment agree on everything after the header line. |

## Left out

- `main` and the Spring annotations: these are framework bootstrap and HTTP routing. Status codes for other verbs and paths belong to the framework, not this code.
- `System.getenv()`: the environment is a `map<string, string>` parameter. The host's variables have no null keys or values, so none are modelled.
- `LocalDateTime.now()` and `DateTimeFormatter`: the timestamp is an opaque string parameter. Its `yyyy-MM-dd HH:mm:ss` shape is not modelled. `PlainReport.OneLinePerVariable` assumes only that it holds no newline.
- HTML head and tail: they are kept as the source's literal text. Beyond where the timestamp sits and how the page ends, no property is stated about their markup. The 30-second refresh is client-side script inside that text.
- `StringBuilder`: modelled as a string value that the methods extend. The row loop of each renderer is its own method, `AppendRows`, which extends the builder's current text.
- UTF-16 details: Java's `length`, `substring` and `compareTo` work on UTF-16 code units. The model works on Dafny characters (Unicode scalar values), so the ordering of characters outside the Basic Multilingual Plane and the counting of surrogate pairs are not captured.
- HTML escaping: the code embeds keys and values without escaping them, and so does the model.
- `%-30s` and `%-42s` left-justify: the padding goes on the right of the cell.
- For a bound below 3 and a string longer than the bound, `substring` throws `StringIndexOutOfBoundsException`. `Truncation.Truncate` requires exactly the inputs where it does not throw.
- Map keys are unique, so the TreeMap iteration order is strictly ascending.
