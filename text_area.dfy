/**
 * The sample text shown in the empty text box
 * (frontend/src/components/InputPanel/TextAreaInput.tsx): at most five rows
 * of m numbers cycling through 1..9, and a final "..." line when the grid has
 * more rows than that.
 */
module TextArea {
  import opened Wrappers
  import opened Types
  import opened JsText
  import opened Validation

  /** Shown while the grid has no rows or no columns ("please enter n and m first"). */
  const Prompt: string := "Vui lòng nhập n và m trước"

  /** At most this many rows are shown. */
  const PreviewLimit: int := 5

  /** The number shown at row i, column j of an m-wide preview. */
  function SampleValue(i: nat, j: nat, m: nat): (v: int)
    ensures 1 <= v <= 9
  {
    (i * m + j) % 9 + 1
  }

  /** The number of rows shown: n capped at five, none for a negative n. */
  function PreviewRows(n: int): (rows: nat)
    ensures rows <= PreviewLimit
    ensures 0 <= n <= PreviewLimit ==> rows == n
    ensures n > PreviewLimit ==> rows == PreviewLimit
  {
    if n < 0 then 0 else if n <= PreviewLimit then n else PreviewLimit
  }

  /** The width of a row: m, or nothing for a negative m. */
  function Width(m: int): nat {
    if m < 0 then 0 else m
  }

  function SampleRow(i: nat, m: int): (row: seq<int>)
    ensures |row| == Width(m) && forall j :: 0 <= j < |row| ==> row[j] == SampleValue(i, j, Width(m))
  {
    seq(Width(m), j requires 0 <= j < Width(m) => SampleValue(i, j, Width(m)))
  }

  /** The numbers of the preview, row by row. */
  function SampleGrid(n: int, m: int): (g: Matrix)
    ensures |g| == PreviewRows(n) && forall i :: 0 <= i < |g| ==> g[i] == SampleRow(i, m)
    ensures NatGrid(g)
  {
    seq(PreviewRows(n), i requires 0 <= i < PreviewRows(n) => SampleRow(i, m))
  }

  /** The preview's lines: one per shown row, then "..." if rows were left out. */
  function SampleLines(n: int, m: int): seq<string> {
    RowTexts(SampleGrid(n, m)) + (if n > PreviewLimit then ["..."] else [])
  }

  /** What generatePlaceholder returns. */
  function Placeholder(n: int, m: int): string {
    if n == 0 || m == 0 then Prompt else Join(SampleLines(n, m), '\n')
  }

  /** generatePlaceholder: build each row's numbers, join them, then join the lines. */
  method GeneratePlaceholder(n: int, m: int) returns (text: string)
    ensures text == Placeholder(n, m)
  {
    if n == 0 || m == 0 {
      return Prompt;
    }
    var grid := SampleGrid(n, m);
    var lines: seq<string> := [];
    var rowsShown := if n < PreviewLimit then n else PreviewLimit;
    var i := 0;
    while i < rowsShown
      invariant 0 <= i && (i <= rowsShown || i == 0)
      invariant i <= PreviewRows(n)
      invariant lines == RowTexts(grid)[..i]
    {
      var row := SampleRowOf(i, m);
      assert row == grid[i];
      assert RowTexts(grid)[..i + 1] == RowTexts(grid)[..i] + [RowText(grid[i])];
      lines := lines + [RowText(row)];
      i := i + 1;
    }
    assert i == PreviewRows(n);
    assert lines == RowTexts(grid);
    if n > PreviewLimit {
      lines := lines + ["..."];
    }
    assert lines == SampleLines(n, m);
    return Join(lines, '\n');
  }

  /** The inner loop of generatePlaceholder: the m numbers of preview row i. */
  method SampleRowOf(i: nat, m: int) returns (row: seq<int>)
    ensures row == SampleRow(i, m)
  {
    row := [];
    var j := 0;
    while j < m
      invariant 0 <= j <= Width(m)
      invariant row == SampleRow(i, m)[..j]
    {
      assert SampleRow(i, m)[..j + 1] == SampleRow(i, m)[..j] + [SampleValue(i, j, Width(m))];
      var value := (i * m + j) % 9 + 1;
      assert Width(m) == m;
      assert value == SampleValue(i, j, Width(m));
      row := row + [value];
      j := j + 1;
    }
  }

  /**
   * Above five rows the preview has six lines and ends in "..."; otherwise it
   * has one line per row and none of them is "...".
   */
  lemma EllipsisLine(n: int, m: int)
    ensures n > PreviewLimit ==> |SampleLines(n, m)| == PreviewLimit + 1 && SampleLines(n, m)[PreviewLimit] == "..."
    ensures n <= PreviewLimit ==>
      |SampleLines(n, m)| == PreviewRows(n) && forall k :: 0 <= k < |SampleLines(n, m)| ==> SampleLines(n, m)[k] != "..."
  {
    if n <= PreviewLimit {
      var lines := SampleLines(n, m);
      var grid := SampleGrid(n, m);
      assert lines == RowTexts(grid);
      forall k | 0 <= k < |lines| ensures lines[k] != "..." {
        var row := grid[k];
        assert lines[k] == RowText(row);
        if |row| > 0 {
          RowTextShape(row);
          assert IsDigit(lines[k][0]) && !IsDigit("..."[0]);
        } else {
          assert RowTokens(row) == [];
          assert lines[k] == "";
        }
      }
    }
  }

  /** Up to five rows, the preview is a well-formed n x m grid: it parses back as its own numbers. */
  lemma PlaceholderParses(n: int, m: int)
    requires 1 <= n <= PreviewLimit && m >= 1
    ensures ParseMatrix(Placeholder(n, m), n, m) == Ok(SampleGrid(n, m))
  {
    var g := SampleGrid(n, m);
    assert SampleLines(n, m) == RowTexts(g);
    assert Placeholder(n, m) == GridText(g);
    ParseGridText(g, n, m);
  }
}
