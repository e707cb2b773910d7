/**
  The cell builder of colab/generate_notebook.py: the markdown source is cut
  on `---` into parts, and each part that is not blank becomes one markdown
  cell, or an optional markdown cell followed by a code cell when it holds
  a ```` ```python ```` block.
*/
module Notebook {
  import opened Wrappers
  import opened PyStr

  /** Separator between parts. */
  const Separator: string := "---"
  /** Opening fence of a code block. */
  const CodeFence: string := "```python"
  /** Closing fence of a code block. */
  const Fence: string := "```"

  /** A notebook cell; a code cell also carries its execution count and outputs (the empty `metadata` of every cell is left out). */
  datatype Cell =
    | Markdown(source: seq<string>)
    | Code(executionCount: Option<nat>, outputs: seq<string>, source: seq<string>)

  /** The `ValueError` raised when a ```` ```python ```` block is never closed. */
  datatype NotebookError = UnclosedCodeFence

  /** `[line + '\n' for line in text.split('\n')]`: the `source` list of a cell. */
  function SourceLines(text: string): (lines: seq<string>)
    ensures |lines| == |Split(text, "\n")|
    ensures forall k :: 0 <= k < |lines| ==> EndsWithNewline(lines[k])
  {
    Terminated(Split(text, "\n"))
  }

  /** Every line with a newline appended. */
  function Terminated(parts: seq<string>): (lines: seq<string>)
    ensures |lines| == |parts|
  {
    seq(|parts|, k requires 0 <= k < |parts| => parts[k] + "\n")
  }

  /** The text a `source` list stands for: its lines put back together. */
  function Concat(lines: seq<string>): string {
    if lines == [] then [] else lines[0] + Concat(lines[1..])
  }

  predicate EndsWithNewline(line: string) {
    |line| > 0 && line[|line| - 1] == '\n'
  }

  /** Each entry of a `source` list is one line of the text: it ends in, and holds no other, newline. */
  lemma SourceLinesShape(text: string)
    ensures forall k :: 0 <= k < |SourceLines(text)| ==>
              var line := SourceLines(text)[k];
              EndsWithNewline(line) && !Contains(line[..|line| - 1], "\n")
  {
    var parts := Split(text, "\n");
    SplitPiecesFree(text, "\n");
    forall k | 0 <= k < |parts|
      ensures var line := SourceLines(text)[k]; EndsWithNewline(line) && !Contains(line[..|line| - 1], "\n")
    {
      var line := SourceLines(text)[k];
      assert line[..|line| - 1] == parts[k];
    }
  }

  /** Terminating the pieces and concatenating them is joining them on newlines, plus a final newline. */
  lemma {:induction false} ConcatTerminated(parts: seq<string>)
    requires |parts| > 0
    ensures Concat(Terminated(parts)) == Join(parts, "\n") + "\n"
  {
    if |parts| > 1 {
      ConcatTerminated(parts[1..]);
      assert Terminated(parts)[1..] == Terminated(parts[1..]);
    }
  }

  /** A cell's `source` list puts back together into its text plus one final newline. */
  lemma SourceLinesRoundTrip(text: string)
    ensures Concat(SourceLines(text)) == text + "\n"
  {
    ConcatTerminated(Split(text, "\n"));
    SplitJoin(text, "\n");
  }

  /** The cells of a part with a code block: a markdown cell unless `md` is empty, then the code cell. */
  function FencedCells(md: string, code: string): seq<Cell> {
    (if md != [] then [Markdown(SourceLines(md))] else []) + [Code(None, [], SourceLines(code))]
  }

  /** One or two cells: the last the code cell, a markdown cell before it exactly when `md` is not empty. */
  lemma FencedCellsShape(md: string, code: string)
    ensures var cells := FencedCells(md, code);
            && 1 <= |cells| <= 2
            && cells[|cells| - 1] == Code(None, [], SourceLines(code))
            && (|cells| == 2 <==> md != [])
            && (|cells| == 2 ==> cells[0] == Markdown(SourceLines(md)))
  {
  }

  /** The cells of one part (the body of `for part in parts`). */
  function PartCells(part: string): (r: Result<seq<Cell>, NotebookError>)
    ensures r.Ok? ==> |r.value| <= 2
    ensures r.Err? ==> Contains(Strip(part), CodeFence)
  {
    var p := Strip(part);
    if p == [] then Ok([])
    else if Contains(p, CodeFence) then
      var halves := SplitOnce(p, CodeFence);
      var codeHalves := SplitOnce(halves[1], Fence);
      if |codeHalves| != 2 then Err(UnclosedCodeFence)
      else
        Ok(FencedCells(Strip(halves[0]), Strip(codeHalves[0])))
    else Ok([Markdown(SourceLines(p))])
  }

  /**
    The cells of a sequence of per-part results, in order, or the error of
    the first part that fails (the exception ends the loop).
  */
  function Collect<T, E>(rs: seq<Result<seq<T>, E>>): Result<seq<T>, E> {
    if rs == [] then Ok([])
    else
      match Collect(rs[..|rs| - 1])
      case Err(e) => Err(e)
      case Ok(cells) =>
        match rs[|rs| - 1]
        case Err(e) => Err(e)
        case Ok(more) => Ok(cells + more)
  }

  /** The result of every part, in order. */
  function PartResults(parts: seq<string>): (rs: seq<Result<seq<Cell>, NotebookError>>)
    ensures |rs| == |parts|
  {
    seq(|parts|, k requires 0 <= k < |parts| => PartCells(parts[k]))
  }

  /** Some part has an unclosed code block. */
  predicate SomePartFails(parts: seq<string>) {
    exists k :: 0 <= k < |parts| && PartCells(parts[k]).Err?
  }

  /** The cells built from the whole markdown source. */
  function Cells(content: string): (r: Result<seq<Cell>, NotebookError>)
    ensures r.Err? <==> SomePartFails(Split(content, Separator))
  {
    var parts := Split(content, Separator);
    PartsFail(parts);
    Collect(PartResults(parts))
  }

  /** Once a prefix of the results fails, the whole fails with the same error. */
  lemma {:induction false} CollectErrPersists<T, E>(rs: seq<Result<seq<T>, E>>, i: nat)
    requires i <= |rs| && Collect(rs[..i]).Err?
    ensures Collect(rs) == Collect(rs[..i])
    decreases |rs|
  {
    if i < |rs| {
      var prev := rs[..|rs| - 1];
      assert prev[..i] == rs[..i];
      CollectErrPersists(prev, i);
    } else {
      assert rs[..i] == rs;
    }
  }

  /** The results up to `i + 1` add the cells of result `i` to those before it. */
  lemma CollectStep<T, E>(rs: seq<Result<seq<T>, E>>, i: nat)
    requires i < |rs| && Collect(rs[..i]).Ok?
    ensures rs[i].Err? ==> Collect(rs[..i + 1]) == Err(rs[i].error)
    ensures rs[i].Ok? ==> Collect(rs[..i + 1]) == Ok(Collect(rs[..i]).value + rs[i].value)
  {
    assert rs[..i + 1][..i] == rs[..i];
  }

  /** Lines 21-51: the body of `for part in parts`, the cells one part adds. */
  method BuildPartCells(part: string) returns (result: Result<seq<Cell>, NotebookError>)
    ensures result == PartCells(part)
  {
    var p := Strip(part);
    if p == [] {
      return Ok([]);
    }
    if Contains(p, CodeFence) {
      var halves := SplitOnce(p, CodeFence);
      var mdPart, codePart := halves[0], halves[1];
      var codeHalves := SplitOnce(codePart, Fence);
      if |codeHalves| != 2 {
        return Err(UnclosedCodeFence);
      }
      codePart := codeHalves[0];
      var cells: seq<Cell> := [];
      if Strip(mdPart) != [] {
        cells := [Markdown(SourceLines(Strip(mdPart)))];
      }
      cells := cells + [Code(None, [], SourceLines(Strip(codePart)))];
      return Ok(cells);
    }
    return Ok([Markdown(SourceLines(p))]);
  }

  /** Lines 16-51: the loop that builds the cells part by part. */
  method GenerateCells(content: string) returns (result: Result<seq<Cell>, NotebookError>)
    ensures result == Cells(content)
  {
    var cells: seq<Cell> := [];
    var parts := Split(content, Separator);
    ghost var rs := PartResults(parts);
    for i := 0 to |parts|
      invariant Collect(rs[..i]) == Ok(cells)
    {
      CollectStep(rs, i);
      var more := BuildPartCells(parts[i]);
      assert rs[i] == more;
      if more.Err? {
        CollectErrPersists(rs, i + 1);
        return Err(more.error);
      }
      cells := cells + more.value;
    }
    assert rs[..|parts|] == rs;
    result := Ok(cells);
  }

  /** A part produces no cell exactly when it is blank. */
  lemma BlankPartHasNoCells(part: string)
    ensures PartCells(part) == Ok([]) <==> Strip(part) == []
  {
  }

  /** A part only fails when it opens a code block. */
  lemma OnlyCodePartsFail(part: string)
    ensures PartCells(part).Err? ==> Contains(Strip(part), CodeFence)
  {
  }

  /** A non-blank part without a code block is one markdown cell holding the stripped part. */
  lemma PlainPartIsOneMarkdownCell(part: string)
    requires Strip(part) != [] && !Contains(Strip(part), CodeFence)
    ensures PartCells(part).Ok? && |PartCells(part).value| == 1
    ensures var cell := PartCells(part).value[0];
            cell.Markdown? && Concat(cell.source) == Strip(part) + "\n"
  {
    SourceLinesRoundTrip(Strip(part));
  }

  /** A part with a code block fails exactly when no closing fence follows the first opening one. */
  lemma UnclosedFenceFails(part: string)
    requires Contains(Strip(part), CodeFence)
    ensures var p := Strip(part);
            var i := Find(p, CodeFence).value;
            PartCells(part).Err? <==> !Contains(p[i + |CodeFence|..], Fence)
  {
  }

  /**
    A part with a closed code block is cut into the text `md` before the
    first opening fence, the code up to the first closing fence after it, and
    a discarded rest. It gives a code cell holding the stripped code,
    preceded by a markdown cell holding the stripped `md` exactly when that
    is not blank.
  */
  lemma CodePartCells(part: string) returns (md: string, code: string, rest: string)
    requires Contains(Strip(part), CodeFence) && PartCells(part).Ok?
    ensures Strip(part) == md + CodeFence + (code + Fence + rest)
    ensures Find(Strip(part), CodeFence) == Some(|md|)
    ensures Find(code + Fence + rest, Fence) == Some(|code|)
    ensures PartCells(part) == Ok(FencedCells(Strip(md), Strip(code)))
  {
    var p := Strip(part);
    var halves := SplitOnce(p, CodeFence);
    SplitOnceParts(p, CodeFence);
    var codeHalves := SplitOnce(halves[1], Fence);
    SplitOnceParts(halves[1], Fence);
    md, code, rest := halves[0], codeHalves[0], codeHalves[1];
    assert halves[1] == code + Fence + rest;
  }

  /** Every entry of a cell's `source` ends in a newline, and code cells are unexecuted and empty. */
  predicate WellFormed(cell: Cell) {
    && (forall k :: 0 <= k < |cell.source| ==> EndsWithNewline(cell.source[k]))
    && (cell.Code? ==> cell.executionCount == None && cell.outputs == [])
  }

  /** A markdown cell built from any text is well formed. */
  lemma MarkdownWellFormed(text: string)
    ensures WellFormed(Markdown(SourceLines(text)))
  {
    SourceLinesShape(text);
  }

  /** A code cell built from any text is well formed. */
  lemma CodeWellFormed(text: string)
    ensures WellFormed(Code(None, [], SourceLines(text)))
  {
    SourceLinesShape(text);
  }

  predicate AllWellFormed(cells: seq<Cell>) {
    forall k :: 0 <= k < |cells| ==> WellFormed(cells[k])
  }

  /** The cells of a part with a code block are well formed. */
  lemma FencedCellsWellFormed(md: string, code: string)
    ensures AllWellFormed(FencedCells(md, code))
  {
    MarkdownWellFormed(md);
    CodeWellFormed(code);
  }

  /** The cells of one part are well formed. */
  lemma PartCellsWellFormed(part: string)
    requires PartCells(part).Ok?
    ensures AllWellFormed(PartCells(part).value)
  {
    var p := Strip(part);
    if p == [] {
      assert PartCells(part) == Ok([]);
    } else if Contains(p, CodeFence) {
      var halves := SplitOnce(p, CodeFence);
      var codeHalves := SplitOnce(halves[1], Fence);
      assert |codeHalves| == 2;
      var md, code := Strip(halves[0]), Strip(codeHalves[0]);
      FencedCellsWellFormed(md, code);
      assert PartCells(part) == Ok(FencedCells(md, code));
    } else {
      MarkdownWellFormed(p);
      assert PartCells(part) == Ok([Markdown(SourceLines(p))]);
    }
  }

  /** Collecting well-formed cells gives well-formed cells. */
  lemma {:induction false} CollectWellFormed(rs: seq<Result<seq<Cell>, NotebookError>>)
    requires forall k :: 0 <= k < |rs| && rs[k].Ok? ==> AllWellFormed(rs[k].value)
    requires Collect(rs).Ok?
    ensures AllWellFormed(Collect(rs).value)
  {
    if rs != [] {
      var prev := rs[..|rs| - 1];
      assert forall k :: 0 <= k < |prev| ==> prev[k] == rs[k];
      CollectWellFormed(prev);
    }
  }

  /** Every cell built from a markdown source is well formed. */
  lemma CellsWellFormed(content: string)
    requires Cells(content).Ok?
    ensures AllWellFormed(Cells(content).value)
  {
    var parts := Split(content, Separator);
    var rs := PartResults(parts);
    forall k | 0 <= k < |rs| && rs[k].Ok?
      ensures AllWellFormed(rs[k].value)
    {
      PartCellsWellFormed(parts[k]);
    }
    CollectWellFormed(rs);
  }

  /** Cells follow the order of their parts: the cells of `a + b` are those of `a`, then those of `b`. */
  lemma {:induction false} CollectAppend<T, E>(a: seq<Result<seq<T>, E>>, b: seq<Result<seq<T>, E>>)
    requires Collect(a).Ok? && Collect(b).Ok?
    ensures Collect(a + b) == Ok(Collect(a).value + Collect(b).value)
  {
    if b == [] {
      assert a + b == a;
      assert Collect(a).value + [] == Collect(a).value;
    } else {
      var b' := b[..|b| - 1];
      assert Collect(b').Ok?;
      assert (a + b)[..|a + b| - 1] == a + b';
      assert (a + b)[|a + b| - 1] == b[|b| - 1];
      CollectAppend(a, b');
      var ca, cb', more := Collect(a).value, Collect(b').value, b[|b| - 1].value;
      assert Collect(b).value == cb' + more;
      assert ca + cb' + more == ca + (cb' + more);
    }
  }

  /** Collecting fails exactly when some part fails. */
  lemma {:induction false} CollectFails<T, E>(rs: seq<Result<seq<T>, E>>)
    ensures Collect(rs).Err? <==> exists k :: 0 <= k < |rs| && rs[k].Err?
  {
    if rs != [] {
      var prev := rs[..|rs| - 1];
      CollectFails(prev);
      if Collect(rs).Err? {
        if Collect(prev).Err? {
          var k :| 0 <= k < |prev| && prev[k].Err?;
          assert rs[k] == prev[k];
        } else {
          assert rs[|rs| - 1].Err?;
        }
      } else {
        forall k | 0 <= k < |rs| ensures rs[k].Ok? {
          if k < |prev| {
            assert rs[k] == prev[k];
          }
        }
      }
    }
  }

  /** Building the cells of some parts fails exactly when one of them has an unclosed code block. */
  lemma PartsFail(parts: seq<string>)
    ensures Collect(PartResults(parts)).Err? <==> exists k :: 0 <= k < |parts| && PartCells(parts[k]).Err?
  {
    var rs := PartResults(parts);
    CollectFails(rs);
    if Collect(rs).Err? {
      var k :| 0 <= k < |rs| && rs[k].Err?;
      assert PartCells(parts[k]).Err?;
    }
    if exists k :: 0 <= k < |parts| && PartCells(parts[k]).Err? {
      var k :| 0 <= k < |parts| && PartCells(parts[k]).Err?;
      assert rs[k].Err?;
    }
  }

  /** Number of parts that are not blank. */
  function NonBlank(parts: seq<string>): nat {
    if parts == [] then 0
    else NonBlank(parts[..|parts| - 1]) + (if Strip(parts[|parts| - 1]) != [] then 1 else 0)
  }

  /** A blank part gives no cell, any other part one or two. */
  lemma PartCellsCount(part: string)
    requires PartCells(part).Ok?
    ensures Strip(part) == [] ==> |PartCells(part).value| == 0
    ensures Strip(part) != [] ==> 1 <= |PartCells(part).value| <= 2
  {
  }

  lemma {:induction false} CollectCount(rs: seq<Result<seq<Cell>, NotebookError>>, parts: seq<string>)
    requires |rs| == |parts|
    requires forall k :: 0 <= k < |rs| && rs[k].Ok? ==>
               if Strip(parts[k]) == [] then |rs[k].value| == 0 else 1 <= |rs[k].value| <= 2
    requires Collect(rs).Ok?
    ensures NonBlank(parts) <= |Collect(rs).value| <= 2 * NonBlank(parts)
  {
    if rs != [] {
      var prev, prevParts := rs[..|rs| - 1], parts[..|parts| - 1];
      assert forall k :: 0 <= k < |prev| ==> prev[k] == rs[k] && prevParts[k] == parts[k];
      CollectCount(prev, prevParts);
    }
  }

  /** Every part that is not blank contributes one or two cells. */
  lemma CellsCount(content: string)
    requires Cells(content).Ok?
    ensures var parts := Split(content, Separator);
            NonBlank(parts) <= |Cells(content).value| <= 2 * NonBlank(parts)
  {
    var parts := Split(content, Separator);
    var rs := PartResults(parts);
    forall k | 0 <= k < |rs| && rs[k].Ok?
      ensures if Strip(parts[k]) == [] then |rs[k].value| == 0 else 1 <= |rs[k].value| <= 2
    {
      PartCellsCount(parts[k]);
    }
    CollectCount(rs, parts);
  }
}
