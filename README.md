# Facial-expression emotion core, in Dafny

This project models the logic that turns OpenFace rows into emotion labels. It also models the small parser that turns the markdown notebook source into notebook cells. Three pieces of the repository are covered:

- **The batch analysis** (`src/faceexpression/classifier.py`):
  - keep the rows with `success == 1` and `confidence > 0.8`;
  - classify each kept row from nine action-unit flags by a fixed rule priority: Happy, Angry, Sad, Surprised, otherwise Neutral;
  - smooth the labels with a trailing majority vote over up to 11 labels (`window = 10`);
  - collapse runs of equal smoothed labels into `(start, end, label)` segments;
  - an empty filtered table returns early with no result.
- **The live monitor step** (`src/faceexpression/live_emotion_legacy.py`):
  - each time the growing table is re-read, only the rows past `last_row` are handled;
  - every accepted row appends its label to `emotion_buffer`;
  - once ten labels are buffered, the vote of the last ten is reported after every accepted row.
- **The notebook cell builder** (`colab/generate_notebook.py`):
  - split the markdown source on `---` and strip each part;
  - a blank part is skipped;
  - a part holding a ```` ```python ```` block becomes an optional markdown cell followed by a code cell;
  - any other part becomes one markdown cell;
  - every source line gets a trailing newline;
  - an unclosed block is the `ValueError` of the two-way unpack.

Modules:

| file | module | contents |
|---|---|---|
| `wrappers.dfy` | `Wrappers` | `Option` and `Result` |
| `vote.dfy` | `Vote` | `Counter(xs).most_common(1)[0][0]` as `MostCommon`, and its specification `IsMostCommon` |
| `face_rules.dfy` | `FaceRules` | action units, frames, `classify_emotion`, and the validity filter |
| `face_smoothing.dfy` | `FaceSmoothing` | `smooth_emotions`: a loop method proved against the function `Smoothed` |
| `face_timeline.dfy` | `FaceTimeline` | segmentation: a loop method proved against `Timeline`, which is defined from the maximal-run partition `Runs` |
| `face_analysis.dfy` | `FaceAnalysis` | `analyze_openface_csv` without its file I/O |
| `live_emotion.dfy` | `LiveEmotion` | the live copy of the rules, and the class `Monitor` with the fields `lastRow` and `emotionBuffer` |
| `pystr.dfy` | `PyStr` | the `str` operations the notebook builder uses: `strip`, `in`, `split`, `split(sep, 1)` |
| `notebook.dfy` | `Notebook` | the cell builder |

Labels are a datatype; `Label.Name()` gives the source's strings. Action-unit flags and `success` are integers compared with `== 1`, as in the source. Timestamps and confidences are `real`.

## Model

| member | source | states |
|---|---|---|
| `Vote.FirstIndex` | src/faceexpression/classifier.py:72 | The first position of a value: it holds the value and no earlier position does (the `Counter` key order). |
| `Vote.LeaderIsFirstMaximum` | src/faceexpression/classifier.py:72 | The scan over the first `k` positions keeps a value whose count is at least every scanned value's count. Every value first seen before it has a strictly smaller count. |
| `Vote.MostCommon` | src/faceexpression/classifier.py:72 | The vote of a non-empty sequence is one of its elements. |
| `Vote.MostCommonIsVote` | src/faceexpression/classifier.py:72 | The vote has maximal count, and ties go to the value that occurs first (`IsMostCommon`). |
| `Vote.MostCommonUnique` | src/faceexpression/classifier.py:72 | At most one value meets `IsMostCommon`. |
| `Vote.MostCommonCharacterized` | src/faceexpression/classifier.py:72 | Any value meeting `IsMostCommon` is the vote. |
| `Vote.MostCommonConstant` | src/faceexpression/classifier.py:72 | The vote of a constant sequence is its value. |
| `FaceRules.NamesDistinct` | src/faceexpression/classifier.py:43-61 | The five label strings are distinct. |
| `FaceRules.ClassifyEmotion` | src/faceexpression/classifier.py:43-61 | The Happy rule forces Happy. The result is Neutral exactly when none of the four rules holds. |
| `FaceRules.ClassifyEmotionPriority` | src/faceexpression/classifier.py:46-61 | For each label: it is returned exactly when its rule holds and no earlier rule does. |
| `FaceRules.HappyDominates` | src/faceexpression/classifier.py:46-51 | AU12 = AU06 = 1 gives Happy whatever the other flags, even when AU04 = AU07 = AU23 = 1. |
| `FaceRules.SadOnlyWhen` | src/faceexpression/classifier.py:46-55 | Sad implies AU01 = AU04 = AU15 = 1 and neither the Happy nor the Angry rule. |
| `FaceRules.AllZeroIsNeutral` | src/faceexpression/classifier.py:61 | All flags 0 gives Neutral. |
| `FaceRules.IsValidFrame` | src/faceexpression/classifier.py:95 | A row passes the mask exactly when `success == 1` and `confidence > 0.8`. `FilterValidKeepsValidInOrder` shows that the filter keeps exactly these rows. |
| `FaceRules.FilterValid` | src/faceexpression/classifier.py:95-96 | The filtered table is no longer than the input, and every kept row is valid. |
| `FaceRules.ValidPositions` | src/faceexpression/classifier.py:95-96 | The positions of the valid rows from `from` on are in bounds, strictly increasing and complete. |
| `FaceRules.FilterValidKeepsValidInOrder` | src/faceexpression/classifier.py:95-96 | Row `k` of the filtered table is the `k`-th valid input row. It keeps exactly the valid rows, in their order, reindexed from 0. |
| `FaceRules.FilterValidFrom` | src/faceexpression/classifier.py:95-96 | The same statement for the suffix starting at `from`. |
| `FaceRules.FilterValidEmpty` | src/faceexpression/classifier.py:95-100 | The filtered table is empty exactly when no row is valid. |
| `FaceRules.FilterValidAppend` | src/faceexpression/classifier.py:95 | Filtering commutes with concatenation. |
| `FaceRules.FilterValidIdempotent` | src/faceexpression/classifier.py:95 | Filtering twice is filtering once. |
| `FaceSmoothing.Window` | src/faceexpression/classifier.py:70-71 | The window at `i` holds `min(i+1, window+1)` labels and ends with label `i`. |
| `FaceSmoothing.Smoothed` | src/faceexpression/classifier.py:66-75 | The smoothed list has the input's length. |
| `FaceSmoothing.SmoothEmotions` | src/faceexpression/classifier.py:66-75 | The loop returns `Smoothed`: element `i` is the vote of window `i`. |
| `FaceSmoothing.SmoothedIsVote` | src/faceexpression/classifier.py:70-73 | Each smoothed label has maximal count in its window, with ties to the first occurrence. |
| `FaceSmoothing.SmoothedInWindow` | src/faceexpression/classifier.py:70-73 | Each smoothed label occurs in its window `emotions[max(0,i-window)..i]`. |
| `FaceSmoothing.SmoothedFirst` | src/faceexpression/classifier.py:70-73 | Position 0 keeps its raw label. |
| `FaceSmoothing.SmoothedConstant` | src/faceexpression/classifier.py:66-75 | A constant input is returned unchanged. |
| `FaceSmoothing.SmoothedFromInput` | src/faceexpression/classifier.py:70-73 | Every smoothed label is one of the input labels. |
| `FaceTimeline.Runs` | src/faceexpression/classifier.py:122-136 | The run list is non-empty and its last run ends at the last row. |
| `FaceTimeline.RunsArePartition` | src/faceexpression/classifier.py:122-136 | `Runs` splits the rows into consecutive, non-empty, single-label runs, and adjacent runs differ (maximal). |
| `FaceTimeline.RunPartitionUnique` | src/faceexpression/classifier.py:122-136 | Any such maximal-run partition equals `Runs`. |
| `FaceTimeline.Timeline` | src/faceexpression/classifier.py:122-136 | There is one segment per run. |
| `FaceTimeline.TimelineExtend` | src/faceexpression/classifier.py:127-133 | One more row either extends the last segment (same label) or closes it at the previous timestamp and opens a new one. |
| `FaceTimeline.BuildTimeline` | src/faceexpression/classifier.py:122-136 | The loop plus the final flush returns `Timeline`. |
| `FaceTimeline.TimelineCount` | src/faceexpression/classifier.py:127-136 | The segment count is 1 plus the number of label changes. |
| `FaceTimeline.TimelineSpansSession` | src/faceexpression/classifier.py:124-136 | The first segment starts at the first timestamp. The last segment ends at the last timestamp. |
| `FaceTimeline.TimelineAdjacentDiffer` | src/faceexpression/classifier.py:128-132 | Adjacent segments carry different labels. |
| `FaceTimeline.TimelineCoversRows` | src/faceexpression/classifier.py:122-136 | Every row lies in a run whose segment carries the row's label. |
| `FaceTimeline.TimelineChronological` | src/faceexpression/classifier.py:122-136 | With non-decreasing timestamps, each segment starts no later than it ends, and segments are in time order. |
| `FaceTimeline.TimelineConstant` | src/faceexpression/classifier.py:122-136 | A constant label sequence yields exactly one segment, spanning the session. |
| `FaceTimeline.ConstantHasNoChanges` | src/faceexpression/classifier.py:128 | A constant label sequence has no label change. |
| `FaceAnalysis.AnalyzeOpenFace` | src/faceexpression/classifier.py:95-136 | The method's result is `Analyze`: `None` on an empty filtered table, otherwise the frame table and the timeline. |
| `FaceAnalysis.Analyze` | src/faceexpression/classifier.py:95-136 | A result has one frame row per valid row, and there is at least one. `AnalyzeEmptySession` gives the other direction: there is no result exactly when no row is valid. |
| `FaceAnalysis.AnalyzeEmptySession` | src/faceexpression/classifier.py:95-100 | There is no result exactly when no row has `success == 1` and `confidence > 0.8`. |
| `FaceAnalysis.AnalysisFrames` | src/faceexpression/classifier.py:102-116 | There is one frame row per valid row, with its timestamp, its classification and the vote of its window of 10. |
| `FaceAnalysis.AnalysisSegments` | src/faceexpression/classifier.py:122-136 | A non-empty table yields a non-empty timeline from the first to the last valid timestamp. |
| `FaceAnalysis.TieGoesToFirstSeen` | src/faceexpression/classifier.py:72 | In `[H,H,H,N,N,N]` the tie goes to Happy, the label seen first. |
| `FaceAnalysis.TieIgnoresNames` | src/faceexpression/classifier.py:72 | In `[N,H,H,N]` the tie goes to Neutral (first occurrence), although Happy reaches count 2 first. |
| `FaceAnalysis.WindowOfElevenExample` | src/faceexpression/classifier.py:70-72 | For `[A,A,A]` followed by ten `H`, position 12 votes over indices 2..12 and gives Happy. |
| `LiveEmotion.ClassifyEmotion` | src/faceexpression/live_emotion_legacy.py:20-29 | The Happy rule forces Happy. The result is Neutral exactly when none of the four rules holds. `ClassifiersAgree` proves it equal to the batch rules. |
| `LiveEmotion.Accepts` | src/faceexpression/live_emotion_legacy.py:70 | A row is used exactly when `success == 1` and `confidence >= 0.8`: the negation of the skip test. |
| `LiveEmotion.ClassifiersAgree` | src/faceexpression/live_emotion_legacy.py:20-29 | The live copy of the rules agrees with the batch one on every flag assignment. |
| `LiveEmotion.AcceptsVersusBatchFilter` | src/faceexpression/live_emotion_legacy.py:70-71 | The live test accepts exactly the batch-valid rows plus the successful rows with confidence exactly 0.8. |
| `LiveEmotion.ConfidenceBoundaryDiffers` | src/faceexpression/live_emotion_legacy.py:70 | A successful row of confidence 0.8 is used live and dropped by the batch filter. |
| `LiveEmotion.Dominant` | src/faceexpression/live_emotion_legacy.py:77-78 | There is a report exactly when the buffer holds at least ten labels. It is one of the last ten. |
| `LiveEmotion.VoteEndingAtIsVote` | src/faceexpression/live_emotion_legacy.py:78 | The vote of the ten labels ending at `j` has maximal count there, with ties to the first occurrence. |
| `LiveEmotion.ReportsAreTrailingVotes` | src/faceexpression/live_emotion_legacy.py:69-79 | The reports of one pass are the votes of the ten-label windows ending at every buffer length from `max(old length + 1, 10)` on, in order. |
| `LiveEmotion.ReportsCount` | src/faceexpression/live_emotion_legacy.py:70-79 | Nothing is reported before ten labels are buffered. After that there is one report per accepted row. |
| `LiveEmotion.TrailingVoteIsVote` | src/faceexpression/live_emotion_legacy.py:78 | Each trailing vote meets the vote specification on its window. |
| `LiveEmotion.ReportsAreVotes` | src/faceexpression/live_emotion_legacy.py:73-78 | Report `k` is the vote of the ten labels ending right after one of this pass's accepted rows. |
| `LiveEmotion.Monitor.constructor` | src/faceexpression/live_emotion_legacy.py:57-58 | Monitoring starts with `last_row = 0` and an empty buffer. |
| `LiveEmotion.Monitor.HandleRow` | src/faceexpression/live_emotion_legacy.py:70-79 | A rejected row leaves the buffer alone and reports nothing. An accepted row appends exactly its label at the end, and reports `Dominant` of the new buffer. |
| `LiveEmotion.Monitor.HandleRows` | src/faceexpression/live_emotion_legacy.py:69-79 | The buffer grows by the accepted rows' labels, in order, and the reports are `Reports`. |
| `LiveEmotion.Monitor.Poll` | src/faceexpression/live_emotion_legacy.py:65-79 | Rows are handled only when the table has grown. Then exactly the rows from `last_row` on are handled and `last_row` becomes the table length. Otherwise nothing changes. |
| `PyStr.Strip` | colab/generate_notebook.py:21 | `strip()` never lengthens a string, and its result does not start with whitespace. `StripIsTrimmedSlice` gives the full characterisation. |
| `PyStr.StripLeft` | colab/generate_notebook.py:21 | The result is a suffix that does not start with whitespace. Everything removed is whitespace. |
| `PyStr.StripRight` | colab/generate_notebook.py:21 | The result is a prefix that does not end with whitespace. Everything removed is whitespace. |
| `PyStr.StripIsTrimmedSlice` | colab/generate_notebook.py:21 | `strip()` returns a slice with no whitespace at either end, and everything cut off is whitespace. |
| `PyStr.StripBlank` | colab/generate_notebook.py:21-22 | A string strips to nothing exactly when it is all whitespace. |
| `PyStr.StripIdempotent` | colab/generate_notebook.py:21 | A property of `strip()`: stripping twice is stripping once. |
| `PyStr.FindFrom` | colab/generate_notebook.py:25 | The result is the first occurrence at or after `i`, or `None` when there is none. |
| `PyStr.ContainsOccurrence` | colab/generate_notebook.py:25 | `p in s` holds exactly when `p` occurs in `s`. |
| `PyStr.NoneBeforeFirst` | colab/generate_notebook.py:26-27 | The text before the first occurrence does not contain the pattern. |
| `PyStr.Split` | colab/generate_notebook.py:19 | `split` returns at least one piece. `SplitJoin`, `SplitPiecesFree` and `SplitCutsAtLeftmost` characterise the pieces. |
| `PyStr.SplitJoin` | colab/generate_notebook.py:19 | Joining the pieces with the separator gives back the input. |
| `PyStr.SplitPiecesFree` | colab/generate_notebook.py:19 | No piece contains the separator. |
| `PyStr.SplitCutsAtLeftmost` | colab/generate_notebook.py:19 | Every cut falls at the leftmost occurrence of `sep`. The pieces from `k` on, joined back, have their first `sep` right after piece `k`. Overlapping separators such as `"----"` are therefore cut as Python cuts them. |
| `PyStr.SplitOnce` | colab/generate_notebook.py:26-27 | `split(sep, 1)` has one or two pieces. It has two exactly when `sep` occurs. |
| `PyStr.SplitOnceParts` | colab/generate_notebook.py:26-27 | A single piece is the input. Two pieces put back together around `sep` give the input. The first piece ends where `find` puts the first `sep`, and it holds no `sep`. |
| `Notebook.SourceLines` | colab/generate_notebook.py:34-50 | There is one `source` entry per line of the text, and every entry ends in `'\n'`. |
| `Notebook.SourceLinesShape` | colab/generate_notebook.py:34-50 | Every `source` entry ends in `'\n'` and holds no other newline. |
| `Notebook.SourceLinesRoundTrip` | colab/generate_notebook.py:34-50 | The `source` entries concatenate to the text plus one final newline. |
| `Notebook.FencedCellsShape` | colab/generate_notebook.py:29-44 | A code part gives one or two cells. The last is the code cell, and a markdown cell precedes it exactly when the stripped text before the fence is non-blank. |
| `Notebook.PartCells` | colab/generate_notebook.py:21-51 | One part gives at most two cells, and it can only fail when its stripped text contains ```` ```python ````. |
| `Notebook.BuildPartCells` | colab/generate_notebook.py:21-51 | The loop body's result for one part is `PartCells`. |
| `Notebook.GenerateCells` | colab/generate_notebook.py:16-51 | The loop returns `Cells`: the cells of every part in order, or the error of the first failing part. |
| `Notebook.Cells` | colab/generate_notebook.py:16-51 | Building the cells fails exactly when some part of `content.split('---')` fails. |
| `Notebook.CollectAppend` | colab/generate_notebook.py:20-51 | Cells follow the order of their parts: the parts `a + b` give `a`'s cells, then `b`'s. |
| `Notebook.CollectFails` | colab/generate_notebook.py:20-51 | Building fails exactly when some part fails. |
| `Notebook.PartsFail` | colab/generate_notebook.py:20-51 | Building the cells of some parts fails exactly when one of them has an unclosed code block. |
| `Notebook.BlankPartHasNoCells` | colab/generate_notebook.py:21-22 | A part gives no cell exactly when it is blank after stripping. |
| `Notebook.OnlyCodePartsFail` | colab/generate_notebook.py:25-27 | Only a part holding ```` ```python ```` can fail. |
| `Notebook.PlainPartIsOneMarkdownCell` | colab/generate_notebook.py:45-51 | A non-blank part without a code block gives one markdown cell, whose lines concatenate to the stripped part. |
| `Notebook.UnclosedFenceFails` | colab/generate_notebook.py:26-27 | A code part fails exactly when no closing fence follows the first opening one. |
| `Notebook.CodePartCells` | colab/generate_notebook.py:25-44 | A closed code part is `md`, then the opening fence, then `code`, then the closing fence, then a rest, with both fences the first ones. Its cells are built from the stripped `md` and `code` only, so the rest is discarded. |
| `Notebook.CellsWellFormed` | colab/generate_notebook.py:34-50 | In every cell built, every line ends in `'\n'`, and every code cell has no execution count and no outputs. |
| `Notebook.PartCellsCount` | colab/generate_notebook.py:21-51 | A blank part gives no cell. A non-blank part that does not fail gives one or two cells. |
| `Notebook.CellsCount` | colab/generate_notebook.py:20-51 | The total number of cells is at least the number of non-blank parts and at most twice that number. |

## Left out

- File and process I/O is not modelled:
  - the CSV reads and writes, `df.columns.str.strip()`, the output directories and the `final_emotions.txt` report;
  - the `f"{start:.2f}s"` rendering of times;
  - every `print`;
  - the OpenFace subprocess, waiting for the CSV, the polling `sleep`, `KeyboardInterrupt` and `terminate`;
  - the notebook file read, `json.dump`, the constant notebook metadata (lines 53-79), and the empty `"metadata": {}` of every cell (lines 33, 41 and 48).

  The model starts from parsed rows or text and ends at the values these steps would write.
- Rows are records with all nine action-unit fields. A missing column (pandas `KeyError`) cannot arise, so it is not modelled.
- Confidences and timestamps are mathematical reals, so NaN and float rounding are not modelled. `FaceTimeline.TimelineChronological` assumes non-decreasing timestamps, which the source takes from OpenFace.
- `FaceSmoothing.Smoothed`: `window` is a `nat`. A negative window would make the Python slice empty and `most_common(1)[0]` raise `IndexError`; the source only ever passes 10.
- `LiveEmotion.Monitor.Poll` handles one read of the table. The `while process.poll() is None` loop around it repeats the same step.
- `LiveEmotion.Monitor.Poll` takes the table as given. The model does not capture a table that shrinks or is rewritten between reads.
- `Vote.MostCommon` models only what `Counter(...).most_common(1)[0][0]` returns, not how `Counter` computes it.

## Notes on the source

- The batch filter keeps `confidence > 0.8` (`src/faceexpression/classifier.py:95`). The live monitor skips `confidence < 0.8` (`src/faceexpression/live_emotion_legacy.py:70`). A row with confidence exactly 0.8 is therefore used live and dropped in batch, which `LiveEmotion.ConfidenceBoundaryDiffers` exhibits.
- Ties in the vote go to the label whose first occurrence in the window is earliest. That is the order in which `Counter` stores keys, and `most_common(1)` takes the first maximum in that order. It is not the label that reaches the maximal count first: `FaceAnalysis.TieIgnoresNames` shows the two differ. The model follows the code.
- For `[A,A,A]` followed by ten `B`, the window at index 12 covers indices 2..12, which hold one `A` and ten `B` (`FaceAnalysis.WindowOfElevenExample`).
