# Abstract schema splitter, modelled in Dafny

The repository ships one piece of logic: `main` in
`tools/split_abstract_spec.py`. It reads the monolithic abstract schema
specification and cuts it into modular Markdown files. Its steps are:

1. Locate each of thirteen fixed `## ` headings at its first occurrence. The
   run fails with `Missing heading: <heading>` at the first one that is absent.
2. Cut the text into a preamble and thirteen sections.
3. Write, in this order:
   - a snapshot of the text as read;
   - an index (fixed navigation text followed by the preamble);
   - eight numbered section files;
   - a worked-example file;
   - a short redirect stub over the original file.

The model treats the run as a pure function. It maps the source text to
either the error or the ordered list of `(path, content)` writes.

The project has four modules:

- `Strings` (`strings.dfy`): Python's `str.find`, non-negative slicing, which
  clamps its bounds, and `str.strip()`. Each comes with an independent
  description:
  - `IsFirstOccurrence` for `find`;
  - `IsStripOf` for `strip`: the unique string that is a slice of the input,
    has only whitespace outside the slice, and has no whitespace at either of
    its own ends.
- `Locator` (`locator.dfy`): the heading list and the loop that records first
  positions or fails on the first missing heading.
- `Sections` (`sections.dfy`): the `chunk` helper, the preamble, the section
  ranges, the partition of the text into raw pieces, and facts about where
  headings can occur.
- `Splitter` (`splitter.dfy`): the output table (file name, title, sections
  held), the rendering of each file, the run, and the filesystem after it.
  It also covers what happens when the tool is run again.

The combined files follow the code. File 07 holds section 7 (queries) and
section 9 (validation). File 08 holds sections 8, 10 and 11. So with the
headings in list order, files 07 and 08 are not contiguous runs of the
document. They are interleaved: 7, 9 and then 8, 10, 11.

## Model

| member | source | states |
|---|---|---|
| Strings.FindFrom | tools/split_abstract_spec.py:29 | the scan from `from` returns the lowest index at or after `from` where the heading occurs, or none if it occurs nowhere from there on |
| Strings.Find | tools/split_abstract_spec.py:29 | `text.find(h)` succeeds exactly when `h` occurs somewhere, and then returns its first occurrence; `None` stands for -1 |
| Strings.Slice | tools/split_abstract_spec.py:37 | `text[start:end]` clamps both bounds to the length and is empty when the end is not after the start; each character is `s[lo + k]` |
| Strings.SliceInRange | tools/split_abstract_spec.py:37 | within bounds, the clamped slice is the ordinary subsequence |
| Strings.LeadingSpaces | tools/split_abstract_spec.py:37 | counts exactly the whitespace run at the front: all counted characters are whitespace and the next one is not |
| Strings.TrailingSpaces | tools/split_abstract_spec.py:37 | counts exactly the whitespace run at the back |
| Strings.Strip | tools/split_abstract_spec.py:37 | `strip()` yields a strip of its input in the sense of `IsStripOf`, and a non-empty result neither starts nor ends with whitespace |
| Strings.StripUnique | tools/split_abstract_spec.py:37 | any string that is a strip of `s` in the sense of `IsStripOf` equals `strip()` of `s`, so the description pins `strip()` down completely |
| Strings.StripIdempotent | tools/split_abstract_spec.py:37 | stripping twice is the same as stripping once |
| Strings.StripEmptyIffAllSpace | tools/split_abstract_spec.py:37 | `strip()` is empty if and only if the input is all whitespace |
| Strings.StripKeepsSolidPrefix | tools/split_abstract_spec.py:37 | a prefix with no whitespace at either end survives `strip()` at the front of the result |
| Locator.Locate | tools/split_abstract_spec.py:27-32 | the loop succeeds exactly when every heading occurs; on success each recorded position is that heading's first occurrence; on failure the error names the first heading in list order that does not occur |
| Locator.Positions | tools/split_abstract_spec.py:11-32 | for the thirteen configured headings, the loop succeeds exactly when all occur, then holds thirteen first positions, each with its whole heading inside the text; otherwise it names the first missing heading |
| Locator.MissingFirstHeading | tools/split_abstract_spec.py:28-31 | when the first heading is absent the run fails on that heading, whatever follows |
| Sections.Chunk | tools/split_abstract_spec.py:34-37 | a chunk ends in a newline, the text before that newline is the strip of the clamped slice, and the chunk is either a lone newline or has non-whitespace first and last-before-newline characters |
| Sections.ChunkOfBackwardRange | tools/split_abstract_spec.py:36-37 | a range whose end is not after its start gives the chunk `"\n"`, because positions are never checked for order |
| Sections.Preamble | tools/split_abstract_spec.py:39 | the preamble ends in a newline, and the text before that newline is the strip of the text before "## Core Entities" |
| Sections.Chunks | tools/split_abstract_spec.py:40-52 | there is one chunk per heading; chunk `k` ends in a newline and strips the text from heading `k` to heading `k + 1`, or to the end for the last heading |
| Sections.SectionsFromCover | tools/split_abstract_spec.py:40-52 | with non-decreasing positions, the raw sections from `k` onwards concatenate to the text from heading `k` on |
| Sections.PiecesPartitionText | tools/split_abstract_spec.py:36-52 | with non-decreasing positions, the raw preamble followed by the thirteen raw sections is exactly the original text, with no gap and no overlap |
| Sections.HeadingsWellShaped | tools/split_abstract_spec.py:11-25 | every configured heading starts with "## ", has no further '#', and ends in a non-space |
| Sections.NoHeadingWithoutDoubleHash | tools/split_abstract_spec.py:29-31 | a text with no '#' after its first character contains no well-shaped heading |
| Sections.OccurrencesDoNotOverlap | tools/split_abstract_spec.py:29 | two well-shaped headings found at different positions do not overlap |
| Sections.ChunksStartWithHeadings | tools/split_abstract_spec.py:34-52 | when the positions strictly increase, every section's chunk begins with the complete heading that opens it |
| Sections.ChunkStartsWithHeading | tools/split_abstract_spec.py:34-37 | the same fact for one section |
| Sections.ChunkKeepsHeading | tools/split_abstract_spec.py:34-37 | a chunk whose range opens with a heading and holds all of it starts with that heading |
| Splitter.SectionWrites | tools/split_abstract_spec.py:83-117 | one write per output file, each to its own fixed path under `schema/abstract` |
| Splitter.Writes | tools/split_abstract_spec.py:54-128 | twelve writes: the snapshot holding the text first, the index second, the section files next, and the stub over `specification.md` last |
| Splitter.Run | tools/split_abstract_spec.py:27-128 | the run fails exactly when some heading is missing; it then names the first missing one and performs no write; otherwise the snapshot of the input comes first and the stub last |
| Splitter.JoinChunks | tools/split_abstract_spec.py:94-110 | joining newline-terminated chunks with an extra `"\n"` gives their bodies separated by exactly one blank line, followed by one newline |
| Splitter.Render | tools/split_abstract_spec.py:83-117 | a section file is "# " + title, a blank line, the bodies of its sections separated by exactly one blank line, and one final newline |
| Splitter.LayoutUsesEachSectionOnce | tools/split_abstract_spec.py:83-117 | the thirteen sections are each placed in exactly one output file, exactly once |
| Splitter.LocatedPositions | tools/split_abstract_spec.py:27-32 | any list of first positions is exactly what the loop records |
| Splitter.IndexContent | tools/split_abstract_spec.py:39-81 | the index is the fixed navigation text, then the stripped text before "## Core Entities", then one newline |
| Splitter.SectionFileContent | tools/split_abstract_spec.py:83-117 | file `i` is "# " + title, a blank line, then the stripped sections it holds with one blank line between neighbours, and one final newline |
| Splitter.SingleSectionFile | tools/split_abstract_spec.py:83-93 | a file holding one section is exactly "# " + title + a blank line + that section's chunk |
| Splitter.EngineeringFileJoinsTwoSections | tools/split_abstract_spec.py:94-97 | the engineering-units file holds the units and namespaces sections, separated by exactly one blank line |
| Splitter.VersioningFileJoinsThreeSections | tools/split_abstract_spec.py:102-110 | the versioning file holds the implementation, extension and versioning sections, each pair separated by exactly one blank line |
| Splitter.WriteNamesDistinct | tools/split_abstract_spec.py:54-128 | the twelve file names the run writes are pairwise different |
| Splitter.PathOfInjective | tools/split_abstract_spec.py:4-5 | different names under the root give different paths |
| Splitter.WritePathsInOrder | tools/split_abstract_spec.py:54-128 | write `i` goes to `schema/abstract/` + the `i`-th name: snapshot, index, the nine section files in table order, then `specification.md` |
| Splitter.WritePathsDistinct | tools/split_abstract_spec.py:54-128 | no two writes of a run share a path, so no write is undone by a later one |
| Splitter.ApplyKeepsUntouched | tools/split_abstract_spec.py:54-128 | a file no write touches keeps its content, or stays absent |
| Splitter.ApplyLastWriteWins | tools/split_abstract_spec.py:54-128 | a write that no later write overrides decides its file's final content |
| Splitter.ApplyDistinct | tools/split_abstract_spec.py:54-128 | when the paths are distinct, every write's content survives |
| Splitter.RunFinalFiles | tools/split_abstract_spec.py:54-128 | after a successful run, whatever was there before, the snapshot holds the text as read, `specification.md` holds the stub, and every output holds what the run wrote to it |
| Splitter.StubHasNoHeading | tools/split_abstract_spec.py:119-127 | the stub contains none of the thirteen headings |
| Splitter.RerunOnStubFails | tools/split_abstract_spec.py:119-128 | running the tool (lines 28-31) on the stub fails with `Missing heading: ## Core Entities` and writes nothing |
| Splitter.RestoreAndRerunIsIdempotent | tools/split_abstract_spec.py:54-128 | copying the snapshot back over `specification.md` and running again leaves every file exactly as the first run left it |
| Splitter.ReapplyDistinct | tools/split_abstract_spec.py:54-128 | replaying writes with distinct paths over their own result, after one written file was changed, gives back the same filesystem |
| Splitter.RunThenRerunFails | tools/split_abstract_spec.py:54-128 | after any successful run, a second run on the file it left behind fails on "## Core Entities" |

## Left out

- Reading and writing files, UTF-8 encoding, `examples_dir.mkdir(exist_ok=True)` and the final `print` are I/O. A run is modelled as the list of writes it performs, in order.
- The model's input is the decoded text that `read_text` returns. That call reads in universal-newline mode, so `"\r\n"` and a lone `"\r"` in the file both arrive as `"\n"`, and `write_text` writes each `"\n"` as the platform's line separator. The snapshot equals the text, and the partition holds, for that decoded, newline-normalised string, not for the file's bytes. A `'\r'` from a line ending never reaches `strip`.
- Failure of a write partway through the run is not modelled. The model assumes every write succeeds. An I/O error in the real tool would leave earlier outputs in place and is not caught.
- `Apply` models the filesystem as a map from paths to contents. Directories, and the `examples/` directory in particular, are not modelled.
- Strings.IsSpace: the whitespace set is the one CPython 3.12's `str.isspace` uses: 29 code points. Another Python version, built on a different Unicode database, could differ in principle.
- Strings.Slice: only non-negative bounds are modelled. Positions come from a successful `find` and are never negative, so negative Python indices cannot arise.
- The literal prose of the index and the stub is reproduced, but the only facts proved about it are these: the index text is a fixed prefix, the stub contains no heading, and the file names are distinct.
