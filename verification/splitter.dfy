/**
 The assembler and the whole run of the splitting tool. A run reads the
 monolithic specification, locates its thirteen headings, and then writes,
 in this order: a verbatim snapshot, the modular index, eight numbered
 section files, the worked example, and finally a short redirect stub over
 the original file. The filesystem is reduced to the ordered list of
 `(path, content)` writes the run performs.
 */
module Splitter {
  import opened Strings
  import opened Locator
  import opened Sections

  datatype Write = Write(path: string, content: string)

  const Root: string := "schema/abstract"
  const SourceName: string := "specification.md"
  const SnapshotName: string := "specification.full.md"
  const IndexName: string := "README.md"

  function PathOf(name: string): string {
    Root + "/" + name
  }

  /** One generated section file: its name under the root, the title on its
      first line, and the sections (indices into `Headings`) it holds, in
      the order they are written. */
  datatype Output = Output(name: string, title: string, parts: seq<nat>)

  const Layout: seq<Output> := [
    Output("01-core-entities.md", "Core Entities", [0]),
    Output("02-events.md", "Events", [1]),
    Output("03-connections.md", "Connections", [2]),
    Output("04-algorithm-structures.md", "Algorithm Support Structures", [3]),
    Output("05-contingency-structures.md", "Contingency Support Structures", [4]),
    Output("06-engineering-units-and-namespaces.md", "Engineering Units and Namespaces", [5, 6]),
    Output("07-query-patterns-and-validation.md", "Query Patterns and Validation", [7, 9]),
    Output("08-implementation-and-versioning.md", "Implementation, Extension, and Versioning", [8, 10, 11]),
    Output("examples/temperature-to-recommendation.md", "Complete Example: Temperature to Recommendation", [12])
  ]

  /** The fixed navigation text the index starts with; the preamble follows
      it. */
  const IndexText: string :=
    "# TELOS Abstract Schema Specification\n"
    + "\n"
    + "This directory contains the modularized abstract schema specification for TELOS.\n"
    + "\n"
    + "## Canonical Entry Points\n"
    + "\n"
    + "- Modular index: `schema/abstract/README.md`\n"
    + "- Compatibility shim: `schema/abstract/specification.md`\n"
    + "- Full monolith snapshot: `schema/abstract/specification.full.md`\n"
    + "\n"
    + "## Table of Contents\n"
    + "\n"
    + "1. [Core Entities](./01-core-entities.md)\n"
    + "2. [Events](./02-events.md)\n"
    + "3. [Connections](./03-connections.md)\n"
    + "4. [Algorithm Support Structures](./04-algorithm-structures.md)\n"
    + "5. [Contingency Support Structures](./05-contingency-structures.md)\n"
    + "6. [Engineering Units and Namespaces](./06-engineering-units-and-namespaces.md)\n"
    + "7. [Query Patterns and Validation](./07-query-patterns-and-validation.md)\n"
    + "8. [Implementation, Extension, and Versioning](./08-implementation-and-versioning.md)\n"
    + "9. [Complete Example](./examples/temperature-to-recommendation.md)\n"
    + "\n"
    + "## Preamble\n"
    + "\n"

  /** The redirect stub written over the original file, after its leading
      '#', one stub line per line below. The longer lines are written as a
      few literal pieces, because facts about the characters of a long
      literal are costly to establish. */
  const StubRest: string :=
    " TELOS Abstract Schema Specification\n"
    + "\n"
    + "The abstract schema has been " + "modularized for easier navigation.\n"
    + "\n"
    + "- Start here: " + "[`schema/abstract/README.md`]" + "(./README.md)\n"
    + "- Full single-file snapshot: " + "[`schema/abstract/" + "specification.full.md`]" + "(./specification.full.md)\n"
    + "\n"
    + "If you need section-level " + "references, use the numbered " + "files in this directory.\n"

  const Stub: string := "#" + StubRest

  /** Every chunk ends in the newline `chunk` appends. */
  predicate NewlineTerminated(c: string) {
    0 < |c| && c[|c| - 1] == '\n'
  }

  predicate AllNewlineTerminated(cs: seq<string>) {
    forall k | 0 <= k < |cs| :: NewlineTerminated(cs[k])
  }

  /** The chunks of the listed sections without their final newline. */
  function Bodies(cs: seq<string>, parts: seq<nat>): seq<string>
    requires AllNewlineTerminated(cs) && forall j | 0 <= j < |parts| :: parts[j] < |cs|
  {
    seq(|parts|, j requires 0 <= j < |parts| => cs[parts[j]][..|cs[parts[j]]| - 1])
  }

  /** Chunks of the listed sections joined by one extra newline, as in
      `engineering + "\n" + namespaces`: the bodies come out separated by
      exactly one blank line, with one newline at the end. */
  function JoinChunks(cs: seq<string>, parts: seq<nat>): (r: string)
    requires 0 < |parts| && forall j | 0 <= j < |parts| :: parts[j] < |cs|
    requires AllNewlineTerminated(cs)
    ensures r == Separated(Bodies(cs, parts), "\n\n") + "\n"
    decreases |parts|
  {
    var c := cs[parts[0]];
    var bs := Bodies(cs, parts);
    assert c == bs[0] + "\n";
    if |parts| == 1 then
      c
    else
      var rest := JoinChunks(cs, parts[1..]);
      assert bs[1..] == Bodies(cs, parts[1..]);
      assert c + "\n" + rest == (bs[0] + "\n\n" + Separated(bs[1..], "\n\n")) + "\n";
      c + "\n" + rest
  }

  predicate PartsInRange(o: Output) {
    0 < |o.parts| && forall j | 0 <= j < |o.parts| :: o.parts[j] < SectionCount
  }

  /** A level-one title line followed by a blank line. */
  function TitleLine(title: string): string {
    "# " + title + "\n\n"
  }

  /** The content of one section file: "# " and the title, a blank line,
      then the bodies of its sections with one blank line between
      neighbours, and one final newline. */
  function Render(o: Output, cs: seq<string>): (r: string)
    requires |cs| == SectionCount && PartsInRange(o) && AllNewlineTerminated(cs)
    ensures r == "# " + o.title + "\n\n" + Separated(Bodies(cs, o.parts), "\n\n") + "\n"
  {
    TitleLine(o.title) + JoinChunks(cs, o.parts)
  }

  lemma LayoutPartsInRange()
    ensures forall i | 0 <= i < |Layout| :: PartsInRange(Layout[i])
  {
  }

  /** The writes of the section files, one per entry of `Layout`. */
  function SectionWrites(cs: seq<string>): (ws: seq<Write>)
    requires |cs| == SectionCount && AllNewlineTerminated(cs)
    ensures |ws| == |Layout|
    ensures forall i | 0 <= i < |Layout| :: ws[i].path == PathOf(Layout[i].name)
  {
    LayoutPartsInRange();
    seq(|Layout|, i requires 0 <= i < |Layout| => Write(PathOf(Layout[i].name), Render(Layout[i], cs)))
  }

  /** What a run writes once the headings are at `ps`: the snapshot, the
      index (fixed text, then the preamble), the section files, and last the
      stub over the original file. */
  function Writes(text: string, ps: seq<nat>): (ws: seq<Write>)
    requires |ps| == SectionCount
    ensures |ws| == |Layout| + 3
    ensures ws[0] == Write(PathOf(SnapshotName), text)
    ensures ws[1].path == PathOf(IndexName)
    ensures forall i | 0 <= i < |Layout| :: ws[2 + i].path == PathOf(Layout[i].name)
    ensures ws[|Layout| + 2] == Write(PathOf(SourceName), Stub)
  {
    var cs := Chunks(text, ps);
    assert AllNewlineTerminated(cs);
    [Write(PathOf(SnapshotName), text), Write(PathOf(IndexName), IndexText + Preamble(text, ps))]
    + SectionWrites(cs)
    + [Write(PathOf(SourceName), Stub)]
  }

  /** The whole run: locate the headings (failing before any write if one is
      missing), then produce the writes in program order. */
  function Run(text: string): (r: Result<seq<Write>>)
    ensures r.Err? <==> !AllOccur(text, Headings)
    ensures r.Err? ==> FirstMissing(text, Headings, r.error.heading)
    ensures r.Ok? ==> |r.value| == |Layout| + 3
    ensures r.Ok? ==> r.value[0] == Write(PathOf(SnapshotName), text)
    ensures r.Ok? ==> r.value[|Layout| + 2] == Write(PathOf(SourceName), Stub)
  {
    match Positions(text)
    case Err(e) => Err(e)
    case Ok(ps) => Ok(Writes(text, ps))
  }

  // ---------------------------------------------------------------- outputs

  /** `bs` with `sep` between neighbours. */
  function Separated(bs: seq<string>, sep: string): string
    requires 0 < |bs|
  {
    if |bs| == 1 then bs[0] else bs[0] + sep + Separated(bs[1..], sep)
  }

  function Flatten(gs: seq<seq<nat>>): seq<nat> {
    if |gs| == 0 then [] else gs[0] + Flatten(gs[1..])
  }

  /** The section indices of all outputs, in write order. */
  function LayoutParts(): seq<nat> {
    Flatten(seq(|Layout|, i requires 0 <= i < |Layout| => Layout[i].parts))
  }

  predicate Distinct(s: seq<nat>) {
    forall i, j | 0 <= i < j < |s| :: s[i] != s[j]
  }

  /** The sections of each output, as the layout lists them. */
  /** Every section is placed in exactly one output file, exactly once: the
      outputs' sections, taken together, are the thirteen section indices
      without repetition. */
  lemma LayoutUsesEachSectionOnce()
    ensures |LayoutParts()| == SectionCount && Distinct(LayoutParts())
    ensures forall k | 0 <= k < SectionCount :: k in LayoutParts()
  {
    var flat: seq<nat> := [0, 1, 2, 3, 4, 5, 6, 7, 9, 8, 10, 11, 12];
    assert Distinct(flat) && forall k | 0 <= k < SectionCount :: k in flat;
    LayoutPartsFlat();
  }

  lemma LayoutPartsFlat()
    ensures LayoutParts() == [0, 1, 2, 3, 4, 5, 6, 7, 9, 8, 10, 11, 12]
  {
    var gs := seq(|Layout|, i requires 0 <= i < |Layout| => Layout[i].parts);
    assert gs[9..] == [];
    FlattenStep(gs, 8);
    FlattenStep(gs, 7);
    FlattenStep(gs, 6);
    FlattenStep(gs, 5);
    FlattenStep(gs, 4);
    FlattenStep(gs, 3);
    FlattenStep(gs, 2);
    FlattenStep(gs, 1);
    FlattenStep(gs, 0);
    assert gs[0..] == gs;
  }

  lemma FlattenStep(gs: seq<seq<nat>>, k: nat)
    requires k < |gs|
    ensures Flatten(gs[k..]) == gs[k] + Flatten(gs[k + 1..])
  {
    assert gs[k..][1..] == gs[k + 1..];
  }


  // ---------------------------------------------------------------- contents

  lemma FirstOccurrenceUnique(text: string, h: string, i: nat, j: nat)
    requires IsFirstOccurrence(text, h, i) && IsFirstOccurrence(text, h, j)
    ensures i == j
  {
  }

  /** The positions the run uses are the first occurrences of the headings,
      whichever way they are named. */
  lemma LocatedPositions(text: string, ps: seq<nat>)
    requires FirstPositions(text, Headings, ps)
    ensures Positions(text) == Ok(ps)
  {
    assert AllOccur(text, Headings) by {
      forall k | 0 <= k < |Headings| ensures Occurs(text, Headings[k]) {
        assert OccursAt(text, Headings[k], ps[k]);
      }
    }
    var qs := Positions(text).value;
    forall k | 0 <= k < |Headings| ensures qs[k] == ps[k] {
      FirstOccurrenceUnique(text, Headings[k], qs[k], ps[k]);
    }
    assert qs == ps;
  }

  /** The index is the fixed navigation text followed by the stripped text
      before "## Core Entities" and one newline. */
  lemma IndexContent(text: string, ps: seq<nat>)
    requires FirstPositions(text, Headings, ps)
    ensures Run(text).Ok?
    ensures Run(text).value[1] == Write(PathOf(IndexName), IndexText + Strip(text[..ps[0]]) + "\n")
  {
    LocatedPositions(text, ps);
    assert ps[0] <= |text| by { assert OccursAt(text, Headings[0], ps[0]); }
    SliceInRange(text, 0, ps[0]);
    var pre := Preamble(text, ps);
    StripUnique(text[..ps[0]], pre[..|pre| - 1]);
    assert pre == pre[..|pre| - 1] + "\n";
    assert IndexText + pre == IndexText + Strip(text[..ps[0]]) + "\n";
  }

  /** The stripped text of the sections an output holds, in its order. */
  function SectionBodies(text: string, ps: seq<nat>, parts: seq<nat>): seq<string>
    requires forall j | 0 <= j < |parts| :: parts[j] < |ps|
  {
    seq(|parts|, j requires 0 <= j < |parts| => Strip(RawSection(text, ps, parts[j])))
  }

  /** Section file `i` is "# " + title, a blank line, then the stripped
      sections it holds with exactly one blank line between neighbours, and
      one final newline. */
  lemma SectionFileContent(text: string, ps: seq<nat>, i: nat)
    requires FirstPositions(text, Headings, ps)
    requires i < |Layout|
    ensures PartsInRange(Layout[i])
    ensures Run(text).Ok?
    ensures Run(text).value[2 + i] == Write(PathOf(Layout[i].name),
      TitleLine(Layout[i].title) + Separated(SectionBodies(text, ps, Layout[i].parts), "\n\n") + "\n")
  {
    LayoutPartsInRange();
    var o := Layout[i];
    var cs := Chunks(text, ps);
    RunWritesSections(text, ps, i);
    ChunksAreBodies(text, ps, o.parts);
  }

  lemma RunWritesSections(text: string, ps: seq<nat>, i: nat)
    requires FirstPositions(text, Headings, ps)
    requires i < |Layout|
    ensures PartsInRange(Layout[i])
    ensures Run(text).Ok?
    ensures Run(text).value[2 + i] == Write(PathOf(Layout[i].name), Render(Layout[i], Chunks(text, ps)))
  {
    LocatedPositions(text, ps);
    LayoutPartsInRange();
    var cs := Chunks(text, ps);
    assert Run(text).value[2 + i] == SectionWrites(cs)[i];
  }

  /** Each chunk is the strip of its raw section plus one newline. */
  lemma ChunksAreBodies(text: string, ps: seq<nat>, parts: seq<nat>)
    requires forall j | 0 <= j < |parts| :: parts[j] < |ps|
    ensures AllNewlineTerminated(Chunks(text, ps))
    ensures Bodies(Chunks(text, ps), parts) == SectionBodies(text, ps, parts)
  {
    var cs := Chunks(text, ps);
    var bodies := SectionBodies(text, ps, parts);
    forall j | 0 <= j < |parts| ensures Bodies(cs, parts)[j] == bodies[j] {
      var c := cs[parts[j]];
      StripUnique(RawSection(text, ps, parts[j]), c[..|c| - 1]);
    }
  }

  /** A file that holds one section is exactly "# " + title, a blank line,
      and that section's chunk: no whitespace is added or lost. */
  lemma SingleSectionFile(text: string, ps: seq<nat>, i: nat)
    requires FirstPositions(text, Headings, ps)
    requires i < |Layout| && |Layout[i].parts| == 1
    ensures Layout[i].parts[0] < |ps|
    ensures Run(text).Ok?
    ensures Run(text).value[2 + i]
            == Write(PathOf(Layout[i].name), "# " + Layout[i].title + "\n\n" + Chunks(text, ps)[Layout[i].parts[0]])
  {
    LayoutPartsInRange();
    RunWritesSections(text, ps, i);
  }

  /** The engineering-units file holds two
      sections separated by exactly one blank line. */
  lemma EngineeringFileJoinsTwoSections(text: string, ps: seq<nat>)
    requires FirstPositions(text, Headings, ps)
    ensures Run(text).Ok?
    ensures Run(text).value[7].content
            == TitleLine("Engineering Units and Namespaces")
               + Strip(RawSection(text, ps, 5)) + "\n\n" + Strip(RawSection(text, ps, 6)) + "\n"
  {
    var o := Layout[5];
    assert o.title == "Engineering Units and Namespaces" && o.parts == [5, 6];
    SectionFileContent(text, ps, 5);
    var bs := SectionBodies(text, ps, o.parts);
    assert bs[0] == Strip(RawSection(text, ps, 5)) && bs[1] == Strip(RawSection(text, ps, 6));
    assert Separated(bs, "\n\n") == bs[0] + "\n\n" + bs[1];
    var t := TitleLine(o.title);
    assert Run(text).value[7].content == t + Separated(bs, "\n\n") + "\n";
    Assoc3(t, bs[0] + "\n\n", bs[1]);
    Assoc3(t, bs[0], "\n\n");
  }

  /** The versioning file holds three sections, 8, 10 and 11, each pair
      separated by exactly one blank line. */
  lemma VersioningFileJoinsThreeSections(text: string, ps: seq<nat>)
    requires FirstPositions(text, Headings, ps)
    ensures Run(text).Ok?
    ensures Run(text).value[9].content
            == TitleLine("Implementation, Extension, and Versioning")
               + Strip(RawSection(text, ps, 8)) + "\n\n" + Strip(RawSection(text, ps, 10))
               + "\n\n" + Strip(RawSection(text, ps, 11)) + "\n"
  {
    var o := Layout[7];
    assert o.title == "Implementation, Extension, and Versioning" && o.parts == [8, 10, 11];
    SectionFileContent(text, ps, 7);
    var bs := SectionBodies(text, ps, o.parts);
    assert bs[0] == Strip(RawSection(text, ps, 8)) && bs[1] == Strip(RawSection(text, ps, 10))
           && bs[2] == Strip(RawSection(text, ps, 11));
    assert Separated(bs[1..], "\n\n") == bs[1] + "\n\n" + bs[2];
    assert Separated(bs, "\n\n") == bs[0] + "\n\n" + (bs[1] + "\n\n" + bs[2]);
    var t := TitleLine(o.title);
    assert Run(text).value[9].content == t + Separated(bs, "\n\n") + "\n";
    Assoc3(t, bs[0] + "\n\n", bs[1] + "\n\n" + bs[2]);
    Assoc3(t, bs[0], "\n\n");
    Assoc3(t + bs[0] + "\n\n", bs[1] + "\n\n", bs[2]);
    Assoc3(t + bs[0] + "\n\n", bs[1], "\n\n");
  }

  lemma Assoc3(a: string, b: string, c: string)
    ensures a + (b + c) == a + b + c
  {
  }

  // ---------------------------------------------------------------- effects

  /** The file names the run writes under the root, in write order. */
  function WriteNames(): seq<string> {
    [SnapshotName, IndexName] + seq(|Layout|, i requires 0 <= i < |Layout| => Layout[i].name) + [SourceName]
  }

  predicate DistinctNames(s: seq<string>) {
    forall i, j | 0 <= i < j < |s| :: s[i] != s[j]
  }

  lemma WriteNamesDistinct()
    ensures |WriteNames()| == |Layout| + 3 && DistinctNames(WriteNames())
  {
    var names := [
      "specification.full.md", "README.md",
      "01-core-entities.md", "02-events.md", "03-connections.md",
      "04-algorithm-structures.md", "05-contingency-structures.md",
      "06-engineering-units-and-namespaces.md", "07-query-patterns-and-validation.md",
      "08-implementation-and-versioning.md", "examples/temperature-to-recommendation.md",
      "specification.md"];
    assert DistinctNames(names);
    assert seq(|Layout|, i requires 0 <= i < |Layout| => Layout[i].name) == names[2..11];
    assert WriteNames() == names;
  }

  lemma PathOfInjective(a: string, b: string)
    requires PathOf(a) == PathOf(b)
    ensures a == b
  {
    var n := |Root + "/"|;
    assert a == PathOf(a)[n..] && b == PathOf(b)[n..];
  }

  lemma WriteNamesAt()
    ensures |WriteNames()| == |Layout| + 3
    ensures WriteNames()[0] == SnapshotName && WriteNames()[1] == IndexName
    ensures forall i | 0 <= i < |Layout| :: WriteNames()[2 + i] == Layout[i].name
    ensures WriteNames()[|Layout| + 2] == SourceName
  {
  }

  /** The paths of a run's writes, in order. */
  lemma WritePathsInOrder(text: string, ps: seq<nat>)
    requires |ps| == SectionCount
    ensures |WriteNames()| == |Writes(text, ps)|
    ensures forall i | 0 <= i < |Writes(text, ps)| :: Writes(text, ps)[i].path == PathOf(WriteNames()[i])
  {
    var ws := Writes(text, ps);
    var names := WriteNames();
    WriteNamesAt();
    forall i | 0 <= i < |ws| ensures ws[i].path == PathOf(names[i]) {
      if 2 <= i < |Layout| + 2 {
        assert ws[2 + (i - 2)].path == PathOf(Layout[i - 2].name);
      }
    }
  }

  /** A run writes every file at most once: no two writes share a path, so
      no write is later undone by another. */
  lemma WritePathsDistinct(text: string, ps: seq<nat>)
    requires |ps| == SectionCount
    ensures forall i, j | 0 <= i < j < |Writes(text, ps)| :: Writes(text, ps)[i].path != Writes(text, ps)[j].path
  {
    var ws := Writes(text, ps);
    WriteNamesDistinct();
    WritePathsInOrder(text, ps);
    var names := WriteNames();
    forall i, j | 0 <= i < j < |ws| ensures ws[i].path != ws[j].path {
      if ws[i].path == ws[j].path {
        PathOfInjective(names[i], names[j]);
      }
    }
  }

  /** The filesystem after a sequence of writes, starting from `fs`. */
  function Apply(fs: map<string, string>, ws: seq<Write>): map<string, string>
    decreases |ws|
  {
    if |ws| == 0 then fs else Apply(fs[ws[0].path := ws[0].content], ws[1..])
  }

  /** A path no write touches keeps its content. */
  lemma {:induction false} ApplyKeepsUntouched(fs: map<string, string>, ws: seq<Write>, p: string)
    requires forall j | 0 <= j < |ws| :: ws[j].path != p
    ensures p in fs ==> p in Apply(fs, ws) && Apply(fs, ws)[p] == fs[p]
    ensures p !in fs ==> p !in Apply(fs, ws)
    decreases |ws|
  {
    if |ws| > 0 {
      ApplyKeepsUntouched(fs[ws[0].path := ws[0].content], ws[1..], p);
    }
  }

  /** A write that no later write overrides determines its file's final
      content. */
  lemma {:induction false} ApplyLastWriteWins(fs: map<string, string>, ws: seq<Write>, i: nat)
    requires i < |ws|
    requires forall j | i < j < |ws| :: ws[j].path != ws[i].path
    ensures ws[i].path in Apply(fs, ws) && Apply(fs, ws)[ws[i].path] == ws[i].content
    decreases |ws|
  {
    if i == 0 {
      ApplyKeepsUntouched(fs[ws[0].path := ws[0].content], ws[1..], ws[0].path);
    } else {
      ApplyLastWriteWins(fs[ws[0].path := ws[0].content], ws[1..], i - 1);
    }
  }

  /** After a successful run, whatever the directory held before, the
      snapshot holds the original text, the original file holds the stub,
      and every other output holds what the run wrote for it. */
  lemma RunFinalFiles(text: string, fs: map<string, string>)
    ensures Run(text).Ok? ==>
      var after := Apply(fs, Run(text).value);
      && PathOf(SnapshotName) in after && after[PathOf(SnapshotName)] == text
      && PathOf(SourceName) in after && after[PathOf(SourceName)] == Stub
    ensures Run(text).Ok? ==> forall i | 0 <= i < |Run(text).value| ::
      Run(text).value[i].path in Apply(fs, Run(text).value)
      && Apply(fs, Run(text).value)[Run(text).value[i].path] == Run(text).value[i].content
  {
    if Run(text).Ok? {
      var ps := Positions(text).value;
      var ws := Writes(text, ps);
      assert Run(text).value == ws;
      WritePathsDistinct(text, ps);
      ApplyDistinct(fs, ws);
    }
  }

  /** When no two writes share a path, every write survives. */
  lemma ApplyDistinct(fs: map<string, string>, ws: seq<Write>)
    requires forall i, j | 0 <= i < j < |ws| :: ws[i].path != ws[j].path
    ensures forall i | 0 <= i < |ws| :: ws[i].path in Apply(fs, ws) && Apply(fs, ws)[ws[i].path] == ws[i].content
  {
    forall i | 0 <= i < |ws| ensures ws[i].path in Apply(fs, ws) && Apply(fs, ws)[ws[i].path] == ws[i].content {
      ApplyLastWriteWins(fs, ws, i);
    }
  }

  // ---------------------------------------------------------------- rerun

  lemma StubRestHasNoHash()
    ensures '#' !in StubRest
  {
    StubTitleHasNoHash();
    StubIntroHasNoHash();
    StubStartHereHasNoHash();
    StubSnapshotLinkHasNoHash();
    StubClosingHasNoHash();
  }

  // Literal facts about the stub, one stub line at a time.
  lemma StubTitleHasNoHash()
    ensures '#' !in " TELOS Abstract Schema Specification\n" && '#' !in "\n"
  {}

  lemma StubIntroHasNoHash()
    ensures '#' !in "The abstract schema has been " && '#' !in "modularized for easier navigation.\n"
  {}

  lemma StubStartHereHasNoHash()
    ensures '#' !in "- Start here: " && '#' !in "[`schema/abstract/README.md`]" && '#' !in "(./README.md)\n"
  {}

  lemma StubSnapshotLinkHasNoHash()
    ensures '#' !in "- Full single-file snapshot: " && '#' !in "[`schema/abstract/"
    ensures '#' !in "specification.full.md`]" && '#' !in "(./specification.full.md)\n"
  {}

  lemma StubClosingHasNoHash()
    ensures '#' !in "If you need section-level " && '#' !in "references, use the numbered "
    ensures '#' !in "files in this directory.\n"
  {}

  /** The stub contains none of the thirteen headings. */
  lemma StubHasNoHeading()
    ensures forall k | 0 <= k < |Headings| :: !Occurs(Stub, Headings[k])
  {
    StubRestHasNoHash();
    HeadingsWellShaped();
    forall j | 1 <= j < |Stub| ensures Stub[j] != '#' {
      assert Stub[j] == StubRest[j - 1];
    }
    forall k | 0 <= k < |Headings| ensures !Occurs(Stub, Headings[k]) {
      NoHeadingWithoutDoubleHash(Stub, Headings[k]);
    }
  }

  /** Running the tool again on the stub it left behind fails on the first
      heading, "## Core Entities", without writing anything. */
  lemma RerunOnStubFails()
    ensures Run(Stub) == Err(MissingHeading("## Core Entities"))
    ensures Message(Run(Stub).error) == "Missing heading: ## Core Entities"
  {
    StubHasNoHeading();
    MissingFirstHeading(Stub, Headings);
  }

  /** So a successful run is not repeatable: the file it leaves at the
      source path makes the next run fail. */
  lemma RunThenRerunFails(text: string)
    ensures Run(text).Ok? ==>
      Run(Run(text).value[|Layout| + 2].content) == Err(MissingHeading("## Core Entities"))
  {
    RerunOnStubFails();
  }

  /** Emission is idempotent: copy the snapshot back over the source, run
      again, and every file ends up exactly as after the first run. */
  lemma RestoreAndRerunIsIdempotent(text: string, fs: map<string, string>)
    ensures Run(text).Ok? ==>
      var after := Apply(fs, Run(text).value);
      && PathOf(SnapshotName) in after
      && var src := after[PathOf(SnapshotName)];
         Run(src).Ok? && Apply(after[PathOf(SourceName) := src], Run(src).value) == after
  {
    if Run(text).Ok? {
      var ps := Positions(text).value;
      var ws := Writes(text, ps);
      assert Run(text).value == ws;
      RunFinalFiles(text, fs);
      WritePathsDistinct(text, ps);
      ReapplyDistinct(fs, ws, |ws| - 1, text);
    }
  }

  /** Replaying distinct writes over their own result, after one written
      file was changed, gives the same filesystem back. */
  lemma ReapplyDistinct(fs: map<string, string>, ws: seq<Write>, i: nat, v: string)
    requires i < |ws|
    requires forall a, b | 0 <= a < b < |ws| :: ws[a].path != ws[b].path
    ensures Apply(Apply(fs, ws)[ws[i].path := v], ws) == Apply(fs, ws)
  {
    var after := Apply(fs, ws);
    var again := Apply(after[ws[i].path := v], ws);
    ApplyDistinct(fs, ws);
    ApplyDistinct(after[ws[i].path := v], ws);
    forall p ensures (p in again <==> p in after) && (p in again ==> again[p] == after[p]) {
      if j :| 0 <= j < |ws| && ws[j].path == p {
      } else {
        ApplyKeepsUntouched(fs, ws, p);
        ApplyKeepsUntouched(after[ws[i].path := v], ws, p);
      }
    }
  }
}
