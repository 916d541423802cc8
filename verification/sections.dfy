/**
 The slicer: given the located heading positions, section `k` is the text from
 heading `k` up to heading `k + 1` (the last one runs to the end of the
 text), and the preamble is everything before the first heading. The emitted
 form of a range is its stripped text followed by one newline.
 */
module Sections {
  import opened Strings
  import opened Locator

  /** The `chunk` helper: the range `[lo, hi)` of `text` as Python slices it,
      stripped, followed by exactly one newline. */
  function Chunk(text: string, lo: nat, hi: nat): (r: string)
    ensures 0 < |r| && r[|r| - 1] == '\n'
    ensures IsStripOf(Slice(text, lo, hi), r[..|r| - 1])
    ensures r == "\n" || (!IsSpace(r[0]) && !IsSpace(r[|r| - 2]))
  {
    var body := Strip(Slice(text, lo, hi));
    assert (body + "\n")[..|body|] == body;
    body + "\n"
  }

  /** A range whose end is not after its start is empty, so its chunk is a
      lone newline: the code never checks that the headings come in order. */
  lemma ChunkOfBackwardRange(text: string, lo: nat, hi: nat)
    requires hi <= lo
    ensures Chunk(text, lo, hi) == "\n"
  {
    StripEmptyIffAllSpace(Slice(text, lo, hi));
  }

  /** Where section `k` ends: at the next heading, or at the end of the text
      for the last one. */
  function SectionEnd(ps: seq<nat>, k: nat, len: nat): nat
    requires k < |ps|
  {
    if k + 1 < |ps| then ps[k + 1] else len
  }

  /** The raw, unstripped text of section `k`. */
  function RawSection(text: string, ps: seq<nat>, k: nat): string
    requires k < |ps|
  {
    Slice(text, ps[k], SectionEnd(ps, k, |text|))
  }

  /** The raw text before the first heading. */
  function RawPreamble(text: string, ps: seq<nat>): string
    requires 0 < |ps|
  {
    Slice(text, 0, ps[0])
  }

  /** `preamble`: the text before the first heading, as a chunk. */
  function Preamble(text: string, ps: seq<nat>): (r: string)
    requires 0 < |ps|
    ensures 0 < |r| && r[|r| - 1] == '\n'
    ensures IsStripOf(RawPreamble(text, ps), r[..|r| - 1])
  {
    Chunk(text, 0, ps[0])
  }

  /** The chunks of all sections, in heading order (`core`, `events`, ...,
      `example`). */
  function Chunks(text: string, ps: seq<nat>): (cs: seq<string>)
    ensures |cs| == |ps|
    ensures forall k | 0 <= k < |ps| ::
      0 < |cs[k]| && cs[k][|cs[k]| - 1] == '\n'
      && IsStripOf(RawSection(text, ps, k), cs[k][..|cs[k]| - 1])
  {
    seq(|ps|, k requires 0 <= k < |ps| => Chunk(text, ps[k], SectionEnd(ps, k, |text|)))
  }

  // ---------------------------------------------------------------- partition

  predicate Sorted(ps: seq<nat>) {
    forall i, j | 0 <= i < j < |ps| :: ps[i] <= ps[j]
  }

  predicate StrictlyIncreasing(ps: seq<nat>) {
    forall i, j | 0 <= i < j < |ps| :: ps[i] < ps[j]
  }

  function Concat(ss: seq<string>): string {
    if |ss| == 0 then [] else ss[0] + Concat(ss[1..])
  }

  /** The raw pieces the text is cut into: preamble, then every section. */
  function RawPieces(text: string, ps: seq<nat>): seq<string>
    requires 0 < |ps|
  {
    [RawPreamble(text, ps)] + seq(|ps|, k requires 0 <= k < |ps| => RawSection(text, ps, k))
  }

  /** Sections `k` onwards, concatenated, are the text from heading `k` on. */
  lemma {:induction false} SectionsFromCover(text: string, ps: seq<nat>, k: nat)
    requires Sorted(ps) && forall i | 0 <= i < |ps| :: ps[i] <= |text|
    requires k < |ps|
    ensures Concat(seq(|ps| - k, i requires 0 <= i < |ps| - k => RawSection(text, ps, k + i)))
            == text[ps[k]..]
    decreases |ps| - k
  {
    var tail := seq(|ps| - k, i requires 0 <= i < |ps| - k => RawSection(text, ps, k + i));
    if k + 1 == |ps| {
      SliceInRange(text, ps[k], |text|);
      assert tail[0] == RawSection(text, ps, k) == text[ps[k]..];
      assert tail[1..] == [];
      assert Concat(tail) == tail[0] + Concat([]);
    } else {
      var next := seq(|ps| - (k + 1), i requires 0 <= i < |ps| - (k + 1) => RawSection(text, ps, k + 1 + i));
      SectionsFromCover(text, ps, k + 1);
      assert tail[1..] == next;
      SliceInRange(text, ps[k], ps[k + 1]);
      assert ps[k] <= ps[k + 1];
      assert tail[0] == RawSection(text, ps, k) == text[ps[k]..ps[k + 1]];
      assert Concat(tail) == tail[0] + Concat(tail[1..]);
      assert text[ps[k]..] == text[ps[k]..ps[k + 1]] + text[ps[k + 1]..];
    }
  }
  /** Partition: when the positions never decrease, the preamble followed by
      every section, concatenated, is exactly the original text. */
  lemma PiecesPartitionText(text: string, ps: seq<nat>)
    requires 0 < |ps| && Sorted(ps)
    requires forall i | 0 <= i < |ps| :: ps[i] <= |text|
    ensures Concat(RawPieces(text, ps)) == text
  {
    var pieces := RawPieces(text, ps);
    SectionsFromCover(text, ps, 0);
    assert pieces[1..] == seq(|ps| - 0, i requires 0 <= i < |ps| - 0 => RawSection(text, ps, 0 + i));
    SliceInRange(text, 0, ps[0]);
    assert text == text[..ps[0]] + text[ps[0]..];
  }

  // ---------------------------------------------------------------- headings

  /** The shape every configured heading has: "## " then text with no further
      '#', ending in a non-space. */
  predicate HeadingShape(h: string) {
    && |h| >= 3 && h[0] == '#' && h[1] == '#' && h[2] == ' '
    && (forall k | 2 <= k < |h| :: h[k] != '#')
    && !IsSpace(h[|h| - 1])
  }

  lemma HeadingsWellShaped()
    ensures forall k | 0 <= k < |Headings| :: HeadingShape(Headings[k])
  {
    assert HeadingShape("## Core Entities");
    assert HeadingShape("## Events");
    assert HeadingShape("## Connections");
    assert HeadingShape("## Algorithm Support Structures");
    assert HeadingShape("## Contingency Support Structures");
    assert HeadingShape("## Engineering Units");
    assert HeadingShape("## Namespace Conventions");
    assert HeadingShape("## Common Query Patterns");
    assert HeadingShape("## Implementation Notes");
    assert HeadingShape("## Validation Rules");
    assert HeadingShape("## Extension Points");
    assert HeadingShape("## Migration and Versioning");
    assert HeadingShape("## Appendix: Complete Example");
  }

  /** A text with no '#' after its first character holds no well-shaped
      heading: every heading starts with "##". */
  lemma NoHeadingWithoutDoubleHash(s: string, h: string)
    requires HeadingShape(h)
    requires forall j | 1 <= j < |s| :: s[j] != '#'
    ensures !Occurs(s, h)
  {
    forall i: nat ensures !OccursAt(s, h, i) {
      if i + |h| <= |s| {
        assert s[i..i + |h|][1] == s[i + 1];
      }
    }
  }

  /** The characters of an occurrence, one by one. */
  lemma OccurrenceChars(text: string, pat: string, i: nat)
    requires OccursAt(text, pat, i)
    ensures forall j | i <= j < i + |pat| :: text[j] == pat[j - i]
  {
    forall j | i <= j < i + |pat| ensures text[j] == pat[j - i] {
      assert text[i..i + |pat|][j - i] == text[j];
    }
  }

  /** Two well-shaped headings found at different places cannot overlap:
      the later one starts after the earlier one ends. */
  lemma OccurrencesDoNotOverlap(text: string, g: string, h: string, p: nat, q: nat)
    requires HeadingShape(g) && HeadingShape(h)
    requires OccursAt(text, g, p) && OccursAt(text, h, q) && p < q
    ensures p + |g| <= q
  {
    OccurrenceChars(text, g, p);
    OccurrenceChars(text, h, q);
    assert text[q] == '#' && text[q + 1] == '#';
  }

  /** When the located positions strictly increase, every section's chunk
      begins with the whole heading that opens it. */
  lemma ChunksStartWithHeadings(text: string, ps: seq<nat>)
    requires FirstPositions(text, Headings, ps) && StrictlyIncreasing(ps)
    ensures forall k | 0 <= k < |ps| ::
      |Headings[k]| <= |Chunks(text, ps)[k]| && Chunks(text, ps)[k][..|Headings[k]|] == Headings[k]
  {
    forall k | 0 <= k < |ps|
      ensures |Headings[k]| <= |Chunks(text, ps)[k]| && Chunks(text, ps)[k][..|Headings[k]|] == Headings[k]
    {
      ChunkStartsWithHeading(text, ps, k);
    }
  }

  lemma ChunkStartsWithHeading(text: string, ps: seq<nat>, k: nat)
    requires FirstPositions(text, Headings, ps) && StrictlyIncreasing(ps)
    requires k < |ps|
    ensures |Headings[k]| <= |Chunks(text, ps)[k]| && Chunks(text, ps)[k][..|Headings[k]|] == Headings[k]
  {
    var h := Headings[k];
    HeadingsWellShaped();
    assert HeadingShape(h);
    var e := SectionEnd(ps, k, |text|);
    assert OccursAt(text, h, ps[k]);
    if k + 1 < |ps| {
      assert OccursAt(text, Headings[k + 1], ps[k + 1]);
      OccurrencesDoNotOverlap(text, h, Headings[k + 1], ps[k], ps[k + 1]);
    }
    ChunkKeepsHeading(text, ps[k], e, h);
  }

  /** A chunk whose range opens with a solid heading starts with it. */
  lemma ChunkKeepsHeading(text: string, lo: nat, hi: nat, h: string)
    requires OccursAt(text, h, lo) && lo + |h| <= hi <= |text|
    requires 0 < |h| && !IsSpace(h[0]) && !IsSpace(h[|h| - 1])
    ensures |h| <= |Chunk(text, lo, hi)| && Chunk(text, lo, hi)[..|h|] == h
  {
    var raw := Slice(text, lo, hi);
    SliceInRange(text, lo, hi);
    assert raw[..|h|] == text[lo..lo + |h|];
    StripKeepsSolidPrefix(raw, h);
    var body := Strip(raw);
    assert (body + "\n")[..|h|] == body[..|h|];
  }
}
