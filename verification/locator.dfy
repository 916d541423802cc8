/**
 The heading locator: the fixed, ordered list of thirteen section headings and
 the loop that records where each one first occurs, aborting at the first
 heading that is missing.
 */
module Locator {
  import opened Strings

  /** The one error the splitter raises itself: a `ValueError` whose message
      names the missing heading. */
  datatype Error = MissingHeading(heading: string)

  function Message(e: Error): string {
    "Missing heading: " + e.heading
  }

  datatype Result<+T> = Ok(value: T) | Err(error: Error)

  /** The headings, in the order the loop visits them and the sections are
      cut. */
  const Headings: seq<string> := [
    "## Core Entities",
    "## Events",
    "## Connections",
    "## Algorithm Support Structures",
    "## Contingency Support Structures",
    "## Engineering Units",
    "## Namespace Conventions",
    "## Common Query Patterns",
    "## Implementation Notes",
    "## Validation Rules",
    "## Extension Points",
    "## Migration and Versioning",
    "## Appendix: Complete Example"
  ]

  const SectionCount: nat := 13

  /** Every heading text occurs somewhere in `text`. */
  ghost predicate AllOccur(text: string, hs: seq<string>) {
    forall k | 0 <= k < |hs| :: Occurs(text, hs[k])
  }

  /** `h` is the first heading of `hs`, in list order, that does not occur. */
  ghost predicate FirstMissing(text: string, hs: seq<string>, h: string) {
    exists k | 0 <= k < |hs| ::
      hs[k] == h && !Occurs(text, h) && AllOccur(text, hs[..k])
  }

  /** The positions found for `hs`: one per heading, each its first
      occurrence. */
  predicate FirstPositions(text: string, hs: seq<string>, ps: seq<nat>) {
    |ps| == |hs| && forall k | 0 <= k < |hs| :: IsFirstOccurrence(text, hs[k], ps[k])
  }

  /** The locating loop: `text.find` for each heading in turn, raising on the
      first one that is not found. */
  function Locate(text: string, hs: seq<string>): (r: Result<seq<nat>>)
    ensures r.Ok? <==> AllOccur(text, hs)
    ensures r.Ok? ==> FirstPositions(text, hs, r.value)
    ensures r.Err? ==> FirstMissing(text, hs, r.error.heading)
  {
    if |hs| == 0 then Ok([])
    else
      match Find(text, hs[0])
      case None =>
        assert hs[0] == hs[0] && AllOccur(text, hs[..0]);
        Err(MissingHeading(hs[0]))
      case Some(i) =>
        match Locate(text, hs[1..])
        case Err(e) =>
          assert FirstMissing(text, hs, e.heading) by {
            var k :| 0 <= k < |hs[1..]| && hs[1..][k] == e.heading
                     && !Occurs(text, e.heading) && AllOccur(text, hs[1..][..k]);
            assert hs[..k + 1] == [hs[0]] + hs[1..][..k];
            assert AllOccur(text, hs[..k + 1]);
          }
          Err(e)
        case Ok(rest) =>
          assert forall k | 1 <= k < |hs| :: hs[k] == hs[1..][k - 1];
          Ok([i] + rest)
  }

  /** The locator result for the splitter's own heading list. */
  function Positions(text: string): (r: Result<seq<nat>>)
    ensures r.Ok? <==> AllOccur(text, Headings)
    ensures r.Ok? ==> FirstPositions(text, Headings, r.value)
    ensures r.Err? ==> FirstMissing(text, Headings, r.error.heading)
    ensures r.Ok? ==> |r.value| == SectionCount
    ensures r.Ok? ==> forall k | 0 <= k < SectionCount :: r.value[k] + |Headings[k]| <= |text|
  {
    Locate(text, Headings)
  }

  /** When the first heading is absent the loop stops right there. */
  lemma MissingFirstHeading(text: string, hs: seq<string>)
    requires 0 < |hs| && !Occurs(text, hs[0])
    ensures Locate(text, hs) == Err(MissingHeading(hs[0]))
  {
  }
}
