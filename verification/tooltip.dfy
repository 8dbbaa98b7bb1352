/**
 * Recovering the feature identifier from the tooltip text of a clicked map
 * feature. The map labels each flowpath with `"wb-" + str(feature_id)`; a
 * click reports the tooltip text, and the dashboard cuts the number back
 * out between that prefix and the next line break.
 */
module Tooltip {
  import opened Wrappers
  import opened Text

  /** The prefix that flowpath identifiers carry in the geospatial layer. */
  const Prefix := "wb-"

  /** What extracting an identifier yields: Python's `None`, an integer, or the `ValueError` of `int()`. */
  datatype Extraction = NoId | Id(id: int) | ParseFailure

  /** The flowpath identifier of a feature: `'wb-' + str(feature_id)`. */
  function FormatId(featureId: int): (s: string)
    ensures |s| > |Prefix| && s[..|Prefix|] == Prefix
    ensures ParseInt(s[|Prefix|..]) == Some(featureId)
  {
    ParseIntRoundTrip(featureId);
    Prefix + IntToDecimal(featureId)
  }

  /**
   * `tooltip.find("wb-") + len("wb-")`. On a miss `find` gives -1, so the
   * index is 2: it is never -1, whatever the tooltip.
   */
  function StartIndex(t: string): (r: int)
    ensures r >= 2 && r != -1
    ensures r == 2 <==> !Contains(t, Prefix)
    ensures r > 2 ==> r <= |t| && OccursAt(t, Prefix, r - |Prefix|)
    ensures r > 2 ==> forall j :: 0 <= j < r - |Prefix| ==> !OccursAt(t, Prefix, j)
  {
    var k := Find(t, Prefix, 0);
    assert k != -1 ==> OccursAt(t, Prefix, k) && 0 <= k <= |t|;
    k + |Prefix|
  }

  /** The text between the start index and the line break that ends it, parsed as `int(...strip())`. */
  function ParseBetween(t: string, start: nat, end: nat): (r: Extraction)
    requires start <= end <= |t|
    ensures r != NoId
    ensures r.Id? <==> IsIntLiteral(Strip(t[start..end]))
  {
    match ParseInt(Strip(t[start..end]))
    case Some(n) => Id(n)
    case None => ParseFailure
  }

  /**
   * `extract_id_from_tooltip` as written: the guard `start_idx != -1` never
   * fails, so only a missing line break at or after the start index gives `None`.
   */
  function ExtractIdFromTooltip(t: string): (r: Extraction)
    ensures r == NoId <==> forall j :: StartIndex(t) <= j < |t| ==> t[j] != '\n'
  {
    var start := StartIndex(t);
    var end := Find(t, "\n", start);
    FindCharMiss(t, '\n', start);
    if start != -1 && end != -1 then
      ParseBetween(t, start, end)
    else
      NoId
  }

  /**
   * Round trip with the formatting: when the first `"wb-"` of a tooltip is the
   * start of `FormatId(n)` and a line break follows, the extracted identifier is `n`.
   */
  lemma ExtractRoundTrip(pre: string, n: int, post: string)
    requires forall i :: 0 <= i < |pre| ==> !OccursAt(pre + FormatId(n) + "\n" + post, Prefix, i)
    ensures ExtractIdFromTooltip(pre + FormatId(n) + "\n" + post) == Id(n)
  {
    var t := pre + FormatId(n) + "\n" + post;
    var digits := IntToDecimal(n);
    var start := |pre| + |Prefix|;
    var end := start + |digits|;
    assert t == pre + Prefix + digits + "\n" + post;
    assert t[|pre|..start] == Prefix;
    assert OccursAt(t, Prefix, |pre|);
    assert StartIndex(t) == start;
    assert t[start..end] == digits;
    assert t[end] == '\n';
    OccursAtChar(t, '\n', end);
    forall j | start <= j < end
      ensures !OccursAt(t, "\n", j)
    {
      assert t[j] == digits[j - start];
      OccursAtChar(t, '\n', j);
    }
    assert Find(t, "\n", start) == end;
    StripUnpadded(digits);
    ParseIntRoundTrip(n);
  }

  /** The plain case of the round trip: the tooltip text begins with the formatted identifier. */
  lemma FormattedIdRoundTrip(n: int, post: string)
    ensures ExtractIdFromTooltip(FormatId(n) + "\n" + post) == Id(n)
  {
    assert [] + FormatId(n) + "\n" + post == FormatId(n) + "\n" + post;
    ExtractRoundTrip([], n, post);
  }

  /**
   * Without the prefix, the text is read from index 2 on: a tooltip with no
   * `"wb-"` in it is not rejected but parsed up to its first line break past index 1.
   */
  lemma {:induction false} MissingPrefixReadsFromIndexTwo(t: string, end: nat)
    requires !Contains(t, Prefix)
    requires 2 <= end < |t| && t[end] == '\n'
    requires forall j :: 2 <= j < end ==> t[j] != '\n'
    ensures ExtractIdFromTooltip(t) == ParseBetween(t, 2, end)
  {
    assert StartIndex(t) == 2;
    OccursAtChar(t, '\n', end);
    forall j | 2 <= j < end
      ensures !OccursAt(t, "\n", j)
    {
      OccursAtChar(t, '\n', j);
    }
    assert Find(t, "\n", 2) == end;
  }

  /** A single digit between the two indices is read as its value. */
  lemma ParseSingleDigit(t: string, i: nat)
    requires i < |t| && IsDigit(t[i])
    ensures ParseBetween(t, i, i + 1) == Id(DigitValue(t[i]))
  {
    assert t[i..i + 1] == [t[i]];
    StripUnpadded([t[i]]);
    ParseIntSingleDigit(t[i]);
  }

  /** A concrete tooltip without the prefix whose text yields an identifier anyway. */
  lemma MissingPrefixYieldsId()
    ensures ExtractIdFromTooltip("ab7\n") == Id(7)
  {
    LacksPrefix("ab7\n");
    MissingPrefixReadsFromIndexTwo("ab7\n", 3);
    ParseSingleDigit("ab7\n", 2);
  }

  /** The tooltip `"ab7\n"` holds no `"wb-"`. */
  lemma LacksPrefix(t: string)
    requires t == "ab7\n"
    ensures !Contains(t, Prefix)
  {
    forall i | 0 <= i <= |t|
      ensures !OccursAt(t, Prefix, i)
    {
      if i < 2 {
        NotOccursAtFirstMismatch(t, Prefix, i);
      }
    }
  }

  /** A concrete tooltip without the prefix that makes `int()` raise instead of giving `None`. */
  lemma MissingPrefixRaises()
    ensures ExtractIdFromTooltip("ID\nwb\n") == ParseFailure
  {
    var t := "ID\nwb\n";
    forall i | 0 <= i <= |t|
      ensures !OccursAt(t, Prefix, i)
    {
      if i == 3 {
        assert t[3..6][2] != Prefix[2];
      } else if i < |t| {
        NotOccursAtFirstMismatch(t, Prefix, i);
      }
    }
    assert !Contains(t, Prefix);
    assert t[2..2] == "";
    MissingPrefixReadsFromIndexTwo(t, 2);
  }

  /**
   * The extraction as evidently intended: a tooltip without `"wb-"` yields
   * `None`; with the prefix it behaves exactly as written.
   */
  function ExtractIdIntended(t: string): (r: Extraction)
    ensures !Contains(t, Prefix) ==> r == NoId
    ensures Contains(t, Prefix) ==> r == ExtractIdFromTooltip(t)
    ensures r == NoId <==> !Contains(t, Prefix) || forall j :: StartIndex(t) <= j < |t| ==> t[j] != '\n'
  {
    var k := Find(t, Prefix, 0);
    if k == -1 then NoId
    else
      assert OccursAt(t, Prefix, k);
      ExtractIdFromTooltip(t)
  }

  /** The corrected extraction ignores the tooltip that the code as written reads as 7. */
  lemma MissingPrefixIgnoredWhenCorrected()
    ensures ExtractIdIntended("ab7\n") == NoId
  {
    LacksPrefix("ab7\n");
  }

  /** The intended extraction keeps the round trip with the formatting. */
  lemma IntendedRoundTrip(pre: string, n: int, post: string)
    requires forall i :: 0 <= i < |pre| ==> !OccursAt(pre + FormatId(n) + "\n" + post, Prefix, i)
    ensures ExtractIdIntended(pre + FormatId(n) + "\n" + post) == Id(n)
  {
    var t := pre + FormatId(n) + "\n" + post;
    assert t[|pre|..|pre| + |Prefix|] == Prefix;
    assert OccursAt(t, Prefix, |pre|);
    ExtractRoundTrip(pre, n, post);
  }
}
