/**
 * The set of selected feature identifiers and the map click that edits it.
 * The session keeps the selection as a list: a click on a feature that is
 * selected removes it, a click on any other feature appends it, and the
 * tables are then rebuilt for the new selection.
 */
module Selection {
  import opened Wrappers
  import opened Text
  import opened Tooltip
  import opened Frames

  // ---------------------------------------------------------------------------
  // The toggle on the selection list
  // ---------------------------------------------------------------------------

  /** The position of the first occurrence of `x` in `s`. */
  function IndexOf(s: seq<int>, x: int): (i: nat)
    requires x in s
    ensures i < |s| && s[i] == x
    ensures forall j :: 0 <= j < i ==> s[j] != x
  {
    if s[0] == x then 0 else 1 + IndexOf(s[1..], x)
  }

  /** `list.remove(x)`: drops the first occurrence of `x`, and only that one. */
  function RemoveFirst(s: seq<int>, x: int): (r: seq<int>)
    requires x in s
    ensures |r| == |s| - 1
    ensures r == s[..IndexOf(s, x)] + s[IndexOf(s, x) + 1..]
  {
    if s[0] == x then s[1..]
    else
      var rest := RemoveFirst(s[1..], x);
      SpliceStep(s, x);
      [s[0]] + rest
  }

  /** Cutting out the first `x` after a different head keeps the head in front. */
  lemma SpliceStep(s: seq<int>, x: int)
    requires x in s && s[0] != x
    ensures x in s[1..]
    ensures IndexOf(s, x) == IndexOf(s[1..], x) + 1
    ensures [s[0]] + (s[1..][..IndexOf(s[1..], x)] + s[1..][IndexOf(s[1..], x) + 1..])
         == s[..IndexOf(s, x)] + s[IndexOf(s, x) + 1..]
  {
    var tail := s[1..];
    var j := IndexOf(tail, x);
    assert s[..j + 1] == [s[0]] + tail[..j];
    assert s[j + 2..] == tail[j + 1..];
  }

  /** Removing `x` takes exactly one copy of it out of the list's multiset. */
  lemma RemoveFirstMultiset(s: seq<int>, x: int)
    requires x in s
    ensures multiset(RemoveFirst(s, x)) == multiset(s) - multiset{x}
  {
    var i := IndexOf(s, x);
    assert RemoveFirst(s, x) == s[..i] + s[i + 1..] && s[i] == x;
    SpliceMultiset(s, i);
  }

  /** The element at position `a` once the one at `i` is cut out. */
  lemma SpliceAt(s: seq<int>, i: nat, a: nat)
    requires i < |s| && a < |s| - 1
    ensures (s[..i] + s[i + 1..])[a] == if a < i then s[a] else s[a + 1]
  {
    if a >= i {
      assert (s[..i] + s[i + 1..])[a] == s[i + 1..][a - i];
    }
  }

  /** Cutting the element at `i` out of a sequence takes one copy of it out of its multiset. */
  lemma SpliceMultiset(s: seq<int>, i: nat)
    requires i < |s|
    ensures multiset(s[..i] + s[i + 1..]) == multiset(s) - multiset{s[i]}
  {
    assert s == s[..i] + [s[i]] + s[i + 1..];
  }

  /**
   * The selection after a click on `x`: removed when present, appended when
   * absent. Either way one copy of `x` leaves or joins the selection.
   */
  function Toggled(s: seq<int>, x: int): (r: seq<int>)
    ensures multiset(r) == if x in s then multiset(s) - multiset{x} else multiset(s) + multiset{x}
  {
    if x in s then
      RemoveFirstMultiset(s, x);
      RemoveFirst(s, x)
    else s + [x]
  }

  /** No identifier is selected twice. */
  predicate NoDuplicates(s: seq<int>)
  {
    forall i, j :: 0 <= i < j < |s| ==> s[i] != s[j]
  }

  /**
   * A present identifier loses its first occurrence and nothing else: the
   * elements before it and after it keep their order.
   */
  lemma TogglePresent(s: seq<int>, x: int)
    requires x in s
    ensures exists i :: (0 <= i < |s| && s[i] == x && x !in s[..i] &&
                         Toggled(s, x) == s[..i] + s[i + 1..])
  {
    var i := IndexOf(s, x);
    assert x !in s[..i];
  }

  /** An absent identifier is appended at the end, the earlier elements unchanged. */
  lemma ToggleAbsent(s: seq<int>, x: int)
    requires x !in s
    ensures Toggled(s, x)[..|s|] == s && |Toggled(s, x)| == |s| + 1 && Toggled(s, x)[|s|] == x
  {
  }

  /** A toggle changes how often `x` is selected by one and leaves every other identifier alone. */
  lemma ToggleCounts(s: seq<int>, x: int)
    ensures multiset(Toggled(s, x)) == if x in s then multiset(s) - multiset{x} else multiset(s) + multiset{x}
    ensures forall y :: y != x ==> (y in Toggled(s, x) <==> y in s)
  {
    var r := Toggled(s, x);
    if x in s {
      RemoveFirstMultiset(s, x);
    }
    forall y | y != x
      ensures y in r <==> y in s
    {
      assert y in r <==> y in multiset(r);
      assert y in s <==> y in multiset(s);
    }
  }

  /** In a list without repetitions, an identifier occurs once when it occurs at all. */
  lemma NoDuplicatesOnce(s: seq<int>, x: int)
    requires NoDuplicates(s) && x in s
    ensures multiset(s)[x] == 1
  {
    var i := IndexOf(s, x);
    assert s == s[..i] + [x] + s[i + 1..];
    assert x !in s[..i];
    var after := s[i + 1..];
    assert x !in after by {
      forall k | 0 <= k < |after|
        ensures after[k] != x
      {
        assert after[k] == s[i + 1 + k];
      }
    }
    assert multiset(s[..i])[x] == 0;
    assert multiset(s[i + 1..])[x] == 0;
  }

  /** Removing an element from a list without repetitions leaves none. */
  lemma RemoveFirstKeepsNoDuplicates(s: seq<int>, x: int)
    requires NoDuplicates(s) && x in s
    ensures NoDuplicates(RemoveFirst(s, x)) && x !in RemoveFirst(s, x)
  {
    var r := RemoveFirst(s, x);
    var i := IndexOf(s, x);
    forall a, b | 0 <= a < b < |r|
      ensures r[a] != r[b]
    {
      SpliceAt(s, i, a);
      SpliceAt(s, i, b);
    }
    NoDuplicatesOnce(s, x);
    RemoveFirstMultiset(s, x);
    assert multiset(r)[x] == 0;
  }

  /** Appending an absent element to a list without repetitions leaves none. */
  lemma AppendKeepsNoDuplicates(s: seq<int>, x: int)
    requires NoDuplicates(s) && x !in s
    ensures NoDuplicates(s + [x])
  {
    var r := s + [x];
    forall a, b | 0 <= a < b < |r|
      ensures r[a] != r[b]
    {
      assert r[a] == s[a] || a == |s|;
    }
  }

  /** A selection without repetitions keeps none after a toggle, and the toggled identifier flips. */
  lemma ToggleKeepsNoDuplicates(s: seq<int>, x: int)
    requires NoDuplicates(s)
    ensures NoDuplicates(Toggled(s, x))
    ensures x in Toggled(s, x) <==> x !in s
  {
    if x in s {
      RemoveFirstKeepsNoDuplicates(s, x);
    } else {
      AppendKeepsNoDuplicates(s, x);
    }
  }

  /** Two clicks on an identifier that was not selected restore the list exactly. */
  lemma ToggleTwiceAbsent(s: seq<int>, x: int)
    requires x !in s
    ensures Toggled(Toggled(s, x), x) == s
  {
    var t := s + [x];
    assert t[|s|] == x;
    assert IndexOf(t, x) == |s|;
    assert t[..|s|] == s;
  }

  /** Two clicks on an identifier selected once move it to the end of the list. */
  lemma ToggleTwicePresentOnce(s: seq<int>, x: int)
    requires x in s && multiset(s)[x] == 1
    ensures Toggled(Toggled(s, x), x) == RemoveFirst(s, x) + [x]
  {
    var r := RemoveFirst(s, x);
    RemoveFirstMultiset(s, x);
    assert multiset(r)[x] == 0;
    assert x !in r by {
      assert x in r ==> x in multiset(r);
    }
  }

  /** Two clicks on the same identifier leave a list without repetitions with the same members. */
  lemma ToggleTwiceSameMembers(s: seq<int>, x: int)
    requires NoDuplicates(s)
    ensures forall y :: y in Toggled(Toggled(s, x), x) <==> y in s
  {
    ToggleCounts(s, x);
    ToggleKeepsNoDuplicates(s, x);
    ToggleCounts(Toggled(s, x), x);
    ToggleKeepsNoDuplicates(Toggled(s, x), x);
  }

  /** From an empty selection, a click on 205 selects it and a second click clears it again. */
  lemma ToggleExample()
    ensures Toggled([], 205) == [205]
    ensures Toggled(Toggled([], 205), 205) == []
  {
    ToggleTwiceAbsent([], 205);
  }

  // ---------------------------------------------------------------------------
  // The click guard
  // ---------------------------------------------------------------------------

  /**
   * The identifier a map click yields, as written: none when the map reports
   * no tooltip, otherwise what `extract_id_from_tooltip` reads from its text.
   * A tooltip with the `wb-` prefix gives what the corrected extraction gives.
   */
  function ClickedId(tooltip: Option<string>): (r: Extraction)
    ensures tooltip.None? ==> r == NoId
    ensures tooltip.Some? ==>
      (r == NoId <==> forall j :: StartIndex(tooltip.value) <= j < |tooltip.value| ==> tooltip.value[j] != '\n')
    ensures tooltip.Some? && Contains(tooltip.value, Prefix) ==> r == ExtractIdIntended(tooltip.value)
  {
    match tooltip
    case None => NoId
    case Some(t) => ExtractIdFromTooltip(t)
  }

  /**
   * The identifier a map click yields with the corrected extraction: a tooltip
   * without the `wb-` prefix yields none, any other agrees with `ClickedId`.
   */
  function ClickedIdIntended(tooltip: Option<string>): (r: Extraction)
    ensures tooltip.None? || !Contains(tooltip.value, Prefix) ==> r == NoId
    ensures tooltip.Some? && Contains(tooltip.value, Prefix) ==> r == ClickedId(tooltip)
  {
    match tooltip
    case None => NoId
    case Some(t) => ExtractIdIntended(t)
  }

  /** `if clicked_id:` is true for an identifier other than 0 only. */
  predicate Truthy(e: Extraction)
  {
    e.Id? && e.id != 0
  }

  /**
   * The selection after a click: `None`, `0` and a raised `ValueError` leave it
   * alone; any other identifier gains or loses one copy, and every other
   * identifier keeps its membership.
   */
  function AfterClick(s: seq<int>, e: Extraction): (r: seq<int>)
    ensures e == NoId || e == Id(0) || e == ParseFailure ==> r == s
    ensures e.Id? && e.id != 0 ==>
      multiset(r) == if e.id in s then multiset(s) - multiset{e.id} else multiset(s) + multiset{e.id}
    ensures e.Id? ==> forall y :: y != e.id ==> (y in r <==> y in s)
  {
    if Truthy(e) then
      ToggleCounts(s, e.id);
      Toggled(s, e.id)
    else s
  }

  /** No click, whatever it yields, brings a repetition into the selection. */
  lemma AfterClickKeepsNoDuplicates(s: seq<int>, e: Extraction)
    ensures NoDuplicates(s) ==> NoDuplicates(AfterClick(s, e))
  {
    if NoDuplicates(s) && Truthy(e) {
      ToggleKeepsNoDuplicates(s, e.id);
    }
  }

  /**
   * With the corrected extraction, a click without a tooltip, or on a tooltip
   * without the `wb-` prefix, leaves the selection alone.
   */
  lemma ClickWithoutIdChangesNothing(s: seq<int>, tooltip: Option<string>)
    requires tooltip.None? || !Contains(tooltip.value, Prefix)
    ensures AfterClick(s, ClickedIdIntended(tooltip)) == s
  {
  }

  /** A click on the tooltip of a formatted identifier yields that identifier, as written and as corrected. */
  lemma ClickOnFormattedId(n: int, post: string)
    ensures ClickedId(Some(FormatId(n) + "\n" + post)) == Id(n)
    ensures ClickedIdIntended(Some(FormatId(n) + "\n" + post)) == Id(n)
  {
    FormattedIdRoundTrip(n, post);
    assert FormatId(n)[..|Prefix|] == Prefix;
    assert OccursAt(FormatId(n) + "\n" + post, Prefix, 0);
  }

  /** A click on feature 0 is ignored, as `0` is falsy. */
  lemma ClickOnZeroChangesNothing(s: seq<int>, post: string)
    ensures AfterClick(s, ClickedId(Some(FormatId(0) + "\n" + post))) == s
  {
    ClickOnFormattedId(0, post);
  }

  /** A click on the tooltip of a feature other than 0 toggles that feature. */
  lemma ClickOnFeatureToggles(s: seq<int>, n: int, post: string)
    requires n != 0
    ensures AfterClick(s, ClickedId(Some(FormatId(n) + "\n" + post))) == Toggled(s, n)
  {
    ClickOnFormattedId(n, post);
  }

  /**
   * As written, a click on a tooltip without the prefix selects feature 7,
   * where the corrected click ignores it.
   */
  lemma AsWrittenClickWithoutPrefixSelects()
    ensures AfterClick([], ClickedId(Some("ab7\n"))) == [7]
    ensures AfterClick([], ClickedIdIntended(Some("ab7\n"))) == []
  {
    MissingPrefixYieldsId();
    MissingPrefixIgnoredWhenCorrected();
  }

  /** As written, a click on a tooltip without the prefix whose text from index 2 is not a number raises. */
  lemma AsWrittenClickWithoutPrefixRaises()
    ensures ClickedId(Some("ID\nwb\n")) == ParseFailure
  {
    MissingPrefixRaises();
  }

  // ---------------------------------------------------------------------------
  // The session state
  // ---------------------------------------------------------------------------

  /** What a map click leads to. */
  datatype ClickOutcome =
    | Ignored                                        // no identifier, or a falsy one
    | Raised                                         // `int()` raised on the tooltip text
    | Updated(filtered: seq<Frame>, merged: Merged)  // the selection changed and the tables were rebuilt

  /**
   * The frames of every dataset restricted to the selected features (the list
   * comprehension): one frame per dataset, holding exactly its rows of a
   * selected feature.
   */
  function RestrictAll(dfs: seq<Frame>, ids: seq<int>): (r: seq<Frame>)
    ensures |r| == |dfs|
    ensures forall i, x :: 0 <= i < |dfs| ==> (x in r[i] <==> x in dfs[i] && x.featureId in ids)
  {
    seq(|dfs|, i requires 0 <= i < |dfs| => Restrict(dfs[i], ids))
  }

  /** The part of the session state the map interaction reads and writes. */
  class Session {
    /** `st.session_state.selected_feature_ids`. */
    var selected: seq<int>

    /** The session starts with nothing selected. */
    constructor()
      ensures selected == []
    {
      selected := [];
    }

    /** The in-place toggle of `update_selected_feature_ids`. */
    method Toggle(id: int)
      modifies this
      ensures selected == Toggled(old(selected), id)
    {
      if id in selected {
        selected := RemoveFirst(selected, id);
      } else {
        selected := selected + [id];
      }
    }

    /**
     * `update_selected_feature_ids`: toggle the identifier, restrict every
     * dataset's frame to the new selection and outer-join the results.
     */
    method UpdateSelectedFeatureIds(clickedId: int, entireDfs: seq<Frame>) returns (filtered: seq<Frame>, merged: Merged)
      requires |entireDfs| >= 1
      modifies this
      ensures selected == Toggled(old(selected), clickedId)
      ensures filtered == RestrictAll(entireDfs, selected)
      ensures merged == OuterMergeAll(filtered)
    {
      Toggle(clickedId);
      filtered := RestrictAll(entireDfs, selected);
      merged := OuterMergeAll(filtered);
    }

    /**
     * The click handling of `display_map`: read the identifier from the
     * tooltip with `extract_id_from_tooltip` as written and update the
     * selection when the identifier is truthy. A tooltip whose text `int()`
     * cannot parse raises before anything changes; without the `wb-` prefix
     * that text is read from index 2 on.
     */
    method OnMapClick(tooltip: Option<string>, entireDfs: seq<Frame>) returns (outcome: ClickOutcome)
      requires |entireDfs| >= 1
      modifies this
      ensures selected == AfterClick(old(selected), ClickedId(tooltip))
      ensures ClickedId(tooltip) == ParseFailure <==> outcome == Raised
      ensures outcome.Updated? <==> Truthy(ClickedId(tooltip))
      ensures outcome.Updated? ==>
        outcome.filtered == RestrictAll(entireDfs, selected) && outcome.merged == OuterMergeAll(outcome.filtered)
      ensures NoDuplicates(old(selected)) ==> NoDuplicates(selected)
    {
      var clicked := ClickedId(tooltip);
      AfterClickKeepsNoDuplicates(selected, clicked);
      if clicked == ParseFailure {
        return Raised;
      }
      if Truthy(clicked) {
        var filtered, merged := UpdateSelectedFeatureIds(clicked.id, entireDfs);
        return Updated(filtered, merged);
      }
      return Ignored;
    }
  }
}
