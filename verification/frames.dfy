/**
 * The tables the dashboard builds from the simulation output. A frame is a
 * sequence of rows keyed by (feature identifier, time, type); each row holds
 * its value columns (flow, velocity, depth, and after a join their suffixed
 * copies) as a map from column name to an uninterpreted cell value. A column
 * a row does not hold reads as missing (pandas' NaN).
 */
module Frames {
  import opened Text

  /** A cell of a value column; the dashboard only moves cells around, it never computes with them. */
  type Value(==, !new)

  /** The join key of a row. */
  datatype Key = Key(featureId: int, time: int, kind: string)

  /** One row of a frame: its key columns and its value columns. */
  datatype Row = Row(featureId: int, time: int, kind: string, values: map<string, Value>)
  {
    function KeyOf(): Key
    {
      Key(featureId, time, kind)
    }
  }

  type Frame = seq<Row>

  /** The keys the rows of a frame carry. */
  function Keys(f: Frame): set<Key>
  {
    set x | x in f :: x.KeyOf()
  }

  /** The value columns of a frame: every name some row holds. */
  function Columns(f: Frame): set<string>
  {
    set x, c | x in f && c in x.values :: c
  }

  // ---------------------------------------------------------------------------
  // Row selection (boolean-mask indexing)
  // ---------------------------------------------------------------------------

  /** `df[mask]`: the rows that satisfy `keep`, in their original order. */
  function Filter(f: Frame, keep: Row -> bool): (r: Frame)
    ensures |r| <= |f|
    ensures forall x :: x in r <==> x in f && keep(x)
  {
    if f == [] then [] else (if keep(f[0]) then [f[0]] else []) + Filter(f[1..], keep)
  }

  /** The positions, counted from `base`, of the rows that satisfy `keep`, in increasing order. */
  function KeptPositions(f: Frame, keep: Row -> bool, base: nat): seq<nat>
  {
    if f == [] then []
    else (if keep(f[0]) then [base] else []) + KeptPositions(f[1..], keep, base + 1)
  }

  /** Every kept position lies inside the frame. */
  lemma {:induction false} KeptPositionsInRange(f: Frame, keep: Row -> bool, base: nat)
    ensures forall p :: p in KeptPositions(f, keep, base) ==> base <= p < base + |f|
  {
    if f != [] {
      KeptPositionsInRange(f[1..], keep, base + 1);
    }
  }

  /** The kept positions are increasing, so no row is taken twice or out of order. */
  lemma {:induction false} KeptPositionsIncreasing(f: Frame, keep: Row -> bool, base: nat)
    ensures forall k, l :: 0 <= k < l < |KeptPositions(f, keep, base)| ==>
      KeptPositions(f, keep, base)[k] < KeptPositions(f, keep, base)[l]
  {
    if f != [] {
      var rest := KeptPositions(f[1..], keep, base + 1);
      KeptPositionsIncreasing(f[1..], keep, base + 1);
      KeptPositionsInRange(f[1..], keep, base + 1);
      var pos := KeptPositions(f, keep, base);
      if keep(f[0]) {
        assert pos == [base] + rest;
        forall k, l | 0 <= k < l < |pos|
          ensures pos[k] < pos[l]
        {
          assert pos[l] == rest[l - 1] && rest[l - 1] in rest;
          if k > 0 {
            assert pos[k] == rest[k - 1];
          }
        }
      } else {
        assert pos == rest;
      }
    }
  }

  /** The kept positions are exactly those of the rows the mask accepts. */
  lemma {:induction false} KeptPositionsExact(f: Frame, keep: Row -> bool, base: nat)
    ensures forall i :: 0 <= i < |f| ==> (base + i in KeptPositions(f, keep, base) <==> keep(f[i]))
  {
    if f != [] {
      var rest := KeptPositions(f[1..], keep, base + 1);
      KeptPositionsExact(f[1..], keep, base + 1);
      KeptPositionsInRange(f[1..], keep, base + 1);
      assert KeptPositions(f, keep, base) == (if keep(f[0]) then [base] else []) + rest;
      forall i | 1 <= i < |f|
        ensures base + i in rest <==> keep(f[i])
      {
        assert f[i] == f[1..][i - 1];
        assert base + i == (base + 1) + (i - 1);
      }
    }
  }

  /** The selection is the sequence of rows at the kept positions. */
  lemma {:induction false} FilterAtKeptPositions(f: Frame, keep: Row -> bool, base: nat)
    ensures |Filter(f, keep)| == |KeptPositions(f, keep, base)|
    ensures forall k :: 0 <= k < |KeptPositions(f, keep, base)| ==>
      base <= KeptPositions(f, keep, base)[k] < base + |f| &&
      Filter(f, keep)[k] == f[KeptPositions(f, keep, base)[k] - base]
  {
    if f != [] {
      var tail := f[1..];
      FilterAtKeptPositions(tail, keep, base + 1);
      var rest := KeptPositions(tail, keep, base + 1);
      var kept := Filter(tail, keep);
      var pos := KeptPositions(f, keep, base);
      var r := Filter(f, keep);
      var h := if keep(f[0]) then 1 else 0;
      assert pos == (if keep(f[0]) then [base] else []) + rest;
      assert r == (if keep(f[0]) then [f[0]] else []) + kept;
      forall k | 0 <= k < |pos|
        ensures base <= pos[k] < base + |f| && r[k] == f[pos[k] - base]
      {
        if k < h {
          assert pos[k] == base && r[k] == f[0];
        } else {
          var p := rest[k - h];
          assert pos[k] == p;
          assert r[k] == kept[k - h];
          assert base + 1 <= p < base + 1 + |tail| && kept[k - h] == tail[p - (base + 1)];
          assert tail[p - (base + 1)] == f[p - base];
        }
      }
    }
  }

  /**
   * Boolean-mask selection keeps exactly the rows the mask accepts, each
   * once, in the order of the input.
   */
  lemma FilterKeepsOrder(f: Frame, keep: Row -> bool)
    ensures |Filter(f, keep)| == |KeptPositions(f, keep, 0)|
    ensures forall k :: 0 <= k < |KeptPositions(f, keep, 0)| ==>
      KeptPositions(f, keep, 0)[k] < |f| && Filter(f, keep)[k] == f[KeptPositions(f, keep, 0)[k]]
    ensures forall k, l :: 0 <= k < l < |KeptPositions(f, keep, 0)| ==>
      KeptPositions(f, keep, 0)[k] < KeptPositions(f, keep, 0)[l]
    ensures forall i :: 0 <= i < |f| ==> (i in KeptPositions(f, keep, 0) <==> keep(f[i]))
  {
    var pos := KeptPositions(f, keep, 0);
    var r := Filter(f, keep);
    FilterAtKeptPositions(f, keep, 0);
    forall k | 0 <= k < |pos|
      ensures pos[k] < |f| && r[k] == f[pos[k]]
    {
      assert r[k] == f[pos[k] - 0];
    }
    KeptPositionsIncreasing(f, keep, 0);
    KeptPositionsExact(f, keep, 0);
    forall i | 0 <= i < |f|
      ensures i in pos <==> keep(f[i])
    {
      assert 0 + i == i;
    }
  }

  /** Selecting from a concatenation selects from each part. */
  lemma {:induction false} FilterConcat(a: Frame, b: Frame, keep: Row -> bool)
    ensures Filter(a + b, keep) == Filter(a, keep) + Filter(b, keep)
  {
    if a != [] {
      assert (a + b)[1..] == a[1..] + b;
      FilterConcat(a[1..], b, keep);
    } else {
      assert a + b == b;
    }
  }

  /** The mask `df['feature_id'].isin(ids)`. */
  function IsIn(ids: seq<int>): Row -> bool
  {
    (x: Row) => x.featureId in ids
  }

  /** `df[df['feature_id'].isin(ids)]`: the rows of the selected features. */
  function Restrict(f: Frame, ids: seq<int>): (r: Frame)
    ensures forall x :: x in r <==> x in f && x.featureId in ids
  {
    Filter(f, IsIn(ids))
  }

  /** `df[(df['time'] >= lo) & (df['time'] <= hi)]`: the rows inside the time window, both ends included. */
  function TimeWindow(f: Frame, lo: int, hi: int): (r: Frame)
    ensures forall x :: x in r <==> x in f && lo <= x.time <= hi
  {
    Filter(f, InWindow(lo, hi))
  }

  /** The mask `(df['time'] >= lo) & (df['time'] <= hi)`. */
  function InWindow(lo: int, hi: int): Row -> bool
  {
    (x: Row) => lo <= x.time <= hi
  }

  /** The window [1, 3] over rows at times 0 to 4 keeps the rows at 1, 2 and 3, in order. */
  lemma TimeWindowExample(f: Frame)
    requires |f| == 5 && forall i :: 0 <= i < 5 ==> f[i].time == i
    ensures TimeWindow(f, 1, 3) == f[1..4]
  {
    var keep := InWindow(1, 3);
    var g := f[1..4];
    FilterStep(f[4..], keep);
    assert f[4..][1..] == [];
    FilterStep(f[3..], keep);
    assert f[3..][1..] == f[4..];
    FilterStep(f[2..], keep);
    assert f[2..][1..] == f[3..];
    FilterStep(f[1..], keep);
    assert f[1..][1..] == f[2..];
    FilterStep(f, keep);
    assert Filter(f, keep) == [f[1]] + ([f[2]] + ([f[3]] + []));
  }

  /** One step of the selection: the first row if it is kept, then the selection from the rest. */
  lemma FilterStep(f: Frame, keep: Row -> bool)
    requires f != []
    ensures Filter(f, keep) == (if keep(f[0]) then [f[0]] else []) + Filter(f[1..], keep)
  {
  }

  // ---------------------------------------------------------------------------
  // Concatenation of the per-file frames
  // ---------------------------------------------------------------------------

  /** `pd.concat(frames, ignore_index=True)`: the rows of every frame, frame after frame. */
  function Concat(frames: seq<Frame>): Frame
  {
    if frames == [] then [] else Concat(frames[..|frames| - 1]) + frames[|frames| - 1]
  }

  /** A row belongs to the concatenation exactly when it belongs to one of the frames. */
  lemma {:induction false} ConcatMembership(frames: seq<Frame>, x: Row)
    ensures x in Concat(frames) <==> exists j :: 0 <= j < |frames| && x in frames[j]
  {
    if frames != [] {
      var init := frames[..|frames| - 1];
      ConcatMembership(init, x);
      assert forall j :: 0 <= j < |init| ==> init[j] == frames[j];
    }
  }

  /**
   * `process_and_merge_dataframes` over the frames already loaded from the
   * files, in file order: restrict each one to the selected features and
   * append it to the accumulated frame.
   */
  method ProcessAndMergeDataframes(files: seq<Frame>, ids: seq<int>) returns (merged: Frame)
    ensures merged == Restrict(Concat(files), ids)
    ensures forall x :: x in merged <==>
      x.featureId in ids && exists j :: 0 <= j < |files| && x in files[j]
  {
    merged := [];
    for i := 0 to |files|
      invariant merged == Restrict(Concat(files[..i]), ids)
    {
      var temp := Restrict(files[i], ids);
      assert files[..i + 1][..i] == files[..i];
      FilterConcat(Concat(files[..i]), files[i], IsIn(ids));
      merged := merged + temp;
    }
    assert files[..|files|] == files;
    forall x
      ensures x in merged <==> x.featureId in ids && exists j :: 0 <= j < |files| && x in files[j]
    {
      ConcatMembership(files, x);
    }
  }

  // ---------------------------------------------------------------------------
  // Joining two frames on (feature_id, time, type)
  // ---------------------------------------------------------------------------

  datatype JoinKind = Inner | Outer

  /** Why `pd.merge` refuses the column names. */
  datatype MergeFailure =
    | OverlapWithoutSuffix   // shared value columns and both suffixes empty (a ValueError)
    | SuffixCreatesDuplicate // a suffixed name equals another column of the same side (a MergeError)
    | SharedLabel            // a left and a right column end up with the same name

  datatype Merged = Ok(frame: Frame) | Err(failure: MergeFailure)

  /** The name a column takes in the join: suffixed when the other side has a column of that name too. */
  function Renamed(c: string, overlap: set<string>, suffix: string): string
  {
    if c in overlap then c + suffix else c
  }

  /** The names a set of columns takes in the join. */
  function Labels(cols: set<string>, overlap: set<string>, suffix: string): set<string>
  {
    set c | c in cols :: Renamed(c, overlap, suffix)
  }

  /** No two columns of one side end up with the same name. */
  predicate RenamingInjective(cols: set<string>, overlap: set<string>, suffix: string)
  {
    forall c1, c2 :: c1 in cols && c2 in cols && Renamed(c1, overlap, suffix) == Renamed(c2, overlap, suffix) ==> c1 == c2
  }

  /** The cells of a row under their joined names. */
  function RenameCells(m: map<string, Value>, overlap: set<string>, suffix: string): (r: map<string, Value>)
    requires RenamingInjective(m.Keys, overlap, suffix)
    ensures r.Keys == Labels(m.Keys, overlap, suffix)
    ensures forall c :: c in m ==> r[Renamed(c, overlap, suffix)] == m[c]
  {
    map c | c in m :: Renamed(c, overlap, suffix) := m[c]
  }

  /** The column sets of the two sides of a join and the suffix each side's shared columns take. */
  datatype Naming = Naming(lcols: set<string>, rcols: set<string>, lsuffix: string, rsuffix: string)
  {
    function Overlap(): set<string>
    {
      lcols * rcols
    }

    function LeftLabel(c: string): string
    {
      Renamed(c, Overlap(), lsuffix)
    }

    function RightLabel(c: string): string
    {
      Renamed(c, Overlap(), rsuffix)
    }

    /** The renaming gives every column of the joined frame a name of its own. */
    predicate Valid()
    {
      && RenamingInjective(lcols, Overlap(), lsuffix)
      && RenamingInjective(rcols, Overlap(), rsuffix)
      && Labels(lcols, Overlap(), lsuffix) !! Labels(rcols, Overlap(), rsuffix)
    }
  }

  /** Every row of `f` holds only columns of `cols`. */
  predicate Fits(f: Frame, cols: set<string>)
  {
    forall x :: x in f ==> x.values.Keys <= cols
  }

  lemma FitsColumns(f: Frame)
    ensures Fits(f, Columns(f))
  {
  }

  /** The joined row of a matching left and right row. */
  function Combine(l: Row, r: Row, nm: Naming): (o: Row)
    requires nm.Valid() && l.values.Keys <= nm.lcols && r.values.Keys <= nm.rcols
    ensures o.KeyOf() == l.KeyOf()
    ensures o.values.Keys == Labels(l.values.Keys, nm.Overlap(), nm.lsuffix) + Labels(r.values.Keys, nm.Overlap(), nm.rsuffix)
    ensures forall c :: c in l.values ==> o.values[nm.LeftLabel(c)] == l.values[c]
    ensures forall c :: c in r.values ==> o.values[nm.RightLabel(c)] == r.values[c]
  {
    var lv := RenameCells(l.values, nm.Overlap(), nm.lsuffix);
    var rv := RenameCells(r.values, nm.Overlap(), nm.rsuffix);
    assert forall c :: c in l.values ==> nm.LeftLabel(c) in Labels(nm.lcols, nm.Overlap(), nm.lsuffix);
    assert forall c :: c in r.values ==> nm.RightLabel(c) in Labels(nm.rcols, nm.Overlap(), nm.rsuffix);
    Row(l.featureId, l.time, l.kind, lv + rv)
  }

  /** A left row without a partner in an outer join: its own cells, the right columns missing. */
  function LeftOnly(l: Row, nm: Naming): (o: Row)
    requires nm.Valid() && l.values.Keys <= nm.lcols
    ensures o.KeyOf() == l.KeyOf()
    ensures o.values.Keys == Labels(l.values.Keys, nm.Overlap(), nm.lsuffix)
    ensures forall c :: c in l.values ==> o.values[nm.LeftLabel(c)] == l.values[c]
  {
    Row(l.featureId, l.time, l.kind, RenameCells(l.values, nm.Overlap(), nm.lsuffix))
  }

  /** A right row without a partner in an outer join: its own cells, the left columns missing. */
  function RightOnly(r: Row, nm: Naming): (o: Row)
    requires nm.Valid() && r.values.Keys <= nm.rcols
    ensures o.KeyOf() == r.KeyOf()
    ensures o.values.Keys == Labels(r.values.Keys, nm.Overlap(), nm.rsuffix)
    ensures forall c :: c in r.values ==> o.values[nm.RightLabel(c)] == r.values[c]
  {
    Row(r.featureId, r.time, r.kind, RenameCells(r.values, nm.Overlap(), nm.rsuffix))
  }

  /** The joined rows of one left row with each right row of the same key, in right order. */
  function Matches(l: Row, right: Frame, nm: Naming): (m: Frame)
    requires nm.Valid() && l.values.Keys <= nm.lcols && Fits(right, nm.rcols)
    ensures forall o :: o in m <==> exists r :: r in right && r.KeyOf() == l.KeyOf() && o == Combine(l, r, nm)
  {
    if right == [] then []
    else
      (if right[0].KeyOf() == l.KeyOf() then [Combine(l, right[0], nm)] else []) + Matches(l, right[1..], nm)
  }

  /** The rows of an inner join: for each left row in turn, its matches. */
  function InnerRows(left: Frame, right: Frame, nm: Naming): (j: Frame)
    requires nm.Valid() && Fits(left, nm.lcols) && Fits(right, nm.rcols)
    ensures forall o :: o in j <==>
      exists l, r :: l in left && r in right && l.KeyOf() == r.KeyOf() && o == Combine(l, r, nm)
  {
    if left == [] then [] else Matches(left[0], right, nm) + InnerRows(left[1..], right, nm)
  }

  /** The left half of an outer join: each left row with its matches, or alone when it has none. */
  function LeftOuterRows(left: Frame, right: Frame, nm: Naming): (j: Frame)
    requires nm.Valid() && Fits(left, nm.lcols) && Fits(right, nm.rcols)
    ensures forall o :: o in j <==>
      (exists l, r :: l in left && r in right && l.KeyOf() == r.KeyOf() && o == Combine(l, r, nm)) ||
      (exists l :: l in left && l.KeyOf() !in Keys(right) && o == LeftOnly(l, nm))
  {
    if left == [] then []
    else
      var l := left[0];
      (if l.KeyOf() in Keys(right) then Matches(l, right, nm) else [LeftOnly(l, nm)])
      + LeftOuterRows(left[1..], right, nm)
  }

  /** The right rows whose key no left row has, in right order. */
  function RightOnlyRows(right: Frame, leftKeys: set<Key>, nm: Naming): (j: Frame)
    requires nm.Valid() && Fits(right, nm.rcols)
    ensures forall o :: o in j <==> exists r :: r in right && r.KeyOf() !in leftKeys && o == RightOnly(r, nm)
  {
    if right == [] then []
    else
      (if right[0].KeyOf() !in leftKeys then [RightOnly(right[0], nm)] else [])
      + RightOnlyRows(right[1..], leftKeys, nm)
  }

  /** The rows of an outer join: every key of either side. */
  function OuterRows(left: Frame, right: Frame, nm: Naming): Frame
    requires nm.Valid() && Fits(left, nm.lcols) && Fits(right, nm.rcols)
  {
    LeftOuterRows(left, right, nm) + RightOnlyRows(right, Keys(left), nm)
  }

  /**
   * `pd.merge(left, right, on=["feature_id", "time", "type"], how=how,
   * suffixes=(lsuffix, rsuffix))`: the value columns both sides hold are
   * renamed with the suffixes, unless that leaves two columns with one name.
   */
  function Join(left: Frame, right: Frame, how: JoinKind, lsuffix: string, rsuffix: string): (r: Merged)
    ensures r.Ok? ==> Naming(Columns(left), Columns(right), lsuffix, rsuffix).Valid()
    ensures r.Err? <==> !Naming(Columns(left), Columns(right), lsuffix, rsuffix).Valid()
  {
    var nm := Naming(Columns(left), Columns(right), lsuffix, rsuffix);
    if nm.Overlap() != {} && lsuffix == "" && rsuffix == "" then
      assert !nm.Valid() by {
        var c :| c in nm.Overlap();
        assert nm.LeftLabel(c) == c == nm.RightLabel(c);
        assert c in Labels(nm.lcols, nm.Overlap(), lsuffix);
        assert c in Labels(nm.rcols, nm.Overlap(), rsuffix);
      }
      Err(OverlapWithoutSuffix)
    else if !RenamingInjective(nm.lcols, nm.Overlap(), lsuffix) || !RenamingInjective(nm.rcols, nm.Overlap(), rsuffix) then
      Err(SuffixCreatesDuplicate)
    else if !(Labels(nm.lcols, nm.Overlap(), lsuffix) !! Labels(nm.rcols, nm.Overlap(), rsuffix)) then
      Err(SharedLabel)
    else
      FitsColumns(left);
      FitsColumns(right);
      Ok(if how == Inner then InnerRows(left, right, nm) else OuterRows(left, right, nm))
  }

  /** A join whose names are valid gives the joined rows. */
  lemma JoinRows(left: Frame, right: Frame, how: JoinKind, lsuffix: string, rsuffix: string)
    requires Naming(Columns(left), Columns(right), lsuffix, rsuffix).Valid()
    ensures Fits(left, Columns(left)) && Fits(right, Columns(right))
    ensures how == Inner ==> Join(left, right, how, lsuffix, rsuffix) == Ok(InnerRows(left, right, Naming(Columns(left), Columns(right), lsuffix, rsuffix)))
    ensures how == Outer ==> Join(left, right, how, lsuffix, rsuffix) == Ok(OuterRows(left, right, Naming(Columns(left), Columns(right), lsuffix, rsuffix)))
  {
    FitsColumns(left);
    FitsColumns(right);
  }

  /** An inner join holds exactly the keys both sides hold. */
  lemma InnerJoinKeys(left: Frame, right: Frame, lsuffix: string, rsuffix: string)
    requires Join(left, right, Inner, lsuffix, rsuffix).Ok?
    ensures forall k :: k in Keys(Join(left, right, Inner, lsuffix, rsuffix).frame) <==> k in Keys(left) && k in Keys(right)
  {
    var nm := Naming(Columns(left), Columns(right), lsuffix, rsuffix);
    FitsColumns(left);
    FitsColumns(right);
    var j := InnerRows(left, right, nm);
    assert Join(left, right, Inner, lsuffix, rsuffix).frame == j;
    forall k
      ensures k in Keys(j) <==> k in Keys(left) && k in Keys(right)
    {
      if k in Keys(j) {
        var o :| o in j && o.KeyOf() == k;
        var l, r :| l in left && r in right && l.KeyOf() == r.KeyOf() && o == Combine(l, r, nm);
      }
      if k in Keys(left) && k in Keys(right) {
        var l :| l in left && l.KeyOf() == k;
        var r :| r in right && r.KeyOf() == k;
        assert Combine(l, r, nm) in j;
      }
    }
  }

  /** An outer join holds exactly the keys either side holds. */
  lemma OuterJoinKeys(left: Frame, right: Frame, lsuffix: string, rsuffix: string)
    requires Join(left, right, Outer, lsuffix, rsuffix).Ok?
    ensures forall k :: k in Keys(Join(left, right, Outer, lsuffix, rsuffix).frame) <==> k in Keys(left) || k in Keys(right)
  {
    var nm := Naming(Columns(left), Columns(right), lsuffix, rsuffix);
    FitsColumns(left);
    FitsColumns(right);
    var lj := LeftOuterRows(left, right, nm);
    var rj := RightOnlyRows(right, Keys(left), nm);
    var j := lj + rj;
    assert Join(left, right, Outer, lsuffix, rsuffix).frame == j;
    forall k
      ensures k in Keys(j) <==> k in Keys(left) || k in Keys(right)
    {
      if k in Keys(j) {
        var o :| o in j && o.KeyOf() == k;
        if o in lj {
          if l, r :| l in left && r in right && l.KeyOf() == r.KeyOf() && o == Combine(l, r, nm) {
          } else {
            var l :| l in left && l.KeyOf() !in Keys(right) && o == LeftOnly(l, nm);
          }
        } else {
          var r :| r in right && r.KeyOf() !in Keys(left) && o == RightOnly(r, nm);
        }
      }
      if k in Keys(left) {
        var l :| l in left && l.KeyOf() == k;
        if k in Keys(right) {
          var r :| r in right && r.KeyOf() == k;
          assert Combine(l, r, nm) in lj;
        } else {
          assert LeftOnly(l, nm) in lj;
        }
      } else if k in Keys(right) {
        var r :| r in right && r.KeyOf() == k;
        assert RightOnly(r, nm) in rj;
      }
    }
  }

  // ---------------------------------------------------------------------------
  // Merging the datasets' frames
  // ---------------------------------------------------------------------------

  /** The suffix `merge_datasets` gives the shared columns of the i-th frame, counting from 1: `f'_{i}'`. */
  function Suffix(i: nat): string
  {
    "_" + IntToDecimal(i)
  }

  /**
   * The left-to-right inner join of `merge_datasets`: frame i (i >= 2) joins
   * the accumulated frame with suffixes `('', '_i')`; a failing join ends it.
   */
  function InnerMergeAll(dfs: seq<Frame>): Merged
    requires |dfs| >= 1
    decreases |dfs|
  {
    if |dfs| == 1 then Ok(dfs[0])
    else
      match InnerMergeAll(dfs[..|dfs| - 1])
      case Ok(acc) => Join(acc, dfs[|dfs| - 1], Inner, "", Suffix(|dfs|))
      case Err(e) => Err(e)
  }

  /** Once a join of the sequence fails, the whole merge fails with that failure. */
  lemma {:induction false} MergeFailureSticks(dfs: seq<Frame>, i: nat)
    requires 1 <= i <= |dfs| && InnerMergeAll(dfs[..i]).Err?
    ensures InnerMergeAll(dfs) == InnerMergeAll(dfs[..i])
    decreases |dfs|
  {
    if i == |dfs| {
      assert dfs[..i] == dfs;
    } else {
      var init := dfs[..|dfs| - 1];
      assert init[..i] == dfs[..i];
      MergeFailureSticks(init, i);
    }
  }

  /** `merge_datasets(*dfs)`: the loop that joins each further frame onto the accumulated one. */
  method MergeDatasets(dfs: seq<Frame>) returns (r: Merged)
    requires |dfs| >= 1
    ensures r == InnerMergeAll(dfs)
  {
    var merged := dfs[0];
    assert dfs[..1] == [dfs[0]];
    var i := 1;
    while i < |dfs|
      invariant 1 <= i <= |dfs|
      invariant InnerMergeAll(dfs[..i]) == Ok(merged)
    {
      var step := Join(merged, dfs[i], Inner, "", Suffix(i + 1));
      assert dfs[..i + 1][..i] == dfs[..i];
      assert InnerMergeAll(dfs[..i + 1]) == step;
      if step.Err? {
        MergeFailureSticks(dfs, i + 1);
        return step;
      }
      merged := step.frame;
      i := i + 1;
    }
    assert dfs[..i] == dfs;
    return Ok(merged);
  }

  /** Key `k` is carried by every frame of `dfs`. */
  predicate InEvery(k: Key, dfs: seq<Frame>)
  {
    forall j :: 0 <= j < |dfs| ==> k in Keys(dfs[j])
  }

  /** Key `k` is carried by some frame of `dfs`. */
  predicate InSome(k: Key, dfs: seq<Frame>)
  {
    exists j :: 0 <= j < |dfs| && k in Keys(dfs[j])
  }

  /** A key is in every frame exactly when it is in every frame but the last, and in the last. */
  lemma InEveryStep(k: Key, dfs: seq<Frame>)
    requires |dfs| >= 1
    ensures InEvery(k, dfs) <==> InEvery(k, dfs[..|dfs| - 1]) && k in Keys(dfs[|dfs| - 1])
  {
    var init := dfs[..|dfs| - 1];
    assert forall j :: 0 <= j < |init| ==> init[j] == dfs[j];
  }

  /** A key is in some frame exactly when it is in some frame but the last, or in the last. */
  lemma InSomeStep(k: Key, dfs: seq<Frame>)
    requires |dfs| >= 1
    ensures InSome(k, dfs) <==> InSome(k, dfs[..|dfs| - 1]) || k in Keys(dfs[|dfs| - 1])
  {
    var init := dfs[..|dfs| - 1];
    assert forall j :: 0 <= j < |init| ==> init[j] == dfs[j];
  }

  /** When the merge succeeds, the joined keys are exactly those every frame holds. */
  lemma {:induction false} MergedKeysInEveryFrame(dfs: seq<Frame>)
    requires |dfs| >= 1 && InnerMergeAll(dfs).Ok?
    ensures forall k :: k in Keys(InnerMergeAll(dfs).frame) <==> InEvery(k, dfs)
  {
    if |dfs| > 1 {
      var init := dfs[..|dfs| - 1];
      var last := dfs[|dfs| - 1];
      assert InnerMergeAll(init).Ok?;
      var acc := InnerMergeAll(init).frame;
      MergedKeysInEveryFrame(init);
      InnerJoinKeys(acc, last, "", Suffix(|dfs|));
      forall k
        ensures k in Keys(InnerMergeAll(dfs).frame) <==> InEvery(k, dfs)
      {
        InEveryStep(k, dfs);
      }
    }
  }

  /** Every cell of `small` is in `big` under the same name. */
  predicate HoldsCells(big: map<string, Value>, small: map<string, Value>)
  {
    forall c :: c in small ==> c in big && big[c] == small[c]
  }

  /** Columns of the left side keep their bare names when the left suffix is empty. */
  lemma EmptySuffixKeepsName(c: string, overlap: set<string>)
    ensures Renamed(c, overlap, "") == c
  {
    assert c + "" == c;
  }

  /**
   * A join step keeps the accumulated frame's cells: each row of the merge
   * holds every cell of the accumulated row with its key, under the same name,
   * as the left suffix of `merge_datasets` is empty.
   */
  lemma MergeKeepsAccumulatedCells(dfs: seq<Frame>)
    requires |dfs| >= 2 && InnerMergeAll(dfs).Ok?
    ensures InnerMergeAll(dfs[..|dfs| - 1]).Ok?
    ensures forall o :: o in InnerMergeAll(dfs).frame ==>
      exists l :: l in InnerMergeAll(dfs[..|dfs| - 1]).frame && l.KeyOf() == o.KeyOf() && HoldsCells(o.values, l.values)
  {
    var init := dfs[..|dfs| - 1];
    var last := dfs[|dfs| - 1];
    var acc := InnerMergeAll(init).frame;
    var nm := Naming(Columns(acc), Columns(last), "", Suffix(|dfs|));
    FitsColumns(acc);
    FitsColumns(last);
    assert InnerMergeAll(dfs).frame == InnerRows(acc, last, nm);
    InnerRowsKeepLeftCells(acc, last, nm);
  }

  /** With an empty left suffix, each inner-joined row holds every cell of a left row with its key. */
  lemma InnerRowsKeepLeftCells(left: Frame, right: Frame, nm: Naming)
    requires nm.Valid() && Fits(left, nm.lcols) && Fits(right, nm.rcols) && nm.lsuffix == ""
    ensures forall o :: o in InnerRows(left, right, nm) ==>
      exists l :: l in left && l.KeyOf() == o.KeyOf() && HoldsCells(o.values, l.values)
  {
    forall o | o in InnerRows(left, right, nm)
      ensures exists l :: l in left && l.KeyOf() == o.KeyOf() && HoldsCells(o.values, l.values)
    {
      var l, r :| l in left && r in right && l.KeyOf() == r.KeyOf() && o == Combine(l, r, nm);
      CombineHoldsLeftCells(l, r, nm);
    }
  }

  /** With an empty left suffix, a joined row holds every cell of its left row under the same name. */
  lemma CombineHoldsLeftCells(l: Row, r: Row, nm: Naming)
    requires nm.Valid() && l.values.Keys <= nm.lcols && r.values.Keys <= nm.rcols && nm.lsuffix == ""
    ensures HoldsCells(Combine(l, r, nm).values, l.values)
  {
    var o := Combine(l, r, nm);
    forall c | c in l.values
      ensures c in o.values && o.values[c] == l.values[c]
    {
      EmptySuffixKeepsName(c, nm.Overlap());
      assert c in Labels(l.values.Keys, nm.Overlap(), "");
    }
  }

  /**
   * The first frame's columns keep their bare names: each merged row holds
   * every cell of the first frame's row with its key, under the same name.
   */
  lemma {:induction false} FirstFrameKeepsBareNames(dfs: seq<Frame>)
    requires |dfs| >= 1 && InnerMergeAll(dfs).Ok?
    ensures forall o :: o in InnerMergeAll(dfs).frame ==>
      exists x :: x in dfs[0] && x.KeyOf() == o.KeyOf() && HoldsCells(o.values, x.values)
  {
    if |dfs| > 1 {
      var init := dfs[..|dfs| - 1];
      MergeKeepsAccumulatedCells(dfs);
      FirstFrameKeepsBareNames(init);
      assert init[0] == dfs[0];
      var acc := InnerMergeAll(init).frame;
      forall o | o in InnerMergeAll(dfs).frame
        ensures exists x :: x in dfs[0] && x.KeyOf() == o.KeyOf() && HoldsCells(o.values, x.values)
      {
        var l :| l in acc && l.KeyOf() == o.KeyOf() && HoldsCells(o.values, l.values);
        var x :| x in dfs[0] && x.KeyOf() == l.KeyOf() && HoldsCells(l.values, x.values);
        assert HoldsCells(o.values, x.values);
      }
    }
  }

  /**
   * `o` holds every cell of `x`: under the name plus `suffix` when `taken`
   * already has that name, under the bare name otherwise.
   */
  predicate HoldsSuffixedCells(o: Row, x: Row, taken: set<string>, suffix: string)
  {
    forall c :: c in x.values ==>
      var name := if c in taken then c + suffix else c;
      name in o.values && o.values[name] == x.values[c]
  }

  /** A joined row holds every cell of its right row, under the right-hand name. */
  lemma CombineHoldsRightCells(l: Row, r: Row, nm: Naming)
    requires nm.Valid() && l.values.Keys <= nm.lcols && r.values.Keys <= nm.rcols
    ensures HoldsSuffixedCells(Combine(l, r, nm), r, nm.lcols, nm.rsuffix)
  {
    var o := Combine(l, r, nm);
    forall c | c in r.values
      ensures nm.RightLabel(c) in o.values && o.values[nm.RightLabel(c)] == r.values[c]
    {
      assert nm.RightLabel(c) in Labels(r.values.Keys, nm.Overlap(), nm.rsuffix);
    }
  }

  /**
   * The columns of the last frame: each merged row holds the cells of that
   * frame's row with its key, a name the accumulated frame already has taking
   * the suffix `_n`, any other name kept.
   */
  lemma LastFrameColumnsSuffixed(dfs: seq<Frame>)
    requires |dfs| >= 2 && InnerMergeAll(dfs).Ok?
    ensures InnerMergeAll(dfs[..|dfs| - 1]).Ok?
    ensures forall o :: o in InnerMergeAll(dfs).frame ==>
      exists x :: x in dfs[|dfs| - 1] && x.KeyOf() == o.KeyOf() &&
        HoldsSuffixedCells(o, x, Columns(InnerMergeAll(dfs[..|dfs| - 1]).frame), Suffix(|dfs|))
  {
    var init := dfs[..|dfs| - 1];
    var last := dfs[|dfs| - 1];
    var acc := InnerMergeAll(init).frame;
    var nm := Naming(Columns(acc), Columns(last), "", Suffix(|dfs|));
    FitsColumns(acc);
    FitsColumns(last);
    assert InnerMergeAll(dfs).frame == InnerRows(acc, last, nm);
    forall o | o in InnerMergeAll(dfs).frame
      ensures exists x :: x in last && x.KeyOf() == o.KeyOf() && HoldsSuffixedCells(o, x, Columns(acc), Suffix(|dfs|))
    {
      var l, r :| l in acc && r in last && l.KeyOf() == r.KeyOf() && o == Combine(l, r, nm);
      CombineHoldsRightCells(l, r, nm);
    }
  }

  /** A row holding every cell of `l` holds the suffixed cells `l` holds. */
  lemma HoldsSuffixedCellsThrough(o: Row, l: Row, x: Row, taken: set<string>, suffix: string)
    requires HoldsCells(o.values, l.values) && HoldsSuffixedCells(l, x, taken, suffix)
    ensures HoldsSuffixedCells(o, x, taken, suffix)
  {
    forall c | c in x.values
      ensures var name := if c in taken then c + suffix else c;
              name in o.values && o.values[name] == x.values[c]
    {
      var name := if c in taken then c + suffix else c;
      assert name in l.values;
    }
  }

  /**
   * The columns of every frame after the first: for frame i (i >= 2) each
   * merged row holds the cells of that frame's row with its key, a name the
   * merge of the frames before it already has taking the suffix `_i`, any
   * other name kept. The later joins keep those cells under those names.
   */
  lemma {:induction false} FrameColumnsSuffixed(dfs: seq<Frame>, i: nat)
    requires 2 <= i <= |dfs| && InnerMergeAll(dfs).Ok?
    ensures InnerMergeAll(dfs[..i - 1]).Ok?
    ensures forall o :: o in InnerMergeAll(dfs).frame ==>
      exists x :: x in dfs[i - 1] && x.KeyOf() == o.KeyOf() &&
        HoldsSuffixedCells(o, x, Columns(InnerMergeAll(dfs[..i - 1]).frame), Suffix(i))
    decreases |dfs|
  {
    if i == |dfs| {
      LastFrameColumnsSuffixed(dfs);
    } else {
      var init := dfs[..|dfs| - 1];
      MergeKeepsAccumulatedCells(dfs);
      FrameColumnsSuffixed(init, i);
      assert init[..i - 1] == dfs[..i - 1];
      assert init[i - 1] == dfs[i - 1];
      var taken := Columns(InnerMergeAll(dfs[..i - 1]).frame);
      var acc := InnerMergeAll(init).frame;
      forall o | o in InnerMergeAll(dfs).frame
        ensures exists x :: x in dfs[i - 1] && x.KeyOf() == o.KeyOf() && HoldsSuffixedCells(o, x, taken, Suffix(i))
      {
        var l :| l in acc && l.KeyOf() == o.KeyOf() && HoldsCells(o.values, l.values);
        var x :| x in dfs[i - 1] && x.KeyOf() == l.KeyOf() && HoldsSuffixedCells(l, x, taken, Suffix(i));
        HoldsSuffixedCellsThrough(o, l, x, taken, Suffix(i));
      }
    }
  }

  /** The suffix of the second frame is `_2`. */
  lemma SuffixOfSecondFrame()
    ensures Suffix(2) == "_2"
  {
    assert NatToDecimal(2) == [DigitChar(2)];
  }

  /** A two-row frame whose rows both hold exactly the column `c` has `c` as its only column. */
  lemma SingleColumnOfTwo(f: Frame, c: string)
    requires |f| == 2 && f[0].values.Keys == {c} && f[1].values.Keys == {c}
    ensures Columns(f) == {c}
  {
    assert forall x :: x in f ==> x == f[0] || x == f[1];
    assert c in f[0].values;
  }

  /** A single column takes a single name. */
  lemma LabelsOfOne(c: string, overlap: set<string>, suffix: string)
    ensures Labels({c}, overlap, suffix) == {Renamed(c, overlap, suffix)}
    ensures RenamingInjective({c}, overlap, suffix)
  {
  }

  /** One shared column and a non-empty right suffix name the joined columns apart. */
  lemma SharedNamingValid(c: string, suffix: string)
    requires suffix != []
    ensures Naming({c}, {c}, "", suffix).Valid()
  {
    var nm := Naming({c}, {c}, "", suffix);
    assert nm.Overlap() == {c};
    assert nm.LeftLabel(c) == c by {
      assert c + "" == c;
    }
    LabelsOfOne(c, {c}, "");
    LabelsOfOne(c, {c}, suffix);
    assert c != c + suffix by {
      assert |c| != |c + suffix|;
    }
  }

  /** The joined cells of two rows that each hold only the column `c`. */
  lemma CombineShared(l: Row, r: Row, c: string, suffix: string)
    requires suffix != []
    requires l.values.Keys == {c} && r.values.Keys == {c}
    ensures Naming({c}, {c}, "", suffix).Valid()
    ensures Combine(l, r, Naming({c}, {c}, "", suffix)).values == map[c := l.values[c], c + suffix := r.values[c]]
  {
    SharedNamingValid(c, suffix);
    CombineSharedCells(l, r, c, suffix);
    SharedCellsDisplay(l.values, r.values, c, suffix);
  }

  /** With one shared column, the joined cells are the renamed cells of each side. */
  lemma CombineSharedCells(l: Row, r: Row, c: string, suffix: string)
    requires suffix != []
    requires l.values.Keys == {c} && r.values.Keys == {c}
    ensures Naming({c}, {c}, "", suffix).Valid()
    ensures RenamingInjective(l.values.Keys, {c}, "") && RenamingInjective(r.values.Keys, {c}, suffix)
    ensures Combine(l, r, Naming({c}, {c}, "", suffix)).values == RenameCells(l.values, {c}, "") + RenameCells(r.values, {c}, suffix)
  {
    var nm := Naming({c}, {c}, "", suffix);
    SharedNamingValid(c, suffix);
    assert nm.Overlap() == {c};
    CombineCells(l, r, nm);
  }

  /** The renamed cells of two one-column rows sharing the column `c`, as a display. */
  lemma SharedCellsDisplay(lv: map<string, Value>, rv: map<string, Value>, c: string, suffix: string)
    requires lv.Keys == {c} && rv.Keys == {c}
    ensures RenamingInjective(lv.Keys, {c}, "") && RenamingInjective(rv.Keys, {c}, suffix)
    ensures RenameCells(lv, {c}, "") + RenameCells(rv, {c}, suffix) == map[c := lv[c], c + suffix := rv[c]]
  {
    SharedCellBare(lv, c);
    SharedCellSuffixed(rv, c, suffix);
    UnionOfTwo(c, lv[c], c + suffix, rv[c]);
  }

  /** The left cell of a shared one-column row keeps its bare name. */
  lemma SharedCellBare(lv: map<string, Value>, c: string)
    requires lv.Keys == {c}
    ensures RenamingInjective(lv.Keys, {c}, "")
    ensures RenameCells(lv, {c}, "") == map[c := lv[c]]
  {
    RenameOneCell(lv, c, {c}, "");
    EmptySuffixKeepsName(c, {c});
  }

  /** The right cell of a shared one-column row takes the suffix. */
  lemma SharedCellSuffixed(rv: map<string, Value>, c: string, suffix: string)
    requires rv.Keys == {c}
    ensures RenamingInjective(rv.Keys, {c}, suffix)
    ensures RenameCells(rv, {c}, suffix) == map[c + suffix := rv[c]]
  {
    RenameOneCell(rv, c, {c}, suffix);
  }

  /** The cells of a joined row: the renamed left cells, then the renamed right ones. */
  lemma CombineCells(l: Row, r: Row, nm: Naming)
    requires nm.Valid() && l.values.Keys <= nm.lcols && r.values.Keys <= nm.rcols
    ensures RenamingInjective(l.values.Keys, nm.Overlap(), nm.lsuffix)
    ensures RenamingInjective(r.values.Keys, nm.Overlap(), nm.rsuffix)
    ensures Combine(l, r, nm).values == RenameCells(l.values, nm.Overlap(), nm.lsuffix) + RenameCells(r.values, nm.Overlap(), nm.rsuffix)
  {
  }

  /** Two one-entry maps unite into the two-entry display, the second entry winning a shared key. */
  lemma UnionOfTwo(k1: string, v1: Value, k2: string, v2: Value)
    ensures map[k1 := v1] + map[k2 := v2] == map[k1 := v1, k2 := v2]
  {
  }

  /** The cells of a one-column row take one name. */
  lemma RenameOneCellKeys(m: map<string, Value>, c: string, overlap: set<string>, suffix: string)
    requires m.Keys == {c}
    ensures RenamingInjective(m.Keys, overlap, suffix)
    ensures RenameCells(m, overlap, suffix).Keys == {Renamed(c, overlap, suffix)}
  {
    LabelsOfOne(c, overlap, suffix);
    assert Labels(m.Keys, overlap, suffix) == Labels({c}, overlap, suffix);
  }

  /** The cells of a one-column row under their joined name. */
  lemma RenameOneCell(m: map<string, Value>, c: string, overlap: set<string>, suffix: string)
    requires m.Keys == {c}
    ensures RenamingInjective(m.Keys, overlap, suffix)
    ensures RenameCells(m, overlap, suffix) == map[Renamed(c, overlap, suffix) := m[c]]
  {
    RenameOneCellKeys(m, c, overlap, suffix);
    var name := Renamed(c, overlap, suffix);
    var r := RenameCells(m, overlap, suffix);
    assert c in m;
    assert r[name] == m[c];
    SingletonMap(r, name, m[c]);
  }

  /** A map with one key is the display of that key and its value. */
  lemma SingletonMap(r: map<string, Value>, k: string, v: Value)
    requires r.Keys == {k} && r[k] == v
    ensures r == map[k := v]
  {
  }

  /** Two two-row frames of one column `c`, with the same two keys in the same order, join row by row. */
  lemma JoinTwoFrames(fa: Frame, fb: Frame, c: string, suffix: string)
    requires suffix != []
    requires |fa| == 2 && |fb| == 2
    requires fa[0].KeyOf() == fb[0].KeyOf() && fa[1].KeyOf() == fb[1].KeyOf() && fa[0].KeyOf() != fa[1].KeyOf()
    requires fa[0].values.Keys == {c} && fa[1].values.Keys == {c}
    requires fb[0].values.Keys == {c} && fb[1].values.Keys == {c}
    ensures Naming({c}, {c}, "", suffix).Valid()
    ensures Join(fa, fb, Inner, "", suffix) == Ok([Combine(fa[0], fb[0], Naming({c}, {c}, "", suffix)),
                                                   Combine(fa[1], fb[1], Naming({c}, {c}, "", suffix))])
  {
    var nm := Naming({c}, {c}, "", suffix);
    JoinOfOneColumn(fa, fb, c, suffix);
    InnerRowsTwoByTwo(fa, fb, nm);
  }

  /** Two two-row frames of one shared column `c` join into their inner rows under the shared naming. */
  lemma JoinOfOneColumn(fa: Frame, fb: Frame, c: string, suffix: string)
    requires suffix != []
    requires |fa| == 2 && |fb| == 2
    requires fa[0].values.Keys == {c} && fa[1].values.Keys == {c}
    requires fb[0].values.Keys == {c} && fb[1].values.Keys == {c}
    ensures Naming({c}, {c}, "", suffix).Valid()
    ensures Fits(fa, {c}) && Fits(fb, {c})
    ensures Join(fa, fb, Inner, "", suffix) == Ok(InnerRows(fa, fb, Naming({c}, {c}, "", suffix)))
  {
    SingleColumnOfTwo(fa, c);
    SingleColumnOfTwo(fb, c);
    SharedNamingValid(c, suffix);
    JoinRows(fa, fb, Inner, "", suffix);
  }

  /** Two two-row frames with the same two keys in the same order: each left row meets its partner. */
  lemma InnerRowsTwoByTwo(fa: Frame, fb: Frame, nm: Naming)
    requires |fa| == 2 && |fb| == 2
    requires fa[0].KeyOf() == fb[0].KeyOf() && fa[1].KeyOf() == fb[1].KeyOf() && fa[0].KeyOf() != fa[1].KeyOf()
    requires nm.Valid() && Fits(fa, nm.lcols) && Fits(fb, nm.rcols)
    ensures InnerRows(fa, fb, nm) == [Combine(fa[0], fb[0], nm), Combine(fa[1], fb[1], nm)]
  {
    MatchesFirstOnly(fa[0], fb, nm);
    MatchesSecondOnly(fa[1], fb, nm);
    InnerRowsOfTwo(fa, fb, nm);
    var o0, o1 := Combine(fa[0], fb[0], nm), Combine(fa[1], fb[1], nm);
    assert InnerRows(fa, fb, nm) == [o0] + [o1];
    SeqOfTwo(o0, o1);
  }

  /** Two one-row frames, one after the other, form the two-row display. */
  lemma SeqOfTwo(o0: Row, o1: Row)
    ensures [o0] + [o1] == [o0, o1]
  {
  }

  /** The inner rows of a two-row left frame: the matches of its first row, then those of its second. */
  lemma InnerRowsOfTwo(left: Frame, right: Frame, nm: Naming)
    requires |left| == 2 && nm.Valid() && Fits(left, nm.lcols) && Fits(right, nm.rcols)
    ensures InnerRows(left, right, nm) == Matches(left[0], right, nm) + Matches(left[1], right, nm)
  {
    var tail := left[1..];
    assert tail[0] == left[1] && tail[1..] == [];
    assert InnerRows(tail, right, nm) == Matches(left[1], right, nm) + InnerRows(tail[1..], right, nm);
  }

  /**
   * Two datasets with the same keys and a `flow` column merge into one row
   * per key holding the first dataset's `flow` and the second's as `flow_2`.
   */
  lemma MergeTwoFlowDatasets(kind: string, a0: Value, a1: Value, b0: Value, b1: Value)
    ensures InnerMergeAll([
        [Row(101, 0, kind, map["flow" := a0]), Row(101, 1, kind, map["flow" := a1])],
        [Row(101, 0, kind, map["flow" := b0]), Row(101, 1, kind, map["flow" := b1])]])
      == Ok([Row(101, 0, kind, map["flow" := a0, "flow_2" := b0]),
             Row(101, 1, kind, map["flow" := a1, "flow_2" := b1])])
  {
    var fa := [Row(101, 0, kind, map["flow" := a0]), Row(101, 1, kind, map["flow" := a1])];
    var fb := [Row(101, 0, kind, map["flow" := b0]), Row(101, 1, kind, map["flow" := b1])];
    JoinTwoFrames(fa, fb, "flow", "_2");
    CombineShared(fa[0], fb[0], "flow", "_2");
    CombineShared(fa[1], fb[1], "flow", "_2");
    FlowTwo();
    MergeOfTwo(fa, fb);
    SuffixOfSecondFrame();
  }

  /** The suffixed name of the `flow` column of the second frame. */
  lemma FlowTwo()
    ensures "flow" + "_2" == "flow_2"
  {
  }

  /** Merging two frames is one join with the suffix `_2`. */
  lemma MergeOfTwo(fa: Frame, fb: Frame)
    ensures InnerMergeAll([fa, fb]) == Join(fa, fb, Inner, "", Suffix(2))
  {
    assert [fa, fb][..1] == [fa];
  }

  /** A left row whose key only the first of two right rows carries meets that row alone. */
  lemma MatchesFirstOnly(l: Row, right: Frame, nm: Naming)
    requires |right| == 2 && l.KeyOf() == right[0].KeyOf() && l.KeyOf() != right[1].KeyOf()
    requires nm.Valid() && l.values.Keys <= nm.lcols && Fits(right, nm.rcols)
    ensures Matches(l, right, nm) == [Combine(l, right[0], nm)]
  {
    assert right[1..][1..] == [];
    assert Matches(l, right[1..], nm) == [] + Matches(l, right[1..][1..], nm);
  }

  /** A left row whose key only the second of two right rows carries meets that row alone. */
  lemma MatchesSecondOnly(l: Row, right: Frame, nm: Naming)
    requires |right| == 2 && l.KeyOf() != right[0].KeyOf() && l.KeyOf() == right[1].KeyOf()
    requires nm.Valid() && l.values.Keys <= nm.lcols && Fits(right, nm.rcols)
    ensures Matches(l, right, nm) == [Combine(l, right[1], nm)]
  {
    assert right[1..][1..] == [];
    assert right[1..][0] == right[1];
    assert Matches(l, right[1..], nm) == [Combine(l, right[1], nm)] + Matches(l, right[1..][1..], nm);
  }

  /**
   * The re-merge after a map click: `reduce` over the frames with an outer
   * join and pandas' default suffixes `('_x', '_y')`.
   */
  function OuterMergeAll(dfs: seq<Frame>): Merged
    requires |dfs| >= 1
    decreases |dfs|
  {
    if |dfs| == 1 then Ok(dfs[0])
    else
      match OuterMergeAll(dfs[..|dfs| - 1])
      case Ok(acc) => Join(acc, dfs[|dfs| - 1], Outer, "_x", "_y")
      case Err(e) => Err(e)
  }

  /** When the outer re-merge succeeds, its keys are exactly those some frame holds. */
  lemma {:induction false} OuterMergedKeys(dfs: seq<Frame>)
    requires |dfs| >= 1 && OuterMergeAll(dfs).Ok?
    ensures forall k :: k in Keys(OuterMergeAll(dfs).frame) <==> InSome(k, dfs)
  {
    if |dfs| > 1 {
      var init := dfs[..|dfs| - 1];
      var last := dfs[|dfs| - 1];
      assert OuterMergeAll(init).Ok?;
      var acc := OuterMergeAll(init).frame;
      OuterMergedKeys(init);
      OuterJoinKeys(acc, last, "_x", "_y");
      forall k
        ensures k in Keys(OuterMergeAll(dfs).frame) <==> InSome(k, dfs)
      {
        InSomeStep(k, dfs);
      }
    } else {
      forall k
        ensures k in Keys(OuterMergeAll(dfs).frame) <==> InSome(k, dfs)
      {
        InSomeStep(k, dfs);
      }
    }
  }

  // ---------------------------------------------------------------------------
  // The reduced table
  // ---------------------------------------------------------------------------

  /** A row of the reduced table: time, feature identifier and the chosen column family. */
  datatype ReducedRow = ReducedRow(time: int, featureId: int, values: map<string, Value>)

  /**
   * `merged_df[['time', 'feature_id'] + columns starting with column]`: every
   * row, reduced to its time, its feature and the cells whose names start
   * with the chosen column.
   */
  function SelectColumns(f: Frame, column: string): (r: seq<ReducedRow>)
    ensures |r| == |f|
    ensures forall i :: 0 <= i < |f| ==> r[i].time == f[i].time && r[i].featureId == f[i].featureId
    ensures forall i, c :: 0 <= i < |f| ==> (c in r[i].values <==> c in f[i].values && column <= c)
    ensures forall i :: 0 <= i < |f| ==> HoldsCells(f[i].values, r[i].values)
  {
    seq(|f|, i requires 0 <= i < |f| =>
      ReducedRow(f[i].time, f[i].featureId, map c | c in f[i].values && column <= c :: f[i].values[c]))
  }

  /** The reduced table for "flow" shows `flow` and its suffixed copy `flow_2`, not `velocity`. */
  lemma ReducedTableKeepsColumnFamily(kind: string, flow: Value, flow2: Value, velocity: Value)
    ensures SelectColumns([Row(101, 0, kind, map["flow" := flow, "flow_2" := flow2, "velocity" := velocity])], "flow")
         == [ReducedRow(0, 101, map["flow" := flow, "flow_2" := flow2])]
  {
    var cells := map["flow" := flow, "flow_2" := flow2, "velocity" := velocity];
    var r := SelectColumns([Row(101, 0, kind, cells)], "flow");
    assert "flow" <= "flow" + Suffix(2);
    assert "velocity"[0] != "flow"[0];
    assert r[0].values == map["flow" := flow, "flow_2" := flow2];
  }
}
