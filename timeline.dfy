/** The per-series index of the time-series store: an ascending sequence of
    timestamps and a map from each of them to its opaque row, kept in agreement
    by every operation. */
module TickDB {
  import opened Util

  datatype Option<T> = None | Some(value: T)

  /** The rows of the timestamps `ts`, in the order of `ts`. */
  function Project<Row>(ts: seq<nat>, m: map<nat, Row>): (r: seq<Row>)
    requires forall x :: x in ts ==> x in m
    ensures |r| == |ts|
  {
    seq(|ts|, k requires 0 <= k < |ts| => m[ts[k]])
  }

  /** Projecting one more timestamp appends its row. */
  lemma ProjectSnoc<Row>(ts: seq<nat>, x: nat, m: map<nat, Row>)
    requires forall y :: y in ts ==> y in m
    requires x in m
    ensures Project(ts + [x], m) == Project(ts, m) + [m[x]]
  {
  }

  /** A position as given, with a negative one counted back from the end of a
      sequence of length `len`. */
  function FromEnd(i: int, len: nat): int {
    if i < 0 then i + len else i
  }

  class Timeline<Row> {
    /** The timestamps, strictly ascending. */
    var index: seq<nat>
    /** The row of each timestamp. */
    var data: map<nat, Row>

    /** The two containers agree: the index is sorted without duplicates and
        its entries are exactly the keys of the row map. */
    ghost predicate Valid()
      reads this
    {
      Ascending(index) && forall t :: t in data <==> t in index
    }

    constructor ()
      ensures Valid() && index == [] && data == map[]
    {
      index := [];
      data := map[];
    }

    /** Upsert: a present timestamp gets the new row and the index is left
        alone; an absent one is placed at its sorted position. */
    method Insert(ts: nat, row: Row)
      requires Valid()
      modifies this
      ensures Valid()
      ensures data == old(data)[ts := row]
      ensures ts in old(data) ==> index == old(index)
      ensures ts !in old(data) ==>
                |index| == |old(index)| + 1 &&
                exists p :: 0 <= p <= |old(index)| && index == old(index)[..p] + [ts] + old(index)[p..]
      ensures Get(ts) == Some(row)
    {
      var present := ts in data;
      data := data[ts := row];
      if present {
        return;
      }
      index := SortInsert(index, ts);
    }

    /** Exact lookup: a row exactly when the timestamp is in the index. */
    function Get(ts: nat): (r: Option<Row>)
      reads this
      requires Valid()
      ensures r.Some? <==> ts in index
      ensures r.Some? ==> r.value == data[ts]
    {
      if ts in data then Some(data[ts]) else None
    }

    /** Positional access; a negative position counts from the end. */
    function At(i: int): (r: Option<Row>)
      reads this
      requires Valid()
      ensures 0 <= i < |index| ==> r == Some(data[index[i]])
      ensures -|index| <= i < 0 ==> r == Some(data[index[|index| + i]])
      ensures i < -|index| || |index| <= i ==> r == None
    {
      var len := |index|;
      if i < 0 then
        if len + i < 0 then None else Some(data[index[len + i]])
      else if i >= len then None
      else Some(data[index[i]])
    }

    /** Every position has a negative twin counting from the end. */
    lemma AtFromEnd(i: int)
      requires Valid() && 0 <= i < |index|
      ensures At(i - |index|) == At(i) != None
    {
    }

    /** The position found by a search in mode `mode` over the whole index,
        with "not found" always -1. */
    function GetIndexByTime(ts: nat, mode: Mode): (pos: int)
      reads this
      requires Valid()
      ensures -1 <= pos < |index|
      ensures pos >= 0 ==> Satisfies(index[pos], mode, ts)
      ensures pos == -1 <==> forall i :: 0 <= i < |index| ==> !Satisfies(index[i], mode, ts)
      ensures Forward(mode) && pos >= 0 ==> forall i :: 0 <= i < pos ==> !Satisfies(index[i], mode, ts)
      ensures !Forward(mode) && pos >= 0 ==> forall i :: pos < i < |index| ==> !Satisfies(index[i], mode, ts)
      ensures mode == EQ ==> (pos >= 0 <==> ts in data)
    {
      var p := Search(index, ts, mode, 0);
      if p >= |index| then -1 else p
    }

    /** The row of the smallest entry above `ts`. */
    function Gt(ts: nat): (r: Option<Row>)
      reads this
      requires Valid()
      ensures var above := Keep(index, GT, ts);
              r == if above == [] then None else Some(data[above[0]])
    {
      var pos := Search(index, ts, GT, 0);
      KeepBySearch(index, ts, GT);
      if pos >= |index| then None else At(pos)
    }

    /** The row of the smallest entry at or above `ts`. */
    function Ge(ts: nat): (r: Option<Row>)
      reads this
      requires Valid()
      ensures var above := Keep(index, GE, ts);
              r == if above == [] then None else Some(data[above[0]])
    {
      var pos := Search(index, ts, GE, 0);
      KeepBySearch(index, ts, GE);
      if pos >= |index| then None else At(pos)
    }

    /** The row of the largest entry below `ts`. */
    function Lt(ts: nat): (r: Option<Row>)
      reads this
      requires Valid()
      ensures var below := Keep(index, LT, ts);
              r == if below == [] then None else Some(data[below[|below| - 1]])
    {
      var pos := Search(index, ts, LT, 0);
      KeepBySearch(index, ts, LT);
      if pos < 0 then None else At(pos)
    }

    /** The row of the largest entry at or below `ts`. */
    function Le(ts: nat): (r: Option<Row>)
      reads this
      requires Valid()
      ensures var below := Keep(index, LE, ts);
              r == if below == [] then None else Some(data[below[|below| - 1]])
    {
      var pos := Search(index, ts, LE, 0);
      KeepBySearch(index, ts, LE);
      if pos < 0 then None else At(pos)
    }

    /** The loop shared by the positional and the time range: appends the rows
        of positions lo..hi, in ascending order. */
    method AppendRows(lo: nat, hi: int, rows: seq<Row>) returns (out: seq<Row>)
      requires Valid() && lo <= hi + 1 <= |index|
      ensures out == rows + Project(index[lo..hi + 1], data)
    {
      out := rows;
      var i := lo;
      while i <= hi
        invariant lo <= i <= hi + 1
        invariant out == rows + Project(index[lo..i], data)
      {
        SliceSnoc(index, lo, i);
        ProjectSnoc(index[lo..i], index[i], data);
        out := out + [data[index[i]]];
        i := i + 1;
      }
    }

    /** Appends the rows of positions `start..end` (negative bounds count from
        the end, each on its own) when that window lies inside the index. */
    method IndexRange(start: int, end: int, rows: seq<Row>) returns (ok: bool, out: seq<Row>)
      requires Valid()
      ensures ok == (0 <= FromEnd(start, |index|) <= FromEnd(end, |index|) < |index|)
      ensures ok ==> out == rows + Project(index[FromEnd(start, |index|)..FromEnd(end, |index|) + 1], data)
      ensures !ok ==> out == rows
      // corollary of the clauses above for bounds given as positions
      ensures 0 <= start <= end < |index| ==> ok && out == rows + Project(index[start..end + 1], data)
    {
      var s := FromEnd(start, |index|);
      var e := FromEnd(end, |index|);
      if s > e || s < 0 || e >= |index| {
        return false, rows;
      }
      out := AppendRows(s, e, rows);
      ok := true;
    }

    /** The lookup shared by the time range and the range deletion: the
        positions ps..pe of the entries within [start, end], found by a GE
        search for `start` and an LE search for `end` bounded below by it. */
    method Locate(start: nat, end: nat) returns (found: bool, ps: nat, pe: nat)
      requires Valid()
      ensures found <==> Within(index, start, end) != []
      ensures found ==> ps <= pe < |index| && Within(index, start, end) == index[ps..pe + 1]
    {
      if start > end {
        WithinInverted(index, start, end);
        return false, 0, 0;
      }
      var first := BinarySearch(index, start, GE, 0);
      WithinBySearch(index, start, end, first, Search(index, end, LE, first));
      if first >= |index| {
        return false, 0, 0;
      }
      var last := BinarySearch(index, end, LE, first);
      if last < 0 {
        return false, 0, 0;
      }
      return true, first, last;
    }

    /** Appends the rows of the entries within [start, end], in ascending
        order, when there is at least one. */
    method TimeRange(start: nat, end: nat, rows: seq<Row>) returns (ok: bool, out: seq<Row>)
      requires Valid()
      ensures ok <==> Within(index, start, end) != []
      ensures ok ==> out == rows + Project(Within(index, start, end), data)
      ensures !ok ==> out == rows
    {
      var ps, pe;
      ok, ps, pe := Locate(start, end);
      if !ok {
        return false, rows;
      }
      out := AppendRows(ps, pe, rows);
    }

    /** Appends the last `n` rows (or all there are) of the entries below `ts`,
        in ascending order; fails when no entry lies below `ts`. */
    method ShiftLeft(ts: nat, n: int, rows: seq<Row>) returns (ok: bool, out: seq<Row>)
      requires Valid()
      ensures n <= 0 ==> ok && out == rows
      ensures n > 0 ==> (ok <==> Keep(index, LT, ts) != [])
      ensures n > 0 ==> out == rows + Project(Last(Keep(index, LT, ts), n), data)
    {
      if n <= 0 {
        return true, rows;
      }
      var pos := GetIndexByTime(ts, LT);
      if pos == -1 {
        KeepNone(index, LT, ts);
        assert Project(Last(Keep(index, LT, ts), n), data) == [];
        assert rows == rows + Project(Last(Keep(index, LT, ts), n), data);
        return false, rows;
      }
      var from := pos - n + 1;
      if from < 0 {
        from := 0;
      }
      ok, out := IndexRange(from, pos, rows);
      BelowWindow(index, ts, n, pos, from);
    }

    /** Appends the first `n` rows (or all there are) of the entries above `ts`,
        in ascending order; fails when no entry lies above `ts`. */
    method ShiftRight(ts: nat, n: int, rows: seq<Row>) returns (ok: bool, out: seq<Row>)
      requires Valid()
      ensures n <= 0 ==> ok && out == rows
      ensures n > 0 ==> (ok <==> Keep(index, GT, ts) != [])
      ensures n > 0 ==> out == rows + Project(First(Keep(index, GT, ts), n), data)
    {
      if n <= 0 {
        return true, rows;
      }
      var pos := GetIndexByTime(ts, GT);
      if pos == -1 {
        KeepNone(index, GT, ts);
        assert Project(First(Keep(index, GT, ts), n), data) == [];
        assert rows == rows + Project(First(Keep(index, GT, ts), n), data);
        return false, rows;
      }
      var to := pos + n - 1;
      if to >= |index| {
        to := |index| - 1;
      }
      ok, out := IndexRange(pos, to, rows);
      AboveWindow(index, ts, n, pos, to);
    }

    /** The loop of the range deletion: collects the rows of positions
        ps..pe, in ascending order, and erases them from the row map. */
    method TakeRows(ps: nat, pe: int) returns (taken: seq<Row>)
      requires Valid() && ps <= pe + 1 <= |index|
      modifies this`data
      ensures taken == Project(index[ps..pe + 1], old(data))
      ensures forall t :: t in data <==> t in old(data) && t !in index[ps..pe + 1]
      ensures forall t :: t in data ==> data[t] == old(data)[t]
    {
      taken := [];
      var i := ps;
      while i <= pe
        invariant ps <= i <= pe + 1
        invariant taken == Project(index[ps..i], old(data))
        invariant forall t :: t in data <==> t in old(data) && t !in index[ps..i]
        invariant forall t :: t in data ==> data[t] == old(data)[t]
      {
        AscendingBefore(index, ps, i);
        SliceSnoc(index, ps, i);
        ProjectSnoc(index[ps..i], index[i], old(data));
        taken := taken + [data[index[i]]];
        data := data - {index[i]};
        i := i + 1;
      }
    }

    /** Erases positions ps..pe from both containers and returns their rows
        in ascending order. */
    method CutWindow(ps: nat, pe: int) returns (removed: seq<Row>)
      requires Valid() && ps <= pe + 1 <= |index|
      modifies this
      ensures Valid()
      ensures removed == Project(old(index)[ps..pe + 1], old(data))
      ensures index == old(index)[..ps] + old(index)[pe + 1..]
      ensures forall t :: t in data ==> data[t] == old(data)[t]
    {
      removed := TakeRows(ps, pe);
      CutAscending(index, ps, pe + 1);
      index := index[..ps] + index[pe + 1..];
    }

    /** Removes every entry within [start, end] from both containers and
        returns their rows in ascending order; everything else is kept. */
    method DelRange(start: nat, end: nat) returns (removed: seq<Row>)
      requires Valid()
      modifies this
      ensures Valid()
      ensures removed == Project(Within(old(index), start, end), old(data))
      ensures forall t :: t in index <==> t in old(index) && !(start <= t <= end)
      ensures forall t :: t in data ==> data[t] == old(data)[t]
      ensures |index| == |old(index)| - |removed|
      ensures Within(old(index), start, end) == [] ==> index == old(index) && data == old(data)
    {
      var found, ps, pe := Locate(start, end);
      if !found {
        WithinMembers(index, start, end);
        return [];
      }
      CutWithin(index, start, end, ps, pe);
      removed := CutWindow(ps, pe);
    }

    /** Removes `ts` from both containers when present; otherwise nothing changes. */
    method Del(ts: nat)
      requires Valid()
      modifies this
      ensures Valid()
      ensures data == old(data) - {ts}
      ensures forall t :: t in index <==> t in old(index) && t != ts
      ensures |index| == if ts in old(data) then |old(index)| - 1 else |old(index)|
      ensures ts !in old(data) ==> index == old(index)
      ensures Get(ts) == None
    {
      var pos := BinarySearch(index, ts, EQ, 0);
      if pos != -1 {
        CutOne(index, pos);
        index := index[..pos] + index[pos + 1..];
        data := data - {ts};
      } else {
        assert ts !in index;
      }
    }
  }
}
