/** The search primitives a timeline is built on: a bisection search over an
    ascending sequence of timestamps in five comparison modes, sorted insertion,
    and the order-preserving filters that say what a search or a range query
    is meant to find. */
module Util {

  /** The comparison modes of the bisection search. */
  datatype Mode = EQ | GT | GE | LT | LE

  /** Whether the entry `x` qualifies for a search for `t` in mode `mode`. */
  predicate Satisfies(x: nat, mode: Mode, t: nat) {
    match mode
    case EQ => x == t
    case GT => x > t
    case GE => x >= t
    case LT => x < t
    case LE => x <= t
  }

  /** The modes that look for the first qualifying entry (sentinel: one past the end). */
  predicate Forward(mode: Mode) {
    mode == GT || mode == GE
  }

  /** Strictly ascending, hence free of duplicates. */
  ghost predicate Ascending(s: seq<nat>) {
    forall i, j :: 0 <= i < j < |s| ==> s[i] < s[j]
  }

  /** Bisection over positions [lo, hi) for a forward mode: the first position
      whose entry qualifies, or `hi` when none does. */
  function Bisect(s: seq<nat>, t: nat, mode: Mode, lo: nat, hi: nat): (p: nat)
    requires Ascending(s) && Forward(mode) && lo <= hi <= |s|
    ensures lo <= p <= hi
    ensures forall i :: lo <= i < p ==> !Satisfies(s[i], mode, t)
    ensures forall i :: p <= i < hi ==> Satisfies(s[i], mode, t)
    decreases hi - lo
  {
    if lo == hi then lo
    else
      var mid := (lo + hi) / 2;
      if Satisfies(s[mid], mode, t) then Bisect(s, t, mode, lo, mid)
      else Bisect(s, t, mode, mid + 1, hi)
  }

  /** The search of the store, restricted to positions at or above `lo`.
      GT and GE return the smallest qualifying position, or |s| when there is none;
      LT, LE and EQ return the largest qualifying position, or -1 when there is none. */
  function Search(s: seq<nat>, t: nat, mode: Mode, lo: nat): (pos: int)
    requires Ascending(s)
    ensures Forward(mode) ==> 0 <= pos <= |s|
    ensures !Forward(mode) ==> -1 <= pos < |s|
    ensures 0 <= pos < |s| ==> lo <= pos && Satisfies(s[pos], mode, t)
    ensures Forward(mode) ==> forall i :: lo <= i < |s| && i < pos ==> !Satisfies(s[i], mode, t)
    ensures !Forward(mode) ==> forall i :: lo <= i < |s| && pos < i ==> !Satisfies(s[i], mode, t)
  {
    var from := if lo <= |s| then lo else |s|;
    match mode
    case GT => Bisect(s, t, GT, from, |s|)
    case GE => Bisect(s, t, GE, from, |s|)
    case LT =>
      var p := Bisect(s, t, GE, from, |s|);
      if p > from then p - 1 else -1
    case LE =>
      var p := Bisect(s, t, GT, from, |s|);
      if p > from then p - 1 else -1
    case EQ =>
      var p := Bisect(s, t, GE, from, |s|);
      if p < |s| && s[p] == t then p else -1
  }

  /** The search as a loop over a shrinking window [l, h); it computes what
      Search specifies. The backward modes and EQ bisect for the first entry
      past the answer in the matching forward mode. */
  method BinarySearch(s: seq<nat>, t: nat, mode: Mode, lo: nat) returns (pos: int)
    requires Ascending(s)
    ensures pos == Search(s, t, mode, lo)
  {
    var from := if lo <= |s| then lo else |s|;
    var probe := if mode == GT || mode == LE then GT else GE;
    var l, h := from, |s|;
    while l < h
      invariant from <= l <= h <= |s|
      invariant forall i :: from <= i < l ==> !Satisfies(s[i], probe, t)
      invariant forall i :: h <= i < |s| ==> Satisfies(s[i], probe, t)
      decreases h - l
    {
      var mid := (l + h) / 2;
      if Satisfies(s[mid], probe, t) {
        h := mid;
      } else {
        l := mid + 1;
      }
    }
    BisectUnique(s, t, probe, from, |s|, l);
    match mode
    case GT => pos := l;
    case GE => pos := l;
    case LT => pos := if l > from then l - 1 else -1;
    case LE => pos := if l > from then l - 1 else -1;
    case EQ => pos := if l < |s| && s[l] == t then l else -1;
  }

  /** Only one position splits [lo, hi) into a failing and a qualifying part. */
  lemma BisectUnique(s: seq<nat>, t: nat, mode: Mode, lo: nat, hi: nat, p: nat)
    requires Ascending(s) && Forward(mode) && lo <= p <= hi <= |s|
    requires forall i :: lo <= i < p ==> !Satisfies(s[i], mode, t)
    requires forall i :: p <= i < hi ==> Satisfies(s[i], mode, t)
    ensures p == Bisect(s, t, mode, lo, hi)
  {
    var q := Bisect(s, t, mode, lo, hi);
    assert p < hi ==> Satisfies(s[p], mode, t);
    assert q < hi ==> Satisfies(s[q], mode, t);
  }

  /** Inserts `t` at its sorted position; a timestamp already present leaves the
      sequence as it is. */
  function SortInsert(s: seq<nat>, t: nat): (r: seq<nat>)
    requires Ascending(s)
    ensures Ascending(r)
    ensures forall x :: x in r <==> x in s || x == t
    ensures t in s ==> r == s
    ensures t !in s ==> exists p :: 0 <= p <= |s| && r == s[..p] + [t] + s[p..]
  {
    var p := Search(s, t, GE, 0);
    if p < |s| && s[p] == t then s
    else
      assert forall x :: x in s[p..] ==> x > t by {
        forall x | x in s[p..] ensures x > t {
          var k :| 0 <= k < |s[p..]| && s[p..][k] == x;
          assert s[p + k] == x;
        }
      }
      InsertAscending(s, p, t);
      s[..p] + [t] + s[p..]
  }

  /** Placing `t` between the entries below it and those above it keeps the
      sequence ascending and adds exactly `t`. */
  lemma InsertAscending(s: seq<nat>, p: nat, t: nat)
    requires Ascending(s) && p <= |s|
    requires forall i :: 0 <= i < p ==> s[i] < t
    requires forall i :: p <= i < |s| ==> t < s[i]
    ensures Ascending(s[..p] + [t] + s[p..])
    ensures forall x :: x in s[..p] + [t] + s[p..] <==> x in s || x == t
  {
  }

  /** The entries of `s` that qualify for mode `mode` against `t`, in their order. */
  ghost function Keep(s: seq<nat>, mode: Mode, t: nat): (r: seq<nat>)
    ensures forall x :: x in r ==> x in s && Satisfies(x, mode, t)
    ensures |r| <= |s|
    decreases |s|
  {
    if s == [] then []
    else
      var rest := Keep(s[1..], mode, t);
      if Satisfies(s[0], mode, t) then [s[0]] + rest else rest
  }

  /** Keep loses no qualifying entry. */
  lemma {:induction false} KeepMembers(s: seq<nat>, mode: Mode, t: nat)
    ensures forall x :: x in Keep(s, mode, t) <==> x in s && Satisfies(x, mode, t)
    decreases |s|
  {
    if s != [] {
      KeepMembers(s[1..], mode, t);
      assert s == [s[0]] + s[1..];
    }
  }

  /** Keep preserves strict ascending order. */
  lemma {:induction false} KeepAscending(s: seq<nat>, mode: Mode, t: nat)
    requires Ascending(s)
    ensures Ascending(Keep(s, mode, t))
    decreases |s|
  {
    if s != [] {
      var tail := s[1..];
      KeepAscending(tail, mode, t);
      if Satisfies(s[0], mode, t) {
        var rest := Keep(tail, mode, t);
        var r := [s[0]] + rest;
        forall i | 0 < i < |r| ensures s[0] < r[i] {
          assert r[i] == rest[i - 1] && rest[i - 1] in tail;
        }
      }
    }
  }

  /** On an ascending sequence the first kept entry is the least qualifying
      entry and the last kept entry the greatest; nothing is kept exactly when
      nothing qualifies. */
  lemma KeepBounds(s: seq<nat>, mode: Mode, t: nat)
    requires Ascending(s)
    ensures Keep(s, mode, t) == [] <==> forall x :: x in s ==> !Satisfies(x, mode, t)
    ensures Keep(s, mode, t) != [] ==>
              var k := Keep(s, mode, t);
              k[0] in s && Satisfies(k[0], mode, t) &&
              k[|k| - 1] in s && Satisfies(k[|k| - 1], mode, t) &&
              forall x :: x in s && Satisfies(x, mode, t) ==> k[0] <= x <= k[|k| - 1]
  {
    var k := Keep(s, mode, t);
    KeepMembers(s, mode, t);
    KeepAscending(s, mode, t);
    if k != [] {
      assert k[0] in k && k[|k| - 1] in k;
      forall x | x in s && Satisfies(x, mode, t) ensures k[0] <= x <= k[|k| - 1] {
        HeadIsLeast(k, x);
        LastIsGreatest(k, x);
      }
    }
  }

  /** The last entry of an ascending sequence is its greatest member. */
  lemma LastIsGreatest(s: seq<nat>, x: nat)
    requires Ascending(s) && x in s
    ensures x <= s[|s| - 1]
  {
    var k :| 0 <= k < |s| && s[k] == x;
    assert k == |s| - 1 || s[k] < s[|s| - 1];
  }

  /** The entries `x` of `s` with `a <= x <= b`, in their order. */
  ghost function Within(s: seq<nat>, a: nat, b: nat): (r: seq<nat>)
    ensures forall x :: x in r ==> x in s && a <= x <= b
  {
    Keep(Keep(s, GE, a), LE, b)
  }

  /** Exactly the entries within [a, b] are kept, in ascending order. */
  lemma WithinMembers(s: seq<nat>, a: nat, b: nat)
    ensures forall x :: x in Within(s, a, b) <==> x in s && a <= x <= b
    ensures Ascending(s) ==> Ascending(Within(s, a, b))
  {
    KeepMembers(s, GE, a);
    KeepMembers(Keep(s, GE, a), LE, b);
    if Ascending(s) {
      KeepAscending(s, GE, a);
      KeepAscending(Keep(s, GE, a), LE, b);
    }
  }

  /** The first `n` entries of `s`, or all of them when there are fewer. */
  function First(s: seq<nat>, n: nat): seq<nat> {
    if n < |s| then s[..n] else s
  }

  /** The last `n` entries of `s`, or all of them when there are fewer. */
  function Last(s: seq<nat>, n: nat): seq<nat> {
    if n < |s| then s[|s| - n..] else s
  }

  /** When the qualifying entries are exactly those from position `p` on,
      keeping them leaves the suffix s[p..]. */
  lemma {:induction false} KeepSuffix(s: seq<nat>, mode: Mode, t: nat, p: nat)
    requires p <= |s|
    requires forall i :: 0 <= i < p ==> !Satisfies(s[i], mode, t)
    requires forall i :: p <= i < |s| ==> Satisfies(s[i], mode, t)
    ensures Keep(s, mode, t) == s[p..]
    decreases |s|
  {
    if s != [] {
      if p == 0 {
        KeepSuffix(s[1..], mode, t, 0);
        assert s == [s[0]] + s[1..];
      } else {
        KeepSuffix(s[1..], mode, t, p - 1);
        assert s[1..][p - 1..] == s[p..];
      }
    }
  }

  /** When the qualifying entries are exactly those before position `p`,
      keeping them leaves the prefix s[..p]. */
  lemma {:induction false} KeepPrefix(s: seq<nat>, mode: Mode, t: nat, p: nat)
    requires p <= |s|
    requires forall i :: 0 <= i < p ==> Satisfies(s[i], mode, t)
    requires forall i :: p <= i < |s| ==> !Satisfies(s[i], mode, t)
    ensures Keep(s, mode, t) == s[..p]
    decreases |s|
  {
    if s != [] {
      if p == 0 {
        KeepPrefix(s[1..], mode, t, 0);
      } else {
        KeepPrefix(s[1..], mode, t, p - 1);
        assert s[..p] == [s[0]] + s[1..][..p - 1];
      }
    }
  }

  /** Nothing is kept when no entry qualifies. */
  lemma KeepNone(s: seq<nat>, mode: Mode, t: nat)
    requires forall i :: 0 <= i < |s| ==> !Satisfies(s[i], mode, t)
    ensures Keep(s, mode, t) == []
  {
    KeepPrefix(s, mode, t, 0);
  }

  /** On an ascending sequence a forward search splits off the qualifying
      entries as a suffix, and an LT or LE search as a prefix. */
  lemma KeepBySearch(s: seq<nat>, t: nat, mode: Mode)
    requires Ascending(s) && mode != EQ
    ensures Forward(mode) ==> Keep(s, mode, t) == s[Search(s, t, mode, 0)..]
    ensures !Forward(mode) ==> Keep(s, mode, t) == s[..Search(s, t, mode, 0) + 1]
  {
    var p := Search(s, t, mode, 0);
    if Forward(mode) {
      KeepSuffix(s, mode, t, p);
    } else {
      KeepPrefix(s, mode, t, p + 1);
    }
  }

  /** The two chained searches of a time range find exactly the window of
      entries within [a, b]. */
  lemma WithinBySearch(s: seq<nat>, a: nat, b: nat, ps: int, pe: int)
    requires Ascending(s)
    requires ps == Search(s, a, GE, 0) && pe == Search(s, b, LE, ps)
    ensures ps < |s| && pe >= 0 ==> Within(s, a, b) == s[ps..pe + 1]
    ensures !(ps < |s| && pe >= 0) ==> Within(s, a, b) == []
  {
    KeepBySearch(s, a, GE);
    assert Within(s, a, b) == Keep(s[ps..], LE, b);
    if ps < |s| {
      LeSplit(s, b, ps, pe);
      KeepWindow(s, b, ps, pe);
    } else {
      assert s[ps..] == [];
    }
  }

  /** An inverted range holds nothing. */
  lemma WithinInverted(s: seq<nat>, a: nat, b: nat)
    requires a > b
    ensures Within(s, a, b) == []
  {
    var inner := Keep(s, GE, a);
    assert forall i :: 0 <= i < |inner| ==> inner[i] in inner;
    KeepPrefix(inner, LE, b, 0);
  }

  /** When the entries from `ps` on that are at most `b` are those up to
      `pe`, keeping them from the suffix s[ps..] leaves the window up to `pe`. */
  lemma KeepWindow(s: seq<nat>, b: nat, ps: nat, pe: int)
    requires ps < |s| && -1 <= pe < |s| && (pe >= 0 ==> ps <= pe)
    requires forall i :: ps <= i < |s| ==> (s[i] <= b <==> i <= pe)
    ensures pe >= 0 ==> Keep(s[ps..], LE, b) == s[ps..pe + 1]
    ensures pe < 0 ==> Keep(s[ps..], LE, b) == []
  {
    var tail := s[ps..];
    var m: nat := if pe >= 0 then pe - ps + 1 else 0;
    forall i | 0 <= i < |tail| ensures Satisfies(tail[i], LE, b) <==> i < m {
      assert tail[i] == s[ps + i];
    }
    KeepPrefix(tail, LE, b, m);
    if pe >= 0 {
      assert tail[..m] == s[ps..pe + 1];
    }
  }

  /** From `ps` on, the entries of an ascending sequence that are at most `b`
      are exactly those up to the bounded LE search result. */
  lemma LeSplit(s: seq<nat>, b: nat, ps: nat, pe: int)
    requires Ascending(s) && ps < |s| && pe == Search(s, b, LE, ps)
    ensures pe >= 0 ==> ps <= pe
    ensures forall i :: ps <= i < |s| ==> (s[i] <= b <==> i <= pe)
  {
    forall i | ps <= i < |s| && i <= pe ensures s[i] <= b {
      assert i == pe || s[i] < s[pe];
    }
  }

  /** Cutting the window of a range out of an ascending sequence removes
      exactly the entries within the range. */
  lemma CutWithin(s: seq<nat>, a: nat, b: nat, ps: nat, pe: int)
    requires Ascending(s) && ps <= pe + 1 <= |s|
    requires Within(s, a, b) == s[ps..pe + 1]
    ensures Ascending(s[..ps] + s[pe + 1..])
    ensures forall x :: x in s[ps..pe + 1] <==> x in s && a <= x <= b
    ensures forall x :: x in s[..ps] + s[pe + 1..] <==> x in s && !(a <= x <= b)
  {
    WithinMembers(s, a, b);
    CutAscending(s, ps, pe + 1);
  }

  /** The last `n` entries up to position `pos` are the window that starts
      `n - 1` positions earlier, clamped at the start. */
  lemma LastOfPrefix(s: seq<nat>, pos: nat, n: nat, from: nat)
    requires pos < |s| && n > 0
    requires from == if pos + 1 < n then 0 else pos + 1 - n
    ensures Last(s[..pos + 1], n) == s[from..pos + 1]
  {
  }

  /** The first `n` entries from position `pos` on are the window that ends
      `n - 1` positions later, clamped at the end. */
  lemma FirstOfSuffix(s: seq<nat>, pos: nat, n: nat, to: nat)
    requires pos < |s| && n > 0
    requires to == if pos + n - 1 >= |s| then |s| - 1 else pos + n - 1
    ensures First(s[pos..], n) == s[pos..to + 1]
  {
    if n < |s| - pos {
      assert s[pos..][..n] == s[pos..pos + n];
    }
  }

  /** An LT search anchors the window of the last `n` entries below `t`. */
  lemma BelowWindow(s: seq<nat>, t: nat, n: nat, pos: int, from: nat)
    requires Ascending(s) && n > 0
    requires pos == Search(s, t, LT, 0) && 0 <= pos
    requires from == if pos + 1 < n then 0 else pos + 1 - n
    ensures Keep(s, LT, t) != []
    ensures Last(Keep(s, LT, t), n) == s[from..pos + 1]
  {
    KeepBySearch(s, t, LT);
    assert Keep(s, LT, t) == s[..pos + 1];
    LastOfPrefix(s, pos, n, from);
  }

  /** A GT search anchors the window of the first `n` entries above `t`. */
  lemma AboveWindow(s: seq<nat>, t: nat, n: nat, pos: int, to: nat)
    requires Ascending(s) && n > 0
    requires pos == Search(s, t, GT, 0) && 0 <= pos < |s|
    requires to == if pos + n - 1 >= |s| then |s| - 1 else pos + n - 1
    ensures Keep(s, GT, t) != []
    ensures First(Keep(s, GT, t), n) == s[pos..to + 1]
  {
    KeepBySearch(s, t, GT);
    assert Keep(s, GT, t) == s[pos..];
    FirstOfSuffix(s, pos, n, to);
  }

  /** Widening a slice by one position appends that entry. */
  lemma SliceSnoc(s: seq<nat>, lo: nat, i: nat)
    requires lo <= i < |s|
    ensures s[lo..i + 1] == s[lo..i] + [s[i]]
  {
  }

  /** In an ascending sequence every entry before position `i` is smaller than s[i]. */
  lemma AscendingBefore(s: seq<nat>, lo: nat, i: nat)
    requires Ascending(s) && lo <= i < |s|
    ensures forall x :: x in s[lo..i] ==> x < s[i]
  {
    forall x | x in s[lo..i] ensures x < s[i] {
      var k :| 0 <= k < i - lo && s[lo..i][k] == x;
      assert s[lo + k] == x;
    }
  }

  /** An ascending sequence is determined by its members. */
  lemma {:induction false} AscendingUnique(a: seq<nat>, b: seq<nat>)
    requires Ascending(a) && Ascending(b)
    requires forall x :: x in a <==> x in b
    ensures a == b
    decreases |a|
  {
    assert a != [] ==> a[0] in b;
    assert b != [] ==> b[0] in a;
    if a != [] && b != [] {
      // the head of each is the least member of both
      HeadIsLeast(b, a[0]);
      HeadIsLeast(a, b[0]);
      TailSubset(a, b);
      TailSubset(b, a);
      AscendingUnique(a[1..], b[1..]);
      assert a == [a[0]] + a[1..] && b == [b[0]] + b[1..];
    }
  }

  /** The head of an ascending sequence is its least member. */
  lemma HeadIsLeast(s: seq<nat>, x: nat)
    requires Ascending(s) && x in s
    ensures s[0] <= x
  {
    var k :| 0 <= k < |s| && s[k] == x;
    assert k == 0 || s[0] < s[k];
  }

  /** With equal heads, the rest of `a` still lies inside the rest of `b`,
      which never repeats its head. */
  lemma TailSubset(a: seq<nat>, b: seq<nat>)
    requires Ascending(b) && a != [] && b != [] && a[0] == b[0]
    requires forall x :: x in a ==> x in b
    requires forall k :: 1 <= k < |a| ==> a[k] != a[0]
    ensures forall x :: x in a[1..] ==> x in b[1..]
  {
    forall x | x in a[1..] ensures x in b[1..] {
      var k :| 0 <= k < |a| - 1 && a[1..][k] == x;
      assert a[k + 1] == x && x in a;
      var m :| 0 <= m < |b| && b[m] == x;
      assert m != 0 && b[1..][m - 1] == x;
    }
  }

  /** Any ascending sequence holding exactly the members of `s` outside
      s[p..q] is the cut s[..p] + s[q..]. */
  lemma CutDetermined(s: seq<nat>, r: seq<nat>, p: nat, q: nat)
    requires Ascending(s) && Ascending(r) && p <= q <= |s|
    requires forall x :: x in r <==> x in s && x !in s[p..q]
    ensures r == s[..p] + s[q..]
  {
    CutAscending(s, p, q);
    AscendingUnique(r, s[..p] + s[q..]);
  }

  /** Dropping the entry at position `p` of an ascending sequence keeps it
      ascending and loses exactly that entry. */
  lemma CutOne(s: seq<nat>, p: nat)
    requires Ascending(s) && p < |s|
    ensures |s[..p] + s[p + 1..]| == |s| - 1
    ensures Ascending(s[..p] + s[p + 1..])
    ensures forall x :: x in s[..p] + s[p + 1..] <==> x in s && x != s[p]
  {
    CutAscending(s, p, p + 1);
    assert s[p..p + 1] == [s[p]];
  }

  /** Cutting the positions [p, q) out of an ascending sequence keeps it
      ascending and removes exactly the entries of the cut. */
  lemma CutAscending(s: seq<nat>, p: nat, q: nat)
    requires Ascending(s) && p <= q <= |s|
    ensures Ascending(s[..p] + s[q..])
    ensures forall x :: x in s[..p] + s[q..] <==> x in s && x !in s[p..q]
  {
  }
}
