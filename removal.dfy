/**
 * What popping from a list while enumerating it does.
 *
 * The enumeration keeps its own index and advances it after a `pop`, so
 * the element that shifts into the vacated slot is not visited: after a
 * removal the next element is skipped, and is therefore kept.  Given for
 * every element whether the test that triggers the `pop` holds of it
 * (`hit`), element `k` is removed exactly when it is hit and its
 * predecessor was not removed.
 */
module Removal {

  /** Whether the element at position `k` is popped by the scan. */
  function Removed(hit: seq<bool>, k: nat): (r: bool)
    requires k < |hit|
    ensures r ==> hit[k]
    ensures hit[k] && (k == 0 || !hit[k - 1]) ==> r
    decreases k
  {
    hit[k] && (k == 0 || !Removed(hit, k - 1))
  }

  /** Whether the scan visits position `k` at all (and so runs the loop body on it). */
  predicate Visited(hit: seq<bool>, k: nat): (v: bool)
    requires k < |hit|
    ensures k == 0 ==> v
    ensures k > 0 && !hit[k - 1] ==> v
  {
    k == 0 || !Removed(hit, k - 1)
  }

  /** For every position, whether it survives the scan. */
  function Survivors(hit: seq<bool>): (m: seq<bool>)
    ensures |m| == |hit|
    ensures forall k :: 0 <= k < |hit| ==> m[k] == !Removed(hit, k)
  {
    seq(|hit|, k requires 0 <= k < |hit| => !Removed(hit, k))
  }

  /** For every position, whether the scan pops it. */
  function Gone(hit: seq<bool>): (m: seq<bool>)
    ensures |m| == |hit|
    ensures forall k :: 0 <= k < |hit| ==> m[k] == Removed(hit, k)
  {
    seq(|hit|, k requires 0 <= k < |hit| => Removed(hit, k))
  }

  /** The positions below `n` that `m` marks, in increasing order. */
  function Where(m: seq<bool>, n: nat): (ps: seq<nat>)
    requires n <= |m|
    ensures |ps| <= n
    ensures forall i :: 0 <= i < |ps| ==> ps[i] < n && m[ps[i]]
    ensures forall i, j :: 0 <= i < j < |ps| ==> ps[i] < ps[j]
  {
    if n == 0 then [] else Where(m, n - 1) + (if m[n - 1] then [n - 1] else [])
  }

  /** Every marked position below `n` is listed. */
  lemma {:induction false} WhereComplete(m: seq<bool>, n: nat, k: nat)
    requires n <= |m| && k < n && m[k]
    ensures k in Where(m, n)
  {
    if k < n - 1 {
      WhereComplete(m, n - 1, k);
    }
  }

  /** The elements of `s` at positions `ps`. */
  function Pick<T>(s: seq<T>, ps: seq<nat>): (r: seq<T>)
    requires forall i :: 0 <= i < |ps| ==> ps[i] < |s|
    ensures |r| == |ps|
    ensures forall i :: 0 <= i < |ps| ==> r[i] == s[ps[i]]
  {
    seq(|ps|, i requires 0 <= i < |ps| => s[ps[i]])
  }

  /** The elements of `s` that `m` marks, in their order. */
  function Select<T>(s: seq<T>, m: seq<bool>): seq<T>
    requires |m| == |s|
  {
    Pick(s, Where(m, |s|))
  }

  /** What is left of `s` after the scan. */
  function Keep<T>(s: seq<T>, hit: seq<bool>): (r: seq<T>)
    requires |hit| == |s|
    ensures |r| <= |s| && forall x :: x in r ==> x in s
  {
    SelectIsSubseq(s, Survivors(hit));
    SubseqInherits(Select(s, Survivors(hit)), s);
    Select(s, Survivors(hit))
  }

  /** How many elements survive; the same for every list scanned with `hit`. */
  function KeptCount(hit: seq<bool>): nat
  {
    |Where(Survivors(hit), |hit|)|
  }

  predicate Distinct<T(==)>(s: seq<T>)
  {
    forall i, j :: 0 <= i < j < |s| ==> s[i] != s[j]
  }

  /** `idx` lists, in increasing order, positions of `b` that spell out `a`. */
  ghost predicate Embeds<T>(idx: seq<nat>, a: seq<T>, b: seq<T>)
  {
    |idx| == |a| &&
    (forall i :: 0 <= i < |idx| ==> idx[i] < |b| && a[i] == b[idx[i]]) &&
    (forall i, j :: 0 <= i < j < |idx| ==> idx[i] < idx[j])
  }

  /** `a` is `b` with some elements removed, the rest in their order. */
  ghost predicate IsSubseq<T>(a: seq<T>, b: seq<T>)
  {
    exists idx :: Embeds(idx, a, b)
  }

  lemma SelectIsSubseq<T>(s: seq<T>, m: seq<bool>)
    requires |m| == |s|
    ensures IsSubseq(Select(s, m), s)
  {
    assert Embeds(Where(m, |s|), Select(s, m), s);
  }

  /** The scan keeps the elements at the surviving positions, whatever the list. */
  lemma KeepEmbeds<T>(s: seq<T>, hit: seq<bool>)
    requires |hit| == |s|
    ensures Embeds(Where(Survivors(hit), |s|), Keep(s, hit), s)
  {
  }

  lemma KeepIsSubseq<T>(s: seq<T>, hit: seq<bool>)
    requires |hit| == |s|
    ensures IsSubseq(Keep(s, hit), s)
    ensures |Keep(s, hit)| == KeptCount(hit)
  {
    SelectIsSubseq(s, Survivors(hit));
  }

  /** The positions in `c` of the positions `i1` in `b`, when `b` sits in `c` at `i2`. */
  function Compose(i1: seq<nat>, i2: seq<nat>): (i3: seq<nat>)
    requires forall i :: 0 <= i < |i1| ==> i1[i] < |i2|
    ensures |i3| == |i1| && forall i :: 0 <= i < |i1| ==> i3[i] == i2[i1[i]]
  {
    seq(|i1|, i requires 0 <= i < |i1| => i2[i1[i]])
  }

  lemma EmbedsCompose<T>(i1: seq<nat>, a: seq<T>, b: seq<T>, i2: seq<nat>, c: seq<T>)
    requires Embeds(i1, a, b) && Embeds(i2, b, c)
    ensures Embeds(Compose(i1, i2), a, c)
  {
  }

  /** Removing elements keeps no duplicates and brings in nothing new. */
  lemma SubseqInherits<T>(a: seq<T>, b: seq<T>)
    requires IsSubseq(a, b)
    ensures Distinct(b) ==> Distinct(a)
    ensures forall x :: x in a ==> x in b
    ensures |a| <= |b|
  {
    var idx :| Embeds(idx, a, b);
    forall x | x in a ensures x in b {
      var i :| 0 <= i < |a| && a[i] == x;
      assert b[idx[i]] == x;
    }
    if |a| > |b| {
      // the positions 0 <= idx[0] < idx[1] < ... < idx[|a|-1] < |b| are too many
      IncreasingBound(idx, |b|);
    }
  }

  lemma {:induction false} IncreasingBound(idx: seq<nat>, n: nat)
    requires forall i :: 0 <= i < |idx| ==> idx[i] < n
    requires forall i, j :: 0 <= i < j < |idx| ==> idx[i] < idx[j]
    ensures |idx| <= n
  {
    if |idx| > 0 {
      var last := idx[|idx| - 1];
      IncreasingBound(idx[..|idx| - 1], last);
    }
  }

  /** In a list without duplicates, an element is selected exactly when marked. */
  lemma SelectMember<T>(s: seq<T>, m: seq<bool>, k: nat)
    requires |m| == |s| && Distinct(s) && k < |s|
    ensures s[k] in Select(s, m) <==> m[k]
  {
    var ps := Where(m, |s|);
    if m[k] {
      WhereComplete(m, |s|, k);
      var i :| 0 <= i < |ps| && ps[i] == k;
      assert Select(s, m)[i] == s[k];
    }
    if s[k] in Select(s, m) {
      var i :| 0 <= i < |ps| && Select(s, m)[i] == s[k];
      assert s[ps[i]] == s[k];
    }
  }

  /** In a list without duplicates, the selected elements are exactly the marked ones. */
  lemma SelectMembers<T>(s: seq<T>, m: seq<bool>)
    requires |m| == |s|
    ensures Distinct(s) ==> forall k :: 0 <= k < |s| ==> (s[k] in Select(s, m) <==> m[k])
  {
    if Distinct(s) {
      forall k | 0 <= k < |s|
        ensures s[k] in Select(s, m) <==> m[k]
      {
        SelectMember(s, m, k);
      }
    }
  }

  /** A list without duplicates keeps an element exactly when the scan does not pop it. */
  lemma KeepMember<T>(s: seq<T>, hit: seq<bool>, k: nat)
    requires |hit| == |s| && Distinct(s) && k < |s|
    ensures s[k] in Keep(s, hit) <==> !Removed(hit, k)
  {
    SelectMember(s, Survivors(hit), k);
  }

  /** Only elements for which the test holds are removed. */
  lemma RemovedOnlyIfHit(hit: seq<bool>, k: nat)
    requires k < |hit| && Removed(hit, k)
    ensures hit[k]
  {
  }

  /** The element right after a popped one is skipped: kept, whatever its test says. */
  lemma ShiftedElementSurvives(hit: seq<bool>, k: nat)
    requires k + 1 < |hit| && Removed(hit, k)
    ensures !Visited(hit, k + 1) && !Removed(hit, k + 1)
  {
  }

  /** When the test holds of nothing, nothing is removed. */
  lemma NoHitKeepsAll<T>(s: seq<T>, hit: seq<bool>)
    requires |hit| == |s|
    requires forall k :: 0 <= k < |hit| ==> !hit[k]
    ensures Keep(s, hit) == s
  {
    WhereAll(Survivors(hit), |s|);
  }

  lemma {:induction false} WhereAll(m: seq<bool>, n: nat)
    requires n <= |m|
    requires forall k :: 0 <= k < n ==> m[k]
    ensures Where(m, n) == seq(n, k requires 0 <= k < n => k)
  {
    if n > 0 {
      WhereAll(m, n - 1);
    }
  }

  /** Two adjacent elements that both fail the test: only the first is removed. */
  lemma AdjacentHitsKeepSecond<T>(a: T, b: T)
    ensures Keep([a, b], [true, true]) == [b]
  {
    var hit := [true, true];
    assert Removed(hit, 0) && !Removed(hit, 1);
    assert Survivors(hit) == [false, true];
    assert Where([false, true], 2) == [1] by {
      assert Where([false, true], 1) == [];
    }
  }

  /** A marked last element stays last. */
  lemma SelectLast<T>(s: seq<T>, m: seq<bool>)
    requires |m| == |s| && |s| > 0 && m[|s| - 1]
    ensures |Select(s, m)| > 0 && Select(s, m)[|Select(s, m)| - 1] == s[|s| - 1]
  {
    var ps := Where(m, |s|);
    assert ps == Where(m, |s| - 1) + [|s| - 1];
  }

  lemma PrefixAll<T>(s: seq<T>)
    ensures s[..|s|] == s
  {
  }

  /** A prefix one longer is the prefix followed by the next element. */
  lemma PrefixSnoc<T>(s: seq<T>, i: nat)
    requires i < |s|
    ensures s[..i + 1] == s[..i] + [s[i]]
  {
  }

  /** The scan of a one-element-longer prefix, as the imperative loop extends it. */
  lemma PickExtend<T>(s: seq<T>, m: seq<bool>, n: nat)
    requires n < |m| && |m| == |s|
    ensures m[n] ==> Pick(s, Where(m, n + 1)) == Pick(s, Where(m, n)) + [s[n]]
    ensures !m[n] ==> Pick(s, Where(m, n + 1)) == Pick(s, Where(m, n))
  {
    if !m[n] {
      assert Where(m, n + 1) == Where(m, n);
    }
  }

  /**
   * The list while the scan is under way: the survivors among the first
   * `j` elements, then the elements not yet reached.
   */
  function Partial<T>(s: seq<T>, m: seq<bool>, j: nat): (r: seq<T>)
    requires |m| == |s| && j <= |s|
    ensures |r| == |Where(m, j)| + |s| - j
  {
    Pick(s, Where(m, j)) + s[j..]
  }

  /**
   * One step of the scan at element `j`, which sits at position
   * `|Where(m, j)|` of the partial list: keeping it changes nothing,
   * popping it removes exactly that position.
   */
  lemma PartialStep<T>(s: seq<T>, m: seq<bool>, j: nat)
    requires |m| == |s| && j < |s|
    ensures var cur := Partial(s, m, j);
      var i := |Where(m, j)|;
      i < |cur| && cur[i] == s[j] &&
      |Where(m, j + 1)| == (if m[j] then i + 1 else i) &&
      Partial(s, m, j + 1) == (if m[j] then cur else cur[..i] + cur[i + 1..])
  {
    var cur := Partial(s, m, j);
    var i := |Where(m, j)|;
    var ps := Where(m, j);
    assert Where(m, j + 1) == ps + (if m[j] then [j] else []);
    if m[j] {
      assert Pick(s, ps + [j]) == Pick(s, ps) + [s[j]];
      assert s[j..] == [s[j]] + s[j + 1..];
    } else {
      assert cur[..i] + cur[i + 1..] == Pick(s, ps) + s[j + 1..];
    }
  }

  lemma SelectSnoc<T>(s: seq<T>, m: seq<bool>, x: T, b: bool)
    requires |m| == |s|
    ensures Select(s + [x], m + [b]) == Select(s, m) + (if b then [x] else [])
  {
    var ps := Where(m, |s|);
    assert Where(m + [b], |s|) == ps by {
      WhereSame(m, m + [b], |s|);
    }
    assert Where(m + [b], |s| + 1) == ps + (if b then [|s|] else []);
  }

  /**
   * The elements of `s` that `m` marks, gathered one element at a time as
   * a loop that appends them does.
   */
  function Gather<T>(s: seq<T>, m: seq<bool>): (r: seq<T>)
    requires |m| == |s|
    decreases |s|
  {
    if s == [] then []
    else Gather(s[..|s| - 1], m[..|s| - 1]) + (if m[|s| - 1] then [s[|s| - 1]] else [])
  }

  lemma GatherSnoc<T>(s: seq<T>, m: seq<bool>, x: T, b: bool)
    requires |m| == |s|
    ensures Gather(s + [x], m + [b]) == Gather(s, m) + (if b then [x] else [])
  {
    assert (s + [x])[..|s|] == s && (m + [b])[..|s|] == m;
  }

  /** Gathering one at a time picks the same elements as `Select`. */
  lemma {:induction false} GatherIsSelect<T>(s: seq<T>, m: seq<bool>)
    requires |m| == |s|
    ensures Gather(s, m) == Select(s, m)
    decreases |s|
  {
    if s != [] {
      var n := |s| - 1;
      GatherIsSelect(s[..n], m[..n]);
      SelectSnoc(s[..n], m[..n], s[n], m[n]);
      assert s[..n] + [s[n]] == s && m[..n] + [m[n]] == m;
    }
  }

  /** `Where` below `n` reads only the first `n` marks. */
  lemma {:induction false} WhereSame(m: seq<bool>, m': seq<bool>, n: nat)
    requires n <= |m| && n <= |m'| && m[..n] == m'[..n]
    ensures Where(m, n) == Where(m', n)
  {
    if n > 0 {
      assert m[n - 1] == m[..n][n - 1] == m'[n - 1];
      assert m[..n - 1] == m[..n][..n - 1];
      assert m'[..n - 1] == m'[..n][..n - 1];
      WhereSame(m, m', n - 1);
    }
  }

  /** Unmarking the `i`-th marked position drops it from the list of positions. */
  lemma {:induction false} WhereClear(m: seq<bool>, n: nat, i: nat)
    requires n <= |m| && i < |Where(m, n)|
    ensures Where(m[Where(m, n)[i] := false], n) == Where(m, n)[..i] + Where(m, n)[i + 1..]
  {
    var ps := Where(m, n);
    var j := ps[i];
    var m' := m[j := false];
    var prev := Where(m, n - 1);
    if i < |prev| {
      assert prev[i] == j;
      WhereClear(m, n - 1, i);
      assert Where(m', n - 1) == prev[..i] + prev[i + 1..];
      assert m'[n - 1] == m[n - 1] by {
        assert j < n - 1;
      }
      assert ps == prev + (if m[n - 1] then [n - 1] else []);
    } else {
      assert j == n - 1 && ps == prev + [n - 1];
      WhereSame(m, m', n - 1);
    }
  }

  /** Removing one selected element by position leaves the selection with its mark cleared. */
  lemma SelectClear<T>(s: seq<T>, m: seq<bool>, i: nat)
    requires |m| == |s| && i < |Select(s, m)|
    ensures var j := Where(m, |s|)[i];
      j < |s| && Select(s, m)[i] == s[j] &&
      Select(s, m[j := false]) == Select(s, m)[..i] + Select(s, m)[i + 1..]
  {
    var ps := Where(m, |s|);
    WhereClear(m, |s|, i);
    PickRemove(s, ps, i);
  }

  lemma PickRemove<T>(s: seq<T>, ps: seq<nat>, i: nat)
    requires (forall k :: 0 <= k < |ps| ==> ps[k] < |s|) && i < |ps|
    ensures Pick(s, ps[..i] + ps[i + 1..]) == Pick(s, ps)[..i] + Pick(s, ps)[i + 1..]
  {
  }

  /** The first position of `x` in `s`, where `list.remove` finds it. */
  function IndexOf<T(==)>(s: seq<T>, x: T): (k: nat)
    requires x in s
    ensures k < |s| && s[k] == x && x !in s[..k]
  {
    if s[0] == x then 0
    else
      var k := 1 + IndexOf(s[1..], x);
      assert s[..k] == [s[0]] + s[1..][..k - 1];
      k
  }

  /** `s` without the first occurrence of `x`, as `list.remove(x)` leaves it. */
  function RemoveFirst<T(==)>(s: seq<T>, x: T): (r: seq<T>)
    requires x in s
    ensures |r| == |s| - 1 && multiset(r) + multiset{x} == multiset(s)
    ensures forall i :: 0 <= i < |r| ==> r[i] == if i < IndexOf(s, x) then s[i] else s[i + 1]
  {
    var k := IndexOf(s, x);
    assert s == s[..k] + [x] + s[k + 1..];
    s[..k] + s[k + 1..]
  }

  /** For every element of `q`, whether it is missing from `xs`. */
  function Absent<T(==)>(q: seq<T>, xs: seq<T>): (m: seq<bool>)
    ensures |m| == |q| && forall k :: 0 <= k < |q| ==> m[k] == (q[k] !in xs)
  {
    seq(|q|, k requires 0 <= k < |q| => q[k] !in xs)
  }

  /**
   * In a list without duplicates, removing (the first occurrence of) a
   * selected element leaves the selection with that element's mark
   * cleared.
   */
  lemma RemoveSelected<T>(q: seq<T>, keep: seq<bool>, k: nat)
    requires |keep| == |q| && Distinct(q) && k < |q| && keep[k]
    ensures q[k] in Select(q, keep)
    ensures RemoveFirst(Select(q, keep), q[k]) == Select(q, keep[k := false])
  {
    var ps := Where(keep, |q|);
    WhereComplete(keep, |q|, k);
    var i :| 0 <= i < |ps| && ps[i] == k;
    SelectClear(q, keep, i);
    SelectIsSubseq(q, keep);
    SubseqInherits(Select(q, keep), q);
    var sel := Select(q, keep);
    assert sel[i] == q[k];
    DistinctIndex(sel, IndexOf(sel, q[k]), i);
  }

  /** In a list without duplicates, equal elements sit at the same position. */
  lemma DistinctIndex<T>(s: seq<T>, i: nat, j: nat)
    requires Distinct(s) && i < |s| && j < |s| && s[i] == s[j]
    ensures i == j
  {
  }

  /** Marking everything selects everything. */
  lemma SelectAll<T>(s: seq<T>, m: seq<bool>)
    requires |m| == |s| && forall k :: 0 <= k < |m| ==> m[k]
    ensures Select(s, m) == s
  {
    WhereAll(m, |s|);
  }

  /** Removing from `q` each element of `xs`, one at a time, keeps those absent from `xs`. */
  lemma AbsentStep<T>(q: seq<T>, xs: seq<T>, j: nat, k: nat)
    requires Distinct(q) && j < |xs| && k < |q| && q[k] == xs[j]
    ensures Absent(q, xs[..j + 1]) == Absent(q, xs[..j])[k := false]
  {
    assert xs[..j + 1] == xs[..j] + [xs[j]];
  }

  /** In a list without duplicates, the elements not among those selected are the unselected ones. */
  lemma AbsentSelected<T>(s: seq<T>, m: seq<bool>)
    requires |m| == |s| && Distinct(s)
    ensures forall k :: 0 <= k < |s| ==> Absent(s, Select(s, m))[k] == !m[k]
  {
    forall k | 0 <= k < |s|
      ensures Absent(s, Select(s, m))[k] == !m[k]
    {
      SelectMember(s, m, k);
    }
  }

  /**
   * After `extra` (at most one new element) is appended to `s`, removing
   * the elements `m` selects from `s` leaves those `n` selects, the
   * complement, followed by `extra`.
   */
  lemma KeptAfter<T>(s: seq<T>, extra: seq<T>, m: seq<bool>, n: seq<bool>)
    requires |m| == |s| && |n| == |s| && Distinct(s) && |extra| <= 1
    requires forall x :: x in extra ==> x !in s
    requires forall k :: 0 <= k < |s| ==> n[k] == !m[k]
    ensures Distinct(s + extra)
    ensures Distinct(Select(s, m)) && forall x :: x in Select(s, m) ==> x in s + extra
    ensures Select(s + extra, Absent(s + extra, Select(s, m))) == Select(s, n) + extra
  {
    SelectIsSubseq(s, m);
    SubseqInherits(Select(s, m), s);
    AbsentSelected(s, m);
    var q := s + extra;
    var a := Absent(q, Select(s, m));
    if extra == [] {
      assert q == s;
      assert a == n;
    } else {
      forall i, j | 0 <= i < j < |q|
        ensures q[i] != q[j]
      {
        assert q[i] == s[i];
        if j == |s| {
          assert q[j] == extra[0] && extra[0] in extra;
        } else {
          assert q[j] == s[j];
        }
      }
      assert a == n + [true];
      SelectSnoc(s, n, extra[0], true);
    }
  }

  /**
   * `q` after removing, one at a time, the first occurrence of each
   * element of `xs`: what remains is the elements of `q` not in `xs`, in
   * their order.
   */
  method RemoveEach<T(==)>(q: seq<T>, xs: seq<T>) returns (r: seq<T>)
    requires Distinct(q) && Distinct(xs) && forall x :: x in xs ==> x in q
    ensures r == Select(q, Absent(q, xs))
  {
    r := q;
    var j := 0;
    SelectAll(q, Absent(q, xs[..0]));
    while j < |xs|
      invariant 0 <= j <= |xs|
      invariant r == Select(q, Absent(q, xs[..j]))
    {
      var x := xs[j];
      ghost var k := IndexOf(q, x);
      assert x !in xs[..j];
      RemoveSelected(q, Absent(q, xs[..j]), k);
      AbsentStep(q, xs, j, k);
      r := RemoveFirst(r, x);
      j := j + 1;
    }
    PrefixAll(xs);
  }

  /** The next position the scan visits after visiting `j`: one further after a pop. */
  function Next(hit: seq<bool>, j: nat): nat
    requires j < |hit|
  {
    if hit[j] && j + 1 < |hit| then j + 2 else j + 1
  }

  /**
   * The scan visits `j`, which sits at position `i` of the partial list.
   * If its test holds, popping position `i` leaves the partial list of
   * `Next(hit, j)` with the same index `i + 1` still to advance to; if
   * not, the partial list is unchanged and the scan moves on.
   */
  lemma PopStep<T>(s: seq<T>, hit: seq<bool>, j: nat)
    requires |hit| == |s| && j < |s| && Visited(hit, j)
    ensures var sv := Survivors(hit);
      var cur := Partial(s, sv, j);
      var i := |Where(sv, j)|;
      var n := Next(hit, j);
      i < |cur| && cur[i] == s[j] && n <= |s| && (n < |s| ==> Visited(hit, n)) &&
      (hit[j] ==> cur[..i] + cur[i + 1..] == Partial(s, sv, n) &&
                  (i + 1 == |Where(sv, n)| || (n == |s| && i + 1 == |Where(sv, n)| + 1))) &&
      (!hit[j] ==> cur == Partial(s, sv, n) && i + 1 == |Where(sv, n)|)
  {
    var sv := Survivors(hit);
    PartialStep(s, sv, j);
    if hit[j] && j + 1 < |s| {
      PartialStep(s, sv, j + 1);
    }
  }

  /** The popped elements, listed as the scan pops them. */
  lemma GoneStep<T>(s: seq<T>, hit: seq<bool>, j: nat, gone: seq<bool>)
    requires |hit| == |s| && j < |s| && Visited(hit, j)
    requires |gone| == |hit| && forall k :: 0 <= k < |hit| ==> gone[k] == Removed(hit, k)
    ensures hit[j] ==> Pick(s, Where(gone, Next(hit, j))) == Pick(s, Where(gone, j)) + [s[j]]
    ensures !hit[j] ==> Pick(s, Where(gone, Next(hit, j))) == Pick(s, Where(gone, j))
  {
    if hit[j] {
      GonePop(s, hit, j, gone);
    } else {
      PickExtend(s, gone, j);
    }
  }

  /** A popped element is the next one listed; the element after it is skipped and stays. */
  lemma GonePop<T>(s: seq<T>, hit: seq<bool>, j: nat, gone: seq<bool>)
    requires |hit| == |s| && |gone| == |hit| && j < |s| && hit[j]
    requires gone[j] && (j + 1 < |s| ==> !gone[j + 1])
    ensures Pick(s, Where(gone, Next(hit, j))) == Pick(s, Where(gone, j)) + [s[j]]
  {
    PickExtend(s, gone, j);
    if j + 1 < |s| {
      PickExtend(s, gone, j + 1);
    }
  }

  /**
   * The scan of `s` has dealt with its first `j` elements and `cur` is
   * the list as it now stands; the next element to visit is at index
   * `i` of `cur`, or the index is one past the end after the last
   * element was popped.
   */
  ghost predicate Scanned<T>(s: seq<T>, hit: seq<bool>, j: nat, i: nat, cur: seq<T>)
  {
    |hit| == |s| && j <= |s| && cur == Partial(s, Survivors(hit), j) &&
    (i == |Where(Survivors(hit), j)| || (j == |s| && i == |Where(Survivors(hit), j)| + 1)) &&
    (j < |s| ==> Visited(hit, j))
  }

  lemma ScannedStart<T>(s: seq<T>, hit: seq<bool>)
    requires |hit| == |s|
    ensures Scanned(s, hit, 0, 0, s)
  {
  }

  /** One turn of the loop: `cur[i]` is element `j`; it is popped exactly when its test holds. */
  lemma ScannedStep<T>(s: seq<T>, hit: seq<bool>, j: nat, i: nat, cur: seq<T>)
    requires Scanned(s, hit, j, i, cur) && i < |cur|
    ensures j < |s| && cur[i] == s[j]
    ensures hit[j] ==> Scanned(s, hit, Next(hit, j), i + 1, cur[..i] + cur[i + 1..])
    ensures !hit[j] ==> Scanned(s, hit, Next(hit, j), i + 1, cur)
  {
    PopStep(s, hit, j);
  }

  /** When the index runs off the end, the list is what the scan keeps. */
  lemma ScannedDone<T>(s: seq<T>, hit: seq<bool>, j: nat, i: nat, cur: seq<T>)
    requires Scanned(s, hit, j, i, cur) && i >= |cur|
    ensures j == |s| && cur == Keep(s, hit)
  {
  }

  /**
   * The scan run from where it stands: `cur` is the list, `i` the
   * enumeration index and `j` the original position of `cur[i]`.  This is
   * the loop itself, one turn per call; `Rest` is the list it leaves and
   * `Dropped` the elements it pops, in order.
   */
  function Rest<T>(hit: seq<bool>, j: nat, i: nat, cur: seq<T>): (r: seq<T>)
    ensures multiset(r) + multiset(Dropped(hit, j, i, cur)) == multiset(cur)
    decreases |cur| - i
  {
    if i >= |cur| || j >= |hit| then cur
    else if hit[j] then
      var cur' := cur[..i] + cur[i + 1..];
      assert cur == cur[..i] + [cur[i]] + cur[i + 1..];
      assert multiset(cur) == multiset(cur') + multiset{cur[i]};
      assert Dropped(hit, j, i, cur) == [cur[i]] + Dropped(hit, Next(hit, j), i + 1, cur');
      Rest(hit, Next(hit, j), i + 1, cur')
    else
      Rest(hit, Next(hit, j), i + 1, cur)
  }

  function Dropped<T>(hit: seq<bool>, j: nat, i: nat, cur: seq<T>): (d: seq<T>)
    ensures |d| <= |cur| && forall x :: x in d ==> x in cur
    decreases |cur| - i
  {
    if i >= |cur| || j >= |hit| then []
    else if hit[j] then [cur[i]] + Dropped(hit, Next(hit, j), i + 1, cur[..i] + cur[i + 1..])
    else Dropped(hit, Next(hit, j), i + 1, cur)
  }

  /**
   * From index `i` on, `cur` still holds the elements of `s` from the
   * original position `j` on; or the last element was just popped and
   * the index is one past the end.
   */
  ghost predicate Aligned<T>(cur: seq<T>, s: seq<T>, i: nat, j: nat)
  {
    j <= |s| && (i <= |cur| ==> cur[i..] == s[j..]) && (i > |cur| ==> i == |cur| + 1 && j == |s|)
  }

  /** One turn of the loop keeps the list aligned with the original. */
  lemma AlignedStep<T>(cur: seq<T>, s: seq<T>, hit: seq<bool>, i: nat, j: nat)
    requires Aligned(cur, s, i, j) && |hit| == |s| && i < |cur|
    ensures j < |s| && cur[i] == s[j]
    ensures hit[j] ==> Aligned(cur[..i] + cur[i + 1..], s, i + 1, Next(hit, j))
    ensures !hit[j] ==> Aligned(cur, s, i + 1, Next(hit, j))
  {
    assert cur[i..][0] == cur[i];
    if hit[j] && j + 1 < |s| {
      assert (cur[..i] + cur[i + 1..])[i + 1..] == cur[i + 2..];
      assert cur[i + 2..] == cur[i..][2..];
    } else if !hit[j] {
      assert cur[i + 1..] == cur[i..][1..];
    }
  }

  /** The scan only ever stands at a position it visits. */
  lemma VisitNext(hit: seq<bool>, j: nat)
    requires j < |hit| && Visited(hit, j)
    ensures Next(hit, j) < |hit| ==> Visited(hit, Next(hit, j))
  {
  }

  lemma {:induction false} ScannedRest<T>(s: seq<T>, hit: seq<bool>, j: nat, i: nat, cur: seq<T>)
    requires Scanned(s, hit, j, i, cur)
    ensures Rest(hit, j, i, cur) == Keep(s, hit)
    decreases |cur| - i
  {
    if i < |cur| {
      ScannedStep(s, hit, j, i, cur);
      if hit[j] {
        ScannedRest(s, hit, Next(hit, j), i + 1, cur[..i] + cur[i + 1..]);
      } else {
        ScannedRest(s, hit, Next(hit, j), i + 1, cur);
      }
    } else {
      ScannedDone(s, hit, j, i, cur);
    }
  }

  /**
   * Midway through the loop, `cur` stands as the loop left it: aligned
   * with the original list and with the rest of the loop still to leave
   * what the whole loop leaves.
   */
  ghost predicate Tracks<T>(cur: seq<T>, s: seq<T>, hit: seq<bool>, i: nat, j: nat)
  {
    |hit| == |s| && Aligned(cur, s, i, j) && (j < |s| ==> Visited(hit, j)) &&
    Rest(hit, j, i, cur) == Rest(hit, 0, 0, s)
  }

  lemma TracksStart<T>(s: seq<T>, hit: seq<bool>)
    requires |hit| == |s|
    ensures Tracks(s, s, hit, 0, 0)
  {
  }

  /** One turn of the loop: `cur[i]` is element `j`, popped exactly when its test holds. */
  lemma TracksStep<T>(cur: seq<T>, s: seq<T>, hit: seq<bool>, i: nat, j: nat)
    requires Tracks(cur, s, hit, i, j) && i < |cur|
    ensures j < |s| && cur[i] == s[j]
    ensures hit[j] ==> Tracks(cur[..i] + cur[i + 1..], s, hit, i + 1, Next(hit, j))
    ensures !hit[j] ==> Tracks(cur, s, hit, i + 1, Next(hit, j))
  {
    AlignedStep(cur, s, hit, i, j);
    VisitNext(hit, j);
  }

  /** Once the index runs off the end, the list is what the whole loop leaves. */
  lemma TracksDone<T>(cur: seq<T>, s: seq<T>, hit: seq<bool>, i: nat, j: nat)
    requires Tracks(cur, s, hit, i, j) && i >= |cur|
    ensures cur == Keep(s, hit)
  {
    KeepByScan(s, hit);
  }

  /** Running the loop from the start leaves exactly the survivors, in order. */
  lemma KeepByScan<T>(s: seq<T>, hit: seq<bool>)
    requires |hit| == |s|
    ensures Rest(hit, 0, 0, s) == Keep(s, hit)
  {
    ScannedStart(s, hit);
    ScannedRest(s, hit, 0, 0, s);
  }

  lemma {:induction false} AlignedDropped<T>(s: seq<T>, hit: seq<bool>, gone: seq<bool>, j: nat, i: nat, cur: seq<T>)
    requires |hit| == |s| && Aligned(cur, s, i, j) && (j < |s| ==> Visited(hit, j))
    requires |gone| == |hit| && forall k :: 0 <= k < |hit| ==> gone[k] == Removed(hit, k)
    ensures Pick(s, Where(gone, j)) + Dropped(hit, j, i, cur) == Pick(s, Where(gone, |s|))
    decreases |cur| - i
  {
    if i < |cur| {
      AlignedStep(cur, s, hit, i, j);
      VisitNext(hit, j);
      GoneStep(s, hit, j, gone);
      var n := Next(hit, j);
      if hit[j] {
        var rest := cur[..i] + cur[i + 1..];
        AlignedDropped(s, hit, gone, n, i + 1, rest);
        var before := Pick(s, Where(gone, j));
        var later := Dropped(hit, n, i + 1, rest);
        assert Dropped(hit, j, i, cur) == [s[j]] + later;
        assert (before + [s[j]]) + later == before + ([s[j]] + later);
      } else {
        AlignedDropped(s, hit, gone, n, i + 1, cur);
      }
    }
  }

  /** Running the loop from the start pops exactly the elements `Gone` marks, in order. */
  lemma DroppedByScan<T>(s: seq<T>, hit: seq<bool>)
    requires |hit| == |s|
    ensures Dropped(hit, 0, 0, s) == Select(s, Gone(hit))
  {
    AlignedDropped(s, hit, Gone(hit), 0, 0, s);
  }
}
