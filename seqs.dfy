/**
 * Sequence operations behind Python's `in`, `str.find`, `str.split(sep)`,
 * `sep.join(parts)` and `str.replace(old, new)`, stated for any element type
 * so that they serve both for strings and for lists of lines.
 */
module Seqs {
  import opened Wrappers

  /** `pat` occurs in `s` starting at index `i`. */
  predicate OccursAt<T(==)>(s: seq<T>, pat: seq<T>, i: nat)
  {
    i + |pat| <= |s| && s[i..i + |pat|] == pat
  }

  /** Python's `pat in s` for strings. */
  ghost predicate Contains<T>(s: seq<T>, pat: seq<T>)
  {
    exists i: nat :: OccursAt(s, pat, i)
  }

  /** The first occurrence of `pat` in `s` at or after `from`. */
  function FindFrom<T(==)>(s: seq<T>, pat: seq<T>, from: nat): (r: Option<nat>)
    decreases |s| - from
    ensures r.Some? ==> from <= r.value && OccursAt(s, pat, r.value)
    ensures r.Some? ==> forall j: nat :: from <= j < r.value ==> !OccursAt(s, pat, j)
    ensures r.None? ==> forall j: nat :: from <= j ==> !OccursAt(s, pat, j)
  {
    if from > |s| then None
    else if OccursAt(s, pat, from) then Some(from)
    else FindFrom(s, pat, from + 1)
  }

  /** The first occurrence of `pat` in `s`, as Python's `s.find(pat)` (with `None` for -1). */
  function Find<T(==)>(s: seq<T>, pat: seq<T>): (r: Option<nat>)
    ensures r.Some? <==> Contains(s, pat)
    ensures r.Some? ==> OccursAt(s, pat, r.value) && forall j: nat :: j < r.value ==> !OccursAt(s, pat, j)
  {
    FindFrom(s, pat, 0)
  }

  /** An occurrence with none before it is what `Find` returns. */
  lemma FindIsFirst<T>(s: seq<T>, pat: seq<T>, i: nat)
    requires OccursAt(s, pat, i)
    requires forall j: nat :: j < i ==> !OccursAt(s, pat, j)
    ensures Find(s, pat) == Some(i)
  {
  }

  lemma OccursSingle<T>(s: seq<T>, x: T, i: nat)
    requires OccursAt(s, [x], i)
    ensures i < |s| && s[i] == x
  {
    assert s[i] == s[i..i + 1][0];
  }

  /** An element that is not in `s` does not occur in it as a one-element pattern. */
  lemma FindAbsent<T>(s: seq<T>, x: T)
    requires x !in s
    ensures Find(s, [x]) == None
  {
    match Find(s, [x])
    case None =>
    case Some(i) =>
      OccursSingle(s, x, i);
      assert false;
  }

  /** Python's `s.split(sep)`: the pieces between successive left-to-right occurrences of `sep`. */
  function Split<T(==)>(s: seq<T>, sep: seq<T>): (parts: seq<seq<T>>)
    requires |sep| > 0
    decreases |s|
    ensures |parts| >= 1
  {
    match Find(s, sep)
    case None => [s]
    case Some(i) => [s[..i]] + Split(s[i + |sep|..], sep)
  }

  /** Python's `sep.join(parts)`. */
  function Join<T>(parts: seq<seq<T>>, sep: seq<T>): seq<T>
  {
    if |parts| == 0 then []
    else if |parts| == 1 then parts[0]
    else parts[0] + sep + Join(parts[1..], sep)
  }

  /** Joining one more part appends the separator and that part. */
  lemma {:induction false} JoinSnoc<T>(parts: seq<seq<T>>, p: seq<T>, sep: seq<T>)
    requires |parts| > 0
    ensures Join(parts + [p], sep) == Join(parts, sep) + sep + p
  {
    if |parts| == 1 {
      assert parts + [p] == [parts[0], p];
      assert (parts + [p])[1..] == [p];
    } else {
      assert (parts + [p])[1..] == parts[1..] + [p];
      JoinSnoc(parts[1..], p, sep);
    }
  }

  /** Joining two or more parts: the join of all but the last, the separator, and the last. */
  lemma JoinInitLast<T>(parts: seq<seq<T>>, sep: seq<T>)
    requires |parts| > 1
    ensures Join(parts, sep) == Join(parts[..|parts| - 1], sep) + sep + parts[|parts| - 1]
  {
    var init := parts[..|parts| - 1];
    assert init + [parts[|parts| - 1]] == parts;
    JoinSnoc(init, parts[|parts| - 1], sep);
  }

  /** Splitting on a one-element separator distributes over a concatenation around that separator. */
  lemma {:induction false} SplitAppend<T>(a: seq<T>, b: seq<T>, x: T)
    ensures Split(a + [x] + b, [x]) == Split(a, [x]) + Split(b, [x])
    decreases |a|
  {
    var s := a + [x] + b;
    match Find(a, [x])
    case None =>
      forall j: nat | j < |a| ensures !OccursAt(s, [x], j) {
        assert s[j] == a[j];
        assert !OccursAt(a, [x], j);
        assert a[j..j + 1] == [a[j]];
      }
      assert s[|a|..|a| + 1] == [x];
      FindIsFirst(s, [x], |a|);
      assert s[..|a|] == a;
      assert s[|a| + 1..] == b;
    case Some(i) =>
      assert a[i..i + 1] == [x];
      assert s[i..i + 1] == [x];
      forall j: nat | j < i ensures !OccursAt(s, [x], j) {
        assert !OccursAt(a, [x], j);
        assert a[j..j + 1] == [a[j]];
        assert s[j..j + 1] == [s[j]];
      }
      FindIsFirst(s, [x], i);
      assert s[..i] == a[..i];
      assert s[i + 1..] == a[i + 1..] + [x] + b;
      SplitAppend(a[i + 1..], b, x);
  }

  /** A sequence is its three slices around two cut points. */
  lemma SliceAround<T>(s: seq<T>, i: nat, j: nat)
    requires i <= j <= |s|
    ensures s == s[..i] + s[i..j] + s[j..]
  {
    assert s[..i] + s[i..j] == s[..j];
  }

  /** A sequence is what comes before index `n`, the element at `n`, and what comes after. */
  lemma CutAt<T>(s: seq<T>, n: nat)
    requires n < |s|
    ensures s == s[..n] + [s[n]] + s[n + 1..]
  {
    SliceAround(s, n, n + 1);
    assert s[n..n + 1] == [s[n]];
  }

  /** Cutting `a` at `n` and appending `b` regroups to the right. */
  lemma AppendAt<T>(a: seq<T>, n: nat, b: seq<T>)
    requires n <= |a|
    ensures a == a[..n] + a[n..]
    ensures a + b == a[..n] + (a[n..] + b)
  {
    assert a == a[..n] + a[n..];
  }

  /** Concatenation regroups to the left. */
  lemma Assoc<T>(x: seq<T>, y: seq<T>, z: seq<T>)
    ensures x + (y + z) == x + y + z
  {
  }

  /** Appending after a single element regroups to the left. */
  lemma ConsAssoc<T>(e: T, x: seq<T>, y: seq<T>)
    ensures [e] + (x + y) == [e] + x + y
  {
  }

  /** Joining a part in front of at least one more adds the part and a separator. */
  lemma JoinCons<T>(p: seq<T>, parts: seq<seq<T>>, sep: seq<T>)
    requires |parts| >= 1
    ensures Join([p] + parts, sep) == p + sep + Join(parts, sep)
  {
    assert ([p] + parts)[1..] == parts;
  }

  /** Round trip: joining the pieces of a split with the separator gives the original back. */
  lemma {:induction false} JoinSplit<T>(s: seq<T>, sep: seq<T>)
    requires |sep| > 0
    ensures Join(Split(s, sep), sep) == s
    decreases |s|
  {
    match Find(s, sep)
    case None =>
    case Some(i) =>
      var rest := s[i + |sep|..];
      JoinSplit(rest, sep);
      JoinCons(s[..i], Split(rest, sep), sep);
      SliceAround(s, i, i + |sep|);
  }

  /** Round trip: splitting a join on a one-element separator absent from every part gives the parts back. */
  lemma {:induction false} SplitJoin<T>(parts: seq<seq<T>>, x: T)
    requires |parts| >= 1
    requires forall k :: 0 <= k < |parts| ==> x !in parts[k]
    ensures Split(Join(parts, [x]), [x]) == parts
  {
    FindAbsent(parts[0], x);
    assert Split(parts[0], [x]) == [parts[0]];
    if |parts| > 1 {
      var rest := Join(parts[1..], [x]);
      assert Join(parts, [x]) == parts[0] + [x] + rest;
      SplitJoin(parts[1..], x);
      SplitAppend(parts[0], rest, x);
      assert parts == [parts[0]] + parts[1..];
    }
  }

  /** When `sep` does not start anywhere inside `a`, splitting `a + sep + b` cuts off `a` first. */
  lemma SplitFirst<T>(a: seq<T>, sep: seq<T>, b: seq<T>)
    requires |sep| > 0
    requires forall j: nat :: j < |a| ==> !OccursAt(a + sep + b, sep, j)
    ensures Split(a + sep + b, sep) == [a] + Split(b, sep)
  {
    var s := a + sep + b;
    assert s[|a|..|a| + |sep|] == sep;
    FindIsFirst(s, sep, |a|);
    assert s[..|a|] == a;
    assert s[|a| + |sep|..] == b;
  }

  /** A doubled element cannot start inside a part that does not contain it and does not end
      with that element, even when the doubled element follows the part. */
  lemma NoDoubleStraddle<T>(a: seq<T>, x: T, b: seq<T>)
    requires !Contains(a, [x, x])
    requires a == [] || a[|a| - 1] != x
    ensures forall j: nat :: j < |a| ==> !OccursAt(a + [x, x] + b, [x, x], j)
  {
    var s := a + [x, x] + b;
    forall j: nat | j < |a| ensures !OccursAt(s, [x, x], j) {
      if j + 2 <= |a| {
        assert s[j..j + 2] == a[j..j + 2];
        assert !OccursAt(a, [x, x], j);
      } else {
        assert s[j] == a[|a| - 1];
        assert s[j..j + 2][0] == s[j];
      }
    }
  }

  /** Round trip for a doubled separator: splitting the join gives the parts back when no part
      contains the separator or ends with its element. */
  lemma {:induction false} SplitJoinDouble<T>(parts: seq<seq<T>>, x: T)
    requires |parts| >= 1
    requires forall k :: 0 <= k < |parts| ==>
      !Contains(parts[k], [x, x]) && (parts[k] == [] || parts[k][|parts[k]| - 1] != x)
    ensures Split(Join(parts, [x, x]), [x, x]) == parts
  {
    if |parts| == 1 {
      assert Find(parts[0], [x, x]) == None;
    } else {
      var rest := Join(parts[1..], [x, x]);
      assert Join(parts, [x, x]) == parts[0] + [x, x] + rest;
      NoDoubleStraddle(parts[0], x, rest);
      SplitFirst(parts[0], [x, x], rest);
      SplitJoinDouble(parts[1..], x);
      assert parts == [parts[0]] + parts[1..];
    }
  }

  /** A slice of a sequence in which `pat` does not occur does not contain it either. */
  lemma SliceFree<T>(s: seq<T>, pat: seq<T>, a: nat, n: nat)
    requires !Contains(s, pat) && a + n <= |s|
    ensures !Contains(s[a..a + n], pat)
  {
    var t := s[a..a + n];
    forall j: nat ensures !OccursAt(t, pat, j) {
      if j + |pat| <= |t| {
        var u, v := t[j..j + |pat|], s[a + j..a + j + |pat|];
        forall k | 0 <= k < |pat| ensures u[k] == v[k] {
          assert t[j + k] == s[a + j + k];
        }
        assert u == v;
        assert !OccursAt(s, pat, a + j);
      }
    }
  }

  /** No piece of a split contains the separator. */
  lemma {:induction false} SplitPiecesFree<T>(s: seq<T>, sep: seq<T>)
    requires |sep| > 0
    ensures forall k :: 0 <= k < |Split(s, sep)| ==> !Contains(Split(s, sep)[k], sep)
    decreases |s|
  {
    match Find(s, sep)
    case None =>
    case Some(i) =>
      var rest := s[i + |sep|..];
      SplitPiecesFree(rest, sep);
      var first := s[..i];
      forall j: nat ensures !OccursAt(first, sep, j) {
        if j + |sep| <= i {
          var u, v := first[j..j + |sep|], s[j..j + |sep|];
          forall k | 0 <= k < |sep| ensures u[k] == v[k] {
            assert first[j + k] == s[j + k];
          }
          assert u == v;
          assert !OccursAt(s, sep, j);
        }
      }
      var parts := Split(s, sep);
      assert parts == [s[..i]] + Split(rest, sep);
      forall k | 0 <= k < |parts| ensures !Contains(parts[k], sep) {
        if k > 0 {
          assert parts[k] == Split(rest, sep)[k - 1];
        }
      }
  }

  /** Python's `s.replace(pat, rep)`: every left-to-right, non-overlapping occurrence replaced. */
  function ReplaceAll<T(==)>(s: seq<T>, pat: seq<T>, rep: seq<T>): seq<T>
    requires |pat| > 0
    decreases |s|
  {
    if s == [] then []
    else if OccursAt(s, pat, 0) then rep + ReplaceAll(s[|pat|..], pat, rep)
    else [s[0]] + ReplaceAll(s[1..], pat, rep)
  }

  /** Replacing a pattern that does not occur changes nothing. */
  lemma {:induction false} ReplaceAbsent<T>(s: seq<T>, pat: seq<T>, rep: seq<T>)
    requires |pat| > 0
    requires !Contains(s, pat)
    ensures ReplaceAll(s, pat, rep) == s
    decreases |s|
  {
    if s != [] {
      assert !OccursAt(s, pat, 0);
      if Contains(s[1..], pat) {
        var j: nat :| OccursAt(s[1..], pat, j);
        assert s[1..][j..j + |pat|] == s[j + 1..j + 1 + |pat|];
        assert OccursAt(s, pat, j + 1);
      }
      ReplaceAbsent(s[1..], pat, rep);
      assert s == [s[0]] + s[1..];
    }
  }

  /** Replacing a one-element pattern works element by element, so it distributes over `+`. */
  lemma {:induction false} ReplaceAppend<T>(a: seq<T>, b: seq<T>, x: T, rep: seq<T>)
    ensures ReplaceAll(a + b, [x], rep) == ReplaceAll(a, [x], rep) + ReplaceAll(b, [x], rep)
    decreases |a|
  {
    if a != [] {
      assert (a + b)[1..] == a[1..] + b;
      assert (a + b)[..1] == a[..1];
      ReplaceAppend(a[1..], b, x, rep);
    } else {
      assert a + b == b;
    }
  }

  /** The concatenation of all the pieces. */
  function Flatten<T>(ss: seq<seq<T>>): seq<T>
  {
    if ss == [] then [] else ss[0] + Flatten(ss[1..])
  }

  lemma {:induction false} FlattenAppend<T>(a: seq<seq<T>>, b: seq<seq<T>>)
    ensures Flatten(a + b) == Flatten(a) + Flatten(b)
  {
    if a == [] {
      assert a + b == b;
    } else {
      assert (a + b)[1..] == a[1..] + b;
      FlattenAppend(a[1..], b);
    }
  }

  /** Whatever holds of every element of the parts and of the separator holds of every element of the join. */
  lemma {:induction false} JoinAll<T>(parts: seq<seq<T>>, sep: seq<T>, P: T -> bool)
    requires forall i, j :: 0 <= i < |parts| && 0 <= j < |parts[i]| ==> P(parts[i][j])
    requires forall j :: 0 <= j < |sep| ==> P(sep[j])
    ensures forall k :: 0 <= k < |Join(parts, sep)| ==> P(Join(parts, sep)[k])
  {
    if |parts| > 1 {
      JoinAll(parts[1..], sep, P);
      var rest := Join(parts[1..], sep);
      assert Join(parts, sep) == parts[0] + sep + rest;
      forall k | 0 <= k < |Join(parts, sep)| ensures P(Join(parts, sep)[k]) {
        if k < |parts[0]| {
        } else if k < |parts[0]| + |sep| {
          assert Join(parts, sep)[k] == sep[k - |parts[0]|];
        } else {
          assert Join(parts, sep)[k] == rest[k - |parts[0]| - |sep|];
        }
      }
    }
  }

  /** Every piece of a flattening is a slice of it, so its elements are elements of the whole. */
  lemma {:induction false} FlattenMember<T>(ss: seq<seq<T>>, i: nat, j: nat)
    requires i < |ss| && j < |ss[i]|
    ensures ss[i][j] in Flatten(ss)
  {
    if i > 0 {
      FlattenMember(ss[1..], i - 1, j);
    } else {
      assert Flatten(ss)[j] == ss[0][j];
    }
  }

  /** Joining two non-empty lists of parts: the two joins with one separator between them. */
  lemma {:induction false} JoinAppend<T>(a: seq<seq<T>>, b: seq<seq<T>>, sep: seq<T>)
    requires |a| > 0 && |b| > 0
    ensures Join(a + b, sep) == Join(a, sep) + sep + Join(b, sep)
  {
    assert (a + b)[0] == a[0];
    if |a| == 1 {
      assert (a + b)[1..] == b;
    } else {
      assert (a + b)[1..] == a[1..] + b;
      JoinAppend(a[1..], b, sep);
    }
  }

  /** The join of the first parts, followed by the separator, begins the join of all of them. */
  lemma JoinPrefix<T>(a: seq<seq<T>>, b: seq<seq<T>>, sep: seq<T>)
    requires |a| > 0 && |b| > 0
    ensures |Join(a, sep)| + |sep| <= |Join(a + b, sep)|
    ensures Join(a + b, sep)[..|Join(a, sep)| + |sep|] == Join(a, sep) + sep
  {
    JoinAppend(a, b, sep);
    var x, y := Join(a, sep), Join(b, sep);
    var whole := x + sep + y;
    forall k | 0 <= k < |x| + |sep| ensures whole[k] == (x + sep)[k] {
    }
  }

  /** The same for a list of parts built in three pieces. */
  lemma JoinPrefix3<T>(a: seq<seq<T>>, b: seq<seq<T>>, c: seq<seq<T>>, sep: seq<T>)
    requires |a| > 0 && |b| > 0
    ensures |Join(a, sep)| + |sep| <= |Join(a + b + c, sep)|
    ensures Join(a + b + c, sep)[..|Join(a, sep)| + |sep|] == Join(a, sep) + sep
  {
    assert a + b + c == a + (b + c);
    JoinPrefix(a, b + c, sep);
  }
}
