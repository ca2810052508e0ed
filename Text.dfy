/** The few Python `str` operations both crawler scripts are built from:
    substring test (`sub in s`), `startswith`, `endswith` and `split`. */
module Text {

  /** `sub` occurs in `s` at index `i`. */
  predicate OccursAt(sub: string, s: string, i: int)
  {
    0 <= i && i + |sub| <= |s| && s[i..i + |sub|] == sub
  }

  /** Python's `sub in s` (true for the empty `sub`). */
  predicate Contains(s: string, sub: string)
  {
    exists i :: 0 <= i <= |s| && OccursAt(sub, s, i)
  }

  /** Python's `s.startswith(p)`. */
  predicate StartsWith(s: string, p: string)
  {
    |p| <= |s| && s[..|p|] == p
  }

  /** Python's `s.endswith(c)` for a one-character suffix. */
  predicate EndsWith(s: string, c: char)
  {
    |s| > 0 && s[|s| - 1] == c
  }

  /** An occurrence inside a prefix is an occurrence in the whole string. */
  lemma OccursInPrefix(sub: string, p: string, s: string, i: int)
    requires p <= s
    requires OccursAt(sub, p, i)
    ensures OccursAt(sub, s, i)
  {
    assert s[i..i + |sub|] == p[i..i + |sub|];
  }

  /** An occurrence inside the slice `s[a..b]` is an occurrence in `s`, shifted by `a`. */
  lemma OccursInSlice(sub: string, s: string, a: nat, b: nat, i: int)
    requires a <= b <= |s|
    requires OccursAt(sub, s[a..b], i)
    ensures OccursAt(sub, s, a + i)
  {
    var w := s[a..b];
    forall t | 0 <= t < |sub| ensures s[a + i + t] == sub[t] {
      assert w[i..i + |sub|][t] == sub[t];
      assert w[i + t] == s[a + i + t];
    }
    assert s[a + i..a + i + |sub|] == sub;
  }

  /** A prefix of a string that does not contain `sub` does not contain it either. */
  lemma PrefixKeepsAbsence(sub: string, p: string, s: string)
    requires p <= s
    requires !Contains(s, sub)
    ensures !Contains(p, sub)
  {
    if Contains(p, sub) {
      var i :| 0 <= i <= |p| && OccursAt(sub, p, i);
      OccursInPrefix(sub, p, s, i);
    }
  }

  /** Containment is transitive. */
  lemma ContainsTransitive(s: string, m: string, sub: string)
    requires Contains(s, m)
    requires Contains(m, sub)
    ensures Contains(s, sub)
  {
    var i :| 0 <= i <= |s| && OccursAt(m, s, i);
    var j :| 0 <= j <= |m| && OccursAt(sub, m, j);
    assert m == s[i..i + |m|];
    OccursInSlice(sub, s, i, i + |m|, j);
  }

  /** The least index at or after `from` where `sep` occurs, or `|s|` when there is none. */
  function IndexFrom(s: string, sep: string, from: nat): (k: nat)
    requires from <= |s|
    ensures from <= k <= |s|
    ensures k < |s| ==> OccursAt(sep, s, k)
    decreases |s| - from
  {
    if from == |s| || OccursAt(sep, s, from) then from
    else IndexFrom(s, sep, from + 1)
  }

  /** `IndexFrom` skips no occurrence. */
  lemma {:induction false} IndexFromIsLeast(s: string, sep: string, from: nat, i: int)
    requires from <= |s|
    requires from <= i < IndexFrom(s, sep, from)
    ensures !OccursAt(sep, s, i)
    decreases |s| - from
  {
    if i > from {
      IndexFromIsLeast(s, sep, from + 1, i);
    }
  }

  /** An occurrence with none before it, from `from` on, is the one `IndexFrom` finds. */
  lemma {:induction false} IndexFromExact(s: string, sep: string, from: nat, m: nat)
    requires from <= m && OccursAt(sep, s, m)
    requires forall i :: from <= i < m ==> !OccursAt(sep, s, i)
    ensures IndexFrom(s, sep, from) == m
    decreases m - from
  {
    if from < m {
      IndexFromExact(s, sep, from + 1, m);
    }
  }

  /** The index of the first occurrence of `sep` in `s`, or `|s|` when it does not occur. */
  function FirstIndex(s: string, sep: string): (k: nat)
    ensures k <= |s|
    ensures k < |s| ==> OccursAt(sep, s, k)
  {
    IndexFrom(s, sep, 0)
  }

  /** Python's `s.split(sep)[0]`: everything before the first `sep`. */
  function FirstPart(s: string, sep: string): (r: string)
    requires sep != []
    ensures r <= s
    ensures !Contains(r, sep)
    ensures |r| < |s| ==> OccursAt(sep, s, |r|)
  {
    var k := FirstIndex(s, sep);
    var r := s[..k];
    assert !Contains(r, sep) by {
      forall i | 0 <= i <= |r| && OccursAt(sep, r, i) ensures false {
        OccursInSlice(sep, s, 0, k, i);
        IndexFromIsLeast(s, sep, 0, i);
      }
    }
    r
  }

  /** `sep` does not occur in `s` before the end of `FirstPart(s, sep)`. */
  lemma FirstPartIsLeast(s: string, sep: string, i: int)
    requires sep != []
    requires 0 <= i < |FirstPart(s, sep)|
    ensures !OccursAt(sep, s, i)
  {
    IndexFromIsLeast(s, sep, 0, i);
  }

  /** Where the parts of `s[from..]` split at each `sep` (scanning left to right) lie
      in `s`: part `j` is `s[r[j].0..r[j].1]`. */
  function PartBounds(s: string, sep: string, from: nat): (r: seq<(nat, nat)>)
    requires sep != [] && from <= |s|
    ensures |r| >= 1
    decreases |s| - from
  {
    var k := IndexFrom(s, sep, from);
    if k == |s| then [(from, k)] else [(from, k)] + PartBounds(s, sep, k + |sep|)
  }

  /** When `sep` occurs at or after `from`, the first part ends there and the rest
      are the parts after it. */
  lemma PartBoundsUnfold(s: string, sep: string, from: nat)
    requires sep != [] && from <= |s|
    requires IndexFrom(s, sep, from) < |s|
    ensures PartBounds(s, sep, from)
      == [(from, IndexFrom(s, sep, from))] + PartBounds(s, sep, IndexFrom(s, sep, from) + |sep|)
  {
  }

  /** The first part runs from `from` to the first occurrence of `sep` at or after it. */
  lemma PartBoundsFirst(s: string, sep: string, from: nat)
    requires sep != [] && from <= |s|
    ensures PartBounds(s, sep, from)[0] == (from, IndexFrom(s, sep, from))
  {
  }

  /** There is more than one part only when `sep` occurs at or after `from`. */
  lemma PartBoundsMore(s: string, sep: string, from: nat)
    requires sep != [] && from <= |s|
    requires 1 < |PartBounds(s, sep, from)|
    ensures IndexFrom(s, sep, from) < |s|
  {
  }

  /** Part `j >= 1` of the parts from `from` is part `j - 1` of the parts from `next`,
      just after the first occurrence of `sep` at or after `from`. */
  lemma PartBoundsLater(s: string, sep: string, from: nat, j: nat) returns (next: nat)
    requires sep != [] && from <= |s|
    requires 0 < j < |PartBounds(s, sep, from)|
    ensures IndexFrom(s, sep, from) < |s| && next == IndexFrom(s, sep, from) + |sep| <= |s|
    ensures j - 1 < |PartBounds(s, sep, next)|
    ensures PartBounds(s, sep, from)[j] == PartBounds(s, sep, next)[j - 1]
  {
    PartBoundsMore(s, sep, from);
    next := IndexFrom(s, sep, from) + |sep|;
    PartBoundsUnfold(s, sep, from);
  }

  /** Part `j` starts at or after `from`, and runs up to the next occurrence of `sep`
      after its start, or to the end of `s`; every part after the first starts right
      after an occurrence of `sep`. */
  lemma {:induction false} PartAt(s: string, sep: string, from: nat, j: nat)
    requires sep != [] && from <= |s|
    requires j < |PartBounds(s, sep, from)|
    ensures from <= PartBounds(s, sep, from)[j].0 <= |s|
    ensures PartBounds(s, sep, from)[j].1 == IndexFrom(s, sep, PartBounds(s, sep, from)[j].0)
    ensures j == 0 ==> PartBounds(s, sep, from)[j].0 == from
    ensures j > 0 ==>
      from + |sep| <= PartBounds(s, sep, from)[j].0 && OccursAt(sep, s, PartBounds(s, sep, from)[j].0 - |sep|)
    decreases |s| - from
  {
    if j == 0 {
      PartBoundsFirst(s, sep, from);
    } else {
      var next := PartBoundsLater(s, sep, from, j);
      PartAt(s, sep, next, j - 1);
    }
  }

  /** The parts of `s[from..]` split at each `sep`. */
  function Parts(s: string, sep: string, from: nat): (parts: seq<string>)
    requires sep != [] && from <= |s|
  {
    var b := PartBounds(s, sep, from);
    seq(|b|, j requires 0 <= j < |b| => PartAt(s, sep, from, j); s[b[j].0..b[j].1])
  }

  /** Python's `s.split(sep)` for a non-empty separator (an empty one raises in Python). */
  function Split(s: string, sep: string): (parts: seq<string>)
    requires sep != []
    ensures |parts| >= 1
  {
    Parts(s, sep, 0)
  }

  /** Part `j` of `s.split(sep)` is the slice `s[a..b]`: it starts at the beginning of `s`
      or right after an occurrence of `sep`, and ends at the next occurrence of `sep` after
      its start, or at the end of `s`. */
  lemma SplitPart(s: string, sep: string, j: nat) returns (a: nat, b: nat)
    requires sep != []
    requires j < |Split(s, sep)|
    ensures a <= b <= |s| && Split(s, sep)[j] == s[a..b]
    ensures b == IndexFrom(s, sep, a)
    ensures j == 0 ==> a == 0
    ensures j > 0 ==> |sep| <= a && OccursAt(sep, s, a - |sep|)
  {
    PartAt(s, sep, 0, j);
    a, b := PartBounds(s, sep, 0)[j].0, PartBounds(s, sep, 0)[j].1;
  }

  /** The first part of `s.split(sep)` is everything before the first `sep`. */
  lemma SplitFirstPart(s: string, sep: string)
    requires sep != []
    ensures Split(s, sep)[0] == FirstPart(s, sep)
  {
  }

  /** `s.split(sep)[1]` exists exactly when `sep` occurs in `s`, and is then the text between
      the first occurrence and the next one (or the end of `s`). */
  lemma SplitSecond(s: string, sep: string)
    requires sep != []
    ensures |Split(s, sep)| >= 2 <==> FirstIndex(s, sep) < |s|
    ensures |Split(s, sep)| >= 2 ==>
      var next := FirstIndex(s, sep) + |sep|;
      next <= |s| && Split(s, sep)[1] == s[next..IndexFrom(s, sep, next)]
  {
    var k := FirstIndex(s, sep);
    if k < |s| {
      var next := k + |sep|;
      PartsUnfold(s, sep, 0);
      PartsFirst(s, sep, next);
      assert Split(s, sep)[1] == Parts(s, sep, next)[0];
    } else {
      PartsSingle(s, sep, 0);
    }
  }

  /** No part of `s.split(sep)` contains `sep`. */
  lemma SplitPartFree(s: string, sep: string, j: nat)
    requires sep != []
    requires j < |Split(s, sep)|
    ensures !Contains(Split(s, sep)[j], sep)
  {
    var a, b := SplitPart(s, sep, j);
    BeforeIndexFree(s, sep, a);
  }

  /** The text between `from` and the next `sep` does not contain `sep`. */
  lemma BeforeIndexFree(s: string, sep: string, from: nat)
    requires sep != [] && from <= |s|
    ensures !Contains(s[from..IndexFrom(s, sep, from)], sep)
  {
    var b := IndexFrom(s, sep, from);
    forall i | 0 <= i <= b - from && OccursAt(sep, s[from..b], i) ensures false {
      OccursInSlice(sep, s, from, b, i);
      IndexFromIsLeast(s, sep, from, from + i);
    }
  }

  /** Every character of a part of `s.split(sep)` is a character of `s`. */
  lemma SplitPartChars(s: string, sep: string, j: nat)
    requires sep != []
    requires j < |Split(s, sep)|
    ensures forall c :: c in Split(s, sep)[j] ==> c in s
  {
    var a, b := SplitPart(s, sep, j);
    SliceChars(s, a, b);
  }

  /** Every character of a slice is a character of the whole. */
  lemma SliceChars(s: string, a: nat, b: nat)
    requires a <= b <= |s|
    ensures forall c :: c in s[a..b] ==> c in s
  {
    forall c | c in s[a..b] ensures c in s {
      var i :| 0 <= i < b - a && s[a..b][i] == c;
      assert s[a + i] == c;
    }
  }

  /** Every part after the first follows an occurrence of `sep` in `s`: for any
      prefix `p` of part `j >= 1`, `sep + p` occurs in `s`. */
  lemma SplitPartFollowsSep(s: string, sep: string, j: nat, p: string)
    requires sep != []
    requires 1 <= j < |Split(s, sep)|
    requires p <= Split(s, sep)[j]
    ensures Contains(s, sep + p)
  {
    var a, b := SplitPart(s, sep, j);
    SepThenPrefix(s, sep, a, b, p);
  }

  /** What follows an occurrence of `sep` comes after `sep` in `s`. */
  lemma SepThenPrefix(s: string, sep: string, a: nat, b: nat, p: string)
    requires |sep| <= a <= b <= |s|
    requires OccursAt(sep, s, a - |sep|)
    requires p <= s[a..b]
    ensures Contains(s, sep + p)
  {
    var i := a - |sep|;
    assert s[i..i + |sep + p|] == s[i..a] + s[a..a + |p|];
    assert OccursAt(sep + p, s, i);
  }

  /** Python's `sep.join(parts)`. */
  function Join(parts: seq<string>, sep: string): string
    requires |parts| >= 1
  {
    if |parts| == 1 then parts[0] else parts[0] + sep + Join(parts[1..], sep)
  }

  /** When `sep` occurs at or after `from`, the parts are the text up to it followed by
      the parts after it. */
  lemma PartsUnfold(s: string, sep: string, from: nat)
    requires sep != [] && from <= |s|
    requires IndexFrom(s, sep, from) < |s|
    ensures Parts(s, sep, from)
      == [s[from..IndexFrom(s, sep, from)]] + Parts(s, sep, IndexFrom(s, sep, from) + |sep|)
  {
    var k := IndexFrom(s, sep, from);
    var next := k + |sep|;
    PartBoundsUnfold(s, sep, from);
    var whole, rest := Parts(s, sep, from), Parts(s, sep, next);
    assert |whole| == 1 + |rest|;
    forall j | 0 <= j < |whole| ensures whole[j] == ([s[from..k]] + rest)[j] {
      if j > 0 {
        assert PartBounds(s, sep, from)[j] == PartBounds(s, sep, next)[j - 1];
      }
    }
  }

  /** The first part runs from `from` to the next `sep`. */
  lemma PartsFirst(s: string, sep: string, from: nat)
    requires sep != [] && from <= |s|
    ensures |Parts(s, sep, from)| >= 1 && Parts(s, sep, from)[0] == s[from..IndexFrom(s, sep, from)]
  {
    PartBoundsFirst(s, sep, from);
  }

  /** When `sep` does not occur at or after `from`, `s[from..]` is the only part. */
  lemma PartsSingle(s: string, sep: string, from: nat)
    requires sep != [] && from <= |s|
    requires IndexFrom(s, sep, from) == |s|
    ensures Parts(s, sep, from) == [s[from..]]
  {
    assert PartBounds(s, sep, from) == [(from, |s|)];
    assert |Parts(s, sep, from)| == 1;
    assert Parts(s, sep, from)[0] == s[from..];
  }

  /** Joining the parts of `s[from..]` with `sep` gives back `s[from..]`. */
  lemma {:induction false} JoinParts(s: string, sep: string, from: nat)
    requires sep != [] && from <= |s|
    ensures Join(Parts(s, sep, from), sep) == s[from..]
    decreases |s| - from
  {
    var k := IndexFrom(s, sep, from);
    if k == |s| {
      PartsSingle(s, sep, from);
    } else {
      var next := k + |sep|;
      PartsUnfold(s, sep, from);
      JoinParts(s, sep, next);
      JoinCons(s[from..k], Parts(s, sep, next), sep);
      AroundSep(s, sep, from, k);
    }
  }

  /** `Join` of a part followed by more parts. */
  lemma JoinCons(head: string, tail: seq<string>, sep: string)
    requires |tail| >= 1
    ensures Join([head] + tail, sep) == head + sep + Join(tail, sep)
  {
    assert ([head] + tail)[1..] == tail;
  }

  /** Cutting `s[from..]` around an occurrence of `sep` at `k`. */
  lemma AroundSep(s: string, sep: string, from: nat, k: nat)
    requires from <= k && OccursAt(sep, s, k)
    ensures s[from..] == s[from..k] + sep + s[k + |sep|..]
  {
    assert s[from..] == s[from..k] + s[k..k + |sep|] + s[k + |sep|..];
  }

  /** `sep.join(s.split(sep)) == s`. */
  lemma SplitJoin(s: string, sep: string)
    requires sep != []
    ensures Join(Split(s, sep), sep) == s
  {
    JoinParts(s, sep, 0);
    assert s[0..] == s;
  }
}
