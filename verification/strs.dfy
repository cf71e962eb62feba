/**
 * Strings as the program orders and joins them.
 *
 * `Less` is the lexicographic order on characters, which is the order of
 * the program's `String` values (byte order of UTF-8 agrees with code
 * point order). `SortDedup` is the sort-then-dedup step the package
 * batches use, and `SortedUnique` is why its result does not depend on
 * the order of its input: a strictly sorted list is determined by its
 * elements.
 */
module Strs {
  type String = seq<char>

  /** Lexicographic order: a proper prefix is smaller, else the first differing character decides. */
  predicate Less(a: String, b: String)
    decreases |a|
  {
    if |a| == 0 then |b| > 0
    else if |b| == 0 then false
    else a[0] < b[0] || (a[0] == b[0] && Less(a[1..], b[1..]))
  }

  lemma {:induction false} LessIrreflexive(a: String)
    ensures !Less(a, a)
    decreases |a|
  {
    if |a| > 0 {
      LessIrreflexive(a[1..]);
    }
  }

  lemma {:induction false} LessTransitive(a: String, b: String, c: String)
    requires Less(a, b) && Less(b, c)
    ensures Less(a, c)
    decreases |a|
  {
    if |a| > 0 && a[0] == b[0] && b[0] == c[0] {
      LessTransitive(a[1..], b[1..], c[1..]);
    }
  }

  /** Any two different strings are ordered one way or the other. */
  lemma {:induction false} LessTotal(a: String, b: String)
    ensures a == b || Less(a, b) || Less(b, a)
    decreases |a|
  {
    if |a| > 0 && |b| > 0 && a[0] == b[0] {
      LessTotal(a[1..], b[1..]);
      if a[1..] == b[1..] {
        assert a == [a[0]] + a[1..] && b == [b[0]] + b[1..];
      }
    }
  }

  lemma {:induction false} LessAsymmetric(a: String, b: String)
    requires Less(a, b)
    ensures !Less(b, a)
  {
    if Less(b, a) {
      LessTransitive(a, b, a);
      LessIrreflexive(a);
    }
  }

  function Elems(s: seq<String>): set<String> {
    set x | x in s
  }

  /** Each element is strictly smaller than the next: sorted, with no repeats. */
  predicate StrictlySorted(s: seq<String>) {
    forall i | 0 <= i < |s| - 1 :: Less(s[i], s[i + 1])
  }

  /** In a strictly sorted list every earlier element is smaller than every later one. */
  lemma {:induction false} StrictlySortedPairs(s: seq<String>, i: nat, j: nat)
    requires StrictlySorted(s) && i < j < |s|
    ensures Less(s[i], s[j])
    decreases j - i
  {
    if i + 1 < j {
      StrictlySortedPairs(s, i + 1, j);
      LessTransitive(s[i], s[i + 1], s[j]);
    }
  }

  /** Insert `x` into a strictly sorted list, keeping it strictly sorted (no effect when present). */
  function Insert(x: String, s: seq<String>): (r: seq<String>)
    requires StrictlySorted(s)
    ensures StrictlySorted(r) && Elems(r) == Elems(s) + {x}
    ensures |s| > 0 && |r| > 0 ==> r[0] == s[0] || r[0] == x
  {
    if |s| == 0 then [x]
    else if x == s[0] then s
    else if Less(x, s[0]) then [x] + s
    else
      LessTotal(x, s[0]);
      var rest := Insert(x, s[1..]);
      assert Elems(s) == {s[0]} + Elems(s[1..]);
      var r := [s[0]] + rest;
      assert Elems(r) == {s[0]} + Elems(rest);
      assert |s| > 1 ==> Less(s[0], s[1]);
      r
  }

  /** The elements of `s`, sorted, each once: the program's sort followed by dedup. */
  function SortDedup(s: seq<String>): (r: seq<String>)
    ensures StrictlySorted(r) && Elems(r) == Elems(s)
  {
    if |s| == 0 then []
    else
      var rest := SortDedup(s[1..]);
      assert Elems(s) == {s[0]} + Elems(s[1..]);
      Insert(s[0], rest)
  }

  /** A strictly sorted list is determined by its set of elements. */
  lemma {:induction false} SortedUnique(a: seq<String>, b: seq<String>)
    requires StrictlySorted(a) && StrictlySorted(b) && Elems(a) == Elems(b)
    ensures a == b
    decreases |a|
  {
    if |a| > 0 && |b| > 0 {
      // the head of each list is the least element of the common set
      if a[0] != b[0] {
        assert b[0] in Elems(a);
        var i :| 0 <= i < |a| && a[i] == b[0];
        assert a[0] in Elems(b);
        var j :| 0 <= j < |b| && b[j] == a[0];
        assert i > 0 && j > 0;
        StrictlySortedPairs(a, 0, i);
        StrictlySortedPairs(b, 0, j);
        LessAsymmetric(a[0], b[0]);
        assert false;
      }
      forall x ensures x in Elems(a[1..]) <==> x in Elems(b[1..]) {
        if x in Elems(a[1..]) {
          var i :| 0 <= i < |a[1..]| && a[1..][i] == x;
          StrictlySortedPairs(a, 0, i + 1);
          LessIrreflexive(x);
          assert x in Elems(b) && x != b[0];
        }
        if x in Elems(b[1..]) {
          var j :| 0 <= j < |b[1..]| && b[1..][j] == x;
          StrictlySortedPairs(b, 0, j + 1);
          LessIrreflexive(x);
          assert x in Elems(a) && x != a[0];
        }
      }
      SortedUnique(a[1..], b[1..]);
      assert a == [a[0]] + a[1..] && b == [b[0]] + b[1..];
    } else if |a| > 0 {
      HeadIn(a);
      assert false;
    } else if |b| > 0 {
      HeadIn(b);
      assert false;
    }
  }

  lemma HeadIn(s: seq<String>)
    requires |s| > 0
    ensures s[0] in Elems(s)
  {
  }

  /** Sorting and de-duplicating depends only on the set of elements. */
  lemma SortDedupCanonical(s: seq<String>, t: seq<String>)
    requires Elems(s) == Elems(t)
    ensures SortDedup(s) == SortDedup(t)
  {
    SortedUnique(SortDedup(s), SortDedup(t));
  }

  /** The result of sorting and de-duplicating is its own sort-and-dedup. */
  lemma SortDedupIdempotent(s: seq<String>)
    ensures SortDedup(SortDedup(s)) == SortDedup(s)
  {
    SortedUnique(SortDedup(SortDedup(s)), SortDedup(s));
  }

  /** A list that is already strictly sorted is left as it is. */
  lemma SortDedupSorted(s: seq<String>)
    requires StrictlySorted(s)
    ensures SortDedup(s) == s
  {
    SortedUnique(SortDedup(s), s);
  }

  /** The concatenation of a list of lists, in order. */
  function Concat<T>(ss: seq<seq<T>>): seq<T> {
    if |ss| == 0 then [] else ss[0] + Concat(ss[1..])
  }

  lemma {:induction false} ConcatAppend<T>(a: seq<seq<T>>, b: seq<seq<T>>)
    ensures Concat(a + b) == Concat(a) + Concat(b)
  {
    if |a| == 0 {
      assert a + b == b;
    } else {
      assert (a + b)[1..] == a[1..] + b;
      ConcatAppend(a[1..], b);
    }
  }

  /** `x` occurs in the concatenation exactly when it occurs in one of the parts. */
  lemma {:induction false} ConcatMember<T>(ss: seq<seq<T>>, x: T)
    ensures x in Concat(ss) <==> exists i | 0 <= i < |ss| :: x in ss[i]
  {
    if |ss| > 0 {
      ConcatMember(ss[1..], x);
      if x in Concat(ss[1..]) {
        var i :| 0 <= i < |ss[1..]| && x in ss[1..][i];
        assert x in ss[i + 1];
      }
      if exists i | 0 <= i < |ss| :: x in ss[i] {
        var i :| 0 <= i < |ss| && x in ss[i];
        if i > 0 {
          assert x in ss[1..][i - 1];
        }
      }
    }
  }

  /** The parts joined by `sep`: empty for no parts, else parts[0] sep parts[1] ... */
  function Join(parts: seq<String>, sep: String): String {
    if |parts| == 0 then []
    else if |parts| == 1 then parts[0]
    else parts[0] + sep + Join(parts[1..], sep)
  }

  /** Joining one more part adds the separator and that part at the end. */
  lemma {:induction false} JoinAppend(parts: seq<String>, sep: String, x: String)
    requires |parts| > 0
    ensures Join(parts + [x], sep) == Join(parts, sep) + sep + x
  {
    if |parts| == 1 {
      assert (parts + [x])[1..] == [x];
    } else {
      assert (parts + [x])[1..] == parts[1..] + [x];
      JoinAppend(parts[1..], sep, x);
    }
  }

  /** Cut `s` at every `sep`: the pieces between separators, in order, empty pieces included. */
  function Split(s: String, sep: char): (r: seq<String>)
    ensures |r| >= 1
    ensures forall i | 0 <= i < |r| :: sep !in r[i]
  {
    if |s| == 0 then [[]]
    else if s[0] == sep then [[]] + Split(s[1..], sep)
    else
      var rest := Split(s[1..], sep);
      [[s[0]] + rest[0]] + rest[1..]
  }

  /** Joining the pieces with the separator gives back the string. */
  lemma {:induction false} SplitJoin(s: String, sep: char)
    ensures Join(Split(s, sep), [sep]) == s
  {
    if |s| > 0 {
      var rest := Split(s[1..], sep);
      SplitJoin(s[1..], sep);
      if s[0] == sep {
        assert Split(s, sep)[1..] == rest;
      } else {
        var r := Split(s, sep);
        if |rest| == 1 {
          assert r == [[s[0]] + rest[0]];
        } else {
          assert r[1..] == rest[1..];
          assert Join(rest, [sep]) == rest[0] + [sep] + Join(rest[1..], [sep]);
        }
      }
    }
  }

  /** Splitting pieces joined by the separator gives back the pieces, when none contains it. */
  lemma {:induction false} JoinSplit(parts: seq<String>, sep: char)
    requires |parts| >= 1
    requires forall i | 0 <= i < |parts| :: sep !in parts[i]
    ensures Split(Join(parts, [sep]), sep) == parts
    decreases |parts|, |parts[0]|
  {
    if |parts[0]| > 0 {
      var tail := [parts[0][1..]] + parts[1..];
      assert forall i | 0 <= i < |tail| :: sep !in tail[i] by {
        forall i | 0 <= i < |tail| ensures sep !in tail[i] {
          if i > 0 {
            assert tail[i] == parts[i];
          }
        }
      }
      JoinSplit(tail, sep);
      if |parts| == 1 {
        assert Join(parts, [sep]) == parts[0];
        assert Join(tail, [sep]) == parts[0][1..];
        assert parts[0] == [parts[0][0]] + parts[0][1..];
      } else {
        assert Join(parts, [sep]) == parts[0] + [sep] + Join(parts[1..], [sep]);
        assert Join(tail, [sep]) == parts[0][1..] + [sep] + Join(parts[1..], [sep]);
        assert Join(parts, [sep])[1..] == Join(tail, [sep]);
        assert Join(parts, [sep])[0] == parts[0][0];
        assert parts[0] == [parts[0][0]] + parts[0][1..];
      }
    } else if |parts| > 1 {
      JoinSplit(parts[1..], sep);
      assert Join(parts, [sep]) == [sep] + Join(parts[1..], [sep]);
      assert Join(parts, [sep])[1..] == Join(parts[1..], [sep]);
    }
  }

  /** `p` is a prefix of `s`. */
  predicate StartsWith(s: String, p: String) {
    |p| <= |s| && s[..|p|] == p
  }

  /** `p` occurs somewhere inside `s`. */
  predicate Contains(s: String, p: String) {
    exists i | 0 <= i <= |s| - |p| :: StartsWith(s[i..], p)
  }
}
