/**
 * Searching and splitting sequences the way Python's `bytes`/`str` methods
 * `find`, `rfind`, `split(sep)`, `split(sep, 1)` and `rsplit(sep, 1)` do:
 * occurrences are found left to right without overlap, and a separator is
 * never empty where these are used.
 */
module Seqs {
  import opened Outcomes

  /** `sep` occurs in `s` starting at index `i`. */
  predicate OccursAt<T(==)>(s: seq<T>, sep: seq<T>, i: int) {
    0 <= i && i + |sep| <= |s| && s[i..i + |sep|] == sep
  }

  /** No occurrence of `sep` in `s` starts before index `k`. */
  predicate NoneBefore<T(==)>(s: seq<T>, sep: seq<T>, k: int) {
    forall i :: 0 <= i < k ==> !OccursAt(s, sep, i)
  }

  /** No occurrence of `sep` in `s` starts after index `k`. */
  predicate NoneAfter<T(==)>(s: seq<T>, sep: seq<T>, k: int) {
    forall i :: k < i <= |s| ==> !OccursAt(s, sep, i)
  }

  /** `sep` does not occur anywhere in `s`. */
  predicate Free<T(==)>(s: seq<T>, sep: seq<T>) {
    forall i :: 0 <= i <= |s| ==> !OccursAt(s, sep, i)
  }

  /**
   * `part`, followed by `sep`, is cut exactly at that `sep`: no earlier
   * occurrence of `sep` starts inside `part`, even one running into the
   * following separator.
   */
  predicate Delimits<T(==)>(part: seq<T>, sep: seq<T>) {
    NoneBefore(part + sep, sep, |part|)
  }

  predicate StartsWith<T(==)>(s: seq<T>, prefix: seq<T>) {
    |prefix| <= |s| && s[..|prefix|] == prefix
  }

  predicate EndsWith<T(==)>(s: seq<T>, suffix: seq<T>) {
    |suffix| <= |s| && s[|s| - |suffix|..] == suffix
  }

  /** Occurrences in a prefix of `s` are occurrences in `s`. */
  lemma OccursInPrefix<T>(s: seq<T>, n: nat, sep: seq<T>, i: int)
    requires n <= |s| && OccursAt(s[..n], sep, i)
    ensures OccursAt(s, sep, i)
  {
    assert s[..n][i..i + |sep|] == s[i..i + |sep|];
  }

  /** An occurrence that fits in a prefix of `s` is an occurrence in that prefix. */
  lemma OccursInWhole<T>(s: seq<T>, n: nat, sep: seq<T>, i: int)
    requires n <= |s| && OccursAt(s, sep, i) && i + |sep| <= n
    ensures OccursAt(s[..n], sep, i)
  {
    assert s[..n][i..i + |sep|] == s[i..i + |sep|];
  }

  /** Occurrences in `s[1..]` are those in `s`, shifted by one. */
  lemma OccursInTail<T>(s: seq<T>, sep: seq<T>, i: nat)
    requires |s| > 0
    ensures OccursAt(s[1..], sep, i) <==> OccursAt(s, sep, i + 1)
  {
    if i + |sep| <= |s| - 1 {
      assert s[1..][i..i + |sep|] == s[i + 1..i + 1 + |sep|];
    }
  }

  /** A prefix grows by one element at a time, and the longest is the whole. */
  lemma PrefixStep<T>(s: seq<T>, i: nat)
    requires i <= |s|
    ensures i < |s| ==> s[..i] + [s[i]] == s[..i + 1]
    ensures s[..|s|] == s
  {
  }

  /** Index of the first occurrence of `sep` in `s` (Python's `find`). */
  function Find<T(==)>(s: seq<T>, sep: seq<T>): (r: Option<nat>)
    requires |sep| > 0
    ensures r.Some? ==> OccursAt(s, sep, r.value) && NoneBefore(s, sep, r.value)
    ensures r.None? ==> Free(s, sep)
    decreases |s|
  {
    if |s| < |sep| then None
    else if s[..|sep|] == sep then Some(0)
    else
      var rest := Find(s[1..], sep);
      assert forall i {:trigger OccursAt(s, sep, i)} :: 0 < i ==> (OccursAt(s[1..], sep, i - 1) <==> OccursAt(s, sep, i)) by {
        forall i | 0 < i ensures OccursAt(s[1..], sep, i - 1) <==> OccursAt(s, sep, i) {
          OccursInTail(s, sep, i - 1);
        }
      }
      match rest
      case None => None
      case Some(k) => Some(k + 1)
  }

  /** The first occurrence is determined by the occurrences. */
  lemma FindIs<T>(s: seq<T>, sep: seq<T>, k: nat)
    requires |sep| > 0 && OccursAt(s, sep, k) && NoneBefore(s, sep, k)
    ensures Find(s, sep) == Some(k)
  {
  }

  /** Index of the last occurrence of `sep` in `s` (Python's `rfind`). */
  function RFind<T(==)>(s: seq<T>, sep: seq<T>): (r: Option<nat>)
    requires |sep| > 0
    ensures r.Some? ==> OccursAt(s, sep, r.value) && NoneAfter(s, sep, r.value)
    ensures r.None? ==> Free(s, sep)
    decreases |s|
  {
    if |s| < |sep| then None
    else if s[|s| - |sep|..] == sep then Some(|s| - |sep|)
    else
      var n := |s| - 1;
      var rest := RFind(s[..n], sep);
      assert forall i {:trigger OccursAt(s, sep, i)} :: OccursAt(s, sep, i) ==> OccursAt(s[..n], sep, i) by {
        forall i | OccursAt(s, sep, i) ensures OccursAt(s[..n], sep, i) {
          OccursInWhole(s, n, sep, i);
        }
      }
      assert forall i {:trigger OccursAt(s[..n], sep, i)} :: OccursAt(s[..n], sep, i) ==> OccursAt(s, sep, i) by {
        forall i | OccursAt(s[..n], sep, i) ensures OccursAt(s, sep, i) {
          OccursInPrefix(s, n, sep, i);
        }
      }
      rest
  }

  /** Pieces joined with `sep` between consecutive pieces (Python's `sep.join`). */
  function Join<T>(parts: seq<seq<T>>, sep: seq<T>): seq<T> {
    if |parts| == 0 then []
    else if |parts| == 1 then parts[0]
    else parts[0] + sep + Join(parts[1..], sep)
  }

  /** Joining two non-empty lists puts one separator between them. */
  lemma {:induction false} JoinAppend<T>(a: seq<seq<T>>, b: seq<seq<T>>, sep: seq<T>)
    requires |a| > 0 && |b| > 0
    ensures Join(a + b, sep) == Join(a, sep) + sep + Join(b, sep)
  {
    if |a| == 1 {
      assert (a + b)[1..] == b;
    } else {
      assert (a + b)[1..] == a[1..] + b;
      JoinAppend(a[1..], b, sep);
    }
  }

  /**
   * Python's `s.split(sep)`: the pieces between consecutive non-overlapping
   * occurrences of `sep`, scanned from the left.
   */
  function Split<T(==)>(s: seq<T>, sep: seq<T>): (r: seq<seq<T>>)
    requires |sep| > 0
    ensures |r| >= 1
    ensures Join(r, sep) == s
    ensures forall i :: 0 <= i < |r| - 1 ==> Delimits(r[i], sep)
    ensures Free(r[|r| - 1], sep)
    decreases |s|
  {
    match Find(s, sep)
    case None => [s]
    case Some(k) =>
      var head, tail := s[..k], s[k + |sep|..];
      assert s == head + sep + tail;
      PrefixDelimits(head, sep, tail);
      var rest := Split(tail, sep);
      assert ([head] + rest)[1..] == rest;
      [head] + rest
  }

  /** A first occurrence at `|head|` makes `head` delimited by `sep`. */
  lemma PrefixDelimits<T>(head: seq<T>, sep: seq<T>, tail: seq<T>)
    requires NoneBefore(head + sep + tail, sep, |head|)
    ensures Delimits(head, sep)
  {
    var s := head + sep + tail;
    assert s[..|head + sep|] == head + sep;
    forall i | 0 <= i < |head| ensures !OccursAt(head + sep, sep, i) {
      if OccursAt(head + sep, sep, i) {
        OccursInPrefix(s, |head + sep|, sep, i);
      }
    }
  }

  /** A delimited `head` followed by `sep` is found exactly there. */
  lemma DelimitsFind<T>(head: seq<T>, sep: seq<T>, tail: seq<T>)
    requires |sep| > 0 && Delimits(head, sep)
    ensures Find(head + sep + tail, sep) == Some(|head|)
  {
    var s := head + sep + tail;
    assert s[..|head + sep|] == head + sep;
    forall i | 0 <= i < |head| ensures !OccursAt(s, sep, i) {
      if OccursAt(s, sep, i) {
        OccursInWhole(s, |head + sep|, sep, i);
      }
    }
    assert s[|head|..|head| + |sep|] == sep;
    FindIs(s, sep, |head|);
  }

  /**
   * Splitting undoes joining whenever every piece is cut exactly at the
   * separator that follows it and the last piece holds no separator.
   */
  lemma {:induction false} SplitJoin<T>(parts: seq<seq<T>>, sep: seq<T>)
    requires |sep| > 0 && |parts| >= 1
    requires forall i :: 0 <= i < |parts| - 1 ==> Delimits(parts[i], sep)
    requires Free(parts[|parts| - 1], sep)
    ensures Split(Join(parts, sep), sep) == parts
  {
    if |parts| == 1 {
      assert Find(parts[0], sep) == None;
    } else {
      var tail := Join(parts[1..], sep);
      DelimitsFind(parts[0], sep, tail);
      var s := parts[0] + sep + tail;
      assert s[..|parts[0]|] == parts[0];
      assert s[|parts[0]| + |sep|..] == tail;
      SplitJoin(parts[1..], sep);
      assert parts == [parts[0]] + parts[1..];
    }
  }

  /**
   * Python's `a, b = s.split(sep, 1)`: the text before the first `sep` and
   * the text after it; the unpacking fails when `sep` does not occur.
   */
  function SplitOnce<T(==)>(s: seq<T>, sep: seq<T>): (r: Option<(seq<T>, seq<T>)>)
    requires |sep| > 0
    ensures r.None? <==> Free(s, sep)
    ensures r.Some? ==> r.value.0 + sep + r.value.1 == s && Delimits(r.value.0, sep)
  {
    match Find(s, sep)
    case None => None
    case Some(k) =>
      assert s == s[..k] + sep + s[k + |sep|..];
      PrefixDelimits(s[..k], sep, s[k + |sep|..]);
      Some((s[..k], s[k + |sep|..]))
  }

  /**
   * Python's `a, b = s.rsplit(sep, 1)`: the text before the last `sep` and
   * the text after it; the unpacking fails when `sep` does not occur.
   */
  function RSplitOnce<T(==)>(s: seq<T>, sep: seq<T>): (r: Option<(seq<T>, seq<T>)>)
    requires |sep| > 0
    ensures r.None? <==> Free(s, sep)
    ensures r.Some? ==> r.value.0 + sep + r.value.1 == s && NoneAfter(s, sep, |r.value.0|)
  {
    match RFind(s, sep)
    case None => None
    case Some(k) =>
      assert s == s[..k] + sep + s[k + |sep|..];
      Some((s[..k], s[k + |sep|..]))
  }

  /** A separator that ends `s` and occurs nowhere else in it is the last one. */
  lemma RSplitOnceSuffix<T>(body: seq<T>, sep: seq<T>)
    requires |sep| > 0
    ensures RSplitOnce(body + sep, sep) == Some((body, []))
  {
    var s := body + sep;
    assert s[|s| - |sep|..] == sep;
    assert RFind(s, sep) == Some(|body|);
    assert s[..|body|] == body;
  }

  /** Every `cr` in `s` is followed, two places on, by something other than `cr`. */
  predicate NoBlankLine<T(==)>(s: seq<T>, cr: T) {
    forall i :: 0 <= i < |s| && s[i] == cr ==> i + 2 < |s| && s[i + 2] != cr
  }

  /**
   * Lines without `cr`, all but the first non-empty, joined by `cr lf`, hold
   * no empty line after the first: no `cr` in the joined text is followed
   * by another `cr` two places on.
   */
  lemma {:induction false} JoinedLinesNoBlank<T>(lines: seq<seq<T>>, cr: T, lf: T)
    requires cr != lf && |lines| >= 1
    requires forall i :: 1 <= i < |lines| ==> |lines[i]| > 0
    requires forall i :: 0 <= i < |lines| ==> cr !in lines[i]
    ensures NoBlankLine(Join(lines, [cr, lf]), cr)
  {
    if |lines| > 1 {
      var rest := Join(lines[1..], [cr, lf]);
      JoinedLinesNoBlank(lines[1..], cr, lf);
      var l := lines[0];
      var s := l + [cr, lf] + rest;
      assert |rest| > 0 && rest[0] == lines[1][0] by {
        if |lines| == 2 { } else { assert rest == lines[1] + [cr, lf] + Join(lines[2..], [cr, lf]); }
      }
      forall i | 0 <= i < |s| && s[i] == cr ensures i + 2 < |s| && s[i + 2] != cr {
        if i == |l| {
          assert s[i + 2] == rest[0];
        } else if i > |l| + 1 {
          assert s[i] == rest[i - |l| - 2];
          assert s[i + 2] == rest[i - |l|];
        }
      }
    }
  }

  /**
   * After lines without `cr`, all but the first non-empty, joined by
   * `cr lf`, the first blank line (`cr lf cr lf`) is the one that follows
   * the last line.
   */
  lemma BlankLineAfterLines<T>(lines: seq<seq<T>>, cr: T, lf: T, rest: seq<T>)
    requires cr != lf && |lines| >= 1
    requires forall i :: 1 <= i < |lines| ==> |lines[i]| > 0
    requires forall i :: 0 <= i < |lines| ==> cr !in lines[i]
    ensures Find(Join(lines, [cr, lf]) + [cr, lf, cr, lf] + rest, [cr, lf, cr, lf]) == Some(|Join(lines, [cr, lf])|)
  {
    var head := Join(lines, [cr, lf]);
    var sep := [cr, lf, cr, lf];
    JoinedLinesNoBlank(lines, cr, lf);
    forall i | 0 <= i < |head| ensures !OccursAt(head + sep, sep, i) {
      var t := head + sep;
      if head[i] == cr {
        assert t[i..i + 4][2] == head[i + 2] != cr;
      } else {
        assert t[i..i + 4][0] == head[i] != cr;
      }
    }
    DelimitsFind(head, sep, rest);
  }

  /** So splitting once at the first blank line gives back the joined lines and what follows. */
  lemma SplitAtBlankLine<T>(lines: seq<seq<T>>, cr: T, lf: T, rest: seq<T>)
    requires cr != lf && |lines| >= 1
    requires forall i :: 1 <= i < |lines| ==> |lines[i]| > 0
    requires forall i :: 0 <= i < |lines| ==> cr !in lines[i]
    ensures SplitOnce(Join(lines, [cr, lf]) + [cr, lf, cr, lf] + rest, [cr, lf, cr, lf]) == Some((Join(lines, [cr, lf]), rest))
  {
    var head := Join(lines, [cr, lf]);
    var s := head + [cr, lf, cr, lf] + rest;
    BlankLineAfterLines(lines, cr, lf, rest);
    assert s[..|head|] == head && s[|head| + 4..] == rest;
  }

  /** A line without `cr` is delimited by any separator that starts with `cr`. */
  lemma LineDelimits<T>(line: seq<T>, sep: seq<T>)
    requires |sep| > 0 && sep[0] !in line
    ensures Delimits(line, sep)
  {
    forall i | 0 <= i < |line| ensures !OccursAt(line + sep, sep, i) {
    }
  }

  /** A one-element separator is absent exactly when that element is. */
  lemma FreeSingle<T>(s: seq<T>, c: T)
    ensures Free(s, [c]) <==> c !in s
  {
    if c in s {
      var i :| 0 <= i < |s| && s[i] == c;
      assert s[i..i + 1] == [c];
      assert OccursAt(s, [c], i);
    } else {
      forall i | 0 <= i < |s| ensures !OccursAt(s, [c], i) {
        assert s[i..i + 1][0] == s[i] != c;
      }
    }
  }

  /** Splitting at a single element gives one piece more than it occurs. */
  lemma {:induction false} SplitSingleCount<T>(s: seq<T>, c: T)
    ensures |Split(s, [c])| == multiset(s)[c] + 1
    decreases |s|
  {
    match Find(s, [c])
    case None =>
      FreeSingle(s, c);
    case Some(k) =>
      var head, tail := s[..k], s[k + 1..];
      assert s == head + [c] + tail;
      FreeSingle(head, c);
      assert Free(head, [c]) by {
        forall i | 0 <= i <= |head| ensures !OccursAt(head, [c], i) {
          if OccursAt(head, [c], i) {
            OccursInPrefix(s, k, [c], i);
          }
        }
      }
      SplitSingleCount(tail, c);
      assert multiset(s) == multiset(head) + multiset{c} + multiset(tail);
  }

  /** A piece delimited by a one-element separator does not contain it. */
  lemma DelimitsSingle<T>(a: seq<T>, c: T)
    requires Delimits(a, [c])
    ensures c !in a
  {
    if c in a {
      var i :| 0 <= i < |a| && a[i] == c;
      assert (a + [c])[i..i + 1] == [c];
      assert OccursAt(a + [c], [c], i);
    }
  }

  /** Around the first `c`, the count of `c` drops by one. */
  lemma CountAfterFirst<T>(s: seq<T>, a: seq<T>, c: T, b: seq<T>)
    requires s == a + [c] + b && c !in a
    ensures multiset(s)[c] == multiset(b)[c] + 1
  {
    assert multiset(s) == multiset(a) + multiset{c} + multiset(b);
  }

  /** Splitting once at a separator that delimits `a` gives `a` and the rest. */
  lemma SplitOnceAt<T>(a: seq<T>, sep: seq<T>, b: seq<T>)
    requires |sep| > 0 && Delimits(a, sep)
    ensures SplitOnce(a + sep + b, sep) == Some((a, b))
  {
    DelimitsFind(a, sep, b);
    var s := a + sep + b;
    assert s[..|a|] == a && s[|a| + |sep|..] == b;
  }
}
