/** Splitting a sequence at a separator and joining parts with one, with the
    semantics of Python's `bytes.split(sep)` / `str.split(sep)` and
    `sep.join(parts)`: splitting never drops empty parts, and an empty input
    splits into one empty part. */
module Seqs {

  /** The parts of `s` between occurrences of `sep`, in order. */
  function Split<T(==)>(s: seq<T>, sep: T): (parts: seq<seq<T>>)
    ensures |parts| >= 1
    decreases |s|
  {
    if |s| == 0 then [[]]
    else
      var rest := Split(s[1..], sep);
      if s[0] == sep then [[]] + rest
      else [[s[0]] + rest[0]] + rest[1..]
  }

  /** The parts concatenated with one `sep` between neighbours. */
  function Join<T>(parts: seq<seq<T>>, sep: T): seq<T>
  {
    if |parts| == 0 then []
    else if |parts| == 1 then parts[0]
    else parts[0] + [sep] + Join(parts[1..], sep)
  }

  /** The number of occurrences of `x` in `s`. */
  function Count<T(==)>(s: seq<T>, x: T): nat
  {
    if |s| == 0 then 0 else (if s[0] == x then 1 else 0) + Count(s[1..], x)
  }

  /** Sum of the part lengths. */
  function TotalLength<T>(parts: seq<seq<T>>): nat
  {
    if |parts| == 0 then 0 else |parts[0]| + TotalLength(parts[1..])
  }

  ghost predicate Free<T>(parts: seq<seq<T>>, sep: T)
  {
    forall i :: 0 <= i < |parts| ==> sep !in parts[i]
  }

  lemma {:induction false} CountAppend<T>(a: seq<T>, b: seq<T>, x: T)
    ensures Count(a + b, x) == Count(a, x) + Count(b, x)
    decreases |a|
  {
    if |a| == 0 {
      assert a + b == b;
    } else {
      assert (a + b)[1..] == a[1..] + b;
      CountAppend(a[1..], b, x);
    }
  }

  lemma {:induction false} CountAbsent<T>(s: seq<T>, x: T)
    requires x !in s
    ensures Count(s, x) == 0
    decreases |s|
  {
    if |s| > 0 {
      CountAbsent(s[1..], x);
    }
  }

  /** Joining the parts of a split gives the original sequence back. */
  lemma {:induction false} JoinSplit<T>(s: seq<T>, sep: T)
    ensures Join(Split(s, sep), sep) == s
    decreases |s|
  {
    if |s| > 0 {
      var rest := Split(s[1..], sep);
      JoinSplit(s[1..], sep);
      if s[0] == sep {
        assert Split(s, sep) == [[]] + rest;
        assert ([[]] + rest)[1..] == rest;
      } else {
        var parts := [[s[0]] + rest[0]] + rest[1..];
        assert Split(s, sep) == parts;
        if |rest| == 1 {
          assert parts == [[s[0]] + rest[0]];
        } else {
          assert parts[1..] == rest[1..];
          assert Join(rest, sep) == rest[0] + [sep] + Join(rest[1..], sep);
        }
      }
    }
  }

  /** No part of a split contains the separator. */
  lemma {:induction false} SplitFree<T>(s: seq<T>, sep: T)
    ensures Free(Split(s, sep), sep)
    decreases |s|
  {
    if |s| > 0 {
      SplitFree(s[1..], sep);
      var rest := Split(s[1..], sep);
      if s[0] != sep {
        var parts := [[s[0]] + rest[0]] + rest[1..];
        forall i | 0 <= i < |parts|
          ensures sep !in parts[i]
        {
          if i > 0 {
            assert parts[i] == rest[i];
          }
        }
      } else {
        var parts := [[]] + rest;
        forall i | 0 <= i < |parts|
          ensures sep !in parts[i]
        {
          if i > 0 {
            assert parts[i] == rest[i - 1];
          }
        }
      }
    }
  }

  /** Splitting a join of separator-free parts recovers the parts. */
  lemma {:induction false} SplitJoin<T>(parts: seq<seq<T>>, sep: T)
    requires |parts| >= 1
    requires Free(parts, sep)
    ensures Split(Join(parts, sep), sep) == parts
    decreases TotalLength(parts) + |parts|
  {
    var head := parts[0];
    if |head| == 0 {
      if |parts| > 1 {
        var tail := parts[1..];
        assert Join(parts, sep) == [sep] + Join(tail, sep);
        assert Free(tail, sep) by {
          forall i | 0 <= i < |tail| ensures sep !in tail[i] {
            assert tail[i] == parts[i + 1];
          }
        }
        assert TotalLength(parts) == TotalLength(tail);
        SplitJoin(tail, sep);
        assert ([sep] + Join(tail, sep))[1..] == Join(tail, sep);
        assert [[]] + tail == parts;
      }
    } else {
      var shorter := [head[1..]] + parts[1..];
      assert shorter[1..] == parts[1..];
      assert Free(shorter, sep) by {
        forall i | 0 <= i < |shorter| ensures sep !in shorter[i] {
          if i == 0 {
            assert forall x :: x in head[1..] ==> x in head;
          } else {
            assert shorter[i] == parts[i];
          }
        }
      }
      assert TotalLength(parts) == |head| + TotalLength(parts[1..]);
      assert TotalLength(shorter) == |head| - 1 + TotalLength(parts[1..]);
      SplitJoin(shorter, sep);
      var joined := Join(parts, sep);
      var rest := Join(shorter, sep);
      if |parts| == 1 {
        assert joined == head;
        assert rest == head[1..];
      } else {
        assert joined == head + [sep] + Join(parts[1..], sep);
        assert rest == head[1..] + [sep] + Join(parts[1..], sep);
      }
      assert joined[0] == head[0] && joined[1..] == rest;
      assert head[0] != sep by {
        assert head[0] in parts[0];
      }
      var split := Split(rest, sep);
      assert split == shorter;
      assert Split(joined, sep) == [[head[0]] + split[0]] + split[1..];
      assert [head[0]] + head[1..] == head;
      assert [[head[0]] + split[0]] + split[1..] == parts;
    }
  }

  /** A join of separator-free parts holds one separator fewer than parts. */
  lemma {:induction false} CountJoin<T>(parts: seq<seq<T>>, sep: T)
    requires |parts| >= 1
    requires Free(parts, sep)
    ensures Count(Join(parts, sep), sep) == |parts| - 1
    decreases |parts|
  {
    CountAbsent(parts[0], sep);
    if |parts| > 1 {
      var tail := parts[1..];
      assert Free(tail, sep) by {
        forall i | 0 <= i < |tail| ensures sep !in tail[i] {
          assert tail[i] == parts[i + 1];
        }
      }
      CountJoin(tail, sep);
      CountAppend(parts[0] + [sep], Join(tail, sep), sep);
      CountAppend(parts[0], [sep], sep);
      assert Count([sep], sep) == 1;
    }
  }

  /** The length of a join: every part plus one separator between neighbours. */
  lemma {:induction false} JoinLength<T>(parts: seq<seq<T>>, sep: T)
    requires |parts| >= 1
    ensures |Join(parts, sep)| == TotalLength(parts) + |parts| - 1
    decreases |parts|
  {
    if |parts| > 1 {
      JoinLength(parts[1..], sep);
    }
  }
}
