/** Why the record parsers may decode names at depth `|buf|`: a successful
    decode follows each pointer offset at most once, so it follows fewer
    pointers than the buffer has bytes, and a decode that succeeds at some
    depth gives the same result at depth `|buf|`. A pointer chain that comes
    back to an offset it has followed therefore never succeeds. */
module Depths {
  import opened Results
  import opened Bytes
  import opened Cursor
  import opened Decoder

  /** The target of the pointer at offset `p`. */
  function TargetAt(buf: seq<Byte>, p: nat): nat
    requires p + 1 < |buf|
  {
    PointerTarget(buf[p], buf[p + 1])
  }

  /** The offsets of the pointers a successful label walk follows, in order. */
  ghost function Pointers(buf: seq<Byte>, pos: nat, depth: nat): seq<nat>
    requires NameParts(buf, pos, depth).Ok?
    decreases depth, |buf| - pos
  {
    var b := buf[pos];
    if b == 0 then []
    else if IsPointer(b) then
      [pos] + Pointers(buf, PointerTarget(b, buf[pos + 1]), depth - 1)
    else
      Pointers(buf, ReadUpTo(buf, pos + 1, b).1, depth)
  }

  /** Which pointers a successful walk follows does not depend on the depth
      it was given. */
  lemma {:induction false} PointersDepthFree(buf: seq<Byte>, pos: nat, depth: nat, other: nat)
    requires NameParts(buf, pos, depth).Ok? && NameParts(buf, pos, other).Ok?
    ensures Pointers(buf, pos, depth) == Pointers(buf, pos, other)
    decreases depth, |buf| - pos
  {
    var b := buf[pos];
    if b == 0 {
    } else if IsPointer(b) {
      PointersDepthFree(buf, PointerTarget(b, buf[pos + 1]), depth - 1, other - 1);
    } else {
      PointersDepthFree(buf, ReadUpTo(buf, pos + 1, b).1, depth, other);
    }
  }

  /** How many pointers a successful walk follows does not depend on its depth. */
  lemma CountDepthFree(buf: seq<Byte>, pos: nat, depth: nat, other: nat)
    requires NameParts(buf, pos, depth).Ok? && NameParts(buf, pos, other).Ok?
    ensures |Pointers(buf, pos, depth)| == |Pointers(buf, pos, other)|
  {
    PointersDepthFree(buf, pos, depth, other);
  }

  /** A walk that succeeds gives the same result with any depth that covers
      the pointers it follows. */
  lemma {:induction false} EnoughDepth(buf: seq<Byte>, pos: nat, depth: nat, more: nat)
    requires NameParts(buf, pos, depth).Ok?
    requires |Pointers(buf, pos, depth)| <= more
    ensures NameParts(buf, pos, more) == NameParts(buf, pos, depth)
    decreases depth, |buf| - pos
  {
    var b := buf[pos];
    if b == 0 {
    } else if IsPointer(b) {
      var t := PointerTarget(b, buf[pos + 1]);
      EnoughDepth(buf, t, depth - 1, more - 1);
      assert DecodeName(buf, t, more - 1) == DecodeName(buf, t, depth - 1);
    } else {
      EnoughDepth(buf, ReadUpTo(buf, pos + 1, b).1, depth, more);
    }
  }

  /** After the `i`-th pointer a walk follows, as many pointers remain as the
      walk from that pointer's target `t` follows with that much less depth. */
  lemma {:induction false} ChainAfter(buf: seq<Byte>, pos: nat, depth: nat, i: nat) returns (t: nat)
    requires NameParts(buf, pos, depth).Ok?
    requires i < |Pointers(buf, pos, depth)|
    ensures var ps := Pointers(buf, pos, depth);
            && ps[i] + 1 < |buf| && IsPointer(buf[ps[i]]) && i < depth
            && t == TargetAt(buf, ps[i])
            && NameParts(buf, t, depth - i - 1).Ok?
            && |Pointers(buf, t, depth - i - 1)| == |ps| - i - 1
    decreases depth, |buf| - pos
  {
    var b := buf[pos];
    if IsPointer(b) {
      if i > 0 {
        t := ChainAfter(buf, PointerTarget(b, buf[pos + 1]), depth - 1, i - 1);
      } else {
        t := PointerTarget(b, buf[pos + 1]);
      }
    } else {
      t := ChainAfter(buf, ReadUpTo(buf, pos + 1, b).1, depth, i);
    }
  }

  /** A successful decode never follows a pointer at an offset it has
      already followed: the chain after the second visit would repeat the
      chain after the first, yet be shorter. */
  lemma NoPointerTwice(buf: seq<Byte>, pos: nat, depth: nat, i: nat, j: nat)
    requires NameParts(buf, pos, depth).Ok?
    requires i < j < |Pointers(buf, pos, depth)|
    ensures Pointers(buf, pos, depth)[i] != Pointers(buf, pos, depth)[j]
  {
    var ti := ChainAfter(buf, pos, depth, i);
    var tj := ChainAfter(buf, pos, depth, j);
    if Pointers(buf, pos, depth)[i] == Pointers(buf, pos, depth)[j] {
      assert ti == tj;
      CountDepthFree(buf, ti, depth - i - 1, depth - j - 1);
      assert false;
    }
  }

  /** The pointers a successful decode follows sit at pairwise distinct
      offsets, all inside the buffer. */
  lemma PointersDistinct(buf: seq<Byte>, pos: nat, depth: nat)
    requires NameParts(buf, pos, depth).Ok?
    ensures forall i, j :: 0 <= i < j < |Pointers(buf, pos, depth)| ==>
              Pointers(buf, pos, depth)[i] != Pointers(buf, pos, depth)[j]
    ensures forall i :: 0 <= i < |Pointers(buf, pos, depth)| ==> Pointers(buf, pos, depth)[i] < |buf|
  {
    forall i, j | 0 <= i < j < |Pointers(buf, pos, depth)|
      ensures Pointers(buf, pos, depth)[i] != Pointers(buf, pos, depth)[j]
    {
      NoPointerTwice(buf, pos, depth, i, j);
    }
    forall i | 0 <= i < |Pointers(buf, pos, depth)|
      ensures Pointers(buf, pos, depth)[i] < |buf|
    {
      var _ := ChainAfter(buf, pos, depth, i);
    }
  }

  /** Pairwise distinct numbers below `n` number at most `n`. */
  lemma {:induction false} Pigeonhole(s: seq<nat>, n: nat)
    requires forall i, j :: 0 <= i < j < |s| ==> s[i] != s[j]
    requires forall i :: 0 <= i < |s| ==> s[i] < n
    ensures |s| <= n
  {
    if |s| == 0 {
    } else if k :| 0 <= k < |s| && s[k] == n - 1 {
      var rest := s[..k] + s[k + 1..];
      assert forall i :: 0 <= i < |rest| ==> rest[i] == if i < k then s[i] else s[i + 1];
      Pigeonhole(rest, n - 1);
    } else {
      assert s[0] < n;
      Pigeonhole(s, n - 1);
    }
  }

  /** A name that decodes at some depth decodes to the same name and cursor
      at depth `|buf|`, the depth the record parsers use. */
  lemma DepthSuffices(buf: seq<Byte>, pos: nat, depth: nat)
    requires DecodeName(buf, pos, depth).Ok?
    ensures DecodeName(buf, pos, Depth(buf)) == DecodeName(buf, pos, depth)
  {
    assert NameParts(buf, pos, depth).Ok?;
    PointersDistinct(buf, pos, depth);
    Pigeonhole(Pointers(buf, pos, depth), |buf|);
    EnoughDepth(buf, pos, depth, Depth(buf));
  }
}
