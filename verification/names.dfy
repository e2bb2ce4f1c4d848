/** Properties of the name decoders: both invert the label encoding, they
    agree wherever no pointer occurs, a pointer ends a name and restores the
    cursor, a self-referential pointer never resolves, and extra depth never
    changes a result that did not run out of depth. */
module Names {
  import opened Results
  import opened Bytes
  import opened Cursor
  import opened Encoder
  import opened Decoder
  import Seqs

  /** Every label non-empty: a zero-length label would read as the terminator. */
  predicate NonEmpty(labels: seq<seq<Byte>>)
  {
    forall i :: 0 <= i < |labels| ==> |labels[i]| > 0
  }

  /** Every label shorter than 64 bytes: a longer one would read as a pointer. */
  predicate Short(labels: seq<seq<Byte>>)
  {
    forall i :: 0 <= i < |labels| ==> |labels[i]| < 0x40
  }

  /** From `pos` on, the length bytes the label walk meets are all literal
      lengths (no pointer), up to a terminator or the end of the buffer. */
  ghost predicate LiteralFrom(buf: seq<Byte>, pos: nat)
    decreases |buf| - pos
  {
    pos < |buf| ==>
      buf[pos] == 0 ||
      (!IsPointer(buf[pos]) && LiteralFrom(buf, ReadUpTo(buf, pos + 1, buf[pos]).1))
  }

  lemma TailFacts(labels: seq<seq<Byte>>)
    requires |labels| > 0 && LabelsFit(labels)
    ensures LabelsFit(labels[1..])
    ensures NonEmpty(labels) ==> NonEmpty(labels[1..])
    ensures Short(labels) ==> Short(labels[1..])
    ensures Wire(labels) == [|labels[0]|] + labels[0] + Wire(labels[1..])
  {
    assert forall i :: 1 <= i < |labels| ==> labels[i] == labels[1..][i - 1];
  }

  /** A length byte followed by its label, seen by the two reads that take it. */
  lemma ReadLabel(buf: seq<Byte>, pre: seq<Byte>, l: seq<Byte>, rest: seq<Byte>)
    requires |l| < 0x100 && buf == pre + [|l|] + l + rest
    ensures Yields(ReadByte(buf, |pre|), |l|, |pre| + 1)
    ensures ReadUpTo(buf, |pre| + 1, |l|) == (l, |pre| + 1 + |l|)
  {
    assert buf[|pre|] == |l|;
    assert buf[|pre| + 1..|pre| + 1 + |l|] == l;
  }

  /** The non-compressing walk reads back the labels of a wire encoding,
      wherever it sits in a buffer. */
  lemma {:induction false} SimpleLabelsWire(pre: seq<Byte>, labels: seq<seq<Byte>>, post: seq<Byte>)
    requires LabelsFit(labels) && NonEmpty(labels)
    ensures Yields(SimpleLabels(pre + Wire(labels) + [0] + post, |pre|), labels, |pre| + |Wire(labels)| + 1)
    decreases |labels|
  {
    var buf := pre + Wire(labels) + [0] + post;
    if |labels| == 0 {
      assert buf[|pre|] == 0;
    } else {
      TailFacts(labels);
      var l := labels[0];
      var tail := labels[1..];
      var pre' := pre + [|l|] + l;
      assert buf == pre' + Wire(tail) + [0] + post;
      ReadLabel(buf, pre, l, Wire(tail) + [0] + post);
      SimpleLabelsWire(pre', tail, post);
      assert [l] + tail == labels;
    }
  }

  /** The compressing walk does the same when every label is also shorter
      than 64 bytes, whatever the depth. */
  lemma {:induction false} WireIsLiteral(pre: seq<Byte>, labels: seq<seq<Byte>>, post: seq<Byte>)
    requires LabelsFit(labels) && NonEmpty(labels) && Short(labels)
    ensures LiteralFrom(pre + Wire(labels) + [0] + post, |pre|)
    decreases |labels|
  {
    var buf := pre + Wire(labels) + [0] + post;
    if |labels| == 0 {
      assert buf[|pre|] == 0;
    } else {
      TailFacts(labels);
      var l := labels[0];
      var pre' := pre + [|l|] + l;
      assert buf == pre' + Wire(labels[1..]) + [0] + post;
      assert buf[|pre|] == |l|;
      WireIsLiteral(pre', labels[1..], post);
    }
  }

  /** Where the walk meets no pointer, `decode_name` collects the same parts
      as `decode_name_simple` and ends at the same place, at any depth. */
  lemma {:induction false} LiteralPartsAgree(buf: seq<Byte>, pos: nat, depth: nat)
    requires LiteralFrom(buf, pos)
    ensures NameParts(buf, pos, depth) == SimpleLabels(buf, pos)
    decreases |buf| - pos
  {
    if pos < |buf| && buf[pos] != 0 {
      var next := ReadUpTo(buf, pos + 1, buf[pos]).1;
      LiteralPartsAgree(buf, next, depth);
    }
  }

  /** On input with no pointer, `decode_name` returns the same name and end
      cursor as `decode_name_simple`. */
  lemma NoPointerAgreement(buf: seq<Byte>, pos: nat, depth: nat)
    requires LiteralFrom(buf, pos)
    ensures DecodeName(buf, pos, depth) == DecodeNameSimple(buf, pos)
  {
    LiteralPartsAgree(buf, pos, depth);
  }

  /** `decode_name_simple` reads the labels of a wire encoding back, joined. */
  lemma SimpleDecodesWire(pre: seq<Byte>, labels: seq<seq<Byte>>, post: seq<Byte>)
    requires LabelsFit(labels) && NonEmpty(labels)
    ensures Yields(DecodeNameSimple(pre + (Wire(labels) + [0]) + post, |pre|), Seqs.Join(labels, Dot), |pre| + |Wire(labels)| + 1)
  {
    assert pre + (Wire(labels) + [0]) + post == pre + Wire(labels) + [0] + post;
    SimpleLabelsWire(pre, labels, post);
  }

  /** Round trip through `decode_name_simple`: an encoded name with no empty
      label decodes to its ASCII bytes, with the cursor just past it. */
  lemma SimpleRoundTrip(pre: seq<Byte>, domain: string, post: seq<Byte>)
    requires EncodeDnsName(domain).Ok?
    requires NonEmpty(Labels(domain))
    ensures Yields(DecodeNameSimple(pre + EncodeDnsName(domain).value + post, |pre|),
                   EncodeAscii(domain).value, |pre| + |domain| + 2)
  {
    var ascii := EncodeAscii(domain).value;
    var labels := Labels(domain);
    assert labels == Seqs.Split(ascii, Dot);
    assert EncodeDnsName(domain).value == Wire(labels) + [0];
    assert |ascii| == |domain|;
    SimpleDecodesAscii(pre, ascii, post);
  }

  lemma SimpleDecodesAscii(pre: seq<Byte>, ascii: seq<Byte>, post: seq<Byte>)
    requires LabelsFit(Seqs.Split(ascii, Dot)) && NonEmpty(Seqs.Split(ascii, Dot))
    ensures Yields(DecodeNameSimple(pre + (Wire(Seqs.Split(ascii, Dot)) + [0]) + post, |pre|), ascii, |pre| + |ascii| + 2)
  {
    var labels := Seqs.Split(ascii, Dot);
    SimpleDecodesWire(pre, labels, post);
    Seqs.JoinSplit(ascii, Dot);
    WireLength(labels);
    Seqs.JoinLength(labels, Dot);
  }

  /** Round trip through `decode_name`: an encoded name whose labels are
      non-empty and shorter than 64 bytes decodes to its ASCII bytes, with
      the cursor just past it, at any depth. */
  lemma RoundTrip(pre: seq<Byte>, domain: string, post: seq<Byte>, depth: nat)
    requires EncodeDnsName(domain).Ok?
    requires NonEmpty(Labels(domain)) && Short(Labels(domain))
    ensures Yields(DecodeName(pre + EncodeDnsName(domain).value + post, |pre|, depth),
                   EncodeAscii(domain).value, |pre| + |domain| + 2)
  {
    var labels := Labels(domain);
    var buf := pre + EncodeDnsName(domain).value + post;
    assert buf == pre + Wire(labels) + [0] + post;
    WireIsLiteral(pre, labels, post);
    NoPointerAgreement(buf, |pre|, depth);
    SimpleRoundTrip(pre, domain, post);
  }

  /** A name with a trailing dot has an empty last label, which the encoder
      writes as a second zero byte: the simple decoder stops at the first
      zero, one byte short of the encoded name's end. */
  lemma TrailingDotCutShort()
    ensures EncodeDnsName("a.") == Ok([1, 'a' as Byte, 0, 0])
    ensures DecodeNameSimple([1, 'a' as Byte, 0, 0], 0) == Ok((['a' as Byte], 3))
  {
    var a := 'a' as Byte;
    assert EncodeAscii("a.").value == [a, Dot];
    assert [a, Dot][1..] == [Dot] && [Dot][1..] == [];
    assert Seqs.Split([Dot], Dot) == [[], []];
    var none: seq<Byte> := [];
    assert a != Dot && [a] + none == [a] && [none, none][1..] == [none];
    assert Seqs.Split([a, Dot], Dot) == [[a], []];
    assert Wire([[a], []]) == [1, a, 0] by {
      assert [[a], []][1..] == [[]];
      assert Wire([[]]) == [0] + [] + Wire([]);
    }
    assert IsAscii("a.");
    assert Labels("a.") == [[a], []];
    assert LabelsFit([[a], []]);
    assert [1, a, 0] + [0] == [1, a, 0, 0];
    var buf := [1, a, 0, 0];
    assert ReadUpTo(buf, 1, 1) == ([a], 2) by {
      assert buf[1..2] == [a];
    }
    assert ReadByte(buf, 0) == Ok((1, 1)) && ReadByte(buf, 2) == Ok((0, 3));
    assert SimpleLabels(buf, 2) == Ok(([], 3));
    assert [[a]] + [] == [[a]];
    assert SimpleLabels(buf, 0) == Ok(([[a]], 3));
  }

  /** The encoder accepts labels of 64 to 255 bytes, but the length byte it
      writes for such a first label is one the name decoder takes for a
      pointer rather than a label length. */
  lemma LongLabelIsPointer(domain: string)
    requires EncodeDnsName(domain).Ok?
    requires |Labels(domain)[0]| >= 0x40
    ensures EncodeDnsName(domain).value[0] == |Labels(domain)[0]|
    ensures IsPointer(EncodeDnsName(domain).value[0])
  {
    TailFacts(Labels(domain));
  }

  /** The two bytes of a pointer to offset `t`, top bits set. */
  function PointerBytes(t: nat): seq<Byte>
    requires t < 0x4000
  {
    [0xC0 + t / 0x100, t % 0x100]
  }

  /** The pointer bytes written for `t` lead back to `t`. */
  lemma PointerBytesTarget(t: nat)
    requires t < 0x4000
    ensures IsPointer(PointerBytes(t)[0])
    ensures PointerTarget(PointerBytes(t)[0], PointerBytes(t)[1]) == t
  {
    var h := t / 0x100;
    assert h < 0x40;
    assert (0xC0 + h) % 0x40 == h;
    assert h * 0x100 + t % 0x100 == t;
  }

  /** A pointer at the cursor: its target's name is the one part, and the
      cursor ends just past the two pointer bytes. */
  lemma PointerAtCursor(pre: seq<Byte>, t: nat, post: seq<Byte>, buf: seq<Byte>, depth: nat)
    requires t < 0x4000 && buf == pre + PointerBytes(t) + post
    requires DecodeName(buf, t, depth).Ok?
    ensures Yields(NameParts(buf, |pre|, depth + 1), [DecodeName(buf, t, depth).value.0], |pre| + 2)
  {
    var name := DecodeName(buf, t, depth).value.0;
    assert buf[|pre|] == PointerBytes(t)[0] && buf[|pre| + 1] == PointerBytes(t)[1];
    PointerBytesTarget(t);
    assert Yields(DecodeCompressedName(buf[|pre|], buf, |pre| + 1, depth + 1), name, |pre| + 2);
  }

  /** A literal label at the cursor is the first part; the rest follow from
      just past it. */
  lemma LabelAtCursor(buf: seq<Byte>, pre: seq<Byte>, l: seq<Byte>, rest: seq<Byte>, depth: nat)
    requires 0 < |l| < 0x40 && buf == pre + [|l|] + l + rest
    requires NameParts(buf, |pre| + 1 + |l|, depth).Ok?
    ensures var rest := NameParts(buf, |pre| + 1 + |l|, depth).value;
            Yields(NameParts(buf, |pre|, depth), [l] + rest.0, rest.1)
  {
    ReadLabel(buf, pre, l, rest);
  }

  /** Literal labels followed by a pointer give the labels in order and then
      the name at the pointer's target, and end just past the pointer. */
  lemma {:induction false} PartsBeforePointer(pre: seq<Byte>, labels: seq<seq<Byte>>, t: nat, post: seq<Byte>,
                                              buf: seq<Byte>, depth: nat)
    requires LabelsFit(labels) && NonEmpty(labels) && Short(labels)
    requires t < 0x4000 && buf == pre + Wire(labels) + PointerBytes(t) + post
    requires DecodeName(buf, t, depth).Ok?
    ensures Yields(NameParts(buf, |pre|, depth + 1), labels + [DecodeName(buf, t, depth).value.0], |pre| + |Wire(labels)| + 2)
    decreases |labels|
  {
    if |labels| == 0 {
      NoLabelsBeforePointer(pre, labels, t, post, buf, depth);
    } else {
      var pre' := ShiftLabel(pre, labels, t, post, buf);
      PartsBeforePointer(pre', labels[1..], t, post, buf, depth);
      StepLabel(pre, labels, t, post, buf, depth);
    }
  }

  /** The base case of `PartsBeforePointer`: the pointer comes first. */
  lemma NoLabelsBeforePointer(pre: seq<Byte>, labels: seq<seq<Byte>>, t: nat, post: seq<Byte>,
                              buf: seq<Byte>, depth: nat)
    requires |labels| == 0
    requires t < 0x4000 && buf == pre + Wire(labels) + PointerBytes(t) + post
    requires DecodeName(buf, t, depth).Ok?
    ensures Yields(NameParts(buf, |pre|, depth + 1), labels + [DecodeName(buf, t, depth).value.0], |pre| + |Wire(labels)| + 2)
  {
    var name := DecodeName(buf, t, depth).value.0;
    assert Wire(labels) == [] && labels + [name] == [name];
    assert buf == pre + PointerBytes(t) + post;
    PointerAtCursor(pre, t, post, buf, depth);
  }

  /** Moving the first label into the prefix keeps the buffer and the
      labels' properties. */
  lemma ShiftLabel(pre: seq<Byte>, labels: seq<seq<Byte>>, t: nat, post: seq<Byte>, buf: seq<Byte>) returns (pre': seq<Byte>)
    requires |labels| > 0 && LabelsFit(labels) && NonEmpty(labels) && Short(labels)
    requires t < 0x4000 && buf == pre + Wire(labels) + PointerBytes(t) + post
    ensures pre' == pre + [|labels[0]|] + labels[0]
    ensures LabelsFit(labels[1..]) && NonEmpty(labels[1..]) && Short(labels[1..])
    ensures buf == pre' + Wire(labels[1..]) + PointerBytes(t) + post
    ensures buf == pre + [|labels[0]|] + labels[0] + (Wire(labels[1..]) + PointerBytes(t) + post)
    ensures |pre'| == |pre| + 1 + |labels[0]|
    ensures |pre'| + |Wire(labels[1..])| == |pre| + |Wire(labels)|
    ensures 0 < |labels[0]| < 0x40
  {
    TailFacts(labels);
    pre' := pre + [|labels[0]|] + labels[0];
  }

  /** The inductive step of `PartsBeforePointer`: the first label in front
      of the parts that follow it. */
  lemma StepLabel(pre: seq<Byte>, labels: seq<seq<Byte>>, t: nat, post: seq<Byte>, buf: seq<Byte>, depth: nat)
    requires |labels| > 0 && LabelsFit(labels) && NonEmpty(labels) && Short(labels)
    requires t < 0x4000 && buf == pre + Wire(labels) + PointerBytes(t) + post
    requires DecodeName(buf, t, depth).Ok?
    requires Yields(NameParts(buf, |pre| + 1 + |labels[0]|, depth + 1), labels[1..] + [DecodeName(buf, t, depth).value.0],
                    |pre| + |Wire(labels)| + 2)
    ensures Yields(NameParts(buf, |pre|, depth + 1), labels + [DecodeName(buf, t, depth).value.0], |pre| + |Wire(labels)| + 2)
  {
    var _ := ShiftLabel(pre, labels, t, post, buf);
    ConsLabel(buf, pre, labels, Wire(labels[1..]) + PointerBytes(t) + post,
              DecodeName(buf, t, depth).value.0, |pre| + |Wire(labels)| + 2, depth + 1);
  }

  /** The inductive step of `PartsBeforePointer`: a literal label in front of
      parts already known. */
  lemma ConsLabel(buf: seq<Byte>, pre: seq<Byte>, labels: seq<seq<Byte>>, rest: seq<Byte>, name: seq<Byte>,
                  end: nat, depth: nat)
    requires |labels| > 0 && 0 < |labels[0]| < 0x40
    requires buf == pre + [|labels[0]|] + labels[0] + rest
    requires Yields(NameParts(buf, |pre| + 1 + |labels[0]|, depth), labels[1..] + [name], end)
    ensures Yields(NameParts(buf, |pre|, depth), labels + [name], end)
  {
    LabelAtCursor(buf, pre, labels[0], rest, depth);
    assert [labels[0]] + (labels[1..] + [name]) == labels + [name];
  }

  /** A name written as literal labels followed by a pointer decodes to those
      labels joined with the name at the pointer's target; the pointer is the
      last component, and the cursor ends just past its two bytes. */
  lemma PointerEndsName(pre: seq<Byte>, labels: seq<seq<Byte>>, t: nat, post: seq<Byte>, depth: nat)
    requires LabelsFit(labels) && NonEmpty(labels) && Short(labels)
    requires t < 0x4000
    requires DecodeName(pre + Wire(labels) + PointerBytes(t) + post, t, depth).Ok?
    ensures var buf := pre + Wire(labels) + PointerBytes(t) + post;
            Yields(DecodeName(buf, |pre|, depth + 1),
                   Seqs.Join(labels + [DecodeName(buf, t, depth).value.0], Dot), |pre| + |Wire(labels)| + 2)
  {
    var buf := pre + Wire(labels) + PointerBytes(t) + post;
    PartsBeforePointer(pre, labels, t, post, buf, depth);
  }

  /** A pointer to itself is followed again and again until the depth runs
      out, whatever the depth: the decoder reports it instead of looping. */
  lemma {:induction false} SelfPointerFails(buf: seq<Byte>, p: nat, depth: nat)
    requires p < 0x4000 && p + 1 < |buf|
    requires buf[p..p + 2] == PointerBytes(p)
    ensures DecodeName(buf, p, depth) == Err(PointerDepth)
    decreases depth
  {
    assert buf[p] == PointerBytes(p)[0] && buf[p + 1] == PointerBytes(p)[1];
    PointerBytesTarget(p);
    if depth > 0 {
      SelfPointerFails(buf, p, depth - 1);
    }
    assert DecodeCompressedName(buf[p], buf, p + 1, depth) == Err(PointerDepth);
    assert NameParts(buf, p, depth) == Err(PointerDepth);
  }

  /** More depth never changes a result that did not run out of depth. */
  lemma {:induction false} NamePartsDepth(buf: seq<Byte>, pos: nat, depth: nat, more: nat)
    requires depth <= more
    requires NameParts(buf, pos, depth) != Err(PointerDepth)
    ensures NameParts(buf, pos, more) == NameParts(buf, pos, depth)
    decreases depth, 0, |buf| - pos
  {
    if pos < |buf| && buf[pos] != 0 {
      if IsPointer(buf[pos]) {
        CompressedDepth(buf[pos], buf, pos + 1, depth, more);
      } else {
        NamePartsDepth(buf, ReadUpTo(buf, pos + 1, buf[pos]).1, depth, more);
      }
    }
  }

  lemma {:induction false} CompressedDepth(length: Byte, buf: seq<Byte>, pos: nat, depth: nat, more: nat)
    requires depth <= more
    requires DecodeCompressedName(length, buf, pos, depth) != Err(PointerDepth)
    ensures DecodeCompressedName(length, buf, pos, more) == DecodeCompressedName(length, buf, pos, depth)
    decreases depth, 0, 0
  {
    if pos < |buf| && depth > 0 {
      DecodeNameDepth(buf, PointerTarget(length, buf[pos]), depth - 1, more - 1);
    }
  }

  /** `decode_name` with more depth than a result needed gives that result:
      the bound only ever turns an endless pointer chase into an error. */
  lemma {:induction false} DecodeNameDepth(buf: seq<Byte>, pos: nat, depth: nat, more: nat)
    requires depth <= more
    requires DecodeName(buf, pos, depth) != Err(PointerDepth)
    ensures DecodeName(buf, pos, more) == DecodeName(buf, pos, depth)
    decreases depth, 1, 0
  {
    NamePartsDepth(buf, pos, depth, more);
  }
}
