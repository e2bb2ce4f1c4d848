/** Encoding of outgoing queries (`part_1.py`): the header and question
    structures, their big-endian packing, the label encoding of a dotted
    name, and the query a stub resolver sends with recursion desired. */
module Encoder {
  import opened Results
  import opened Bytes
  import Seqs

  /** A message header; the four counts default to 0 in the program. */
  datatype Header = Header(
    id: int,
    flags: int,
    numQuestions: int,
    numAnswers: int,
    numAuthorities: int,
    numAdditionals: int)

  /** A question; `name` is already in wire form when encoding, and dotted
      when produced by the decoder. */
  datatype Question = Question(name: seq<Byte>, qtype: int, qclass: int)

  /** Record types: an address, and the name of an authoritative nameserver. */
  const TypeA := 1
  const TypeNs := 2
  const ClassIn := 1
  /** The recursion-desired flag, bit 8 of the flags word (`1 << 8`). */
  const RecursionDesired := 0x0100

  /** The header fields in declaration order, the order they are packed in. */
  function Fields(h: Header): seq<int>
  {
    [h.id, h.flags, h.numQuestions, h.numAnswers, h.numAuthorities, h.numAdditionals]
  }

  predicate InRange(h: Header)
  {
    forall i :: 0 <= i < 6 ==> IsU16(Fields(h)[i])
  }

  /** `struct.pack('!' + 'H' * |xs|, *xs)`. */
  function PackU16s(xs: seq<int>): (r: Result<seq<Byte>>)
    ensures r.Ok? <==> forall i :: 0 <= i < |xs| ==> IsU16(xs[i])
    ensures r.Ok? ==> |r.value| == 2 * |xs|
    ensures r.Ok? ==> forall i :: 0 <= i < |xs| ==> U16(r.value[2 * i], r.value[2 * i + 1]) == xs[i]
  {
    if |xs| == 0 then Ok([])
    else
      var head :- PackU16(xs[0]);
      var tail :- PackU16s(xs[1..]);
      assert forall i :: 1 <= i < |xs| ==> xs[i] == xs[1..][i - 1];
      Ok(head + tail)
  }

  /** `header_to_bytes`: twelve bytes, the six fields as big-endian u16 in
      declaration order; fails when any field lies outside 0..65535. */
  function HeaderToBytes(h: Header): (r: Result<seq<Byte>>)
    ensures r.Ok? <==> InRange(h)
    ensures r.Ok? ==> |r.value| == 12
    ensures r.Ok? ==> forall i :: 0 <= i < 6 ==> U16(r.value[2 * i], r.value[2 * i + 1]) == Fields(h)[i]
  {
    PackU16s(Fields(h))
  }

  /** `question_to_bytes`: the name bytes followed by type and class as
      big-endian u16; fails when type or class lies outside 0..65535. */
  function QuestionToBytes(q: Question): (r: Result<seq<Byte>>)
    ensures r.Ok? <==> IsU16(q.qtype) && IsU16(q.qclass)
    ensures r.Ok? ==> |r.value| == |q.name| + 4 && r.value[..|q.name|] == q.name
    ensures r.Ok? ==> U16(r.value[|q.name|], r.value[|q.name| + 1]) == q.qtype
    ensures r.Ok? ==> U16(r.value[|q.name| + 2], r.value[|q.name| + 3]) == q.qclass
  {
    var tail :- PackU16s([q.qtype, q.qclass]);
    assert U16(tail[0], tail[1]) == q.qtype && U16(tail[2], tail[3]) == q.qclass;
    Ok(q.name + tail)
  }

  predicate LabelsFit(labels: seq<seq<Byte>>)
  {
    forall i :: 0 <= i < |labels| ==> |labels[i]| < 0x100
  }

  /** Each label as its length byte followed by its bytes, in order (no terminator). */
  function Wire(labels: seq<seq<Byte>>): seq<Byte>
    requires LabelsFit(labels)
  {
    if |labels| == 0 then []
    else
      assert LabelsFit(labels[1..]) by {
        assert forall i :: 1 <= i < |labels| ==> labels[i] == labels[1..][i - 1];
      }
      [|labels[0]|] + labels[0] + Wire(labels[1..])
  }

  /** The length-prefixed labels of a list of parts, then the zero terminator;
      `bytes([len(part)])` fails on a part of 256 bytes or more. */
  function EncodeLabels(parts: seq<seq<Byte>>): (r: Result<seq<Byte>>)
    ensures r.Ok? <==> LabelsFit(parts)
    ensures r.Ok? ==> r.value == Wire(parts) + [0]
  {
    if |parts| == 0 then Ok([0])
    else if |parts[0]| >= 0x100 then Err(LabelTooLong)
    else
      var rest :- EncodeLabels(parts[1..]);
      assert forall i :: 1 <= i < |parts| ==> parts[i] == parts[1..][i - 1];
      Ok([|parts[0]|] + parts[0] + rest)
  }

  /** The dot-separated labels of an ASCII name, empty ones included. */
  function Labels(domain: string): seq<seq<Byte>>
    requires IsAscii(domain)
  {
    Seqs.Split(EncodeAscii(domain).value, Dot)
  }

  /** `encode_dns_name`: every dot-separated label as a length byte and its
      bytes, in order, then a single zero byte. Fails on a non-ASCII name and
      on a label of 256 bytes or more; otherwise the result is two bytes
      longer than the name. */
  function EncodeDnsName(domain: string): (r: Result<seq<Byte>>)
    ensures r.Ok? <==> IsAscii(domain) && LabelsFit(Labels(domain))
    ensures r.Ok? ==> r.value == Wire(Labels(domain)) + [0]
    ensures r.Ok? ==> |r.value| == |domain| + 2 && r.value[|r.value| - 1] == 0
  {
    var ascii :- EncodeAscii(domain);
    var encoded :- EncodeLabels(Seqs.Split(ascii, Dot));
    WireLength(Labels(domain));
    Seqs.JoinSplit(ascii, Dot);
    Seqs.JoinLength(Labels(domain), Dot);
    Ok(encoded)
  }

  lemma {:induction false} WireLength(labels: seq<seq<Byte>>)
    requires LabelsFit(labels)
    ensures |Wire(labels)| == Seqs.TotalLength(labels) + |labels|
    decreases |labels|
  {
    if |labels| > 0 {
      assert LabelsFit(labels[1..]) by {
        assert forall i :: 1 <= i < |labels| ==> labels[i] == labels[1..][i - 1];
      }
      WireLength(labels[1..]);
    }
  }

  /** A query for `domain` and `rtype` with the given flags word: one
      question of class IN, all other counts zero. */
  function Query(flags: int, domain: string, rtype: int, id: int): Result<seq<Byte>>
  {
    var name :- EncodeDnsName(domain);
    var header :- HeaderToBytes(Header(id, flags, 1, 0, 0, 0));
    var question :- QuestionToBytes(Question(name, rtype, ClassIn));
    Ok(header + question)
  }

  /** The byte layout of a query: id and flags, one question and three zero
      counts (all big-endian u16), then the encoded name, the type and class IN. */
  predicate QueryLayout(q: seq<Byte>, flags: int, name: seq<Byte>, rtype: int, id: int)
  {
    && |q| == 12 + |name| + 4
    && U16(q[0], q[1]) == id
    && U16(q[2], q[3]) == flags
    && U16(q[4], q[5]) == 1
    && U16(q[6], q[7]) == 0
    && U16(q[8], q[9]) == 0
    && U16(q[10], q[11]) == 0
    && q[12..12 + |name|] == name
    && U16(q[12 + |name|], q[13 + |name|]) == rtype
    && U16(q[14 + |name|], q[15 + |name|]) == ClassIn
  }

  lemma QueryShape(flags: int, domain: string, rtype: int, id: int)
    requires IsU16(flags) && IsU16(id)
    ensures Query(flags, domain, rtype, id).Ok? <==> EncodeDnsName(domain).Ok? && IsU16(rtype)
    ensures Query(flags, domain, rtype, id).Ok? ==>
              QueryLayout(Query(flags, domain, rtype, id).value, flags, EncodeDnsName(domain).value, rtype, id)
  {
    var h := Header(id, flags, 1, 0, 0, 0);
    assert InRange(h) by {
      assert forall i :: 0 <= i < 6 ==> IsU16(Fields(h)[i]);
    }
    if EncodeDnsName(domain).Ok? && IsU16(rtype) {
      var name := EncodeDnsName(domain).value;
      var hb := HeaderToBytes(h).value;
      var qb := QuestionToBytes(Question(name, rtype, ClassIn)).value;
      assert Query(flags, domain, rtype, id) == Ok(hb + qb);
      Concatenated(h, hb, name, rtype, qb);
    }
  }

  lemma Concatenated(h: Header, hb: seq<Byte>, name: seq<Byte>, rtype: int, qb: seq<Byte>)
    requires h == Header(h.id, h.flags, 1, 0, 0, 0) && InRange(h) && HeaderToBytes(h) == Ok(hb)
    requires QuestionToBytes(Question(name, rtype, ClassIn)) == Ok(qb)
    ensures QueryLayout(hb + qb, h.flags, name, rtype, h.id)
  {
    var q := hb + qb;
    assert U16(hb[0], hb[1]) == Fields(h)[0];
    assert U16(hb[2], hb[3]) == Fields(h)[1];
    assert U16(hb[4], hb[5]) == Fields(h)[2];
    assert U16(hb[6], hb[7]) == Fields(h)[3];
    assert U16(hb[8], hb[9]) == Fields(h)[4];
    assert U16(hb[10], hb[11]) == Fields(h)[5];
    assert q[12..12 + |name|] == qb[..|name|];
  }

  /** `build_query` of the stub resolver: a query with the recursion-desired
      flag set (flags 0x0100); the random id is a parameter. */
  function BuildQuery(domain: string, rtype: int, id: int): (r: Result<seq<Byte>>)
    requires IsU16(id)
    ensures r.Ok? <==> EncodeDnsName(domain).Ok? && IsU16(rtype)
    ensures r.Ok? ==> QueryLayout(r.value, RecursionDesired, EncodeDnsName(domain).value, rtype, id)
  {
    QueryShape(RecursionDesired, domain, rtype, id);
    Query(RecursionDesired, domain, rtype, id)
  }
}
