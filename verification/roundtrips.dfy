/** Round trips between the encoder and the decoder: a packed header reads
    back as itself, a dotted-decimal address reads back as its bytes, and a
    whole query reads back as the header and question it was built from. */
module RoundTrips {
  import opened Results
  import opened Bytes
  import opened Cursor
  import opened Encoder
  import opened Decoder
  import opened Names
  import Seqs
  import Numerals

  /** `parse_header` inverts `header_to_bytes` for in-range fields, wherever
      the twelve bytes sit, and consumes exactly them. */
  lemma HeaderRoundTrip(pre: seq<Byte>, h: Header, post: seq<Byte>)
    requires InRange(h)
    ensures Yields(ParseHeader(pre + HeaderToBytes(h).value + post, |pre|), h, |pre| + 12)
  {
    var hb := HeaderToBytes(h).value;
    var buf := pre + hb + post;
    var r := ParseHeader(buf, |pre|).value.0;
    forall i | 0 <= i < 6
      ensures Fields(r)[i] == Fields(h)[i]
    {
      assert buf[|pre| + 2 * i] == hb[2 * i] && buf[|pre| + 2 * i + 1] == hb[2 * i + 1];
    }
    assert Fields(r)[0] == Fields(h)[0] && Fields(r)[1] == Fields(h)[1] && Fields(r)[2] == Fields(h)[2];
    assert Fields(r)[3] == Fields(h)[3] && Fields(r)[4] == Fields(h)[4] && Fields(r)[5] == Fields(h)[5];
  }

  /** The numerals `ip_to_string` joins. */
  function Components(ip: seq<Byte>): seq<string>
  {
    seq(|ip|, i requires 0 <= i < |ip| => Numerals.ToDecimal(ip[i]))
  }

  /** `ip_to_string` of n bytes has n components and n - 1 dots, and each
      component reads back as its byte. */
  lemma IpRoundTrip(ip: seq<Byte>)
    requires |ip| >= 1
    ensures |Seqs.Split(IpToString(ip), '.')| == |ip|
    ensures Seqs.Count(IpToString(ip), '.') == |ip| - 1
    ensures ParseIp(IpToString(ip)) == ip
  {
    var parts := Components(ip);
    assert IpToString(ip) == Seqs.Join(parts, '.');
    assert Seqs.Free(parts, '.') by {
      forall i | 0 <= i < |parts|
        ensures '.' !in parts[i]
      {
        assert Numerals.IsDigits(parts[i]);
      }
    }
    Seqs.SplitJoin(parts, '.');
    Seqs.CountJoin(parts, '.');
    forall i | 0 <= i < |ip|
      ensures ParseIp(IpToString(ip))[i] == ip[i]
    {
      Numerals.DecimalRoundTrip(ip[i]);
    }
  }

  /** A query built with any flags word reads back, through the response
      decoder, as its header and one question whose name is the dotted name
      (questions are read without pointer following). */
  lemma QueryParsesBack(flags: int, domain: string, rtype: int, id: int)
    requires IsU16(flags) && IsU16(id) && IsU16(rtype)
    requires EncodeDnsName(domain).Ok? && NonEmpty(Labels(domain))
    ensures var r := ParsePacket(Query(flags, domain, rtype, id).value);
            && r.Ok?
            && r.value == Packet(Header(id, flags, 1, 0, 0, 0),
                                 [Question(EncodeAscii(domain).value, rtype, ClassIn)], [], [], [])
  {
    var hb, tail := QueryPieces(flags, domain, rtype, id);
    PiecesParse(hb, domain, tail, Header(id, flags, 1, 0, 0, 0), rtype);
  }

  /** Header bytes, an encoded name, then type and class parse back. */
  lemma PiecesParse(hb: seq<Byte>, domain: string, tail: seq<Byte>, h: Header, rtype: int)
    requires InRange(h) && HeaderToBytes(h) == Ok(hb)
    requires h.numQuestions == 1 && h.numAnswers == 0 && h.numAuthorities == 0 && h.numAdditionals == 0
    requires EncodeDnsName(domain).Ok? && NonEmpty(Labels(domain))
    requires |tail| == 4 && U16(tail[0], tail[1]) == rtype && U16(tail[2], tail[3]) == ClassIn
    ensures ParsePacket(hb + EncodeDnsName(domain).value + tail) ==
            Ok(Packet(h, [Question(EncodeAscii(domain).value, rtype, ClassIn)], [], [], []))
  {
    var name := EncodeDnsName(domain).value;
    var q := hb + name + tail;
    HeaderRoundTrip([], h, name + tail);
    assert [] + hb + (name + tail) == q;
    SimpleRoundTrip(hb, domain, tail);
    var question := Question(EncodeAscii(domain).value, rtype, ClassIn);
    assert q[12 + |name|..] == tail;
    assert Yields(ParseQuestion(q, 12), question, |q|);
    OneQuestion(q, h, question);
  }

  /** A query is its header's bytes, the encoded name, then type and class. */
  lemma QueryPieces(flags: int, domain: string, rtype: int, id: int) returns (hb: seq<Byte>, tail: seq<Byte>)
    requires IsU16(flags) && IsU16(id) && IsU16(rtype)
    requires EncodeDnsName(domain).Ok?
    ensures InRange(Header(id, flags, 1, 0, 0, 0)) && HeaderToBytes(Header(id, flags, 1, 0, 0, 0)) == Ok(hb)
    ensures Query(flags, domain, rtype, id) == Ok(hb + EncodeDnsName(domain).value + tail)
    ensures |hb| == 12 && |tail| == 4 && U16(tail[0], tail[1]) == rtype && U16(tail[2], tail[3]) == ClassIn
  {
    var h := Header(id, flags, 1, 0, 0, 0);
    assert InRange(h) by {
      assert forall i :: 0 <= i < 6 ==> IsU16(Fields(h)[i]);
    }
    QueryShape(flags, domain, rtype, id);
    var name := EncodeDnsName(domain).value;
    hb := HeaderToBytes(h).value;
    var qb := QuestionToBytes(Question(name, rtype, ClassIn)).value;
    tail := qb[|name|..];
    assert qb == name + tail;
    assert Query(flags, domain, rtype, id) == Ok(hb + qb);
    assert hb + qb == hb + name + tail;
  }

  /** A message of a header announcing one question and nothing else,
      followed by exactly that question, parses to just those. */
  lemma OneQuestion(buf: seq<Byte>, h: Header, question: Question)
    requires ParseHeader(buf, 0).Ok? && ParseHeader(buf, 0).value.0 == h
    requires h.numQuestions == 1 && h.numAnswers == 0 && h.numAuthorities == 0 && h.numAdditionals == 0
    requires Yields(ParseQuestion(buf, 12), question, |buf|)
    ensures ParsePacket(buf) == Ok(Packet(h, [question], [], [], []))
  {
    var p := Packet(h, [question], [], [], []);
    ReadNothing(ParseQuestion, buf, |buf|);
    ReadOneMore(ParseQuestion, buf, 12, question, |buf|, [], |buf|);
    assert [question] + [] == p.questions;
    ReadNothing(ParseRecord, buf, |buf|);
    assert SectionsInTurn(buf, ParseRecord, p);
    PacketDetermined(buf, ParseRecord, p);
  }
}
