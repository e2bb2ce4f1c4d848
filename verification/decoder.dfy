/** Decoding of responses (`part_2.py`): the header, questions and resource
    records of a message, read from a byte buffer with a cursor, including
    the compression pointers of RFC 1035 section 4.1.4. */
module Decoder {
  import opened Results
  import opened Bytes
  import opened Cursor
  import opened Encoder
  import Seqs
  import Numerals

  /** Record data: bytes, or text where the typed decoder renders an address. */
  datatype Data = Raw(bytes: seq<Byte>) | Text(text: string)

  datatype Record = Record(name: seq<Byte>, rtype: int, rclass: int, ttl: int, data: Data)

  datatype Packet = Packet(
    header: Header,
    questions: seq<Question>,
    answers: seq<Record>,
    authorities: seq<Record>,
    additionals: seq<Record>)

  /** `parse_header`: twelve bytes as six big-endian u16 fields, in
      declaration order; fails when fewer than twelve bytes remain. */
  function ParseHeader(buf: seq<Byte>, pos: nat): (r: Result<(Header, nat)>)
    ensures r.Ok? <==> pos + 12 <= |buf|
    ensures r.Ok? ==> r.value.1 == pos + 12 && InRange(r.value.0)
    ensures r.Ok? ==> forall i :: 0 <= i < 6 ==> Fields(r.value.0)[i] == U16(buf[pos + 2 * i], buf[pos + 2 * i + 1])
  {
    var b :- ReadExact(buf, pos, 12);
    var f := b.0;
    var h := Header(U16(f[0], f[1]), U16(f[2], f[3]), U16(f[4], f[5]),
                    U16(f[6], f[7]), U16(f[8], f[9]), U16(f[10], f[11]));
    assert forall i :: 0 <= i < 6 ==> Fields(h)[i] == U16(f[2 * i], f[2 * i + 1]);
    Ok((h, b.1))
  }

  /** The labels `decode_name_simple` collects: every non-zero byte is a
      label length, however large. */
  function SimpleLabels(buf: seq<Byte>, pos: nat): (r: Result<(seq<seq<Byte>>, nat)>)
    ensures r.Ok? ==> pos < r.value.1 <= |buf| && buf[r.value.1 - 1] == 0
    decreases |buf| - pos
  {
    var b :- ReadByte(buf, pos);
    if b.0 == 0 then Ok(([], b.1))
    else
      var part := ReadUpTo(buf, b.1, b.0);
      var rest :- SimpleLabels(buf, part.1);
      Ok(([part.0] + rest.0, rest.1))
  }

  /** `decode_name_simple`: the labels joined by '.', with the cursor just
      past the terminating zero byte. */
  function DecodeNameSimple(buf: seq<Byte>, pos: nat): (r: Result<(seq<Byte>, nat)>)
    ensures r.Ok? ==> pos < r.value.1 <= |buf| && buf[r.value.1 - 1] == 0
  {
    var parts :- SimpleLabels(buf, pos);
    Ok((Seqs.Join(parts.0, Dot), parts.1))
  }

  /** `parse_question`: a name without pointer following, then type and
      class as big-endian u16. */
  function ParseQuestion(buf: seq<Byte>, pos: nat): (r: Result<(Question, nat)>)
    ensures r.Ok? <==> DecodeNameSimple(buf, pos).Ok? && DecodeNameSimple(buf, pos).value.1 + 4 <= |buf|
    ensures r.Ok? ==> var e := DecodeNameSimple(buf, pos).value.1;
                      && r.value.0.name == DecodeNameSimple(buf, pos).value.0
                      && r.value.1 == e + 4
                      && r.value.0.qtype == U16(buf[e], buf[e + 1])
                      && r.value.0.qclass == U16(buf[e + 2], buf[e + 3])
  {
    var name :- DecodeNameSimple(buf, pos);
    var tc :- ReadExact(buf, name.1, 4);
    Ok((Question(name.0, U16(tc.0[0], tc.0[1]), U16(tc.0[2], tc.0[3])), tc.1))
  }

  /** A length byte is a pointer when `length & 192` is non-zero, that is
      when either of its top two bits is set. */
  predicate IsPointer(length: Byte)
  {
    length >= 0x40
  }

  /** The 14-bit offset `((length & 63) << 8) | next` of a pointer. */
  function PointerTarget(length: Byte, next: Byte): nat
  {
    (length % 0x40) * 0x100 + next
  }

  /** For every byte, taken as eight bits, the pointer test and target used
      here are the program's `length & 192` and `((length & 63) << 8) | next`. */
  lemma PointerMasks(x: bv8, next: Byte)
    ensures IsPointer(x as int) <==> (x & 0xC0) != 0
    ensures PointerTarget(x as int, next) == ((x & 0x3F) as int) * 0x100 + next
  {
    BitMasks(x);
  }

  lemma BitMasks(x: bv8)
    ensures (x & 0xC0 != 0) <==> (x as int) >= 0x40
    ensures ((x & 0x3F) as int) == (x as int) % 0x40
  {
  }

  /** The parts `decode_name` collects: literal labels in order and, when a
      pointer is met, the whole name found at its target as one last part.
      `depth` bounds how many pointers may still be followed. */
  function NameParts(buf: seq<Byte>, pos: nat, depth: nat): (r: Result<(seq<seq<Byte>>, nat)>)
    ensures r.Ok? ==> pos < r.value.1 <= |buf|
    decreases depth, 0, |buf| - pos
  {
    var b :- ReadByte(buf, pos);
    if b.0 == 0 then Ok(([], b.1))
    else if IsPointer(b.0) then
      var c :- DecodeCompressedName(b.0, buf, b.1, depth);
      Ok(([c.0], c.1))
    else
      var part := ReadUpTo(buf, b.1, b.0);
      var rest :- NameParts(buf, part.1, depth);
      Ok(([part.0] + rest.0, rest.1))
  }

  /** `decode_compressed_name`, entered with the cursor just past the first
      pointer byte: read the second byte, decode the name at the target, and
      leave the cursor just past the two pointer bytes. Fails when the second
      byte is missing, and when no pointer may be followed any more. */
  function DecodeCompressedName(length: Byte, buf: seq<Byte>, pos: nat, depth: nat): (r: Result<(seq<Byte>, nat)>)
    ensures r.Ok? ==> r.value.1 == pos + 1 <= |buf| && depth > 0
    ensures r.Ok? ==> var inner := DecodeName(buf, PointerTarget(length, buf[pos]), depth - 1);
                      inner.Ok? && inner.value.0 == r.value.0
    ensures pos < |buf| && depth == 0 ==> r == Err(PointerDepth)
    decreases depth, 0, 0
  {
    var next :- ReadByte(buf, pos);
    if depth == 0 then Err(PointerDepth)
    else
      var name :- DecodeName(buf, PointerTarget(length, next.0), depth - 1);
      Ok((name.0, next.1))
  }

  /** `decode_name`: the parts joined by '.'. */
  function DecodeName(buf: seq<Byte>, pos: nat, depth: nat): (r: Result<(seq<Byte>, nat)>)
    ensures r.Ok? ==> pos < r.value.1 <= |buf|
    decreases depth, 1, 0
  {
    var parts :- NameParts(buf, pos, depth);
    Ok((Seqs.Join(parts.0, Dot), parts.1))
  }

  /** The pointer depth the decoders allow within one buffer. A chain of
      pointers that revisits a pointer never ends, so a buffer of `n` bytes
      never needs more than `n` nested pointers. */
  function Depth(buf: seq<Byte>): nat
  {
    |buf|
  }

  /** The fixed part of a resource record: its name, then type, class, ttl
      and data length as (u16, u16, u32, u16). */
  datatype Preamble = Preamble(name: seq<Byte>, rtype: int, rclass: int, ttl: int, dataLen: int)

  /** A record's name (pointers followed) and its ten fixed bytes. */
  function ParsePreamble(buf: seq<Byte>, pos: nat): (r: Result<(Preamble, nat)>)
    ensures r.Ok? <==> DecodeName(buf, pos, Depth(buf)).Ok? && DecodeName(buf, pos, Depth(buf)).value.1 + 10 <= |buf|
    ensures r.Ok? ==> var e := DecodeName(buf, pos, Depth(buf)).value.1;
                      && r.value.1 == e + 10
                      && r.value.0.name == DecodeName(buf, pos, Depth(buf)).value.0
                      && r.value.0.rtype == U16(buf[e], buf[e + 1])
                      && r.value.0.rclass == U16(buf[e + 2], buf[e + 3])
                      && r.value.0.ttl == U32(buf[e + 4..e + 8])
                      && r.value.0.dataLen == U16(buf[e + 8], buf[e + 9])
  {
    var name :- DecodeName(buf, pos, Depth(buf));
    var f :- ReadExact(buf, name.1, 10);
    var b := f.0;
    assert b[4..8] == buf[name.1 + 4..name.1 + 8];
    Ok((Preamble(name.0, U16(b[0], b[1]), U16(b[2], b[3]), U32(b[4..8]), U16(b[8], b[9])), f.1))
  }

  /** `parse_record` (the definition in force): the preamble, then
      `data_len` bytes of data kept raw. A short buffer silently yields
      shorter data, as `read` does. */
  function ParseRecord(buf: seq<Byte>, pos: nat): (r: Result<(Record, nat)>)
    ensures r.Ok? <==> ParsePreamble(buf, pos).Ok?
    ensures r.Ok? ==> var p := ParsePreamble(buf, pos).value;
                      && r.value.0 == Record(p.0.name, p.0.rtype, p.0.rclass, p.0.ttl, r.value.0.data)
                      && r.value.0.data.Raw?
                      && r.value.1 == (if p.1 + p.0.dataLen <= |buf| then p.1 + p.0.dataLen else |buf|)
                      && r.value.0.data.bytes == buf[p.1..r.value.1]
  {
    var p :- ParsePreamble(buf, pos);
    var data := ReadUpTo(buf, p.1, p.0.dataLen);
    Ok((Record(p.0.name, p.0.rtype, p.0.rclass, p.0.ttl, Raw(data.0)), data.1))
  }

  /** A parser of one entry of a section, reading at a cursor. */
  type EntryParser<T> = (seq<Byte>, nat) -> Result<(T, nat)>

  type RecordParser = EntryParser<Record>

  /** `xs` are read one after another by `parse`: the `i`-th at cursor
      `ps[i]`, which it leaves at `ps[i + 1]`. */
  ghost predicate Chained<T>(parse: EntryParser<T>, buf: seq<Byte>, xs: seq<T>, ps: seq<nat>)
  {
    && |ps| == |xs| + 1
    && forall i :: 0 <= i < |xs| ==> Yields(parse(buf, ps[i]), xs[i], ps[i + 1])
  }

  /** `xs` are read one after another by `parse` from cursor `pos`, the last
      one leaving the cursor at `end`. */
  ghost predicate ReadInTurn<T>(parse: EntryParser<T>, buf: seq<Byte>, pos: nat, xs: seq<T>, end: nat)
  {
    exists ps: seq<nat> :: Chained(parse, buf, xs, ps) && ps[0] == pos && ps[|xs|] == end
  }

  lemma ReadNothing<T>(parse: EntryParser<T>, buf: seq<Byte>, pos: nat)
    ensures ReadInTurn(parse, buf, pos, [], pos)
  {
    assert Chained(parse, buf, [], [pos]);
  }

  /** One entry read at `pos`, then the rest from where it left the cursor. */
  lemma ReadOneMore<T>(parse: EntryParser<T>, buf: seq<Byte>, pos: nat, x: T, next: nat, xs: seq<T>, end: nat)
    requires Yields(parse(buf, pos), x, next)
    requires ReadInTurn(parse, buf, next, xs, end)
    ensures ReadInTurn(parse, buf, pos, [x] + xs, end)
  {
    var ps :| Chained(parse, buf, xs, ps) && ps[0] == next && ps[|xs|] == end;
    var qs := [pos] + ps;
    forall i | 0 <= i < |xs| + 1
      ensures Yields(parse(buf, qs[i]), ([x] + xs)[i], qs[i + 1])
    {
      if i > 0 {
        assert qs[i] == ps[i - 1] && qs[i + 1] == ps[i] && ([x] + xs)[i] == xs[i - 1];
      }
    }
    assert Chained(parse, buf, [x] + xs, qs);
  }

  /** A list comprehension of `count` entries read by `parse` from a shared
      cursor: `parse_question` for the questions, `parse_record` for each
      record section. */
  function ParseSection<T>(buf: seq<Byte>, pos: nat, count: nat, parse: EntryParser<T>): (r: Result<(seq<T>, nat)>)
    ensures r.Ok? ==> |r.value.0| == count && ReadInTurn(parse, buf, pos, r.value.0, r.value.1)
    decreases count
  {
    if count == 0 then
      ReadNothing(parse, buf, pos);
      Ok(([], pos))
    else
      var x :- parse(buf, pos);
      var rest :- ParseSection(buf, x.1, count - 1, parse);
      ReadOneMore(parse, buf, pos, x.0, x.1, rest.0, rest.1);
      Ok(([x.0] + rest.0, rest.1))
  }

  /** Entries that can be read in turn are exactly what `ParseSection`
      returns, so it fails only where some entry of the chain fails. */
  lemma {:induction false} SectionDetermined<T>(buf: seq<Byte>, pos: nat, xs: seq<T>, end: nat, parse: EntryParser<T>)
    requires ReadInTurn(parse, buf, pos, xs, end)
    ensures ParseSection(buf, pos, |xs|, parse) == Ok((xs, end))
    decreases |xs|
  {
    var ps :| Chained(parse, buf, xs, ps) && ps[0] == pos && ps[|xs|] == end;
    if |xs| > 0 {
      var tail := ps[1..];
      assert Yields(parse(buf, pos), xs[0], ps[1]);
      forall i | 0 <= i < |xs| - 1
        ensures Yields(parse(buf, tail[i]), xs[1..][i], tail[i + 1])
      {
        assert Yields(parse(buf, ps[i + 1]), xs[i + 1], ps[i + 2]);
      }
      assert Chained(parse, buf, xs[1..], tail);
      SectionDetermined(buf, ps[1], xs[1..], end, parse);
      assert [xs[0]] + xs[1..] == xs;
    }
  }

  /** The four sections of `p` are read in turn: the questions from offset
      12, just past the header, each record section from where the previous
      section left the cursor. */
  ghost predicate SectionsInTurn(buf: seq<Byte>, parse: RecordParser, p: Packet)
  {
    exists e1: nat :: ReadInTurn(ParseQuestion, buf, 12, p.questions, e1) &&
      exists e2: nat :: ReadInTurn(parse, buf, e1, p.answers, e2) &&
        exists e3: nat :: ReadInTurn(parse, buf, e2, p.authorities, e3) &&
          exists e4: nat :: ReadInTurn(parse, buf, e3, p.additionals, e4)
  }

  /** The header's counts give the sections' lengths. */
  predicate Counted(p: Packet)
  {
    && |p.questions| == p.header.numQuestions
    && |p.answers| == p.header.numAnswers
    && |p.authorities| == p.header.numAuthorities
    && |p.additionals| == p.header.numAdditionals
  }

  /** `parse_dns_packet` over a given record parser: the header, then as many
      questions, answers, authority and additional records as its counts say,
      in that order, from one cursor. */
  function ParsePacketWith(buf: seq<Byte>, parse: RecordParser): (r: Result<Packet>)
    ensures r.Ok? ==> ParseHeader(buf, 0).Ok? && r.value.header == ParseHeader(buf, 0).value.0
    ensures r.Ok? ==> Counted(r.value) && SectionsInTurn(buf, parse, r.value)
  {
    var h :- ParseHeader(buf, 0);
    var header := h.0;
    assert InRange(header) && Fields(header)[2] == header.numQuestions;
    var qs :- ParseSection(buf, h.1, header.numQuestions, ParseQuestion);
    var ans :- ParseSection(buf, qs.1, header.numAnswers, parse);
    var auth :- ParseSection(buf, ans.1, header.numAuthorities, parse);
    var add :- ParseSection(buf, auth.1, header.numAdditionals, parse);
    var p := Packet(header, qs.0, ans.0, auth.0, add.0);
    assert ReadInTurn(parse, buf, auth.1, p.additionals, add.1);
    Ok(p)
  }

  /** Conversely, a packet whose header sits at offset 0 and whose sections,
      as long as the header counts, can be read in turn is what
      `ParsePacketWith` returns. */
  lemma PacketDetermined(buf: seq<Byte>, parse: RecordParser, p: Packet)
    requires ParseHeader(buf, 0).Ok? && ParseHeader(buf, 0).value.0 == p.header
    requires Counted(p) && SectionsInTurn(buf, parse, p)
    ensures ParsePacketWith(buf, parse) == Ok(p)
  {
    var e1: nat, e2: nat, e3: nat, e4: nat :|
      && ReadInTurn(ParseQuestion, buf, 12, p.questions, e1)
      && ReadInTurn(parse, buf, e1, p.answers, e2)
      && ReadInTurn(parse, buf, e2, p.authorities, e3)
      && ReadInTurn(parse, buf, e3, p.additionals, e4);
    SectionDetermined(buf, 12, p.questions, e1, ParseQuestion);
    SectionDetermined(buf, e1, p.answers, e2, parse);
    SectionDetermined(buf, e2, p.authorities, e3, parse);
    SectionDetermined(buf, e3, p.additionals, e4, parse);
  }

  /** `parse_dns_packet` of the response decoder: every record's data raw. */
  function ParsePacket(buf: seq<Byte>): (r: Result<Packet>)
    ensures r.Ok? ==> ParseHeader(buf, 0).Ok? && r.value.header == ParseHeader(buf, 0).value.0
    ensures r.Ok? ==> Counted(r.value) && SectionsInTurn(buf, ParseRecord, r.value)
  {
    ParsePacketWith(buf, ParseRecord)
  }

  /** `ip_to_string`: the decimal value of each byte, joined by '.'. */
  function IpToString(ip: seq<Byte>): string
  {
    Seqs.Join(seq(|ip|, i requires 0 <= i < |ip| => Numerals.ToDecimal(ip[i])), '.')
  }

  /** Reading a dotted-decimal string back into numbers: `int` of each
      '.'-separated component. */
  function ParseIp(s: string): seq<int>
  {
    var parts := Seqs.Split(s, '.');
    seq(|parts|, i requires 0 <= i < |parts| => Numerals.DecimalValue(parts[i]))
  }
}
