/** The typed record decoder and the packet selectors of the iterative
    resolver (`part_3.py`): record data is rendered by type, and the resolver
    picks the first answer, glue address or nameserver out of a response. */
module Typed {
  import opened Results
  import opened Bytes
  import opened Cursor
  import opened Encoder
  import opened Decoder

  /** `parse_record` of the resolver: the preamble, then data by type. An NS
      record's data is the name decoded at the cursor, however long
      `data_len` says it is; an A record's data is `ip_to_string` of
      `data_len` bytes; any other type keeps `data_len` raw bytes. */
  function ParseTypedRecord(buf: seq<Byte>, pos: nat): (r: Result<(Record, nat)>)
    ensures r.Ok? <==> ParsePreamble(buf, pos).Ok? &&
                       (ParsePreamble(buf, pos).value.0.rtype == TypeNs ==>
                          DecodeName(buf, ParsePreamble(buf, pos).value.1, Depth(buf)).Ok?)
    ensures r.Ok? ==> var p := ParsePreamble(buf, pos).value;
                      r.value.0 == Record(p.0.name, p.0.rtype, p.0.rclass, p.0.ttl, r.value.0.data)
    ensures r.Ok? ==> (r.value.0.rtype == TypeA <==> r.value.0.data.Text?)
    ensures r.Ok? && r.value.0.rtype == TypeNs ==>
              var p := ParsePreamble(buf, pos).value;
              Yields(DecodeName(buf, p.1, Depth(buf)), r.value.0.data.bytes, r.value.1)
    ensures r.Ok? && r.value.0.rtype != TypeNs ==>
              var p := ParsePreamble(buf, pos).value;
              var end := if p.1 + p.0.dataLen <= |buf| then p.1 + p.0.dataLen else |buf|;
              && r.value.1 == end
              && r.value.0.data == (if p.0.rtype == TypeA then Text(IpToString(buf[p.1..end])) else Raw(buf[p.1..end]))
  {
    var p :- ParsePreamble(buf, pos);
    var pre := p.0;
    if pre.rtype == TypeNs then
      var name :- DecodeName(buf, p.1, Depth(buf));
      Ok((Record(pre.name, pre.rtype, pre.rclass, pre.ttl, Raw(name.0)), name.1))
    else if pre.rtype == TypeA then
      var data := ReadUpTo(buf, p.1, pre.dataLen);
      Ok((Record(pre.name, pre.rtype, pre.rclass, pre.ttl, Text(IpToString(data.0))), data.1))
    else
      var data := ReadUpTo(buf, p.1, pre.dataLen);
      Ok((Record(pre.name, pre.rtype, pre.rclass, pre.ttl, Raw(data.0)), data.1))
  }

  /** Data is text exactly in A records. */
  ghost predicate WellTyped(rs: seq<Record>)
  {
    forall i :: 0 <= i < |rs| ==> (rs[i].rtype == TypeA <==> rs[i].data.Text?)
  }

  /** `parse_dns_packet` of the resolver: the typed record decoder for all
      three record sections, read in turn from one cursor after the header
      and questions; so every record's data is text exactly when it is an A
      record. */
  function ParseTypedPacket(buf: seq<Byte>): (r: Result<Packet>)
    ensures r.Ok? ==> ParseHeader(buf, 0).Ok? && r.value.header == ParseHeader(buf, 0).value.0
    ensures r.Ok? ==> Counted(r.value) && SectionsInTurn(buf, ParseTypedRecord, r.value)
    ensures r.Ok? ==> WellTyped(r.value.answers) && WellTyped(r.value.authorities) && WellTyped(r.value.additionals)
  {
    var r := ParsePacketWith(buf, ParseTypedRecord);
    if r.Ok? then
      SectionsWellTyped(buf, r.value);
      r
    else r
  }

  lemma SectionsWellTyped(buf: seq<Byte>, p: Packet)
    requires SectionsInTurn(buf, ParseTypedRecord, p)
    ensures WellTyped(p.answers) && WellTyped(p.authorities) && WellTyped(p.additionals)
  {
    var e1: nat, e2: nat, e3: nat, e4: nat :|
      && ReadInTurn(ParseQuestion, buf, 12, p.questions, e1)
      && ReadInTurn(ParseTypedRecord, buf, e1, p.answers, e2)
      && ReadInTurn(ParseTypedRecord, buf, e2, p.authorities, e3)
      && ReadInTurn(ParseTypedRecord, buf, e3, p.additionals, e4);
    ReadWellTyped(buf, e1, p.answers, e2);
    ReadWellTyped(buf, e2, p.authorities, e3);
    ReadWellTyped(buf, e3, p.additionals, e4);
  }

  lemma ReadWellTyped(buf: seq<Byte>, pos: nat, rs: seq<Record>, end: nat)
    requires ReadInTurn(ParseTypedRecord, buf, pos, rs, end)
    ensures WellTyped(rs)
  {
    var ps :| Chained(ParseTypedRecord, buf, rs, ps) && ps[0] == pos && ps[|rs|] == end;
    forall i | 0 <= i < |rs|
      ensures rs[i].rtype == TypeA <==> rs[i].data.Text?
    {
      assert Yields(ParseTypedRecord(buf, ps[i]), rs[i], ps[i + 1]);
    }
  }

  /** The first record of type `t`, scanning in order. */
  function FirstOfType(rs: seq<Record>, t: int): (r: Option<Record>)
    ensures r.None? <==> forall i :: 0 <= i < |rs| ==> rs[i].rtype != t
    ensures r.Some? ==> exists i :: 0 <= i < |rs| && rs[i] == r.value && rs[i].rtype == t &&
                                    forall j :: 0 <= j < i ==> rs[j].rtype != t
  {
    if |rs| == 0 then None
    else if rs[0].rtype == t then Some(rs[0])
    else
      var r := FirstOfType(rs[1..], t);
      assert forall i :: 1 <= i < |rs| ==> rs[i] == rs[1..][i - 1];
      if r.Some? then
        var k :| 0 <= k < |rs[1..]| && rs[1..][k] == r.value && rs[1..][k].rtype == t &&
                 forall j :: 0 <= j < k ==> rs[1..][j].rtype != t;
        assert rs[k + 1] == r.value;
        r
      else r
  }

  /** `get_answer`: the data of the first answer of type A, whatever type was
      asked for, or none. */
  function GetAnswer(p: Packet): (r: Option<Data>)
    ensures r.None? <==> forall i :: 0 <= i < |p.answers| ==> p.answers[i].rtype != TypeA
    ensures r.Some? ==> exists i :: 0 <= i < |p.answers| && p.answers[i].rtype == TypeA &&
                                    p.answers[i].data == r.value &&
                                    forall j :: 0 <= j < i ==> p.answers[j].rtype != TypeA
  {
    match FirstOfType(p.answers, TypeA)
    case None => None
    case Some(rec) => Some(rec.data)
  }

  /** `get_nameserver_ip`: the data of the first additional record of type A
      (the glue address), or none. */
  function GetNameserverIp(p: Packet): (r: Option<Data>)
    ensures r.None? <==> forall i :: 0 <= i < |p.additionals| ==> p.additionals[i].rtype != TypeA
    ensures r.Some? ==> exists i :: 0 <= i < |p.additionals| && p.additionals[i].rtype == TypeA &&
                                    p.additionals[i].data == r.value &&
                                    forall j :: 0 <= j < i ==> p.additionals[j].rtype != TypeA
  {
    match FirstOfType(p.additionals, TypeA)
    case None => None
    case Some(rec) => Some(rec.data)
  }

  /** `get_nameserver`: the first authority record of type NS, its name
      decoded to text, or none. Decoding fails on text data (which has no
      `.decode`) and on bytes outside ASCII. */
  function GetNameserver(p: Packet): (r: Result<Option<string>>)
    ensures r == Ok(None) <==> forall i :: 0 <= i < |p.authorities| ==> p.authorities[i].rtype != TypeNs
    ensures r.Ok? <==> FirstOfType(p.authorities, TypeNs).None? ||
                       (FirstOfType(p.authorities, TypeNs).value.data.Raw? &&
                        DecodeAscii(FirstOfType(p.authorities, TypeNs).value.data.bytes).Ok?)
    ensures r.Ok? && r.value.Some? ==>
              exists i :: 0 <= i < |p.authorities| && p.authorities[i].rtype == TypeNs &&
                          p.authorities[i].data.Raw? &&
                          DecodeAscii(p.authorities[i].data.bytes) == Ok(r.value.value) &&
                          forall j :: 0 <= j < i ==> p.authorities[j].rtype != TypeNs
  {
    match FirstOfType(p.authorities, TypeNs)
    case None => Ok(None)
    case Some(rec) =>
      match rec.data
      case Text(_) => Err(NotBytes)
      case Raw(b) =>
        var s :- DecodeAscii(b);
        Ok(Some(s))
  }

  /** Python truthiness of a selector's result: present and non-empty. */
  predicate Truthy(o: Option<Data>)
  {
    o.Some? &&
      match o.value
      case Raw(b) => |b| > 0
      case Text(s) => |s| > 0
  }
}
