/** The iterative resolver of `part_3.py`: queries without recursion desired,
    starting at a root server and following glue addresses and nameserver
    referrals until some server answers. The network is an abstract transport;
    a fuel bound stands in for the unbounded loop and recursion. */
module Resolver {
  import opened Results
  import opened Bytes
  import Encoder
  import opened Decoder
  import opened Typed

  /** The root server every resolution starts at. */
  const RootServer: Data := Text("198.41.0.4")

  /** `build_query` of the resolver: a one-question query with no flags set. */
  function BuildQuery(domain: string, rtype: int, id: int): (r: Result<seq<Byte>>)
    requires IsU16(id)
    ensures r.Ok? <==> Encoder.EncodeDnsName(domain).Ok? && IsU16(rtype)
    ensures r.Ok? ==> Encoder.QueryLayout(r.value, 0, Encoder.EncodeDnsName(domain).value, rtype, id)
  {
    Encoder.QueryShape(0, domain, rtype, id);
    Encoder.Query(0, domain, rtype, id)
  }

  /** The two query builders agree everywhere but in the flags: recursion
      desired in the stub resolver's query, no flags in the resolver's. */
  lemma QueriesDifferInFlags(domain: string, rtype: int, id: int)
    requires IsU16(id)
    ensures BuildQuery(domain, rtype, id).Ok? == Encoder.BuildQuery(domain, rtype, id).Ok?
    ensures BuildQuery(domain, rtype, id).Ok? ==>
              var plain := BuildQuery(domain, rtype, id).value;
              var recursive := Encoder.BuildQuery(domain, rtype, id).value;
              && |plain| == |recursive|
              && U16(plain[2], plain[3]) == 0
              && U16(recursive[2], recursive[3]) == Encoder.RecursionDesired
              && plain[..2] == recursive[..2]
              && plain[4..] == recursive[4..]
  {
    if BuildQuery(domain, rtype, id).Ok? {
      assert BuildQuery(domain, rtype, id) == Encoder.Query(0, domain, rtype, id);
      assert Encoder.BuildQuery(domain, rtype, id) == Encoder.Query(Encoder.RecursionDesired, domain, rtype, id);
      FlagsOnly(0, Encoder.RecursionDesired, domain, rtype, id);
    }
  }

  /** Two queries for the same name, type and id that differ in their flags
      succeed together and differ in the flags word only. */
  lemma FlagsOnly(flags: int, other: int, domain: string, rtype: int, id: int)
    requires IsU16(flags) && IsU16(other) && IsU16(id)
    requires Encoder.Query(flags, domain, rtype, id).Ok?
    ensures Encoder.Query(other, domain, rtype, id).Ok?
    ensures var q := Encoder.Query(flags, domain, rtype, id).value;
            var r := Encoder.Query(other, domain, rtype, id).value;
            |q| == |r| && q[..2] == r[..2] && q[4..] == r[4..]
  {
    Encoder.QueryShape(flags, domain, rtype, id);
    Encoder.QueryShape(other, domain, rtype, id);
    var name := Encoder.EncodeDnsName(domain).value;
    var question := Encoder.QuestionToBytes(Encoder.Question(name, rtype, Encoder.ClassIn)).value;
    var h := Encoder.HeaderToBytes(Encoder.Header(id, flags, 1, 0, 0, 0)).value;
    var g := Encoder.HeaderToBytes(Encoder.Header(id, other, 1, 0, 0, 0)).value;
    QueryParts(flags, domain, rtype, id);
    QueryParts(other, domain, rtype, id);
    HeadersDifferInFlags(id, flags, other, h, g);
    SameTail(h, g, question);
  }

  /** Headers of equal length that agree outside bytes 2 and 3 keep agreeing
      there once the same question follows them. */
  lemma SameTail(h: seq<Byte>, g: seq<Byte>, question: seq<Byte>)
    requires |h| == |g| == 12 && h[..2] == g[..2] && h[4..] == g[4..]
    ensures (h + question)[..2] == (g + question)[..2]
    ensures (h + question)[4..] == (g + question)[4..]
  {
    assert (h + question)[..2] == h[..2];
    assert (g + question)[..2] == g[..2];
    assert (h + question)[4..] == h[4..] + question;
    assert (g + question)[4..] == g[4..] + question;
  }

  /** A successful query is its header's bytes followed by its question's. */
  lemma QueryParts(flags: int, domain: string, rtype: int, id: int)
    requires Encoder.Query(flags, domain, rtype, id).Ok?
    ensures var name := Encoder.EncodeDnsName(domain).value;
            && Encoder.HeaderToBytes(Encoder.Header(id, flags, 1, 0, 0, 0)).Ok?
            && Encoder.QuestionToBytes(Encoder.Question(name, rtype, Encoder.ClassIn)).Ok?
            && Encoder.Query(flags, domain, rtype, id).value ==
               Encoder.HeaderToBytes(Encoder.Header(id, flags, 1, 0, 0, 0)).value +
               Encoder.QuestionToBytes(Encoder.Question(name, rtype, Encoder.ClassIn)).value
  {
  }

  /** Two headers that differ in their flags only differ in bytes 2 and 3. */
  lemma HeadersDifferInFlags(id: int, flags: int, other: int, h: seq<Byte>, g: seq<Byte>)
    requires Encoder.HeaderToBytes(Encoder.Header(id, flags, 1, 0, 0, 0)) == Ok(h)
    requires Encoder.HeaderToBytes(Encoder.Header(id, other, 1, 0, 0, 0)) == Ok(g)
    ensures |h| == |g| == 12 && h[..2] == g[..2] && h[4..] == g[4..]
  {
    var same := Encoder.Fields(Encoder.Header(id, flags, 1, 0, 0, 0));
    var diff := Encoder.Fields(Encoder.Header(id, other, 1, 0, 0, 0));
    forall k | 0 <= k < 6 && k != 1
      ensures h[2 * k] == g[2 * k] && h[2 * k + 1] == g[2 * k + 1]
    {
      assert same[k] == diff[k];
      U16Injective(h[2 * k], h[2 * k + 1], g[2 * k], g[2 * k + 1]);
    }
    assert forall i :: 4 <= i < 12 ==> h[i] == g[i] by {
      forall i | 4 <= i < 12 ensures h[i] == g[i] {
        var k := i / 2;
        assert i == 2 * k || i == 2 * k + 1;
      }
    }
  }

  lemma U16Injective(a: Byte, b: Byte, c: Byte, d: Byte)
    requires U16(a, b) == U16(c, d)
    ensures a == c && b == d
  {
  }

  /** The network: the datagram a server sends back for a query, or a
      failure. */
  type Transport = (Data, seq<Byte>) -> Result<seq<Byte>>

  /** One round of a resolution: the server asked, the name and the type. */
  datatype Round = Round(server: Data, domain: string, rtype: int)

  /** A resolution's outcome together with the rounds it made, in order. */
  datatype Run = Run(result: Result<Data>, sent: seq<Round>)

  /** `send_query`: build the query, exchange it, parse the response. */
  function SendQuery(net: Transport, id: int, round: Round): (r: Result<Packet>)
    requires IsU16(id)
    ensures BuildQuery(round.domain, round.rtype, id).Err? ==> r == Err(BuildQuery(round.domain, round.rtype, id).error)
    ensures BuildQuery(round.domain, round.rtype, id).Ok? ==>
              var reply := net(round.server, BuildQuery(round.domain, round.rtype, id).value);
              && (reply.Err? ==> r == Err(Transport))
              && (reply.Ok? ==> r == ParseTypedPacket(reply.value))
    ensures r.Ok? ==> WellTyped(r.value.answers) && WellTyped(r.value.additionals)
  {
    var query :- BuildQuery(round.domain, round.rtype, id);
    match net(round.server, query)
    case Err(_) => Err(Transport)
    case Ok(reply) => ParseTypedPacket(reply)
  }

  /** What one response leads to. */
  datatype Step = Answer(value: Data) | Glue(server: Data) | Referral(name: string) | Stop(error: Error)

  /** The decision of a `resolve` round: the first truthy option among an A
      answer, a glue address and a nameserver name, or an error. */
  function Decide(p: Packet): (s: Step)
    ensures s.Answer? <==> Truthy(GetAnswer(p))
    ensures s.Answer? ==> Some(s.value) == GetAnswer(p)
    ensures s.Glue? <==> !Truthy(GetAnswer(p)) && Truthy(GetNameserverIp(p))
    ensures s.Glue? ==> Some(s.server) == GetNameserverIp(p)
    ensures s.Referral? <==> !Truthy(GetAnswer(p)) && !Truthy(GetNameserverIp(p)) &&
                             GetNameserver(p).Ok? && GetNameserver(p).value.Some? &&
                             |GetNameserver(p).value.value| > 0
    ensures s.Referral? ==> GetNameserver(p) == Ok(Some(s.name))
    ensures s.Stop? ==> s.error == (if GetNameserver(p).Err? then GetNameserver(p).error else NoReferral)
  {
    var answer := GetAnswer(p);
    if Truthy(answer) then Answer(answer.value)
    else
      var glue := GetNameserverIp(p);
      if Truthy(glue) then Glue(glue.value)
      else
        match GetNameserver(p)
        case Err(e) => Stop(e)
        case Ok(ns) => if ns.Some? && |ns.value| > 0 then Referral(ns.value) else Stop(NoReferral)
  }

  /** How a resolution learns what a server's response to a round leads to. */
  type Oracle = Round -> Result<Step>

  /** One real round: send the query, parse the response, decide. */
  function Respond(net: Transport, id: int, round: Round): (r: Result<Step>)
    requires IsU16(id)
    ensures r.Ok? <==> SendQuery(net, id, round).Ok?
    ensures r.Ok? ==> r.value == Decide(SendQuery(net, id, round).value)
  {
    var p :- SendQuery(net, id, round);
    Ok(Decide(p))
  }

  /** The oracle of the real exchange: every query carries the same id. */
  function Exchange(net: Transport, id: int): Oracle
    requires IsU16(id)
  {
    round => Respond(net, id, round)
  }

  /** Puts earlier rounds in front of a run. */
  function After(rounds: seq<Round>, run: Run): (r: Run)
    ensures r.result == run.result && r.sent == rounds + run.sent
  {
    Run(run.result, rounds + run.sent)
  }

  /** `resolve(domain, rtype)`: a resolution that starts at the root. */
  function Resolve(ask: Oracle, fuel: nat, domain: string, rtype: int): (r: Run)
    ensures |r.sent| == 0 <==> fuel == 0
    ensures fuel == 0 ==> r.result == Err(OutOfFuel)
    ensures fuel > 0 ==> r.sent[0] == Round(RootServer, domain, rtype)
    decreases fuel, 1
  {
    ResolveFrom(ask, fuel, RootServer, domain, rtype)
  }

  /** The loop of `resolve` from the current nameserver on; each round costs
      one unit of fuel, and so does the nested resolution of a referral. */
  function ResolveFrom(ask: Oracle, fuel: nat, server: Data, domain: string, rtype: int): (r: Run)
    ensures |r.sent| == 0 <==> fuel == 0
    ensures fuel == 0 ==> r.result == Err(OutOfFuel)
    ensures fuel > 0 ==> r.sent[0] == Round(server, domain, rtype)
    decreases fuel, 0
  {
    if fuel == 0 then Run(Err(OutOfFuel), [])
    else
      var round := Round(server, domain, rtype);
      match ask(round)
      case Err(e) => Run(Err(e), [round])
      case Ok(Answer(v)) => Run(Ok(v), [round])
      case Ok(Glue(next)) => After([round], ResolveFrom(ask, fuel - 1, next, domain, rtype))
      case Ok(Referral(name)) =>
        var sub := Resolve(ask, fuel - 1, name, Encoder.TypeA);
        if sub.result.Err? then After([round], sub)
        else After([round] + sub.sent, ResolveFrom(ask, fuel - 1, sub.result.value, domain, rtype))
      case Ok(Stop(e)) => Run(Err(e), [round])
  }

  /** `resolve_wrong(domain, rtype)`. */
  function ResolveWrong(ask: Oracle, fuel: nat, domain: string, rtype: int): (r: Run)
    ensures |r.sent| == 0 <==> fuel == 0
    ensures fuel == 0 ==> r.result == Err(OutOfFuel)
    ensures fuel > 0 ==> r.sent[0] == Round(RootServer, domain, rtype)
  {
    ResolveWrongFrom(ask, fuel, RootServer, domain, rtype)
  }

  /** The loop of `resolve_wrong`: answers and glue are followed as in
      `resolve`; anything else, a nameserver name included, is an error. */
  function ResolveWrongFrom(ask: Oracle, fuel: nat, server: Data, domain: string, rtype: int): (r: Run)
    ensures |r.sent| == 0 <==> fuel == 0
    ensures fuel == 0 ==> r.result == Err(OutOfFuel)
    ensures fuel > 0 ==> r.sent[0] == Round(server, domain, rtype)
    decreases fuel
  {
    if fuel == 0 then Run(Err(OutOfFuel), [])
    else
      var round := Round(server, domain, rtype);
      match ask(round)
      case Err(e) => Run(Err(e), [round])
      case Ok(Answer(v)) => Run(Ok(v), [round])
      case Ok(Glue(next)) => After([round], ResolveWrongFrom(ask, fuel - 1, next, domain, rtype))
      case Ok(_) => Run(Err(NoReferral), [round])
  }

  /** The round drew the answer `v`. */
  predicate Answered(ask: Oracle, round: Round, v: Data)
  {
    ask(round) == Ok(Answer(v))
  }

  /** More fuel changes nothing about a resolution that did not run out. */
  lemma {:induction false} ResolveFromFuel(ask: Oracle, fuel: nat, more: nat, server: Data, domain: string, rtype: int)
    requires fuel <= more
    requires ResolveFrom(ask, fuel, server, domain, rtype).result != Err(OutOfFuel)
    ensures ResolveFrom(ask, more, server, domain, rtype) == ResolveFrom(ask, fuel, server, domain, rtype)
    decreases fuel, 0
  {
    match ask(Round(server, domain, rtype))
    case Err(_) =>
    case Ok(Answer(_)) =>
    case Ok(Glue(next)) =>
      ResolveFromFuel(ask, fuel - 1, more - 1, next, domain, rtype);
    case Ok(Referral(name)) =>
      ResolveFuel(ask, fuel - 1, more - 1, name, Encoder.TypeA);
      var sub := Resolve(ask, fuel - 1, name, Encoder.TypeA);
      if sub.result.Ok? {
        ResolveFromFuel(ask, fuel - 1, more - 1, sub.result.value, domain, rtype);
      }
    case Ok(Stop(_)) =>
  }

  /** More fuel changes nothing about a resolution that did not run out. */
  lemma {:induction false} ResolveFuel(ask: Oracle, fuel: nat, more: nat, domain: string, rtype: int)
    requires fuel <= more
    requires Resolve(ask, fuel, domain, rtype).result != Err(OutOfFuel)
    ensures Resolve(ask, more, domain, rtype) == Resolve(ask, fuel, domain, rtype)
    decreases fuel, 1
  {
    ResolveFromFuel(ask, fuel, more, RootServer, domain, rtype);
  }

  /** A value the resolution returns is the answer drawn by its last round,
      and that round asked for the name and type the resolution was for. */
  lemma {:induction false} ResolveFromAnswered(ask: Oracle, fuel: nat, server: Data, domain: string, rtype: int)
    ensures var run := ResolveFrom(ask, fuel, server, domain, rtype);
            run.result.Ok? ==>
              && |run.sent| > 0
              && run.sent[|run.sent| - 1].domain == domain
              && run.sent[|run.sent| - 1].rtype == rtype
              && Answered(ask, run.sent[|run.sent| - 1], run.result.value)
    decreases fuel, 0
  {
    if fuel > 0 {
      match ask(Round(server, domain, rtype))
      case Err(_) =>
      case Ok(Answer(_)) =>
      case Ok(Glue(next)) =>
        ResolveFromAnswered(ask, fuel - 1, next, domain, rtype);
      case Ok(Referral(name)) =>
        var sub := Resolve(ask, fuel - 1, name, Encoder.TypeA);
        if sub.result.Ok? {
          ResolveFromAnswered(ask, fuel - 1, sub.result.value, domain, rtype);
        }
      case Ok(Stop(_)) =>
    }
  }

  /** A resolution from the root ends in an answer for the name and type
      asked for. */
  lemma ResolveAnswered(ask: Oracle, fuel: nat, domain: string, rtype: int)
    ensures var run := Resolve(ask, fuel, domain, rtype);
            run.result.Ok? ==>
              && |run.sent| > 0
              && run.sent[|run.sent| - 1].domain == domain
              && run.sent[|run.sent| - 1].rtype == rtype
              && Answered(ask, run.sent[|run.sent| - 1], run.result.value)
  {
    ResolveFromAnswered(ask, fuel, RootServer, domain, rtype);
  }

  /** An answer drawn from the real exchange is the truthy data of the first
      A record among the response's answers, so it is text. */
  lemma AnswerIsText(net: Transport, id: int, round: Round, v: Data)
    requires IsU16(id)
    requires Respond(net, id, round) == Ok(Answer(v))
    ensures SendQuery(net, id, round).Ok?
    ensures GetAnswer(SendQuery(net, id, round).value) == Some(v) && Truthy(Some(v))
    ensures v.Text?
  {
    var p := SendQuery(net, id, round).value;
    var i :| 0 <= i < |p.answers| && p.answers[i].rtype == Encoder.TypeA && p.answers[i].data == v &&
             forall j :: 0 <= j < i ==> p.answers[j].rtype != Encoder.TypeA;
    assert WellTyped(p.answers);
  }

  /** A successful resolution over the real exchange returns text, the A
      answer of the last response, which answered the name and type asked
      for. */
  lemma ResolveReturnsText(net: Transport, id: int, fuel: nat, domain: string, rtype: int)
    requires IsU16(id)
    requires Resolve(Exchange(net, id), fuel, domain, rtype).result.Ok?
    ensures var run := Resolve(Exchange(net, id), fuel, domain, rtype);
            && |run.sent| > 0
            && run.sent[|run.sent| - 1] == Round(run.sent[|run.sent| - 1].server, domain, rtype)
            && SendQuery(net, id, run.sent[|run.sent| - 1]).Ok?
            && GetAnswer(SendQuery(net, id, run.sent[|run.sent| - 1]).value) == Some(run.result.value)
            && run.result.value.Text?
  {
    ResolveAnswered(Exchange(net, id), fuel, domain, rtype);
    var run := Resolve(Exchange(net, id), fuel, domain, rtype);
    assert Exchange(net, id)(run.sent[|run.sent| - 1]) == Respond(net, id, run.sent[|run.sent| - 1]);
    AnswerIsText(net, id, run.sent[|run.sent| - 1], run.result.value);
  }

  /** A resolution succeeds after a single query exactly when the root's
      response is an answer, and it then returns that answer. */
  lemma OneQuery(ask: Oracle, fuel: nat, domain: string, rtype: int)
    requires fuel >= 1
    ensures var run := Resolve(ask, fuel, domain, rtype);
            var first := ask(Round(RootServer, domain, rtype));
            (run.result.Ok? && |run.sent| == 1) <==> (first.Ok? && first.value.Answer?)
    ensures var first := ask(Round(RootServer, domain, rtype));
            first.Ok? && first.value.Answer? ==>
              Resolve(ask, fuel, domain, rtype) == Run(Ok(first.value.value), [Round(RootServer, domain, rtype)])
  {
    match ask(Round(RootServer, domain, rtype))
    case Err(_) =>
    case Ok(Answer(_)) =>
    case Ok(Glue(next)) =>
      ResolveFromAnswered(ask, fuel - 1, next, domain, rtype);
    case Ok(Referral(name)) =>
      var sub := Resolve(ask, fuel - 1, name, Encoder.TypeA);
      if sub.result.Ok? {
        ResolveFromAnswered(ask, fuel - 1, sub.result.value, domain, rtype);
        ResolveAnswered(ask, fuel - 1, name, Encoder.TypeA);
      }
    case Ok(Stop(_)) =>
  }

  /** Glue from the root, then an answer from the glue server: two queries,
      the second to the glue address, and the second answer is the result. */
  lemma GlueThenAnswer(ask: Oracle, fuel: nat, domain: string, rtype: int, glue: Data, v: Data)
    requires fuel >= 2
    requires ask(Round(RootServer, domain, rtype)) == Ok(Glue(glue))
    requires ask(Round(glue, domain, rtype)) == Ok(Answer(v))
    ensures Resolve(ask, fuel, domain, rtype) == Run(Ok(v), [Round(RootServer, domain, rtype), Round(glue, domain, rtype)])
  {
    assert ResolveFrom(ask, fuel - 1, glue, domain, rtype) == Run(Ok(v), [Round(glue, domain, rtype)]);
  }

  /** A referral starts a nested resolution of the nameserver's name, for an
      A record and from the root; its rounds come right after the referring
      one, and its answer is the server the outer loop asks next. */
  lemma ReferralResolvesNameserver(ask: Oracle, fuel: nat, domain: string, rtype: int, ns: string)
    requires fuel >= 1
    requires ask(Round(RootServer, domain, rtype)) == Ok(Referral(ns))
    ensures var run := Resolve(ask, fuel, domain, rtype);
            var sub := Resolve(ask, fuel - 1, ns, Encoder.TypeA);
            && |run.sent| >= 1 + |sub.sent|
            && run.sent[..1 + |sub.sent|] == [Round(RootServer, domain, rtype)] + sub.sent
            && (sub.result.Err? ==> run.result == sub.result)
            && (sub.result.Ok? ==> run == After([Round(RootServer, domain, rtype)] + sub.sent,
                                               ResolveFrom(ask, fuel - 1, sub.result.value, domain, rtype)))
  {
  }

  /** `resolve_wrong` gives up, at any server, on a referral that comes
      without glue, where `resolve` goes on to query for the nameserver. */
  lemma WrongStopsAtReferral(ask: Oracle, fuel: nat, server: Data, domain: string, rtype: int, ns: string)
    requires fuel >= 1
    requires ask(Round(server, domain, rtype)) == Ok(Referral(ns))
    ensures ResolveWrongFrom(ask, fuel, server, domain, rtype) == Run(Err(NoReferral), [Round(server, domain, rtype)])
    ensures fuel >= 2 ==> |ResolveFrom(ask, fuel, server, domain, rtype).sent| > 1
  {
  }

  /** Whatever `resolve_wrong` resolves, `resolve` resolves the same way,
      with the same queries. */
  lemma {:induction false} WrongAgreesWhenOk(ask: Oracle, fuel: nat, server: Data, domain: string, rtype: int)
    requires ResolveWrongFrom(ask, fuel, server, domain, rtype).result.Ok?
    ensures ResolveFrom(ask, fuel, server, domain, rtype) == ResolveWrongFrom(ask, fuel, server, domain, rtype)
  {
    match ask(Round(server, domain, rtype))
    case Ok(Glue(next)) =>
      WrongAgreesWhenOk(ask, fuel - 1, next, domain, rtype);
    case _ =>
  }
}
