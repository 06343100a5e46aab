/**
 * What DnsDoQuery in tnm/generic/tnmDns.c makes of one query: the
 * outcome of res_mkquery and res_send, the header checks, the question
 * skip and the walk over the resource records that follow (RFC 1035
 * sections 4.1.1 to 4.1.3), with the rule by which records enter the
 * result.
 *
 * These are the specification functions; the method that performs the
 * walk step by step over an a_res record is Answers.Answer.DoQuery.
 */
module Records {

  import opened Wire
  import Decimal
  import Names

  /** Slots in an a_res. */
  const MAXRESULT: nat := 30

  /** One slot of an a_res: an IPv4 address (u.addr) or a text (u.str). */
  datatype Entry = Addr(a: byte, b: byte, c: byte, d: byte) | Text(s: string)

  /**
   * An a_res as DnsDoQuery leaves it: the record type, the count and the
   * slots in use. An error has count -1 and its message in the first slot.
   */
  datatype Res = Res(rtype: int, n: int, items: seq<Entry>)

  /** How res_mkquery and res_send ended. A reply holds the alen > 0 bytes res_send returned. */
  datatype Exchange = MakeFailed | SendFailed(herrno: int) | Reply(bytes: seq<byte>)

  /** The first resource record at a position: where the walk stops, or what was read and where the next one starts. */
  datatype Step =
    | Stop
    | Beyond
    | Rr(owner: string, rrtype: nat, entry: Option<Entry>, next: int)

  /** The types whose records DnsDoQuery stores. */
  predicate Stored(t: int) {
    t == T_A || t == T_SOA || t == T_HINFO || t == T_PTR || t == T_MX
  }

  /** A decoded record holds an entry exactly when its type is stored, and an address exactly when it is an A record. */
  predicate Sane(s: Step) {
    s.Rr? ==> (s.entry.Some? <==> Stored(s.rrtype)) && (s.entry.Some? ==> (s.entry.value.Addr? <==> s.rrtype == T_A))
  }

  /**
   * One pass of the loop body of DnsDoQuery at `ptr`: dn_expand of the
   * owner, the fixed fields (type, class, ttl, signed rdlength) and the
   * rdata of the types it knows. Stop is a dn_expand that failed, after
   * which the walk returns; Beyond is a fixed field that would be read
   * outside the answer buffer, which the C code does not check.
   */
  function Decode(buf: seq<byte>, eom: nat, ptr: int): (s: Step)
    requires eom <= |buf|
    ensures s.Rr? ==> (s.entry.Some? <==> Stored(s.rrtype))
    ensures s.Rr? ==> 0 <= ptr < eom
  {
    match Names.Expand(buf, eom, ptr)
    case None => Stop
    case Some(o) => Fields(buf, eom, o.text, ptr + o.consumed)
  }

  /** The fixed fields after the owner name at `p`: type, class, ttl and the signed rdlength. */
  function Fields(buf: seq<byte>, eom: nat, owner: string, p: nat): (s: Step)
    requires eom <= |buf|
    ensures s.Rr? ==> (s.entry.Some? <==> Stored(s.rrtype))
  {
    if p + RRFIXEDSZ > |buf| then Beyond
    else RData(buf, eom, owner, U16(buf, p), Short(U16(buf, p + 8)), p + RRFIXEDSZ)
  }

  /** The rdata at `q` of a record of type `t`, its entry if the type is stored, and where the cursor goes. */
  function RData(buf: seq<byte>, eom: nat, owner: string, t: nat, rdlen: int, q: nat): (s: Step)
    requires eom <= |buf| && q <= |buf|
    ensures s.Rr? ==> s.rrtype == t && (s.entry.Some? <==> Stored(t))
  {
    if t == T_NS then
      match Names.Expand(buf, eom, q)
      case None => Stop
      case Some(e) => Rr(owner, t, None, q + e.consumed)
    else if t == T_A then
      if q + 4 > |buf| then Beyond
      else Rr(owner, t, Some(Addr(buf[q], buf[q + 1], buf[q + 2], buf[q + 3])), q + 4)
    else if t == T_SOA then
      match Names.Expand(buf, eom, q)
      case None => Stop
      case Some(m) =>
        match Names.Expand(buf, eom, q + m.consumed)
        case None => Stop
        case Some(r) => Rr(owner, t, Some(Text(m.text)), q + m.consumed + r.consumed + 5 * 4)
    else if t == T_HINFO || t == T_PTR then
      match Names.Expand(buf, eom, q)
      case None => Stop
      case Some(e) => Rr(owner, t, Some(Text(e.text)), q + rdlen)
    else if t == T_MX then
      if q + 2 > |buf| then Beyond
      else
        var prio := U16(buf, q);
        match Names.Expand(buf, eom, q + 2)
        case None => Stop
        case Some(e) => Rr(owner, t, Some(Text(e.text + " " + Decimal.NatText(prio))), q + 2 + e.consumed)
    else
      Rr(owner, t, None, q + rdlen)
  }

  /** What Decode finds at each position of a reply. */
  function Reader(buf: seq<byte>, eom: nat): int -> Step
    requires eom <= |buf|
  {
    p => Decode(buf, eom, p)
  }

  /** No fixed field of the next `count` records, as a walk from `ptr` meets them, lies outside the buffer. */
  predicate Reaches(read: int -> Step, ptr: int, count: nat)
    decreases count
  {
    count == 0 ||
    match read(ptr)
    case Stop => true
    case Beyond => false
    case Rr(_, _, _, next) => Reaches(read, next, count - 1)
  }

  /** Reaches, for the records of a reply. */
  predicate Defined(buf: seq<byte>, eom: nat, ptr: int, count: nat)
    requires eom <= |buf|
  {
    Reaches(Reader(buf, eom), ptr, count)
  }

  /**
   * Whether a record of type `t` owned by `owner` joins the result: the
   * result has no type yet or has this one, or it is an address record
   * whose owner is the query string itself.
   */
  predicate Admits(r: Res, query: string, owner: string, t: int) {
    r.rtype == -1 || r.rtype == t || (t == T_A && query == owner)
  }

  /**
   * A stored record's effect on the result. As written (`capped` false)
   * every admitted record takes the next slot; with `capped` a record
   * that finds all MAXRESULT slots taken is dropped.
   */
  function Accept(r: Res, query: string, owner: string, t: int, e: Entry, capped: bool): (r': Res)
    ensures Admits(r, query, owner, t) && !(capped && r.n >= MAXRESULT) ==>
              r'.rtype == t && r'.n == r.n + 1 && r'.items == r.items + [e]
    ensures !Admits(r, query, owner, t) || (capped && r.n >= MAXRESULT) ==> r' == r
  {
    if Admits(r, query, owner, t) && !(capped && r.n >= MAXRESULT) then Res(t, r.n + 1, r.items + [e])
    else r
  }

  /** What one decoded record does to the result: a stored type goes through Accept, any other leaves it. */
  function Apply(r: Res, query: string, s: Step, capped: bool): Res {
    if s.Rr? && s.entry.Some? then Accept(r, query, s.owner, s.rrtype, s.entry.value, capped) else r
  }

  /** The loop of DnsDoQuery over `count` records from `ptr`, each read by `read`. */
  function Run(read: int -> Step, query: string, ptr: int, count: nat, r: Res, capped: bool): Res
    requires Reaches(read, ptr, count)
    decreases count
  {
    if count == 0 then r
    else
      match read(ptr)
      case Stop => r
      case Beyond => r
      case Rr(_, _, _, next) => Run(read, query, next, count - 1, Apply(r, query, read(ptr), capped), capped)
  }

  /** The loop of DnsDoQuery over `count` records of a reply from `ptr`. */
  function Walk(buf: seq<byte>, eom: nat, query: string, ptr: int, count: nat, r: Res, capped: bool): Res
    requires eom <= |buf| && Defined(buf, eom, ptr, count)
  {
    Run(Reader(buf, eom), query, ptr, count, r, capped)
  }

  /** The message DnsDoQuery gives for a nonzero RCODE (RFC 1035 section 4.1.1). */
  function RcodeMessage(rc: nat): string {
    if rc == 1 then "format error"
    else if rc == 2 then "server failure"
    else if rc == 3 then "non existent domain"
    else if rc == 4 then "not implemented"
    else if rc == 5 then "query refused"
    else "unknown error " + Decimal.IntText(rc)
  }

  /** The records walked: the answers, or else the authority records, or else the additional ones. */
  function RecordCount(buf: seq<byte>): (c: nat)
    requires |buf| >= HFIXEDSZ
    ensures c == AnCount(buf) || c == NsCount(buf) || c == ArCount(buf)
    ensures AnCount(buf) != 0 ==> c == AnCount(buf)
    ensures c == 0 <==> AnCount(buf) == 0 && NsCount(buf) == 0 && ArCount(buf) == 0
  {
    if AnCount(buf) != 0 then AnCount(buf)
    else if NsCount(buf) != 0 then NsCount(buf)
    else ArCount(buf)
  }

  /**
   * Where the first record starts: after the header and, when the
   * question count is nonzero, after one question name and its type and
   * class. The length dn_skipname returns is added unchecked, -1
   * included.
   */
  function FirstRecord(buf: seq<byte>, eom: nat): int
    requires |buf| >= HFIXEDSZ && eom <= |buf|
  {
    if QdCount(buf) > 0 then HFIXEDSZ + Names.Skip(buf, eom, HFIXEDSZ) + QFIXEDSZ else HFIXEDSZ
  }

  /**
   * What DnsDoQuery demands of res_send's reply: room for the sentinel
   * byte it stores at `alen`, and no fixed record field read outside the
   * answer buffer.
   */
  predicate QueryDefined(x: Exchange) {
    x.Reply? ==>
      1 <= |x.bytes| < ANSWERSZ
      && var buf := AnswerBuffer(x.bytes);
      var eom := |x.bytes| + 1;
      Defined(buf, eom, FirstRecord(buf, eom), RecordCount(buf))
  }

  /** The a_res that DnsDoQuery(query, qtype, ...) leaves behind. */
  function Query(query: string, qtype: int, x: Exchange, capped: bool): Res
    requires QueryDefined(x)
  {
    match x
    case MakeFailed => Res(-1, -1, [Text("cannot make query")])
    case SendFailed(h) => Res(-1, -1, [Text("cannot send query; error " + Decimal.IntText(h))])
    case Reply(bytes) =>
      var buf := AnswerBuffer(bytes);
      var eom := |bytes| + 1;
      if Rcode(buf) != 0 then Res(qtype, -1, [Text(RcodeMessage(Rcode(buf)))])
      else Walk(buf, eom, query, FirstRecord(buf, eom), RecordCount(buf), Res(-1, 0, []), capped)
  }

  // Properties of the walk.

  /**
   * What the walk does to a result that is not an error: entries already
   * there stay in place, each record walked adds at most one entry, the
   * count stays equal to the entries held, a result left unchanged in
   * count is left unchanged altogether, and a type once fixed changes
   * only by an address record accepted on its owner name. With the slot
   * check the count never passes MAXRESULT.
   */
  lemma WalkShape(buf: seq<byte>, eom: nat, query: string, ptr: int, count: nat, r: Res, capped: bool)
    requires eom <= |buf| && Defined(buf, eom, ptr, count)
    requires 0 <= r.n && r.n == |r.items|
    ensures Grows(r, Walk(buf, eom, query, ptr, count, r, capped), count, capped)
  {
    var read := Reader(buf, eom);
    ReaderSane(buf, eom);
    RunFold(read, query, ptr, count, r, capped);
    StepsSane(read, ptr, count);
    FoldShape(r, query, Steps(read, ptr, count), capped);
  }

  /** The records a walk reads: up to `count`, ending early at an owner name dn_expand rejects. */
  function Steps(read: int -> Step, ptr: int, count: nat): (s: seq<Step>)
    ensures |s| <= count && forall i :: 0 <= i < |s| ==> s[i].Rr?
    decreases count
  {
    if count == 0 then []
    else if read(ptr).Rr? then [read(ptr)] + Steps(read, read(ptr).next, count - 1)
    else []
  }

  /** Every record Decode reads holds an address exactly when it is an A record. */
  lemma ReaderSane(buf: seq<byte>, eom: nat)
    requires eom <= |buf|
    ensures forall p :: Sane(Reader(buf, eom)(p))
  {
    forall p
      ensures Sane(Reader(buf, eom)(p))
    {
      DecodeSane(buf, eom, p);
    }
  }

  /** A record read holds an address exactly when it is an A record. */
  lemma DecodeSane(buf: seq<byte>, eom: nat, ptr: int)
    requires eom <= |buf|
    ensures Sane(Decode(buf, eom, ptr))
  {
    var o := Names.Expand(buf, eom, ptr);
    if o.Some? {
      assert Decode(buf, eom, ptr) == Fields(buf, eom, o.value.text, ptr + o.value.consumed);
    }
  }

  /** The records walked are records the reader gives. */
  lemma {:induction false} StepsSane(read: int -> Step, ptr: int, count: nat)
    requires forall p :: Sane(read(p))
    ensures forall i :: 0 <= i < |Steps(read, ptr, count)| ==> Sane(Steps(read, ptr, count)[i])
    decreases count
  {
    if count > 0 && read(ptr).Rr? {
      StepsSane(read, read(ptr).next, count - 1);
      assert Steps(read, ptr, count) == [read(ptr)] + Steps(read, read(ptr).next, count - 1);
    }
  }

  /** The effect of a run of decoded records, one after the other. */
  function Fold(r: Res, query: string, s: seq<Step>, capped: bool): Res
    decreases |s|
  {
    if |s| == 0 then r else Fold(Apply(r, query, s[0], capped), query, s[1..], capped)
  }

  /** The walk applies the records it reads in order. */
  lemma {:induction false} RunFold(read: int -> Step, query: string, ptr: int, count: nat, r: Res, capped: bool)
    requires Reaches(read, ptr, count)
    ensures Run(read, query, ptr, count, r, capped) == Fold(r, query, Steps(read, ptr, count), capped)
    decreases count
  {
    if count > 0 && read(ptr).Rr? {
      var r' := Apply(r, query, read(ptr), capped);
      RunFold(read, query, read(ptr).next, count - 1, r', capped);
      FoldCons(r, query, read(ptr), Steps(read, read(ptr).next, count - 1), capped);
    }
  }

  lemma FoldCons(r: Res, query: string, d: Step, s: seq<Step>, capped: bool)
    ensures Fold(r, query, [d] + s, capped) == Fold(Apply(r, query, d, capped), query, s, capped)
  {
    assert ([d] + s)[1..] == s;
  }

  /** FoldShape over the records from the first on. */
  lemma {:induction false} FoldShape(r: Res, query: string, s: seq<Step>, capped: bool)
    requires forall i :: 0 <= i < |s| ==> Sane(s[i])
    requires 0 <= r.n && r.n == |r.items|
    ensures Grows(r, Fold(r, query, s, capped), |s|, capped)
    decreases |s|
  {
    if |s| > 0 {
      var r' := Apply(r, query, s[0], capped);
      StepShape(r, query, s[0], capped);
      FoldShape(r', query, s[1..], capped);
      GrowsTrans(r, r', Fold(r', query, s[1..], capped), |s| - 1, capped);
    }
  }

  /**
   * How a walk of `count` records changes the result `r` into `w`: it
   * only appends, at most one entry per record; an unchanged count means
   * an unchanged result; a result with entries has a stored type, which
   * is the old one, or A (an address accepted on its owner name), or any
   * when there was none; and with the slot check the count never passes
   * MAXRESULT.
   */
  ghost predicate Grows(r: Res, w: Res, count: nat, capped: bool) {
    w.n == |w.items| && r.items <= w.items && r.n <= w.n <= r.n + count
    && (w.n == r.n ==> w == r)
    && (w.n > r.n ==> Stored(w.rtype))
    && (w.rtype == r.rtype || w.rtype == T_A || r.rtype == -1)
    && (capped && r.n <= MAXRESULT ==> w.n <= MAXRESULT)
  }

  /** One record, then `count` more, make `count + 1`. */
  lemma GrowsTrans(r: Res, r': Res, w: Res, count: nat, capped: bool)
    requires 0 <= r.n && r.n == |r.items|
    requires Grows(r, r', 1, capped) && (r'.rtype == -1 ==> r.rtype == -1) && Grows(r', w, count, capped)
    ensures Grows(r, w, count + 1, capped)
  {
    assert r.items <= w.items by {
      assert r.items == r'.items[..|r.items|] && r'.items == w.items[..|r'.items|];
      assert w.items[..|r'.items|][..|r.items|] == w.items[..|r.items|];
    }
  }

  /** The contribution of one record: the step of FoldShape. */
  lemma StepShape(r: Res, query: string, d: Step, capped: bool)
    requires 0 <= r.n && r.n == |r.items| && Sane(d)
    ensures Grows(r, Apply(r, query, d, capped), 1, capped)
    ensures Apply(r, query, d, capped).rtype == -1 ==> r.rtype == -1
  {
  }

  /**
   * The outcome of DnsDoQuery: every failure, and only a failure, leaves
   * count -1 with one message; an RCODE failure also sets the type to the
   * query type and walks no record; a walked reply has at most as many
   * entries as records counted, no type when it has no entries, and (with
   * the slot check) at most MAXRESULT entries.
   */
  lemma QueryOutcome(query: string, qtype: int, x: Exchange, capped: bool)
    requires QueryDefined(x)
    ensures var r := Query(query, qtype, x, capped);
      (r.n < 0 <==> !(x.Reply? && Rcode(AnswerBuffer(x.bytes)) == 0))
      && (r.n < 0 ==> r.n == -1 && |r.items| == 1 && r.items[0].Text?)
      && (x.Reply? && Rcode(AnswerBuffer(x.bytes)) != 0 ==>
            r.rtype == qtype && r.items == [Text(RcodeMessage(Rcode(AnswerBuffer(x.bytes))))])
      && (x.Reply? && Rcode(AnswerBuffer(x.bytes)) == 0 ==>
            r.n == |r.items| <= RecordCount(AnswerBuffer(x.bytes))
            && (r.n == 0 <==> r.rtype == -1) && (r.n > 0 ==> Stored(r.rtype)))
      && (capped ==> r.n <= MAXRESULT)
  {
    if x.Reply? {
      var buf := AnswerBuffer(x.bytes);
      var eom := |x.bytes| + 1;
      if Rcode(buf) == 0 {
        WalkShape(buf, eom, query, FirstRecord(buf, eom), RecordCount(buf), Res(-1, 0, []), capped);
      }
    }
  }

  /** Address entries only in a result of type A: a_res keeps addresses and strings in one union. */
  predicate Typed(r: Res) {
    forall i :: 0 <= i < |r.items| && r.items[i].Addr? ==> r.rtype == T_A
  }

  /** The step of FoldTyped. */
  lemma StepTyped(r: Res, query: string, d: Step, capped: bool)
    requires Typed(r) && (r.rtype == -1 ==> r.items == [])
    requires Sane(d)
    ensures var r' := Apply(r, query, d, capped); Typed(r') && (r'.rtype == -1 ==> r'.items == [])
  {
    var r' := Apply(r, query, d, capped);
    if d.Rr? && d.entry.Some? && r' != r {
      assert r'.items == r.items + [d.entry.value] && r'.rtype == d.rrtype;
      if d.rrtype != T_A {
        assert r.rtype == -1 || r.rtype == d.rrtype;
      }
    }
  }

  /** FoldTyped over the records from the first on. */
  lemma {:induction false} FoldTyped(r: Res, query: string, s: seq<Step>, capped: bool)
    requires forall i :: 0 <= i < |s| ==> Sane(s[i])
    requires Typed(r) && (r.rtype == -1 ==> r.items == [])
    ensures Typed(Fold(r, query, s, capped))
    decreases |s|
  {
    if |s| > 0 {
      StepTyped(r, query, s[0], capped);
      FoldTyped(Apply(r, query, s[0], capped), query, s[1..], capped);
    }
  }

  /** The walk never puts an address into a result whose type is not A. */
  lemma WalkTyped(buf: seq<byte>, eom: nat, query: string, ptr: int, count: nat, r: Res, capped: bool)
    requires eom <= |buf| && Defined(buf, eom, ptr, count)
    requires Typed(r) && (r.rtype == -1 ==> r.items == [])
    ensures Typed(Walk(buf, eom, query, ptr, count, r, capped))
  {
    var read := Reader(buf, eom);
    ReaderSane(buf, eom);
    RunFold(read, query, ptr, count, r, capped);
    StepsSane(read, ptr, count);
    FoldTyped(r, query, Steps(read, ptr, count), capped);
  }

  /**
   * A type-A result can still hold text: a PTR record, then an A record
   * owned by the query name, which is admitted whatever the type is.
   */
  lemma MixedResult(query: string, ptr: string, e: Entry)
    requires e.Addr?
    ensures var r := Accept(Res(-1, 0, []), query, query, T_PTR, Text(ptr), true);
      var r' := Accept(r, query, query, T_A, e, true);
      r' == Res(T_A, 2, [Text(ptr), e]) && Typed(r')
  {
    assert Admits(Res(-1, 0, []), query, query, T_PTR);
    assert Admits(Res(T_PTR, 1, [Text(ptr)]), query, query, T_A);
  }

  /** DnsDoQuery leaves addresses only in a result of type A. */
  lemma QueryTyped(query: string, qtype: int, x: Exchange, capped: bool)
    requires QueryDefined(x)
    ensures Typed(Query(query, qtype, x, capped))
  {
    if x.Reply? {
      var buf := AnswerBuffer(x.bytes);
      var eom := |x.bytes| + 1;
      if Rcode(buf) == 0 {
        WalkTyped(buf, eom, query, FirstRecord(buf, eom), RecordCount(buf), Res(-1, 0, []), capped);
      }
    }
  }

  /**
   * What a caller of DnsDoQuery or DnsHaveQuery can rely on: an error
   * holds one message; otherwise the count is the number of entries, a
   * result without entries has no type, one with entries has a stored
   * type, and addresses appear only in a result of type A.
   */
  predicate Shaped(r: Res) {
    (r.n < 0 ==> r.n == -1 && |r.items| == 1 && r.items[0].Text?)
    && (r.n >= 0 ==> r.n == |r.items| && (r.n == 0 <==> r.rtype == -1) && (r.n > 0 ==> Stored(r.rtype)))
    && Typed(r)
  }

  lemma QueryShaped(query: string, qtype: int, x: Exchange, capped: bool)
    requires QueryDefined(x)
    ensures Shaped(Query(query, qtype, x, capped))
  {
    QueryOutcome(query, qtype, x, capped);
    QueryTyped(query, qtype, x, capped);
  }

  /** Different RCODEs give different messages, so the message tells which one the server sent. */
  lemma RcodeMessageDistinct(a: nat, b: nat)
    requires 1 <= a && 1 <= b && a != b
    ensures RcodeMessage(a) != RcodeMessage(b)
  {
    if a > 5 && b > 5 {
      var p := "unknown error ";
      var ta, tb := Decimal.IntText(a), Decimal.IntText(b);
      Decimal.ScanIntText(a, ta, 0);
      Decimal.ScanIntText(b, tb, 0);
      assert ta != tb;
      assert (p + ta)[|p|..] == ta;
      assert (p + tb)[|p|..] == tb;
    } else if a > 5 {
      KnownRcode(b);
    } else if b > 5 {
      KnownRcode(a);
    }
  }

  lemma KnownRcode(rc: nat)
    requires 1 <= rc <= 5
    ensures RcodeMessage(rc)[0] != 'u'
  {
    if rc == 1 {
    } else if rc == 2 {
    } else if rc == 3 {
    } else if rc == 4 {
    }
  }

  /**
   * Where each record ends (RFC 1035 section 4.1.3): after the owner name
   * and the ten fixed bytes, four bytes of address, a name, a preference
   * and a name, two names and five 32-bit fields, or, for PTR, HINFO and
   * the types the walk does not know, the signed rdlength.
   */
  lemma DecodeAdvance(buf: seq<byte>, eom: nat, ptr: int)
    requires eom <= |buf| && Decode(buf, eom, ptr).Rr?
    ensures ptr >= 0 && Names.Skip(buf, eom, ptr) >= 1
    ensures var s := Decode(buf, eom, ptr);
      var p := ptr + Names.Skip(buf, eom, ptr);
      var q := p + RRFIXEDSZ;
      q <= |buf| && s.rrtype == U16(buf, p)
      && (s.rrtype == T_A ==> s.next == q + 4)
      && (s.rrtype == T_NS ==> Names.Skip(buf, eom, q) >= 1 && s.next == q + Names.Skip(buf, eom, q))
      && (s.rrtype == T_MX ==> Names.Skip(buf, eom, q + 2) >= 1 && s.next == q + 2 + Names.Skip(buf, eom, q + 2))
      && (s.rrtype == T_SOA ==>
            Names.Skip(buf, eom, q) >= 1 && Names.Skip(buf, eom, q + Names.Skip(buf, eom, q)) >= 1
            && s.next == q + Names.Skip(buf, eom, q) + Names.Skip(buf, eom, q + Names.Skip(buf, eom, q)) + 20)
      && (s.rrtype !in {T_A, T_NS, T_MX, T_SOA} ==> s.next == q + Short(U16(buf, p + 8)))
  {
    var o := Names.Expand(buf, eom, ptr).value;
    Names.SkipAgrees(buf, eom, ptr);
    var p := ptr + o.consumed;
    var q := p + RRFIXEDSZ;
    var t := U16(buf, p);
    if t == T_NS || t == T_SOA || t == T_HINFO || t == T_PTR {
      Names.SkipAgrees(buf, eom, q);
      if t == T_SOA {
        Names.SkipAgrees(buf, eom, q + Names.Expand(buf, eom, q).value.consumed);
      }
    } else if t == T_MX {
      Names.SkipAgrees(buf, eom, q + 2);
    }
  }

  // Records laid out as RFC 1035 sections 3.3 and 3.4 describe them decode to what they hold.

  /** A name in wire form without compression that dn_expand accepts at `pos`. */
  predicate NameAt(buf: seq<byte>, eom: nat, pos: nat, labels: seq<seq<byte>>) {
    eom <= |buf| && pos + Names.LabelsSize(labels) < eom && Names.LabelsSize(labels) < Names.MAXCDNAME
    && Names.EncodedAt(buf, pos, labels) && |Names.NameText(labels)| < Names.TEXTSZ
  }

  lemma ExpandAt(buf: seq<byte>, eom: nat, pos: nat, labels: seq<seq<byte>>)
    requires NameAt(buf, eom, pos, labels)
    ensures Names.Expand(buf, eom, pos) == Some(Names.Expanded(Names.NameText(labels), Names.LabelsSize(labels) + 1))
  {
    Names.ExpandEncoded(buf, eom, pos, labels);
  }

  /** A record whose owner is in wire form: the fixed fields start right after the owner. */
  lemma DecodeOwner(buf: seq<byte>, eom: nat, ptr: nat, owner: seq<seq<byte>>, p: nat)
    requires NameAt(buf, eom, ptr, owner) && p == ptr + Names.LabelsSize(owner) + 1
    ensures Decode(buf, eom, ptr) == Fields(buf, eom, Names.NameText(owner), p)
  {
    ExpandAt(buf, eom, ptr, owner);
    OwnerFields(buf, eom, ptr, Names.NameText(owner), Names.LabelsSize(owner) + 1, p);
  }

  /** The fixed fields start where the owner name dn_expand read ends. */
  lemma OwnerFields(buf: seq<byte>, eom: nat, ptr: nat, otext: string, oc: nat, p: nat)
    requires eom <= |buf| && Names.Expand(buf, eom, ptr) == Some(Names.Expanded(otext, oc)) && p == ptr + oc
    ensures Decode(buf, eom, ptr) == Fields(buf, eom, otext, p)
  {
  }

  lemma FieldsType(buf: seq<byte>, eom: nat, owner: string, p: nat, t: nat)
    requires eom <= |buf| && p + RRFIXEDSZ <= |buf| && buf[p] == t / 256 && buf[p + 1] == t % 256
    ensures Fields(buf, eom, owner, p) == RData(buf, eom, owner, t, Short(U16(buf, p + 8)), p + RRFIXEDSZ)
  {
  }

  /** An A record: its address, and the next record right after its four bytes. */
  lemma DecodeA(buf: seq<byte>, eom: nat, ptr: nat, owner: seq<seq<byte>>, p: nat, a: byte, b: byte, c: byte, d: byte)
    requires NameAt(buf, eom, ptr, owner) && p == ptr + Names.LabelsSize(owner) + 1
    requires p + RRFIXEDSZ + 4 <= |buf| && buf[p] == 0 && buf[p + 1] == T_A
    requires buf[p + 10] == a && buf[p + 11] == b && buf[p + 12] == c && buf[p + 13] == d
    ensures Decode(buf, eom, ptr) == Rr(Names.NameText(owner), T_A, Some(Addr(a, b, c, d)), p + RRFIXEDSZ + 4)
  {
    DecodeOwner(buf, eom, ptr, owner, p);
    FieldsType(buf, eom, Names.NameText(owner), p, T_A);
  }

  /*
   * The records whose rdata holds names, stated over what dn_expand
   * returns for each name (its text and the bytes it takes).
   */

  /** A PTR record: the name it points to, and the next record rdlength bytes on. */
  lemma DecodePtr(buf: seq<byte>, eom: nat, ptr: nat, otext: string, oc: nat, p: nat, text: string, c: nat, next: int)
    requires eom <= |buf|
    requires Names.Expand(buf, eom, ptr) == Some(Names.Expanded(otext, oc))
    requires p == ptr + oc && p + RRFIXEDSZ <= |buf| && buf[p] == 0 && buf[p + 1] == T_PTR
    requires Names.Expand(buf, eom, p + RRFIXEDSZ) == Some(Names.Expanded(text, c))
    requires next == p + RRFIXEDSZ + Short(U16(buf, p + 8))
    ensures Decode(buf, eom, ptr) == Rr(otext, T_PTR, Some(Text(text)), next)
  {
    OwnerFields(buf, eom, ptr, otext, oc, p);
    FieldsType(buf, eom, otext, p, T_PTR);
  }

  /** An MX record: exchange and preference as one text, and the next record right after the exchange. */
  lemma DecodeMx(buf: seq<byte>, eom: nat, ptr: nat, otext: string, oc: nat, p: nat, prio: nat, text: string, c: nat, next: int)
    requires eom <= |buf|
    requires Names.Expand(buf, eom, ptr) == Some(Names.Expanded(otext, oc))
    requires p == ptr + oc && p + RRFIXEDSZ + 2 <= |buf| && buf[p] == 0 && buf[p + 1] == T_MX
    requires prio == U16(buf, p + RRFIXEDSZ)
    requires Names.Expand(buf, eom, p + RRFIXEDSZ + 2) == Some(Names.Expanded(text, c))
    requires next == p + RRFIXEDSZ + 2 + c
    ensures Decode(buf, eom, ptr) == Rr(otext, T_MX, Some(Text(text + " " + Decimal.NatText(prio))), next)
  {
    OwnerFields(buf, eom, ptr, otext, oc, p);
    FieldsType(buf, eom, otext, p, T_MX);
  }

  /** An SOA record: the primary server's name, and the next record after both names and the five counters. */
  lemma DecodeSoa(buf: seq<byte>, eom: nat, ptr: nat, otext: string, oc: nat, p: nat,
                  mtext: string, mc: nat, rpos: nat, rtext: string, rc: nat, next: int)
    requires eom <= |buf|
    requires Names.Expand(buf, eom, ptr) == Some(Names.Expanded(otext, oc))
    requires p == ptr + oc && p + RRFIXEDSZ <= |buf| && buf[p] == 0 && buf[p + 1] == T_SOA
    requires Names.Expand(buf, eom, p + RRFIXEDSZ) == Some(Names.Expanded(mtext, mc))
    requires rpos == p + RRFIXEDSZ + mc
    requires Names.Expand(buf, eom, rpos) == Some(Names.Expanded(rtext, rc))
    requires next == rpos + rc + 20
    ensures Decode(buf, eom, ptr) == Rr(otext, T_SOA, Some(Text(mtext)), next)
  {
    OwnerFields(buf, eom, ptr, otext, oc, p);
    FieldsType(buf, eom, otext, p, T_SOA);
    RDataSoa(buf, eom, otext, Short(U16(buf, p + 8)), p + RRFIXEDSZ, mtext, mc, rpos, rtext, rc, next);
  }

  lemma RDataSoa(buf: seq<byte>, eom: nat, owner: string, rdlen: int, q: nat,
                 mtext: string, mc: nat, rpos: nat, rtext: string, rc: nat, next: int)
    requires eom <= |buf|
    requires q <= |buf|
    requires Names.Expand(buf, eom, q) == Some(Names.Expanded(mtext, mc))
    requires rpos == q + mc
    requires Names.Expand(buf, eom, rpos) == Some(Names.Expanded(rtext, rc))
    requires next == rpos + rc + 20
    ensures RData(buf, eom, owner, T_SOA, rdlen, q) == Rr(owner, T_SOA, Some(Text(mtext)), next)
  {
  }

  // The slot count: a reply with more than MAXRESULT stored records.

  /** Header and question of a reply to an A query for "a": one question, 31 answers. */
  const OverflowHead: seq<byte> := [0, 0, 0x81, 0x80, 0, 1, 0, 31, 0, 0, 0, 0, 1, 97, 0, 0, 1, 0, 1]

  /** An A record for the root with address 10.0.0.1, fifteen bytes. */
  const RootA: seq<byte> := [0, 0, 1, 0, 1, 0, 0, 0, 0, 0, 4, 10, 0, 0, 1]

  /** The reply: its header and question, then RootA 31 times; 484 bytes, well within a UDP answer. */
  function OverflowReply(): (reply: seq<byte>)
    ensures |reply| == 19 + 15 * 31
  {
    seq(19 + 15 * 31, i requires 0 <= i => if i < 19 then OverflowHead[i] else RootA[(i - 19) % 15])
  }

  lemma OverflowByte(j: nat, o: nat)
    requires j < 31 && o < 15
    ensures AnswerBuffer(OverflowReply())[19 + 15 * j + o] == RootA[o]
  {
    var reply := OverflowReply();
    assert (19 + 15 * j + o - 19) % 15 == o;
    assert AnswerBuffer(reply)[..|reply|] == reply;
    assert AnswerBuffer(reply)[19 + 15 * j + o] == reply[19 + 15 * j + o];
  }

  /** Record `j` of the reply decodes as an address record for the root. */
  lemma OverflowRecord(j: nat)
    requires j < 31
    ensures Decode(AnswerBuffer(OverflowReply()), |OverflowReply()| + 1, 19 + 15 * j)
         == Rr("", T_A, Some(Addr(10, 0, 0, 1)), 19 + 15 * (j + 1))
  {
    var buf := AnswerBuffer(OverflowReply());
    var ptr := 19 + 15 * j;
    OverflowByte(j, 0);
    OverflowByte(j, 1);
    OverflowByte(j, 2);
    OverflowByte(j, 11);
    OverflowByte(j, 12);
    OverflowByte(j, 13);
    OverflowByte(j, 14);
    assert Names.NameText([]) == "";
    DecodeA(buf, |OverflowReply()| + 1, ptr, [], ptr + 1, 10, 0, 0, 1);
  }

  function RecordPos(j: nat): nat {
    19 + 15 * j
  }

  /** Without the cap, every one of a run of A records for the root takes a slot of an empty or A result. */
  lemma {:induction false} OverflowFold(r: Res, query: string, s: seq<Step>, e: Entry)
    requires forall i :: 0 <= i < |s| ==> s[i].Rr? && s[i].owner == "" && s[i].rrtype == T_A && s[i].entry == Some(e)
    requires r.rtype == -1 || r.rtype == T_A
    ensures Fold(r, query, s, false).n == r.n + |s|
    ensures Fold(r, query, s, false).items == r.items + seq(|s|, _ => e)
    decreases |s|
  {
    if |s| > 0 {
      ApplyAddress(r, query, s[0], e, false);
      OverflowFold(Apply(r, query, s[0], false), query, s[1..], e);
      assert r.items + [e] + seq(|s| - 1, _ => e) == r.items + seq(|s|, _ => e);
    }
  }

  /**
   * With the cap, the same run fills the free slots and the records that
   * find all MAXRESULT slots taken are dropped.
   */
  lemma {:induction false} CappedFold(r: Res, query: string, s: seq<Step>, e: Entry)
    requires forall i :: 0 <= i < |s| ==> s[i].Rr? && s[i].owner == "" && s[i].rrtype == T_A && s[i].entry == Some(e)
    requires r.rtype == -1 || r.rtype == T_A
    requires 0 <= r.n <= MAXRESULT
    ensures Fold(r, query, s, true).n == if r.n + |s| < MAXRESULT then r.n + |s| else MAXRESULT
    ensures Fold(r, query, s, true).items == r.items + seq(Fold(r, query, s, true).n - r.n, _ => e)
    decreases |s|
  {
    if |s| > 0 {
      if r.n < MAXRESULT {
        ApplyAddress(r, query, s[0], e, true);
        CappedFold(Apply(r, query, s[0], true), query, s[1..], e);
        var m := Fold(r, query, s, true).n - r.n;
        assert r.items + [e] + seq(m - 1, _ => e) == r.items + seq(m, _ => e);
      } else {
        CappedFold(Apply(r, query, s[0], true), query, s[1..], e);
        assert r.items + seq(0, _ => e) == r.items;
      }
    } else {
      assert r.items + seq(0, _ => e) == r.items;
    }
  }

  /** An A record for the root takes the next slot of an empty or A result, if with the cap one is free. */
  lemma ApplyAddress(r: Res, query: string, d: Step, e: Entry, capped: bool)
    requires d.Rr? && d.owner == "" && d.rrtype == T_A && d.entry == Some(e)
    requires r.rtype == -1 || r.rtype == T_A
    requires capped ==> r.n < MAXRESULT
    ensures Apply(r, query, d, capped) == Res(T_A, r.n + 1, r.items + [e])
  {
    assert Admits(r, query, "", T_A);
  }

  /** Records j to j + k - 1 of the run, as they are read. */
  function OverflowSteps(j: nat, k: nat, e: Entry): (s: seq<Step>)
    ensures |s| == k && forall i :: 0 <= i < k ==> s[i] == Rr("", T_A, Some(e), RecordPos(j + i + 1))
    decreases k
  {
    if k == 0 then [] else [Rr("", T_A, Some(e), RecordPos(j + 1))] + OverflowSteps(j + 1, k - 1, e)
  }

  /** A run of root address records is read to its end. */
  lemma {:induction false} OverflowRead(read: int -> Step, j: nat, k: nat, e: Entry)
    requires forall i :: j <= i < j + k ==> read(RecordPos(i)) == Rr("", T_A, Some(e), RecordPos(i + 1))
    ensures Reaches(read, RecordPos(j), k)
    ensures Steps(read, RecordPos(j), k) == OverflowSteps(j, k, e)
    decreases k
  {
    if k > 0 {
      OverflowRead(read, j + 1, k - 1, e);
      assert read(RecordPos(j)) == Rr("", T_A, Some(e), RecordPos(j + 1));
    }
  }

  /**
   * A run of k root address records from the first record position: as
   * written every one takes a slot, with the cap only the first MAXRESULT.
   */
  lemma OverflowWalk(buf: seq<byte>, eom: nat, query: string, k: nat, e: Entry)
    requires eom <= |buf|
    requires forall i :: 0 <= i < k ==> Decode(buf, eom, RecordPos(i)) == Rr("", T_A, Some(e), RecordPos(i + 1))
    ensures Defined(buf, eom, RecordPos(0), k)
    ensures Walk(buf, eom, query, RecordPos(0), k, Res(-1, 0, []), false).n == k
    ensures Walk(buf, eom, query, RecordPos(0), k, Res(-1, 0, []), false).items == seq(k, _ => e)
    ensures Walk(buf, eom, query, RecordPos(0), k, Res(-1, 0, []), true).n == if k < MAXRESULT then k else MAXRESULT
    ensures Walk(buf, eom, query, RecordPos(0), k, Res(-1, 0, []), true).items
         == seq(if k < MAXRESULT then k else MAXRESULT, _ => e)
  {
    var read := Reader(buf, eom);
    assert forall i :: 0 <= i < 0 + k ==> read(RecordPos(i)) == Rr("", T_A, Some(e), RecordPos(i + 1));
    OverflowRead(read, 0, k, e);
    RunFold(read, query, RecordPos(0), k, Res(-1, 0, []), false);
    RunFold(read, query, RecordPos(0), k, Res(-1, 0, []), true);
    OverflowFold(Res(-1, 0, []), query, OverflowSteps(0, k, e), e);
    CappedFold(Res(-1, 0, []), query, OverflowSteps(0, k, e), e);
    assert [] + seq(k, _ => e) == seq(k, _ => e);
  }

  /** A walk over no records leaves the result as it is. */
  lemma WalkNone(buf: seq<byte>, eom: nat, query: string, ptr: int, r: Res, capped: bool)
    requires eom <= |buf|
    ensures Defined(buf, eom, ptr, 0) && Walk(buf, eom, query, ptr, 0, r, capped) == r
  {
  }

  /** One step of the walk: a decoded record is applied and the walk goes on at the next one. */
  lemma WalkStep(buf: seq<byte>, eom: nat, query: string, ptr: int, count: nat, r: Res, capped: bool, d: Step, r': Res)
    requires eom <= |buf| && count > 0 && Defined(buf, eom, ptr, count)
    requires d == Decode(buf, eom, ptr) && d.Rr? && r' == Apply(r, query, d, capped)
    ensures Defined(buf, eom, d.next, count - 1)
    ensures Walk(buf, eom, query, ptr, count, r, capped) == Walk(buf, eom, query, d.next, count - 1, r', capped)
  {
    assert Reader(buf, eom)(ptr) == d;
  }

  /** A reply with RCODE 0 is walked from the first record, over the counted records, from an empty result. */
  lemma QueryWalk(query: string, qtype: int, x: Exchange, capped: bool)
    requires QueryDefined(x) && x.Reply? && Rcode(AnswerBuffer(x.bytes)) == 0
    ensures Query(query, qtype, x, capped)
         == Walk(AnswerBuffer(x.bytes), |x.bytes| + 1, query, FirstRecord(AnswerBuffer(x.bytes), |x.bytes| + 1),
                 RecordCount(AnswerBuffer(x.bytes)), Res(-1, 0, []), capped)
  {
  }

  /** The header and question of the reply, and its 31 records. */
  lemma OverflowLayout(reply: seq<byte>, buf: seq<byte>, eom: nat)
    requires reply == OverflowReply() && buf == AnswerBuffer(reply) && eom == |reply| + 1
    ensures Rcode(buf) == 0 && RecordCount(buf) == 31 && FirstRecord(buf, eom) == RecordPos(0)
    ensures forall i :: 0 <= i < 0 + 31 ==> Decode(buf, eom, RecordPos(i)) == Rr("", T_A, Some(Addr(10, 0, 0, 1)), RecordPos(i + 1))
  {
    assert buf[..|reply|] == reply;
    assert buf[3] == 0x80 && buf[4] == 0 && buf[5] == 1 && buf[6] == 0 && buf[7] == 31 && buf[8] == 0;
    assert buf[12] == 1 && buf[13] == 97 && buf[14] == 0;
    assert Names.LabelsSize([[97]]) == 2;
    ExpandAt(buf, eom, 12, [[97]]);
    Names.SkipAgrees(buf, eom, 12);
    forall i | 0 <= i < 31
      ensures Decode(buf, eom, RecordPos(i)) == Rr("", T_A, Some(Addr(10, 0, 0, 1)), RecordPos(i + 1))
    {
      OverflowRecord(i);
    }
  }

  /** A reply whose records are a run of root address records, from the first record position. */
  lemma OverflowQuery(query: string, x: Exchange, e: Entry)
    requires QueryDefined(x) && x.Reply?
    requires Rcode(AnswerBuffer(x.bytes)) == 0
    requires FirstRecord(AnswerBuffer(x.bytes), |x.bytes| + 1) == RecordPos(0)
    requires forall i :: 0 <= i < RecordCount(AnswerBuffer(x.bytes)) ==>
               Decode(AnswerBuffer(x.bytes), |x.bytes| + 1, RecordPos(i)) == Rr("", T_A, Some(e), RecordPos(i + 1))
    ensures Query(query, T_A, x, false).n == RecordCount(AnswerBuffer(x.bytes))
    ensures Query(query, T_A, x, false).items == seq(RecordCount(AnswerBuffer(x.bytes)), _ => e)
    ensures Query(query, T_A, x, true).n == if RecordCount(AnswerBuffer(x.bytes)) < MAXRESULT then RecordCount(AnswerBuffer(x.bytes)) else MAXRESULT
    ensures Query(query, T_A, x, true).items == seq(Query(query, T_A, x, true).n, _ => e)
  {
    var buf := AnswerBuffer(x.bytes);
    OverflowWalk(buf, |x.bytes| + 1, query, RecordCount(buf), e);
    QueryWalk(query, T_A, x, false);
    QueryWalk(query, T_A, x, true);
  }

  /**
   * DnsDoQuery as written stores a 31st entry: `n` reaches MAXRESULT + 1,
   * so the last address is written past the end of the 30 slots. With
   * the slot check the same reply fills exactly the MAXRESULT slots, with
   * the first MAXRESULT of the addresses the loop as written stores.
   */
  lemma OverflowAsWritten(query: string)
    ensures QueryDefined(Reply(OverflowReply()))
    ensures Query(query, T_A, Reply(OverflowReply()), false).n == |Query(query, T_A, Reply(OverflowReply()), false).items| == MAXRESULT + 1
    ensures Query(query, T_A, Reply(OverflowReply()), true).n == MAXRESULT
    ensures Query(query, T_A, Reply(OverflowReply()), true).items
         == Query(query, T_A, Reply(OverflowReply()), false).items[..MAXRESULT]
  {
    var reply := OverflowReply();
    var buf := AnswerBuffer(reply);
    var eom := |reply| + 1;
    OverflowLayout(reply, buf, eom);
    var e := Addr(10, 0, 0, 1);
    OverflowWalk(buf, eom, query, RecordCount(buf), e);
    OverflowQuery(query, Reply(reply), e);
    assert seq(RecordCount(buf), _ => e)[..MAXRESULT] == seq(MAXRESULT, _ => e);
  }
}
