/**
 * The a_res record of tnm/generic/tnmDns.c and DnsDoQuery, which fills
 * it in place from one query's reply. Each method is proved against the
 * specification functions of module Records.
 */
module Answers {

  import opened Wire
  import Names
  import opened Records

  /**
   * An a_res: the record type (-1 while unset), the count (-1 for an
   * error) and the MAXRESULT slots, of which the first `n` are in use, or
   * the first one holds the message of an error.
   */
  class Answer {
    var rtype: int
    var n: int
    const slots: array<Entry>

    predicate Valid()
      reads this
    {
      slots.Length == MAXRESULT && -1 <= n <= MAXRESULT
    }

    /** The result the record holds. */
    function Value(): Res
      reads this, slots
      requires Valid()
    {
      Res(rtype, n, if n < 0 then slots[..1] else slots[..n])
    }

    constructor ()
      ensures Valid() && Value() == Res(-1, 0, []) && fresh(slots)
    {
      rtype, n := -1, 0;
      slots := new Entry[MAXRESULT](_ => Text(""));
    }

    /** The record as DnsHaveQuery leaves it when it gives up at once: no type and no entries. */
    method Reset()
      requires Valid()
      modifies this
      ensures Valid() && Value() == Res(-1, 0, [])
    {
      rtype, n := -1, 0;
    }

    /** A failure: count -1 and the message in the first slot. */
    method Fail(t: int, msg: string)
      requires Valid()
      modifies this, slots
      ensures Valid() && Value() == Res(t, -1, [Text(msg)])
    {
      rtype, n := t, -1;
      slots[0] := Text(msg);
    }

    /** The structure copy `*query_result = res`: every field and every slot. */
    method Take(other: Answer)
      requires Valid() && other.Valid() && other.slots != slots
      modifies this, slots
      ensures Valid() && Value() == old(other.Value())
    {
      rtype, n := other.rtype, other.n;
      forall i | 0 <= i < MAXRESULT {
        slots[i] := other.slots[i];
      }
    }

    /**
     * The append each record type performs: an admitted entry takes the
     * next slot and fixes the type, unless every slot is taken.
     */
    method Store(query: string, owner: string, t: int, e: Entry)
      requires Valid() && 0 <= n
      modifies this, slots
      ensures Valid() && 0 <= n
      ensures Value() == Accept(old(Value()), query, owner, t, e, true)
    {
      if (rtype == t || rtype == -1 || (t == T_A && query == owner)) && n < MAXRESULT {
        ghost var before := slots[..n];
        slots[n] := e;
        rtype, n := t, n + 1;
        assert slots[..n] == before + [e];
      }
    }

    /** The rdata of one record at `q`, with the stores its type calls for. */
    method RecordData(buf: seq<byte>, eom: nat, query: string, owner: string, t: nat, rdlen: int, q: nat)
      returns (next: int, stop: bool)
      requires Valid() && 0 <= n && eom <= |buf| && q <= |buf|
      requires !RData(buf, eom, owner, t, rdlen, q).Beyond?
      modifies this, slots
      ensures Valid() && 0 <= n
      ensures var s := RData(buf, eom, owner, t, rdlen, q);
        (stop <==> s.Stop?)
        && (stop ==> Value() == old(Value()))
        && (!stop ==>
              next == s.next
              && Value() == if s.entry.Some? then Accept(old(Value()), query, owner, t, s.entry.value, true) else old(Value()))
    {
      next, stop := 0, false;
      if t == T_NS {
        var e := Names.Expand(buf, eom, q);
        if e.None? {
          stop := true;
          return;
        }
        next := q + e.value.consumed;
      } else if t == T_A {
        Store(query, owner, t, Addr(buf[q], buf[q + 1], buf[q + 2], buf[q + 3]));
        next := q + 4;
      } else if t == T_SOA {
        var m := Names.Expand(buf, eom, q);
        if m.None? {
          stop := true;
          return;
        }
        var r := Names.Expand(buf, eom, q + m.value.consumed);
        if r.None? {
          stop := true;
          return;
        }
        Store(query, owner, t, Text(m.value.text));
        next := q + m.value.consumed + r.value.consumed + 5 * 4;
      } else if t == T_HINFO || t == T_PTR {
        var e := Names.Expand(buf, eom, q);
        if e.None? {
          stop := true;
          return;
        }
        Store(query, owner, t, Text(e.value.text));
        next := q + rdlen;
      } else if t == T_MX {
        var prio := U16(buf, q);
        var e := Names.Expand(buf, eom, q + 2);
        if e.None? {
          stop := true;
          return;
        }
        Store(query, owner, t, Text(e.value.text + " " + Decimal.NatText(prio)));
        next := q + 2 + e.value.consumed;
      } else {
        next := q + rdlen;
      }
    }

    /** One pass of the record loop: the owner name, the fixed fields and the rdata. */
    method Record(buf: seq<byte>, eom: nat, query: string, ptr: int) returns (next: int, stop: bool)
      requires Valid() && 0 <= n && eom <= |buf| && !Decode(buf, eom, ptr).Beyond?
      modifies this, slots
      ensures Valid() && 0 <= n
      ensures var s := Decode(buf, eom, ptr);
        (stop <==> s.Stop?)
        && (stop ==> Value() == old(Value()))
        && (!stop ==> next == s.next && Value() == Apply(old(Value()), query, s, true))
    {
      var o := Names.Expand(buf, eom, ptr);
      if o.None? {
        return 0, true;
      }
      var p := ptr + o.value.consumed;
      var t := U16(buf, p);
      var rdlen := Short(U16(buf, p + 8));
      next, stop := RecordData(buf, eom, query, o.value.text, t, rdlen, p + RRFIXEDSZ);
    }

    /**
     * DnsDoQuery(query, qtype, this) once res_mkquery and res_send have
     * ended as `x` says. The slot check keeps every append inside the
     * MAXRESULT slots.
     */
    method DoQuery(query: string, qtype: int, x: Exchange)
      requires Valid() && QueryDefined(x)
      modifies this, slots
      ensures Valid() && Value() == Query(query, qtype, x, true)
    {
      rtype, n := -1, 0;
      match x
      case MakeFailed =>
        Fail(-1, "cannot make query");
      case SendFailed(h) =>
        Fail(-1, "cannot send query; error " + Decimal.IntText(h));
      case Reply(bytes) =>
        var buf := AnswerBuffer(bytes);
        var eom := |bytes| + 1;
        if Rcode(buf) != 0 {
          Fail(qtype, RcodeMessage(Rcode(buf)));
          return;
        }
        var count := AnCount(buf);
        if count == 0 {
          count := NsCount(buf);
        }
        if count == 0 {
          count := ArCount(buf);
        }
        var ptr: int := HFIXEDSZ;
        if QdCount(buf) > 0 {
          var rc := Names.Skip(buf, eom, HFIXEDSZ);
          ptr := ptr + rc + QFIXEDSZ;
        }
        assert count == RecordCount(buf) && ptr == FirstRecord(buf, eom);
        assert Value() == Res(-1, 0, []);
        QueryWalk(query, qtype, x, true);
        WalkRecords(buf, eom, query, ptr, count);
    }

    /**
     * One pass of the record loop, as a step of the walk over the records
     * left: afterwards `left` records from `next` remain, none once the
     * loop returns.
     */
    method WalkRecord(buf: seq<byte>, eom: nat, query: string, ptr: int, count: nat) returns (next: int, left: nat)
      requires Valid() && 0 <= n && eom <= |buf| && count > 0 && Defined(buf, eom, ptr, count)
      modifies this, slots
      ensures Valid() && 0 <= n && left < count && Defined(buf, eom, next, left)
      ensures Walk(buf, eom, query, next, left, Value(), true) == Walk(buf, eom, query, ptr, count, old(Value()), true)
    {
      ghost var before := Value();
      var stop;
      next, stop := Record(buf, eom, query, ptr);
      if stop {
        left := 0;
        WalkNone(buf, eom, query, next, Value(), true);
      } else {
        left := count - 1;
        WalkStep(buf, eom, query, ptr, count, before, true, Decode(buf, eom, ptr), Value());
      }
    }

    /** The record loop of DnsDoQuery over `count` records from `ptr`. */
    method WalkRecords(buf: seq<byte>, eom: nat, query: string, ptr: int, count: nat)
      requires Valid() && 0 <= n && eom <= |buf| && Defined(buf, eom, ptr, count)
      modifies this, slots
      ensures Valid() && Value() == Walk(buf, eom, query, ptr, count, old(Value()), true)
    {
      var p, c := ptr, count;
      ghost var walk := Walk(buf, eom, query, ptr, count, Value(), true);
      while c > 0
        invariant Valid() && 0 <= n
        invariant Defined(buf, eom, p, c)
        invariant Walk(buf, eom, query, p, c, Value(), true) == walk
        decreases c
      {
        p, c := WalkRecord(buf, eom, query, p, c);
      }
      WalkNone(buf, eom, query, p, Value(), true);
    }
  }
}
