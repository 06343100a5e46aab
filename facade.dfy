/**
 * The lookup procedures behind the `dns` command of tnm/generic/tnmDns.c:
 * DnsA, DnsPtr, DnsGetHostName, DnsHinfo, DnsMx and DnsSoa. Each turns a
 * host name or a dotted address into a Tcl result: the list of elements
 * appended, or an error with the interpreter's message.
 *
 * The address and host name validators of the Tnm library and the
 * search DnsHaveQuery(name, type, &res, 0) performs are parameters, in
 * a Resolver; Sound states of its searches what Search.SearchShaped
 * proves of every DnsHaveQuery result.
 */
module Facade {

  import opened Wire
  import opened Records
  import Decimal
  import Hinfo
  import Names
  import Search

  /**
   * A Tcl result: the elements appended, or an error. An error message of
   * None is one the result of the search does not determine (slot 0 left
   * from an earlier use of the record, or address bytes read as a string).
   */
  datatype Outcome = Ok(items: seq<string>) | Err(msg: Option<string>)

  /** One DnsHaveQuery(name, qtype, &res, 0) a procedure issues. */
  datatype Lookup = Lookup(name: string, qtype: int)

  /** What a procedure returns, and the searches it issued on the way, in order. */
  datatype Done = Done(out: Outcome, asked: seq<Lookup>)

  /**
   * TnmValidateIpAddress and TnmValidateIpHostName (None when the string
   * is valid, else the message they leave), and the result of the search
   * for a name and a type.
   */
  datatype Resolver = Resolver(address: string -> Option<string>, host: string -> Option<string>,
                               lookup: (string, int) -> Res)

  /** Every search result has the shape DnsHaveQuery guarantees. */
  ghost predicate Sound(env: Resolver) {
    forall name: string, t: int :: Shaped(env.lookup(name, t))
  }

  /** A resolver whose searches are DnsHaveQuery's over the resolver's search list is sound. */
  lemma SearchSound(env: Resolver, dnsrch: seq<Option<string>>, net: (string, int) -> seq<Exchange>)
    requires forall name: string, t: int :: Search.Served(Search.Suffixes(dnsrch), net(name, t))
    requires forall name: string, t: int ::
      env.lookup(name, t) == Search.SearchResult(name, t, dnsrch, net(name, t), 0).res
    ensures Sound(env)
  {
    forall name: string, t: int
      ensures Shaped(env.lookup(name, t))
    {
      Search.SearchShaped(name, t, dnsrch, net(name, t), 0);
    }
  }

  /**
   * The string in slot 0, which every procedure returns as its error
   * message. An address in any slot may overlay slot 0's text in the
   * a_res union, so the message is known only when every entry is text.
   */
  function Message(r: Res): Option<string> {
    if |r.items| > 0 && forall i :: 0 <= i < |r.items| ==> r.items[i].Text? then Some(r.items[0].s) else None
  }

  /** The element inet_ntoa gives for an address; text in an address slot is left undetermined. */
  function AddressText(e: Entry): string {
    if e.Addr? then Decimal.Dotted(e.a as int, e.b as int, e.c as int, e.d as int) else ""
  }

  /** The element a text slot gives; an address in a text slot is left undetermined. */
  function EntryText(e: Entry): string {
    if e.Text? then e.s else ""
  }

  /**
   * `if (res.n < 0 || res.type != t)` fails with slot 0; otherwise each
   * of the n entries is appended, as an address or as text.
   */
  function Gate(r: Res, t: int, address: bool): Outcome {
    if r.n < 0 || r.rtype != t then Err(Message(r))
    else Ok(seq(|r.items|, i requires 0 <= i < |r.items| =>
                  if address then AddressText(r.items[i]) else EntryText(r.items[i])))
  }

  /** The reverse-lookup name sprintf builds: the four numbers in reverse order under in-addr.arpa. */
  function ReverseName(a: int, b: int, c: int, d: int): string {
    Decimal.Dotted(d, c, b, a) + ".in-addr.arpa"
  }

  /** DnsPtr: the names a PTR search gives for the dotted address `ip`. */
  function Ptr(env: Resolver, ip: string): Done {
    match env.address(ip)
    case Some(m) => Done(Err(Some(m)), [])
    case None =>
      match Decimal.ScanDotted(ip)
      case None => Done(Err(Some("invalid IP address \"" + ip + "\"")), [])
      case Some((a, b, c, d)) =>
        var name := ReverseName(a, b, c, d);
        Done(Gate(env.lookup(name, T_PTR), T_PTR, false), [Lookup(name, T_PTR)])
  }

  /** DnsGetHostName: DnsPtr, with its own message when it fails. */
  function HostName(env: Resolver, h: string): Done {
    var p := Ptr(env, h);
    if p.out.Err? then Done(Err(Some("cannot reverse lookup \"" + h + "\"")), p.asked) else p
  }

  /**
   * DnsA: a dotted address is confirmed by a reverse lookup and returned
   * as it is; a host name gives the addresses of an A search.
   */
  function A(env: Resolver, h: string): Done {
    if env.address(h).None? then
      var p := Ptr(env, h);
      Done(if p.out.Ok? then Ok([h]) else p.out, p.asked)
    else
      match env.host(h)
      case Some(m) => Done(Err(Some(m)), [])
      case None => Done(Gate(env.lookup(h, T_A), T_A, true), [Lookup(h, T_A)])
  }

  /** The interpreter result as a string: Tcl_AppendElement joins elements with a space. */
  function Joined(items: seq<string>): string
    decreases |items|
  {
    if |items| == 0 then ""
    else if |items| == 1 then items[0]
    else items[0] + " " + Joined(items[1..])
  }

  /** The host name a procedure searches for, or the way it failed before searching. */
  datatype Target = Failed(done: Done) | Named(name: string, asked: seq<Lookup>)

  /** TnmValidateIpHostName on the name to search for. */
  function Validated(env: Resolver, h: string, asked: seq<Lookup>): Target {
    match env.host(h)
    case Some(m) => Failed(Done(Err(Some(m)), asked))
    case None => Named(h, asked)
  }

  /**
   * The head of DnsHinfo, DnsMx and DnsSoa: a dotted address becomes the
   * interpreter result of DnsGetHostName, then the name is validated.
   */
  function TargetOf(env: Resolver, hname: string): Target {
    if env.address(hname).None? then
      var g := HostName(env, hname);
      if g.out.Err? then Failed(g) else Validated(env, Joined(g.out.items), g.asked)
    else Validated(env, hname, [])
  }

  /** DnsMx (t = T_MX) and DnsSoa (t = T_SOA): the texts of the search for the target. */
  function TextRecords(env: Resolver, hname: string, t: int): Done
    requires t == T_MX || t == T_SOA
  {
    match TargetOf(env, hname)
    case Failed(d) => d
    case Named(h, asked) => Done(Gate(env.lookup(h, t), t, false), asked + [Lookup(h, t)])
  }

  /** DnsHinfo: the CPU and the OS field of the first HINFO text of the target. */
  function HostInfo(env: Resolver, hname: string): Done
    requires Sound(env)
  {
    match TargetOf(env, hname)
    case Failed(d) => d
    case Named(h, asked) =>
      var r := env.lookup(h, T_HINFO);
      var out :=
        if r.n < 0 || r.rtype != T_HINFO then Err(Message(r))
        else
          var f := Hinfo.HinfoFields(r.items[0].s);
          Ok([f.0, f.1]);
      Done(out, asked + [Lookup(h, T_HINFO)])
  }

  /**
   * On a result of DnsHaveQuery the gate fails exactly when the search
   * failed or found no record of the type; a failure carries the message
   * of the search; on success there is one element per entry, and for a
   * type other than A the elements are the stored texts.
   */
  lemma GateShaped(r: Res, t: int, address: bool)
    requires Shaped(r) && Stored(t)
    ensures Gate(r, t, address).Ok? <==> r.n > 0 && r.rtype == t
    ensures r.n < 0 ==> Gate(r, t, address) == Err(Some(r.items[0].s))
    ensures Gate(r, t, address).Ok? ==> |Gate(r, t, address).items| == r.n
    ensures Gate(r, t, false).Ok? && t != T_A ==>
      forall i :: 0 <= i < r.n ==> r.items[i] == Text(Gate(r, t, false).items[i])
  {
    if r.n >= 0 && r.rtype == t && t != T_A {
      forall i | 0 <= i < r.n
        ensures r.items[i].Text?
      {
        assert r.items[i].Addr? ==> r.rtype == T_A;
      }
    }
  }

  /**
   * DnsPtr asks at most one search, a PTR search for the reverse name of
   * the address it read; when it asks none it fails with a message.
   */
  lemma PtrLookups(env: Resolver, ip: string)
    ensures var p := Ptr(env, ip);
      (p.asked == [] ==> p.out.Err? && p.out.msg.Some?)
      && (p.asked != [] ==>
            env.address(ip).None? && Decimal.ScanDotted(ip).Some?
            && var (a, b, c, d) := Decimal.ScanDotted(ip).value;
            p.asked == [Lookup(ReverseName(a, b, c, d), T_PTR)])
    ensures env.address(ip).None? && Decimal.ScanDotted(ip).None? ==>
      Ptr(env, ip) == Done(Err(Some("invalid IP address \"" + ip + "\"")), [])
  {
  }

  /** The address a.b.c.d is looked up as d.c.b.a.in-addr.arpa. */
  lemma PtrReverse(env: Resolver, a: int, b: int, c: int, d: int)
    requires env.address(Decimal.Dotted(a, b, c, d)).None?
    ensures var name := Decimal.Dotted(d, c, b, a) + ".in-addr.arpa";
      Ptr(env, Decimal.Dotted(a, b, c, d)) == Done(Gate(env.lookup(name, T_PTR), T_PTR, false), [Lookup(name, T_PTR)])
  {
    Decimal.ScanDottedText(a, b, c, d);
  }

  /**
   * DnsA on a dotted address only checks it by a reverse lookup: it asks
   * what DnsPtr asks, fails as DnsPtr fails and otherwise returns the
   * address itself.
   */
  lemma ALiteral(env: Resolver, h: string)
    requires env.address(h).None?
    ensures A(env, h).asked == Ptr(env, h).asked
    ensures A(env, h).out.Ok? <==> Ptr(env, h).out.Ok?
    ensures A(env, h).out.Ok? ==> A(env, h).out.items == [h]
    ensures A(env, h).out.Err? ==> A(env, h).out == Ptr(env, h).out
    ensures forall l :: l in A(env, h).asked ==> l.qtype == T_PTR
  {
    PtrLookups(env, h);
  }

  /** DnsA on a valid host name: one A search, and one element per address it found. */
  lemma AName(env: Resolver, h: string)
    requires Sound(env) && env.address(h).Some? && env.host(h).None?
    ensures A(env, h).asked == [Lookup(h, T_A)]
    ensures var r := env.lookup(h, T_A);
      (A(env, h).out.Ok? <==> r.n > 0 && r.rtype == T_A)
      && (A(env, h).out.Ok? ==> |A(env, h).out.items| == r.n)
      && (A(env, h).out.Ok? ==> forall i :: 0 <= i < r.n && r.items[i].Addr? ==>
            Decimal.ScanDotted(A(env, h).out.items[i])
              == Some((r.items[i].a as int, r.items[i].b as int, r.items[i].c as int, r.items[i].d as int)))
      && (r.n < 0 ==> A(env, h).out == Err(Some(r.items[0].s)))
  {
    var r := env.lookup(h, T_A);
    assert Shaped(r);
    GateShaped(r, T_A, true);
    if A(env, h).out.Ok? {
      forall i | 0 <= i < r.n && r.items[i].Addr?
        ensures Decimal.ScanDotted(A(env, h).out.items[i])
                  == Some((r.items[i].a as int, r.items[i].b as int, r.items[i].c as int, r.items[i].d as int))
      {
        var e := r.items[i];
        assert A(env, h).out.items[i] == Decimal.Dotted(e.a as int, e.b as int, e.c as int, e.d as int);
        Decimal.ScanDottedText(e.a as int, e.b as int, e.c as int, e.d as int);
      }
    }
  }

  /** DnsGetHostName keeps what DnsPtr gives, but replaces every failure by its own message. */
  lemma HostNameOutcome(env: Resolver, h: string)
    ensures HostName(env, h).asked == Ptr(env, h).asked
    ensures HostName(env, h).out.Ok? <==> Ptr(env, h).out.Ok?
    ensures HostName(env, h).out.Ok? ==> HostName(env, h).out == Ptr(env, h).out
    ensures HostName(env, h).out.Err? ==> HostName(env, h).out.msg == Some("cannot reverse lookup \"" + h + "\"")
  {
  }

  /**
   * DnsMx and DnsSoa on a dotted address search first for its name and
   * then, if there is one, for records of that name; on a host name they
   * search once, for the name itself.
   */
  lemma TextRecordsTarget(env: Resolver, hname: string, t: int)
    requires t == T_MX || t == T_SOA
    ensures var d := TextRecords(env, hname, t);
      (env.address(hname).None? ==>
         d.asked[..|Ptr(env, hname).asked|] == Ptr(env, hname).asked
         && (d.out.Ok? ==>
               (Ptr(env, hname).out.Ok?
                && d.asked == Ptr(env, hname).asked + [Lookup(Joined(Ptr(env, hname).out.items), t)])))
      && (env.address(hname).Some? ==>
            d.asked == (if env.host(hname).None? then [Lookup(hname, t)] else []))
  {
    PtrLookups(env, hname);
  }

  /**
   * What DnsMx and DnsSoa return once they have searched: the stored
   * texts of the last search, one per entry, or its message.
   */
  lemma TextRecordsResult(env: Resolver, hname: string, t: int)
    requires Sound(env) && (t == T_MX || t == T_SOA)
    ensures var d := TextRecords(env, hname, t);
      TargetOf(env, hname).Named? ==>
        var r := env.lookup(TargetOf(env, hname).name, t);
        d.asked == TargetOf(env, hname).asked + [Lookup(TargetOf(env, hname).name, t)]
        && (d.out.Ok? <==> r.n > 0 && r.rtype == t)
        && (d.out.Ok? ==>
              (|d.out.items| == r.n && forall i :: 0 <= i < r.n ==> r.items[i] == Text(d.out.items[i])))
        && (r.n < 0 ==> d.out == Err(Some(r.items[0].s)))
  {
    var target := TargetOf(env, hname);
    if target.Named? {
      assert Shaped(env.lookup(target.name, t));
      GateShaped(env.lookup(target.name, t), t, false);
    }
  }

  /** The characters of a character-string's bytes, one each. */
  function Chars(l: seq<byte>): string {
    seq(|l|, i requires 0 <= i < |l| => l[i] as char)
  }

  /** A byte that dn_expand writes as itself or, for a dot or a backslash, after a backslash. */
  predicate Plain(c: byte) {
    Names.Printable(c) && (Names.Special(c) ==> c == 0x2E || c == 0x5C)
  }

  /** For a label of such bytes, dn_expand's text is the field escaped as DnsHinfo scans it. */
  lemma {:induction false} LabelEscape(l: seq<byte>)
    requires forall i :: 0 <= i < |l| ==> Plain(l[i])
    ensures Names.LabelText(l) == Hinfo.Escape(Chars(l))
    decreases |l|
  {
    if l != [] {
      LabelEscape(l[1..]);
      assert Chars(l)[1..] == Chars(l[1..]);
    }
  }

  /**
   * DnsHinfo returns the two fields of the first HINFO text of its
   * target: when dn_expand presents the record's CPU and OS
   * character-strings as the first two labels of plain bytes, followed by
   * whatever further labels it reads after them, exactly the characters
   * of those two strings.
   */
  lemma HostInfoFields(env: Resolver, h: string, cpu: seq<byte>, os: seq<byte>, more: seq<seq<byte>>)
    requires Sound(env) && env.address(h).Some? && env.host(h).None?
    requires forall i :: 0 <= i < |cpu| ==> Plain(cpu[i])
    requires forall i :: 0 <= i < |os| ==> Plain(os[i])
    requires var r := env.lookup(h, T_HINFO);
      r.rtype == T_HINFO && r.n > 0 && |r.items| > 0 && r.items[0] == Text(Names.NameText([cpu, os] + more))
    ensures HostInfo(env, h) == Done(Ok([Chars(cpu), Chars(os)]), [Lookup(h, T_HINFO)])
  {
    PlainFields(cpu, os, more);
  }

  /** The HINFO text of two labels of plain bytes, and any after them, splits into their characters. */
  lemma PlainFields(cpu: seq<byte>, os: seq<byte>, more: seq<seq<byte>>)
    requires forall i :: 0 <= i < |cpu| ==> Plain(cpu[i])
    requires forall i :: 0 <= i < |os| ==> Plain(os[i])
    ensures Hinfo.HinfoFields(Names.NameText([cpu, os] + more)) == (Chars(cpu), Chars(os))
  {
    LabelEscape(cpu);
    LabelEscape(os);
    var tail := if more == [] then "" else "." + Names.NameText(more);
    LeadingLabels(cpu, os, more, tail);
    Hinfo.HinfoRoundTrip(Chars(cpu), Chars(os), tail);
  }

  /** dn_expand's text of labels `cpu` and `os` followed by `more`: the two, then the rest after a dot. */
  lemma LeadingLabels(cpu: seq<byte>, os: seq<byte>, more: seq<seq<byte>>, tail: string)
    requires tail == if more == [] then "" else "." + Names.NameText(more)
    ensures Names.NameText([cpu, os] + more) == Names.LabelText(cpu) + "." + Names.LabelText(os) + tail
  {
    NameCons(os, more);
    NameCons(cpu, [os] + more);
    assert [cpu, os] + more == [cpu] + ([os] + more);
  }

  /** The text of a name with a first label: that label, then a dot and the rest if there is one. */
  lemma NameCons(l: seq<byte>, rest: seq<seq<byte>>)
    ensures Names.NameText([l] + rest) == Names.LabelText(l) + (if rest == [] then "" else "." + Names.NameText(rest))
  {
    assert ([l] + rest)[0] == l;
    assert ([l] + rest)[1..] == rest;
  }

  /**
   * A byte outside the printable range comes back as its three digits:
   * dn_expand writes the space of the CPU field "W N" as `\032`, and
   * DnsCleanHinfo drops only the backslash.
   */
  lemma SpacedField(env: Resolver, h: string)
    requires Sound(env) && env.address(h).Some? && env.host(h).None?
    requires env.lookup(h, T_HINFO) == Res(T_HINFO, 1, [Text(Names.NameText([[0x57, 0x20, 0x4E], [0x58]]))])
    ensures HostInfo(env, h) == Done(Ok(["W032N", "X"]), [Lookup(h, T_HINFO)])
  {
    SpacedText();
    SpacedScan();
  }

  /** dn_expand's text of the two labels "W N" and "X". */
  lemma SpacedText()
    ensures Names.NameText([[0x57, 0x20, 0x4E], [0x58]]) == "W\\032N.X"
  {
    assert Names.EscapeByte(0x20) == "\\032";
    assert Names.LabelText([0x57, 0x20, 0x4E]) == "W\\032N";
    assert Names.LabelText([0x58]) == "X";
  }

  /** DnsHinfo's two fields of that text. */
  lemma SpacedScan()
    ensures Hinfo.HinfoFields("W\\032N.X") == ("W032N", "X")
  {
    var text := "W\\032N.X";
    assert Hinfo.FieldEnd(text, 0) == 6 && Hinfo.FieldEnd(text, 7) == 8;
    assert text[..6] == "W\\032N" && text[7..8] == "X";
    assert Hinfo.Unescape("W\\032N") == "W032N";
    assert Hinfo.Unescape("X") == "X";
  }

  /** DnsHinfo succeeds exactly when its HINFO search found records, and then gives two elements. */
  lemma HostInfoOutcome(env: Resolver, hname: string)
    requires Sound(env)
    ensures var d := HostInfo(env, hname);
      TargetOf(env, hname).Named? ==>
        var r := env.lookup(TargetOf(env, hname).name, T_HINFO);
        (d.out.Ok? <==> r.n > 0 && r.rtype == T_HINFO)
        && (d.out.Ok? ==> |d.out.items| == 2 && (d.out.items[0], d.out.items[1]) == Hinfo.HinfoFields(r.items[0].s))
        && (r.n < 0 ==> d.out == Err(Some(r.items[0].s)))
  {
    var target := TargetOf(env, hname);
    if target.Named? {
      assert Shaped(env.lookup(target.name, T_HINFO));
    }
  }
}
