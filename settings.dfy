/**
 * The per-interpreter DNS settings of tnm/generic/tnmDns.c: the
 * DnsControl record, the way Tnm_DnsObjCmd merges the -timeout, -retries
 * and -server options into it or into the parameters of one lookup, and
 * DnsInit, which hands those parameters to the resolver state `_res`.
 *
 * The options arrive already converted: TnmGetPositiveFromObj,
 * TnmGetUnsignedFromObj, Tcl_ListObjGetElements and TnmSetIPAddress are
 * outside the model, and an address TnmSetIPAddress rejects is None.
 * Addresses are the 32-bit s_addr values in host order.
 */
module Settings {

  import opened Wire

  /** htonl(INADDR_ANY) and htonl(INADDR_LOOPBACK), in host order. */
  const INADDR_ANY: nat := 0
  const INADDR_LOOPBACK: nat := 0x7f00_0001

  /** A DnsControl record: both the stored defaults and the parameters of one call. */
  datatype Config = Config(retries: int, timeout: int, nscount: int, servers: seq<nat>)

  /** The part of `_res` DnsInit sets: retrans, retry, nscount and nsaddr_list. */
  datatype Resolv = Resolv(retrans: int, retry: int, nscount: int, servers: seq<nat>)

  /** One option of the dns command with its converted argument. */
  datatype Opt = Timeout(t: int) | Retries(r: int) | Servers(addrs: seq<Option<nat>>)

  /** TCL_OK, or TCL_ERROR with the message left in the interpreter (None: set by a converter). */
  datatype Status = Success | Failure(msg: Option<string>)

  /** The parameters after an option, or the error the option ends the command with. */
  datatype Parsed = Parsed(p: Config) | Rejected(msg: Option<string>)

  const TOO_MANY: string := "number of DNS server addresses exceeds resolver limit"
  const NONE_GIVEN: string := "at least one DNS server address required"

  /** A stored record every lookup can use: retries and timeout set, one to MAXNS servers. */
  predicate Good(c: Config) {
    0 <= c.retries && 0 < c.timeout && 1 <= c.nscount <= MAXNS && |c.servers| == MAXNS
  }

  /** The parameters of one call: each value is the sentinel -1 or one the option checks let through. */
  predicate Pending(p: Config) {
    (p.retries == -1 || 0 <= p.retries) && (p.timeout == -1 || 0 < p.timeout)
    && (p.nscount == -1 || 1 <= p.nscount <= MAXNS) && |p.servers| == MAXNS
  }

  /** The parameters before any option: every value -1, every server INADDR_ANY. */
  function Unset(): (p: Config)
    ensures Pending(p) && p.retries == p.timeout == p.nscount == -1
  {
    Config(-1, -1, -1, seq(MAXNS, _ => INADDR_ANY))
  }

  /** The servers in use: the first nscount slots. */
  function Listed(servers: seq<nat>, count: int): seq<nat>
    requires count <= |servers|
  {
    if count <= 0 then [] else servers[..count]
  }

  /** The slot copy `dst[i] = src[i]` for every i below count, on whole slot arrays. */
  function Overlay(src: seq<nat>, dst: seq<nat>, count: int): (o: seq<nat>)
    requires |src| == |dst| && count <= |src|
    ensures |o| == |dst| && forall i :: 0 <= i < |o| ==> o[i] == if i < count then src[i] else dst[i]
  {
    if count <= 0 then dst else src[..count] + dst[count..]
  }

  /**
   * The server list a new record starts from: the resolver's own, unless
   * it is empty or the single address INADDR_ANY, which become loopback.
   */
  function Fallback(l: seq<nat>): (f: seq<nat>)
    ensures 1 <= |f| && (|l| <= MAXNS ==> |f| <= MAXNS)
    ensures f == l || f == [INADDR_LOOPBACK]
    ensures f != [INADDR_ANY]
    ensures |l| > 0 && l != [INADDR_ANY] ==> f == l
  {
    if |l| == 0 || (|l| == 1 && l[0] == INADDR_ANY) then [INADDR_LOOPBACK] else l
  }

  /** The values a list of optional addresses holds, when none is missing. */
  function Addresses(a: seq<Option<nat>>): (v: seq<nat>)
    requires forall i :: 0 <= i < |a| ==> a[i].Some?
    ensures |v| == |a| && forall i :: 0 <= i < |a| ==> a[i] == Some(v[i])
  {
    seq(|a|, i requires 0 <= i < |a| => a[i].value)
  }

  /** One option applied to the parameters, with the checks of its converter and of the server count. */
  function Given(p: Config, o: Opt): (r: Parsed)
    requires |p.servers| == MAXNS
    ensures r.Parsed? ==> |r.p.servers| == MAXNS
  {
    match o
    case Timeout(t) => if 0 < t then Parsed(p.(timeout := t)) else Rejected(None)
    case Retries(r) => if 0 <= r then Parsed(p.(retries := r)) else Rejected(None)
    case Servers(a) =>
      if |a| > MAXNS then Rejected(Some(TOO_MANY))
      else if |a| == 0 then Rejected(Some(NONE_GIVEN))
      else if exists i :: 0 <= i < |a| && a[i].None? then Rejected(None)
      else Parsed(p.(nscount := |a|, servers := Addresses(a) + p.servers[|a|..]))
  }

  /** The option loop: the options in order, stopping at the first that is rejected. */
  function Gather(p: Config, opts: seq<Opt>): (r: Parsed)
    requires Pending(p)
    ensures r.Parsed? ==> Pending(r.p)
    decreases |opts|
  {
    if |opts| == 0 then Parsed(p)
    else
      match Given(p, opts[0])
      case Rejected(m) => Rejected(m)
      case Parsed(q) => Gather(q, opts[1..])
  }

  /** A call without a lookup stores every value that was given; the others stay. */
  function Committed(c: Config, p: Config): Config
    requires |c.servers| == |p.servers| == MAXNS && p.nscount <= MAXNS
  {
    Config(if p.retries >= 0 then p.retries else c.retries,
           if p.timeout > 0 then p.timeout else c.timeout,
           if p.nscount > 0 then p.nscount else c.nscount,
           if p.nscount > 0 then Overlay(p.servers, c.servers, p.nscount) else c.servers)
  }

  /** A call with a lookup takes every value that was not given from the stored record. */
  function Filled(p: Config, c: Config): Config
    requires |c.servers| == |p.servers| == MAXNS && c.nscount <= MAXNS
  {
    Config(if p.retries < 0 then c.retries else p.retries,
           if p.timeout < 0 then c.timeout else p.timeout,
           if p.nscount < 0 then c.nscount else p.nscount,
           if p.nscount < 0 then Overlay(c.servers, p.servers, c.nscount) else p.servers)
  }

  /** DnsInit: retrans is the timeout, retry one more than the retries, then the servers. */
  function Initialized(r: Resolv, c: Config): Resolv
    requires 0 <= c.nscount <= MAXNS && |c.servers| == |r.servers| == MAXNS
  {
    Resolv(c.timeout, c.retries + 1, c.nscount, Overlay(c.servers, r.servers, c.nscount))
  }

  /** Each option the checks let through keeps the parameters pending. */
  lemma GivenPending(p: Config, o: Opt)
    requires Pending(p)
    ensures Given(p, o).Parsed? ==> Pending(Given(p, o).p)
  {
  }

  /** A server option that passes the checks lists exactly its addresses. */
  lemma GivenServers(p: Config, a: seq<Option<nat>>)
    requires Pending(p) && 1 <= |a| <= MAXNS && forall i :: 0 <= i < |a| ==> a[i].Some?
    ensures Given(p, Servers(a)).Parsed?
    ensures var q := Given(p, Servers(a)).p;
      q.nscount == |a| && forall i :: 0 <= i < |a| ==> a[i] == Some(q.servers[i])
  {
  }

  /**
   * A call without a lookup keeps a stored record good, and the values
   * given win over the stored ones.
   */
  lemma CommittedGood(c: Config, p: Config)
    requires Good(c) && Pending(p)
    ensures var d := Committed(c, p);
      Good(d)
      && (p.retries >= 0 ==> d.retries == p.retries) && (p.retries < 0 ==> d.retries == c.retries)
      && (p.timeout > 0 ==> d.timeout == p.timeout) && (p.timeout < 0 ==> d.timeout == c.timeout)
      && (p.nscount > 0 ==> Listed(d.servers, d.nscount) == Listed(p.servers, p.nscount))
      && (p.nscount < 0 ==> Listed(d.servers, d.nscount) == Listed(c.servers, c.nscount))
  {
  }

  /** A call without options leaves the stored record as it was. */
  lemma CommittedUnset(c: Config)
    requires Good(c)
    ensures Committed(c, Unset()) == c
  {
  }

  /**
   * The parameters of a lookup have no sentinel left: each value is the
   * one given, or else the stored one.
   */
  lemma FilledGood(p: Config, c: Config)
    requires Good(c) && Pending(p)
    ensures var f := Filled(p, c);
      Good(f)
      && f.retries == (if p.retries >= 0 then p.retries else c.retries)
      && f.timeout == (if p.timeout > 0 then p.timeout else c.timeout)
      && Listed(f.servers, f.nscount) == (if p.nscount > 0 then Listed(p.servers, p.nscount) else Listed(c.servers, c.nscount))
  {
  }

  /** The resolver gets at least one try, a positive timeout and one to MAXNS servers, the listed ones. */
  lemma InitializedGood(r: Resolv, c: Config)
    requires Good(c) && |r.servers| == MAXNS
    ensures var s := Initialized(r, c);
      s.retry >= 1 && s.retrans >= 1 && 1 <= s.nscount <= MAXNS
      && s.retry == c.retries + 1 && s.retrans == c.timeout
      && s.servers[..s.nscount] == Listed(c.servers, c.nscount)
  {
  }

  /**
   * Whatever options a call brings, a good stored record stays good, and
   * a lookup runs with a resolver set up from good parameters.
   */
  lemma MergeGood(c: Config, r: Resolv, opts: seq<Opt>)
    requires Good(c) && |r.servers| == MAXNS
    ensures Gather(Unset(), opts).Parsed? ==>
      var p := Gather(Unset(), opts).p;
      Pending(p) && Good(Committed(c, p)) && Good(Filled(p, c))
      && Initialized(r, Filled(p, c)).retry >= 1 && 1 <= Initialized(r, Filled(p, c)).nscount
  {
    if Gather(Unset(), opts).Parsed? {
      var p := Gather(Unset(), opts).p;
      CommittedGood(c, p);
      FilledGood(p, c);
      InitializedGood(r, Filled(p, c));
    }
  }

  /** The resolver state `_res`, of which DnsInit sets four fields. */
  class ResolverState {
    var retrans: int
    var retry: int
    var nscount: int
    const nsaddr: array<nat>

    predicate Valid()
      reads this
    {
      nsaddr.Length == MAXNS && 0 <= nscount <= MAXNS
    }

    function Value(): Resolv
      reads this, nsaddr
    {
      Resolv(retrans, retry, nscount, nsaddr[..])
    }

    /** The servers the resolver uses. */
    function Listed(): seq<nat>
      reads this, nsaddr
      requires Valid()
    {
      nsaddr[..nscount]
    }

    /** DnsInit(c). */
    method Init(c: Control)
      requires Valid() && c.Valid() && 0 <= c.nscount && c.servers != nsaddr
      modifies this, nsaddr
      ensures Valid() && Value() == Initialized(old(Value()), old(c.Value()))
    {
      retrans := c.timeout;
      retry := c.retries + 1;
      nscount := c.nscount;
      CopySlots(nsaddr, c.servers, c.nscount);
    }
  }

  /** A DnsControl record. */
  class Control {
    var retries: int
    var timeout: int
    var nscount: int
    const servers: array<nat>

    predicate Valid()
      reads this
    {
      servers.Length == MAXNS && -1 <= nscount <= MAXNS
    }

    function Value(): Config
      reads this, servers
    {
      Config(retries, timeout, nscount, servers[..])
    }

    /** dnsParams as the command sets it up before reading any option. */
    constructor Blank()
      ensures Valid() && Value() == Unset() && fresh(servers)
    {
      retries, timeout, nscount := -1, -1, -1;
      servers := new nat[MAXNS](_ => INADDR_ANY);
    }

    /**
     * The record a new interpreter gets: retries and timeout 2, and the
     * resolver's servers with the loopback fallback.
     */
    constructor Copy(res: ResolverState)
      requires res.Valid()
      ensures Valid() && Good(Value()) && fresh(servers)
      ensures retries == 2 && timeout == 2 && servers[..nscount] == Fallback(res.Listed())
    {
      retries, timeout := 2, 2;
      var count := res.nscount;
      var list := new nat[MAXNS](_ => INADDR_ANY);
      CopySlots(list, res.nsaddr, count);
      assert list[..count] == res.Listed();
      if count == 0 || (count == 1 && list[0] == INADDR_ANY) {
        count := 1;
        list[0] := INADDR_LOOPBACK;
        assert list[..count] == [INADDR_LOOPBACK];
      }
      nscount := count;
      servers := list;
    }

    /** The -server option: the count checks, then each address into its slot. */
    method SetServers(a: seq<Option<nat>>) returns (st: Status)
      requires Valid()
      modifies this, servers
      ensures Valid()
      ensures match Given(old(Value()), Servers(a))
        case Parsed(v) => st == Success && Value() == v
        case Rejected(m) => st == Failure(m)
    {
      if |a| > MAXNS {
        return Failure(Some(TOO_MANY));
      }
      if |a| == 0 {
        return Failure(Some(NONE_GIVEN));
      }
      nscount := |a|;
      var i := 0;
      while i < nscount
        invariant 0 <= i <= nscount == |a|
        invariant forall k :: 0 <= k < i ==> a[k] == Some(servers[k])
        invariant forall k :: i <= k < MAXNS ==> servers[k] == old(servers[k])
        invariant retries == old(retries) && timeout == old(timeout)
      {
        if a[i].None? {
          return Failure(None);
        }
        servers[i] := a[i].value;
        i := i + 1;
      }
      assert servers[..] == Addresses(a) + old(servers[..])[|a|..];
      return Success;
    }

    /** One option of the loop in Tnm_DnsObjCmd. */
    method Apply(o: Opt) returns (st: Status)
      requires Valid()
      modifies this, servers
      ensures Valid()
      ensures match Given(old(Value()), o)
        case Parsed(v) => st == Success && Value() == v
        case Rejected(m) => st == Failure(m)
    {
      match o
      case Timeout(t) =>
        if 0 < t {
          timeout := t;
          return Success;
        }
        return Failure(None);
      case Retries(r) =>
        if 0 <= r {
          retries := r;
          return Success;
        }
        return Failure(None);
      case Servers(a) =>
        st := SetServers(a);
    }

    /** The options-only call: each given value goes into the stored record. */
    method Commit(p: Control)
      requires Valid() && p.Valid() && p.servers != servers
      modifies this, servers
      ensures Valid() && Value() == Committed(old(Value()), old(p.Value()))
    {
      if p.retries >= 0 {
        retries := p.retries;
      }
      if p.timeout > 0 {
        timeout := p.timeout;
      }
      if p.nscount > 0 {
        nscount := p.nscount;
        CopySlots(servers, p.servers, p.nscount);
      }
    }

    /** The parameters of a lookup: each value not given is taken from the stored record `c`. */
    method Fill(c: Control)
      requires Valid() && c.Valid() && c.servers != servers
      modifies this, servers
      ensures Valid() && Value() == Filled(old(Value()), old(c.Value()))
    {
      if timeout < 0 {
        timeout := c.timeout;
      }
      if retries < 0 {
        retries := c.retries;
      }
      if nscount < 0 {
        nscount := c.nscount;
        CopySlots(servers, c.servers, c.nscount);
      }
    }
  }

  /** The loop `for (i = 0; i < count; i++) dst[i] = src[i];` over two slot arrays. */
  method CopySlots(dst: array<nat>, src: array<nat>, count: int)
    requires dst != src && dst.Length == src.Length && count <= src.Length
    modifies dst
    ensures dst[..] == Overlay(src[..], old(dst[..]), count)
  {
    var i := 0;
    while i < count
      invariant 0 <= i <= (if count < 0 then 0 else count)
      invariant forall k :: 0 <= k < i ==> dst[k] == src[k]
      invariant forall k :: i <= k < dst.Length ==> dst[k] == old(dst[k])
    {
      dst[i] := src[i];
      i := i + 1;
    }
  }

  /** The `if (! control)` block: a new record from the resolver's settings, handed back to it. */
  method NewControl(res: ResolverState) returns (control: Control)
    requires res.Valid()
    modifies res, res.nsaddr
    ensures fresh(control) && fresh(control.servers) && control.Valid() && Good(control.Value())
    ensures control.retries == 2 && control.timeout == 2
    ensures control.servers[..control.nscount] == Fallback(old(res.Listed()))
    ensures res.Valid() && res.Value() == Initialized(old(res.Value()), control.Value())
  {
    control := new Control.Copy(res);
    res.Init(control);
  }

  /**
   * The settings part of Tnm_DnsObjCmd: the options, then either the
   * commit into the stored record (no lookup follows) or the filled
   * parameters handed to the resolver (a lookup follows).
   */
  method Merge(control: Control, res: ResolverState, opts: seq<Opt>, lookup: bool) returns (st: Status)
    requires control.Valid() && Good(control.Value()) && res.Valid() && control.servers != res.nsaddr
    modifies control, control.servers, res, res.nsaddr
    ensures control.Valid() && res.Valid()
    ensures match Gather(Unset(), opts)
      case Rejected(m) =>
        st == Failure(m) && control.Value() == old(control.Value()) && res.Value() == old(res.Value())
      case Parsed(p) =>
        st == Success
        && (!lookup ==> control.Value() == Committed(old(control.Value()), p) && res.Value() == old(res.Value()))
        && (lookup ==>
              (control.Value() == old(control.Value())
               && res.Value() == Initialized(old(res.Value()), Filled(p, old(control.Value())))))
  {
    var params := new Control.Blank();
    var x := 0;
    st := Success;
    while x < |opts|
      invariant 0 <= x <= |opts| && params.Valid() && fresh(params) && fresh(params.servers)
      invariant Pending(params.Value()) && st == Success
      invariant Gather(Unset(), opts) == Gather(params.Value(), opts[x..])
      invariant control.Value() == old(control.Value()) && res.Value() == old(res.Value())
      invariant control.Valid() && res.Valid()
      decreases |opts| - x
    {
      ghost var before := params.Value();
      GivenPending(before, opts[x]);
      st := params.Apply(opts[x]);
      if st.Failure? {
        return;
      }
      assert opts[x..][1..] == opts[x + 1..];
      x := x + 1;
    }
    if !lookup {
      control.Commit(params);
      return;
    }
    params.Fill(control);
    res.Init(params);
  }
}
