/**
 * DnsHaveQuery of tnm/generic/tnmDns.c: the query name is tried as it
 * is and then with each configured search suffix appended, first for a
 * result of the wanted type and then for any result at all.
 *
 * The exchanges the resolver library would have with the name servers
 * are a parameter: the i-th query the search issues is answered by
 * `replies[i]`.
 */
module Search {

  import opened Wire
  import opened Records
  import Answers

  /** The suffixes of `_res.dnsrch` in use: the entries before the first empty slot. */
  function Suffixes(dnsrch: seq<Option<string>>): (sfx: seq<string>)
    ensures |sfx| <= |dnsrch|
    ensures forall k :: 0 <= k < |sfx| ==> dnsrch[k] == Some(sfx[k])
    ensures |sfx| < |dnsrch| ==> dnsrch[|sfx|].None?
  {
    if |dnsrch| == 0 || dnsrch[0].None? then []
    else
      var rest := Suffixes(dnsrch[1..]);
      assert forall k :: 1 <= k < |rest| + 1 ==> dnsrch[k] == dnsrch[1..][k - 1];
      [dnsrch[0].value] + rest
  }

  /** The k-th name tried: the query itself, then the query, a dot and the k-th suffix. */
  function Candidate(query: string, sfx: seq<string>, k: nat): string
    requires k <= |sfx|
  {
    if k == 0 then query else query + "." + sfx[k - 1]
  }

  /** A search's result and how many queries it issued. */
  datatype Searched = Searched(res: Res, queries: nat)

  /** One exchange for every query either pass can issue, each of them one the walk is defined on. */
  predicate Served(sfx: seq<string>, replies: seq<Exchange>) {
    |replies| >= 2 * (|sfx| + 1) && forall i :: 0 <= i < |replies| ==> QueryDefined(replies[i])
  }

  /** The candidate query `i` asks for: each pass goes through all of them once. */
  function Round(sfx: seq<string>, i: nat): nat {
    if i <= |sfx| then i else i - (|sfx| + 1)
  }

  /** What DnsDoQuery gives for query `i` of the search, if there is one. */
  function Asker(query: string, qtype: int, sfx: seq<string>, replies: seq<Exchange>): nat -> Res
    requires Served(sfx, replies)
  {
    (i: nat) => if i < 2 * (|sfx| + 1) then Query(Candidate(query, sfx, Round(sfx, i)), qtype, replies[i], true) else Res(-1, 0, [])
  }

  /** The values of `f` from `i` up to `n`. */
  function Table(f: nat -> Res, n: nat, i: nat): (rs: seq<Res>)
    requires i <= n
    ensures |rs| == n - i
    decreases n - i
  {
    if i == n then [] else [f(i)] + Table(f, n, i + 1)
  }

  lemma {:induction false} TableAt(f: nat -> Res, n: nat, j: nat, i: nat)
    requires j <= i < n
    ensures Table(f, n, j)[i - j] == f(i)
    decreases i - j
  {
    if j < i {
      TableAt(f, n, j + 1, i);
    }
  }

  /**
   * What DnsDoQuery gives for each query the search can issue: query i
   * asks for candidate i in the first pass (i < m) and for candidate
   * i - m in the second, m being the number of candidates.
   */
  function Results(query: string, qtype: int, sfx: seq<string>, replies: seq<Exchange>): (rs: seq<Res>)
    requires Served(sfx, replies)
    ensures |rs| == 2 * (|sfx| + 1)
  {
    Table(Asker(query, qtype, sfx, replies), 2 * (|sfx| + 1), 0)
  }

  /** The result of query `i` is DnsDoQuery's for candidate `k`. */
  lemma ResultAt(query: string, qtype: int, sfx: seq<string>, replies: seq<Exchange>, i: nat, k: nat, name: string)
    requires Served(sfx, replies) && i < 2 * (|sfx| + 1) && k == Round(sfx, i) && name == Candidate(query, sfx, k)
    ensures Results(query, qtype, sfx, replies)[i] == Query(name, qtype, replies[i], true)
  {
    TableAt(Asker(query, qtype, sfx, replies), 2 * (|sfx| + 1), 0, i);
  }

  /** The name the loops of DnsHaveQuery build for candidate `k` when they go on to query it. */
  lemma Named(query: string, dnsrch: seq<Option<string>>, k: nat, name: string)
    requires k <= |dnsrch| && k <= |Suffixes(dnsrch)| + 1
    requires k == 0 ==> name == query
    requires k > 0 ==> dnsrch[k - 1].Some? && name == query + "." + dnsrch[k - 1].value
    ensures k <= |Suffixes(dnsrch)| && name == Candidate(query, Suffixes(dnsrch), k)
  {
  }

  /** Candidate `k` answers the first pass: records of the wanted type. */
  predicate Hit(qtype: int, rs: seq<Res>, k: nat)
    requires k < |rs|
  {
    rs[k].rtype == qtype && rs[k].n > 0
  }

  /** Candidate `k` answers the second pass, where it is query m + k: records of any type. */
  predicate Found(m: nat, rs: seq<Res>, k: nat)
    requires m + k < |rs|
  {
    rs[m + k].n > 0
  }

  /** The first pass from candidate `k` on; for SOA and PTR it ends with the first query. */
  function Pass1(qtype: int, m: nat, rs: seq<Res>, k: nat): (r: Option<Searched>)
    requires k <= m <= |rs|
    ensures r.Some? ==> k < r.value.queries <= m && r.value.res == rs[r.value.queries - 1]
    decreases m - k
  {
    if k == m then None
    else if Hit(qtype, rs, k) || qtype == T_SOA || qtype == T_PTR then Some(Searched(rs[k], k + 1))
    else Pass1(qtype, m, rs, k + 1)
  }

  /** The second pass from candidate `k` on: the first result with records, else the last one. */
  function Pass2(m: nat, rs: seq<Res>, k: nat): (s: Searched)
    requires k < m && 2 * m <= |rs|
    ensures m + k < s.queries <= 2 * m && s.res == rs[s.queries - 1]
    decreases m - k
  {
    if Found(m, rs, k) || k == m - 1 then Searched(rs[m + k], m + k + 1)
    else Pass2(m, rs, k + 1)
  }

  /**
   * The search over `m` candidates whose queries would give `rs`:
   * nothing at a depth above one, else the first pass, else the second.
   */
  function Search(qtype: int, m: nat, rs: seq<Res>, depth: int): (s: Searched)
    requires 1 <= m && 2 * m <= |rs|
    ensures s.queries == 0 <==> depth > 1
    ensures depth > 1 ==> s.res == Res(-1, 0, [])
    ensures s.queries <= 2 * m
    ensures s.queries > 0 ==> s.res == rs[s.queries - 1]
  {
    if depth > 1 then Searched(Res(-1, 0, []), 0)
    else
      match Pass1(qtype, m, rs, 0)
      case Some(s) => s
      case None => Pass2(m, rs, 0)
  }

  /** DnsHaveQuery over the candidates `_res.dnsrch` gives, each query answered by the next exchange. */
  function SearchResult(query: string, qtype: int, dnsrch: seq<Option<string>>, replies: seq<Exchange>, depth: int): Searched
    requires Served(Suffixes(dnsrch), replies)
  {
    Search(qtype, |Suffixes(dnsrch)| + 1, Results(query, qtype, Suffixes(dnsrch), replies), depth)
  }

  lemma {:induction false} Pass1Hit(qtype: int, m: nat, rs: seq<Res>, i: nat, k: nat)
    requires i <= k < m <= |rs| && qtype != T_SOA && qtype != T_PTR
    requires Hit(qtype, rs, k) && forall j :: i <= j < k ==> !Hit(qtype, rs, j)
    ensures Pass1(qtype, m, rs, i) == Some(Searched(rs[k], k + 1))
    decreases k - i
  {
    if i < k {
      assert !Hit(qtype, rs, i);
      Pass1Hit(qtype, m, rs, i + 1, k);
    }
  }

  lemma {:induction false} Pass1Miss(qtype: int, m: nat, rs: seq<Res>, i: nat)
    requires i <= m <= |rs| && qtype != T_SOA && qtype != T_PTR
    requires forall j :: i <= j < m ==> !Hit(qtype, rs, j)
    ensures Pass1(qtype, m, rs, i) == None
    decreases m - i
  {
    if i < m {
      assert !Hit(qtype, rs, i);
      Pass1Miss(qtype, m, rs, i + 1);
    }
  }

  lemma {:induction false} Pass2Found(m: nat, rs: seq<Res>, i: nat, k: nat)
    requires i <= k < m && 2 * m <= |rs|
    requires Found(m, rs, k) && forall j :: i <= j < k ==> !Found(m, rs, j)
    ensures Pass2(m, rs, i) == Searched(rs[m + k], m + k + 1)
    decreases k - i
  {
    if i < k {
      assert !Found(m, rs, i);
      Pass2Found(m, rs, i + 1, k);
    }
  }

  /** The second pass stops at the first of its results with records. */
  lemma Pass2Here(m: nat, rs: seq<Res>, k: nat, v: Res, queries: nat)
    requires k < m && 2 * m <= |rs| && Pass2(m, rs, k) == Pass2(m, rs, 0)
    requires v == rs[m + k] && v.n > 0 && queries == m + k + 1
    ensures Searched(v, queries) == Pass2(m, rs, 0)
  {
    Pass2Found(m, rs, k, k);
  }

  lemma {:induction false} Pass2Last(m: nat, rs: seq<Res>, i: nat)
    requires i < m && 2 * m <= |rs|
    requires forall j :: i <= j < m - 1 ==> !Found(m, rs, j)
    ensures Pass2(m, rs, i) == Searched(rs[2 * m - 1], 2 * m)
    decreases m - i
  {
    if i < m - 1 {
      assert !Found(m, rs, i);
      Pass2Last(m, rs, i + 1);
    }
  }

  /** The first candidate whose result has records of the wanted type is the answer, after k + 1 queries. */
  lemma SearchFirstHit(qtype: int, m: nat, rs: seq<Res>, depth: int, k: nat)
    requires k < m && 2 * m <= |rs| && depth <= 1 && qtype != T_SOA && qtype != T_PTR
    requires Hit(qtype, rs, k) && forall j :: 0 <= j < k ==> !Hit(qtype, rs, j)
    ensures Search(qtype, m, rs, depth) == Searched(rs[k], k + 1)
  {
    Pass1Hit(qtype, m, rs, 0, k);
  }

  /** An SOA or PTR search issues exactly one query, for the name as given, and returns its result. */
  lemma SearchSingle(query: string, qtype: int, dnsrch: seq<Option<string>>, replies: seq<Exchange>, depth: int)
    requires Served(Suffixes(dnsrch), replies) && depth <= 1 && (qtype == T_SOA || qtype == T_PTR)
    ensures SearchResult(query, qtype, dnsrch, replies, depth) == Searched(Query(query, qtype, replies[0], true), 1)
  {
    var rs := Results(query, qtype, Suffixes(dnsrch), replies);
    assert rs[0] == Query(Candidate(query, Suffixes(dnsrch), 0), qtype, replies[0], true);
  }

  /**
   * When no candidate has records of the wanted type, the second pass
   * asks every candidate again and the first with any records is the
   * answer.
   */
  lemma SearchFallback(qtype: int, m: nat, rs: seq<Res>, depth: int, k: nat)
    requires k < m && 2 * m <= |rs| && depth <= 1 && qtype != T_SOA && qtype != T_PTR
    requires forall j :: 0 <= j < m ==> !Hit(qtype, rs, j)
    requires Found(m, rs, k) && forall j :: 0 <= j < k ==> !Found(m, rs, j)
    ensures Search(qtype, m, rs, depth) == Searched(rs[m + k], m + k + 1)
  {
    Pass1Miss(qtype, m, rs, 0);
    Pass2Found(m, rs, 0, k);
  }

  /** When neither pass finds records, the answer is the last query's result, after two queries per candidate. */
  lemma SearchLast(qtype: int, m: nat, rs: seq<Res>, depth: int)
    requires 1 <= m && 2 * m <= |rs| && depth <= 1 && qtype != T_SOA && qtype != T_PTR
    requires forall j :: 0 <= j < m ==> !Hit(qtype, rs, j)
    requires forall j :: 0 <= j < m ==> !Found(m, rs, j)
    ensures Search(qtype, m, rs, depth) == Searched(rs[2 * m - 1], 2 * m) && rs[2 * m - 1].n <= 0
  {
    Pass1Miss(qtype, m, rs, 0);
    Pass2Last(m, rs, 0);
    assert !Found(m, rs, m - 1);
  }

  /** What DnsHaveQuery leaves has the shape of a DnsDoQuery result. */
  lemma SearchShaped(query: string, qtype: int, dnsrch: seq<Option<string>>, replies: seq<Exchange>, depth: int)
    requires Served(Suffixes(dnsrch), replies)
    ensures Shaped(SearchResult(query, qtype, dnsrch, replies, depth).res)
  {
    var sfx := Suffixes(dnsrch);
    var s := SearchResult(query, qtype, dnsrch, replies, depth);
    if s.queries > 0 {
      var i := s.queries - 1;
      ResultAt(query, qtype, sfx, replies, i, Round(sfx, i), Candidate(query, sfx, Round(sfx, i)));
      QueryShaped(Candidate(query, sfx, Round(sfx, i)), qtype, replies[i], true);
    }
  }

  /**
   * DnsHaveQuery(query, qtype, result, depth) with the search suffixes
   * `dnsrch` (the MAXDNSRCH + 1 slots of `_res.dnsrch`); it returns the
   * number of queries it issued.
   */
  method HaveQuery(query: string, qtype: int, dnsrch: seq<Option<string>>, replies: seq<Exchange>, depth: int,
                   result: Answers.Answer) returns (queries: nat)
    requires result.Valid() && |dnsrch| == MAXDNSRCH + 1 && Served(Suffixes(dnsrch), replies)
    modifies result, result.slots
    ensures result.Valid() && Searched(result.Value(), queries) == SearchResult(query, qtype, dnsrch, replies, depth)
  {
    result.Reset();
    queries := 0;
    if depth > 1 {
      return;
    }
    var res := new Answers.Answer();
    var done;
    queries, done := FirstPass(query, qtype, dnsrch, replies, res, result);
    if !done {
      queries := SecondPass(query, qtype, dnsrch, replies, res, result, queries);
    }
  }

  /** DnsDoQuery for candidate `k` as the i-th query of the search, in the first pass or in the second. */
  method Ask(query: string, qtype: int, ghost sfx: seq<string>, replies: seq<Exchange>, ghost k: nat, i: nat, name: string,
             res: Answers.Answer)
    requires res.Valid() && Served(sfx, replies)
    requires k <= |sfx| && (i == k || i == |sfx| + 1 + k) && name == Candidate(query, sfx, k)
    modifies res, res.slots
    ensures res.Valid() && res.Value() == Results(query, qtype, sfx, replies)[i]
  {
    assert Round(sfx, i) == k;
    ResultAt(query, qtype, sfx, replies, i, k, name);
    res.DoQuery(name, qtype, replies[i]);
  }

  /** The first loop of DnsHaveQuery; `done` when it has set the result and returned. */
  method FirstPass(query: string, qtype: int, dnsrch: seq<Option<string>>, replies: seq<Exchange>,
                   res: Answers.Answer, result: Answers.Answer) returns (queries: nat, done: bool)
    requires res.Valid() && result.Valid() && res.slots != result.slots
    requires |dnsrch| == MAXDNSRCH + 1 && Served(Suffixes(dnsrch), replies)
    modifies res, res.slots, result, result.slots
    ensures res.Valid() && result.Valid()
    ensures var p := Pass1(qtype, |Suffixes(dnsrch)| + 1, Results(query, qtype, Suffixes(dnsrch), replies), 0);
      (done <==> p.Some?) && (done ==> Searched(result.Value(), queries) == p.value)
      && (!done ==> queries == |Suffixes(dnsrch)| + 1)
  {
    ghost var sfx := Suffixes(dnsrch);
    ghost var m := |sfx| + 1;
    ghost var rs := Results(query, qtype, sfx, replies);
    var k := 0;
    queries := 0;
    while k < MAXDNSRCH + 2
      invariant k <= m && queries == k
      invariant res.Valid() && result.Valid()
      invariant Pass1(qtype, m, rs, k) == Pass1(qtype, m, rs, 0)
      decreases MAXDNSRCH + 2 - k
    {
      var name: string;
      if k == 0 {
        name := query;
      } else if dnsrch[k - 1].None? {
        break;
      } else {
        name := query + "." + dnsrch[k - 1].value;
      }
      Named(query, dnsrch, k, name);
      Ask(query, qtype, sfx, replies, k, queries, name, res);
      queries := queries + 1;
      if (res.rtype == qtype && res.n > 0) || qtype == T_SOA || qtype == T_PTR {
        result.Take(res);
        return queries, true;
      }
      k := k + 1;
    }
    done := false;
  }

  /** The second loop of DnsHaveQuery and the copy after it. */
  method SecondPass(query: string, qtype: int, dnsrch: seq<Option<string>>, replies: seq<Exchange>,
                    res: Answers.Answer, result: Answers.Answer, issued: nat) returns (queries: nat)
    requires res.Valid() && result.Valid() && res.slots != result.slots && issued == |Suffixes(dnsrch)| + 1
    requires |dnsrch| == MAXDNSRCH + 1 && Served(Suffixes(dnsrch), replies)
    modifies res, res.slots, result, result.slots
    ensures result.Valid()
    ensures Searched(result.Value(), queries)
         == Pass2(|Suffixes(dnsrch)| + 1, Results(query, qtype, Suffixes(dnsrch), replies), 0)
  {
    ghost var sfx := Suffixes(dnsrch);
    ghost var m := |sfx| + 1;
    ghost var rs := Results(query, qtype, sfx, replies);
    var k := 0;
    queries := issued;
    while k < MAXDNSRCH + 2
      invariant k <= m && queries == m + k
      invariant res.Valid() && result.Valid()
      invariant k < m ==> Pass2(m, rs, k) == Pass2(m, rs, 0)
      invariant k == m ==> Searched(res.Value(), queries) == Pass2(m, rs, 0)
      invariant k > 0 ==> res.n <= 0
      decreases MAXDNSRCH + 2 - k
    {
      var name: string;
      if k == 0 {
        name := query;
      } else if dnsrch[k - 1].None? {
        break;
      } else {
        name := query + "." + dnsrch[k - 1].value;
      }
      Named(query, dnsrch, k, name);
      Ask(query, qtype, sfx, replies, k, queries, name, res);
      queries := queries + 1;
      if res.n > 0 {
        Pass2Here(m, rs, k, res.Value(), queries);
        result.Take(res);
        return;
      }
      k := k + 1;
    }
    assert Searched(res.Value(), queries) == Pass2(m, rs, 0);
    if res.n <= 0 {
      result.Take(res);
    }
  }
}
