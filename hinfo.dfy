/**
 * The HINFO text handling of DnsHinfo and DnsCleanHinfo in
 * tnm/generic/tnmDns.c. dn_expand presents the two character-strings of
 * an HINFO record as the labels of a name: they come back joined by a
 * dot, each byte written as Names.EscapeByte writes it (Facade.LabelEscape
 * relates the two for fields of printable bytes).
 * DnsHinfo cuts the CPU and the OS field at unescaped dots, in place in
 * the C string, and DnsCleanHinfo removes the escapes by shifting the
 * rest of the string left.
 *
 * C strings are arrays of characters ending at the first '\0'.
 */
module Hinfo {

  /**
   * DnsCleanHinfo's reading of a string: a backslash is dropped and the
   * character after it kept as it is; a backslash at the very end is
   * dropped.
   */
  function Unescape(s: string): (u: string)
    ensures |u| <= |s|
    ensures forall k :: 0 <= k < |u| ==> u[k] in s
    decreases |s|
  {
    if |s| == 0 then ""
    else if s[0] == '\\' then
      if |s| == 1 then ""
      else
        var rest := Unescape(s[2..]);
        assert forall k :: 0 <= k < |rest| ==> rest[k] in s by {
          forall k | 0 <= k < |rest| ensures rest[k] in s {
            var m :| 0 <= m < |s[2..]| && s[2..][m] == rest[k];
            assert s[m + 2] == rest[k];
          }
        }
        [s[1]] + rest
    else
      var rest := Unescape(s[1..]);
      assert forall k :: 0 <= k < |rest| ==> rest[k] in s by {
        forall k | 0 <= k < |rest| ensures rest[k] in s {
          var m :| 0 <= m < |s[1..]| && s[1..][m] == rest[k];
          assert s[m + 1] == rest[k];
        }
      }
      [s[0]] + rest
  }

  /**
   * A field as dn_expand presents it when every character is printable
   * and the only special ones are dots and backslashes: each of those
   * two after a backslash, every other character as it is.
   */
  function Escape(s: string): string
    decreases |s|
  {
    if |s| == 0 then ""
    else (if s[0] == '.' || s[0] == '\\' then ['\\', s[0]] else [s[0]]) + Escape(s[1..])
  }

  /**
   * The scan of DnsHinfo from index `i`: it stops at the end of the
   * string or at a dot, and steps over the character after a backslash
   * unless the backslash is the last character.
   */
  function FieldEnd(s: string, i: nat): (e: nat)
    requires i <= |s|
    ensures i <= e <= |s| && (e < |s| ==> s[e] == '.')
    decreases |s| - i
  {
    if i == |s| || s[i] == '.' then i
    else if s[i] == '\\' && i + 1 < |s| then FieldEnd(s, i + 2)
    else FieldEnd(s, i + 1)
  }

  /**
   * The two elements DnsHinfo returns for the text `s` of the first
   * HINFO entry: the CPU field up to the first unescaped dot and the OS
   * field up to the next one, each without its escapes; whatever follows
   * is dropped.
   */
  function HinfoFields(s: string): (string, string) {
    var e1 := FieldEnd(s, 0);
    var r := if e1 < |s| then e1 + 1 else e1;
    var e2 := FieldEnd(s, r);
    (Unescape(s[..e1]), Unescape(s[r..e2]))
  }

  /** Removing the escapes gives back the field that was escaped. */
  lemma {:induction false} UnescapeEscape(x: string)
    ensures Unescape(Escape(x)) == x
    decreases |x|
  {
    if |x| > 0 {
      UnescapeEscape(x[1..]);
      var rest := Escape(x[1..]);
      if x[0] == '.' || x[0] == '\\' {
        assert Escape(x) == ['\\', x[0]] + rest;
        assert (['\\', x[0]] + rest)[2..] == rest;
      } else {
        assert Escape(x) == [x[0]] + rest;
        assert ([x[0]] + rest)[1..] == rest;
      }
    }
  }

  /** The scan looks only at the characters from where it starts. */
  lemma {:induction false} FieldEndShift(p: string, w: string, i: nat)
    requires i <= |w|
    ensures FieldEnd(p + w, |p| + i) == |p| + FieldEnd(w, i)
    decreases |w| - i
  {
    var s := p + w;
    assert |p| + i < |s| ==> s[|p| + i] == w[i];
    assert |p| + i + 1 < |s| ==> s[|p| + i + 1] == w[i + 1];
    if i == |w| || w[i] == '.' {
    } else if w[i] == '\\' && i + 1 < |w| {
      FieldEndShift(p, w, i + 2);
    } else {
      FieldEndShift(p, w, i + 1);
    }
  }

  /** An escaped field ends where the escaped text ends, at the end of the string or at the next dot. */
  lemma {:induction false} FieldEndEscape(x: string, t: string)
    requires t == "" || t[0] == '.'
    ensures FieldEnd(Escape(x) + t, 0) == |Escape(x)|
    decreases |x|
  {
    if |x| == 0 {
      assert Escape(x) + t == t;
    } else {
      FieldEndEscape(x[1..], t);
      if x[0] == '.' || x[0] == '\\' {
        EscapedHead(x, t);
      } else {
        PlainHead(x, t);
      }
    }
  }

  /** An escaped first character is stepped over as a pair. */
  lemma EscapedHead(x: string, t: string)
    requires |x| > 0 && (x[0] == '.' || x[0] == '\\')
    ensures FieldEnd(Escape(x) + t, 0) == 2 + FieldEnd(Escape(x[1..]) + t, 0)
  {
    var pre, w := ['\\', x[0]], Escape(x[1..]) + t;
    assert Escape(x) + t == pre + w;
    FieldEndShift(pre, w, 0);
  }

  /** Any other first character is stepped over alone. */
  lemma PlainHead(x: string, t: string)
    requires |x| > 0 && x[0] != '.' && x[0] != '\\'
    ensures FieldEnd(Escape(x) + t, 0) == 1 + FieldEnd(Escape(x[1..]) + t, 0)
  {
    var pre, w := [x[0]], Escape(x[1..]) + t;
    assert Escape(x) + t == pre + w;
    FieldEndShift(pre, w, 0);
  }

  /**
   * Two escaped fields joined by a dot, followed by nothing or by
   * further dot-separated text, give back the two fields.
   */
  lemma HinfoRoundTrip(cpu: string, os: string, tail: string)
    requires tail == "" || tail[0] == '.'
    ensures HinfoFields(Escape(cpu) + "." + Escape(os) + tail) == (cpu, os)
  {
    var ec, eo := Escape(cpu), Escape(os);
    FieldEndEscape(cpu, "." + eo + tail);
    FieldEndEscape(os, tail);
    JoinedFields(ec, eo, tail);
    UnescapeEscape(cpu);
    UnescapeEscape(os);
  }

  /** Two texts joined by a dot, each of which the scan takes whole, are the two fields. */
  lemma JoinedFields(a: string, b: string, tail: string)
    requires FieldEnd(a + ("." + b + tail), 0) == |a|
    requires FieldEnd(b + tail, 0) == |b|
    ensures HinfoFields(a + "." + b + tail) == (Unescape(a), Unescape(b))
  {
    FirstEnd(a, b, tail);
    SecondEnd(a, b, tail);
    JoinedSlices(a, b, tail);
    FieldsAt(a + "." + b + tail, |a|, |a| + 1 + |b|);
  }

  lemma FirstEnd(a: string, b: string, tail: string)
    requires FieldEnd(a + ("." + b + tail), 0) == |a|
    ensures FieldEnd(a + "." + b + tail, 0) == |a|
  {
    assert a + "." + b + tail == a + ("." + b + tail);
  }

  /** The second scan starts after the dot, so only the text after it matters. */
  lemma SecondEnd(a: string, b: string, tail: string)
    requires FieldEnd(b + tail, 0) == |b|
    ensures FieldEnd(a + "." + b + tail, |a| + 1) == |a| + 1 + |b|
  {
    assert a + "." + b + tail == (a + ".") + (b + tail);
    FieldEndShift(a + ".", b + tail, 0);
  }

  lemma JoinedSlices(a: string, b: string, tail: string)
    ensures var s := a + "." + b + tail;
      |a| < |s| && s[..|a|] == a && s[|a| + 1..|a| + 1 + |b|] == b
  {
    var s := a + "." + b + tail;
    assert s[..|a|] == a;
    assert s[|a| + 1..|a| + 1 + |b|] == b;
  }

  /** HinfoFields when the first field ends at a dot at `e1` and the second at `e2`. */
  lemma FieldsAt(s: string, e1: nat, e2: nat)
    requires e1 < |s| && e1 == FieldEnd(s, 0) && e1 + 1 <= e2 <= |s| && e2 == FieldEnd(s, e1 + 1)
    ensures HinfoFields(s) == (Unescape(s[..e1]), Unescape(s[e1 + 1..e2]))
  {
  }

  /** The inner loop of DnsCleanHinfo: the string from `i` moves one place left, its '\0' with it. */
  method ShiftLeft(buf: array<char>, i: nat, ghost e: nat)
    requires i < e < buf.Length && buf[e] == '\0'
    requires forall k :: i <= k < e ==> buf[k] != '\0'
    modifies buf
    ensures forall k :: i <= k < e ==> buf[k] == old(buf[k + 1])
    ensures forall k :: 0 <= k < buf.Length && (k < i || e <= k) ==> buf[k] == old(buf[k])
  {
    var p := i;
    while buf[p] != '\0'
      invariant i <= p <= e
      invariant forall k :: i <= k < p ==> buf[k] == old(buf[k + 1])
      invariant forall k :: 0 <= k < buf.Length && (k < i || p <= k) ==> buf[k] == old(buf[k])
      decreases e - p
    {
      buf[p] := buf[p + 1];
      p := p + 1;
    }
  }

  /**
   * Part way through DnsCleanHinfo on the string `s` of length `len` at
   * `start` of the buffer contents `b`: the cleaned text so far ends at
   * `o`, the rest of `s` from `j` on follows it, then '\0' up to the old
   * terminator; the loop index `i` is `o`, or one past it once a
   * trailing backslash went.
   */
  ghost predicate Cleaning(b: seq<char>, start: nat, len: nat, s: string, o: nat, i: nat, j: nat) {
    start <= o <= i <= start + len < |b| && j <= len == |s| && o - start <= j
    && (forall k :: 0 <= k < |s| ==> s[k] != '\0')
    && (o == i || (o + 1 == i && j == len))
    && (forall k :: o <= k < o + (len - j) ==> b[k] == s[j + (k - o)])
    && (forall k :: o + (len - j) <= k <= start + len ==> b[k] == '\0')
    && Unescape(s) == b[start..o] + Unescape(s[j..])
  }

  /** How Unescape reads the front of `s[j..]`. */
  lemma UnescapeFront(s: string, j: nat)
    requires j < |s|
    ensures s[j] != '\\' ==> Unescape(s[j..]) == [s[j]] + Unescape(s[j + 1..])
    ensures s[j] == '\\' && j + 1 < |s| ==> Unescape(s[j..]) == [s[j + 1]] + Unescape(s[j + 2..])
    ensures s[j] == '\\' && j + 1 == |s| ==> Unescape(s[j..]) == ""
  {
    assert s[j..][1..] == s[j + 1..];
    if j + 1 < |s| {
      assert s[j..][2..] == s[j + 2..];
    }
  }

  /** An ordinary character stays where it is and joins the cleaned text. */
  lemma KeepStep(b: seq<char>, start: nat, len: nat, s: string, i: nat, j: nat)
    requires Cleaning(b, start, len, s, i, i, j) && b[i] != '\0' && b[i] != '\\'
    ensures Cleaning(b, start, len, s, i + 1, i + 1, j + 1)
  {
    assert j < len && b[i] == s[j];
    UnescapeFront(s, j);
    assert b[start..i + 1] == b[start..i] + [s[j]];
    Regroup(Unescape(s), b[start..i], b[start..i + 1], s[j], Unescape(s[j..]), Unescape(s[j + 1..]));
  }

  /** Moving one character from the front of the rest to the end of the done part keeps the whole. */
  lemma Regroup(whole: seq<char>, done: seq<char>, done': seq<char>, c: char, rest: seq<char>, rest': seq<char>)
    requires whole == done + rest && done' == done + [c] && rest == [c] + rest'
    ensures whole == done' + rest'
  {
    assert done + ([c] + rest') == (done + [c]) + rest';
  }

  /**
   * A backslash goes: the rest of the string moved one place left, so the
   * character after it is now at `i` and joins the cleaned text, unless
   * the backslash was the last character.
   */
  lemma DropStep(b: seq<char>, b': seq<char>, start: nat, len: nat, s: string, i: nat, j: nat)
    requires Cleaning(b, start, len, s, i, i, j) && b[i] == '\\'
    requires |b'| == |b| && i + (len - j) < |b|
    requires forall k :: i <= k < i + (len - j) ==> b'[k] == b[k + 1]
    requires forall k :: 0 <= k < |b| && (k < i || i + (len - j) <= k) ==> b'[k] == b[k]
    ensures j + 1 < len ==> Cleaning(b', start, len, s, i + 1, i + 1, j + 2)
    ensures j + 1 >= len ==> Cleaning(b', start, len, s, i, i + 1, len)
  {
    assert j < len && b[i] == s[j];
    UnescapeFront(s, j);
    assert b'[start..i] == b[start..i];
    if j + 1 < len {
      assert b'[start..i + 1] == b'[start..i] + [s[j + 1]];
      Regroup(Unescape(s), b'[start..i], b'[start..i + 1], s[j + 1], Unescape(s[j..]), Unescape(s[j + 2..]));
    } else {
      assert s[len..] == [] && b'[start..i] + [] == b'[start..i];
    }
  }

  /** One pass of the outer loop of DnsCleanHinfo, at a character that is not the terminator. */
  method CleanStep(buf: array<char>, i: nat, ghost start: nat, ghost len: nat, ghost s: string, ghost j: nat)
    returns (ghost o: nat, ghost j': nat)
    requires Cleaning(buf[..], start, len, s, i, i, j) && buf[i] != '\0'
    modifies buf
    ensures Cleaning(buf[..], start, len, s, o, i + 1, j') && j < j'
    ensures forall k :: 0 <= k < buf.Length && (k < start || start + len < k) ==> buf[k] == old(buf[k])
  {
    ghost var b := buf[..];
    if buf[i] == '\\' {
      assert j < len;
      ShiftLeft(buf, i, i + (len - j));
      DropStep(b, buf[..], start, len, s, i, j);
      if j + 1 < len {
        o, j' := i + 1, j + 2;
      } else {
        o, j' := i, len;
      }
    } else {
      KeepStep(b, start, len, s, i, j);
      o, j' := i + 1, j + 1;
    }
  }

  /**
   * DnsCleanHinfo on the C string of length `len` at `start`: afterwards
   * the string there is Unescape of the old one, and the places it gave
   * up hold '\0'. Nothing outside the old string and its '\0' changes.
   */
  method CleanHinfo(buf: array<char>, start: nat, ghost len: nat)
    requires start + len < buf.Length && buf[start + len] == '\0'
    requires forall k :: start <= k < start + len ==> buf[k] != '\0'
    modifies buf
    ensures var u := Unescape(old(buf[start..start + len]));
      |u| <= len && buf[start..start + |u|] == u
      && forall k :: start + |u| <= k <= start + len ==> buf[k] == '\0'
    ensures forall k :: 0 <= k < buf.Length && (k < start || start + len < k) ==> buf[k] == old(buf[k])
  {
    ghost var s := buf[start..start + len];
    assert forall k :: 0 <= k < |s| ==> s[k] == buf[start + k];
    var i := start;
    ghost var o, j := start, 0;
    while buf[i] != '\0'
      invariant Cleaning(buf[..], start, len, s, o, i, j)
      invariant forall k :: 0 <= k < buf.Length && (k < start || start + len < k) ==> buf[k] == old(buf[k])
      decreases len - j
    {
      o, j := CleanStep(buf, i, start, len, s, j);
      i := i + 1;
    }
    assert j == len;
    CleanDone(buf[..], start, len, s, o, i);
    assert buf[..][start..o] == buf[start..o];
  }

  /** When the whole string is read, the cleaned text is in place and '\0' follows it. */
  lemma CleanDone(b: seq<char>, start: nat, len: nat, s: string, o: nat, i: nat)
    requires Cleaning(b, start, len, s, o, i, len)
    ensures var u := Unescape(s);
      o == start + |u| && b[start..o] == u && forall k :: o <= k <= start + len ==> b[k] == '\0'
  {
    assert s[len..] == [];
  }

  /** The characters of the C string of length `len` at `start`, as Tcl_AppendElement reads them. */
  method CString(buf: array<char>, start: nat, ghost len: nat) returns (s: string)
    requires start + len < buf.Length && buf[start + len] == '\0'
    requires forall k :: start <= k < start + len ==> buf[k] != '\0'
    ensures s == buf[start..start + len]
  {
    var k := start;
    while buf[k] != '\0'
      invariant start <= k <= start + len
      decreases start + len - k
    {
      k := k + 1;
    }
    s := buf[start..k];
  }

  /**
   * The scan of DnsHinfo from `from` over the text `s` the buffer holds:
   * it stops at the first unescaped dot or at the terminator.
   */
  method ScanField(buf: array<char>, from: nat, ghost len: nat, ghost s: string) returns (ptr: nat)
    requires from <= len < buf.Length && buf[len] == '\0' && |s| == len
    requires forall k :: from <= k < len ==> buf[k] == s[k] && s[k] != '\0'
    ensures ptr == FieldEnd(s, from)
  {
    ptr := from;
    while buf[ptr] != '\0' && buf[ptr] != '.'
      invariant from <= ptr <= len && FieldEnd(s, ptr) == FieldEnd(s, from)
      decreases len - ptr
    {
      if buf[ptr] == '\\' && buf[ptr + 1] != '\0' {
        ptr := ptr + 1;
      }
      ptr := ptr + 1;
    }
  }

  /**
   * One field walk of DnsHinfo from `from`: the scan to the next
   * unescaped dot or the end, the '\0' written over the dot, the clean,
   * and the copy of the field. `s` is the text the buffer holds from
   * `from` up to its terminator at `len`; `next` is where the next field
   * starts, and the buffer from there on is left as it was.
   */
  method Field(buf: array<char>, from: nat, ghost len: nat, ghost s: string) returns (field: string, next: nat)
    requires from <= len < buf.Length && buf[len] == '\0' && |s| == len
    requires forall k :: from <= k < len ==> buf[k] == s[k] && s[k] != '\0'
    modifies buf
    ensures var e := FieldEnd(s, from);
      field == Unescape(s[from..e]) && next == (if e < len then e + 1 else e)
    ensures forall k :: next <= k < buf.Length ==> buf[k] == old(buf[k])
  {
    var ptr := ScanField(buf, from, len, s);
    ghost var e := ptr;
    assert buf[from..e] == s[from..e];
    if buf[ptr] == '.' {
      buf[ptr] := '\0';
      ptr := ptr + 1;
    }
    next := ptr;
    CleanHinfo(buf, from, e - from);
    ghost var u := Unescape(s[from..e]);
    NoNul(s[from..e], u);
    field := CString(buf, from, |u|);
  }

  /**
   * The two field walks of DnsHinfo on the text of the first HINFO
   * entry, held as a C string of length `len` in `buf`.
   */
  method SplitHinfo(buf: array<char>, ghost len: nat) returns (cpu: string, os: string)
    requires len < buf.Length && buf[len] == '\0'
    requires forall k :: 0 <= k < len ==> buf[k] != '\0'
    modifies buf
    ensures (cpu, os) == HinfoFields(old(buf[..len]))
  {
    ghost var s := buf[..len];
    var next;
    cpu, next := Field(buf, 0, len, s);
    os, next := Field(buf, next, len, s);
  }

  /** Unescaping a string without '\0' yields none. */
  lemma NoNul(s: string, u: string)
    requires forall k :: 0 <= k < |s| ==> s[k] != '\0'
    requires u == Unescape(s)
    ensures forall k :: 0 <= k < |u| ==> u[k] != '\0'
  {
  }
}
