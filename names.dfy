/**
 * Domain names in a DNS message: the resolver library's dn_expand and
 * dn_skipname as tnm/generic/tnmDns.c calls them. dn_expand follows the
 * compression scheme of RFC 1035 section 4.1.4 with the limits of the BSD
 * resolver: an unpacked name of at most 255 wire bytes, a loop check that
 * gives up once the pointers followed add up to the message size, and the
 * presentation form with backslash escapes written into a buffer of the
 * caller's size.
 *
 * Offsets count from the start of the message; `eom` is the index just
 * past the last byte the resolver may read.
 */
module Names {

  import opened Wire
  import Decimal

  /** NS_MAXCDNAME: room for an unpacked name in wire form. */
  const MAXCDNAME: nat := 255
  /** sizeof(buf), sizeof(lbuf) and sizeof(auth_buf) in DnsDoQuery. */
  const TEXTSZ: nat := 512

  /** Label length bytes below 64; compression pointers start with two one bits. */
  const MAXLABEL: nat := 63
  const CMPRSFLGS: nat := 0xC0

  datatype Unpacked = Unpacked(labels: seq<seq<byte>>, consumed: nat)

  datatype Expanded = Expanded(text: string, consumed: nat)

  /**
   * The loop of ns_name_unpack from `pos` on. `checked` counts the bytes
   * seen so far for the loop check, `len` is the consumed length once the
   * first pointer fixed it, `labels` what was copied and `written` how
   * many bytes of the 255-byte buffer the copy used.
   */
  function Unpack(buf: seq<byte>, eom: nat, src: nat, pos: nat, checked: nat, len: Option<nat>,
                  labels: seq<seq<byte>>, written: nat): (r: Option<Unpacked>)
    requires eom <= |buf| && src < eom && pos < eom
    requires len.None? ==> src <= pos
    requires len.Some? ==> 2 <= len.value && src + len.value <= eom
    ensures r.Some? && len.Some? ==> r.value.consumed == len.value
    ensures r.Some? && len.None? ==> pos + 1 - src <= r.value.consumed
    ensures r.Some? ==> 1 <= r.value.consumed && src + r.value.consumed <= eom
    decreases (if checked < eom then eom - checked else 0), eom - pos
  {
    var n := buf[pos];
    if n == 0 then
      Some(Unpacked(labels, if len.Some? then len.value else pos + 1 - src))
    else if n <= MAXLABEL then
      if written + n + 1 >= MAXCDNAME || pos + 1 + n >= eom then None
      else Unpack(buf, eom, src, pos + 1 + n, checked + n + 1, len,
                  labels + [buf[pos + 1..pos + 1 + n]], written + n + 1)
    else if n >= CMPRSFLGS then
      if pos + 1 >= eom then None
      else
        var len' := if len.Some? then len.value else pos + 2 - src;
        var target := (n - CMPRSFLGS) * 256 + buf[pos + 1];
        if target >= eom then None
        else if checked + 2 >= eom then None
        else Unpack(buf, eom, src, target, checked + 2, Some(len'), labels, written)
    else
      None
  }

  /** Bytes that ns_name_ntop writes with a backslash in front. */
  predicate Special(c: byte) {
    c == 0x22 || c == 0x2E || c == 0x3B || c == 0x5C || c == 0x40 || c == 0x24
  }

  /** Bytes that ns_name_ntop writes as they are. */
  predicate Printable(c: byte) {
    0x20 < c < 0x7F
  }

  /** The presentation form of one byte of a label. */
  function EscapeByte(c: byte): (s: string)
    ensures 1 <= |s| <= 4
  {
    if Special(c) then ['\\', c as char]
    else if !Printable(c) then
      ['\\', Decimal.DigitChar(c / 100), Decimal.DigitChar(c % 100 / 10), Decimal.DigitChar(c % 10)]
    else [c as char]
  }

  function LabelText(l: seq<byte>): string
  {
    if l == [] then [] else EscapeByte(l[0]) + LabelText(l[1..])
  }

  /**
   * The name as dn_expand leaves it in the caller's buffer: labels in
   * presentation form joined by dots. The root, which ns_name_ntop writes
   * as ".", is the empty string once dn_expand has cleared that dot.
   */
  function NameText(labels: seq<seq<byte>>): string
  {
    if labels == [] then []
    else if |labels| == 1 then LabelText(labels[0])
    else LabelText(labels[0]) + "." + NameText(labels[1..])
  }

  /**
   * dn_expand(msg, eom, src, dst, TEXTSZ): the text of the name at `src`
   * and the number of bytes it takes at `src`, or None where dn_expand
   * returns -1 (a bad label type, a label or pointer running into `eom`,
   * a pointer loop, a name longer than 255 bytes or a text that does not
   * fit the buffer with its terminating NUL).
   */
  function Expand(buf: seq<byte>, eom: nat, src: int): (r: Option<Expanded>)
    requires eom <= |buf|
    ensures r.Some? ==> 0 <= src && 1 <= r.value.consumed && src + r.value.consumed <= eom
    ensures r.Some? ==> |r.value.text| < TEXTSZ
  {
    if src < 0 || src >= eom then None
    else
      match Unpack(buf, eom, src, src, 0, None, [], 0)
      case None => None
      case Some(u) =>
        var t := NameText(u.labels);
        if |t| + 1 > TEXTSZ then None else Some(Expanded(t, u.consumed))
  }

  /**
   * The loop of ns_name_skip from `cp` on: labels are stepped over and
   * the first pointer ends the name without being followed.
   */
  function SkipFrom(buf: seq<byte>, eom: nat, start: nat, cp: nat): (r: int)
    requires eom <= |buf| && start <= cp
    ensures r == -1 || (cp - start <= r && start + r <= eom)
    decreases eom - cp
  {
    if cp >= eom then
      if cp > eom then -1 else cp - start
    else
      var n := buf[cp];
      if n == 0 then cp + 1 - start
      else if n <= MAXLABEL then SkipFrom(buf, eom, start, cp + 1 + n)
      else if n >= CMPRSFLGS then (if cp + 2 > eom then -1 else cp + 2 - start)
      else -1
  }

  /**
   * dn_skipname(ptr, eom): the length of the name at `ptr`, or -1. A
   * name that starts at `eom` itself has length 0.
   */
  function Skip(buf: seq<byte>, eom: nat, ptr: nat): (r: int)
    requires eom <= |buf|
    ensures r == -1 || (0 <= r && ptr + r <= eom)
    ensures ptr < eom && r != -1 ==> 1 <= r
  {
    SkipFrom(buf, eom, ptr, ptr)
  }

  // Names in wire form, RFC 1035 section 3.1.

  /** Labels at `pos`, each preceded by its length byte, with nothing said about what follows. */
  predicate LabelsAt(buf: seq<byte>, pos: nat, labels: seq<seq<byte>>)
    decreases |labels|
  {
    labels != [] ==>
      var n := |labels[0]|;
      1 <= n <= MAXLABEL && pos + 1 + n <= |buf| && buf[pos] == n
      && BytesAt(buf, pos + 1, labels[0]) && LabelsAt(buf, pos + 1 + n, labels[1..])
  }

  /** The bytes of `l` stand in `buf` from `p` on. */
  predicate BytesAt(buf: seq<byte>, p: nat, l: seq<byte>) {
    p + |l| <= |buf| && forall i :: 0 <= i < |l| ==> buf[p + i] == l[i]
  }

  /** The bytes that labels take in wire form, length bytes included. */
  function LabelsSize(labels: seq<seq<byte>>): nat
  {
    if labels == [] then 0 else 1 + |labels[0]| + LabelsSize(labels[1..])
  }

  /** An uncompressed name at `pos`: its labels, then the terminating zero. */
  predicate EncodedAt(buf: seq<byte>, pos: nat, labels: seq<seq<byte>>) {
    LabelsAt(buf, pos, labels) && pos + LabelsSize(labels) < |buf| && buf[pos + LabelsSize(labels)] == 0
  }

  /** A compressed name at `pos`: its first labels, then a pointer to `target`. */
  predicate PointerAt(buf: seq<byte>, pos: nat, labels: seq<seq<byte>>, target: nat) {
    LabelsAt(buf, pos, labels) && pos + LabelsSize(labels) + 1 < |buf|
    && buf[pos + LabelsSize(labels)] >= CMPRSFLGS
    && target == (buf[pos + LabelsSize(labels)] - CMPRSFLGS) * 256 + buf[pos + LabelsSize(labels) + 1]
  }

  /** The first of several labels in wire form, and where the others start. */
  lemma LabelsFirst(buf: seq<byte>, pos: nat, labels: seq<seq<byte>>)
    requires LabelsAt(buf, pos, labels) && labels != []
    ensures 1 <= |labels[0]| <= MAXLABEL && buf[pos] == |labels[0]|
    ensures pos + 1 + |labels[0]| <= |buf| && BytesAt(buf, pos + 1, labels[0])
    ensures LabelsAt(buf, pos + 1 + |labels[0]|, labels[1..])
    ensures LabelsSize(labels) == 1 + |labels[0]| + LabelsSize(labels[1..])
  {
  }

  /** One label in front of what unpacks after it: its length byte, then its bytes, copied whole. */
  lemma ConsLabel(buf: seq<byte>, eom: nat, src: nat, pos: nat, checked: nat, len: Option<nat>,
                  acc: seq<seq<byte>>, written: nat, l: seq<byte>, u: Unpacked)
    requires eom <= |buf| && src < eom && pos < eom
    requires len.None? ==> src <= pos
    requires len.Some? ==> 2 <= len.value && src + len.value <= eom
    requires 1 <= |l| <= MAXLABEL && buf[pos] == |l|
    requires pos + 1 + |l| < eom && BytesAt(buf, pos + 1, l)
    requires written + |l| + 1 < MAXCDNAME
    requires Unpack(buf, eom, src, pos + 1 + |l|, checked + |l| + 1, len, acc + [l], written + |l| + 1) == Some(u)
    ensures Unpack(buf, eom, src, pos, checked, len, acc, written) == Some(u)
  {
    assert buf[pos + 1..pos + 1 + |l|] == l;
  }

  /**
   * Unpacking steps over labels one by one, copying each and counting its
   * bytes both for the loop check and against the 255-byte buffer, and
   * then goes on with what follows them, here the state `end`, `checked'`,
   * `full`, `written'`.
   */
  lemma {:induction false} LabelsRun(buf: seq<byte>, eom: nat, src: nat, pos: nat, checked: nat,
                                     len: Option<nat>, acc: seq<seq<byte>>, written: nat,
                                     labels: seq<seq<byte>>, end: nat, checked': nat,
                                     full: seq<seq<byte>>, written': nat, u: Unpacked)
    requires eom <= |buf| && src < eom && end < eom && written' < MAXCDNAME
    requires len.None? ==> src <= pos
    requires len.Some? ==> 2 <= len.value && src + len.value <= eom
    requires LabelsAt(buf, pos, labels)
    requires end == pos + LabelsSize(labels) && checked' == checked + LabelsSize(labels)
    requires written' == written + LabelsSize(labels) && full == acc + labels
    requires Unpack(buf, eom, src, end, checked', len, full, written') == Some(u)
    ensures Unpack(buf, eom, src, pos, checked, len, acc, written) == Some(u)
    decreases |labels|
  {
    if labels == [] {
      assert full == acc;
    } else {
      var l := labels[0];
      var n := |l|;
      var tail := labels[1..];
      LabelsFirst(buf, pos, labels);
      assert full == acc + [l] + tail;
      LabelsRun(buf, eom, src, pos + 1 + n, checked + n + 1, len, acc + [l], written + n + 1, tail,
                end, checked', full, written', u);
      ConsLabel(buf, eom, src, pos, checked, len, acc, written, l, u);
    }
  }

  /** An uncompressed name unpacks to its labels; the bytes consumed run to its terminating zero. */
  lemma UnpackEncoded(buf: seq<byte>, eom: nat, src: nat, labels: seq<seq<byte>>)
    requires eom <= |buf| && src < eom
    requires EncodedAt(buf, src, labels)
    requires src + LabelsSize(labels) < eom && LabelsSize(labels) < MAXCDNAME
    ensures Unpack(buf, eom, src, src, 0, None, [], 0)
         == Some(Unpacked(labels, LabelsSize(labels) + 1))
  {
    var k := LabelsSize(labels);
    assert [] + labels == labels;
    LabelsRun(buf, eom, src, src, 0, None, [], 0, labels, src + k, k, labels, k, Unpacked(labels, k + 1));
  }

  /** The labels before a pointer are gathered, and unpacking then goes on at the pointer's target. */
  lemma PrefixToPointer(buf: seq<byte>, eom: nat, src: nat, prefix: seq<seq<byte>>, target: nat, u: Unpacked)
    requires eom <= |buf| && src < eom && PointerAt(buf, src, prefix, target)
    requires src + LabelsSize(prefix) + 2 <= eom && target < eom
    requires LabelsSize(prefix) + 2 < eom && LabelsSize(prefix) < MAXCDNAME
    requires Unpack(buf, eom, src, target, LabelsSize(prefix) + 2, Some(LabelsSize(prefix) + 2), prefix,
                    LabelsSize(prefix)) == Some(u)
    ensures Unpack(buf, eom, src, src, 0, None, [], 0) == Some(u)
  {
    var k := LabelsSize(prefix);
    PointerStep(buf, eom, src, src + k, k, k + 2, prefix, target, u);
    assert [] + prefix == prefix;
    LabelsRun(buf, eom, src, src, 0, None, [], 0, prefix, src + k, k, prefix, k, u);
  }

  /** After a pointer, the target name's labels are added to those already gathered. */
  lemma SuffixAfterPointer(buf: seq<byte>, eom: nat, src: nat, k: nat, prefix: seq<seq<byte>>,
                           target: nat, suffix: seq<seq<byte>>, labels: seq<seq<byte>>)
    requires eom <= |buf| && src + k + 2 <= eom && EncodedAt(buf, target, suffix)
    requires target + LabelsSize(suffix) < eom && k + 2 + LabelsSize(suffix) < eom
    requires k + LabelsSize(suffix) < MAXCDNAME
    requires labels == prefix + suffix
    ensures Unpack(buf, eom, src, target, k + 2, Some(k + 2), prefix, k) == Some(Unpacked(labels, k + 2))
  {
    var m := LabelsSize(suffix);
    ZeroStep(buf, eom, src, target + m, k + 2 + m, Some(k + 2), labels, k + m);
    LabelsRun(buf, eom, src, target, k + 2, Some(k + 2), prefix, k, suffix,
              target + m, k + 2 + m, labels, k + m, Unpacked(labels, k + 2));
  }

  /** The terminating zero ends unpacking with the labels gathered so far. */
  lemma ZeroStep(buf: seq<byte>, eom: nat, src: nat, pos: nat, checked: nat, len: Option<nat>,
                 acc: seq<seq<byte>>, written: nat)
    requires eom <= |buf| && src < eom && pos < eom && buf[pos] == 0
    requires len.None? ==> src <= pos
    requires len.Some? ==> 2 <= len.value && src + len.value <= eom
    ensures Unpack(buf, eom, src, pos, checked, len, acc, written)
         == Some(Unpacked(acc, if len.Some? then len.value else pos + 1 - src))
  {
  }

  /** A pointer met before any other: the length is fixed just after it and unpacking jumps to its target. */
  lemma PointerStep(buf: seq<byte>, eom: nat, src: nat, p: nat, k: nat, len: nat, acc: seq<seq<byte>>,
                    target: nat, u: Unpacked)
    requires eom <= |buf| && src <= p && p + 1 < eom
    requires buf[p] >= CMPRSFLGS && target == (buf[p] - CMPRSFLGS) * 256 + buf[p + 1]
    requires target < eom && k + 2 < eom && len == p + 2 - src && src + len <= eom
    requires Unpack(buf, eom, src, target, k + 2, Some(len), acc, k) == Some(u)
    ensures Unpack(buf, eom, src, p, k, None, acc, k) == Some(u)
  {
  }

  /**
   * dn_expand on an uncompressed name gives the presentation form of its
   * labels and consumes the name with its terminating zero, unless that
   * text does not fit the caller's buffer.
   */
  lemma ExpandEncoded(buf: seq<byte>, eom: nat, src: nat, labels: seq<seq<byte>>)
    requires eom <= |buf| && src < eom
    requires EncodedAt(buf, src, labels)
    requires src + LabelsSize(labels) < eom && LabelsSize(labels) < MAXCDNAME
    ensures Expand(buf, eom, src) == Presented(labels, LabelsSize(labels) + 1)
  {
    UnpackEncoded(buf, eom, src, labels);
    ExpandUnpacked(buf, eom, src, labels, LabelsSize(labels) + 1);
  }

  /**
   * dn_expand on a compressed name gives the text of its own labels
   * followed by those at the pointer's target, and consumes only the
   * bytes up to and including the pointer.
   */
  lemma ExpandPointer(buf: seq<byte>, eom: nat, src: nat, prefix: seq<seq<byte>>, target: nat,
                      suffix: seq<seq<byte>>, labels: seq<seq<byte>>)
    requires eom <= |buf| && src < eom
    requires PointerAt(buf, src, prefix, target) && EncodedAt(buf, target, suffix)
    requires src + LabelsSize(prefix) + 2 <= eom && target + LabelsSize(suffix) < eom
    requires LabelsSize(prefix) + 2 + LabelsSize(suffix) < eom
    requires LabelsSize(prefix) + LabelsSize(suffix) < MAXCDNAME
    requires labels == prefix + suffix
    ensures Expand(buf, eom, src) == Presented(labels, LabelsSize(prefix) + 2)
  {
    SuffixAfterPointer(buf, eom, src, LabelsSize(prefix), prefix, target, suffix, labels);
    PrefixToPointer(buf, eom, src, prefix, target, Unpacked(labels, LabelsSize(prefix) + 2));
    ExpandUnpacked(buf, eom, src, labels, LabelsSize(prefix) + 2);
  }

  /** dn_expand keeps what unpacking gave when its text fits the caller's buffer. */
  lemma ExpandUnpacked(buf: seq<byte>, eom: nat, src: nat, labels: seq<seq<byte>>, consumed: nat)
    requires eom <= |buf| && src < eom
    requires Unpack(buf, eom, src, src, 0, None, [], 0) == Some(Unpacked(labels, consumed))
    ensures Expand(buf, eom, src) == Presented(labels, consumed)
  {
  }

  /** What dn_expand returns for labels unpacked from `consumed` bytes. */
  function Presented(labels: seq<seq<byte>>, consumed: nat): (r: Option<Expanded>)
    ensures r.Some? <==> |NameText(labels)| < TEXTSZ
    ensures r.Some? ==> r.value == Expanded(NameText(labels), consumed)
  {
    var t := NameText(labels);
    if |t| < TEXTSZ then Some(Expanded(t, consumed)) else None
  }

  /**
   * dn_skipname measures a name exactly as dn_expand consumes it: up to
   * and including its terminating zero or its first pointer.
   */
  lemma {:induction false} SkipAgreesFrom(buf: seq<byte>, eom: nat, src: nat, pos: nat, checked: nat,
                                          labels: seq<seq<byte>>, written: nat)
    requires eom <= |buf| && src <= pos < eom
    requires Unpack(buf, eom, src, pos, checked, None, labels, written).Some?
    ensures SkipFrom(buf, eom, src, pos) == Unpack(buf, eom, src, pos, checked, None, labels, written).value.consumed
    decreases eom - pos
  {
    var n := buf[pos];
    if 0 < n <= MAXLABEL {
      SkipAgreesFrom(buf, eom, src, pos + 1 + n, checked + n + 1, labels + [buf[pos + 1..pos + 1 + n]], written + n + 1);
    }
  }

  lemma SkipAgrees(buf: seq<byte>, eom: nat, src: nat)
    requires eom <= |buf|
    requires Expand(buf, eom, src).Some?
    ensures Skip(buf, eom, src) == Expand(buf, eom, src).value.consumed
  {
    SkipAgreesFrom(buf, eom, src, src, 0, [], 0);
  }
}
