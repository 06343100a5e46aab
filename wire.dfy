/**
 * The byte-level view of a DNS message used by the resolver code in
 * tnm/generic/tnmDns.c: the constants of RFC 1035 and of the resolver
 * headers it relies on, big-endian field reads and the header fields of
 * RFC 1035 section 4.1.1.
 */
module Wire {

  type byte = b: int | 0 <= b < 256

  datatype Option<T> = None | Some(value: T)

  // Record types, RFC 1035 section 3.2.2.
  const T_A: int := 1
  const T_NS: int := 2
  const T_SOA: int := 6
  const T_PTR: int := 12
  const T_HINFO: int := 13
  const T_MX: int := 15

  /** Size of the fixed message header (RFC 1035 section 4.1.1). */
  const HFIXEDSZ: nat := 12
  /** Size of the type and class that follow a question name. */
  const QFIXEDSZ: nat := 4
  /** Size of type, class, ttl and rdlength that follow an owner name. */
  const RRFIXEDSZ: nat := 10
  /** Largest UDP payload the resolver expects. */
  const PACKETSZ: nat := 512
  /** sizeof(querybuf): a header followed by PACKETSZ bytes. */
  const ANSWERSZ: nat := HFIXEDSZ + PACKETSZ
  /** Name servers the resolver state holds (resolv.h). */
  const MAXNS: nat := 3
  /** Search suffixes the resolver state holds before its terminating slot (resolv.h). */
  const MAXDNSRCH: nat := 6

  /** A big-endian 16-bit field (GETSHORT). */
  function U16(buf: seq<byte>, i: int): (v: nat)
    requires 0 <= i && i + 2 <= |buf|
    ensures v < 0x1_0000
    ensures v / 256 == buf[i] && v % 256 == buf[i + 1]
  {
    (buf[i] as int) * 256 + (buf[i + 1] as int)
  }

  /**
   * The value a 16-bit field takes once stored in a C `short`: values of
   * 0x8000 and above become negative (two's complement).
   */
  function Short(v: nat): (s: int)
    requires v < 0x1_0000
    ensures -0x8000 <= s < 0x8000
    ensures (s - v) % 0x1_0000 == 0
    ensures v < 0x8000 <==> s >= 0
  {
    if v < 0x8000 then v else v - 0x1_0000
  }

  function Zeros(k: nat): (z: seq<byte>)
    ensures |z| == k
    ensures forall i :: 0 <= i < k ==> z[i] == 0
  {
    seq(k, _ => 0)
  }

  /**
   * The answer buffer as DnsDoQuery reads it: the querybuf was zeroed
   * before res_send copied the reply of `alen` bytes into it, and the
   * byte at `alen` is the sentinel 0 that the code stores before moving
   * `eom` past it.
   */
  function AnswerBuffer(reply: seq<byte>): (buf: seq<byte>)
    requires |reply| < ANSWERSZ
    ensures |buf| == ANSWERSZ
    ensures buf[..|reply|] == reply
    ensures forall i :: |reply| <= i < ANSWERSZ ==> buf[i] == 0
  {
    reply + Zeros(ANSWERSZ - |reply|)
  }

  // Header fields, RFC 1035 section 4.1.1.

  /** RCODE: the low four bits of the fourth header byte. */
  function Rcode(buf: seq<byte>): (r: nat)
    requires |buf| >= HFIXEDSZ
    ensures r < 16
  {
    buf[3] % 16
  }

  function QdCount(buf: seq<byte>): nat
    requires |buf| >= HFIXEDSZ
  {
    U16(buf, 4)
  }

  function AnCount(buf: seq<byte>): nat
    requires |buf| >= HFIXEDSZ
  {
    U16(buf, 6)
  }

  function NsCount(buf: seq<byte>): nat
    requires |buf| >= HFIXEDSZ
  {
    U16(buf, 8)
  }

  function ArCount(buf: seq<byte>): nat
    requires |buf| >= HFIXEDSZ
  {
    U16(buf, 10)
  }
}
