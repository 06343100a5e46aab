/**
 * The string handling of win/tnmWinInit.c: FixPath, the choice of the
 * tnm(library) and tkined(library) directories and of the tclsh and wish
 * programs in TnmInitPath, and in TnmInitDns the name servers read from
 * the registry and the default domain with its trailing dots and white
 * space removed.
 *
 * The registry (GetRegValue), getenv, Tcl_Eval, access and
 * TnmSetIPAddress are parameters: a Host, and a function giving the
 * address TnmSetIPAddress leaves in a slot from the text and what the
 * slot held before.
 */
module WinInit {

  import opened Wire
  import Settings

  /** The size of a domain name buffer (arpa/nameser.h). */
  const MAXDNAME: nat := 1025

  /** What TnmInitPath and TnmInitDns learn from the system. */
  datatype Host = Host(
    reg: (string, string) -> Option<string>,  // GetRegValue(key, attribute)
    env: string -> Option<string>,            // getenv
    eval: string -> Option<string>,           // the result of a Tcl_Eval that returned TCL_OK
    readable: string -> bool,                 // access(path, R_OK) == 0
    runnable: string -> bool)                 // access(path, R_OK | X_OK) == 0

  /** `s && *s != '\0'`: a value that is there and not empty. */
  predicate Set(v: Option<string>) {
    v.Some? && v.value != ""
  }

  /** The first value that is set. */
  function FirstSet(c: seq<Option<string>>): (r: Option<string>)
    ensures r.None? <==> forall i :: 0 <= i < |c| ==> !Set(c[i])
    ensures r.Some? ==> Set(r) && exists i :: 0 <= i < |c| && c[i] == r && forall j :: 0 <= j < i ==> !Set(c[j])
    decreases |c|
  {
    if |c| == 0 then None
    else
      var f := FirstSet(c[..|c| - 1]);
      if f.Some? then
        assert forall i :: 0 <= i < |c| - 1 ==> c[..|c| - 1][i] == c[i];
        f
      else if Set(c[|c| - 1]) then
        assert forall i :: 0 <= i < |c| - 1 ==> c[..|c| - 1][i] == c[i];
        c[|c| - 1]
      else
        assert forall i :: 0 <= i < |c| - 1 ==> c[..|c| - 1][i] == c[i];
        None
  }

  /** Once a value is set, the values after it do not matter. */
  lemma {:induction false} FirstSetPrefix(c: seq<Option<string>>, k: nat)
    requires k <= |c| && FirstSet(c[..k]).Some?
    ensures FirstSet(c) == FirstSet(c[..k])
    decreases |c| - k
  {
    if k < |c| {
      assert c[..k + 1][..k] == c[..k];
      FirstSetPrefix(c, k + 1);
    } else {
      assert c[..k] == c;
    }
  }

  /** One more value counts only when none before it is set. */
  lemma FirstSetSnoc(c: seq<Option<string>>, x: Option<string>)
    ensures FirstSet(c + [x]) == if FirstSet(c).Some? then FirstSet(c) else if Set(x) then x else None
  {
    assert (c + [x])[..|c|] == c;
  }

  /** The first value set among four, written out. */
  lemma FirstOfFour(a: Option<string>, b: Option<string>, c: Option<string>, d: Option<string>)
    ensures FirstSet([a, b, c, d]) ==
      if Set(a) then a else if Set(b) then b else if Set(c) then c else if Set(d) then d else None
  {
    FirstSetSnoc([], a);
    assert [] + [a] == [a];
    FirstSetSnoc([a], b);
    assert [a] + [b] == [a, b];
    FirstSetSnoc([a, b], c);
    assert [a, b] + [c] == [a, b, c];
    FirstSetSnoc([a, b, c], d);
    assert [a, b, c] + [d] == [a, b, c, d];
  }

  /** The path FixPath leaves: every backslash a slash, every other character kept. */
  function Slashed(s: string): (t: string)
    ensures |t| == |s| && forall i :: 0 <= i < |s| ==> t[i] == if s[i] == '\\' then '/' else s[i]
  {
    seq(|s|, i requires 0 <= i < |s| => if s[i] == '\\' then '/' else s[i])
  }

  /** FixPath leaves no backslash and changes nothing on a second run. */
  lemma SlashedFixed(s: string)
    ensures '\\' !in Slashed(s)
    ensures Slashed(Slashed(s)) == Slashed(s)
  {
    var t := Slashed(s);
    forall i | 0 <= i < |t| ensures t[i] != '\\' {
    }
  }

  /**
   * FixPath on the C string of length `len` in `path`, or on a null
   * pointer: each backslash becomes a slash, in place.
   */
  method FixPath(path: array?<char>, ghost len: nat)
    requires path != null ==> len < path.Length && path[len] == '\0'
    requires path != null ==> forall k :: 0 <= k < len ==> path[k] != '\0'
    modifies path
    ensures path != null ==> path[..len] == Slashed(old(path[..len])) && path[len..] == old(path[len..])
  {
    if path != null {
      var i := 0;
      while path[i] != '\0'
        invariant 0 <= i <= len
        invariant forall k :: 0 <= k < i ==> path[k] == if old(path[k]) == '\\' then '/' else old(path[k])
        invariant forall k :: i <= k < path.Length ==> path[k] == old(path[k])
        decreases len - i
      {
        if path[i] == '\\' {
          path[i] := '/';
        }
        i := i + 1;
      }
    }
  }

  /**
   * A library directory TnmInitPath looks for: the registry key and the
   * environment variable that may name it, the Tcl script that names the
   * directory next to the executable, the version appended to that
   * directory, and the directory compiled in.
   */
  datatype Library = Library(key: string, variable: string, script: string, version: string, builtin: string)

  /** tnm(library), for TNM_VERSION `version` and TNMLIB `builtin`. */
  function TnmLibrary(version: string, builtin: string): Library {
    Library("Software\\Scotty\\Tnm\\" + version, "TNM_LIBRARY",
            "file normalize [file join [file dir [info nameofexecutable]] .. lib tnm]", version, builtin)
  }

  /** tkined(library), for TKI_VERSION `version` and TKINEDLIB `builtin`. */
  function TkinedLibrary(version: string, builtin: string): Library {
    Library("Software\\Scotty\\Tkined\\" + version, "TKINED_LIBRARY",
            "file normalize [file join [file dir [info nameofexecutable]] .. lib tkined]", version, builtin)
  }

  /**
   * What the executable-relative step leaves in `path`: the versioned
   * directory when it is readable, and else the directory the script
   * named. None when the script failed.
   */
  function ExeCandidate(h: Host, lib: Library): Option<string> {
    match h.eval(lib.script)
    case None => None
    case Some(d) =>
      var versioned := Slashed(d + lib.version);
      if h.readable(versioned) then Some(versioned) else Some(d)
  }

  /** The candidates in the order TnmInitPath tries them. */
  function LibraryCandidates(h: Host, lib: Library): seq<Option<string>> {
    [h.reg(lib.key, "Library"), h.env(lib.variable), ExeCandidate(h, lib), Some(lib.builtin)]
  }

  /**
   * The fallback chain of TnmInitPath for one library: the registry
   * value, else the environment variable, else the directory next to the
   * executable, else the one compiled in; then FixPath.
   */
  method InitLibrary(h: Host, lib: Library) returns (path: string)
    ensures var c := FirstSet(LibraryCandidates(h, lib));
      path == Slashed(if c.Some? then c.value else lib.builtin)
  {
    var p := h.reg(lib.key, "Library");
    if !Set(p) {
      p := h.env(lib.variable);
    }
    if !Set(p) {
      var r := h.eval(lib.script);
      if r.Some? {
        p := r;
        var ds := Slashed(r.value + lib.version);
        if h.readable(ds) {
          p := Some(ds);
        }
      }
    }
    if !Set(p) {
      p := Some(lib.builtin);
    }
    FirstOfFour(h.reg(lib.key, "Library"), h.env(lib.variable), ExeCandidate(h, lib), Some(lib.builtin));
    path := Slashed(p.value);
  }

  /**
   * The chain a library path is chosen by: the registry value if it is
   * set, else the environment variable if set, else the directory next to
   * the executable if set, else the compiled-in directory if it is not
   * empty.
   */
  lemma LibraryChain(h: Host, lib: Library)
    ensures FirstSet(LibraryCandidates(h, lib)) ==
      if Set(h.reg(lib.key, "Library")) then h.reg(lib.key, "Library")
      else if Set(h.env(lib.variable)) then h.env(lib.variable)
      else if Set(ExeCandidate(h, lib)) then ExeCandidate(h, lib)
      else if lib.builtin != "" then Some(lib.builtin)
      else None
  {
    FirstOfFour(h.reg(lib.key, "Library"), h.env(lib.variable), ExeCandidate(h, lib), Some(lib.builtin));
  }

  /**
   * When neither the registry nor the environment names the directory
   * and the script succeeds, the versioned directory is taken if it is
   * readable and the unversioned one otherwise.
   */
  lemma LibraryFromExecutable(h: Host, lib: Library, d: string)
    requires !Set(h.reg(lib.key, "Library")) && !Set(h.env(lib.variable))
    requires h.eval(lib.script) == Some(d) && d != ""
    ensures h.readable(Slashed(d + lib.version)) ==>
      FirstSet(LibraryCandidates(h, lib)) == Some(Slashed(d + lib.version))
    ensures !h.readable(Slashed(d + lib.version)) ==> FirstSet(LibraryCandidates(h, lib)) == Some(d)
  {
    LibraryChain(h, lib);
  }

  /** The registry keys TnmInitPath asks for the Tcl installation, in order. */
  const TCL_KEYS: seq<string> := ["Software\\Scriptics\\Tcl", "Software\\Sun\\Tcl"]

  /** The default install path of the last resort. */
  const DEFAULT_ROOT: string := "C:\\Tcl"

  /** The script that names the directory above the executable's. */
  const ROOT_SCRIPT: string := "file normalize [file join [file dir [info nameofexecutable]] .. ]"

  /**
   * The root one registry key gives: its Root value, or its default
   * value when Root is missing; an empty Root counts as none, and the
   * search goes on.
   */
  function KeyRoot(h: Host, key: string): Option<string> {
    var r := h.reg(key, "Root");
    if r.None? then h.reg(key, "") else if r.value == "" then None else r
  }

  /** The registry search over the keys from `i` on: the first that gives a root at all. */
  function RegistryRoot(h: Host, version: string, i: nat): Option<string>
    requires i <= |TCL_KEYS|
    decreases |TCL_KEYS| - i
  {
    if i == |TCL_KEYS| then None
    else
      var r := KeyRoot(h, TCL_KEYS[i] + "\\" + version);
      if r.Some? then r else RegistryRoot(h, version, i + 1)
  }

  /**
   * The Tcl root directory: the registry's, else the directory above the
   * executable's, else C:\Tcl.
   */
  method TclRoot(h: Host, version: string) returns (root: string)
    ensures root != ""
    ensures var r := RegistryRoot(h, version, 0);
      root == if Set(r) then r.value else if Set(h.eval(ROOT_SCRIPT)) then h.eval(ROOT_SCRIPT).value else DEFAULT_ROOT
  {
    var found: Option<string> := None;
    var i := 0;
    while i < |TCL_KEYS| && found.None?
      invariant 0 <= i <= |TCL_KEYS|
      invariant found.None? ==> RegistryRoot(h, version, 0) == RegistryRoot(h, version, i)
      invariant found.Some? ==> RegistryRoot(h, version, 0) == found
      decreases |TCL_KEYS| - i
    {
      var key := TCL_KEYS[i] + "\\" + version;
      found := h.reg(key, "Root");
      if found.None? {
        found := h.reg(key, "");
      } else if found.value == "" {
        found := None;
      }
      assert found == KeyRoot(h, key);
      i := i + 1;
    }
    if !Set(found) {
      found := h.eval(ROOT_SCRIPT);
      if !Set(found) {
        found := Some(DEFAULT_ROOT);
      }
    }
    root := found.value;
  }

  /**
   * An empty default value under the first key, with no Root beside it,
   * ends the registry search: the second key is never read, whatever
   * Root it holds, and TclRoot goes on to the executable's directory.
   */
  lemma EmptyDefaultEnds(h: Host, version: string)
    requires h.reg(TCL_KEYS[0] + "\\" + version, "Root").None?
    requires h.reg(TCL_KEYS[0] + "\\" + version, "") == Some("")
    ensures RegistryRoot(h, version, 0) == Some("") && !Set(RegistryRoot(h, version, 0))
  {
  }

  /** `isdigit` in the C locale. */
  predicate IsDigit(c: char) {
    '0' <= c <= '9'
  }

  /** The digits of a version string, in order: "8.4" gives "84". */
  function Digits(s: string): (d: string)
    ensures |d| <= |s| && forall i :: 0 <= i < |d| ==> IsDigit(d[i])
    decreases |s|
  {
    if |s| == 0 then ""
    else Digits(s[..|s| - 1]) + (if IsDigit(s[|s| - 1]) then [s[|s| - 1]] else "")
  }

  /** The digits of two strings put together are the digits of each. */
  lemma {:induction false} DigitsAppend(a: string, b: string)
    ensures Digits(a + b) == Digits(a) + Digits(b)
    decreases |b|
  {
    if |b| == 0 {
      assert a + b == a;
    } else {
      assert (a + b)[..|a + b| - 1] == a + b[..|b| - 1];
      DigitsAppend(a, b[..|b| - 1]);
    }
  }

  /** A string of digits is kept whole, in order. */
  lemma {:induction false} DigitsAll(s: string)
    requires forall i :: 0 <= i < |s| ==> IsDigit(s[i])
    ensures Digits(s) == s
    decreases |s|
  {
    if |s| > 0 {
      DigitsAll(s[..|s| - 1]);
      assert s[..|s| - 1] + [s[|s| - 1]] == s;
    }
  }

  /** A string without digits adds nothing. */
  lemma {:induction false} DigitsNone(s: string)
    requires forall i :: 0 <= i < |s| ==> !IsDigit(s[i])
    ensures Digits(s) == ""
    decreases |s|
  {
    if |s| > 0 {
      DigitsNone(s[..|s| - 1]);
    }
  }

  /** The program path TnmInitPath builds for tclsh or wish. */
  function ProgramPath(root: string, program: string, version: string): string {
    Slashed(root + "\\bin\\" + program + Digits(version) + ".exe")
  }

  /**
   * The tclsh (program "tclsh", the Tcl version) or wish (program
   * "wish", the Tk version) path: the root, "\bin\", the program, the
   * digits of the version and ".exe", through FixPath; the variable is
   * set only when the file can be run.
   */
  method InitProgram(h: Host, root: string, program: string, version: string) returns (path: Option<string>)
    ensures path.Some? <==> h.runnable(ProgramPath(root, program, version))
    ensures path.Some? ==> path.value == ProgramPath(root, program, version)
  {
    var ds := root + "\\bin\\" + program;
    var k := 0;
    while k < |version|
      invariant 0 <= k <= |version|
      invariant ds == root + "\\bin\\" + program + Digits(version[..k])
    {
      assert version[..k + 1][..k] == version[..k];
      if IsDigit(version[k]) {
        ds := ds + [version[k]];
      }
      k := k + 1;
    }
    assert version[..k] == version;
    ds := Slashed(ds + ".exe");
    if h.runnable(ds) {
      path := Some(ds);
    } else {
      path := None;
    }
  }

  /** The program path ends in ".exe" and, the version's separators dropped, names the digits only. */
  lemma ProgramPathShape(root: string, program: string, version: string)
    ensures var p := ProgramPath(root, program, version);
      '\\' !in p && |p| == |root| + 5 + |program| + |Digits(version)| + 4
      && p[|p| - 4..] == ".exe"
  {
    var s := root + "\\bin\\" + program + Digits(version) + ".exe";
    SlashedFixed(s);
    assert s[|s| - 4..] == ".exe";
  }

  /** The separators strtok splits the name server value on. */
  predicate Delim(c: char) {
    c == ',' || c == ' '
  }

  /** The length of the run of non-separators `s` starts with. */
  function RunEnd(s: string): (e: nat)
    ensures e <= |s| && (e < |s| ==> Delim(s[e])) && forall i :: 0 <= i < e ==> !Delim(s[i])
    decreases |s|
  {
    if |s| == 0 || Delim(s[0]) then 0 else 1 + RunEnd(s[1..])
  }

  /** The tokens successive strtok(.., ", ") calls return. */
  function Tokens(s: string): seq<string>
    decreases |s|
  {
    if |s| == 0 then []
    else if Delim(s[0]) then Tokens(s[1..])
    else
      var e := RunEnd(s);
      [s[..e]] + Tokens(s[e..])
  }

  /** A token strtok can return: non-empty, without a separator. */
  predicate Token(w: string) {
    w != "" && forall i :: 0 <= i < |w| ==> !Delim(w[i])
  }

  /** Every token is non-empty and holds no separator. */
  lemma {:induction false} TokensShape(s: string)
    ensures forall k :: 0 <= k < |Tokens(s)| ==> Token(Tokens(s)[k])
    decreases |s|
  {
    if |s| > 0 {
      if Delim(s[0]) {
        TokensShape(s[1..]);
      } else {
        var e := RunEnd(s);
        assert e > 0 && s[..e] == s[..e];
        assert Token(s[..e]);
        TokensShape(s[e..]);
      }
    }
  }

  /** The name server values: NameServer and DhcpNameServer under each Parameters key. */
  const DNS_KEYS: seq<string> := [
    "System\\CurrentControlSet\\Services\\TcpIP\\Parameters",
    "System\\CurrentControlSet\\Services\\Tcpip\\Parameters",
    "System\\CurrentControlSet\\Services\\VxD\\MSTCP"]
  const DNS_ENTRIES: seq<string> := ["NameServer", "DhcpNameServer"]

  /** The server used when the registry names none. */
  const DEFAULT_DNS: string := "127.0.0.1"

  /** The registry values TnmInitDns reads for the name servers: each key's NameServer, then its DhcpNameServer. */
  function ServerValues(h: Host): (c: seq<Option<string>>)
    ensures |c| == 2 * |DNS_KEYS|
  {
    seq(2 * |DNS_KEYS|, m requires 0 <= m < 2 * |DNS_KEYS| => h.reg(DNS_KEYS[m / 2], DNS_ENTRIES[m % 2]))
  }

  /** After `m` values none of which is set, the next one decides whether the search ends. */
  lemma FirstSetStep(c: seq<Option<string>>, m: nat)
    requires m < |c| && FirstSet(c[..m]).None?
    ensures Set(c[m]) ==> FirstSet(c) == c[m]
    ensures !Set(c[m]) ==> FirstSet(c[..m + 1]).None?
  {
    assert c[..m + 1] == c[..m] + [c[m]];
    FirstSetSnoc(c[..m], c[m]);
    if Set(c[m]) {
      FirstSetPrefix(c, m + 1);
    }
  }

  /** The search for a name server value at key `i`, entry `j`, when no value before is set. */
  lemma ServerStep(h: Host, i: nat, j: nat)
    requires i < |DNS_KEYS| && j < |DNS_ENTRIES|
    requires FirstSet(ServerValues(h)[..2 * i + j]).None?
    ensures var v := h.reg(DNS_KEYS[i], DNS_ENTRIES[j]);
      (Set(v) ==> FirstSet(ServerValues(h)) == v) && (!Set(v) ==> FirstSet(ServerValues(h)[..2 * i + j + 1]).None?)
  {
    assert (2 * i + j) / 2 == i && (2 * i + j) % 2 == j;
    FirstSetStep(ServerValues(h), 2 * i + j);
  }

  /** The nested key and entry loops of TnmInitDns: the first name server value that is set. */
  method NameServerValue(h: Host) returns (value: Option<string>)
    ensures value == FirstSet(ServerValues(h))
  {
    ghost var c := ServerValues(h);
    value := None;
    var i := 0;
    while i < |DNS_KEYS| && value.None?
      invariant 0 <= i <= |DNS_KEYS|
      invariant value.None? ==> FirstSet(c[..2 * i]).None?
      invariant value.Some? ==> value == FirstSet(c)
      decreases |DNS_KEYS| - i
    {
      var j := 0;
      while j < |DNS_ENTRIES| && value.None?
        invariant 0 <= j <= |DNS_ENTRIES|
        invariant value.None? ==> FirstSet(c[..2 * i + j]).None?
        invariant value.Some? ==> value == FirstSet(c)
        decreases |DNS_ENTRIES| - j
      {
        value := h.reg(DNS_KEYS[i], DNS_ENTRIES[j]);
        if value.Some? && value.value == "" {
          value := None;
        }
        ServerStep(h, i, j);
        j := j + 1;
      }
      i := i + 1;
    }
    if value.None? {
      assert c[..2 * i] == c;
    }
  }

  /** The Domain values TnmInitDns reads, one under each key. */
  function DomainValues(h: Host): (c: seq<Option<string>>)
    ensures |c| == |DNS_KEYS|
  {
    seq(|DNS_KEYS|, i requires 0 <= i < |DNS_KEYS| => h.reg(DNS_KEYS[i], "Domain"))
  }

  /** The loop over the keys for the Domain value: the first one that is set. */
  method DomainValue(h: Host) returns (value: Option<string>)
    ensures value == FirstSet(DomainValues(h))
  {
    ghost var c := DomainValues(h);
    value := None;
    var i := 0;
    while i < |DNS_KEYS| && value.None?
      invariant 0 <= i <= |DNS_KEYS|
      invariant value.None? ==> FirstSet(c[..i]).None?
      invariant value.Some? ==> value == FirstSet(c)
      decreases |DNS_KEYS| - i
    {
      value := h.reg(DNS_KEYS[i], "Domain");
      if value.Some? && value.value == "" {
        value := None;
      }
      FirstSetStep(c, i);
      i := i + 1;
    }
    if value.None? {
      assert c[..i] == c;
    }
  }

  /**
   * `_res.defdname` after TnmInitDns: the registry's domain when the
   * resolver has none and the registry's is shorter than MAXDNAME.
   */
  method InitDomain(h: Host, defdname: string) returns (domain: string)
    ensures var r := FirstSet(DomainValues(h));
      domain == if defdname == "" && r.Some? && |r.value| < MAXDNAME then r.value else defdname
  {
    var name := DomainValue(h);
    domain := defdname;
    if defdname == "" && name.Some? && |name.value| < MAXDNAME {
      domain := name.value;
    }
  }

  /** The index of the first character from `i` on that is not a separator. */
  function SkipDelims(s: string, i: nat): (j: nat)
    requires i <= |s|
    ensures i <= j <= |s| && (j < |s| ==> !Delim(s[j])) && forall k :: i <= k < j ==> Delim(s[k])
    decreases |s| - i
  {
    if i == |s| || !Delim(s[i]) then i else SkipDelims(s, i + 1)
  }

  /** Leading separators add no token. */
  lemma {:induction false} SkipTokens(s: string, i: nat)
    requires i <= |s|
    ensures Tokens(s[i..]) == Tokens(s[SkipDelims(s, i)..])
    decreases |s| - i
  {
    if i < |s| && Delim(s[i]) {
      assert s[i..][1..] == s[i + 1..];
      SkipTokens(s, i + 1);
    }
  }

  /** At a character that is not a separator, the next token is the run that starts there. */
  lemma TokenAt(s: string, i: nat)
    requires i < |s| && !Delim(s[i])
    ensures Tokens(s[i..]) == [s[i..i + RunEnd(s[i..])]] + Tokens(s[i + RunEnd(s[i..])..])
  {
    var e := RunEnd(s[i..]);
    assert s[i..][..e] == s[i..i + e];
    assert s[i..][e..] == s[i + e..];
  }

  /**
   * One strtok(.., ", ") call resuming at `pos`: the separators are
   * skipped and the next run of other characters is the token; the
   * second component is where strtok resumes, the place it writes '\0'
   * when a separator is there.
   */
  function Strtok(s: string, pos: nat): (r: (Option<string>, nat))
    requires pos <= |s|
    ensures pos <= r.1 <= |s|
    ensures Tokens(s[pos..]) == (if r.0.Some? then [r.0.value] else []) + Tokens(s[r.1..])
    ensures r.0.None? ==> r.1 == |s|
    ensures r.0.Some? ==> r.1 > pos
  {
    var i := SkipDelims(s, pos);
    SkipTokens(s, pos);
    if i == |s| then
      assert s[i..] == [];
      (None, i)
    else
      TokenAt(s, i);
      (Some(s[i..i + RunEnd(s[i..])]), i + RunEnd(s[i..]))
  }

  /**
   * The value tnm(dns) is set to: strtok ended the string after its first
   * token, so it runs to the end of that token, or is the whole value
   * when there is no token.
   */
  function ShownValue(value: string): string {
    var r := Strtok(value, 0);
    if r.0.None? then value else value[..r.1]
  }

  /**
   * The strtok loop over a name server value: each of the first MAXNS
   * tokens goes, through TnmSetIPAddress, into the next slot. `shown` is
   * the value as the first strtok call left it.
   */
  method TakeServers(value: string, resolve: (string, nat) -> nat, nsaddr: array<nat>) returns (n: nat, shown: string)
    requires nsaddr.Length == MAXNS
    modifies nsaddr
    ensures var t := Tokens(value);
      n == (if |t| < MAXNS then |t| else MAXNS)
      && (forall k :: 0 <= k < n ==> nsaddr[k] == resolve(t[k], old(nsaddr[k])))
      && (forall k :: n <= k < MAXNS ==> nsaddr[k] == old(nsaddr[k]))
      && shown == ShownValue(value)
  {
    ghost var t := Tokens(value);
    assert value[0..] == value && t[0..] == t;
    StrtokNext(value, 0, t, 0);
    var r := Strtok(value, 0);
    var tok, pos := r.0, r.1;
    shown := if tok.Some? then value[..pos] else value;
    n := 0;
    while tok.Some? && n < MAXNS
      invariant 0 <= pos <= |value| && n <= |t| && n <= MAXNS
      invariant tok.None? ==> n == |t|
      invariant tok.Some? ==> n < |t| && t[n] == tok.value && Tokens(value[pos..]) == t[n + 1..]
      invariant forall k :: 0 <= k < n ==> nsaddr[k] == resolve(t[k], old(nsaddr[k]))
      invariant forall k :: n <= k < MAXNS ==> nsaddr[k] == old(nsaddr[k])
      decreases |value| - pos, if tok.Some? then 1 else 0
    {
      assert nsaddr[n] == old(nsaddr[n]) && tok.value == t[n];
      nsaddr[n] := resolve(tok.value, nsaddr[n]);
      assert forall k :: 0 <= k <= n ==> nsaddr[k] == resolve(t[k], old(nsaddr[k]));
      n := n + 1;
      StrtokNext(value, pos, t, n);
      r := Strtok(value, pos);
      tok, pos := r.0, r.1;
    }
  }

  /** When the tokens from `pos` on are `t[m..]`, the next strtok call returns `t[m]`, or nothing when `m` is past the end. */
  lemma StrtokNext(value: string, pos: nat, t: seq<string>, m: nat)
    requires pos <= |value| && m <= |t| && Tokens(value[pos..]) == t[m..]
    ensures var r := Strtok(value, pos);
      (r.0.None? ==> m == |t| && r.1 == |value|)
      && (r.0.Some? ==> m < |t| && t[m] == r.0.value && Tokens(value[r.1..]) == t[m + 1..])
  {
    var r := Strtok(value, pos);
    if r.0.None? {
      assert value[r.1..] == [];
    } else {
      assert t[m..][1..] == t[m + 1..];
    }
  }

  /** The run at `i` ends at `e` when the characters from `i` to `e` are not separators and `e` is one or the end. */
  lemma {:induction false} RunEndAt(s: string, i: nat, e: nat)
    requires i <= e <= |s| && (e < |s| ==> Delim(s[e])) && forall k :: i <= k < e ==> !Delim(s[k])
    ensures RunEnd(s[i..]) == e - i
    decreases e - i
  {
    if i < e {
      assert s[i..][1..] == s[i + 1..];
      RunEndAt(s, i + 1, e);
    }
  }

  /** A token followed by ", " and more text comes out first, and whole. */
  lemma TokensCons(tok: string, rest: string)
    requires Token(tok)
    ensures Tokens(tok + ", " + rest) == [tok] + Tokens(rest)
  {
    var s := tok + ", " + rest;
    RunEndAt(s, 0, |tok|);
    TokenAt(s, 0);
    assert s[0..] == s;
    assert s[0..|tok|] == tok;
    assert s[|tok|..][1..] == s[|tok| + 1..];
    assert s[|tok| + 1..][1..] == rest;
  }

  /** The value a list of servers gives when written with ", " between them. */
  function JoinServers(l: seq<string>): string
    decreases |l|
  {
    if |l| == 0 then "" else if |l| == 1 then l[0] else l[0] + ", " + JoinServers(l[1..])
  }

  /** Splitting a value written from a list of servers gives back the list. */
  lemma {:induction false} TokensJoin(l: seq<string>)
    requires forall k :: 0 <= k < |l| ==> Token(l[k])
    ensures Tokens(JoinServers(l)) == l
    decreases |l|
  {
    if |l| == 1 {
      RunEndAt(l[0], 0, |l[0]|);
      TokenAt(l[0], 0);
      assert l[0][0..] == l[0] && l[0][0..|l[0]|] == l[0] && l[0][|l[0]|..] == "";
    } else if |l| > 1 {
      TokensJoin(l[1..]);
      TokensCons(l[0], JoinServers(l[1..]));
    }
  }

  /**
   * The name server part of TnmInitDns on `_res`: the servers of the
   * first value that is set, or the single default server; `dns` is what
   * tnm(dns) is set to. The slots past the new count keep what they held.
   */
  method InitServers(h: Host, res: Settings.ResolverState, resolve: (string, nat) -> nat) returns (dns: string)
    requires res.Valid()
    modifies res, res.nsaddr
    ensures res.Valid() && res.retrans == old(res.retrans) && res.retry == old(res.retry)
    ensures match FirstSet(ServerValues(h))
      case None => res.nscount == 1 && res.nsaddr[0] == resolve(DEFAULT_DNS, old(res.nsaddr[0])) && dns == DEFAULT_DNS
      case Some(v) =>
        var t := Tokens(v);
        res.nscount == (if |t| < MAXNS then |t| else MAXNS)
        && (forall k :: 0 <= k < res.nscount ==> res.nsaddr[k] == resolve(t[k], old(res.nsaddr[k])))
        && dns == ShownValue(v)
    ensures forall k :: res.nscount <= k < MAXNS ==> res.nsaddr[k] == old(res.nsaddr[k])
  {
    var value := NameServerValue(h);
    if value.Some? {
      var n, shown := TakeServers(value.value, resolve, res.nsaddr);
      res.nscount := n;
      dns := shown;
    } else {
      res.nsaddr[0] := resolve(DEFAULT_DNS, res.nsaddr[0]);
      res.nscount := 1;
      dns := DEFAULT_DNS;
    }
  }

  /** `isspace` in the C locale: space, tab, newline, vertical tab, form feed, carriage return. */
  predicate IsSpace(c: char) {
    c == ' ' || 9 <= c as int <= 13
  }

  /** A character the domain strip removes from the end. */
  predicate Trailing(c: char) {
    c == '.' || IsSpace(c)
  }

  /** The domain without its trailing dots and white space; the first character always stays. */
  function Trimmed(s: string): (t: string)
    requires |s| >= 1
    ensures 1 <= |t| <= |s|
    decreases |s|
  {
    if |s| > 1 && Trailing(s[|s| - 1]) then Trimmed(s[..|s| - 1]) else s
  }

  /**
   * The strip keeps a prefix of at least one character, removes only
   * dots and white space, and stops at the first character or one that
   * is neither.
   */
  lemma {:induction false} TrimmedShape(s: string)
    requires |s| >= 1
    ensures var t := Trimmed(s);
      t == s[..|t|] && (|t| > 1 ==> !Trailing(t[|t| - 1])) && forall k :: |t| <= k < |s| ==> Trailing(s[k])
    decreases |s|
  {
    if |s| > 1 && Trailing(s[|s| - 1]) {
      var u := s[..|s| - 1];
      TrimmedShape(u);
      assert u[..|Trimmed(u)|] == s[..|Trimmed(u)|];
    }
  }

  /** Trimming twice trims nothing more. */
  lemma TrimmedTwice(s: string)
    requires |s| >= 1
    ensures Trimmed(Trimmed(s)) == Trimmed(s)
  {
    TrimmedShape(s);
  }

  /** A trailing character at `p`, not the first, goes. */
  lemma TrimmedLast(s: string, p: nat)
    requires 0 < p < |s| && Trailing(s[p])
    ensures Trimmed(s[..p + 1]) == Trimmed(s[..p])
  {
    assert s[..p + 1][..p] == s[..p];
  }

  /**
   * The strip loop of TnmInitDns on the C string of length `len` in
   * `domain`: from the last character backwards, each dot or white space
   * becomes '\0', stopping at any other character or at the first one.
   */
  method StripDomain(domain: array<char>, ghost len: nat)
    requires 1 <= len < domain.Length && domain[len] == '\0'
    requires forall k :: 0 <= k < len ==> domain[k] != '\0'
    modifies domain
    ensures var t := Trimmed(old(domain[..len]));
      (forall k :: 0 <= k < |t| ==> domain[k] == t[k])
      && (forall k :: |t| <= k <= len ==> domain[k] == '\0')
      && forall k :: len < k < domain.Length ==> domain[k] == old(domain[k])
  {
    ghost var s := domain[..len];
    var l := Strlen(domain, len);
    var p := l - 1;
    assert s[..p + 1] == s;
    while Trailing(domain[p]) && p > 0
      invariant 0 <= p < len
      invariant forall k :: 0 <= k <= p ==> domain[k] == s[k]
      invariant Trimmed(s) == Trimmed(s[..p + 1])
      invariant forall k :: p < k <= len ==> domain[k] == '\0'
      invariant forall k :: len < k < domain.Length ==> domain[k] == old(domain[k])
      decreases p
    {
      TrimmedLast(s, p);
      domain[p] := '\0';
      p := p - 1;
    }
    assert Trimmed(s) == s[..p + 1];
  }

  /** strlen: the index of the first '\0'. */
  method Strlen(a: array<char>, ghost len: nat) returns (l: nat)
    requires len < a.Length && a[len] == '\0'
    requires forall k :: 0 <= k < len ==> a[k] != '\0'
    ensures l == len
  {
    l := 0;
    while a[l] != '\0'
      invariant 0 <= l <= len
      decreases len - l
    {
      l := l + 1;
    }
  }
}

