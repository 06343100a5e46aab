# Scotty/Tnm DNS resolver core in Dafny

This project models the DNS part of the Tnm Tcl extension, together with the Windows start-up code that configures it.

**DNS lookups (`tnm/generic/tnmDns.c`).**
- `DnsDoQuery` sends one query through the resolver library. It walks the resource records of the reply, using the wire format of RFC 1035 sections 4.1.1 to 4.1.4, and fills an `a_res` record:
  - a type;
  - a count;
  - up to `MAXRESULT` (30) slots, each holding an address or a text.
- `DnsHaveQuery` tries the query name as it is, then with each search suffix of the resolver. It first looks for a result of the wanted type, then for any result.
- `DnsA`, `DnsPtr`, `DnsGetHostName`, `DnsHinfo`, `DnsMx` and `DnsSoa` turn a search result into a Tcl result. `DnsHinfo` splits the HINFO text with `DnsCleanHinfo`.
- `Tnm_DnsObjCmd` merges its `-timeout`, `-retries` and `-server` options into one of two places:
  - the stored per-interpreter `DnsControl` record, when the command does no lookup;
  - the parameters of one lookup, which `DnsInit` then hands to the resolver state `_res`.

**Windows start-up (`win/tnmWinInit.c`).**
- `FixPath` turns backslashes into slashes.
- `TnmInitPath` picks the library directories and the `tclsh` and `wish` programs.
- `TnmInitDns` reads the name servers and the default domain from the registry. It then strips trailing dots and white space from the domain.

**Modules.**
- `Wire`: bytes, the RFC 1035 constants and header fields.
- `Names`: `dn_expand` and `dn_skipname`.
- `Decimal`: the `%d` texts that `sprintf` writes and `sscanf` reads.
- `Records`: specification functions for one query and the lemmas about them.
- `Answers`: the `a_res` record as a class, whose `DoQuery` fills it in place.
- `Search`: `DnsHaveQuery`.
- `Hinfo`: the HINFO field split and `DnsCleanHinfo`, on character arrays.
- `Facade`: the lookup procedures.
- `Settings`: `DnsControl`, the option merge and `DnsInit`.
- `WinInit`: `tnmWinInit.c`.

**Outside the model.** The following become parameters:
- the name servers' replies: `Records.Exchange`, one per query issued;
- the Tnm address and host name validators, and a resolver whose searches are `DnsHaveQuery`'s: `Facade.Resolver`;
- the Windows registry, the environment, `Tcl_Eval` and `access`: `WinInit.Host`;
- `TnmSetIPAddress`: a function from the text to the address it stores.

## Model

| member | source | states |
|---|---|---|
| Wire.U16 | tnm/generic/tnmDns.c:370-373 | GETSHORT reads a big-endian 16-bit value: high byte first, below 65536 |
| Wire.Short | tnm/generic/tnmDns.c:245 | storing a 16-bit field in a `short` gives the signed value congruent to it mod 65536, negative exactly when the top bit is set |
| Wire.AnswerBuffer | tnm/generic/tnmDns.c:258-280 | the zeroed answer buffer holds the reply in its first bytes and zeros after it |
| Decimal.NatTextValue | tnm/generic/tnmDns.c:465-466 | the decimal text `%d` writes for a number is all digits and reads back as that number |
| Decimal.ScanIntText | tnm/generic/tnmDns.c:670 | `%d` reading the text of an integer, not followed by a digit, gives that integer and ends after the text |
| Decimal.ScanDottedText | tnm/generic/tnmDns.c:670-676 | `sscanf("%d.%d.%d.%d")` of the dotted text `sprintf` builds from four integers gives back the four integers |
| Names.Unpack | tnm/generic/tnmDns.c:359-364 | a name read by dn_expand consumes at least one byte and stays before eom; after a pointer, exactly the bytes up to it |
| Names.Expand | tnm/generic/tnmDns.c:359-364 | a successful dn_expand consumes 1 or more bytes inside the message, and its text fits the 512-byte buffer with its NUL |
| Names.Skip | tnm/generic/tnmDns.c:335-337 | dn_skipname returns -1 or a length that stays inside the message, at least 1 at a position before eom |
| Names.ExpandEncoded | tnm/generic/tnmDns.c:359-364 | an uncompressed name expands to the text of its labels and consumes its wire length plus the root byte |
| Names.ExpandPointer | tnm/generic/tnmDns.c:359-364 | a name of labels ending in a compression pointer expands to those labels followed by the name pointed to, and consumes only the bytes up to the pointer |
| Names.ExpandUnpacked | tnm/generic/tnmDns.c:359-364 | dn_expand's text is the presentation form of the labels ns_name_unpack copied |
| Names.Presented | tnm/generic/tnmDns.c:243 | the text is given exactly when it fits the caller's buffer, and is then the presentation form of the labels |
| Names.SkipAgrees | tnm/generic/tnmDns.c:335-337 | on a name dn_expand accepts, dn_skipname skips exactly the bytes dn_expand consumes |
| Records.Decode | tnm/generic/tnmDns.c:359-373 | one pass of the record loop: a decoded record carries an entry exactly when its type is one DnsDoQuery stores; decoding starts inside the message |
| Records.RData | tnm/generic/tnmDns.c:375-471 | the rdata branch keeps the record type, and yields an entry exactly for A, SOA, HINFO, PTR and MX |
| Records.DecodeAdvance | tnm/generic/tnmDns.c:359-471 | where the cursor goes after each record type: 4 address bytes; one name for NS; a preference and a name for MX; two names and 20 bytes for SOA; the signed rdlength otherwise |
| Records.DecodeA | tnm/generic/tnmDns.c:383-391 | an A record yields its owner and the four address bytes, and moves past them |
| Records.DecodePtr | tnm/generic/tnmDns.c:439-450 | a PTR record yields the expanded name, and moves by the rdlength |
| Records.DecodeMx | tnm/generic/tnmDns.c:452-467 | an MX record yields "name preference", and moves past the name |
| Records.DecodeSoa | tnm/generic/tnmDns.c:393-421 | an SOA record yields the MNAME, and moves past both names and the five 32-bit fields |
| Records.Accept | tnm/generic/tnmDns.c:387-391 | an admitted record (no type yet, the same type, or an A record owned by the query name) is appended and sets the type; any other leaves the result unchanged; with the slot check a full result is left unchanged |
| Records.RecordCount | tnm/generic/tnmDns.c:314-320 | the records walked are the answers if there are any, else the authority records, else the additional ones; zero exactly when all three counts are zero |
| Records.WalkShape | tnm/generic/tnmDns.c:349-472 | the walk keeps earlier entries, adds at most one entry per record, keeps the count equal to the entries, changes the type only from unset or to A, and with the slot check stays at or below MAXRESULT |
| Records.StepShape | tnm/generic/tnmDns.c:375-471 | one record adds at most one entry and never unsets the type |
| Records.QueryOutcome | tnm/generic/tnmDns.c:256-473 | count -1 with one message exactly on a failed res_mkquery, res_send or RCODE; an RCODE failure gives the query type and its message; a walked reply has no more entries than records counted, no type when empty, a stored type otherwise, and at most MAXRESULT entries with the slot check |
| Records.QueryWalk | tnm/generic/tnmDns.c:314-349 | a reply with RCODE 0 is walked from the first record after the question, over RecordCount records, from an empty result |
| Records.WalkTyped | tnm/generic/tnmDns.c:349-472 | the walk never puts an address into a result whose type is not A |
| Records.QueryTyped | tnm/generic/tnmDns.c:51-58 | no address appears in a result of a type other than A |
| Records.MixedResult | tnm/generic/tnmDns.c:387-391 | a type-A result can still hold text: a PTR record, then an A record owned by the query name, gives a type-A result of a text and an address |
| Records.QueryShaped | tnm/generic/tnmDns.c:236-473 | every DnsDoQuery result is an error with one message, or a count equal to its entries with a stored type exactly when non-empty, and is typed |
| Records.RcodeMessageDistinct | tnm/generic/tnmDns.c:296-308 | different nonzero RCODEs give different messages |
| Records.WalkStep | tnm/generic/tnmDns.c:349-372 | one pass of the loop: the walk over `count` records is the record's effect followed by the walk over `count - 1` from where it ends |
| Records.OverflowQuery | tnm/generic/tnmDns.c:387-391 | a reply whose records are all A records for the root name gets one address per record as written; with the slot check it gets the first MAXRESULT of them when there are more |
| Records.OverflowAsWritten | tnm/generic/tnmDns.c:387-391 | a reply of 31 A records for the root name makes the loop store a 31st address into the 30 slots; with the slot check the same reply gives exactly MAXRESULT entries, the first MAXRESULT that the loop as written stores |
| Answers.Answer.Reset | tnm/generic/tnmDns.c:256-257 | the record is left with type -1 and no entries |
| Answers.Answer.Fail | tnm/generic/tnmDns.c:269-272 | the record is left with count -1, the given type and the message in slot 0 |
| Answers.Answer.Take | tnm/generic/tnmDns.c:527 | `*query_result = res`: the record now holds the other record's result |
| Answers.Answer.Store | tnm/generic/tnmDns.c:387-391 | the record becomes Accept of its old result with the slot check |
| Answers.Answer.RecordData | tnm/generic/tnmDns.c:375-471 | the rdata branch stops on a failed dn_expand, else stores the entry as Accept does and returns where the record ends |
| Answers.Answer.Record | tnm/generic/tnmDns.c:359-471 | one loop pass stops on a failed owner dn_expand, else applies the decoded record and returns the next position |
| Answers.Answer.WalkRecord | tnm/generic/tnmDns.c:349-472 | after one pass, fewer records remain, and walking them from the new state gives what walking all of them from the old state gives |
| Answers.Answer.WalkRecords | tnm/generic/tnmDns.c:349-472 | the loop leaves the record holding Walk of its old result |
| Answers.Answer.DoQuery | tnm/generic/tnmDns.c:236-473 | DnsDoQuery leaves the record holding Query of the exchange with the slot check |
| Search.Suffixes | tnm/generic/tnmDns.c:519-520 | the suffixes used are the search list entries before the first empty slot |
| Search.Named | tnm/generic/tnmDns.c:517-523 | the names tried are the query, then the query, a dot and each suffix |
| Search.Results | tnm/generic/tnmDns.c:525 | the search has one DnsDoQuery result for each query of the two passes |
| Search.ResultAt | tnm/generic/tnmDns.c:555 | query `i` of a pass asks for the candidate of its round and gets DnsDoQuery's result |
| Search.Pass1 | tnm/generic/tnmDns.c:515-539 | the first pass returns one of its results, the last one asked for |
| Search.Pass2 | tnm/generic/tnmDns.c:545-566 | the second pass returns one of its results, the last one asked for |
| Search.Search | tnm/generic/tnmDns.c:504-566 | no query and an empty result at a depth above one; otherwise at most two queries per candidate and the result of the last query |
| Search.Pass1Hit | tnm/generic/tnmDns.c:526-529 | the first pass stops at the first candidate with entries of the wanted type |
| Search.Pass1Miss | tnm/generic/tnmDns.c:515-539 | without such a candidate the first pass finds nothing |
| Search.Pass2Found | tnm/generic/tnmDns.c:557-560 | the second pass stops at the first candidate with any entries |
| Search.Pass2Last | tnm/generic/tnmDns.c:563-566 | with no entries anywhere the second pass returns the last result |
| Search.SearchFirstHit | tnm/generic/tnmDns.c:515-529 | the search returns the first candidate's result that has entries of the wanted type |
| Search.SearchSingle | tnm/generic/tnmDns.c:535-538 | an SOA or PTR search asks once, for the name as given, and returns that result |
| Search.SearchFallback | tnm/generic/tnmDns.c:545-560 | with no result of the wanted type, the search returns the first second-pass result with entries |
| Search.SearchLast | tnm/generic/tnmDns.c:563-566 | with no entries at all, the search returns the last second-pass result, whose count is at most 0 |
| Search.SearchShaped | tnm/generic/tnmDns.c:493-568 | every DnsHaveQuery result is shaped as DnsDoQuery's are |
| Search.HaveQuery | tnm/generic/tnmDns.c:493-568 | the method leaves the result record and the query count of SearchResult |
| Search.Ask | tnm/generic/tnmDns.c:517-525 | building the candidate name and running DnsDoQuery gives that query's result |
| Search.FirstPass | tnm/generic/tnmDns.c:515-539 | the first loop ends early exactly when Pass1 finds a result, which it copies to the caller |
| Search.SecondPass | tnm/generic/tnmDns.c:545-566 | the second loop and the final copy leave Pass2's result |
| Hinfo.Unescape | tnm/generic/tnmDns.c:707-720 | removing escapes never lengthens a string and keeps only its characters |
| Hinfo.UnescapeEscape | tnm/generic/tnmDns.c:707-720 | removing the escapes of an escaped field gives the field back |
| Hinfo.FieldEnd | tnm/generic/tnmDns.c:776-779 | the field scan stops at the end or at a dot, stepping over escaped characters |
| Hinfo.FieldEndEscape | tnm/generic/tnmDns.c:776-779 | the scan of an escaped field stops exactly at its end |
| Hinfo.HinfoRoundTrip | tnm/generic/tnmDns.c:775-795 | the CPU and OS fields, escaped and joined by a dot, split back into the two fields |
| Hinfo.ShiftLeft | tnm/generic/tnmDns.c:715-716 | the inner copy loop moves the rest of the string one place left and changes nothing else |
| Hinfo.CleanHinfo | tnm/generic/tnmDns.c:707-720 | in place, the C string becomes its unescaped text followed by NULs; the rest of the array is untouched |
| Hinfo.ScanField | tnm/generic/tnmDns.c:776-779 | the pointer loop stops at FieldEnd |
| Hinfo.Field | tnm/generic/tnmDns.c:775-782 | the unescaped field up to FieldEnd, and the position after its dot |
| Hinfo.SplitHinfo | tnm/generic/tnmDns.c:775-795 | the two elements are the CPU and OS fields of the text |
| Facade.SearchSound | tnm/generic/tnmDns.c:628 | searches that are DnsHaveQuery's give only shaped results |
| Facade.GateShaped | tnm/generic/tnmDns.c:630-637 | the gate succeeds exactly on entries of the type; it fails with the search's message; on success there is one element per entry, each the stored text for a type other than A |
| Facade.PtrLookups | tnm/generic/tnmDns.c:667-677 | DnsPtr searches only for a valid four-number address, for its reverse name, and rejects one sscanf cannot read with "invalid IP address" |
| Facade.PtrReverse | tnm/generic/tnmDns.c:670-686 | a.b.c.d is looked up as d.c.b.a.in-addr.arpa of type PTR |
| Facade.ALiteral | tnm/generic/tnmDns.c:615-622 | an IP address is confirmed by a reverse lookup and returned as it is, or DnsPtr's error is returned |
| Facade.AName | tnm/generic/tnmDns.c:624-638 | a host name gives one element per A entry, each the dotted text of that entry's four address bytes (it reads back as them), or the search's message |
| Facade.HostNameOutcome | tnm/generic/tnmDns.c:201-217 | DnsGetHostName succeeds exactly when DnsPtr does, and otherwise fails with "cannot reverse lookup" |
| Facade.TextRecordsTarget | tnm/generic/tnmDns.c:828-839 | an address is first reverse-looked up and its name searched for; a name is validated and searched for |
| Facade.TextRecordsResult | tnm/generic/tnmDns.c:842-850 | MX and SOA return the stored texts exactly when the search found entries of the type, else its message |
| Facade.LabelEscape | tnm/generic/tnmDns.c:423-436 | for a character-string of printable bytes whose only special bytes are dots and backslashes, dn_expand's text is the string with a backslash before each dot and backslash, which is what DnsHinfo's scan expects |
| Facade.HostInfoFields | tnm/generic/tnmDns.c:762-796 | an HINFO result whose first text dn_expand read as the CPU and OS character-strings of such bytes, followed by any further labels, gives exactly those two strings as the two elements |
| Facade.PlainFields | tnm/generic/tnmDns.c:775-795 | DnsHinfo's split of that text: the first two labels' characters, whatever labels follow |
| Facade.SpacedField | tnm/generic/tnmDns.c:707-720 | a CPU string with a space comes back with the three digits of dn_expand's `\032` in its place: "W N" gives "W032N" |
| Facade.HostInfoOutcome | tnm/generic/tnmDns.c:765-797 | DnsHinfo returns the two fields of the first HINFO text, or the search's message |
| Settings.Unset | tnm/generic/tnmDns.c:973-983 | the parameters before any option are all -1, with every server INADDR_ANY |
| Settings.Overlay | tnm/generic/tnmDns.c:1080-1082 | the slot copy takes the first `count` slots from the source and keeps the others |
| Settings.Fallback | tnm/generic/tnmDns.c:957-967 | the initial server list is the resolver's, or loopback when it is empty or the single INADDR_ANY; never empty, never just INADDR_ANY |
| Settings.Given | tnm/generic/tnmDns.c:1008-1067 | an option that passes its checks keeps MAXNS server slots |
| Settings.Gather | tnm/generic/tnmDns.c:996-1069 | the option loop keeps every value either unset (-1) or one the checks let through |
| Settings.GivenServers | tnm/generic/tnmDns.c:1045-1065 | a list of 1 to MAXNS valid addresses is accepted, and the parameters then list exactly those addresses |
| Settings.CommittedGood | tnm/generic/tnmDns.c:1071-1085 | a call without a lookup keeps the stored record usable; given values replace stored ones and the others stay |
| Settings.CommittedUnset | tnm/generic/tnmDns.c:1071-1085 | a call without options leaves the stored record as it was |
| Settings.FilledGood | tnm/generic/tnmDns.c:1091-1102 | a lookup's parameters are the given values, else the stored ones, and are usable |
| Settings.InitializedGood | tnm/generic/tnmDns.c:170-182 | DnsInit gives retry = retries + 1, retrans = timeout, and the listed servers |
| Settings.MergeGood | tnm/generic/tnmDns.c:947-1103 | whatever options a call brings, the stored record stays usable, and a lookup gets at least one try and one server |
| Settings.ResolverState.Init | tnm/generic/tnmDns.c:170-182 | `_res` becomes Initialized of its old state and the parameters |
| Settings.Control.Blank | tnm/generic/tnmDns.c:973-983 | dnsParams starts as Unset |
| Settings.Control.Copy | tnm/generic/tnmDns.c:947-967 | a new DnsControl has retries 2, timeout 2 and the resolver's servers with the loopback fallback |
| Settings.Control.SetServers | tnm/generic/tnmDns.c:1031-1066 | the -server option stores its addresses or fails with Given's message |
| Settings.Control.Apply | tnm/generic/tnmDns.c:1008-1068 | one option changes the parameters as Given says, or fails with its message |
| Settings.Control.Commit | tnm/generic/tnmDns.c:1071-1083 | the control record becomes Committed of its old value and the parameters |
| Settings.Control.Fill | tnm/generic/tnmDns.c:1091-1102 | the parameters become Filled from the control record |
| Settings.CopySlots | tnm/generic/tnmDns.c:1080-1082 | the array copy loop is Overlay |
| Settings.NewControl | tnm/generic/tnmDns.c:947-971 | the first call creates a usable control record and runs DnsInit with it |
| Settings.Merge | tnm/generic/tnmDns.c:947-1103 | a rejected option changes nothing; otherwise a call without a lookup commits the options, and a lookup leaves the record alone and sets `_res` from the filled parameters |
| WinInit.FirstSet | win/tnmWinInit.c:204-221 | the first candidate that is present and non-empty, after none that is; none exactly when no candidate is set |
| WinInit.Slashed | win/tnmWinInit.c:104-115 | every backslash becomes a slash; the length and every other character stay |
| WinInit.SlashedFixed | win/tnmWinInit.c:104-115 | the result has no backslash, and FixPath twice is FixPath once |
| WinInit.FixPath | win/tnmWinInit.c:104-115 | in place on a C string: its characters become Slashed of the old ones; a NULL path and the bytes after the NUL are left alone |
| WinInit.InitLibrary | win/tnmWinInit.c:204-223 | the library path is the first set candidate (else the compiled-in one) through FixPath |
| WinInit.LibraryChain | win/tnmWinInit.c:204-221 | the order: registry value, environment variable, directory next to the executable, compiled-in directory |
| WinInit.LibraryFromExecutable | win/tnmWinInit.c:208-218 | without a registry or environment value, the versioned directory next to the executable if readable, else the unversioned one |
| WinInit.TclRoot | win/tnmWinInit.c:262-290 | the registry search stops at the first key that gives a Root, or, with no Root, a default value, even an empty one; the Tcl root is that value if it is not empty, else the directory above the executable's, else C:\Tcl; never empty |
| WinInit.EmptyDefaultEnds | win/tnmWinInit.c:263-271 | an empty default value under the first key, with no Root beside it, ends the registry search with nothing usable: a Root under the second key is not read |
| WinInit.Digits | win/tnmWinInit.c:295-297 | the version's digits: no longer than it, all digits |
| WinInit.DigitsAppend | win/tnmWinInit.c:295-297 | the digits of two strings put together are the digits of each |
| WinInit.DigitsAll | win/tnmWinInit.c:295-297 | a string of digits is kept whole and in order; with DigitsAppend and the no-digit case this fixes the filter: "8.4" gives "84" |
| WinInit.InitProgram | win/tnmWinInit.c:292-319 | the tclsh or wish variable is set exactly when the built path can be run, and then to that path |
| WinInit.ProgramPathShape | win/tnmWinInit.c:293-299 | the program path has no backslash, the length of its parts and ends in ".exe" |
| WinInit.TokensShape | win/tnmWinInit.c:383-389 | every strtok token is non-empty and holds no comma or space |
| WinInit.TokensJoin | win/tnmWinInit.c:383-389 | a server list written with ", " between its entries splits back into the list |
| WinInit.Strtok | win/tnmWinInit.c:383-387 | one strtok call returns the next token and resumes after it; none is left exactly at the end |
| WinInit.TakeServers | win/tnmWinInit.c:376-390 | the first MAXNS tokens go into the server slots in order, the other slots stay, the count is their number, and tnm(dns) shows the value up to the first token's end |
| WinInit.NameServerValue | win/tnmWinInit.c:373-393 | the first NameServer or DhcpNameServer value that is set, key by key |
| WinInit.InitServers | win/tnmWinInit.c:373-401 | the servers of the first set value, or the single default 127.0.0.1; the slots past the new count keep their old addresses |
| WinInit.DomainValue | win/tnmWinInit.c:408-413 | the first Domain value that is set |
| WinInit.InitDomain | win/tnmWinInit.c:408-417 | the registry's domain is copied only when the resolver has none and it is shorter than MAXDNAME |
| WinInit.TrimmedShape | win/tnmWinInit.c:424-428 | the strip keeps a prefix of at least one character, removes only dots and white space, and stops at the first character or any other |
| WinInit.TrimmedTwice | win/tnmWinInit.c:424-428 | stripping twice strips nothing more |
| WinInit.StripDomain | win/tnmWinInit.c:424-428 | in place, the domain becomes its stripped prefix followed by NULs; the bytes after the string stay |
| WinInit.Strlen | win/tnmWinInit.c:425 | strlen returns the index of the first NUL |

## Left out

- Union aliasing of `a_res`: the model gives each entry its own slot. Reading an address slot as text, or text as an address, is left undetermined (`Facade.Message`, `Facade.AddressText`, `Facade.EntryText`), as is the message of a failed gate when any slot holds an address. An address stored after a text overlays that text in the union: a PTR record, then an A record owned by the query name, leaves a type-A result whose slot 0 text is partly overwritten (Records.MixedResult). `Facade.Message` therefore gives a message only when every entry is text.
- Facade.Message is also `None` when a failed gate's result has no entries. The source then returns `res.u.str[0]`, which `DnsDoQuery` did not write: it is left over from an earlier query of the same search, or uninitialised (tnm/generic/tnmDns.c:501, 525, 630). The model leaves that message undetermined.
- Buffer overruns of the C strings are not modelled:
  - `tmp[256]` in `DnsHaveQuery`, with suffixes appended;
  - `tmp[128]` in `DnsPtr`;
  - the 256-byte `u.str` slots, filled by `strcpy` and `sprintf` from 512-byte buffers.

  Entries are unbounded strings.
- Records.QueryDefined: fixed record fields that `GETSHORT`/`GETLONG` would read outside the 524-byte answer buffer are excluded by this precondition of the walk. The C code does not check for them.
- Records.QueryDefined also requires a reply shorter than the 524-byte answer buffer. A reply that fills the buffer makes the sentinel write `*eom++ = 0` (tnm/generic/tnmDns.c:326-327) land past `answer`; this is not modelled.
- `res_mkquery` and `res_send`, with their retries and timeouts: their outcome is the `Records.Exchange` parameter, and `h_errno` is its number.
- `_res.options` and `res_init` in `TnmInitDns` are not modelled. `_res` is `Settings.ResolverState`, limited to the fields `DnsInit` sets.
- `_res.dnsrch`: the search list is a parameter of `Search.HaveQuery`.
- The validators `TnmValidateIpAddress` and `TnmValidateIpHostName` are parameters, in `Facade.Resolver`.
- `TnmSetIPAddress`, with its host name lookups, is a parameter. In `Settings` a rejected address is `None`.
- `inet_ntoa` becomes the dotted decimal text of the four address bytes.
- Tcl plumbing is not modelled:
  - the interpreter result, `Tcl_AppendElement` quoting, and `Tcl_SetAssocData`/`AssocDeleteProc`;
  - `Tcl_GetIndexFromObj` on the subcommand.

  The subcommand dispatch at tnm/generic/tnmDns.c:1109-1127 is left out.
- The query forms of the options (`-timeout`, `-retries` or `-server` as the last word, which return the stored value) are left out. So is the wrong-number-of-arguments error of `Tnm_DnsObjCmd`.
  - `Settings.Merge` takes the options already converted, plus a flag saying whether a lookup follows.
  - Option words that `TnmGetTableKeyFromObj` rejects, and how the converters read integers and lists, are not modelled.
- The disabled `#if 0` block of `DnsHaveQuery` (tnm/generic/tnmDns.c:570-587) is not part of this model.
- Registry, environment, `Tcl_Eval` and `access` are the `WinInit.Host` parameter. Static buffer reuse in `GetRegValue` is not modelled.
- `WinInit.TclRoot` takes the Tcl version as given. When `tcl_version` is unset, the source reads an uninitialised `tclRoot`, which is not modelled.
- `WinInit.StripDomain` requires a domain of at least one character. For an empty `_res.defdname` the source reads `domain[-1]`, which is not modelled.
- WinInit.InitDomain: the length of the `_res.defdname` buffer is not modelled. MAXDNAME is taken as 1025 (arpa/nameser.h).
- WinInit.TakeServers: a name server value made only of separators gives `nscount` 0, just as the code does. So is the fact that tnm(dns) ends at the end of the first token, because `strtok` writes a NUL there.
- WinInit.LibraryFromExecutable: the model follows the code, win/tnmWinInit.c:209-216. When the versioned directory next to the executable is not readable, the unversioned directory the script named is kept, so the compiled-in default is not used.
- In the domain names of `Names`, label bytes are octets and text characters are their code points. `EscapeByte` follows the escapes of the BSD resolver's `ns_name_ntop`.
- HINFO character-strings are read through `dn_expand`, as the code does. The model does not decode them as RFC 1035 character-strings.
- Facade.HostInfoFields holds only for character-strings of printable bytes whose only special bytes are dots and backslashes. `dn_expand` writes `"`, `;`, `@` and `$` after a backslash, and a byte at or below 0x20 or at or above 0x7F as `\DDD`; `DnsCleanHinfo` drops only the backslash, so a space in a field comes back as the digits `032` (Facade.SpacedField). The source and the model agree on this.

## Findings

| source | as written | input that shows it | evidently intended | confidence | as-written member | corrected member |
|---|---|---|---|---|---|---|
| tnm/generic/tnmDns.c:387-391 | every accepted record is stored at `u.addr[n++]` (and `u.str[n++]` at :420, :435, :449, :465) with no check against MAXRESULT, so a reply with more than 30 stored records writes past the 30 slots of `a_res` | `Records.OverflowReply`: a 19-byte header and question, then 31 A records for the root name, each 10.0.0.1 | records beyond the 30 slots are dropped | not executed | Records.OverflowAsWritten | Answers.Answer.DoQuery |

The rest of the model uses the corrected walk: `Search.Asker` runs `Records.Query` with the slot check, so every property of `Search` and `Facade` is about the capped `DnsDoQuery`, not about the program as written.
