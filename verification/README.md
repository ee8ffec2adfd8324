# ipfilter: a verified model of its range-membership core

`ipfilter` reads a filter file of IPv4 or IPv6 addresses, address ranges
(`a-b`) and prefixes (`a/p`) into a table of intervals. It then reads
addresses on standard input and prints those inside the filter
(`intersect` mode) or outside it (`exclude` mode). This project models the
code that does that work in `ipfilter.c`:

- the fixed-width address arithmetic: `ucmp`, `cmp6`, `cmp_ipr`,
  `cmp6_ipr`, the prefix masks and their tables, and `ip6_and` / `ip6_or`;
- the normalisation of a scanned filter line into a range, and the
  acceptance of a scanned standard-input line;
- the range table, which grows in `ALLOC_STEP` chunks;
- `unique` / `unique6` and `rtrim`;
- the membership search `list_belong(6)` and the verdict
  `list_check(6)`.

Modules, one per part of the program:

| module | file | what it holds |
|---|---|---|
| `Bits` | bits.dfy | powers of two; AND, OR, NOT and shifts on w-bit naturals (bit by bit); mask and block arithmetic |
| `Addr4` | addr4.dfy | `ucmp`, `mask_from_bitcount`, the octet check, packing four octets and `print_ip`'s unpacking |
| `Addr6` | addr6.dfy | 16-byte addresses read as big-endian 128-bit numbers; `cmp6` (both paths), `ip6_and`, `ip6_or`, `mask_from_bitcount6_make`, and the class `MaskTables` for `ip6_mask` / `ip6_inv_mask` |
| `Ranges` | ranges.dfy | `ip_range`, `ip_range6`, `cmp_ipr`, `cmp6_ipr`, sortedness |
| `Search` | search.dfy | `list_belong(6)` and `list_check(6)`, specified by the function `Probe`; soundness, completeness, the nested-range miss and a corrected search |
| `Unique` | unique.dfy | `unique` and `unique6`, specified by `Dedup` |
| `Text` | text.dfy | `rtrim` on a character array |
| `Normalise` | normalise.dfy | filter-line and input-line acceptance inside `Run`, for both families |
| `Table` | table.dfy | the class `RangeList`: `iplist`, `ipct`, `iplist_size` and the growing append |
| `Run` | run.dfy | the two phases of `Run`: loading the filter table, and answering the queries |

A `uint32_t` is a `U32` (a natural below 2^32). An `in6_addr` is a sequence
of 16 bytes whose number is `Value`, read big-endian. The bitwise operators
are defined bit by bit and tied to arithmetic by lemmas. For example, a
netmask with `h` host bits is `2^w - 2^h`. The prefix forms follow section
3.1 of RFC 4632 for IPv4 and section 2.3 of RFC 4291 for IPv6.

`Run` sorts the table with `gnu_quicksort` between the two phases, and
`qsort.c` is not part of this model. So `Run` is modelled as two methods.
`Load4` / `Load6` build the table from the scanned filter lines.
`Answer4` / `Answer6` answer the scanned input lines against any table they
are given. Sortedness appears only as a hypothesis of the lemmas that need
it: `Ranges.SortedLows` turns a `cmp_ipr`-sorted table into ascending lower
ends.

## Model

| member | source | states |
|---|---|---|
| Addr4.Ucmp | ipfilter.c:39-47 | the result is -1, 0 or 1, and its sign is the order of the two addresses (both directions) |
| Addr4.MaskFromBitcount | ipfilter.c:48-51 | for zct < 32 the mask is 2^32 - 2^zct, with 32 - zct leading ones and zct trailing zeros; for zct >= 32 it is 0 |
| Addr4.Netmask | ipfilter.c:541 | `mask_from_bitcount(32 - p)` is the netmask of prefix length p: /0 gives 0 and /32 all ones |
| Addr4.OctetOk | ipfilter.c:531 | the octet check `!(u & 0xFFFFFF00)` on one scanned number (its meaning is `Addr4.OctetOkIff`) |
| Addr4.Pack | ipfilter.c:534 | `u1<<24 \| u2<<16 \| u3<<8 \| u4` on 32 bits (its value is `Addr4.PackValue`) |
| Addr4.Octets | ipfilter.c:239 | the four numbers `print_ip` prints: `a>>24`, `(a>>16)&0xFF`, `(a>>8)&0xFF`, `a&0xFF` (see `Addr4.OctetsValue`, `Addr4.OctetsPack`) |
| Addr4.OctetOkIff | ipfilter.c:531 | `!(u & 0xFFFFFF00)` holds exactly when u < 256 |
| Addr4.QuadOkIff | ipfilter.c:539 | the four octet checks pass exactly when all four numbers are below 256 |
| Addr4.PackValue | ipfilter.c:534 | for valid octets, `u1<<24 \| u2<<16 \| u3<<8 \| u4` is their big-endian base-256 value (no bit is lost or overlaps) |
| Addr4.OctetsValue | ipfilter.c:237-240 | the four numbers `print_ip` prints are the quotients and remainders of the address by powers of 256 |
| Addr4.OctetsPack | ipfilter.c:534 | unpacking a packed quad of valid octets gives the same four octets back |
| Addr4.PackOctets | ipfilter.c:237-240 | every address is the packing of its printed octets, and those octets pass the octet check |
| Addr6.HalvesValue | ipfilter.c:80-87 | an address's number is its first 64-bit word (byte-swapped, so read big-endian) times 2^64 plus its second word |
| Addr6.Cmp6 | ipfilter.c:71-104 | the halves comparison returns -1, 0 or 1; negative, zero or positive exactly as the 128-bit numbers compare; zero exactly when the 16 bytes are equal |
| Addr6.Cmp6Bytes | ipfilter.c:106-116 | the byte-loop fallback returns the same answer as the halves comparison |
| Addr6.Ip6And | ipfilter.c:191-200 | the AND of two addresses, byte by byte (its number is `Addr6.Ip6AndValue`) |
| Addr6.Ip6Or | ipfilter.c:204-213 | the OR of two addresses, byte by byte (its number is `Addr6.Ip6OrValue`) |
| Addr6.Not6 | ipfilter.c:170 | the complement of an address, byte by byte (its number is `Addr6.Not6Value`) |
| Addr6.Ip6AndValue | ipfilter.c:191-200 | the bytewise AND is the AND of the two 128-bit numbers |
| Addr6.Ip6OrValue | ipfilter.c:204-213 | the bytewise OR is the OR of the two 128-bit numbers |
| Addr6.Not6Value | ipfilter.c:170 | the complement of an address is the 128-bit complement of its number |
| Addr6.PartialByteValue | ipfilter.c:157 | the boundary byte `~((1 << (zct & 7)) - 1)`, stored in a byte, is 256 - 2^(zct mod 8) |
| Addr6.PartialByte | ipfilter.c:157 | computes that boundary byte |
| Addr6.Mask6 | ipfilter.c:148-159 | the bytes of the mask for zct zero bits: all zero for zct >= 128, else 0xFF bytes, the boundary byte 256 - 2^(zct mod 8) at index 15 - zct / 8, then zero bytes (its number is `Addr6.Mask6Value`) |
| Addr6.Mask6Value | ipfilter.c:148-159 | for zct <= 128 the mask's number is 2^128 - 2^zct: 128 - zct leading ones, and zct = 128 gives all zeros |
| Addr6.InvMask6Value | ipfilter.c:170 | the complement of the mask for zct zero bits is 2^zct - 1 |
| Addr6.MakeMask6 | ipfilter.c:148-159 | the `memset` and boundary-byte writes produce the layout `Mask6(zct)`: zero bytes for zct >= 128; otherwise 0xFF bytes, then the boundary byte at index (127 - zct) >> 3, then zeros |
| Addr6.MaskTables.constructor | ipfilter.c:160 | both static tables have 129 entries, all zero |
| Addr6.MaskTables.Prepare | ipfilter.c:164-177 | afterwards, for every zct in 0..128, `ip6_mask[zct]` is `Mask6(zct)` and `ip6_inv_mask[zct]` is its bitwise complement |
| Addr6.MaskTables.MaskOf | ipfilter.c:178-181 | on prepared tables, entry zct is `Mask6(zct)` and its number is 2^128 - 2^zct |
| Addr6.MaskTables.InvMaskOf | ipfilter.c:182-185 | on prepared tables, entry zct is the complement of the mask, with number 2^zct - 1 |
| Ranges.CmpIpr | ipfilter.c:130-135 | the result is -1, 0 or 1 and orders ranges lexicographically by (ip1, ip2); zero exactly for equal ranges |
| Ranges.Cmp6Ipr | ipfilter.c:121-126 | the same, with the ends compared as 128-bit numbers |
| Ranges.CmpIprOrder | ipfilter.c:130-135 | `cmp_ipr` is antisymmetric and transitive, so it is a total order to sort by |
| Ranges.Cmp6IprOrder | ipfilter.c:121-126 | `cmp6_ipr` is antisymmetric and transitive |
| Ranges.SortedLows | ipfilter.c:570 | a table sorted with `cmp_ipr` has ascending lower ends |
| Ranges.SortedLows6 | ipfilter.c:489 | a table sorted with `cmp6_ipr` has ascending lower ends |
| Search.Probe | ipfilter.c:371-389 | the answer of the search loop from the state (pos, pos_end): below entry pos the end moves to pos and pos halves, inside entry pos it hits, above it pos moves forward by the step (see `Search.ProbeSound`, `Search.ProbeExact`) |
| Search.Belong | ipfilter.c:368-389 | the search started at pos = ipct / 2 with pos_end = ipct (see `Search.BelongSound`, `Search.BelongExact`, `Search.NestedRangeMissed`) |
| Search.Verdict | ipfilter.c:398 | the verdict `mode==exclude && !b \|\| mode==intersect && b`; `Search.ListCheck` and `Search.ListCheck6` ensure their result is this verdict on list membership, and `Run.PassedOne4`/`Run.PassedOne6`/`Run.WantedOne4`/`Run.WantedOne6` use it |
| Search.Step | ipfilter.c:384 | the forward step `MAX(1, (pos_end - pos) / 2)` is at least 1 and never passes `pos_end`; it reaches `pos_end` only from the last position |
| Search.ProbeSound | ipfilter.c:371-389 | from any state, a hit means some entry before `pos_end` holds the address |
| Search.BelongSound | ipfilter.c:364-390 | on any table a hit is a real one (ip1 <= a <= ip2 for some entry), and an empty table never hits |
| Search.ProbeExact | ipfilter.c:371-389 | with both ends ascending, the loop keeps two facts: every entry from `pos_end` on starts above a, and a stopped search stopped above an entry ending below a; from such a state it hits exactly when some entry holds a |
| Search.BelongExact | ipfilter.c:364-390 | if the lower and the upper ends both ascend, the search hits exactly when some entry holds the address |
| Search.NestedRangeMissed | ipfilter.c:379-385 | the table 10.0.0.0/8, 10.1.0.0/16 is sorted by `cmp_ipr` and holds 10.2.0.0, yet the search misses it |
| Search.RaiseHighsShape | ipfilter.c:364-390 | raising each upper end to the running maximum keeps the lower ends, never lowers an upper end, and makes the upper ends ascend |
| Search.RaiseKeepsCover | ipfilter.c:364-390 | an address held by the table is held by the raised table |
| Search.RaiseAddsNothing | ipfilter.c:364-390 | on a table with ascending lower ends, a raised entry holding a means an original entry holds a |
| Search.RaiseKeepsLows | ipfilter.c:364-390 | raising keeps the lower ends ascending |
| Search.BelongRaisedExact | ipfilter.c:364-390 | the corrected search is exact on every table with ascending lower ends, nested ranges included |
| Search.ListBelong | ipfilter.c:364-390 | the loop ends, reads only the first `ipct` entries, and returns the search's answer; `true` only when some entry has ip1 <= a <= ip2 |
| Search.ListBelong6 | ipfilter.c:327-353 | the same with `cmp6`, over the 128-bit numbers |
| Search.ListCheck | ipfilter.c:391-399 | false when the mode is neither exclude nor intersect; `!belong` for exclude and `belong` for intersect; in every mode, the result is `Search.Verdict` of the mode and membership in the list's spans |
| Search.ListCheck6 | ipfilter.c:354-362 | the same for IPv6, including that the result is `Search.Verdict` of the mode and membership of the 128-bit value |
| Unique.DedupCons | ipfilter.c:52-64 | putting an item in front merges it with an equal first item and otherwise keeps it |
| Unique.DedupShape | ipfilter.c:52-64 | collapsing never grows the sequence and keeps the first item |
| Unique.DedupNoRepeats | ipfilter.c:52-64 | the result has no two equal adjacent items |
| Unique.DedupElements | ipfilter.c:52-64 | the result holds exactly the items of the input |
| Unique.DedupNoop | ipfilter.c:52-64 | a sequence without adjacent repeats is left unchanged |
| Unique.DedupIdempotent | ipfilter.c:52-64 | a second pass changes nothing |
| Unique.DedupAscending | ipfilter.c:52 | on a presorted input the result is strictly ascending |
| Unique.DedupOrder | ipfilter.c:52 | on a presorted input the result stays presorted |
| Unique.DedupExample | ipfilter.c:53 | 1,1,2,3,3,0,0,0 becomes 1,2,3,0 |
| Unique.DedupRun | ipfilter.c:57-62 | a leading run of equal items collapses to one item |
| Unique.SkipRun | ipfilter.c:59 | the inner scan stops at `ct` or at the first item differing from u, and every item it passed equals u |
| Unique.Unique | ipfilter.c:54-64 | returns r <= ct; the first r items are the input's first ct items with runs collapsed; the items from r on are unchanged |
| Unique.Unique6 | ipfilter.c:138-147 | the same for addresses compared byte by byte |
| Text.Strlen | ipfilter.c:218 | the index of the first NUL |
| Text.TrimEndShape | ipfilter.c:215-219 | trimming keeps a prefix, removes only `\n` and `\r`, and leaves none at the end |
| Text.TrimEndIdempotent | ipfilter.c:215-219 | trimming twice trims nothing more |
| Text.TrimmedString | ipfilter.c:215-219 | after `rtrim` the array still holds a C string, and its text is the old text without its trailing line ends |
| Text.RTrim | ipfilter.c:215-219 | a null pointer is left alone; otherwise the array becomes `Trimmed` of its old contents: the trailing line ends are overwritten with NUL and everything else is unchanged |
| Table.RangeList.constructor | ipfilter.c:405 | an empty table: no buffer, `ipct = 0`, `iplist_size = 0` |
| Table.RangeList.Append | ipfilter.c:466-482 | the new entry is appended after the old ones, which are kept. A full buffer is replaced by one `ALLOC_STEP` slots larger; otherwise the buffer stays. The table invariant is kept |
| Table.SizeIsCapacity | ipfilter.c:468-470 | the table invariant pins `iplist_size` to `ipct` rounded up to a multiple of `ALLOC_STEP` |
| Normalise.CidrRange4 | ipfilter.c:541-543 | `ip1 = A & mask`, `ip2 = ip1 \| ~mask` with `mask = mask_from_bitcount(32 - p)` (its block is `Normalise.CidrRange4Block`) |
| Normalise.Filter4 | ipfilter.c:529-545 | the range an IPv4 filter line adds: the `a-b` scan when all eight octets pass, else the `a/p` scan when its four octets pass and p <= 32 (p is 32 when not scanned), else a bad entry (see `Normalise.Filter4Accepted`) |
| Normalise.Query4 | ipfilter.c:577-581 | the address an IPv4 input line queries: the packed address when its octets pass and the prefix is absent or 32 (see `Normalise.Query4Accepted`) |
| Normalise.CidrRange6 | ipfilter.c:445-446 | `ip1 = a & mask6(h)`, `ip2 = ip1 \| inv_mask6(h)` for h host bits (its block is `Normalise.CidrRange6Block`) |
| Normalise.Filter6 | ipfilter.c:434-465 | the range an IPv6 filter line adds: (a, a) for a bare address or `/128`, the block for `/p` with p < 128, (a, b) for `a-b` with `cmp6(b, a) >= 0`, else a bad entry (see `Normalise.Filter6Refused` and the lemmas after it) |
| Normalise.Query6 | ipfilter.c:496-513 | an IPv6 input line: a prefix other than `/128` is refused first, then an unparsable address, else the address is queried (see `Normalise.Query6Accepted`) |
| Normalise.MaskedHostBlock | ipfilter.c:541-543 | clearing the h host bits with the netmask and setting them with its complement gives the block of 2^h numbers that agree with the address above the low h bits |
| Normalise.CidrRange4Block | ipfilter.c:538-545 | `a/p` is that block with 32 - p host bits: ip1 <= A <= ip2 and ip2 - ip1 = 2^(32-p) - 1; /0 is the whole space and /32 is (A, A) |
| Normalise.Filter4Refused | ipfilter.c:529-545 | a line is a bad entry exactly when the range scan failed or has an octet of 256 or more, and the CIDR scan failed, has an octet of 256 or more, or has a prefix length above 32 |
| Normalise.Filter4Accepted | ipfilter.c:529-545 | an accepted line either has eight octets below 256, stored as given and printed back unchanged, or has a valid address and a prefix length p of at most 32 and adds exactly that address's aligned block of 2^(32-p) addresses sharing its top p bits |
| Normalise.ReversedRangeKept | ipfilter.c:530-536 | a range whose second address is below its first is accepted as written, and holds no address |
| Normalise.BadRangeFallsThrough | ipfilter.c:529-545 | a range whose second address has an octet above 255 falls through to the second scan with `zct` still 32, and is accepted as its first address alone |
| Normalise.Query4Accepted | ipfilter.c:577-581 | an input line is queried exactly when its octets are below 256 and it has no prefix or `/32`; the queried address prints back as the scanned octets |
| Normalise.MaskedHostBlock6 | ipfilter.c:445-446 | the IPv6 mask and its complement clear and set the h host bits, giving the block of the address |
| Normalise.CidrRange6Block | ipfilter.c:442-448 | `a/p` with p < 128 is the block of 2^(128-p) numbers agreeing with a above the host bits; /0 is the whole space |
| Normalise.CidrRange6Contains | ipfilter.c:442-448 | the block holds the address |
| Normalise.Filter6Single | ipfilter.c:449-464 | a bare address and an address with `/128` add the address alone |
| Normalise.Filter6Pair | ipfilter.c:456-459 | a pair is accepted exactly when `cmp6(b, a) >= 0`, and is then stored as given |
| Normalise.Filter6Refused | ipfilter.c:434-465 | a line is a bad entry exactly when the first address did not parse, a `/` has no number or one above 128, or a `-` has an unparsable or lower second address |
| Normalise.Filter6NonEmpty | ipfilter.c:434-465 | every range an IPv6 line adds has ip1 <= ip2 |
| Normalise.Normalise6 | ipfilter.c:434-465 | with the masks read from prepared tables, the step adds what `Filter6` describes |
| Normalise.Query6Accepted | ipfilter.c:496-513 | an input line is queried exactly when its address parsed and it has no prefix or `/128`; any other prefix is refused before the address is looked at |
| Run.KeptOrBad | ipfilter.c:466-484 | every filter line is either added or reported as a bad entry, never both and never lost: kept and reported lines add up to all lines, every reported line was refused, and every refused line is reported |
| Run.BadExactly | ipfilter.c:466-484 | a line is reported as a bad entry exactly when the step refuses it, and the reports come in strictly ascending line order, so no line is reported twice |
| Run.KeptMembers | ipfilter.c:466-482 | a range is in the table exactly when some filter line yields it |
| Run.Record | ipfilter.c:466-484 | an accepted line's range is appended, and a refused line's number is reported |
| Run.Load4 | ipfilter.c:524-566 | the table holds the ranges of the accepted lines in file order, and the refused lines are reported in order |
| Run.Load6 | ipfilter.c:421-485 | the mask tables are prepared first; then the same as `Load4`, for IPv6 lines |
| Run.Answer4 | ipfilter.c:574-589 | the printed addresses are those of `Passed4`, in input order; the refused lines are reported |
| Run.Answer6 | ipfilter.c:493-514 | the same for IPv6 |
| Run.Passed4Undef | ipfilter.c:582-583 | without a mode nothing is printed |
| Run.Passed4Sound | ipfilter.c:582-583 | in `intersect` mode every printed address lies in some range of the table, whatever order the table is in |
| Run.Passed6Sound | ipfilter.c:507-508 | the same for IPv6 |
| Run.Passed4Exact | ipfilter.c:582-583 | on a table whose lower and upper ends both ascend, the output is exactly the queried addresses inside (`intersect`) or outside (`exclude`) the filter |
| Run.Passed6Exact | ipfilter.c:507-508 | the same for IPv6 |
| Run.Passed4Raised | ipfilter.c:582-583 | with the corrected search, the output is exactly what the mode promises on every table with ascending lower ends |
| Run.Passed6Raised | ipfilter.c:507-508 | the same for IPv6 |
| Run.EndToEnd4 | ipfilter.c:524-586 | for any table that is a permutation of the accepted ranges sorted by `cmp_ipr` (what the sort, left out, produces), the corrected search prints exactly the wanted addresses, and an address is covered by the table exactly when some accepted filter line's range holds it |
| Run.EndToEnd6 | ipfilter.c:423-513 | the same for IPv6 with a `cmp6_ipr`-sorted table and 128-bit values |

## Left out

- Option parsing, `exithelp` and `main`. They are configuration plumbing with `exit` calls.
- File and stream I/O: `fopen`, whose failure returns 10; the `fgets` loops; `fflush`; `printf` and `fprintf`; `print_ip6` and `print_ip_range(6)`. Lines arrive as sequences of scanned values. The output is the sequence of printed addresses plus the numbers of the refused lines. `print_ip`'s unpacking of an address is modelled as `Addr4.Octets`.
- `sscanf` and `inet_pton` are foreign text parsing. Their results are the inputs of the model: the scanned numbers (`RangeScan`, `CidrScan`), the parsed 16 bytes, and which separator was found (`Tail6`, `Slash`). The copy into `str2` for the message is not modelled.
- Run.Answer6: a refused prefix and an unparsable address are both reported as a refused line. `Normalise.Query6` tells the two messages apart.
- `gnu_quicksort`: qsort.c is not part of this model. The table from `Load4`/`Load6` is not sorted by the model. Lemmas that need a sorted table take sortedness as a hypothesis (`Ranges.SortedLows`).
- Failure of `malloc`/`realloc`, which returns 100. Growth is modelled as an append that keeps the old entries.
- Table.RangeList.Append: the 32-bit counters `ipct` and `iplist_size` could wrap. Its `requires ipct + ALLOC_STEP < 2^32` excludes this, so Run.Load4 and Run.Load6 require fewer than 2^32 - ALLOC_STEP filter lines.
- `unique` and `unique6` are modelled, but `Run` never calls them, so the model's table keeps duplicates as the program's does.
- The variable `pos_start` of `list_belong(6)` is assigned but never read. It is kept in the loops but has no role in the contracts.
- Byte order, `__builtin_bswap64` and the `__int128` casts. `cmp6`, `ip6_and`, `ip6_or` and the complement table are modelled as operations on the 128-bit big-endian number of the 16 bytes. The halves path of `cmp6` reads each 8-byte word big-endian, which is what the byte swap achieves on a little-endian host.
- `1 << zct` on an `int` in `mask_from_bitcount` is undefined behaviour for zct = 31 in C. It is modelled as the unsigned 32-bit shift that is evidently meant.
- Addr6.MakeMask6: its contract gives the byte layout `Mask6(zct)`; the number of that layout is stated separately by `Addr6.Mask6Value`.

## Findings

| source | as written | input that shows it | evidently intended | confidence | as-written member | corrected member |
|---|---|---|---|---|---|---|
| ipfilter.c:379-385 | After a miss above entry `pos`, the search moves only forward. It assumes no entry before `pos` can hold the address, which is false once a range is nested inside an earlier one. | The table 10.0.0.0/8, 10.1.0.0/16 (sorted by `cmp_ipr`) with the query 10.2.0.0. The search probes the /16 at position 1, steps past it and stops. So 10.2.0.0 is reported as not listed although the /8 holds it. | An address is listed whenever some filter range holds it, on any sorted table. | high: proved for the concrete table, not executed | Search.NestedRangeMissed | Search.BelongRaisedExact |

The model of `Run` keeps the search as written: `Run.Answer4` and
`Run.Answer6` print what `Search.Belong` answers. `Run.Passed4Exact` and
`Run.Passed6Exact` state when that output is exact: the upper ends must
ascend too. The corrected search is `Search.BelongRaised`, the same loop
over a table whose upper ends have been raised to their running maximum.
It is exact on every table sorted by lower end (`Search.BelongRaisedExact`).
`Run.Passed4Raised` and `Run.Passed6Raised` state that the run's output
with the corrected search is exactly what the mode promises on every
sorted table.
