# Customer firewall rule extractor — a Dafny model of its matching core

The extractor takes the rows of a firewall policy, the rows of an address
group table, and a list of customer subnets. It returns the policy rows that
concern the customer. The core is two Python functions:

- `resolve_address_group_field` turns a Source or Destination cell into a
  list of addresses. The cell is split on commas, each piece is stripped, and
  empty pieces are dropped. A name that labels a row of the address group
  table is replaced by that row's members (split, stripped and filtered the
  same way). Any other name is kept as a literal address.
- `match_rules` keeps a rule when every resolved address reads as an IP
  network and some customer subnet overlaps one of them. Addresses are read
  with `ipaddress.ip_network(addr, strict=False)`. Customer lines are
  stripped, then read the same way. Unreadable customer lines are skipped.
  A rule with an unreadable address is skipped whole.

The model has nine modules, one file each:

| file | module | what it holds |
|---|---|---|
| `wrappers.dfy` | `Wrappers` | `Option` (the stand-in for `ValueError`) and `CollectAll`, a list comprehension that fails when one call fails |
| `text.dfy` | `Text` | `str.strip` over Python's Unicode whitespace set, `str.split`, and the split/strip/drop-empty idiom (`Tokens`) |
| `decimal.dfy` | `Decimal` | decimal digit strings and their values |
| `network.dfy` | `Network` | IPv4/IPv6 networks as version, base address and prefix; host-bit masking; containment and `overlaps` exactly as `ipaddress` computes it |
| `ipv4.dfy` | `Ipv4` | `IPv4Network(text, strict=False)`: octets, dotted quads, and prefix lengths given as a number, a netmask or a hostmask |
| `ipnetwork.dfy` | `IpNetwork` | `ip_network(text, strict=False)`: IPv4 first, then IPv6 |
| `resolver.dfy` | `Resolver` | `resolve_address_group_field` |
| `seqs.dfy` | `Seqs` | order-preserving selection (`Filter`) and its algebra |
| `matcher.dfy` | `Matcher` | `match_rules`, as a function and as the two loops of the source |

`Matcher` is stated over an `Env` of three readers:

- `read` reads a resolved address;
- `readLine` reads a customer line;
- `resolve` reads a cell.

`Matcher.ProgramEnv(v6, groups)` is the program's own choice:

- `read` is `ip_network(a, strict=False)`;
- `readLine` is `ip_network(line.strip(), strict=False)`;
- `resolve` is `resolve_address_group_field(cell, groups)`.

The selection properties therefore hold for every reader, and in particular
for the program's.

## Model

| member | source | states |
|---|---|---|
| Wrappers.CollectAll | streamlit_app.py:37-38 | a comprehension of fallible calls succeeds iff every call succeeds; then it has one result per input, in order, each the call's own value |
| Text.TrimStart | streamlit_app.py:15 | the leading half of `strip()`: the result is a suffix of the input that does not start with whitespace |
| Text.TrimEnd | streamlit_app.py:15 | the trailing half of `strip()`: the result is a prefix of the input that does not end with whitespace |
| Text.Strip | streamlit_app.py:15 | `strip()` leaves no Python whitespace character at either end |
| Text.StripUnpadded | streamlit_app.py:15 | the stripped text is a contiguous slice of the input, with only whitespace removed before and after it |
| Text.StripSubset | streamlit_app.py:15 | stripping introduces no character that was not in the input |
| Text.StripOfPadded | streamlit_app.py:15 | stripping whitespace-padded text with no whitespace at its ends returns exactly the inner text |
| Text.StripTrimmed | streamlit_app.py:15 | text with no whitespace at either end strips to itself |
| Text.StripIdempotent | streamlit_app.py:15 | stripping twice is the same as stripping once |
| Text.StripEmptyIff | streamlit_app.py:15 | `strip()` is empty, so the `if name.strip()` filter drops the piece, iff the piece is all whitespace |
| Text.Split | streamlit_app.py:15 | `split(',')` yields at least one piece, even for empty text; its pieces are fixed by `Text.JoinSplit` and `Text.SplitPiecesFree` |
| Text.SplitPiecesFree | streamlit_app.py:15 | no piece of `split(',')` contains a comma |
| Text.JoinSplit | streamlit_app.py:15 | rejoining the pieces of `split(',')` with commas gives back the input, so splitting loses nothing |
| Text.SplitJoin | streamlit_app.py:15 | splitting comma-free pieces joined by commas gives back the pieces |
| Text.SplitNoSeparator | streamlit_app.py:15 | text without a comma splits into the one-piece list holding itself |
| Text.SplitConcat | streamlit_app.py:15 | splitting `a + ',' + b` gives the pieces of `a` followed by the pieces of `b` |
| Text.StripEach | streamlit_app.py:15 | one stripped piece per piece of the split |
| Text.DropEmpty | streamlit_app.py:15 | the `if name.strip()` filter never lengthens the list; what it keeps is fixed by `Text.DropEmptyMembers` |
| Text.DropEmptyMembers | streamlit_app.py:15 | the filter keeps a piece iff it is non-empty and in the input |
| Text.DropEmptyConcat | streamlit_app.py:15 | filtering two lists joined is filtering each in turn |
| Text.Clean | streamlit_app.py:15 | the comprehension over the pieces; no contract of its own, characterised by `Text.CleanMembers` and `Text.CleanTrimmed` |
| Text.CleanMembers | streamlit_app.py:15 | the comprehension yields exactly the non-empty stripped pieces |
| Text.CleanTrimmed | streamlit_app.py:15 | every name the comprehension yields is non-empty and has no whitespace at either end |
| Text.Tokens | streamlit_app.py:15 | every name taken from a cell is non-empty, unpadded and comma-free |
| Text.TokensMembers | streamlit_app.py:15 | `t` is a name of the cell iff `t` is non-empty and is the strip of some comma-separated piece |
| Text.TokensEmptyIff | streamlit_app.py:15 | a cell yields no names iff it holds only whitespace and commas |
| Text.TokensConcat | streamlit_app.py:15 | the names of `a + ',' + b` are the names of `a` followed by those of `b`, in order |
| Decimal.Value | streamlit_app.py:37-38 | the number a digit string denotes, as `int()` reads an octet or a prefix length; no contract of its own, it is the inverse of `Decimal.Show` by `Decimal.ValueOfShow` and `Decimal.ShowOfValue` |
| Decimal.Show | streamlit_app.py:37-38 | `str(n)`: a non-empty digit string that starts with `0` only when `n` is zero |
| Decimal.ValueOfShow | streamlit_app.py:37-38 | reading back a printed number gives the number |
| Decimal.ShowOfValue | streamlit_app.py:37-38 | a digit string without leading zeros is the printed form of its value |
| Decimal.ShowCanonical | streamlit_app.py:37-38 | printed numbers have no leading zeros |
| Network.Mask | streamlit_app.py:37-38 | `addr & netmask`; no contract of its own, characterised by `Network.MakeNetwork`, `Network.MaskIdempotent` and `Network.ContainsIffInRange` |
| Network.Last | streamlit_app.py:45 | `broadcast_address`; no contract of its own, it bounds the range in `Network.ContainsIffInRange` |
| Network.Contains | streamlit_app.py:45 | `addr in net`; no contract of its own, characterised by `Network.ContainsIffInRange` |
| Network.Overlaps | streamlit_app.py:45 | `a.overlaps(b)`, the four-way membership test; no contract of its own, characterised by `Network.OverlapsIffIntersect` and `Network.OverlapsIffNested` |
| Network.MakeNetwork | streamlit_app.py:37-38 | `strict=False` keeps version and prefix and clears the host bits, so the given address lies inside the network built from it |
| Network.MaskIdempotent | streamlit_app.py:37-38 | masking a network's own address changes nothing |
| Network.ContainsIffInRange | streamlit_app.py:45 | an address is in a network iff it lies between the network's first and last address |
| Network.OverlapsIffIntersect | streamlit_app.py:45 | `overlaps`, the library's four-way membership test, holds iff both networks have the same version and their address ranges intersect |
| Network.OverlapsSymmetric | streamlit_app.py:45 | `c.overlaps(n)` and `n.overlaps(c)` agree, so the direction of the test in the source does not matter |
| Network.OverlapsSameVersion | streamlit_app.py:45 | an IPv4 network never overlaps an IPv6 network |
| Network.OverlapsReflexive | streamlit_app.py:45 | every network overlaps itself |
| Network.OverlapLongerPrefixWithin | streamlit_app.py:45 | when two networks overlap, the one with the longer prefix lies inside the other |
| Network.OverlapsIffNested | streamlit_app.py:45 | two networks overlap iff one contains the other |
| Ipv4.OctetsOf | streamlit_app.py:37-38 | an address cut into four values, each below 256; with `Ipv4.FromOctetsOf` and `Ipv4.OctetsOfFrom` it is the inverse of `Ipv4.FromOctets` |
| Ipv4.FromOctets | streamlit_app.py:37-38 | four octets packed into an address; no contract of its own, characterised by `Ipv4.FromOctetsOf` and `Ipv4.OctetsOfFrom` |
| Ipv4.ParseOctet | streamlit_app.py:37-38 | an accepted octet is below 256 and is written exactly as its printed form: no sign, no leading zero, at most three digits |
| Ipv4.ParseOctetShow | streamlit_app.py:37-38 | every printed value from 0 to 255 is accepted as an octet |
| Ipv4.FromOctetsOf | streamlit_app.py:37-38 | a 32-bit address survives being cut into four octets and put back together |
| Ipv4.OctetsOfFrom | streamlit_app.py:37-38 | four octets survive being packed into an address and cut apart again |
| Ipv4.AddressText | streamlit_app.py:37-38 | the dotted text of an address; no contract of its own, `Ipv4.ParseAddressIff` makes it the only text that reads as that address |
| Ipv4.AddressTextChars | streamlit_app.py:37-38 | the dotted text of an address holds only digits and dots |
| Ipv4.ParseAddress | streamlit_app.py:37-38 | a dotted quad reads as an address below 2^32 |
| Ipv4.ParseAddressText | streamlit_app.py:37-38 | printing an address and reading it back gives the address |
| Ipv4.ParseAddressCanonical | streamlit_app.py:37-38 | any text accepted as a dotted quad is the printed form of its value |
| Ipv4.ParseAddressIff | streamlit_app.py:37-38 | text reads as address `a` iff `a` is below 2^32 and the text is the printed form of `a` |
| Ipv4.TrailingZeros | streamlit_app.py:37-38 | `_count_righthand_zero_bits` never counts past the bit width |
| Ipv4.Netmask | streamlit_app.py:37-38 | the netmask of a prefix length; no contract of its own, `Ipv4.PrefixFromIntIff` makes `Ipv4.PrefixFromInt` its inverse |
| Ipv4.PrefixFromInt | streamlit_app.py:37-38 | `_prefix_from_ip_int`: any prefix length it finds is at most 32 |
| Ipv4.TrailingZerosDivide | streamlit_app.py:37-38 | the count of trailing zero bits taken from an integer divides it as a power of two |
| Ipv4.PrefixFromIntSound | streamlit_app.py:37-38 | a prefix length recovered from a mask integer is one whose netmask is that integer |
| Ipv4.PrefixFromIntComplete | streamlit_app.py:37-38 | the netmask of every prefix length from 0 to 32 gives that length back |
| Ipv4.PrefixFromIntIff | streamlit_app.py:37-38 | a mask integer gives prefix length `p` iff `p` is at most 32 and the integer is the netmask of `p` |
| Ipv4.NoNetmaskNoPrefix | streamlit_app.py:37-38 | a value that is no netmask has no prefix length |
| Ipv4.ParsePrefix | streamlit_app.py:37-38 | any accepted text after `/` gives a prefix length of at most 32 |
| Ipv4.ParsePrefixShow | streamlit_app.py:37-38 | a decimal prefix length from 0 to 32 reads as itself |
| Ipv4.ParsePrefixAddress | streamlit_app.py:37-38 | a dotted mask is tried as a netmask first and then as a hostmask, the bitwise complement |
| Ipv4.ParsePrefixDotted | streamlit_app.py:37-38 | the same netmask-then-hostmask rule for any printed address |
| Ipv4.ParsePrefixNetmask | streamlit_app.py:37-38 | the dotted netmask of `p` reads as prefix length `p` |
| Ipv4.ParsePrefixHostmask | streamlit_app.py:37-38 | the dotted hostmask of `p` reads as prefix length `p`, for `p` from 1 to 31 |
| Ipv4.HostmaskNotNetmask | streamlit_app.py:37-38 | a hostmask other than all-zeros or all-ones is never also a netmask, so the netmask reading never shadows it |
| Ipv4.HostmaskComplement | streamlit_app.py:37-38 | the bitwise complement of the hostmask of `p` is the netmask of `p` |
| Ipv4.MakeV4 | streamlit_app.py:37-38 | an IPv4 network built with `strict=False` has the given prefix and the address with its host bits cleared |
| Ipv4.ParseNetwork | streamlit_app.py:37-38 | a successful IPv4 reading is an IPv4 network |
| Ipv4.ParseAddressWithPrefix | streamlit_app.py:37-38 | `address/mask` reads iff the mask reads, and then gives the masked network |
| Ipv4.ParseHostBitsMasked | streamlit_app.py:37-38 | `a/p` reads as the network of prefix `p` that holds `a`, host bits cleared (so `10.0.0.5/24` reads as `10.0.0.0/24`) |
| Ipv4.SameBlockSameNetwork | streamlit_app.py:44 | two addresses in the same block read as the same network under the same prefix |
| Ipv4.ParseBareAddress | streamlit_app.py:37-38 | an address without `/` reads as a /32 network |
| Ipv4.ParseNetmaskForm | streamlit_app.py:37-38 | `a/<netmask of p>` reads the same as `a/p` |
| Ipv4.ParseHostmaskForm | streamlit_app.py:37-38 | `a/<hostmask of p>` reads the same as `a/p` |
| Ipv4.Format | streamlit_app.py:37-38 | `str()` of an IPv4 network; no contract of its own, `Ipv4.FormatRoundTrip` reads it back as the network |
| Ipv4.FormatRoundTrip | streamlit_app.py:37-38 | printing an IPv4 network as `address/prefix` and reading it back gives the network |
| Ipv4.ColonNeverIpv4 | streamlit_app.py:37-38 | text holding a colon never reads as an IPv4 network |
| Ipv4.ColonNeverAddress | streamlit_app.py:37-38 | text holding a colon never reads as an IPv4 address |
| IpNetwork.ParseV6 | streamlit_app.py:37-38 | an IPv6 reading needs a colon in the text and gives an IPv6 network |
| IpNetwork.Parse | streamlit_app.py:37-38 | `ip_network` gives the IPv4 reading when it yields an IPv4 network, and the IPv6 reading when it yields an IPv6 one |
| IpNetwork.ParseWithoutColon | streamlit_app.py:37-38 | text without a colon is read as IPv4 only, whatever the IPv6 reader |
| IpNetwork.ParseWithColon | streamlit_app.py:37-38 | trying IPv4 first never hides an IPv6 reading of text with a colon |
| IpNetwork.ParseV6Masks | streamlit_app.py:37-38 | an IPv6 reading keeps the reader's prefix and holds the reader's address, host bits cleared |
| Resolver.Lookup | streamlit_app.py:18-19 | a name finds nothing iff no row's Group Name equals it exactly |
| Resolver.LookupFirst | streamlit_app.py:18-22 | a lookup returns the Members of the first row so named; later rows with the same name are never read |
| Resolver.LookupSound | streamlit_app.py:18-22 | whatever a lookup finds is the Members of the first row so named |
| Resolver.Expand | streamlit_app.py:17-24 | every address one name expands to is non-empty, unpadded and comma-free |
| Resolver.ExpandAll | streamlit_app.py:17-24 | every address the loop over names yields is non-empty, unpadded and comma-free; `Resolver.ExpandAllMembers` says which |
| Resolver.Resolve | streamlit_app.py:13-26 | every resolved address is non-empty, unpadded and comma-free |
| Resolver.ResolvedIsToken | streamlit_app.py:13-26 | any one resolved address is non-empty, unpadded and comma-free |
| Resolver.BlankFieldResolvesToNothing | streamlit_app.py:15 | a cell holding only whitespace and commas resolves to the empty list |
| Resolver.ExpandAllUnknown | streamlit_app.py:19-20 | names that match no group come through unchanged and in order |
| Resolver.EmptySheetGivesTokens | streamlit_app.py:18-20 | with an empty group table a cell resolves to exactly its split, stripped, non-empty names |
| Resolver.UnknownNamePassesThrough | streamlit_app.py:19-20 | a name that matches no group is kept as the single literal address |
| Resolver.GroupNameExpands | streamlit_app.py:22-24 | a group name resolves to the names in its first row's Members; a member that names another group is not expanded again |
| Resolver.UntokenNameNeverSelected | streamlit_app.py:15-18 | a group row whose name is padded with whitespace or holds a comma can never be selected |
| Resolver.ExpandAllConcat | streamlit_app.py:17-24 | expanding two lists of names joined is expanding each in turn |
| Resolver.ResolveConcat | streamlit_app.py:13-26 | resolving `a + ',' + b` gives the addresses of `a` followed by those of `b` |
| Resolver.ExpandAllMembers | streamlit_app.py:17-24 | an address is in the expansion iff some name contributes it: the name itself when no group has that name, or a member of the first such group |
| Resolver.ResolveMembers | streamlit_app.py:13-26 | the same characterisation for a whole cell |
| Matcher.AddressReader | streamlit_app.py:37-38 | `ip_network(addr, strict=False)` on a resolved address; no contract of its own, its results are those of `IpNetwork.Parse` |
| Matcher.LineReader | streamlit_app.py:44 | `ip_network(subnet.strip(), strict=False)`; no contract of its own, characterised by `Matcher.ProgramEnvStripsLines` |
| Matcher.ProgramEnv | streamlit_app.py:33-44 | the program's readers: cells through `resolve_address_group_field`, addresses and stripped customer lines through `ip_network`; no contract of its own, characterised by `Matcher.ProgramEnvStripsLines` and `Matcher.ProgramEnvAddressesStripped` |
| Matcher.ProgramEnvStripsLines | streamlit_app.py:44 | a customer line is read exactly as its stripped text is read as an address |
| Matcher.ProgramEnvAddressesStripped | streamlit_app.py:33-38 | every address a rule resolves to is a trimmed, non-empty, comma-free name, so stripping it as line 44 strips customer lines changes nothing |
| Matcher.Addresses | streamlit_app.py:33-34 | the Source addresses followed by the Destination addresses; no contract of its own, it is the list `Matcher.RuleNetworksAll` reads |
| Matcher.RuleNetworks | streamlit_app.py:36-40 | `src_nets + dst_nets` or the skip; no contract of its own, characterised by `Matcher.RuleNetworksAll` |
| Matcher.CustomerHit | streamlit_app.py:42-49 | the customer loop's verdict; no contract of its own, characterised by `Matcher.CustomerHitIff` |
| Matcher.Hits | streamlit_app.py:36-49 | the verdict on one rule's resolved addresses; no contract of its own, characterised by `Matcher.HitsIff` |
| Matcher.Matches | streamlit_app.py:32-49 | whether the rule is appended; no contract of its own, characterised by `Matcher.MatchesIffRelevant` |
| Matcher.AnyOverlap | streamlit_app.py:45 | `any(c.overlaps(n) for n in nets)` is true iff some network in the list overlaps `c` |
| Matcher.ScanCustomers | streamlit_app.py:42-49 | the inner loop, with its `continue` and `break`, computes exactly the customer-hit verdict |
| Matcher.SelectRules | streamlit_app.py:29-51 | the outer loop, appending matching rows in turn, computes exactly `MatchRules` |
| Matcher.CustomerHitIff | streamlit_app.py:42-49 | the customer loop reports a hit iff some customer line reads as a network that overlaps one of the rule's networks |
| Matcher.UnreadableLineIgnored | streamlit_app.py:43-49 | inserting an unreadable customer line anywhere changes no verdict |
| Matcher.CustomerHitConcat | streamlit_app.py:42-47 | the verdict over two blocks of lines is the disjunction of the two verdicts, so stopping at the first hit loses nothing |
| Matcher.RuleNetworksAll | streamlit_app.py:36-40 | `src_nets + dst_nets` is every address of Source then Destination read in order; one unreadable address on either side means there are none |
| Matcher.HitsIff | streamlit_app.py:36-47 | a rule is appended iff all its addresses read and some customer line's network overlaps some address's network |
| Matcher.MatchesIffRelevant | streamlit_app.py:32-49 | the loop's verdict on a rule equals the loop-free definition of relevance |
| Matcher.UnreadableAddressDropsRule | streamlit_app.py:36-40 | one unreadable resolved address removes the rule, whatever the customer lines |
| Matcher.NoAddressesNoMatch | streamlit_app.py:45 | a rule whose two cells resolve to no address never matches |
| Matcher.NoCustomersNoMatch | streamlit_app.py:42-47 | with no customer lines no rule is selected |
| Matcher.UnreadableCustomerLineIgnored | streamlit_app.py:43-49 | the selected rules do not change when an unreadable customer line is added |
| Seqs.Filter | streamlit_app.py:30-47 | appending the kept rows to `matched_rules` in turn never lengthens the list; `Seqs.FilterMembers`, `Seqs.FilterSubsequence` and `Seqs.FilterCount` fix what it keeps |
| Matcher.MatchRules | streamlit_app.py:29-51 | the output is never longer than the input |
| Matcher.MatchRulesMembers | streamlit_app.py:29-51 | a row is in the output iff it is in the input and matches |
| Matcher.MatchRulesCount | streamlit_app.py:45-47 | a matching row appears exactly as often as in the input, because `break` appends it once per occurrence; a non-matching row never appears |
| Matcher.MatchRulesSubsequence | streamlit_app.py:32-47 | the output is the input with some rows deleted, so input order is kept |
| Matcher.MatchRulesConcat | streamlit_app.py:32-47 | selecting from two blocks of rows joined is selecting from each in turn |
| Matcher.MatchRulesIdempotent | streamlit_app.py:29-51 | selecting again from the output changes nothing |

## Left out

- The Streamlit page (lines 54-85) is not modelled: the upload widget, the text area, the table display and the CSV download are user interface.
- Where customer lines come from is not modelled: the caller's `subnet_input.strip().splitlines()` (line 70). The model takes the lines as given.
- Excel loading (lines 6-10) is not modelled. The two sheets enter as sequences of rows.
- pandas is not modelled. `DataFrame.iterrows` becomes a sequence of `Rule` rows and `pd.DataFrame(matched_rules)` becomes a sequence. Columns other than Source and Destination are carried through uninterpreted.
- Cell types are not modelled. Every cell is taken to be text already. Source, Destination and Members cells holding a number or NaN would first go through `str()` (lines 15 and 23); an empty cell, for example, becomes the name `nan`.
- Resolver.Lookup: compares Group Name cells as text. The program compares the raw cell with the name (line 18), so a Group Name cell holding a number or NaN never matches, even when its `str()` equals the name. The model assumes every Group Name cell is text.
- The IPv6 grammar is not modelled. Groups, `::` compression, embedded IPv4 tails and scope identifiers enter as the parameter `IpNetwork.V6Reader`. The model does fix three things: IPv6 text holds a colon, the reader's address and prefix are range-checked, and host bits are cleared as for IPv4.
- IPv4 octets follow the `ipaddress` module of Python 3.9.5 and later, which rejects leading zeros. Earlier versions accepted them. Passing integers, bytes or tuples to `ip_network` is not modelled, because only text reaches it here.
- Malformed addresses are handled by dropping the whole rule, as the code does. A variant that dropped only the bad address and kept the rest of the rule does not exist in this code, so it is not modelled.
