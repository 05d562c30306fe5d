# AdGuard Home: client registry, DHCP address helpers and console helpers in Dafny

This project models three small parts of AdGuard Home, a DNS-filtering server with a web console, and proves properties of the models.

- **The client registry** (`home/clients.go`) holds two kinds of entries:
  - clients the user configures, each with a name and a list of IDs (IP addresses, CIDR ranges, MAC addresses);
  - "auto-clients" discovered from /etc/hosts, ARP, DHCP, reverse DNS and WHOIS, known only by IP.

  The registry is one state record of three maps: clients by name, the owner of each ID, and auto-clients by IP. `Add`, `Del`, `Update`, `AddHost` and `SetWhoisInfo` are functions from state to state. The lookups are `Exists`, the exact-match step of `Find`, and `FindAutoClient`. Go's ID index points at client objects; here it maps an ID to its owner's name. The invariant `Clients.Valid` says the two indexes agree. Every operation preserves it, so on the states the registry can reach, the name stands for the object reference.
- **The DHCP server's helpers** (`dhcpd/helpers.go`):
  - picking an interface's IPv4 network;
  - parsing an IPv4 address;
  - validating a subnet mask. The mask's 32-bit word is a sequence of 32 bits, and the loop shifts it just as the Go code does. Lemmas tie the bit operations to `uint32` arithmetic: the word's value, the test against 0, the top-bit test and the shift modulo 2^32.
- **The console's helpers and form validators** (`client/src/helpers/helpers.js`, `client/src/helpers/form.js`). They run over a model of JavaScript values (`Js.Value`) with ECMA-262's truthiness, ToString, ToNumber, `parseInt`, `split`/`join` and string comparison, each restricted as `js.dfy` states.

Some routines come from libraries this model does not define:
- `net.ParseIP`, `net.IP.String`, `net.ParseCIDR`, `net.ParseMAC` and the DNS forwarder's upstream validation are fields of a `Net.Library` parameter;
- the console's regular expressions are fields of a `Form.Patterns` parameter;
- `formatDateTime` is a function parameter;
- the unsafe-port list is a sequence parameter.

Files:
- `results.dfy`: Option / Result / Outcome;
- `js.dfy`: JavaScript values;
- `net.dfy`: IP bytes and `To4`;
- `clients.dfy`: the registry;
- `clients_props.dfy`: lemmas about the registry;
- `dhcp.dfy`;
- `helpers.dfy`: log, percent, text area, WHOIS, search and filtering-status helpers;
- `addresses.dfy`: the interface and address helpers;
- `sort_clients.dfy`;
- `form.dfy`.

## Model

| member | source | states |
|---|---|---|
| Clients.Priority | AdGuardHome-master/home/clients.go:42-52 | every source constant lies in 0..4: WHOIS is exactly 0, the weakest, and /etc/hosts exactly 4, the strongest |
| Clients.PriorityOrder | AdGuardHome-master/home/clients.go:44-51 | the constants increase strictly in declaration order WHOIS < rDNS < DHCP < ARP < /etc/hosts, and no two sources share a value |
| Clients.Empty | AdGuardHome-master/home/clients.go:61-70 | the empty registry satisfies the registry invariant and keeps client IDs apart from auto-clients |
| Clients.NormalizeIDs | AdGuardHome-master/home/clients.go:262-280 | the ID loop succeeds exactly when every ID is an IP, CIDR or MAC; it then rewrites each IP to its canonical spelling and keeps the others; otherwise it reports the first invalid ID |
| Clients.Check | AdGuardHome-master/home/clients.go:253-290 | accepts exactly the clients with a name, at least one ID, only valid IDs and valid (or no) upstreams; it reports problems in the order name, IDs, each ID, upstreams; on success it changes only the IDs, position by position |
| Clients.FirstForeign | AdGuardHome-master/home/clients.go:309-315 | finds the first ID owned by another client; none exactly when no ID is owned by another client |
| Clients.InheritWhois | AdGuardHome-master/home/clients.go:317-326 | a new client keeps its own WHOIS info when it has some; otherwise it takes the first non-empty WHOIS info among the auto-clients of its IDs |
| Clients.Add | AdGuardHome-master/home/clients.go:294-338 | a rejected client, a taken name (false, no error) or an ID owned by another client change nothing; the ID error names one of the checked client's IDs and its owner; success happens exactly when the client is acceptable, its name is free and none of its IDs is indexed; success files the client, indexes every ID to it, keeps every other index entry, and drops exactly the auto-clients of its IDs, leaving the others as they were |
| Clients.Insert | AdGuardHome-master/home/clients.go:303-337 | for a checked client: a taken name answers false and an owned ID an error naming that ID and its owner, both changing nothing; success happens exactly when the name is free and no ID is indexed, and files the client with the inherited WHOIS information, indexes its IDs to it and drops their auto-clients |
| Clients.Del | AdGuardHome-master/home/clients.go:341-358 | true exactly when the name is filed; the client and all its IDs are removed; other clients and all auto-clients are unchanged |
| Clients.ArraysEqual | AdGuardHome-master/home/clients.go:361-371 | true exactly when the two ID lists are equal |
| Clients.Update | AdGuardHome-master/home/clients.go:374-422 | errors for a rejected client (with check's error), a missing name, or a rename onto a taken name; any error, an ID owned by another client included, changes nothing; success happens exactly when the client is acceptable, the name is filed, a new name is free, and (when the IDs change) no new ID belongs to another client; success files the normalized client under its new name only, the client names become the old ones minus the old name plus the new, every new ID is indexed to the new name, the dropped IDs leave the index, the other entries stay, and other clients and auto-clients are left alone |
| Clients.Replace | AdGuardHome-master/home/clients.go:383-421 | for a checked client: a missing name and a rename onto a taken name are errors; any error changes nothing; it passes exactly when the name is filed, a new name is free and, when the IDs change, no new ID belongs to another client, and then refiles the client |
| Clients.Reindex | AdGuardHome-master/home/clients.go:398-421 | the ID index after an update: the new IDs point at the (possibly renamed) client, the client's other old IDs are gone, every other entry is kept |
| Clients.SetWhoisInfo | AdGuardHome-master/home/clients.go:425-449 | stores the info on the client owning the IP; else on its auto-client; else on a new WHOIS-source auto-client with no hostname; nothing else changes and both invariants are kept |
| Clients.AddHost | AdGuardHome-master/home/clients.go:454-479 | refuses a client ID and an auto-client from a stronger source, changing nothing; otherwise it creates the entry, or overwrites only its source; both invariants are kept |
| Clients.AddHostCorrected | AdGuardHome-master/home/clients.go:451-453 | the documented behaviour: an accepted pair also overwrites the hostname and keeps the WHOIS info |
| Clients.Exists | AdGuardHome-master/home/clients.go:167-184 | true for any client ID; false for an unknown IP; for an auto-client, false exactly when the queried source is stronger than the stored one |
| Clients.FindExact | AdGuardHome-master/home/clients.go:187-199 | text that is not an IP finds nothing; otherwise it finds the filed client that has the IP among its IDs, exactly when the IP is indexed |
| Clients.FindAutoClient | AdGuardHome-master/home/clients.go:236-250 | finds the auto-client of an IP exactly when the text is an IP and has one |
| ClientsProps.CheckKeepsName | AdGuardHome-master/home/clients.go:253-290 | a successful check keeps the name and the upstreams |
| ClientsProps.AddKeepsValid | AdGuardHome-master/home/clients.go:294-338 | Add preserves the registry invariant, and keeps client IDs apart from auto-clients |
| ClientsProps.AddThenFind | AdGuardHome-master/home/clients.go:317-337 | after a successful Add, looking up any of the new IP IDs finds the new client and no auto-client |
| ClientsProps.UnindexAfterIndex | AdGuardHome-master/home/clients.go:332-334 | removing freshly indexed free IDs gives back the index as it was |
| ClientsProps.AddThenDel | AdGuardHome-master/home/clients.go:341-358 | deleting a client just added restores the client list and the ID index |
| ClientsProps.DelKeepsValid | AdGuardHome-master/home/clients.go:341-358 | Del preserves the registry invariant and the separation from auto-clients |
| ClientsProps.UpdateKeepsValid | AdGuardHome-master/home/clients.go:396-420 | Update preserves the registry invariant, for renames and ID changes alike |
| ClientsProps.UpdateThenFind | AdGuardHome-master/home/clients.go:405-420 | after a successful Update, every new IP ID finds the updated client |
| ClientsProps.UpdateCanOverlapAutoClient | AdGuardHome-master/home/clients.go:396-412 | unlike Add, Update does not drop auto-clients: one update leaves an IP both a client ID and an auto-client |
| ClientsProps.SetWhoisThenFind | AdGuardHome-master/home/clients.go:425-449 | after SetWhoisInfo, the client or auto-client of that IP carries the info |
| ClientsProps.AddHostVersusExists | AdGuardHome-master/home/clients.go:167-184 | an IP that does not exist for a source is accepted by AddHost, and an accepted pair exists afterwards |
| ClientsProps.ArpOutranksDhcp | AdGuardHome-master/home/clients.go:44-51 | by the declared values a DHCP name cannot replace an ARP name for an IP, and an ARP name does replace a DHCP one |
| ClientsProps.AddHostKeepsStaleHost | AdGuardHome-master/home/clients.go:465-468 | an ARP name and then an /etc/hosts name for one IP leave the ARP name in place under the hosts-file source |
| ClientsProps.AddHostCorrectedThenFind | AdGuardHome-master/home/clients.go:451-453 | with the correction, FindAutoClient afterwards returns the new hostname and source |
| ClientsProps.CheckIdempotent | AdGuardHome-master/home/clients.go:262-267 | when canonical spellings parse back, checking a checked client changes nothing |
| Net.To4 | AdGuardHome-master/dhcpd/helpers.go:34 | a 4-byte address is its own IPv4 form; a 16-byte address has one exactly when it is the 16-byte spelling of one (with To4Inverse) |
| Net.To4Inverse | AdGuardHome-master/dhcpd/helpers.go:64-67 | a 16-byte address has an IPv4 form exactly when it is the 16-byte spelling of a 4-byte address |
| Dhcp.FirstIPv4 | AdGuardHome-master/dhcpd/helpers.go:27-45 | returns the first address that has an IPv4 form, cut to 4 bytes with its mask kept; nothing exactly when no address has one |
| Dhcp.ParseIPv4 | AdGuardHome-master/dhcpd/helpers.go:59-68 | non-address text and an address without an IPv4 form are two distinct errors; success is the 4-byte form |
| Dhcp.ParseIPv4Either | AdGuardHome-master/dhcpd/helpers.go:59-68 | both spellings of an IPv4 address parse to the same 4 bytes |
| Dhcp.BigEndian32 | AdGuardHome-master/dhcpd/helpers.go:73 | bits 8k..8k+7 of the word are the bits of byte k, for each of the four bytes |
| Dhcp.BigEndianValue | AdGuardHome-master/dhcpd/helpers.go:73 | the word's value is the four bytes read in base 256, the first byte most significant |
| Dhcp.ByteBitsValue | AdGuardHome-master/dhcpd/helpers.go:73 | a byte's eight bits spell its value |
| Dhcp.IsZeroValue | AdGuardHome-master/dhcpd/helpers.go:75 | the word is all zero bits exactly when its value is 0 |
| Dhcp.TopBitValue | AdGuardHome-master/dhcpd/helpers.go:78 | the top bit is set exactly when the value is at least 2^31 |
| Dhcp.ShiftLeftValue | AdGuardHome-master/dhcpd/helpers.go:81 | shifting the bit sequence left is doubling the value modulo 2^32 |
| Dhcp.IsValidSubnetMask | AdGuardHome-master/dhcpd/helpers.go:71-84 | true exactly when the big-endian word is a run of leading 1 bits then only 0 bits; equivalently, no 1 follows a 0 |
| Dhcp.ScanMask | AdGuardHome-master/dhcpd/helpers.go:74-83 | the shift loop accepts exactly the prefix masks (loop invariants relate the shifted word to the original) |
| Dhcp.PrefixMaskIsNoOneAfterZero | AdGuardHome-master/dhcpd/helpers.go:71-84 | the two readings of a well-formed mask agree |
| Helpers.FormatAnswer | AdGuardHome-master/client/src/helpers/helpers.js:56-59 | an answer line ends with ')' and is at least as long as its fixed parts; its content is stated by the read-back rows `Helpers.AnswerTextRoundTrip` and `Helpers.NumberTtlRoundTrip` |
| Helpers.AnswerTextRoundTrip | AdGuardHome-master/client/src/helpers/helpers.js:56-59 | an answer line reads back into its type, value and TTL texts when the type has no ':' and the TTL no '=' |
| Helpers.NumberTtlRoundTrip | AdGuardHome-master/client/src/helpers/helpers.js:56-59 | every answer with a numeric TTL and a colon-free type reads back |
| Helpers.FormatAnswers | AdGuardHome-master/client/src/helpers/helpers.js:56-59 | one line per answer record, in order; none when the answer list is missing |
| Helpers.NormalizeLog | AdGuardHome-master/client/src/helpers/helpers.js:42-73 | the question's host and type become domain and type, the two snake-case fields are renamed, and the other fields pass through |
| Helpers.NormalizeLogs | AdGuardHome-master/client/src/helpers/helpers.js:42 | every entry is reshaped, in order |
| Helpers.NormalizeLogsReadBack | AdGuardHome-master/client/src/helpers/helpers.js:42-73 | each shown answer line whose type text has no ':' and whose TTL is a number reads back to its answer's type, value and TTL |
| Helpers.Round2 | AdGuardHome-master/client/src/helpers/helpers.js:146 | the result is a whole number of hundredths, within half a hundredth of the input |
| Helpers.GetPercent | AdGuardHome-master/client/src/helpers/helpers.js:144-149 | 0 unless both arguments are positive; otherwise the percentage of number in amount, to two decimals |
| Helpers.NormalizeTextarea | AdGuardHome-master/client/src/helpers/helpers.js:262 | nothing exactly for empty text; otherwise non-empty, separator-free items |
| Helpers.NormalizeTextareaKeepsText | AdGuardHome-master/client/src/helpers/helpers.js:262 | the items run together are exactly the text without its separators |
| Helpers.NormalizeTextareaRoundTrip | AdGuardHome-master/client/src/helpers/helpers.js:262 | separator-free items typed one per line read back as the same list |
| Helpers.NormalizeTextareaReadsItems | AdGuardHome-master/client/src/helpers/helpers.js:262 | items typed with any non-empty runs of separators between them, and any runs before and after, read back as exactly those items (nothing for the empty text) |
| Helpers.Decompose | AdGuardHome-master/client/src/helpers/helpers.js:262 | every text is its separator-free items interleaved with separator runs, the runs between items non-empty |
| Helpers.NormalizeTextareaIsRuns | AdGuardHome-master/client/src/helpers/helpers.js:262 | for every text, the result is exactly its maximal separator-free runs in order, or nothing for the empty text |
| Helpers.Location | AdGuardHome-master/client/src/helpers/helpers.js:331-338 | "country, city", or whichever is present; empty exactly when both are |
| Helpers.NormalizeWhois | AdGuardHome-master/client/src/helpers/helpers.js:326-350 | an empty record is returned unchanged; otherwise city and country are removed, every other key is kept, and location is added exactly when non-empty |
| Helpers.Uniq | AdGuardHome-master/client/src/helpers/helpers.js:361 | the values without repeats, holding exactly the input's values, in first-seen order (their first occurrences in the input are in increasing position) |
| Helpers.UniqDistinct | AdGuardHome-master/client/src/helpers/helpers.js:361 | a list without repeats is its own de-duplication |
| Helpers.NumberValuesSpec | AdGuardHome-master/client/src/helpers/helpers.js:362-367 | the reduce gives exactly the keys of the positions, each with its value |
| Helpers.GetParamsForClientsSearch | AdGuardHome-master/client/src/helpers/helpers.js:360-368 | keys ip0..ip(k-1), densely, over the distinct values in first-seen order |
| Helpers.SearchParamsComplete | AdGuardHome-master/client/src/helpers/helpers.js:360-368 | every value in the data is under some key, no two keys share a value, and every key's value comes from the data |
| Helpers.NormalizeFilter | AdGuardHome-master/client/src/helpers/helpers.js:113-131 | a missing name becomes "Default name", a missing rule count 0, and a falsy update time the dash; the other fields pass through |
| Helpers.NormalizeFilteringStatus | AdGuardHome-master/client/src/helpers/helpers.js:109-142 | filters are reshaped one by one, or empty when missing; user rules are joined by line breaks, or empty when not an array |
| Helpers.UserRulesRoundTrip | AdGuardHome-master/client/src/helpers/helpers.js:133 | splitting the joined user rules on line breaks gives the rules back |
| Addresses.GetInterfaceIp | AdGuardHome-master/client/src/helpers/helpers.js:153-166 | nothing for no addresses; the first address when all contain ':'; otherwise the last address without ':' |
| Addresses.GetDnsAddress | AdGuardHome-master/client/src/helpers/helpers.js:178-191 | the bare address for a falsy or standard port; otherwise "[ip]:port" for IPv6 and "ip:port" else |
| Addresses.GetWebAddress | AdGuardHome-master/client/src/helpers/helpers.js:193-206 | always starts with "http://"; no port for a falsy or standard port; brackets only when the address has ':' and no '[' |
| Addresses.BracketedReadBack | AdGuardHome-master/client/src/helpers/helpers.js:183 | "[ip]:port" splits back into ip and port |
| Addresses.PlainReadBack | AdGuardHome-master/client/src/helpers/helpers.js:185 | "ip:port" splits back into ip and port |
| Addresses.DnsAddressReadBack | AdGuardHome-master/client/src/helpers/helpers.js:178-191 | a DNS address with a written numeric port splits back into the address and a port that parseInt reads back |
| Addresses.WebAddressReadBack | AdGuardHome-master/client/src/helpers/helpers.js:193-206 | the same for a web address after "http://" |
| SortClients.InsertPos | AdGuardHome-master/client/src/helpers/helpers.js:292-303 | insertion lands after every element that does not compare greater, and before the ones that do |
| SortClients.Sort | AdGuardHome-master/client/src/helpers/helpers.js:291-306 | the result is ordered by upper-cased name, is a permutation of the list, and keeps the order of the clients whose names compare equal |
| SortClients.SortOfSorted | AdGuardHome-master/client/src/helpers/helpers.js:291-306 | sorting an ordered list changes nothing |
| SortClients.SortIdempotent | AdGuardHome-master/client/src/helpers/helpers.js:291-306 | sorting twice gives the order of sorting once |
| Form.Required | AdGuardHome-master/client/src/helpers/form.js:150-155 | valid exactly when the value is truthy or the number 0; otherwise the required token |
| Form.Ipv4 | AdGuardHome-master/client/src/helpers/form.js:157-162 | an empty value passes; an error exactly when a non-empty value fails the IPv4 pattern |
| Form.Ipv6 | AdGuardHome-master/client/src/helpers/form.js:164-169 | the same for the IPv6 pattern |
| Form.Ip | AdGuardHome-master/client/src/helpers/form.js:171-176 | an error exactly when a non-empty value fails both the IPv4 and the IPv6 pattern |
| Form.Mac | AdGuardHome-master/client/src/helpers/form.js:178-183 | the same for the MAC pattern |
| Form.Domain | AdGuardHome-master/client/src/helpers/form.js:222-227 | the same for the host pattern |
| Form.Answer | AdGuardHome-master/client/src/helpers/form.js:229-239 | an error exactly when a non-empty value fails the IPv4, IPv6 and host patterns alike |
| Form.IsPositive | AdGuardHome-master/client/src/helpers/form.js:185-190 | an error exactly when an entered value converts to a number that is not positive; a value converting to NaN passes |
| Form.BiggerOrEqualZero | AdGuardHome-master/client/src/helpers/form.js:192-197 | an error exactly when the value converts to a negative number |
| Form.Port | AdGuardHome-master/client/src/helpers/form.js:199-204 | an error exactly when an entered value converts to a number outside 80..65535 |
| Form.PortTLS | AdGuardHome-master/client/src/helpers/form.js:206-213 | the number 0 passes; otherwise an error exactly when a truthy value converts to a number outside 80..65535 |
| Form.IsSafePort | AdGuardHome-master/client/src/helpers/form.js:215-220 | an error exactly when the value is a number on the unsafe list |
| Form.IpIsEither | AdGuardHome-master/client/src/helpers/form.js:171-176 | ip accepts exactly what ipv4 or ipv6 accepts |
| Form.AnswerIsEither | AdGuardHome-master/client/src/helpers/form.js:229-239 | answer accepts exactly what ip or domain accepts |
| Form.PortTLSExtendsPort | AdGuardHome-master/client/src/helpers/form.js:199-213 | portTLS accepts what port accepts, plus 0; port rejects 0 |
| Form.PortIsPositive | AdGuardHome-master/client/src/helpers/form.js:185-204 | an accepted port is positive, and a positive value is not negative |
| Form.NumberRanges | AdGuardHome-master/client/src/helpers/form.js:185-213 | on numbers: required always passes, isPositive means n > 0, biggerOrEqualZero n >= 0, port 80..65535, portTLS 0 or 80..65535 |
| Form.TextLikeNumber | AdGuardHome-master/client/src/helpers/form.js:185-213 | a non-empty text that converts to n is judged like n (portTLS only for n other than 0) |
| Form.DecimalTextLikeNumber | AdGuardHome-master/client/src/helpers/form.js:185-213 | the decimal text of n is judged like n |
| Form.ZeroTextIsNotZero | AdGuardHome-master/client/src/helpers/form.js:206-213 | portTLS rejects the text "0" but accepts the number 0 |
| Form.SafePortExact | AdGuardHome-master/client/src/helpers/form.js:215-220 | a number is unsafe exactly when listed; its text never is |
| Form.ToNumberField | AdGuardHome-master/client/src/helpers/form.js:241 | a falsy value is returned unchanged; anything else becomes a number or NaN |
| Form.ToNumberKeeps | AdGuardHome-master/client/src/helpers/form.js:241 | every number, and the decimal text of every integer, becomes that number |
| Js.ParseInt | AdGuardHome-master/client/src/helpers/form.js:241 | `parseInt(value, 10)` gives a number or NaN, never any other kind of value |
| Js.ParseIntRoundTrip | AdGuardHome-master/client/src/helpers/form.js:241 | parseInt reads back every integer's decimal text |
| Form.ToNumberIdempotent | AdGuardHome-master/client/src/helpers/form.js:241 | normalizing twice is normalizing once |

## Left out

- Locking: the registry's mutex is not modelled. Each operation is one atomic step.
- I/O: `Init`, `periodicUpdate`, `addFromHostsFile`, `addFromSystemARP`, `addFromDHCP`, configuration reading and writing, and the web handlers are not modelled. They read files, run processes and use timers.
- Find's CIDR and MAC branches: the CIDR range and MAC address (through the DHCP server) branches of `Find` (`home/clients.go:201-230`) are not modelled. `Clients.FindExact` is the exact-match step only, so its "nothing" means "not an exact ID", not "no client".
- `Clients.Update`, `Clients.SetWhoisInfo` and `Clients.FindExact` require `Clients.Valid` of the registry. The Go code has no such check, but `Clients.Empty` establishes the invariant and every operation keeps it, so every reachable registry satisfies it.
- `Clients.Check` leaves out one side effect: the source rewrites the caller's ID slice in place. The model returns a new client, so callers holding the old slice are not modelled.
- `Clients.Update` does not drop auto-clients for its IDs. The source does not either, and `ClientsProps.UpdateCanOverlapAutoClient` records it.
- Source priority order: the comment in `home/clients.go:46` orders the sources hosts > DHCP > ARP > rDNS > WHOIS. The constants' declaration order makes ARP (3) stronger than DHCP (2). The model follows the declared values, and `ClientsProps.ArpOutranksDhcp` shows the consequence.
- `Dhcp.FirstIPv4`: the panic on a failing `iface.Addrs()` and the fatal log for a non-`IPNet` address are not modelled. The model takes the list of networks as its input.
- `Dhcp.IsValidSubnetMask` requires at least four bytes. With fewer, `binary.BigEndian.Uint32` panics.
- `isTimeout` and `wrapErrPrint` are not modelled. They deal in foreign error types and logging.
- `Helpers.GetPercent`: floating point is not modelled. Numbers are exact reals, and lodash's `round` is floor(x·100 + 0.5)/100.
- Date helpers: `formatTime`, `formatDateTime`, `normalizeHistory` and the clock are not modelled. `formatDateTime` is a parameter of `NormalizeFilteringStatus`.
- Network helpers: `checkRedirect`, `redirectToCurrentProtocol`, `getIpList`, `isVersionGreater` and the other console helpers outside the modelled list are not modelled.
- JavaScript numbers are modelled as integers plus NaN. Fractions, -0, infinities, hexadecimal and exponent notation are not modelled. Neither are the rarer Unicode space characters in trimming.
- `toUpperCase` is modelled on ASCII letters only. String comparison is by character code; JavaScript compares UTF-16 code units, which differ only outside the basic plane.
- Object key order of the results (for example `location` first in `normalizeWhois`) is not modelled. Objects are maps.
- `client/src/helpers/constants.js` is not part of this model:
  - its regular expressions are the `Form.Patterns` parameter;
  - `UNSAFE_PORTS` is a parameter of `Form.IsSafePort`;
  - the standard ports are taken as 53 (DNS) and 80 (web).
- `Helpers.NormalizeLogsReadBack`: the read-back is stated only for answers whose type text has no ':' and whose TTL is a number. With a ':' in the type the line cannot be cut back at the right place, and a non-numeric TTL text may itself contain '='.
- `SortClients.Sort`: `sortClients` sorts the array in place and returns that same array. The model returns a new sequence, so aliasing of the caller's array is not modelled.
- `Form.IsPositive`, `Form.BiggerOrEqualZero`, `Form.Port`, `Form.PortTLS`: texts with a fraction, a hexadecimal prefix or an exponent ("1.5", "0x50", "8e1") convert to NaN in this model, so these validators let them through. The console converts them to numbers, and it rejects "1.5" as a port. Such texts are out of the model's range, as the line on JavaScript numbers above says.
- The React rendering helpers of `form.js` and the components that call these helpers are not modelled.
- `Addresses.DnsAddressReadBack`, `Addresses.WebAddressReadBack`: the read-back is stated for addresses without brackets and for numeric ports. A text port containing ':' cannot be split back.

## Findings

| source | as written | input that shows it | evidently intended | confidence | as-written member | corrected member |
|---|---|---|---|---|---|---|
| AdGuardHome-master/home/clients.go:465-468 | for an IP that already has an auto-client, an accepted pair of equal or stronger source overwrites only `Source`; the new hostname is dropped | `AddHost("10.0.0.1", "laptop", ARP)` then `AddHost("10.0.0.1", "desktop", HostsFile)`: both return true, yet the auto-client keeps "laptop", now labelled as coming from /etc/hosts | the comment at lines 451-453 says an entry of equal or higher priority is overwritten: the hostname and the source both | medium, not executed | ClientsProps.AddHostKeepsStaleHost | Clients.AddHostCorrected |
