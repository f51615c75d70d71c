# IP whitelisting middleware

A Dafny model of traefik's IP whitelisting middleware (Go), as its test
suite pins it down.

- `NewIPWhitelister(whitelistStrings, useHeader)` parses a list of CIDR
  texts into an ordered list of networks with their host bits cleared.
  - A nil or empty list is refused with "no whitelists provided".
  - A list holding any text that is not a CIDR is refused with
    "parsing CIDR whitelist <nil>: invalid CIDR address: " followed by the
    first such entry.
- Per request, the middleware picks the candidate client address.
  - With `useHeader` off, it is the host of `RemoteAddr`.
  - With `useHeader` on, a non-empty `X-Forwarded-For` gives its last
    comma-separated element; failing that, a non-empty `X-Real-Ip` is used;
    failing that, the host of `RemoteAddr`.
- The candidate is parsed as an IPv4 or IPv6 address. The request goes on
  to the next handler exactly when some network holds the address.
  Otherwise the answer is 403 Forbidden.
- Every failure to find or parse an address denies.

The behaviour is taken from the middleware's test suite and from Go's `net`
package. The `net` functions the middleware relies on are modelled after
Go's: `ParseCIDR`, `ParseIP` (`parseIPv4`, `parseIPv6`, `dtoi`, `xtoi`),
`CIDRMask`, `IP.Mask`, `IPNet.Contains`, `SplitHostPort` and
`JoinHostPort`. The representation differences are listed under
"Left out".

Modules, one per file:

- `Wrappers` (`wrappers.dfy`): `Option` and `Result`.
- `Text` (`text.dfy`): digit scanning with Go's overflow bound `0xFFFFFF`,
  first and last index of a character, the last element of a
  comma-separated list, ASCII `TrimSpace`, and printing numbers.
- `IPAddr` (`ipaddr.dfy`): addresses as 4 or 16 bytes.
  - It covers Go's IPv4 and IPv6 parsers, including `::` compression and an
    embedded dotted quad.
  - It gives canonical and compressed printing, with round-trip lemmas.
- `IPNet` (`ipnet.dfy`): CIDR masks, networks, membership and `ParseCIDR`.
  - Membership is specified independently as "the first `ones` bits agree".
  - Go's byte-wise mask test is proved equal to it.
- `HostPort` (`hostport.dfy`): `SplitHostPort` and `JoinHostPort`, with all
  five error cases and an exact description of the texts that split.
- `Whitelist` (`whitelist.dfy`): construction, candidate selection, the
  decision, `ServeHTTP`, and the lemmas about them.
- `Vectors` (`vectors.dfy`): the test suite's own cases, proved about the
  model.

## Model

| member | source | states |
|---|---|---|
| Whitelist.NewIPWhitelister | middlewares/ip_whitelister_test.go:24-93 | An empty list, and only an empty list, gives "no whitelists provided". A list with a bad entry fails, naming the first bad entry. On success there is one network per entry, in input order, each the `ParseCidr` reading of its entry, and the header flag is kept. |
| Whitelist.ParseAll | middlewares/ip_whitelister_test.go:34-76 | Parsing succeeds exactly when every entry is a CIDR. A failure names the first entry that is not one, even when valid entries surround it. |
| Whitelist.ConstructionFails | middlewares/ip_whitelister_test.go:24-56 | Construction fails if and only if the list is empty or some entry is not a CIDR. The error text is the fixed prefix followed by the first bad entry. |
| Whitelist.MoreEntriesNeverDeny | middlewares/ip_whitelister_test.go:141-164 | Appending whitelist entries never turns an allowed request into a denied one. |
| Whitelist.Candidate | middlewares/ip_whitelister_test.go:292-361 | With header trust on, a non-empty `X-Forwarded-For` always yields a candidate, and that candidate holds no comma, so it is a single hop. Failing that, a non-empty `X-Real-Ip` yields one. With trust off, or both headers empty, there is a candidate exactly when the remote address splits into host and port. The order of the header cases is an assumption (see Whitelist.Candidate under Left out). |
| Whitelist.DecideAddr | middlewares/ip_whitelister_test.go:292-313 | An address text is allowed exactly when it parses and the address agrees with some network on its prefix bits. Text that is not an address is denied. |
| Whitelist.Decide | middlewares/ip_whitelister_test.go:292-361 | A request is allowed exactly when its candidate text parses to an address that agrees with some network on its prefix bits. The prefix test is stated independently of Go's `Contains`. Every other request is denied, including one without a candidate or whose candidate is not an address: fail-closed. |
| Whitelist.AdmitsIffInSomeRange | middlewares/ip_whitelister_test.go:219-253 | Trying Go's `Contains` on each network of a mixed IPv4/IPv6 list is the logical OR of the prefix tests. |
| Whitelist.HeadersIgnoredWithoutTrust | middlewares/ip_whitelister_test.go:328-337 | With header trust off, requests with the same remote address get the same decision, whatever their headers say. |
| Whitelist.ForwardedForDecides | middlewares/ip_whitelister_test.go:316-325 | With header trust on, a non-empty `X-Forwarded-For` fixes the decision whatever the remote address. That `X-Real-Ip` does not matter either follows from the assumed header order (see Whitelist.Candidate under Left out); the tests never set both headers. |
| Whitelist.RealIpDecides | middlewares/ip_whitelister_test.go:352-361 | With header trust on and no `X-Forwarded-For`, a non-empty `X-Real-Ip` decides alone. |
| Whitelist.LastHopOnly | middlewares/ip_whitelister_test.go:374-388 | With header trust on, `X-Forwarded-For: earlier,last` is decided as `last` alone; earlier hops and the remote address make no difference. That `X-Real-Ip` makes none either rests on the assumed header order (see Whitelist.Candidate under Left out). |
| Whitelist.MoreRangesNeverDeny | middlewares/ip_whitelister_test.go:197-253 | A whitelister whose networks include another's allows every request the other allows. |
| Whitelist.OrderIrrelevant | middlewares/ip_whitelister_test.go:219-253 | Reordering the networks does not change any decision. |
| Whitelist.ServeHTTP | middlewares/ip_whitelister_test.go:292-313 | An allowed request gets the next handler's response unchanged. A denied one gets 403 with the body "Forbidden", and the next handler's response is absent. |
| IPNet.ParseCidr | middlewares/ip_whitelister_test.go:58-76 | A parsed network is well formed: the prefix is at most 32 or 128 for its family, and the bits after the prefix are zero. |
| IPNet.ParseCidrOf | middlewares/ip_whitelister_test.go:58-76 | An address text, a slash and a prefix length within the address width read as that address with its host bits cleared, under that prefix length. |
| IPNet.ParseFormatCidr | middlewares/ip_whitelister_test.go:89-93 | A network with clear host bits reads back unchanged from its canonical text. |
| IPNet.ParseCidrCanonical | middlewares/ip_whitelister_test.go:58-76 | Normalisation is stable: the canonical text of a parsed network parses to the same network. |
| IPNet.ParseCompressedCidr | middlewares/ip_whitelister_test.go:60-66 | Compressed IPv6 text such as `fe80::` followed by a prefix length reads as the IPv6 network of that address. |
| IPNet.PrefixTooLong | middlewares/ip_whitelister_test.go:34-56 | A prefix length wider than the address is refused. |
| IPNet.NoSlashNoCidr | middlewares/ip_whitelister_test.go:44-56 | A text without a slash is refused; this includes `""` and `foo`. |
| IPNet.EmptyPrefixNoCidr | middlewares/ip_whitelister_test.go:34-56 | A slash with no prefix length after it is refused. |
| IPNet.CidrAddrOfParseIP | middlewares/ip_whitelister_test.go:58-66 | CIDR parsing tries IPv4 first. It still reads every address text exactly as `ParseIP` does, so `fe80::` is IPv6. |
| IPNet.MaskedBitsAll | middlewares/ip_whitelister_test.go:58-76 | Masking keeps the first `ones` bits of the address and clears all later bits. |
| IPNet.CidrMask | middlewares/ip_whitelister_test.go:62-75 | Go's `CIDRMask`: byte `k` of the mask has the prefix's ones that fall in it, in closed form. Earlier bytes are full, the boundary byte is partial, and later bytes are zero; for example 255.255.255.0 for /24. |
| IPNet.CidrMaskBit | middlewares/ip_whitelister_test.go:62-75 | Bit `i` of `CIDRMask(ones, ...)` is set exactly when `i < ones`; for example 255.255.255.0 for /24 and ffff:: for /16. |
| IPNet.Contains | middlewares/ip_whitelister_test.go:219-253 | Go's `IPNet.Contains`: only an address of the network's own family can be inside, so a mixed list tests each address against its own family. The bit-level meaning is stated by IPNet.ContainsIffInRange. |
| IPNet.ContainsIffInRange | middlewares/ip_whitelister_test.go:106-196 | Go's `IPNet.Contains`, a byte-wise test under the mask, holds exactly when the address has the network's family and agrees with it on the first `ones` bits. |
| IPNet.ContainsLoop | middlewares/ip_whitelister_test.go:106-196 | The loop with its early exit answers the prefix test. |
| IPNet.SingleAddress | middlewares/ip_whitelister_test.go:124-140 | A /32 or /128 network admits exactly its own address. |
| IPNet.MaskedInRange | middlewares/ip_whitelister_test.go:106-123 | The address a CIDR entry was written with lies in the network parsed from it. |
| IPNet.MaskedClear | middlewares/ip_whitelister_test.go:58-76 | Masking a network address whose host bits are already clear changes nothing. |
| IPNet.MaskedAgree | middlewares/ip_whitelister_test.go:106-123 | Two bytes agree under a mask byte with `r` leading ones exactly when their first `r` bits agree. |
| HostPort.SplitHostPort | middlewares/ip_whitelister_test.go:295-307 | A successful split gives a bracket-free host and a port free of colons and brackets. The text is their join, or the host in brackets followed by the port. |
| HostPort.SplitHostPortIff | middlewares/ip_whitelister_test.go:295-307 | A text splits into a host and a port exactly when the parts are clean and the text is their join or bracketed form. `1.2.3.1:2342` and `[2a03:4000:6:d080::1]:2342` are both such forms. |
| HostPort.JoinHostPort | middlewares/ip_whitelister_test.go:295-307 | Go's `JoinHostPort`: the port is what follows the last colon of the joined text. For clean parts, the text starts with `[` exactly when the host holds a colon. These are the facts `SplitHostPort` relies on to read the text back; HostPort.SplitJoin proves that it does. |
| HostPort.SplitJoin | middlewares/ip_whitelister_test.go:295-307 | Splitting undoes `JoinHostPort` for clean parts. |
| HostPort.SplitBracketedForm | middlewares/ip_whitelister_test.go:166-196 | A clean host in brackets followed by a port splits into the two. |
| IPAddr.ParseIP | middlewares/ip_whitelister_test.go:254-267 | A parsed address has 4 bytes for IPv4 and 16 for IPv6. |
| IPAddr.ParseFormat | middlewares/ip_whitelister_test.go:106-164 | The canonical text of any address parses back to that address. |
| IPAddr.ParseIPv4 | middlewares/ip_whitelister_test.go:106-140 | Go's `parseIPv4`: text it accepts starts with a digit and holds only decimal digits and dots, and gives four bytes. IPAddr.ParseFormatIPv4 proves it reads every dotted quad back. |
| IPAddr.ParseFormatIPv4 | middlewares/ip_whitelister_test.go:106-140 | A dotted quad of four bytes parses back to those bytes. |
| IPAddr.ParseIPv6 | middlewares/ip_whitelister_test.go:166-196 | Go's `parseIPv6`: a success gives sixteen bytes. What it reads is stated by IPAddr.ParseFormatIPv6, IPAddr.ParseFormatIPv6Compressed and IPAddr.ParseCompressed. |
| IPAddr.ParseFormatIPv6 | middlewares/ip_whitelister_test.go:166-182 | Eight uncompressed groups parse back to the sixteen bytes. |
| IPAddr.ParseFormatIPv6Compressed | middlewares/ip_whitelister_test.go:166-196 | Text with a run of zero groups written as `::` parses back to the sixteen bytes, whether the run is at the start, in the middle or at the end. |
| IPAddr.ParseCompressed | middlewares/ip_whitelister_test.go:198-217 | `ParseIP` reads compressed IPv6 text as the IPv6 address it denotes. |
| IPAddr.IPv4NeedsDotFirst | middlewares/ip_whitelister_test.go:58-66 | Text whose first separator is not a dot is never a dotted quad. |
| IPAddr.GroupLoop | middlewares/ip_whitelister_test.go:254-267 | The IPv6 group loop never collects more than sixteen bytes, and a `::` position it records lies within them. |
| IPAddr.Expand | middlewares/ip_whitelister_test.go:254-267 | Expansion either fills a `::` with zeros to exactly sixteen bytes or needs exactly sixteen bytes without one. |
| Text.Scan | middlewares/ip_whitelister_test.go:254-267 | Go's `dtoi` and `xtoi`: a scan reads the longest run of digits at the start of the text, and no more, and its value is the value of those digits. It succeeds exactly when that run is not empty and its value stays below Go's bound `0xFFFFFF`. Text.ScanDigits proves that printed numbers are read back. |
| Text.IndexOf | middlewares/ip_whitelister_test.go:295-307 | Go's `strings.IndexByte`: none exactly when the character is absent, otherwise the position of its first occurrence. |
| Text.LastIndexOf | middlewares/ip_whitelister_test.go:295-307 | Go's `strings.LastIndexByte`: none exactly when the character is absent, otherwise the position of its last occurrence. |
| Text.LastElement | middlewares/ip_whitelister_test.go:374-388 | The last element holds no comma and is a suffix of the list, directly after a comma or at its start. |
| Text.TrimSpace | middlewares/ip_whitelister_test.go:408-429 | Trimming removes only white space, from both ends, and leaves no white space at either end. |
| Whitelist.FirstInvalidUnique | middlewares/ip_whitelister_test.go:24-56 | A list has only one first bad entry, so the error a failed construction names is determined by the list. |
| Whitelist.ParseAllSucceeds | middlewares/ip_whitelister_test.go:58-96 | Parsing the entries succeeds exactly when every entry reads as a CIDR. |
| Whitelist.FirstInvalidLater | middlewares/ip_whitelister_test.go:34-43 | When the first entry is valid, the first bad entry of the rest is the first bad entry of the whole list. |
| Whitelist.RemoteHostDecides | middlewares/ip_whitelister_test.go:292-313 | When the headers are not consulted, a remote address `host:port` is decided by its host alone. |
| Whitelist.ForwardedHostDecides | middlewares/ip_whitelister_test.go:316-325 | With header trust on, an `X-Forwarded-For` holding one clean address is decided by that address, whatever the remote address. That `X-Real-Ip` does not matter rests on the assumed header order (see Whitelist.Candidate under Left out). |
| Whitelist.RealIpHostDecides | middlewares/ip_whitelister_test.go:352-361 | With header trust on and no `X-Forwarded-For`, an `X-Real-Ip` holding one address is decided by it, whatever the remote address. |
| Whitelist.AdmitsMonotone | middlewares/ip_whitelister_test.go:141-164 | An address held by a list of networks is held by any list containing all of them. |
| Text.TrimSpaceIdempotent | middlewares/ip_whitelister_test.go:408-429 | Trimming white space twice is the same as trimming it once. |
| Text.LastElementAfter | middlewares/ip_whitelister_test.go:374-388 | The last element of `earlier,last` is `last` when `last` has no comma, whatever the earlier hops. |
| Vectors.Checked | middlewares/ip_whitelister_test.go:292-361 | For an address the tests list, when the networks hold it and not the proxy's address, all four header checks of the handler test pass. When they do not hold it, both of its rejection checks deny. |
| Vectors.RejectedText | middlewares/ip_whitelister_test.go:254-266 | Text without a colon that is not an address is denied both as the remote host and in `X-Forwarded-For`, whatever the networks. |
| Vectors.RejectedColonText | middlewares/ip_whitelister_test.go:263 | Text with a colon that is not an address is denied both as the remote host and in `X-Forwarded-For`, whatever the networks. |
| Vectors.RejectedEmpty | middlewares/ip_whitelister_test.go:264 | An empty address is denied both as the remote host and in `X-Forwarded-For` when the networks do not hold the proxy's address. |
| Vectors.ForwardedLast | middlewares/ip_whitelister_test.go:373-388 | With header trust on, `X-Forwarded-For` with any earlier hops followed by a listed address gets that address's decision. |
| Vectors.BuildsOf | middlewares/ip_whitelister_test.go:58-96 | Entries that each read as a network build the whitelister of those networks, in order, with header trust on and off. |
| Vectors.QuadNames | middlewares/ip_whitelister_test.go:106-164 | A dotted quad printed from four byte values reads as the IPv4 address of those bytes. |
| Vectors.CompressedNames | middlewares/ip_whitelister_test.go:166-253 | Groups printed with one run of zero groups written as `::` read as the IPv6 address of those groups. |
| Vectors.FullNames | middlewares/ip_whitelister_test.go:173 | Eight printed groups joined by colons read as the IPv6 address of those groups. |
| Vectors.ContainsOctets | middlewares/ip_whitelister_test.go:106-164 | An IPv4 network of `8k` prefix bits holds an address exactly when their first `k` octets agree. |
| Vectors.ContainsGroups | middlewares/ip_whitelister_test.go:166-253 | An IPv6 network of `16k` prefix bits holds an address exactly when their first `k` groups agree. |
| Vectors.QuadCidr | middlewares/ip_whitelister_test.go:109-145 | An IPv4 entry with a whole-octet prefix reads as the network that keeps the first octets and zeroes the rest. |
| Vectors.GroupsCidr | middlewares/ip_whitelister_test.go:168-201 | An IPv6 entry with a whole-group prefix and zero groups after it reads as the network of that address. |
| Vectors.OctetsPrefix | middlewares/ip_whitelister_test.go:106-164 | The bytes of two dotted quads agree on their first `k` octets exactly when the octet values do. |
| Vectors.AdmitsTwo | middlewares/ip_whitelister_test.go:141-164 | A list of two networks holds an address exactly when one of them does. |
| Vectors.AdmitsFour | middlewares/ip_whitelister_test.go:219-253 | A list of four networks holds an address exactly when one of them does. |
| Vectors.AdmitsConcat | middlewares/ip_whitelister_test.go:219-253 | Joining two lists of networks holds an address exactly when either list does. |
| Vectors.Entry_1_2_3_4_24 | middlewares/ip_whitelister_test.go:109 | `1.2.3.4/24` reads as the network 1.2.3.0/24. |
| Vectors.Entry_8_8_8_8_32 | middlewares/ip_whitelister_test.go:127 | `8.8.8.8/32` reads as the single address 8.8.8.8. |
| Vectors.Entry_8_8_8_8_8 | middlewares/ip_whitelister_test.go:145 | `8.8.8.8/8` reads as the network 8.0.0.0/8. |
| Vectors.Entry_2a03_4000_6_d080_z_64 | middlewares/ip_whitelister_test.go:168 | `2a03:4000:6:d080::/64` reads as that /64 network. |
| Vectors.Entry_2a03_4000_6_d080_z_42_128 | middlewares/ip_whitelister_test.go:186 | `2a03:4000:6:d080::42/128` reads as that single address. |
| Vectors.Entry_fe80_z_16 | middlewares/ip_whitelister_test.go:201 | `fe80::/16` reads as the network fe80::/16. |
| Vectors.Entry_127_0_0_1_32 | middlewares/ip_whitelister_test.go:257 | `127.0.0.1/32` reads as the single address 127.0.0.1. |
| Vectors.Entry_127_0_0_1_8 | middlewares/ip_whitelister_test.go:71 | `127.0.0.1/8` reads as the network 127.0.0.0/8. |
| Vectors.Entry_1_2_3_4_32 | middlewares/ip_whitelister_test.go:376 | `1.2.3.4/32` reads as the single address 1.2.3.4. |
| Vectors.Cidr_1_2_3_0_24Holds | middlewares/ip_whitelister_test.go:106-123 | 1.2.3.0/24 holds an IPv4 address exactly when its first three octets are 1, 2, 3. |
| Vectors.Cidr_2a03_4000_6_d080_z_64Holds | middlewares/ip_whitelister_test.go:166-182 | 2a03:4000:6:d080::/64 holds an IPv6 address exactly when its first four groups are 2a03, 4000, 6, d080. |
| Vectors.NoWhitelistsCase | middlewares/ip_whitelister_test.go:25-33 | A nil or empty list fails with "no whitelists provided", with header trust on or off. |
| Vectors.EmptyEntryCase | middlewares/ip_whitelister_test.go:35-49 | A list holding an empty entry, among valid ones or alone, fails naming `""`, with the fixed error prefix. |
| Vectors.FirstBadEntry | middlewares/ip_whitelister_test.go:34-56 | When entry `i` is the first bad one, construction fails naming that entry, with header trust on or off. |
| Vectors.InvalidEntryCase | middlewares/ip_whitelister_test.go:51-56 | The list `["foo"]` fails with the error naming `foo`. |
| Vectors.MixedEntriesCase | middlewares/ip_whitelister_test.go:58-67 | `1.2.3.4/24` and `fe80::/16` build a whitelister of two networks: 1.2.3.0 with mask 255.255.255.0, and fe80:: with mask ffff::. |
| Vectors.IPv4OnlyCase | middlewares/ip_whitelister_test.go:69-78 | `127.0.0.1/8` builds one network, 127.0.0.0 with mask 255.0.0.0. |
| Vectors.IPv4Passes | middlewares/ip_whitelister_test.go:106-116 | Each listed address passes all four handler checks against `1.2.3.4/24`. |
| Vectors.IPv4Rejects | middlewares/ip_whitelister_test.go:117-122 | Each listed address is denied in both rejection checks against `1.2.3.4/24`. |
| Vectors.SingleIPv4Passes | middlewares/ip_whitelister_test.go:124-131 | 8.8.8.8 passes all four handler checks against `8.8.8.8/32`. |
| Vectors.SingleIPv4Rejects1 | middlewares/ip_whitelister_test.go:132-136 | The neighbours 8.8.8.7, 8.8.8.9, 8.8.8.0 and 8.8.8.255 are denied against `8.8.8.8/32`. |
| Vectors.SingleIPv4Rejects2 | middlewares/ip_whitelister_test.go:137-138 | 4.4.4.4 and 127.0.0.1 are denied against `8.8.8.8/32`. |
| Vectors.TwoIPv4Passes1 | middlewares/ip_whitelister_test.go:141-151 | The 1.2.3.x addresses pass against the two IPv4 networks. |
| Vectors.TwoIPv4Passes2 | middlewares/ip_whitelister_test.go:152-155 | The 8.x.x.x addresses pass against the two IPv4 networks. |
| Vectors.TwoIPv4Rejects1 | middlewares/ip_whitelister_test.go:157-161 | 1.2.16.1, 1.2.32.1, 127.0.0.1 and 4.4.4.4 are denied against the two IPv4 networks. |
| Vectors.TwoIPv4Rejects2 | middlewares/ip_whitelister_test.go:162 | 4.8.8.8 is denied against the two IPv4 networks. |
| Vectors.IPv6Passes | middlewares/ip_whitelister_test.go:165-175 | Each listed IPv6 address passes all four handler checks against `2a03:4000:6:d080::/64`. |
| Vectors.IPv6Rejects | middlewares/ip_whitelister_test.go:176-181 | Each listed IPv6 address, `fe80::` included, is denied against `2a03:4000:6:d080::/64`. |
| Vectors.SingleIPv6Passes | middlewares/ip_whitelister_test.go:183-190 | `2a03:4000:6:d080::42` passes against its /128 network. |
| Vectors.SingleIPv6Rejects | middlewares/ip_whitelister_test.go:191-195 | The other addresses of the same /64 are denied against the /128 network. |
| Vectors.TwoIPv6Passes1 | middlewares/ip_whitelister_test.go:197-207 | The 2a03:4000:6:d080 addresses pass against the two IPv6 networks. |
| Vectors.TwoIPv6Passes2 | middlewares/ip_whitelister_test.go:208-210 | `fe80::1` and `fe80::fe80` pass against the two IPv6 networks. |
| Vectors.SpelledNames | middlewares/ip_whitelister_test.go:209 | Eight hexadecimal groups joined by colons read as the IPv6 address of their values, also when a group has leading zeros such as `00bb`, because Go reads every hexadecimal digit up to the next separator. |
| Vectors.PaddedAddress | middlewares/ip_whitelister_test.go:209 | `fe80:aa00:00bb:4232:ff00:eeee:00ff:1111` reads as the address with groups fe80, aa00, bb, 4232, ff00, eeee, ff and 1111; the test writes it in brackets. |
| Vectors.TwoIPv6PassesPadded | middlewares/ip_whitelister_test.go:209 | The address with leading zeros passes all four handler checks against the two IPv6 networks. |
| Vectors.MixedPassesPadded | middlewares/ip_whitelister_test.go:232 | The address with leading zeros passes all four handler checks against the mixed list. |
| Vectors.TwoIPv6Rejects | middlewares/ip_whitelister_test.go:212-216 | The listed addresses outside both IPv6 networks are denied. |
| Vectors.MixedPasses1 | middlewares/ip_whitelister_test.go:218-230 | The 2a03:4000:6:d080 addresses pass against the mixed list. |
| Vectors.MixedPasses2 | middlewares/ip_whitelister_test.go:231-235 | `fe80::1`, `fe80::fe80`, 1.2.3.1 and 1.2.3.32 pass against the mixed list. |
| Vectors.MixedPasses3 | middlewares/ip_whitelister_test.go:236-239 | 1.2.3.156, 1.2.3.255, 8.8.4.4 and 8.0.0.1 pass against the mixed list. |
| Vectors.MixedPasses4 | middlewares/ip_whitelister_test.go:240-241 | 8.32.42.128 and 8.255.255.255 pass against the mixed list. |
| Vectors.MixedRejects1 | middlewares/ip_whitelister_test.go:243-247 | The IPv6 addresses outside both IPv6 networks, and 1.2.16.1, are denied against the mixed list. |
| Vectors.MixedRejects2 | middlewares/ip_whitelister_test.go:248-251 | 1.2.32.1, 127.0.0.1, 4.4.4.4 and 4.8.8.8 are denied against the mixed list. |
| Vectors.BrokenBuilds | middlewares/ip_whitelister_test.go:254-258 | `127.0.0.1/32` builds one network, which does not hold the proxy's address. |
| Vectors.BrokenWord | middlewares/ip_whitelister_test.go:261 | `foo` is not an address and is denied. |
| Vectors.BrokenOctet | middlewares/ip_whitelister_test.go:262 | `10.0.0.350` is not an address, because 350 exceeds a byte, and is denied. |
| Vectors.BrokenColons | middlewares/ip_whitelister_test.go:263 | `fe:::80` is not an address, because a third colon follows `::`, and is denied. |
| Vectors.BrokenEmpty | middlewares/ip_whitelister_test.go:264 | An empty address is denied. |
| Vectors.BrokenSymbols | middlewares/ip_whitelister_test.go:265 | `\&$§&/(` is not an address and is denied. |
| Vectors.LastHopPasses | middlewares/ip_whitelister_test.go:378-382 | With header trust on, forwarded lists whose last hop is 1.2.3.4 are let through, whatever the earlier hops. |
| Vectors.LastHopRejects | middlewares/ip_whitelister_test.go:383-387 | Forwarded lists whose last hop is not 1.2.3.4 are denied, even when 1.2.3.4 appears earlier. |

## Left out

- HTTP and middleware plumbing is not modelled: negroni chaining, `http.Handler`, response recorders and request construction. A request is the three strings the middleware reads. The next handler's response is a parameter of `ServeHTTP`.
- Concurrency is left out. The whitelister is immutable after construction, and decisions are pure functions.
- Go's `fmt` rendering of the nil network in the error text is not modelled. The prefix "parsing CIDR whitelist <nil>: invalid CIDR address: " is a constant.
- Whitelist.Candidate: how the header cases are ordered is an assumption the tests do not pin down. The assumed order is: a non-empty `X-Forwarded-For` first, then a non-empty `X-Real-Ip`, then the remote address. An address from a header that does not parse is denied rather than falling back to the remote address.
- Whitelist.Candidate: an address from a header is trimmed of ASCII white space only when it comes from `X-Forwarded-For`. Brackets around it are removed. Both are assumptions; the tests strip brackets themselves.
- IPNet.Contains: Go converts an IPv4-mapped IPv6 address to IPv4 (`To4`) before comparing; the model does not. An address is tested only against networks of the family its text was written in, and the tests mix families only in separate networks. A consequence: an IPv4-mapped network such as `::ffff:0:0/96` admits every IPv4 address in Go but none in the model.
- IPAddr.ParseIP: an IPv4 text gives a 4-byte address, where Go returns the 16-byte IPv4-in-IPv6 form. The model keeps the family in the address (`V4` or `V6`) instead.
- IPNet.ApplyMask: Go's `IP.Mask` also accepts a 16-byte IPv4 address with a 4-byte mask, and a 4-byte address with a 16-byte mask that starts with 96 ones, and converts between the forms. The model masks only an address and a mask of the same length. Go's `ParseCIDR` takes the second path: it masks the 16-byte form of an IPv4 address with a 4-byte mask. The model's 4-byte address meets a 4-byte mask, and the four bytes kept are the same.
- Whitelist.Forbidden: the body of a denial, "Forbidden" (Go's status text), is an assumption. The tests check only the status 403 and that the next handler's output is absent.
- IPv6 zones (`%eth0`) are not modelled. Neither is Go's printing of addresses (`IP.String`, which picks the longest zero run); the model prints canonical uncompressed text and any chosen compression instead.
- Text.TrimSpace: it removes ASCII white space only, not the other Unicode spaces Go's `strings.TrimSpace` also removes.
- Text.Scan: once the number reaches the bound, Go stops early. It reports a fixed value (`0xFFFFFF` from `dtoi`, 0 from `xtoi`) and the count of characters it consumed so far. The model reads the whole run and reports its value. Every caller rejects a failed scan, so this is not modelled.
- IPAddr.ParseIPv6: its own contract states only that a success gives sixteen bytes. What it reads is stated by the round-trip lemmas named in its row, because stating the accepted texts directly would mean restating the whole group loop.
- Text is modelled as sequences of characters, not Go's UTF-8 bytes. The rejected address `\&$§&/(` holds one character `§` where Go sees two bytes; neither form is an address.
