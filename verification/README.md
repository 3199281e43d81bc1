# NetworkScanClassLibrary in Dafny

A model of the IPv4 arithmetic and the scanning loops of NetworkScanClassLibrary, a C# library that sweeps a local network with ICMP echo requests. The model covers:

- the address validator `IsValidateIP`;
- the dotted-quad codec the library builds from `Split('.')`, `int.Parse`, `BitConverter` and `IPAddress.ToString()`;
- subnet membership (`IsSameNetwork`);
- range enumeration (`GetRangeOfAddresses`);
- the first and last addresses of the local network;
- the probe of one address (`ScanAddress`, `ScanAddressMaxTime`);
- the two scans (`ScanNetwork`, `ScanAddressesForAverageResponseTime`) and `CancelAllScanning`;
- the `InterfaceAdapterIpSettings` value type.

The helpers in `NetworkPing.cs` (lines 168-302) are copies of those in `Models/NetworkSettings.cs`, so both map onto the one model in `network_settings.dfy`.

Modules, in dependency order:

- `Decimal` (`decimal.dfy`): `ToString()` and `int.Parse` of non-negative integers, as canonical digit strings.
- `Octets` (`octets.dfy`): bytes, `uint`, four-octet addresses, their network-order value, bitwise AND, and the wrapping `byte` `++`/`--`.
- `AddressText` (`address_text.dfy`): nullable strings (`NString`), the validator as a hand-written recogniser of its regular expression, `Split`, and the codec `Parse`/`Format`.
- `InterfaceSettings` (`interface_settings.dfy`): both constructors and `Equals`.
- `NetworkSettings` (`network_settings.dfy`): `IsSameNetwork` and `GetRangeOfAddresses`. It also holds `GetFirstIpAddressInNetwork` and `GetLastIpAddressInNetwork`, which take the interface settings as an argument.
- `Probe` (`probe.dfy`): one probe. The network is a function `Network` from each echo request (address, timeout, attempt number) to its reply, so the same request always gets the same reply.
- `Sweep` (`sweep.dfy`): the two scans, their cancel flag, and the sequence of events (`Notice`s) a scan makes: each delegate invocation and each probe of an address. The moment another caller runs `CancelAllScanning` is an input: a `CancelPoint` naming the index of the first address the scan no longer probes.
- `TestCases` (`test_cases.dfy`) and `ScanCases` (`scan_cases.dfy`): the concrete cases the library's unit tests pin.

Two points where the model follows the code closely:

- **The reachability probe in a scan.** `ScanNetwork` probes each address with `ScanAddress(address, 200, 2)` (`NetworkPing.cs:109`). That call always sends both pings and averages the successful ones; nothing stops at the first reply. The model sends both pings.
- **`IsSameNetwork` on arbitrary text.** The model takes three texts of four canonical octets as a precondition. What the source does with other text is described under "## Left out".

## Model

| member | source | states |
|---|---|---|
| Decimal.Text | NetworkScanClassLibrary/NetworkPing.cs:51 | `ToString()` of a non-negative number is a canonical numeral (digits only, no leading zero), and it starts with '0' only for zero |
| Decimal.ValueOfText | NetworkScanClassLibrary/NetworkPing.cs:151 | `int.Parse` of what `ToString()` wrote gives the number back |
| Decimal.TextOfValue | NetworkScanClassLibrary/Models/NetworkSettings.cs:83-84 | every canonical numeral is the `ToString()` of its value, so parsing and re-printing an octet loses nothing |
| Decimal.TextInjective | NetworkScanClassLibrary/NetworkPing.cs:51 | two numbers print the same exactly when they are equal |
| AddressText.Split | NetworkScanClassLibrary/Models/NetworkSettings.cs:51-53 | `Split('.')` yields at least one piece, and no piece contains a dot |
| AddressText.SplitCount | NetworkScanClassLibrary/Models/NetworkSettings.cs:51-53 | `Split('.')` yields one more piece than the text has dots |
| AddressText.JoinSplit | NetworkScanClassLibrary/Models/NetworkSettings.cs:51-53 | joining the pieces with dots restores the text, so splitting loses nothing |
| AddressText.SplitDotted | NetworkScanClassLibrary/Models/NetworkSettings.cs:83-84 | splitting four dot-free pieces joined with dots gives the four pieces back |
| AddressText.IsValidateIPRejectsEmpty | NetworkScanClassLibrary/Models/NetworkSettings.cs:26-30 | null and the empty string are rejected before the pattern is tried |
| AddressText.IsValidateIPIffFirstOctet | NetworkScanClassLibrary/Models/NetworkSettings.cs:20-34 | the validator accepts exactly the non-null texts of four canonical octets (0..255, no leading zero) joined by dots whose first octet is not 0 |
| AddressText.OctetPatternIsByteText | NetworkScanClassLibrary/Models/NetworkSettings.cs:23 | the octet alternative of the pattern matches exactly the canonical numerals of 0..255; the leading-octet alternative matches exactly those of 1..255 |
| AddressText.TextIsOctetPattern | NetworkScanClassLibrary/Models/NetworkSettings.cs:23 | the text of every byte matches the octet alternative, and matches the leading alternative iff the byte is nonzero |
| AddressText.ValidIsDottedQuad | NetworkScanClassLibrary/Models/NetworkSettings.cs:28-33 | every text the validator accepts is non-null and is four canonical octets joined by dots |
| AddressText.OctetOf | NetworkScanClassLibrary/Models/NetworkSettings.cs:83 | `int.Parse` of a text matching the octet pattern is the byte whose text it is |
| AddressText.Parse | NetworkScanClassLibrary/Models/NetworkSettings.cs:83-84 | octet i of the parsed address is the number whose decimal text is piece i of `Split('.')` |
| AddressText.Format | NetworkScanClassLibrary/Models/NetworkSettings.cs:95-96 | `IPAddress.ToString()` splits at its dots into exactly the decimal texts of the four octets, first to last |
| AddressText.ParseFormat | NetworkScanClassLibrary/Models/NetworkSettings.cs:83-96 | `IPAddress.ToString()` of any address is a dotted quad, and parsing it gives the same four octets |
| AddressText.FormatParse | NetworkScanClassLibrary/Models/NetworkSettings.cs:83-96 | for every dotted-quad text t, formatting the parsed octets gives t again |
| AddressText.FormatIsValid | NetworkScanClassLibrary/Models/NetworkSettings.cs:20-34 | the text of an address passes `IsValidateIP` exactly when its first octet is nonzero |
| AddressText.AddressValueInjective | NetworkScanClassLibrary/Models/NetworkSettings.cs:87-90 | two dotted quads have the same network-order `uint` exactly when they are the same text |
| AddressText.ValidAddressValue | NetworkScanClassLibrary/Models/NetworkSettings.cs:87-90 | a valid address has a value of at least 2^24, since its first octet is at least 1 |
| Octets.AndByte | NetworkScanClassLibrary/Models/NetworkSettings.cs:55-56 | `(byte)(a & m)` is at most both operands |
| Octets.Inc | NetworkScanClassLibrary/Models/NetworkSettings.cs:120 | the `byte` `++` adds one below 255 and gives 0 exactly when the byte was 255 |
| Octets.Dec | NetworkScanClassLibrary/Models/NetworkSettings.cs:145 | the `byte` `--` subtracts one above 0 and gives 255 exactly when the byte was 0 |
| Octets.ToU32 | NetworkScanClassLibrary/Models/NetworkSettings.cs:87-90 | the network-order value has the first octet as its top byte and the last octet as its low byte |
| Octets.FromU32 | NetworkScanClassLibrary/Models/NetworkSettings.cs:95-96 | the four bytes taken from a `uint`, most significant first, are the address whose value is that `uint` |
| Octets.FromToU32 | NetworkScanClassLibrary/Models/NetworkSettings.cs:87-96 | converting an address to its `uint` and back gives the same address |
| Octets.ToU32Injective | NetworkScanClassLibrary/Models/NetworkSettings.cs:87-90 | distinct addresses have distinct values |
| Octets.MaskQuad | NetworkScanClassLibrary/Models/NetworkSettings.cs:55-56 | each octet of the masked address is the `byte` AND of the address octet and mask octet |
| Octets.MaskQuadIsWordAnd | NetworkScanClassLibrary/Models/NetworkSettings.cs:49-63 | masking octet by octet equals the 32-bit AND of the address value with the mask value |
| Octets.AndAbsorb | NetworkScanClassLibrary/Models/NetworkSettings.cs:55-56 | masking an already masked value with the same mask changes nothing |
| Octets.AndAllOnes | NetworkScanClassLibrary/Models/NetworkSettings.cs:55-56 | a mask octet of 255 keeps the address octet |
| InterfaceSettings.DefaultSettings | NetworkScanClassLibrary/InterfaceAdapterIpSettings.cs:13-17 | the parameterless constructor gives address "127.0.0.1" and mask "255.0.0.0" |
| InterfaceSettings.LoopbackAddressValid | NetworkScanClassLibrary/InterfaceAdapterIpSettings.cs:15 | the default address passes the validator |
| InterfaceSettings.LoopbackMaskValid | NetworkScanClassLibrary/InterfaceAdapterIpSettings.cs:16 | the default mask passes the validator |
| InterfaceSettings.NewSettings | NetworkScanClassLibrary/InterfaceAdapterIpSettings.cs:18-22 | the two-argument constructor stores both strings unchanged, null included |
| InterfaceSettings.Equals | NetworkScanClassLibrary/InterfaceAdapterIpSettings.cs:24-31 | `Equals` is true exactly when the other object is a settings value with the same address string and the same mask string |
| InterfaceSettings.EqualsNullOrOtherType | NetworkScanClassLibrary/InterfaceAdapterIpSettings.cs:26-28 | `Equals` against null or an object of another class is false |
| InterfaceSettings.EqualsReflexive | NetworkScanClassLibrary/InterfaceAdapterIpSettings.cs:29-30 | every settings value equals itself |
| InterfaceSettings.EqualsSymmetric | NetworkScanClassLibrary/InterfaceAdapterIpSettings.cs:29-30 | a equals b exactly when b equals a |
| InterfaceSettings.EqualsTransitive | NetworkScanClassLibrary/InterfaceAdapterIpSettings.cs:29-30 | if a equals b and b equals c, then a equals c |
| InterfaceSettings.ConstructorsAgree | NetworkScanClassLibrary/InterfaceAdapterIpSettings.cs:13-22 | the two-argument constructor given the loopback strings equals the default; one given other settings does not |
| NetworkSettings.SameFrom | NetworkScanClassLibrary/Models/NetworkSettings.cs:49-63 | the comparison loop from octet i returns true exactly when every remaining octet pair agrees under the mask |
| NetworkSettings.IsSameNetwork | NetworkScanClassLibrary/Models/NetworkSettings.cs:43-64 | true exactly when both addresses masked octet by octet with the subnet give the same four octets |
| NetworkSettings.IsSameNetworkIsWordMask | NetworkScanClassLibrary/Models/NetworkSettings.cs:43-64 | the same test on 32-bit values: `start & mask == end & mask` |
| NetworkSettings.IsSameNetworkReflexive | NetworkScanClassLibrary/Models/NetworkSettings.cs:49-63 | every address is in its own network |
| NetworkSettings.IsSameNetworkSymmetric | NetworkScanClassLibrary/Models/NetworkSettings.cs:49-63 | swapping start and end does not change the answer |
| NetworkSettings.IsSameNetworkTransitive | NetworkScanClassLibrary/Models/NetworkSettings.cs:49-63 | under one mask, being in the same network is transitive |
| NetworkSettings.GetRangeOfAddresses | NetworkScanClassLibrary/Models/NetworkSettings.cs:72-103 | the range is empty when either bound is invalid or start > end, and otherwise has end - start + 1 addresses |
| NetworkSettings.GetRangeElements | NetworkScanClassLibrary/Models/NetworkSettings.cs:91-98 | element k of the range passes the validator and is the text of start + k |
| NetworkSettings.RangeElement | NetworkScanClassLibrary/Models/NetworkSettings.cs:93-96 | each listed address is a valid dotted quad whose value is its position's number |
| NetworkSettings.GetRangeEnds | NetworkScanClassLibrary/Models/NetworkSettings.cs:91-98 | a non-empty range starts with the start text and ends with the end text |
| NetworkSettings.GetRangeAscending | NetworkScanClassLibrary/Models/NetworkSettings.cs:93-98 | the range is strictly ascending by value, hence free of duplicates |
| NetworkSettings.FormatValue | NetworkScanClassLibrary/Models/NetworkSettings.cs:95-96 | the text of any value at least 2^24 is a valid address with that value |
| NetworkSettings.IncU32 | NetworkScanClassLibrary/Models/NetworkSettings.cs:93 | the `uint` `i++` adds one below 2^32 - 1 and wraps to 0 at 2^32 - 1 |
| NetworkSettings.CountUp | NetworkScanClassLibrary/Models/NetworkSettings.cs:93-97 | the loop as written only appends to the list it starts with, and it runs out of iterations only while its guard `i <= end` still holds |
| NetworkSettings.GetRangeOfAddressesAsWritten | NetworkScanClassLibrary/Models/NetworkSettings.cs:72-103 | an invalid bound gives the empty list at once; the method can fail to return only for two valid bounds with start <= end |
| NetworkSettings.CountUpAgrees | NetworkScanClassLibrary/Models/NetworkSettings.cs:93-97 | while the end is below 2^32 - 1, the loop as written stops and appends exactly the addresses from i to the end |
| NetworkSettings.CountUpStep | NetworkScanClassLibrary/Models/NetworkSettings.cs:93-96 | one iteration of the loop as written appends the first address of the remaining range |
| NetworkSettings.RangeCons | NetworkScanClassLibrary/Models/NetworkSettings.cs:93-96 | a non-empty range is its first address followed by the range from the next value |
| NetworkSettings.AsWrittenAgrees | NetworkScanClassLibrary/Models/NetworkSettings.cs:72-103 | for every end bound other than 255.255.255.255, the method as written returns exactly `GetRangeOfAddresses` |
| NetworkSettings.CountUpNeverEnds | NetworkScanClassLibrary/Models/NetworkSettings.cs:93 | with end 2^32 - 1 the loop as written never stops, however many iterations it is given |
| NetworkSettings.LastAddressValue | NetworkScanClassLibrary/Models/NetworkSettings.cs:23 | "255.255.255.255" passes the validator and has value 2^32 - 1 |
| NetworkSettings.LastAddressHangs | NetworkScanClassLibrary/Models/NetworkSettings.cs:76-97 | with a valid start and end "255.255.255.255" the method as written does not return, while the corrected range has 2^32 - start addresses and ends with "255.255.255.255" |
| NetworkSettings.FirstQuad | NetworkScanClassLibrary/Models/NetworkSettings.cs:114-120 | the first three octets are address AND mask, and the last is address AND mask incremented as a byte |
| NetworkSettings.GetFirstIpAddressInNetwork | NetworkScanClassLibrary/Models/NetworkSettings.cs:105-124 | "127.0.0.1" is returned unchanged; any other address gives a dotted quad whose octets are the masked address with the last octet incremented mod 256 |
| NetworkSettings.FillOctet | NetworkScanClassLibrary/Models/NetworkSettings.cs:139-143 | each octet of the last address is either 255 or address AND mask |
| NetworkSettings.FillOctetByMask | NetworkScanClassLibrary/Models/NetworkSettings.cs:139-143 | the octet is 255 exactly where the mask octet is 0, and otherwise address AND mask, even when that is 0 |
| NetworkSettings.LastQuad | NetworkScanClassLibrary/Models/NetworkSettings.cs:135-145 | every octet follows the fill rule, and the last octet is then decremented as a byte |
| NetworkSettings.GetLastIpAddressInNetwork | NetworkScanClassLibrary/Models/NetworkSettings.cs:126-149 | "127.0.0.1" gives the literal "127.255.255.254"; any other address gives the dotted quad of the fill rule with the last octet decremented mod 256 |
| NetworkSettings.LoopbackFirstAgrees | NetworkScanClassLibrary/Models/NetworkSettings.cs:108-123 | for the loopback address the shortcut answer equals what the arithmetic would give for 127.0.0.1/255.0.0.0 |
| NetworkSettings.LoopbackLastAgrees | NetworkScanClassLibrary/Models/NetworkSettings.cs:129-148 | the literal "127.255.255.254" equals what the arithmetic would give for 127.0.0.1/255.0.0.0 |
| NetworkSettings.LoopbackMasks | NetworkScanClassLibrary/Models/NetworkSettings.cs:114-145 | the arithmetic on 127.0.0.1/255.0.0.0 gives 127.0.0.1 and 127.255.255.254 |
| NetworkSettings.LoopbackBoundsOrdered | NetworkScanClassLibrary/Models/NetworkSettings.cs:123-148 | the loopback first address comes before the loopback last address |
| NetworkSettings.BoundsInOwnNetwork | NetworkScanClassLibrary/Models/NetworkSettings.cs:105-149 | when the last mask octet is 0, the first and last addresses are both in the interface's own network |
| NetworkSettings.FillMasked | NetworkScanClassLibrary/Models/NetworkSettings.cs:139-143 | a filled octet masked again gives the network octet |
| NetworkSettings.FirstNotAfterLast | NetworkScanClassLibrary/Models/NetworkSettings.cs:105-149 | when the last mask octet is 0, the first address comes strictly before the last |
| Probe.Requests | NetworkScanClassLibrary/NetworkPing.cs:33-35 | a probe sends exactly numberOfPings echo requests (none when it is not positive), the i-th for attempt i to the same address and timeout |
| Probe.SuccessTimes | NetworkScanClassLibrary/NetworkPing.cs:33-40 | at most one time is kept per reply |
| Probe.SuccessTimesMembers | NetworkScanClassLibrary/NetworkPing.cs:33-40 | the kept times are empty iff no reply succeeded; every successful reply's time is kept, and every kept time comes from a successful reply |
| Probe.SuccessTimesAppend | NetworkScanClassLibrary/NetworkPing.cs:33-40 | the times kept from two batches of replies are those of the first batch followed by those of the second |
| Probe.SuccessTimesInOrder | NetworkScanClassLibrary/NetworkPing.cs:33-40 | the kept times are, in order, the round-trip times of exactly the successful replies: one per successful reply, listed by strictly increasing reply index |
| Probe.SuccessCount | NetworkScanClassLibrary/NetworkPing.cs:33-49 | the number of kept times, which divides the total, is the number of successful replies |
| Probe.MaxTime | NetworkScanClassLibrary/NetworkPing.cs:44-48 | the running maximum is at least every time and, for a non-empty list, is one of them |
| Probe.Accumulate | NetworkScanClassLibrary/NetworkPing.cs:43-49 | the loop, walking the times first to last, leaves `totalTime` the sum of the times; its `maxTime` bounds every time, is one of them, and is 0 for no times |
| Probe.ProbeAddress | NetworkScanClassLibrary/NetworkPing.cs:28-55 | for a timeout `SendPingAsync` accepts (non-negative whenever a ping is sent): an invalid address is reported as such; otherwise the outcome is a timeout iff no reply succeeded, and otherwise the floor of the mean of the successful times with their maximum, the mean never above the maximum |
| Probe.FloorAverage | NetworkScanClassLibrary/NetworkPing.cs:50 | the integer `totalTime / count` brackets the mean, and is at most any bound on the times |
| Probe.TimeoutIffNoSuccess | NetworkScanClassLibrary/NetworkPing.cs:33-41 | for a valid address, the probe fails exactly when every echo request it sends gets an unsuccessful reply |
| Probe.ScanAddress | NetworkScanClassLibrary/NetworkPing.cs:28-55 | for a timeout `SendPingAsync` accepts: "Failed" exactly when the probe has no average; otherwise the canonical decimal text of the average |
| Probe.ScanAddressMaxTime | NetworkScanClassLibrary/NetworkPing.cs:57-84 | for a timeout `SendPingAsync` accepts: ("Failed", null) exactly when the probe has no average; otherwise the decimal texts of the average and the maximum |
| Probe.MaxTimeAverageAgrees | NetworkScanClassLibrary/NetworkPing.cs:28-84 | the first component of `ScanAddressMaxTime` is what `ScanAddress` returns |
| Probe.AverageAtMostMax | NetworkScanClassLibrary/NetworkPing.cs:72-80 | when `ScanAddressMaxTime` reports times, the average is at most the maximum |
| Probe.InvalidAddressFails | NetworkScanClassLibrary/NetworkPing.cs:28-84 | an address the validator rejects gives "Failed" and ("Failed", null), whatever the network does |
| Probe.NoPingsFails | NetworkScanClassLibrary/NetworkPing.cs:33-54 | a probe with numberOfPings at most 0 gives "Failed" |
| Probe.ProbeDependsOnlyOnRequests | NetworkScanClassLibrary/NetworkPing.cs:33-40 | two networks that answer the probe's own requests alike give the same outcome |
| Probe.LastAttemptCounts | NetworkScanClassLibrary/NetworkPing.cs:33-41 | there is no early exit: a success on the last attempt alone is enough for a time |
| Sweep.CancelAllScanning | NetworkScanClassLibrary/NetworkPing.cs:253-256 | sets the cancel flag and changes nothing else |
| Sweep.ScanTimeoutsAccepted | NetworkScanClassLibrary/NetworkPing.cs:109 | the scans' probes, with 200 ms and 2 pings or the defaults 500 ms and 8 pings, always pass a timeout `SendPingAsync` accepts |
| Sweep.Processed | NetworkScanClassLibrary/NetworkPing.cs:103-105 | a scan probes at most all of its addresses |
| Sweep.ProcessedBeforeCancel | NetworkScanClassLibrary/NetworkPing.cs:103-105 | an address is processed exactly when the flag was not yet set when the loop reached it |
| Sweep.ScanRange | NetworkScanClassLibrary/NetworkPing.cs:102-119 | the loop keeps exactly the answering addresses of the processed prefix, makes that prefix's delegate calls and probes in the source's order, and leaves the flag set iff it skipped addresses |
| Sweep.ScanNetwork | NetworkScanClassLibrary/NetworkPing.cs:93-123 | the flag is reset; rejected input gives no result and no delegate call; otherwise the result and the delegate calls are those of the range's processed prefix |
| Sweep.AverageOf | NetworkScanClassLibrary/NetworkPing.cs:148-156 | an entry is -1 exactly when `ScanAddress` with the defaults fails, and otherwise the parsed average |
| Sweep.AverageEach | NetworkScanClassLibrary/NetworkPing.cs:144-158 | one entry per processed address, in input order |
| Sweep.ScanAddressesForAverageResponseTime | NetworkScanClassLibrary/NetworkPing.cs:130-161 | any invalid address gives an empty list before any probe; otherwise one average per processed address, in order |
| Sweep.AveragesElements | NetworkScanClassLibrary/NetworkPing.cs:144-158 | entry i of the result is the average of address i |
| Sweep.ReachedMembers | NetworkScanClassLibrary/NetworkPing.cs:103-111 | an address is reported exactly when it is scanned and its probe does not fail |
| Sweep.ReachedSubset | NetworkScanClassLibrary/NetworkPing.cs:103-111 | every reported address was scanned and answers |
| Sweep.ReachedPrefix | NetworkScanClassLibrary/NetworkPing.cs:103-111 | scanning a prefix reports a prefix of what the whole scan reports |
| Sweep.ReachedIncreasing | NetworkScanClassLibrary/NetworkPing.cs:103-111 | the reported addresses keep the scanned order |
| Sweep.NoticesForDelivered | NetworkScanClassLibrary/NetworkPing.cs:107-116 | for one address, the probe always happens, a set progress delegate is handed the address, and a set found delegate is handed it only when it answers |
| Sweep.NoticesForOrder | NetworkScanClassLibrary/NetworkPing.cs:107-116 | for one address, the progress delegate (when set) is called before the probe, and after the probe come only found-delegate calls, made only when the address answered |
| Sweep.NoticesDelivered | NetworkScanClassLibrary/NetworkPing.cs:103-118 | every processed address is probed, in order; a set progress delegate sees every processed address in order; a set found delegate, sync or async, sees exactly the result, in order |
| Sweep.CancelledScanIsPrefix | NetworkScanClassLibrary/NetworkPing.cs:95-158 | a cancelled scan's result is a prefix of the uncancelled scan's result, for both scans |
| Sweep.RangeIncreasing | NetworkScanClassLibrary/NetworkPing.cs:241-245 | the range a scan walks is strictly ascending by value |
| Sweep.ScanNetworkReports | NetworkScanClassLibrary/NetworkPing.cs:98-122 | every found address is in the range, answers and is a dotted quad, and the found list is strictly ascending |
| TestCases.ValidAddressAccepted | NetworkScanUnitTest/NetworkSettingsTest.cs:16-18 | "192.168.1.1" passes the validator |
| TestCases.LongOctetRejected | NetworkScanUnitTest/NetworkSettingsTest.cs:25-27 | "192.168.1.1444" fails the validator |
| TestCases.LargeOctetRejected | NetworkScanUnitTest/NetworkPingTest.cs:140-148 | "192.168.1.256" fails the validator |
| TestCases.ShortAddressRejected | NetworkScanUnitTest/NetworkPingTest.cs:31-35 | "192.168" fails the validator |
| TestCases.LeadingZeroRejected | NetworkScanClassLibrary/Models/NetworkSettings.cs:23 | a leading zero in an octet, and a first octet of 0, fail the validator |
| TestCases.SameNetworkExample | NetworkScanUnitTest/NetworkSettingsTest.cs:36-40 | 192.168.14.200 and 192.168.14.220 are in the same network under 255.255.255.0 |
| TestCases.DifferentNetworkExample | NetworkScanUnitTest/NetworkSettingsTest.cs:47-51 | 192.168.11.200 and 192.168.14.220 are not |
| TestCases.DescendingRangeEmpty | NetworkScanUnitTest/NetworkSettingsTest.cs:70-73 | the range from 192.168.1.220 down to 192.168.1.200 is empty |
| TestCases.RangeAcrossOctetExample | NetworkScanUnitTest/NetworkSettingsTest.cs:60-63 | the range from 192.168.0.200 to 192.168.1.255 has 312 addresses and carries from 192.168.0.255 to 192.168.1.0 |
| TestCases.ClassCFirst | NetworkScanUnitTest/NetworkSettingsTest.cs:82-111 | 192.168.1.12/255.255.255.0 has first address 192.168.1.1 |
| TestCases.ClassCLast | NetworkScanUnitTest/NetworkSettingsTest.cs:82-124 | 192.168.1.12/255.255.255.0 has last address 192.168.1.254 |
| TestCases.ClassBFirst | NetworkScanUnitTest/NetworkPingTest.cs:223-252 | 10.0.169.53/255.255.0.0 has first address 10.0.0.1 |
| TestCases.ClassBLast | NetworkScanUnitTest/NetworkPingTest.cs:223-265 | 10.0.169.53/255.255.0.0 has last address 10.0.255.254 |
| TestCases.MaskedZeroStaysZero | NetworkScanClassLibrary/Models/NetworkSettings.cs:139-145 | under 255.255.240.0, a masked octet of 0 with a nonzero mask octet stays 0: 10.0.8.1 gives last address 10.0.0.254 |
| TestCases.NonAlignedLastQuad | NetworkScanClassLibrary/Models/NetworkSettings.cs:139-145 | the same case on octets |
| TestCases.FirstOctetWraps | NetworkScanClassLibrary/Models/NetworkSettings.cs:120 | with a full mask, 10.0.0.255 has first address 10.0.0.0, because the byte increment wraps |
| TestCases.LastOctetWraps | NetworkScanClassLibrary/Models/NetworkSettings.cs:145 | with a full mask, 10.0.0.0 has last address 10.0.0.255, because the byte decrement wraps |
| ScanCases.ThreeRepliesTimes | NetworkScanClassLibrary/NetworkPing.cs:33-40 | of eight pings where the second, fourth and sixth succeed in 10, 20 and 30 ms, exactly those three times are kept, in order |
| ScanCases.AverageOfThreeReplies | NetworkScanClassLibrary/NetworkPing.cs:41-50 | for any valid address, those replies give the average 20 and the maximum 30 |
| ScanCases.AverageOfThreeRepliesText | NetworkScanClassLibrary/NetworkPing.cs:70-80 | for any valid address, `ScanAddressMaxTime` then returns ("20", "30") |
| ScanCases.SilentProbeFails | NetworkScanUnitTest/NetworkPingTest.cs:17-24 | on a network where no request succeeds, every probe with an accepted timeout gives "Failed" |
| ScanCases.SilentScanFindsNothing | NetworkScanUnitTest/NetworkPingTest.cs:53-63 | on that network a scan finds no address |
| ScanCases.SilentAveragesAreTimeouts | NetworkScanUnitTest/NetworkPingTest.cs:117-133 | on that network every average is -1 |

## Left out

- Interface enumeration (`GetLocalIpAddressAndSubnet`, `GetInterfaceAdapterConnectedStatus`, `GetSubnetAddressOfNetwork`, `InterfaceTypeIsEthernetOrWireless`, `InterfaceIsOperationalAndHadGatewayAssigned`, `NetworkSettings.cs:151-199` and `NetworkPing.cs:304-352`): operating-system I/O. The first and last address functions take the settings value it would return as an argument.
- `Ping.SendPingAsync` (ICMP): replaced by the `Network` function from echo request to reply. The function always answers, so the transport's own failures (`PingException`, raised when sending or receiving the ICMP messages fails) are not reproduced. Because a request is named by its address, timeout and attempt number, the model assumes the same request always gets the same reply. Two probes of one address within a scan are not distinguished.
- `async`/`await`, multicast delegates and cross-thread visibility of `cancelFlag`: concurrency. A scan is a sequential loop. Its delegate calls are a list of `Notice`s, and another caller's `CancelAllScanning` is the `CancelPoint` input. A cancel after the last address does not change the flag in the model.
- The .NET regular-expression engine: `IsValidateIP` is a hand-written recogniser of its pattern. .NET's `$` also matches before one final "\n", so the source accepts "192.168.1.1\n"; the model rejects it.
- `GetHashCode` (`InterfaceAdapterIpSettings.cs:33-36`): it hashes by reference, which is inconsistent with `Equals`. It is not modelled.
- `INetworkPing.cs` and `ScanResponse.cs`: declarations only. `ScanResponse`'s status is the shape of the `Probe.ScanResponse` outcome.
- Unit tests that depend on a live network or the host's configuration (8.8.8.8, reachable 192.168.1.x hosts, the machine's own address): the model keeps only the arithmetic those tests pin.
- `BitConverter` byte order: the `Array.Reverse` before `BitConverter.ToUInt32` assumes a little-endian host. The model uses the intended network (big-endian) order.
- NetworkSettings.IsSameNetwork: requires three texts of four canonical octets, and says nothing about other text. The source's loop (`NetworkSettings.cs:49-61`) parses octet i of all three texts and returns false at the first octet whose masked values differ, so later pieces are never read: ("10.x", "11.0.0.0", "255.0.0.0") gives false. `int.Parse` also accepts texts such as "01", " 1", "+1" and "-1", and the `(byte)` cast keeps the low eight bits, so "-1" reads as 255 and "256" as 0. Pieces after the fourth are never read. The source throws when any of the three texts is null (`NullReferenceException` from `Split` at `NetworkSettings.cs:51-53`). It also throws when, before any masked difference, it reaches a missing piece (`IndexOutOfRangeException`), a non-number (`FormatException`), or a numeral outside `int`'s range (`OverflowException` from `int.Parse` at `NetworkSettings.cs:51-53`): ("10.0.0.1", "10.0.0.99999999999", "255.255.255.255") throws.
- NetworkSettings.GetFirstIpAddressInNetwork: requires a well-formed address and mask unless the address is "127.0.0.1", for the same reason. The real settings come from the operating system and are always well formed.
- NetworkSettings.GetLastIpAddressInNetwork: the same requirement as `GetFirstIpAddressInNetwork`.
- Probe.ProbeAddress: requires `PingsAccepted`, a non-negative timeout whenever a ping is sent (a valid address and at least one ping). For a negative timeout `SendPingAsync` (`NetworkPing.cs:35`) throws `ArgumentOutOfRangeException`; the model does not reproduce that exception. The scans always pass 200 or 500, so they are unaffected.
- Probe.ScanAddress: the same requirement and the same exception as `Probe.ProbeAddress` (`NetworkPing.cs:35`).
- Probe.ScanAddressMaxTime: the same requirement; its `SendPingAsync` call is at `NetworkPing.cs:64`.
- ScanCases.SilentProbeFails: holds only for timeouts `PingsAccepted` allows, because a negative timeout throws before any reply is seen.
- Probe.ProbeAddress: round-trip times and their sum are unbounded naturals. The source adds them in a `long`, which no realistic number of replies can overflow, so the wrap-around is not modelled.
- Sweep.ScanNetwork: with the end "255.255.255.255" the source never returns normally (it runs until memory is exhausted). Its call of `GetRangeOfAddresses` (`NetworkPing.cs:102`, whose loop is at `NetworkPing.cs:241`) does not return; the scan loop at `NetworkPing.cs:103` never starts, so no address is probed and no delegate is called; ("255.255.255.1", "255.255.255.255", "255.255.255.0") is such an input. The model scans the corrected range instead (see "## Findings").
- Sweep.ScanAddressesForAverageResponseTime: the list is a `seq`, which cannot be null. A null `listOfAddressToScan` makes the source throw `NullReferenceException` at its first `foreach` (`NetworkPing.cs:136`).
- Sweep.ScanNetwork: the delegates are flags, and a set delegate always returns. In the source a delegate that throws (`NetworkPing.cs:107`, `:112`), or an asynchronous one whose task faults (`NetworkPing.cs:115`), ends `ScanNetwork` with that exception. The found list built so far is then discarded.
- Sweep.AverageOf: the source's `int.Parse` of the average would throw above 2^31 - 1 ms; the model keeps the average as an unbounded integer.

## Findings

| source | as written | input that shows it | evidently intended | confidence | as-written member | corrected member |
|---|---|---|---|---|---|---|
| NetworkScanClassLibrary/Models/NetworkSettings.cs:93 (copied at NetworkScanClassLibrary/NetworkPing.cs:241, which `ScanNetwork` reaches through its call at NetworkScanClassLibrary/NetworkPing.cs:102) | `for (uint i = start; i <= end; i++)` never ends when `end` is 2^32 - 1, because `i++` wraps to 0 and `i <= end` always holds; the list grows until memory runs out. `ScanNetwork` with that end therefore never reaches its scan loop at NetworkScanClassLibrary/NetworkPing.cs:103 | `GetRangeOfAddresses` with any valid start, such as "192.168.1.1", and end "255.255.255.255", which `IsValidateIP` accepts; `ScanNetwork("255.255.255.1", "255.255.255.255", "255.255.255.0")`, which passes all three validations and the subnet test | the range from start through 255.255.255.255, like every other range, and a scan of it | high; not executed | NetworkSettings.LastAddressHangs (with NetworkSettings.CountUpNeverEnds over NetworkSettings.CountUp) | NetworkSettings.GetRangeOfAddresses (with NetworkSettings.LastAddressHangs, NetworkSettings.GetRangeEnds and NetworkSettings.AsWrittenAgrees), used by Sweep.ScanNetwork |
