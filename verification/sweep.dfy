/** Scanning many addresses with one `NetworkPing`: `ScanNetwork` probes every
    address of a range and keeps those that reply, `ScanAddressesForAverageResponseTime`
    probes a list and keeps each average, and `CancelAllScanning` stops either
    scan at its next address. The moment another caller cancels is an input. */
module Sweep {
  import opened Decimal
  import opened AddressText
  import opened NetworkSettings
  import opened Probe

  /** Which of the three notification delegates are set (non-null). */
  datatype Delegates = Delegates(currentIpAddress: bool, found: bool, foundAsync: bool)

  /** The state of a `NetworkPing` object that the scans read and write. */
  datatype NetworkPing = NetworkPing(cancelFlag: bool, delegates: Delegates)

  /** When `CancelAllScanning` is called during a scan: never, or while the
      scan is between its `index`-th address and the one before. */
  datatype CancelPoint = Never | Before(index: nat)

  /** The events of a scan: the three delegates, and `Probed`, the
      `ScanAddress` call that probes an address. */
  datatype NoticeKind = CurrentIpAddress | Probed | Found | FoundAsync

  /** One event of a scan, with the address it concerns. */
  datatype Notice = Notice(kind: NoticeKind, address: string)

  /** The timeout and ping count `ScanNetwork` probes each address with. */
  const SweepTimeout: int := 200
  const SweepPings: int := 2

  /** The defaults of `ScanAddress` that `ScanAddressesForAverageResponseTime` uses. */
  const DefaultTimeout: int := 500
  const DefaultPings: int := 8

  /** Both scans probe with timeouts `SendPingAsync` accepts, whatever the address. */
  lemma ScanTimeoutsAccepted(address: NString)
    ensures PingsAccepted(address, SweepTimeout, SweepPings)
    ensures PingsAccepted(address, DefaultTimeout, DefaultPings)
  {
  }

  /** `CancelAllScanning`: raise the flag that both scans test before each address. */
  function CancelAllScanning(self: NetworkPing): (r: NetworkPing)
    ensures r.cancelFlag && r.delegates == self.delegates
  {
    self.(cancelFlag := true)
  }

  /** Whether the cancel flag is up when the scan tests it before its `i`-th
      address; the scans themselves lower it when they start. */
  predicate CancelledBy(cancel: CancelPoint, i: nat) {
    cancel.Before? && cancel.index <= i
  }

  /** How many of `n` addresses a scan probes before it sees the flag. */
  function Processed(n: nat, cancel: CancelPoint): (k: nat)
    ensures k <= n
  {
    if cancel.Before? && cancel.index < n then cancel.index else n
  }

  /** The addresses probed are exactly those before the flag is first seen up. */
  lemma ProcessedBeforeCancel(n: nat, cancel: CancelPoint)
    ensures forall i :: 0 <= i < n ==> (i < Processed(n, cancel) <==> !CancelledBy(cancel, i))
  {
  }

  /** An address `ScanNetwork` reports: two pings of 200 ms, one reply suffices. */
  predicate Answers(address: string, network: Network) {
    ScanAddress(Str(address), SweepTimeout, SweepPings, network) != Failed
  }

  /** `Answers` on a fixed network, as a predicate on addresses. */
  function AnswersOn(network: Network): string -> bool {
    address => Answers(address, network)
  }

  /** The addresses of `s` that answer, in order. */
  function Reached(s: seq<string>, answers: string -> bool): (r: seq<string>)
    ensures |r| <= |s|
  {
    if |s| == 0 then []
    else Reached(s[..|s| - 1], answers) + (if answers(s[|s| - 1]) then [s[|s| - 1]] else [])
  }

  /** The events for one address: the current-address delegate, the probe,
      then, if it answered, the found delegate and the asynchronous one. */
  function NoticesFor(address: string, answered: bool, d: Delegates): (ns: seq<Notice>) {
    Emit(d.currentIpAddress, CurrentIpAddress, address)
    + Emit(true, Probed, address)
    + Reports(address, answered, d)
  }

  /** The found delegates' invocations for one address. */
  function Reports(address: string, answered: bool, d: Delegates): seq<Notice> {
    Emit(answered && d.found, Found, address) + Emit(answered && d.foundAsync, FoundAsync, address)
  }

  /** One invocation when `invoked`, none otherwise. */
  function Emit(invoked: bool, kind: NoticeKind, address: string): seq<Notice> {
    if invoked then [Notice(kind, address)] else []
  }

  /** The events of a scan of `s`, address by address. */
  function Notices(s: seq<string>, d: Delegates, answers: string -> bool): (ns: seq<Notice>) {
    if |s| == 0 then []
    else Notices(s[..|s| - 1], d, answers) + NoticesFor(s[|s| - 1], answers(s[|s| - 1]), d)
  }

  /** The addresses of the events of one kind, in order. */
  function AddressesOf(notices: seq<Notice>, kind: NoticeKind): seq<string> {
    if |notices| == 0 then []
    else (if notices[0].kind == kind then [notices[0].address] else []) + AddressesOf(notices[1..], kind)
  }

  /** The inputs `ScanNetwork` accepts: three valid texts, start and end in the
      same network. */
  predicate ScanAccepts(startAddress: NString, endAddress: NString, subnet: NString) {
    && IsValidateIP(startAddress) && IsValidateIP(endAddress) && IsValidateIP(subnet)
    && IsSameNetwork(startAddress, endAddress, subnet)
  }

  /** The `foreach` of `ScanNetwork` over `range`, with the flag down at the
      start: at each address, unless the flag is up, notify, probe and, on a
      reply, keep the address and notify again. */
  method ScanRange(range: seq<string>, d: Delegates, cancel: CancelPoint, network: Network)
      returns (flag: bool, found: seq<string>, notices: seq<Notice>)
    ensures found == Reached(range[..Processed(|range|, cancel)], AnswersOn(network))
    ensures notices == Notices(range[..Processed(|range|, cancel)], d, AnswersOn(network))
    ensures flag <==> Processed(|range|, cancel) < |range|
  {
    flag, found, notices := false, [], [];
    var i := 0;
    while i < |range|
      invariant 0 <= i <= |range|
      invariant flag == (cancel.Before? && cancel.index < i)
      invariant found == Reached(range[..Processed(i, cancel)], AnswersOn(network))
      invariant notices == Notices(range[..Processed(i, cancel)], d, AnswersOn(network))
    {
      ScanStep(range, i, d, cancel, AnswersOn(network));
      flag := flag || cancel == Before(i);
      if !flag {
        var address := range[i];
        NoticesForSplit(notices, address, Answers(address, network), d);
        notices := notices + Emit(d.currentIpAddress, CurrentIpAddress, address);
        var answered := Answers(address, network);
        notices := notices + Emit(true, Probed, address);
        assert answered == AnswersOn(network)(address);
        if answered {
          found := found + [address];
        }
        notices := notices + Reports(address, answered, d);
      }
      i := i + 1;
    }
  }

  /** The events for one address, appended in the order they happen. */
  lemma NoticesForSplit(before: seq<Notice>, address: string, answered: bool, d: Delegates)
    ensures before + Emit(d.currentIpAddress, CurrentIpAddress, address) + Emit(true, Probed, address)
              + Reports(address, answered, d)
         == before + NoticesFor(address, answered, d)
  {
  }

  /** One iteration of the scan loop: past the cancel point nothing changes,
      before it the `i`-th address is probed and its outcome appended. */
  lemma ScanStep(range: seq<string>, i: nat, d: Delegates, cancel: CancelPoint, answers: string -> bool)
    requires i < |range|
    ensures var k, k' := Processed(i, cancel), Processed(i + 1, cancel);
      if cancel.Before? && cancel.index <= i then
        Reached(range[..k'], answers) == Reached(range[..k], answers)
        && Notices(range[..k'], d, answers) == Notices(range[..k], d, answers)
      else
        k == i && k' == i + 1
        && Reached(range[..k'], answers) == Reached(range[..k], answers) + (if answers(range[i]) then [range[i]] else [])
        && Notices(range[..k'], d, answers) == Notices(range[..k], d, answers) + NoticesFor(range[i], answers(range[i]), d)
  {
    ReachedExtend(range, i, answers);
    NoticesExtend(range, i, d, answers);
  }

  lemma ReachedExtend(s: seq<string>, i: nat, answers: string -> bool)
    requires i < |s|
    ensures Reached(s[..i + 1], answers) == Reached(s[..i], answers) + (if answers(s[i]) then [s[i]] else [])
  {
    assert s[..i + 1][..i] == s[..i];
  }

  lemma NoticesExtend(s: seq<string>, i: nat, d: Delegates, answers: string -> bool)
    requires i < |s|
    ensures Notices(s[..i + 1], d, answers) == Notices(s[..i], d, answers) + NoticesFor(s[i], answers(s[i]), d)
  {
    assert s[..i + 1][..i] == s[..i];
  }

  /** `ScanNetwork`: lower the cancel flag, and for accepted inputs scan the
      range from start to end. The flag is raised at `cancel`, the point where
      another caller cancels; the outcome does not depend on the flag's value
      before the call. */
  method ScanNetwork(self: NetworkPing, startAddress: NString, endAddress: NString, subnet: NString,
                     cancel: CancelPoint, network: Network)
      returns (after: NetworkPing, found: seq<string>, notices: seq<Notice>)
    ensures after.delegates == self.delegates
    ensures !ScanAccepts(startAddress, endAddress, subnet) ==> found == [] && notices == [] && !after.cancelFlag
    ensures ScanAccepts(startAddress, endAddress, subnet) ==>
      var range := GetRangeOfAddresses(startAddress, endAddress);
      var k := Processed(|range|, cancel);
      && found == Reached(range[..k], AnswersOn(network))
      && notices == Notices(range[..k], self.delegates, AnswersOn(network))
      && after.cancelFlag == (k < |range|)
  {
    var flag := false;
    found, notices := [], [];
    if IsValidateIP(startAddress) && IsValidateIP(endAddress) && IsValidateIP(subnet) {
      if IsSameNetwork(startAddress, endAddress, subnet) {
        var range := GetRangeOfAddresses(startAddress, endAddress);
        flag, found, notices := ScanRange(range, self.delegates, cancel, network);
      }
    }
    after := self.(cancelFlag := flag);
  }

  /** The average of one address as `ScanAddressesForAverageResponseTime`
      records it: the parsed text of `ScanAddress`, or -1 when it failed. */
  function AverageOf(address: NString, network: Network): (r: int)
    ensures r == -1 <==> !ProbeAddress(address, DefaultTimeout, DefaultPings, network).Ok?
    ensures r != -1 ==> r == ProbeAddress(address, DefaultTimeout, DefaultPings, network).average
  {
    var text := ScanAddress(address, DefaultTimeout, DefaultPings, network);
    if text != Failed then Value(text) else -1
  }

  /** `AverageOf` on a fixed network, as a function of addresses. */
  function AverageOn(network: Network): NString -> int {
    address => AverageOf(address, network)
  }

  /** The averages of the addresses of `s`, in order. */
  function Averages(s: seq<NString>, average: NString -> int): (r: seq<int>)
    ensures |r| == |s|
  {
    if |s| == 0 then [] else Averages(s[..|s| - 1], average) + [average(s[|s| - 1])]
  }

  lemma AveragesExtend(s: seq<NString>, i: nat, average: NString -> int)
    requires i < |s|
    ensures Averages(s[..i + 1], average) == Averages(s[..i], average) + [average(s[i])]
  {
    assert s[..i + 1][..i] == s[..i];
  }

  /** The second `foreach` of `ScanAddressesForAverageResponseTime`, with the
      flag down at the start: for each address while the flag is down, its
      parsed average or -1. */
  method AverageEach(list: seq<NString>, cancel: CancelPoint, network: Network)
      returns (flag: bool, times: seq<int>)
    ensures times == Averages(list[..Processed(|list|, cancel)], AverageOn(network))
    ensures flag <==> Processed(|list|, cancel) < |list|
  {
    flag, times := false, [];
    var i := 0;
    while i < |list|
      invariant 0 <= i <= |list|
      invariant flag == (cancel.Before? && cancel.index < i)
      invariant times == Averages(list[..Processed(i, cancel)], AverageOn(network))
    {
      AverageStep(list, i, cancel, AverageOn(network));
      flag := flag || cancel == Before(i);
      if !flag {
        var result := ScanAddress(list[i], DefaultTimeout, DefaultPings, network);
        assert AverageOn(network)(list[i]) == if result != Failed then Value(result) else -1;
        if result != Failed {
          times := times + [Value(result)];
        } else {
          times := times + [-1];
        }
      }
      i := i + 1;
    }
  }

  /** One iteration of the averaging loop: past the cancel point nothing
      changes, before it the average of the `i`-th address is appended. */
  lemma AverageStep(list: seq<NString>, i: nat, cancel: CancelPoint, average: NString -> int)
    requires i < |list|
    ensures var k, k' := Processed(i, cancel), Processed(i + 1, cancel);
      if cancel.Before? && cancel.index <= i then
        Averages(list[..k'], average) == Averages(list[..k], average)
      else
        k == i && k' == i + 1 && Averages(list[..k'], average) == Averages(list[..k], average) + [average(list[i])]
  {
    AveragesExtend(list, i, average);
  }

  /** `ScanAddressesForAverageResponseTime`: lower the cancel flag; nothing if
      any address is invalid (null included), otherwise the averages of the
      addresses probed before the flag is seen. */
  method ScanAddressesForAverageResponseTime(self: NetworkPing, listOfAddressToScan: seq<NString>,
                                             cancel: CancelPoint, network: Network)
      returns (after: NetworkPing, times: seq<int>)
    ensures after.delegates == self.delegates
    ensures (exists i :: 0 <= i < |listOfAddressToScan| && !IsValidateIP(listOfAddressToScan[i])) ==>
      times == [] && !after.cancelFlag
    ensures (forall i :: 0 <= i < |listOfAddressToScan| ==> IsValidateIP(listOfAddressToScan[i])) ==>
      var k := Processed(|listOfAddressToScan|, cancel);
      && times == Averages(listOfAddressToScan[..k], AverageOn(network))
      && after.cancelFlag == (k < |listOfAddressToScan|)
  {
    after := self.(cancelFlag := false);
    times := [];
    var j := 0;
    while j < |listOfAddressToScan|
      invariant 0 <= j <= |listOfAddressToScan|
      invariant forall i :: 0 <= i < j ==> IsValidateIP(listOfAddressToScan[i])
    {
      if !IsValidateIP(listOfAddressToScan[j]) {
        return;
      }
      j := j + 1;
    }
    var flag;
    flag, times := AverageEach(listOfAddressToScan, cancel, network);
    after := self.(cancelFlag := flag);
  }

  /** An address is reported exactly when it is in the scanned sequence and
      answers. */
  lemma {:induction false} ReachedMembers(s: seq<string>, answers: string -> bool, a: string)
    ensures a in Reached(s, answers) <==> a in s && answers(a)
  {
    if |s| > 0 {
      ReachedMembers(s[..|s| - 1], answers, a);
      assert s == s[..|s| - 1] + [s[|s| - 1]];
    }
  }

  /** Scanning a prefix reports a prefix of what scanning everything reports. */
  lemma {:induction false} ReachedPrefix(s: seq<string>, k: nat, answers: string -> bool)
    requires k <= |s|
    ensures Reached(s[..k], answers) <= Reached(s, answers)
  {
    if k < |s| {
      ReachedPrefix(s[..|s| - 1], k, answers);
      assert s[..|s| - 1][..k] == s[..k];
    } else {
      assert s[..k] == s;
    }
  }

  /** `s` strictly ascending by `key`. */
  predicate Increasing(s: seq<string>, key: string -> int) {
    forall i, j :: 0 <= i < j < |s| ==> key(s[i]) < key(s[j])
  }

  /** The reported addresses keep the scanned order. */
  lemma {:induction false} ReachedIncreasing(s: seq<string>, key: string -> int, answers: string -> bool)
    requires Increasing(s, key)
    ensures Increasing(Reached(s, answers), key)
  {
    if |s| > 0 {
      var init, last := s[..|s| - 1], s[|s| - 1];
      ReachedIncreasing(init, key, answers);
      var r := Reached(init, answers);
      forall x | x in r
        ensures key(x) < key(last)
      {
        ReachedMembers(init, answers, x);
        var i :| 0 <= i < |init| && init[i] == x;
        assert s[i] == x;
      }
      var full := Reached(s, answers);
      forall i, j | 0 <= i < j < |full|
        ensures key(full[i]) < key(full[j])
      {
        if j < |r| {
          assert full[i] == r[i] && full[j] == r[j];
        } else {
          assert full[i] == r[i] && r[i] in r && full[j] == last;
        }
      }
    }
  }

  /** The addresses handed to one kind of delegate distribute over appending
      invocations. */
  lemma {:induction false} AddressesOfAppend(x: seq<Notice>, y: seq<Notice>, kind: NoticeKind)
    ensures AddressesOf(x + y, kind) == AddressesOf(x, kind) + AddressesOf(y, kind)
  {
    if |x| > 0 {
      AddressesOfAppend(x[1..], y, kind);
      assert (x + y)[1..] == x[1..] + y;
    } else {
      assert x + y == y;
    }
  }
  /** Whether the delegate of `kind` is set. */
  predicate Enabled(d: Delegates, kind: NoticeKind) {
    match kind
    case CurrentIpAddress => d.currentIpAddress
    case Probed => true
    case Found => d.found
    case FoundAsync => d.foundAsync
  }

  /** What one address gives the events of `kind`: the address is always
      probed, handed to the current-address delegate when that is set and, to
      a set found delegate, only when it answered. */
  lemma NoticesForDelivered(address: string, answered: bool, d: Delegates, kind: NoticeKind)
    ensures AddressesOf(NoticesFor(address, answered, d), kind)
         == if Enabled(d, kind) && (kind == CurrentIpAddress || kind == Probed || answered) then [address] else []
  {
    var a := Emit(d.currentIpAddress, CurrentIpAddress, address);
    var p := Emit(true, Probed, address);
    var b := Emit(answered && d.found, Found, address);
    var c := Emit(answered && d.foundAsync, FoundAsync, address);
    AddressesOfAppend(a + p, b + c, kind);
    AddressesOfAppend(b, c, kind);
    AddressesOfAppend(a, p, kind);
    AddressesOfEmit(d.currentIpAddress, CurrentIpAddress, address, kind);
    AddressesOfEmit(true, Probed, address, kind);
    AddressesOfEmit(answered && d.found, Found, address, kind);
    AddressesOfEmit(answered && d.foundAsync, FoundAsync, address, kind);
  }

  /** The order of the events for one address: the current-address delegate
      (when set) comes first, the probe next, and after the probe only the
      found delegates, and only when the address answered. */
  lemma NoticesForOrder(address: string, answered: bool, d: Delegates)
    ensures var ns, p := NoticesFor(address, answered, d), if d.currentIpAddress then 1 else 0;
      && p < |ns| && ns[p] == Notice(Probed, address)
      && (forall j :: 0 <= j < p ==> ns[j] == Notice(CurrentIpAddress, address))
      && (forall j :: p < j < |ns| ==>
            answered && ns[j].address == address && (ns[j].kind == Found || ns[j].kind == FoundAsync))
  {
  }

  lemma AddressesOfEmit(invoked: bool, k: NoticeKind, address: string, kind: NoticeKind)
    ensures AddressesOf(Emit(invoked, k, address), kind) == if invoked && k == kind then [address] else []
  {
    if invoked {
      assert Emit(invoked, k, address)[1..] == [];
    }
  }
  /** Every scanned address is probed, in order; each delegate is handed, in
      order, every scanned address (the current-address delegate) or every
      reported one (the found delegates), and nothing when it is null. */
  lemma {:induction false} NoticesDelivered(s: seq<string>, d: Delegates, answers: string -> bool, kind: NoticeKind)
    ensures AddressesOf(Notices(s, d, answers), kind)
         == if !Enabled(d, kind) then [] else if kind == CurrentIpAddress || kind == Probed then s else Reached(s, answers)
  {
    if |s| > 0 {
      var init, last := s[..|s| - 1], s[|s| - 1];
      assert s == init + [last];
      NoticesDelivered(init, d, answers, kind);
      AddressesOfAppend(Notices(init, d, answers), NoticesFor(last, answers(last), d), kind);
      NoticesForDelivered(last, answers(last), d, kind);
    }
  }

  /** Every entry of the averages is the one its own address gets. */
  lemma {:induction false} AveragesElements(s: seq<NString>, average: NString -> int)
    ensures forall i :: 0 <= i < |s| ==> Averages(s, average)[i] == average(s[i])
  {
    if |s| > 0 {
      AveragesElements(s[..|s| - 1], average);
    }
  }

  /** A cancelled scan of a range reports a prefix of what an uncancelled one
      reports; a cancelled average scan returns a prefix of the full list. */
  lemma CancelledScanIsPrefix(s: seq<string>, list: seq<NString>, cancel: CancelPoint,
                              answers: string -> bool, average: NString -> int)
    ensures Reached(s[..Processed(|s|, cancel)], answers) <= Reached(s[..Processed(|s|, Never)], answers)
    ensures Averages(list[..Processed(|list|, cancel)], average) <= Averages(list[..Processed(|list|, Never)], average)
  {
    ReachedPrefix(s, Processed(|s|, cancel), answers);
    assert s[..|s|] == s;
    var k := Processed(|list|, cancel);
    AveragesElements(list, average);
    AveragesElements(list[..k], average);
    assert list[..|list|] == list;
  }

  /** The network-order value of an address text, -1 for any other text. */
  function ValueKey(s: string): int {
    if IsDottedQuad(s) then AddressValue(s) else -1
  }

  /** Every reported address was scanned and answers. */
  lemma ReachedSubset(s: seq<string>, answers: string -> bool)
    ensures forall a :: a in Reached(s, answers) ==> a in s && answers(a)
  {
    forall a | a in Reached(s, answers)
      ensures a in s && answers(a)
    {
      ReachedMembers(s, answers, a);
    }
  }

  /** A prefix of an increasing sequence is increasing. */
  lemma PrefixIncreasing(s: seq<string>, k: nat, key: string -> int)
    requires k <= |s| && Increasing(s, key)
    ensures Increasing(s[..k], key)
  {
  }

  /** A range ascends by `ValueKey`, and all its addresses are dotted quads. */
  lemma RangeIncreasing(startAddress: NString, endAddress: NString)
    ensures var range := GetRangeOfAddresses(startAddress, endAddress);
      Increasing(range, ValueKey) && forall a :: a in range ==> IsDottedQuad(a)
  {
    var range := GetRangeOfAddresses(startAddress, endAddress);
    GetRangeAscending(startAddress, endAddress);
    GetRangeElements(startAddress, endAddress);
    forall i, j | 0 <= i < j < |range|
      ensures ValueKey(range[i]) < ValueKey(range[j])
    {
    }
  }

  /** Any prefix of a range ascends by `ValueKey`. */
  lemma RangePrefixIncreasing(startAddress: NString, endAddress: NString, k: nat)
    requires k <= |GetRangeOfAddresses(startAddress, endAddress)|
    ensures var range := GetRangeOfAddresses(startAddress, endAddress);
      && Increasing(range[..k], ValueKey)
      && forall a :: a in range[..k] ==> a in range && IsDottedQuad(a)
  {
    var range := GetRangeOfAddresses(startAddress, endAddress);
    RangeIncreasing(startAddress, endAddress);
    PrefixIncreasing(range, k, ValueKey);
    assert forall a :: a in range[..k] ==> a in range;
  }

  /** Everything `ScanNetwork` reports is in its range, answers, and comes in
      ascending network order. */
  lemma ScanNetworkReports(startAddress: NString, endAddress: NString, subnet: NString, cancel: CancelPoint, network: Network)
    requires ScanAccepts(startAddress, endAddress, subnet)
    ensures var range := GetRangeOfAddresses(startAddress, endAddress);
      var found := Reached(range[..Processed(|range|, cancel)], AnswersOn(network));
      && (forall a :: a in found ==> a in range && Answers(a, network) && IsDottedQuad(a))
      && Increasing(found, ValueKey)
  {
    var range := GetRangeOfAddresses(startAddress, endAddress);
    var k := Processed(|range|, cancel);
    RangePrefixIncreasing(startAddress, endAddress, k);
    ReachedIncreasing(range[..k], ValueKey, AnswersOn(network));
    ReachedSubset(range[..k], AnswersOn(network));
  }
}
