/** Probing one address: `ScanAddress` and `ScanAddressMaxTime` send a fixed
    number of echo requests, keep the successful replies and report the
    integer average (and the maximum) of their round-trip times. The ICMP
    transport is an input: a function from each echo request to its reply. */
module Probe {
  import opened Decimal
  import opened AddressText

  /** One echo request: the `attempt`-th ping of a probe of `address`. */
  datatype EchoRequest = EchoRequest(address: string, timeout: int, attempt: nat)

  /** The part of a `PingReply` the library reads: whether the status is
      `Success`, and the round-trip time in milliseconds. */
  datatype PingReply = PingReply(success: bool, roundtripTime: nat)

  /** The transport: the reply each echo request gets. */
  type Network = EchoRequest -> PingReply

  /** The outcome of a probe, after `ScanResponseStatus`: an average and a
      maximum time, no successful reply, or an address the validator rejects. */
  datatype ScanResponse = Ok(average: nat, maxTime: nat) | Timeout | InvalidIp

  /** The text both probe operations return when no time can be reported. */
  const Failed: string := "Failed"

  /** The echo requests a probe sends: attempts 0 .. numberOfPings - 1, none
      when `numberOfPings` is not positive. */
  function Requests(address: string, timeout: int, numberOfPings: int): (rs: seq<EchoRequest>)
    ensures |rs| == if numberOfPings > 0 then numberOfPings else 0
    ensures forall i :: 0 <= i < |rs| ==> rs[i] == EchoRequest(address, timeout, i)
  {
    if numberOfPings > 0 then seq(numberOfPings, i requires 0 <= i => EchoRequest(address, timeout, i)) else []
  }

  function Replies(requests: seq<EchoRequest>, network: Network): (replies: seq<PingReply>)
    ensures |replies| == |requests|
  {
    seq(|requests|, i requires 0 <= i < |requests| => network(requests[i]))
  }

  /** The round-trip times of the successful replies, in order. */
  function SuccessTimes(replies: seq<PingReply>): (times: seq<nat>)
    ensures |times| <= |replies|
  {
    if |replies| == 0 then []
    else if replies[0].success then [replies[0].roundtripTime] + SuccessTimes(replies[1..])
    else SuccessTimes(replies[1..])
  }

  /** The kept times are exactly the times of the successful replies. */
  lemma {:induction false} SuccessTimesMembers(replies: seq<PingReply>)
    ensures |SuccessTimes(replies)| == 0 <==> forall i :: 0 <= i < |replies| ==> !replies[i].success
    ensures forall i :: 0 <= i < |replies| && replies[i].success ==> replies[i].roundtripTime in SuccessTimes(replies)
    ensures forall t :: t in SuccessTimes(replies) ==>
      exists i :: 0 <= i < |replies| && replies[i].success && replies[i].roundtripTime == t
  {
    if |replies| > 0 {
      SuccessTimesMembers(replies[1..]);
      assert forall i :: 1 <= i < |replies| ==> replies[i] == replies[1..][i - 1];
      forall t | t in SuccessTimes(replies)
        ensures exists i :: 0 <= i < |replies| && replies[i].success && replies[i].roundtripTime == t
      {
        if !(replies[0].success && t == replies[0].roundtripTime) {
          assert t in SuccessTimes(replies[1..]);
          var j :| 0 <= j < |replies[1..]| && replies[1..][j].success && replies[1..][j].roundtripTime == t;
          assert replies[j + 1] == replies[1..][j];
        }
      }
    }
  }

  /** Appending replies appends their successful times. */
  lemma {:induction false} SuccessTimesAppend(a: seq<PingReply>, b: seq<PingReply>)
    ensures SuccessTimes(a + b) == SuccessTimes(a) + SuccessTimes(b)
    decreases |a|
  {
    if |a| == 0 {
      assert a + b == b;
    } else {
      assert (a + b)[1..] == a[1..] + b;
      SuccessTimesAppend(a[1..], b);
    }
  }

  /** The indices of the successful replies, in increasing order. */
  function SuccessIndices(replies: seq<PingReply>): (idx: seq<nat>)
    ensures |idx| <= |replies|
  {
    if |replies| == 0 then []
    else
      var n := |replies| - 1;
      SuccessIndices(replies[..n]) + (if replies[n].success then [n] else [])
  }

  /** `idx` lists every successful reply's index exactly once, in increasing
      order, and nothing else. */
  predicate ListsSuccesses(replies: seq<PingReply>, idx: seq<nat>) {
    && (forall k :: 0 <= k < |idx| ==> idx[k] < |replies| && replies[idx[k]].success)
    && (forall k, l :: 0 <= k < l < |idx| ==> idx[k] < idx[l])
    && (forall i :: 0 <= i < |replies| && replies[i].success ==> i in idx)
  }

  /** `times` holds the round-trip time of each reply `idx` lists, in that order. */
  predicate TimesOf(replies: seq<PingReply>, idx: seq<nat>, times: seq<nat>) {
    && |times| == |idx|
    && forall k :: 0 <= k < |idx| ==> idx[k] < |replies| && times[k] == replies[idx[k]].roundtripTime
  }

  /** The kept times are the successful replies' times, one for each such
      reply, in the order the replies came. */
  lemma {:induction false} SuccessTimesInOrder(replies: seq<PingReply>)
    ensures ListsSuccesses(replies, SuccessIndices(replies))
    ensures TimesOf(replies, SuccessIndices(replies), SuccessTimes(replies))
    decreases |replies|
  {
    if |replies| > 0 {
      var n := |replies| - 1;
      var p, x := replies[..n], replies[n];
      SuccessTimesInOrder(p);
      assert replies == p + [x];
      SuccessTimesAppend(p, [x]);
      SuccessOfOne(x);
      ListsSuccessesExtend(p, x, SuccessIndices(p));
      TimesOfExtend(p, x, SuccessIndices(p), SuccessTimes(p));
    }
  }

  /** One more reply extends the index list by its own index when it succeeded. */
  lemma ListsSuccessesExtend(p: seq<PingReply>, x: PingReply, idx: seq<nat>)
    requires ListsSuccesses(p, idx)
    ensures ListsSuccesses(p + [x], idx + (if x.success then [|p|] else []))
  {
    var r := p + [x];
    forall k | 0 <= k < |idx|
      ensures idx[k] < |p| && r[idx[k]] == p[idx[k]]
    {
    }
    forall i | 0 <= i < |r| && r[i].success
      ensures i in idx + (if x.success then [|p|] else [])
    {
      if i < |p| {
        assert p[i] == r[i];
      }
    }
  }

  /** One more reply extends the times by its own time when it succeeded. */
  lemma TimesOfExtend(p: seq<PingReply>, x: PingReply, idx: seq<nat>, times: seq<nat>)
    requires TimesOf(p, idx, times)
    ensures TimesOf(p + [x], idx + (if x.success then [|p|] else []),
                    times + (if x.success then [x.roundtripTime] else []))
  {
    var r := p + [x];
    forall k | 0 <= k < |idx|
      ensures r[idx[k]] == p[idx[k]]
    {
    }
  }

  lemma SuccessOfOne(x: PingReply)
    ensures SuccessTimes([x]) == if x.success then [x.roundtripTime] else []
  {
    assert [x][1..] == [];
  }

  /** One kept time per successful reply: the count that divides the total. */
  lemma {:induction false} SuccessCount(replies: seq<PingReply>)
    ensures |SuccessTimes(replies)| == |set i | 0 <= i < |replies| && replies[i].success|
    decreases |replies|
  {
    if |replies| > 0 {
      var n := |replies| - 1;
      var p, x := replies[..n], replies[n];
      SuccessCount(p);
      assert replies == p + [x];
      SuccessTimesAppend(p, [x]);
      SuccessOfOne(x);
      var all := set i | 0 <= i < |replies| && replies[i].success;
      var before := set i | 0 <= i < n && p[i].success;
      assert n !in before;
      if x.success {
        assert all == before + {n};
      } else {
        assert all == before;
      }
    }
  }

  function Sum(times: seq<nat>): (total: nat) {
    if |times| == 0 then 0 else times[0] + Sum(times[1..])
  }

  /** The largest time, starting from 0 as the source's `maxTime` does. */
  function MaxTime(times: seq<nat>): (m: nat)
    ensures forall t :: t in times ==> t <= m
    ensures |times| > 0 ==> m in times
  {
    if |times| == 0 then 0
    else
      var rest := MaxTime(times[1..]);
      assert forall t :: t in times ==> t == times[0] || t in times[1..];
      if times[0] > rest then times[0] else rest
  }

  /** The sum of some times is at most their count times any bound on them. */
  lemma {:induction false} SumAtMostCountTimesBound(times: seq<nat>, m: nat)
    requires forall t :: t in times ==> t <= m
    ensures Sum(times) <= |times| * m
  {
    if |times| > 0 {
      assert times[0] in times;
      assert forall t :: t in times[1..] ==> t in times;
      SumAtMostCountTimesBound(times[1..], m);
      MulMonotone(|times| - 1, |times| - 1, m);
      assert |times| * m == (|times| - 1) * m + m;
    }
  }

  /** The accumulation loop of the probe: the running total and maximum of the
      successful times, walked front to back as the `foreach` does. */
  method Accumulate(times: seq<nat>) returns (totalTime: nat, maxTime: nat)
    ensures totalTime == Sum(times)
    ensures forall t :: t in times ==> t <= maxTime
    ensures |times| > 0 ==> maxTime in times
    ensures |times| == 0 ==> maxTime == 0
  {
    totalTime, maxTime := 0, 0;
    var i := 0;
    while i < |times|
      invariant 0 <= i <= |times|
      invariant totalTime == Sum(times[..i])
      invariant forall t :: t in times[..i] ==> t <= maxTime
      invariant i > 0 ==> maxTime in times[..i]
      invariant i == 0 ==> maxTime == 0
    {
      assert times[..i + 1] == times[..i] + [times[i]];
      SumSnoc(times[..i], times[i]);
      totalTime := totalTime + times[i];
      maxTime := if times[i] > maxTime then times[i] else maxTime;
      i := i + 1;
    }
    assert times[..|times|] == times;
  }

  /** Adding one more time to the end adds it to the sum. */
  lemma {:induction false} SumSnoc(times: seq<nat>, t: nat)
    ensures Sum(times + [t]) == Sum(times) + t
    decreases |times|
  {
    if |times| == 0 {
      assert times + [t] == [t];
      assert [t][1..] == [];
    } else {
      assert (times + [t])[1..] == times[1..] + [t];
      SumSnoc(times[1..], t);
    }
  }

  /** The round-trip times of the successful replies among the echo requests
      a probe of `address` sends. */
  function SuccessfulTimes(address: string, timeout: int, numberOfPings: int, network: Network): seq<nat> {
    SuccessTimes(Replies(Requests(address, timeout, numberOfPings), network))
  }

  /** What `Ping.SendPingAsync` demands of its caller: a non-negative timeout
      (a negative one throws `ArgumentOutOfRangeException`). A probe calls it
      only for a valid address and only when it sends at least one ping. */
  predicate PingsAccepted(ipAddress: NString, timeout: int, numberOfPings: int) {
    IsValidateIP(ipAddress) && numberOfPings > 0 ==> timeout >= 0
  }

  /** The probe of `address`: `InvalidIp` without sending anything when the
      validator rejects it, otherwise `numberOfPings` echo requests and the
      floor of the mean of the successful round-trip times with their maximum,
      or `Timeout` when none succeeded. */
  function ProbeAddress(ipAddress: NString, timeout: int, numberOfPings: int, network: Network): (r: ScanResponse)
    requires PingsAccepted(ipAddress, timeout, numberOfPings)
    ensures r.InvalidIp? <==> !IsValidateIP(ipAddress)
    ensures r.Timeout? <==> IsValidateIP(ipAddress) && |SuccessfulTimes(ipAddress.value, timeout, numberOfPings, network)| == 0
    ensures r.Ok? ==>
      var times := SuccessfulTimes(ipAddress.value, timeout, numberOfPings, network);
      && |times| > 0
      && r.average * |times| <= Sum(times) < (r.average + 1) * |times|
      && r.maxTime in times
      && (forall t :: t in times ==> t <= r.maxTime)
      && r.average <= r.maxTime
  {
    if !IsValidateIP(ipAddress) then InvalidIp
    else
      var times := SuccessfulTimes(ipAddress.value, timeout, numberOfPings, network);
      if |times| == 0 then Timeout
      else
        var average, maxTime := Mean(Sum(times), |times|), MaxTime(times);
        SumAtMostCountTimesBound(times, maxTime);
        FloorAverage(Sum(times), |times|, maxTime, average);
        Ok(average, maxTime)
  }

  /** The C# `long` division `totalTime / count` of non-negative operands. */
  function Mean(total: nat, count: nat): (mean: nat)
    requires count > 0
  {
    total / count
  }

  /** `q`, the floor of `total / count`, brackets the mean and is at most any
      `m` with `total <= count * m`. */
  lemma FloorAverage(total: nat, count: nat, m: nat, q: nat)
    requires count > 0 && q == Mean(total, count) && total <= count * m
    ensures q * count <= total < (q + 1) * count
    ensures q <= m
  {
    assert total == q * count + total % count;
    if q > m {
      MulMonotone(m + 1, q, count);
    }
  }

  lemma MulMonotone(a: nat, b: nat, c: nat)
    requires a <= b
    ensures a * c <= b * c
  {
  }

  /** A probe of a valid address times out exactly when none of its echo
      requests gets a successful reply. */
  lemma TimeoutIffNoSuccess(ipAddress: NString, timeout: int, numberOfPings: int, network: Network)
    requires IsValidateIP(ipAddress) && PingsAccepted(ipAddress, timeout, numberOfPings)
    ensures var rs := Requests(ipAddress.value, timeout, numberOfPings);
      ProbeAddress(ipAddress, timeout, numberOfPings, network).Timeout?
      <==> forall i :: 0 <= i < |rs| ==> !network(rs[i]).success
  {
    var rs := Requests(ipAddress.value, timeout, numberOfPings);
    var replies := Replies(rs, network);
    SuccessTimesMembers(replies);
    assert forall i :: 0 <= i < |rs| ==> replies[i] == network(rs[i]);
  }

  /** `ScanAddress`: the average as decimal text, or "Failed" when the address
      is invalid or no reply succeeded. */
  function ScanAddress(ipAddress: NString, timeout: int, numberOfPings: int, network: Network): (r: string)
    requires PingsAccepted(ipAddress, timeout, numberOfPings)
    ensures r == Failed <==> !ProbeAddress(ipAddress, timeout, numberOfPings, network).Ok?
    ensures r != Failed ==> IsCanonical(r) && Value(r) == ProbeAddress(ipAddress, timeout, numberOfPings, network).average
  {
    match ProbeAddress(ipAddress, timeout, numberOfPings, network)
    case Ok(average, _) =>
      ValueOfText(average);
      assert Text(average)[0] != 'F';
      Text(average)
    case _ => Failed
  }

  /** `ScanAddressMaxTime`: the average and maximum as decimal texts, or
      ("Failed", null). */
  function ScanAddressMaxTime(ipAddress: NString, timeout: int, numberOfPings: int, network: Network): (r: (string, NString))
    requires PingsAccepted(ipAddress, timeout, numberOfPings)
    ensures r.1.Null? <==> r.0 == Failed
    ensures r.0 == Failed <==> !ProbeAddress(ipAddress, timeout, numberOfPings, network).Ok?
    ensures r.1.Str? ==> IsCanonical(r.1.value) && Value(r.1.value) == ProbeAddress(ipAddress, timeout, numberOfPings, network).maxTime
  {
    match ProbeAddress(ipAddress, timeout, numberOfPings, network)
    case Ok(average, maxTime) =>
      ValueOfText(maxTime);
      assert Text(average)[0] != 'F';
      (Text(average), Str(Text(maxTime)))
    case _ => (Failed, Null)
  }

  /** The first text of `ScanAddressMaxTime` is what `ScanAddress` returns. */
  lemma MaxTimeAverageAgrees(ipAddress: NString, timeout: int, numberOfPings: int, network: Network)
    requires PingsAccepted(ipAddress, timeout, numberOfPings)
    ensures ScanAddressMaxTime(ipAddress, timeout, numberOfPings, network).0 == ScanAddress(ipAddress, timeout, numberOfPings, network)
  {
  }

  /** A reported average never exceeds the reported maximum. */
  lemma AverageAtMostMax(ipAddress: NString, timeout: int, numberOfPings: int, network: Network)
    requires PingsAccepted(ipAddress, timeout, numberOfPings)
    requires ScanAddressMaxTime(ipAddress, timeout, numberOfPings, network).0 != Failed
    ensures var r := ScanAddressMaxTime(ipAddress, timeout, numberOfPings, network);
      IsCanonical(r.0) && r.1.Str? && Value(r.0) <= Value(r.1.value)
  {
    var p := ProbeAddress(ipAddress, timeout, numberOfPings, network);
    ValueOfText(p.average);
  }

  /** An invalid address gives "Failed" whatever the network does: no echo
      request is consulted. */
  lemma InvalidAddressFails(ipAddress: NString, timeout: int, numberOfPings: int, network: Network)
    requires !IsValidateIP(ipAddress)
    ensures ScanAddress(ipAddress, timeout, numberOfPings, network) == Failed
    ensures ScanAddressMaxTime(ipAddress, timeout, numberOfPings, network) == (Failed, Null)
  {
  }

  /** Without a positive number of pings nothing is sent and the probe fails. */
  lemma NoPingsFails(ipAddress: NString, timeout: int, numberOfPings: int, network: Network)
    requires numberOfPings <= 0
    ensures ScanAddress(ipAddress, timeout, numberOfPings, network) == Failed
  {
    assert |Requests(if ipAddress.Str? then ipAddress.value else "", timeout, numberOfPings)| == 0;
  }

  /** Only the replies to the probe's own echo requests matter: two networks
      that answer them alike give the same outcome. */
  lemma ProbeDependsOnlyOnRequests(ipAddress: NString, timeout: int, numberOfPings: int, n1: Network, n2: Network)
    requires PingsAccepted(ipAddress, timeout, numberOfPings)
    requires ipAddress.Str? ==> forall i :: 0 <= i < |Requests(ipAddress.value, timeout, numberOfPings)| ==>
      n1(Requests(ipAddress.value, timeout, numberOfPings)[i]) == n2(Requests(ipAddress.value, timeout, numberOfPings)[i])
    ensures ProbeAddress(ipAddress, timeout, numberOfPings, n1) == ProbeAddress(ipAddress, timeout, numberOfPings, n2)
  {
    if IsValidateIP(ipAddress) {
      var rs := Requests(ipAddress.value, timeout, numberOfPings);
      assert Replies(rs, n1) == Replies(rs, n2);
    }
  }

  /** There is no early exit: every attempt is sent, so a success on the last
      one alone is enough for a reported time. */
  lemma LastAttemptCounts(ipAddress: NString, timeout: int, numberOfPings: int, network: Network)
    requires IsValidateIP(ipAddress) && numberOfPings > 0 && timeout >= 0
    requires network(EchoRequest(ipAddress.value, timeout, numberOfPings - 1)).success
    ensures ScanAddress(ipAddress, timeout, numberOfPings, network) != Failed
  {
    TimeoutIffNoSuccess(ipAddress, timeout, numberOfPings, network);
  }
}
