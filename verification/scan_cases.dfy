/** Concrete probes and scans over networks given as functions: one where
    some pings succeed, and one where none do (the outcome the library's tests
    expect for unused addresses). */
module ScanCases {
  import opened Decimal
  import opened AddressText
  import opened Probe
  import opened Sweep

  /** A network where the second, fourth and sixth echo request of every
      probe (attempts 1, 3 and 5) succeed, in 10, 20 and 30 ms. */
  function ThreeReplies(): Network {
    (request: EchoRequest) => if request.attempt == 1 then PingReply(true, 10)
               else if request.attempt == 3 then PingReply(true, 20)
               else if request.attempt == 5 then PingReply(true, 30)
               else PingReply(false, 0)
  }

  lemma ThreeRepliesTimes(address: string)
    ensures SuccessfulTimes(address, 500, 8, ThreeReplies()) == [10, 20, 30]
  {
    var rs := Requests(address, 500, 8);
    var replies := Replies(rs, ThreeReplies());
    var no, yes := PingReply(false, 0), PingReply(true, 10);
    assert replies == [no, yes, no, PingReply(true, 20), no, PingReply(true, 30), no, no];
    assert SuccessTimes(replies[6..]) == [];
    assert SuccessTimes(replies[5..]) == [30];
    assert SuccessTimes(replies[4..]) == [30];
    assert SuccessTimes(replies[3..]) == [20, 30];
    assert SuccessTimes(replies[2..]) == [20, 30];
    assert SuccessTimes(replies[1..]) == [10, 20, 30];
  }

  /** Eight pings of which three succeed report the mean 20 and the maximum 30,
      whichever valid address is probed. */
  lemma AverageOfThreeReplies(address: NString)
    requires IsValidateIP(address)
    ensures ProbeAddress(address, 500, 8, ThreeReplies()) == Ok(20, 30)
  {
    ThreeRepliesTimes(address.value);
    assert Sum([10, 20, 30]) == 60;
    assert MaxTime([10, 20, 30]) == 30;
  }

  /** ... and `ScanAddressMaxTime` writes them as "20" and "30". */
  lemma AverageOfThreeRepliesText(address: NString)
    requires IsValidateIP(address)
    ensures ScanAddressMaxTime(address, 500, 8, ThreeReplies()) == ("20", Str("30"))
  {
    AverageOfThreeReplies(address);
    TwentyAndThirty();
  }

  lemma TwentyAndThirty()
    ensures Text(20) == "20" && Text(30) == "30"
  {
    assert Text(2) == "2" && Text(3) == "3";
  }

  /** A network where no echo request succeeds. */
  function Silent(): Network {
    (request: EchoRequest) => PingReply(false, 0)
  }

  /** Without replies every probe fails. */
  lemma SilentProbeFails(ipAddress: NString, timeout: int, numberOfPings: int)
    requires PingsAccepted(ipAddress, timeout, numberOfPings)
    ensures ScanAddress(ipAddress, timeout, numberOfPings, Silent()) == Failed
  {
    if IsValidateIP(ipAddress) {
      TimeoutIffNoSuccess(ipAddress, timeout, numberOfPings, Silent());
    }
  }

  /** Without replies a network scan reports nothing ... */
  lemma {:induction false} SilentScanFindsNothing(s: seq<string>)
    ensures Reached(s, AnswersOn(Silent())) == []
  {
    if |s| > 0 {
      SilentScanFindsNothing(s[..|s| - 1]);
      SilentProbeFails(Str(s[|s| - 1]), SweepTimeout, SweepPings);
    }
  }

  /** ... and every average is the timeout marker -1. */
  lemma SilentAveragesAreTimeouts(list: seq<NString>)
    ensures forall i :: 0 <= i < |list| ==> Averages(list, AverageOn(Silent()))[i] == -1
  {
    AveragesElements(list, AverageOn(Silent()));
    forall i | 0 <= i < |list|
      ensures AverageOn(Silent())(list[i]) == -1
    {
      SilentProbeFails(list[i], DefaultTimeout, DefaultPings);
    }
  }
}
