/** Subnet membership, range enumeration and the first and last addresses of
    the local network, as in `NetworkSettings` (and its copy in `NetworkPing`). */
module NetworkSettings {
  import opened Decimal
  import opened Octets
  import opened AddressText
  import opened InterfaceSettings

  /** A non-null text of four canonical octets, the input the source's
      `Split('.')` and `int.Parse` handle without throwing and without
      truncating. */
  predicate IsQuadText(s: NString) {
    s.Str? && IsDottedQuad(s.value)
  }

  function QuadOf(s: NString): (q: Quad)
    requires IsQuadText(s)
  {
    Parse(s.value)
  }

  /** The octet loop of `IsSameNetwork` from octet `i` on: false at the first
      octet whose masked values differ. */
  function SameFrom(a: Quad, b: Quad, m: Quad, i: nat): (r: bool)
    requires i <= 4
    ensures r <==> forall j :: i <= j < 4 ==> AndByte(a.Octet(j), m.Octet(j)) == AndByte(b.Octet(j), m.Octet(j))
    decreases 4 - i
  {
    if i == 4 then true
    else if AndByte(a.Octet(i), m.Octet(i)) != AndByte(b.Octet(i), m.Octet(i)) then false
    else SameFrom(a, b, m, i + 1)
  }

  /** `IsSameNetwork`: both addresses have the same octets under the mask. */
  function IsSameNetwork(startAddress: NString, endAddress: NString, subnet: NString): (r: bool)
    requires IsQuadText(startAddress) && IsQuadText(endAddress) && IsQuadText(subnet)
    ensures r <==> MaskQuad(QuadOf(startAddress), QuadOf(subnet)) == MaskQuad(QuadOf(endAddress), QuadOf(subnet))
  {
    SameFrom(QuadOf(startAddress), QuadOf(endAddress), QuadOf(subnet), 0)
  }

  /** The octet-wise test is the 32-bit test `start & mask == end & mask`. */
  lemma IsSameNetworkIsWordMask(startAddress: NString, endAddress: NString, subnet: NString)
    requires IsQuadText(startAddress) && IsQuadText(endAddress) && IsQuadText(subnet)
    ensures IsSameNetwork(startAddress, endAddress, subnet)
        <==> And(AddressValue(startAddress.value), AddressValue(subnet.value))
             == And(AddressValue(endAddress.value), AddressValue(subnet.value))
  {
    var a, b, m := QuadOf(startAddress), QuadOf(endAddress), QuadOf(subnet);
    MaskQuadIsWordAnd(a, m);
    MaskQuadIsWordAnd(b, m);
    ToU32Injective(MaskQuad(a, m), MaskQuad(b, m));
  }

  lemma IsSameNetworkReflexive(address: NString, subnet: NString)
    requires IsQuadText(address) && IsQuadText(subnet)
    ensures IsSameNetwork(address, address, subnet)
  {
  }

  lemma IsSameNetworkSymmetric(a: NString, b: NString, subnet: NString)
    requires IsQuadText(a) && IsQuadText(b) && IsQuadText(subnet)
    ensures IsSameNetwork(a, b, subnet) <==> IsSameNetwork(b, a, subnet)
  {
  }

  lemma IsSameNetworkTransitive(a: NString, b: NString, c: NString, subnet: NString)
    requires IsQuadText(a) && IsQuadText(b) && IsQuadText(c) && IsQuadText(subnet)
    requires IsSameNetwork(a, b, subnet) && IsSameNetwork(b, c, subnet)
    ensures IsSameNetwork(a, c, subnet)
  {
  }

  /** The range loop's end bound that makes the C# `uint` counter wrap. */
  const LastAddress: string := "255.255.255.255"

  /** `GetRangeOfAddresses`: the text of every value from start to end
      inclusive, in ascending order; empty for an invalid bound or start > end.
      This is the documented behaviour; the source's loop does not reach it
      for the end 255.255.255.255 (see `CountUp`). */
  function GetRangeOfAddresses(startAddress: NString, endAddress: NString): (r: seq<string>)
    ensures !(IsValidateIP(startAddress) && IsValidateIP(endAddress)) ==> r == []
    ensures IsValidateIP(startAddress) && IsValidateIP(endAddress) ==>
      var lo, hi := AddressValue(startAddress.value), AddressValue(endAddress.value);
      |r| == if lo <= hi then hi - lo + 1 else 0
  {
    if IsValidateIP(startAddress) && IsValidateIP(endAddress) then
      AddressRange(AddressValue(startAddress.value), AddressValue(endAddress.value))
    else []
  }

  datatype Option<T> = None | Some(value: T)

  /** The C# `uint` increment `i++`, which wraps from 2^32 - 1 to 0. */
  function IncU32(i: U32): (r: U32)
    ensures i < MaxU32 ==> r == i + 1
    ensures i == MaxU32 ==> r == 0
  {
    (i + 1) % 0x1_0000_0000
  }

  /** The source's loop `for (uint i = start; i <= end; i++)` as written, run
      for at most `fuel` iterations: the list it has built when the guard
      fails, or `None` when the fuel runs out first. */
  function CountUp(i: U32, end: U32, acc: seq<string>, fuel: nat): (r: Option<seq<string>>)
    ensures r.Some? ==> acc <= r.value
    ensures r.None? ==> i <= end
    decreases fuel
  {
    if !(i <= end) then Some(acc)
    else if fuel == 0 then None
    else CountUp(IncU32(i), end, acc + [Format(FromU32(i))], fuel - 1)
  }

  /** `GetRangeOfAddresses` as written, with the loop bounded by `fuel`. */
  function GetRangeOfAddressesAsWritten(startAddress: NString, endAddress: NString, fuel: nat): (r: Option<seq<string>>)
    ensures !(IsValidateIP(startAddress) && IsValidateIP(endAddress)) ==> r == Some([])
    ensures r.None? ==> AddressValue(startAddress.value) <= AddressValue(endAddress.value)
  {
    if IsValidateIP(startAddress) && IsValidateIP(endAddress) then
      var start, end := AddressValue(startAddress.value), AddressValue(endAddress.value);
      if start <= end then CountUp(start, end, [], fuel) else Some([])
    else Some([])
  }

  /** Below the top of the `uint` range the loop as written stops after
      `end - i + 1` iterations with exactly the range. */
  lemma {:induction false} CountUpAgrees(i: U32, end: U32, acc: seq<string>, fuel: nat)
    requires end < MaxU32 && i <= end + 1 && fuel >= end + 1 - i
    ensures CountUp(i, end, acc, fuel) == Some(acc + AddressRange(i, end))
    decreases fuel
  {
    if i <= end {
      CountUpAgrees(i + 1, end, acc + [Format(FromU32(i))], fuel - 1);
      CountUpStep(i, end, acc, fuel);
    } else {
      assert acc + AddressRange(i, end) == acc;
    }
  }

  /** One iteration of the loop as written appends the head of the range. */
  lemma CountUpStep(i: U32, end: U32, acc: seq<string>, fuel: nat)
    requires i <= end < MaxU32 && fuel >= 1
    requires var x := Format(FromU32(i));
      CountUp(i + 1, end, acc + [x], fuel - 1) == Some(acc + [x] + AddressRange(i + 1, end))
    ensures CountUp(i, end, acc, fuel) == Some(acc + AddressRange(i, end))
  {
    var x := Format(FromU32(i));
    assert IncU32(i) == i + 1;
    assert CountUp(i, end, acc, fuel) == CountUp(i + 1, end, acc + [x], fuel - 1);
    RangeCons(i, end);
    AppendFirst(acc, x, AddressRange(i + 1, end), AddressRange(i, end));
  }

  /** A non-empty range is its first address followed by the rest. */
  lemma RangeCons(i: U32, end: U32)
    requires i <= end < MaxU32
    ensures AddressRange(i, end) == [Format(FromU32(i))] + AddressRange(i + 1, end)
  {
    var r, t := AddressRange(i, end), AddressRange(i + 1, end);
    assert |r| == 1 + |t|;
    forall k | 1 <= k < |r|
      ensures r[k] == t[k - 1]
    {
      var n := i + k;
      assert r[k] == Format(FromU32(n));
      assert t[k - 1] == Format(FromU32(n));
    }
    assert r[0] == Format(FromU32(i));
  }

  /** With an end below 255.255.255.255 the source's loop produces the range. */
  lemma AsWrittenAgrees(startAddress: NString, endAddress: NString)
    requires IsValidateIP(endAddress) ==> AddressValue(endAddress.value) < MaxU32
    ensures GetRangeOfAddressesAsWritten(startAddress, endAddress, 0x1_0000_0000)
         == Some(GetRangeOfAddresses(startAddress, endAddress))
  {
    if IsValidateIP(startAddress) && IsValidateIP(endAddress) {
      var start, end := AddressValue(startAddress.value), AddressValue(endAddress.value);
      var r := AddressRange(start, end);
      assert GetRangeOfAddresses(startAddress, endAddress) == r;
      if start <= end {
        CountUpAgrees(start, end, [], 0x1_0000_0000);
        assert [] + r == r;
      } else {
        assert r == [];
      }
    }
  }

  /** Appending a sequence's head and then its tail appends the sequence. */
  lemma AppendFirst<T>(acc: seq<T>, x: T, rest: seq<T>, whole: seq<T>)
    requires whole == [x] + rest
    ensures acc + [x] + rest == acc + whole
  {
  }

  /** The guard `i <= 0xFFFFFFFF` holds for every `uint`, so from any start
      the loop never exits, however many iterations it is given. */
  lemma {:induction false} CountUpNeverEnds(i: U32, acc: seq<string>, fuel: nat)
    ensures CountUp(i, MaxU32, acc, fuel) == None
    decreases fuel
  {
    if fuel > 0 {
      CountUpNeverEnds(IncU32(i), acc + [Format(FromU32(i))], fuel - 1);
    }
  }

  /** 255.255.255.255 is a valid address whose value is the largest `uint`. */
  lemma LastAddressValue()
    ensures IsValidateIP(Str(LastAddress)) && IsDottedQuad(LastAddress) && AddressValue(LastAddress) == MaxU32
  {
    LastAddressText();
    FormatIsValid(Quad(255, 255, 255, 255));
    ParseFormat(Quad(255, 255, 255, 255));
  }

  lemma LastAddressText()
    ensures LastAddress == Format(Quad(255, 255, 255, 255))
  {
    assert Text(25) == "25";
    assert Text(255) == "255";
  }

  /** The range to 255.255.255.255 from any valid start never ends in the
      source, while the intended range is finite and ends at that address. */
  lemma LastAddressHangs(startAddress: NString, fuel: nat)
    requires IsValidateIP(startAddress)
    ensures GetRangeOfAddressesAsWritten(startAddress, Str(LastAddress), fuel) == None
    ensures var r := GetRangeOfAddresses(startAddress, Str(LastAddress));
      |r| == MaxU32 - AddressValue(startAddress.value) + 1 && r[|r| - 1] == LastAddress
  {
    LastAddressValue();
    CountUpNeverEnds(AddressValue(startAddress.value), [], fuel);
    GetRangeEnds(startAddress, Str(LastAddress));
  }

  /** The addresses whose values run from `lo` to `hi`, as `IPAddress.ToString()`
      writes them. */
  function AddressRange(lo: U32, hi: U32): (r: seq<string>)
    ensures |r| == if lo <= hi then hi - lo + 1 else 0
  {
    seq(if lo <= hi then hi - lo + 1 else 0, i requires 0 <= i && lo + i <= hi => Format(FromU32(lo + i)))
  }

  /** The text of a value of at least 2^24 is a valid address with that value. */
  lemma FormatValue(n: U32)
    requires n >= 0x100_0000
    ensures IsValidateIP(Str(Format(FromU32(n))))
    ensures IsDottedQuad(Format(FromU32(n))) && AddressValue(Format(FromU32(n))) == n
  {
    ParseFormat(FromU32(n));
    FormatIsValid(FromU32(n));
  }

  /** Every address of the range passes the validator, and the `i`-th has the
      start's value plus `i`. */
  lemma GetRangeElements(startAddress: NString, endAddress: NString)
    ensures var r := GetRangeOfAddresses(startAddress, endAddress);
      forall i :: 0 <= i < |r| ==> IsValidateIP(Str(r[i]))
    ensures var r := GetRangeOfAddresses(startAddress, endAddress);
      forall i :: 0 <= i < |r| ==> IsDottedQuad(r[i]) && AddressValue(r[i]) == AddressValue(startAddress.value) + i
  {
    var r := GetRangeOfAddresses(startAddress, endAddress);
    if r != [] {
      ValidAddressValue(startAddress);
      var lo, hi := AddressValue(startAddress.value), AddressValue(endAddress.value);
      forall i | 0 <= i < |r|
        ensures IsValidateIP(Str(r[i])) && IsDottedQuad(r[i]) && AddressValue(r[i]) == lo + i
      {
        RangeElement(lo, hi, i);
      }
    }
  }

  /** The `i`-th address of a range starting at a value with a nonzero first
      octet is valid and has the value `lo + i`. */
  lemma RangeElement(lo: U32, hi: U32, i: nat)
    requires 0x100_0000 <= lo && i < |AddressRange(lo, hi)|
    ensures IsValidateIP(Str(AddressRange(lo, hi)[i])) && IsDottedQuad(AddressRange(lo, hi)[i])
    ensures AddressValue(AddressRange(lo, hi)[i]) == lo + i
  {
    FormatValue(lo + i);
  }

  /** A non-empty range starts with the start address and ends with the end
      address, each text exactly as given. */
  lemma GetRangeEnds(startAddress: NString, endAddress: NString)
    ensures var r := GetRangeOfAddresses(startAddress, endAddress);
      r != [] ==> r[0] == startAddress.value && r[|r| - 1] == endAddress.value
  {
    var r := GetRangeOfAddresses(startAddress, endAddress);
    if r != [] {
      GetRangeElements(startAddress, endAddress);
      AddressValueInjective(r[0], startAddress.value);
      AddressValueInjective(r[|r| - 1], endAddress.value);
    }
  }

  /** The range is strictly ascending in network order, so it has no duplicates. */
  lemma GetRangeAscending(startAddress: NString, endAddress: NString)
    ensures var r := GetRangeOfAddresses(startAddress, endAddress);
      forall i, j :: 0 <= i < j < |r| ==> IsDottedQuad(r[i]) && IsDottedQuad(r[j]) && AddressValue(r[i]) < AddressValue(r[j])
  {
    GetRangeElements(startAddress, endAddress);
  }

  /** A settings value the first/last address computations can parse: the
      loopback address needs nothing, any other needs parsable texts. */
  predicate ParsableSettings(settings: InterfaceAdapterIpSettings) {
    settings.ipAddress != Str(LoopbackAddress) ==> IsQuadText(settings.ipAddress) && IsQuadText(settings.subnet)
  }

  /** The octets of the first address: the masked address with its last
      octet incremented as a `byte`. */
  function FirstQuad(a: Quad, m: Quad): (q: Quad)
    ensures forall i :: 0 <= i < 3 ==> q.Octet(i) == AndByte(a.Octet(i), m.Octet(i))
    ensures q.o3 == Inc(AndByte(a.o3, m.o3))
  {
    var n := MaskQuad(a, m);
    n.(o3 := Inc(n.o3))
  }

  /** `GetFirstIpAddressInNetwork` for the given interface settings: the first
      address of the network, or the loopback address unchanged. */
  function GetFirstIpAddressInNetwork(settings: InterfaceAdapterIpSettings): (r: string)
    requires ParsableSettings(settings)
    ensures settings.ipAddress == Str(LoopbackAddress) ==> r == LoopbackAddress
    ensures settings.ipAddress != Str(LoopbackAddress) ==>
      IsDottedQuad(r) && Parse(r) == FirstQuad(QuadOf(settings.ipAddress), QuadOf(settings.subnet))
  {
    if settings.ipAddress != Str(LoopbackAddress) then
      var q := FirstQuad(QuadOf(settings.ipAddress), QuadOf(settings.subnet));
      ParseFormat(q);
      Format(q)
    else settings.ipAddress.value
  }

  /** One octet of the last address before the decrement: 255 where the masked
      octet and the mask octet are both 0, the masked octet otherwise. */
  function FillOctet(a: Byte, m: Byte): (r: Byte)
    ensures r == 255 || r == AndByte(a, m)
  {
    var x := AndByte(a, m);
    if x == 0 && m == 0 then 255 else x
  }

  /** The two-part test of the fill rule reduces to the mask octet alone: a
      masked octet of 0 under a nonzero mask octet stays 0. */
  lemma FillOctetByMask(a: Byte, m: Byte)
    ensures FillOctet(a, m) == (if m == 0 then 255 else AndByte(a, m))
  {
  }

  /** The literal value returned when there is no real interface. */
  const LoopbackLastAddress: string := "127.255.255.254"

  /** The octets of the last address: the fill rule on every octet, then the
      `byte` decrement of the last one. */
  function LastQuad(a: Quad, m: Quad): (q: Quad)
    ensures forall i :: 0 <= i < 3 ==> q.Octet(i) == (if m.Octet(i) == 0 then 255 else AndByte(a.Octet(i), m.Octet(i)))
    ensures q.o3 == Dec(if m.o3 == 0 then 255 else AndByte(a.o3, m.o3))
  {
    FillOctetByMask(a.o0, m.o0);
    FillOctetByMask(a.o1, m.o1);
    FillOctetByMask(a.o2, m.o2);
    FillOctetByMask(a.o3, m.o3);
    Quad(FillOctet(a.o0, m.o0), FillOctet(a.o1, m.o1), FillOctet(a.o2, m.o2), Dec(FillOctet(a.o3, m.o3)))
  }

  /** `GetLastIpAddressInNetwork` for the given interface settings. */
  function GetLastIpAddressInNetwork(settings: InterfaceAdapterIpSettings): (r: string)
    requires ParsableSettings(settings)
    ensures settings.ipAddress == Str(LoopbackAddress) ==> r == LoopbackLastAddress
    ensures settings.ipAddress != Str(LoopbackAddress) ==>
      IsDottedQuad(r) && Parse(r) == LastQuad(QuadOf(settings.ipAddress), QuadOf(settings.subnet))
  {
    if settings.ipAddress != Str(LoopbackAddress) then
      var q := LastQuad(QuadOf(settings.ipAddress), QuadOf(settings.subnet));
      ParseFormat(q);
      Format(q)
    else LoopbackLastAddress
  }

  /** The loopback shortcut of the first address gives what the general rule
      gives for 127.0.0.1/255.0.0.0, whatever the stored mask. */
  lemma LoopbackFirstAgrees(settings: InterfaceAdapterIpSettings)
    requires settings.ipAddress == Str(LoopbackAddress)
    ensures GetFirstIpAddressInNetwork(settings) == Format(FirstQuad(Quad(127, 0, 0, 1), Quad(255, 0, 0, 0)))
  {
    LoopbackMasks();
    LoopbackAddressText();
  }

  /** The loopback shortcut of the last address gives what the general rule
      gives for 127.0.0.1/255.0.0.0, whatever the stored mask. */
  lemma LoopbackLastAgrees(settings: InterfaceAdapterIpSettings)
    requires settings.ipAddress == Str(LoopbackAddress)
    ensures GetLastIpAddressInNetwork(settings) == Format(LastQuad(Quad(127, 0, 0, 1), Quad(255, 0, 0, 0)))
  {
    LoopbackMasks();
    LoopbackLastText();
  }

  lemma LoopbackAddressText()
    ensures LoopbackAddress == Format(Quad(127, 0, 0, 1))
  {
    Text127();
    assert Text(0) == "0" && Text(1) == "1";
  }

  lemma LoopbackLastText()
    ensures LoopbackLastAddress == Format(Quad(127, 255, 255, 254))
  {
    Text127();
    assert Text(25) == "25";
    assert Text(255) == "255" && Text(254) == "254";
  }

  lemma Text127()
    ensures Text(127) == "127"
  {
    assert Text(12) == "12";
  }

  /** The first- and last-address octets of 127.0.0.1/255.0.0.0. */
  lemma LoopbackMasks()
    ensures FirstQuad(Quad(127, 0, 0, 1), Quad(255, 0, 0, 0)) == Quad(127, 0, 0, 1)
    ensures LastQuad(Quad(127, 0, 0, 1), Quad(255, 0, 0, 0)) == Quad(127, 255, 255, 254)
  {
    AndAllOnes(127);
  }

  /** The two loopback answers are dotted quads, the first below the last. */
  lemma LoopbackBoundsOrdered()
    ensures IsDottedQuad(LoopbackAddress) && IsDottedQuad(LoopbackLastAddress)
    ensures AddressValue(LoopbackAddress) < AddressValue(LoopbackLastAddress)
  {
    LoopbackAddressText();
    LoopbackLastText();
    ParseFormat(Quad(127, 0, 0, 1));
    ParseFormat(Quad(127, 255, 255, 254));
  }

  /** When the mask's last octet is 0, the first and last addresses lie in the
      interface's own network. */
  lemma BoundsInOwnNetwork(settings: InterfaceAdapterIpSettings)
    requires settings.ipAddress != Str(LoopbackAddress) && ParsableSettings(settings)
    requires QuadOf(settings.subnet).o3 == 0
    ensures IsQuadText(Str(GetFirstIpAddressInNetwork(settings)))
    ensures IsSameNetwork(Str(GetFirstIpAddressInNetwork(settings)), settings.ipAddress, settings.subnet)
    ensures IsQuadText(Str(GetLastIpAddressInNetwork(settings)))
    ensures IsSameNetwork(Str(GetLastIpAddressInNetwork(settings)), settings.ipAddress, settings.subnet)
  {
    var a, m := QuadOf(settings.ipAddress), QuadOf(settings.subnet);
    AndAbsorb(a.o0, m.o0);
    AndAbsorb(a.o1, m.o1);
    AndAbsorb(a.o2, m.o2);
    FillMasked(a.o0, m.o0);
    FillMasked(a.o1, m.o1);
    FillMasked(a.o2, m.o2);
    var f, l := FirstQuad(a, m), LastQuad(a, m);
    assert MaskQuad(f, m) == MaskQuad(a, m);
    assert MaskQuad(l, m) == MaskQuad(a, m);
  }

  /** Masking a filled octet gives the masked octet back. */
  lemma FillMasked(a: Byte, m: Byte)
    ensures AndByte(if m == 0 then 255 else AndByte(a, m), m) == AndByte(a, m)
  {
    AndAbsorb(a, m);
  }

  /** When the mask's last octet is 0, the first address does not come after
      the last one in network order. */
  lemma FirstNotAfterLast(settings: InterfaceAdapterIpSettings)
    requires ParsableSettings(settings)
    requires settings.ipAddress != Str(LoopbackAddress) ==> QuadOf(settings.subnet).o3 == 0
    ensures IsDottedQuad(GetFirstIpAddressInNetwork(settings)) && IsDottedQuad(GetLastIpAddressInNetwork(settings))
    ensures AddressValue(GetFirstIpAddressInNetwork(settings)) < AddressValue(GetLastIpAddressInNetwork(settings))
  {
    if settings.ipAddress == Str(LoopbackAddress) {
      LoopbackBoundsOrdered();
    } else {
      var a, m := QuadOf(settings.ipAddress), QuadOf(settings.subnet);
      var f, l := FirstQuad(a, m), LastQuad(a, m);
      assert f.o0 <= l.o0 && f.o1 <= l.o1 && f.o2 <= l.o2 && f.o3 < l.o3;
    }
  }
}
