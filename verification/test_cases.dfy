/** The concrete cases the library's unit tests pin, restated about the model.
    Cases whose outcome depends on a live network are not here. */
module TestCases {
  import opened Decimal
  import opened Octets
  import opened AddressText
  import opened InterfaceSettings
  import opened NetworkSettings

  lemma ValidAddressAccepted()
    ensures IsValidateIP(Str("192.168.1.1"))
  {
    Spell192_168_1_1();
    ValidQuad(Quad(192, 168, 1, 1));
  }

  /** A four-digit last octet is rejected. */
  lemma LongOctetRejected()
    ensures !IsValidateIP(Str("192.168.1.1444"))
  {
    assert "192.168.1.1444" == Dotted("192", "168", "1", "1444");
    SplitDotted("192", "168", "1", "1444");
  }

  /** An octet above 255 is rejected. */
  lemma LargeOctetRejected()
    ensures !IsValidateIP(Str("192.168.1.256"))
  {
    assert "192.168.1.256" == Dotted("192", "168", "1", "256");
    SplitDotted("192", "168", "1", "256");
  }

  /** Two octets are not an address. */
  lemma ShortAddressRejected()
    ensures !IsValidateIP(Str("192.168"))
  {
    SplitCount("192.168");
  }

  /** A leading zero is rejected, as is a first octet of 0. */
  lemma LeadingZeroRejected()
    ensures !IsValidateIP(Str("192.168.01.1"))
    ensures !IsValidateIP(Str("0.168.1.1"))
  {
    assert "192.168.01.1" == Dotted("192", "168", "01", "1");
    SplitDotted("192", "168", "01", "1");
    assert "0.168.1.1" == Dotted("0", "168", "1", "1");
    SplitDotted("0", "168", "1", "1");
  }

  /** Two addresses of 192.168.14.0/24 share the network. */
  lemma SameNetworkExample()
    ensures IsQuadText(Str("192.168.14.200")) && IsQuadText(Str("192.168.14.220"))
    ensures IsQuadText(Str("255.255.255.0"))
    ensures IsSameNetwork(Str("192.168.14.200"), Str("192.168.14.220"), Str("255.255.255.0"))
  {
    Spell192_168_14_200();
    Spell192_168_14_220();
    Spell255_255_255_0();
    SameNetworkOfQuads(Quad(192, 168, 14, 200), Quad(192, 168, 14, 220), Quad(255, 255, 255, 0));
    AndAllOnes(192);
    AndAllOnes(168);
    AndAllOnes(14);
  }

  /** 192.168.11.200 and 192.168.14.220 differ in the third octet under /24. */
  lemma DifferentNetworkExample()
    ensures IsQuadText(Str("192.168.11.200")) && IsQuadText(Str("192.168.14.220"))
    ensures IsQuadText(Str("255.255.255.0"))
    ensures !IsSameNetwork(Str("192.168.11.200"), Str("192.168.14.220"), Str("255.255.255.0"))
  {
    Spell192_168_11_200();
    Spell192_168_14_220();
    Spell255_255_255_0();
    SameNetworkOfQuads(Quad(192, 168, 11, 200), Quad(192, 168, 14, 220), Quad(255, 255, 255, 0));
    AndAllOnes(11);
    AndAllOnes(14);
  }

  /** The subnet test on the texts of three quads is the test on the quads. */
  lemma SameNetworkOfQuads(a: Quad, b: Quad, m: Quad)
    ensures IsQuadText(Str(Format(a))) && IsQuadText(Str(Format(b))) && IsQuadText(Str(Format(m)))
    ensures IsSameNetwork(Str(Format(a)), Str(Format(b)), Str(Format(m))) <==> MaskQuad(a, m) == MaskQuad(b, m)
  {
    ParseFormat(a);
    ParseFormat(b);
    ParseFormat(m);
  }

  /** A start above the end, 192.168.1.220 .. 192.168.1.200, gives no addresses. */
  lemma DescendingRangeEmpty()
    ensures GetRangeOfAddresses(Str("192.168.1.220"), Str("192.168.1.200")) == []
  {
    Spell192_168_1_200();
    Spell192_168_1_220();
    ValidQuad(Quad(192, 168, 1, 220));
    ValidQuad(Quad(192, 168, 1, 200));
  }

  /** 192.168.0.200 .. 192.168.1.255 holds 312 addresses, and the count carries
      into the third octet after 192.168.0.255. */
  lemma RangeAcrossOctetExample()
    ensures var r := GetRangeOfAddresses(Str("192.168.0.200"), Str("192.168.1.255"));
      && |r| == 312
      && r[55] == "192.168.0.255"
      && r[56] == "192.168.1.0"
  {
    Spell192_168_0_200();
    Spell192_168_0_255();
    Spell192_168_1_0();
    Spell192_168_1_255();
    ValidQuad(Quad(192, 168, 0, 200));
    ValidQuad(Quad(192, 168, 1, 255));
    CarryValues();
  }

  lemma CarryValues()
    ensures FromU32(0xC0A8_00FF) == Quad(192, 168, 0, 255)
    ensures FromU32(0xC0A8_0100) == Quad(192, 168, 1, 0)
  {
    FromToU32(Quad(192, 168, 0, 255));
    FromToU32(Quad(192, 168, 1, 0));
  }

  /** The text of `q`, with a nonzero first octet, passes the validator and has
      the value of `q`. */
  lemma ValidQuad(q: Quad)
    requires q.o0 >= 1
    ensures IsValidateIP(Str(Format(q))) && AddressValue(Format(q)) == ToU32(q)
  {
    FormatIsValid(q);
    ParseFormat(q);
  }

  /** The interface 192.168.1.12/255.255.255.0 has first address 192.168.1.1. */
  lemma ClassCFirst()
    ensures ParsableSettings(NewSettings(Str("192.168.1.12"), Str("255.255.255.0")))
    ensures GetFirstIpAddressInNetwork(NewSettings(Str("192.168.1.12"), Str("255.255.255.0"))) == "192.168.1.1"
  {
    Spell192_168_1_1();
    Spell192_168_1_12();
    Spell255_255_255_0();
    BoundsOfQuads(Quad(192, 168, 1, 12), Quad(255, 255, 255, 0));
    AndAllOnes(192);
    AndAllOnes(168);
    AndAllOnes(1);
    assert FirstQuad(Quad(192, 168, 1, 12), Quad(255, 255, 255, 0)) == Quad(192, 168, 1, 1);
  }

  /** The interface 192.168.1.12/255.255.255.0 has last address 192.168.1.254. */
  lemma ClassCLast()
    ensures ParsableSettings(NewSettings(Str("192.168.1.12"), Str("255.255.255.0")))
    ensures GetLastIpAddressInNetwork(NewSettings(Str("192.168.1.12"), Str("255.255.255.0"))) == "192.168.1.254"
  {
    Spell192_168_1_12();
    Spell192_168_1_254();
    Spell255_255_255_0();
    BoundsOfQuads(Quad(192, 168, 1, 12), Quad(255, 255, 255, 0));
    AndAllOnes(192);
    AndAllOnes(168);
    AndAllOnes(1);
    assert LastQuad(Quad(192, 168, 1, 12), Quad(255, 255, 255, 0)) == Quad(192, 168, 1, 254);
  }

  /** The interface 10.0.169.53/255.255.0.0 has first address 10.0.0.1. */
  lemma ClassBFirst()
    ensures ParsableSettings(NewSettings(Str("10.0.169.53"), Str("255.255.0.0")))
    ensures GetFirstIpAddressInNetwork(NewSettings(Str("10.0.169.53"), Str("255.255.0.0"))) == "10.0.0.1"
  {
    Spell10_0_0_1();
    Spell10_0_169_53();
    Spell255_255_0_0();
    BoundsOfQuads(Quad(10, 0, 169, 53), Quad(255, 255, 0, 0));
    AndAllOnes(10);
    AndAllOnes(0);
    assert FirstQuad(Quad(10, 0, 169, 53), Quad(255, 255, 0, 0)) == Quad(10, 0, 0, 1);
  }

  /** The interface 10.0.169.53/255.255.0.0 has last address 10.0.255.254. */
  lemma ClassBLast()
    ensures ParsableSettings(NewSettings(Str("10.0.169.53"), Str("255.255.0.0")))
    ensures GetLastIpAddressInNetwork(NewSettings(Str("10.0.169.53"), Str("255.255.0.0"))) == "10.0.255.254"
  {
    Spell10_0_169_53();
    Spell10_0_255_254();
    Spell255_255_0_0();
    BoundsOfQuads(Quad(10, 0, 169, 53), Quad(255, 255, 0, 0));
    AndAllOnes(10);
    AndAllOnes(0);
    assert LastQuad(Quad(10, 0, 169, 53), Quad(255, 255, 0, 0)) == Quad(10, 0, 255, 254);
  }

  /** The fill rule looks at the mask octet alone, not at CIDR prefixes: under
      255.255.240.0 the third octet of 10.0.8.1 masks to 0 and stays 0, so the
      last address is 10.0.0.254 (the last address of the /20 block would be
      10.0.15.254). */
  lemma MaskedZeroStaysZero()
    ensures ParsableSettings(NewSettings(Str("10.0.8.1"), Str("255.255.240.0")))
    ensures GetLastIpAddressInNetwork(NewSettings(Str("10.0.8.1"), Str("255.255.240.0"))) == "10.0.0.254"
  {
    Spell10_0_0_254();
    Spell10_0_8_1();
    Spell255_255_240_0();
    BoundsOfQuads(Quad(10, 0, 8, 1), Quad(255, 255, 240, 0));
    NonAlignedLastQuad();
    assert LastQuad(Quad(10, 0, 8, 1), Quad(255, 255, 240, 0)) == Quad(10, 0, 0, 254);
  }

  lemma NonAlignedLastQuad()
    ensures LastQuad(Quad(10, 0, 8, 1), Quad(255, 255, 240, 0)) == Quad(10, 0, 0, 254)
  {
    AndAllOnes(10);
    AndAllOnes(0);
    assert AndByte(8, 240) == 0;
  }

  /** The `byte` increment wraps: under the host mask, 10.0.0.255 has first
      address 10.0.0.0. */
  lemma FirstOctetWraps()
    ensures ParsableSettings(NewSettings(Str("10.0.0.255"), Str("255.255.255.255")))
    ensures GetFirstIpAddressInNetwork(NewSettings(Str("10.0.0.255"), Str("255.255.255.255"))) == "10.0.0.0"
  {
    Spell10_0_0_0();
    Spell10_0_0_255();
    Spell255_255_255_255();
    BoundsOfQuads(Quad(10, 0, 0, 255), Quad(255, 255, 255, 255));
    AndAllOnes(10);
    AndAllOnes(0);
    AndAllOnes(255);
    assert FirstQuad(Quad(10, 0, 0, 255), Quad(255, 255, 255, 255)) == Quad(10, 0, 0, 0);
  }

  /** The `byte` decrement wraps: under the host mask, 10.0.0.0 has last
      address 10.0.0.255. */
  lemma LastOctetWraps()
    ensures ParsableSettings(NewSettings(Str("10.0.0.0"), Str("255.255.255.255")))
    ensures GetLastIpAddressInNetwork(NewSettings(Str("10.0.0.0"), Str("255.255.255.255"))) == "10.0.0.255"
  {
    Spell10_0_0_0();
    Spell10_0_0_255();
    Spell255_255_255_255();
    BoundsOfQuads(Quad(10, 0, 0, 0), Quad(255, 255, 255, 255));
    AndAllOnes(10);
    AndAllOnes(0);
    assert LastQuad(Quad(10, 0, 0, 0), Quad(255, 255, 255, 255)) == Quad(10, 0, 0, 255);
  }

  /** The first and last addresses of the interface given by the texts of two
      quads, away from the loopback address, are the texts of the computed quads. */
  lemma BoundsOfQuads(a: Quad, m: Quad)
    requires a.o0 != 127
    ensures ParsableSettings(NewSettings(Str(Format(a)), Str(Format(m))))
    ensures GetFirstIpAddressInNetwork(NewSettings(Str(Format(a)), Str(Format(m)))) == Format(FirstQuad(a, m))
    ensures GetLastIpAddressInNetwork(NewSettings(Str(Format(a)), Str(Format(m)))) == Format(LastQuad(a, m))
  {
    ParseFormat(a);
    ParseFormat(m);
    LoopbackAddressText();
    ParseFormat(Quad(127, 0, 0, 1));
    var settings := NewSettings(Str(Format(a)), Str(Format(m)));
    FormatParse(GetFirstIpAddressInNetwork(settings));
    FormatParse(GetLastIpAddressInNetwork(settings));
  }

  // The texts of the addresses above, as the validator and `Format` see them.

  lemma OctetTexts()
    ensures Text(0) == "0" && Text(1) == "1" && Text(8) == "8" && Text(10) == "10"
    ensures Text(11) == "11" && Text(12) == "12" && Text(14) == "14" && Text(53) == "53"
    ensures Text(168) == "168" && Text(169) == "169" && Text(192) == "192" && Text(200) == "200"
    ensures Text(220) == "220" && Text(240) == "240" && Text(254) == "254" && Text(255) == "255"
  {
    ThreeDigitTexts();
  }

  lemma ThreeDigitTexts()
    ensures Text(168) == "168" && Text(169) == "169" && Text(192) == "192" && Text(200) == "200"
    ensures Text(220) == "220" && Text(240) == "240" && Text(254) == "254" && Text(255) == "255"
  {
    assert Text(16) == "16" && Text(19) == "19" && Text(20) == "20";
    assert Text(22) == "22" && Text(24) == "24" && Text(25) == "25";
  }

  lemma Spell10_0_0_0()
    ensures "10.0.0.0" == Format(Quad(10, 0, 0, 0))
  {
    OctetTexts();
    assert Format(Quad(10, 0, 0, 0)) == Dotted("10", "0", "0", "0");
  }

  lemma Spell10_0_0_1()
    ensures "10.0.0.1" == Format(Quad(10, 0, 0, 1))
  {
    OctetTexts();
    assert Format(Quad(10, 0, 0, 1)) == Dotted("10", "0", "0", "1");
  }

  lemma Spell10_0_0_254()
    ensures "10.0.0.254" == Format(Quad(10, 0, 0, 254))
  {
    OctetTexts();
    assert Format(Quad(10, 0, 0, 254)) == Dotted("10", "0", "0", "254");
  }

  lemma Spell10_0_0_255()
    ensures "10.0.0.255" == Format(Quad(10, 0, 0, 255))
  {
    OctetTexts();
    assert Format(Quad(10, 0, 0, 255)) == Dotted("10", "0", "0", "255");
  }

  lemma Spell10_0_8_1()
    ensures "10.0.8.1" == Format(Quad(10, 0, 8, 1))
  {
    OctetTexts();
    assert Format(Quad(10, 0, 8, 1)) == Dotted("10", "0", "8", "1");
  }

  lemma Spell10_0_169_53()
    ensures "10.0.169.53" == Format(Quad(10, 0, 169, 53))
  {
    OctetTexts();
    assert Format(Quad(10, 0, 169, 53)) == Dotted("10", "0", "169", "53");
  }

  lemma Spell10_0_255_254()
    ensures "10.0.255.254" == Format(Quad(10, 0, 255, 254))
  {
    OctetTexts();
    assert Format(Quad(10, 0, 255, 254)) == Dotted("10", "0", "255", "254");
  }

  lemma Spell192_168_0_200()
    ensures "192.168.0.200" == Format(Quad(192, 168, 0, 200))
  {
    OctetTexts();
    assert Format(Quad(192, 168, 0, 200)) == Dotted("192", "168", "0", "200");
  }

  lemma Spell192_168_0_255()
    ensures "192.168.0.255" == Format(Quad(192, 168, 0, 255))
  {
    OctetTexts();
    assert Format(Quad(192, 168, 0, 255)) == Dotted("192", "168", "0", "255");
  }

  lemma Spell192_168_1_0()
    ensures "192.168.1.0" == Format(Quad(192, 168, 1, 0))
  {
    OctetTexts();
    assert Format(Quad(192, 168, 1, 0)) == Dotted("192", "168", "1", "0");
  }

  lemma Spell192_168_1_1()
    ensures "192.168.1.1" == Format(Quad(192, 168, 1, 1))
  {
    OctetTexts();
    assert Format(Quad(192, 168, 1, 1)) == Dotted("192", "168", "1", "1");
  }

  lemma Spell192_168_1_12()
    ensures "192.168.1.12" == Format(Quad(192, 168, 1, 12))
  {
    OctetTexts();
    assert Format(Quad(192, 168, 1, 12)) == Dotted("192", "168", "1", "12");
  }

  lemma Spell192_168_1_200()
    ensures "192.168.1.200" == Format(Quad(192, 168, 1, 200))
  {
    OctetTexts();
    assert Format(Quad(192, 168, 1, 200)) == Dotted("192", "168", "1", "200");
  }

  lemma Spell192_168_1_220()
    ensures "192.168.1.220" == Format(Quad(192, 168, 1, 220))
  {
    OctetTexts();
    assert Format(Quad(192, 168, 1, 220)) == Dotted("192", "168", "1", "220");
  }

  lemma Spell192_168_1_254()
    ensures "192.168.1.254" == Format(Quad(192, 168, 1, 254))
  {
    OctetTexts();
    assert Format(Quad(192, 168, 1, 254)) == Dotted("192", "168", "1", "254");
  }

  lemma Spell192_168_1_255()
    ensures "192.168.1.255" == Format(Quad(192, 168, 1, 255))
  {
    OctetTexts();
    assert Format(Quad(192, 168, 1, 255)) == Dotted("192", "168", "1", "255");
  }

  lemma Spell192_168_11_200()
    ensures "192.168.11.200" == Format(Quad(192, 168, 11, 200))
  {
    OctetTexts();
    assert Format(Quad(192, 168, 11, 200)) == Dotted("192", "168", "11", "200");
  }

  lemma Spell192_168_14_200()
    ensures "192.168.14.200" == Format(Quad(192, 168, 14, 200))
  {
    OctetTexts();
    assert Format(Quad(192, 168, 14, 200)) == Dotted("192", "168", "14", "200");
  }

  lemma Spell192_168_14_220()
    ensures "192.168.14.220" == Format(Quad(192, 168, 14, 220))
  {
    OctetTexts();
    assert Format(Quad(192, 168, 14, 220)) == Dotted("192", "168", "14", "220");
  }

  lemma Spell255_255_0_0()
    ensures "255.255.0.0" == Format(Quad(255, 255, 0, 0))
  {
    OctetTexts();
    assert Format(Quad(255, 255, 0, 0)) == Dotted("255", "255", "0", "0");
  }

  lemma Spell255_255_240_0()
    ensures "255.255.240.0" == Format(Quad(255, 255, 240, 0))
  {
    OctetTexts();
    assert Format(Quad(255, 255, 240, 0)) == Dotted("255", "255", "240", "0");
  }

  lemma Spell255_255_255_0()
    ensures "255.255.255.0" == Format(Quad(255, 255, 255, 0))
  {
    OctetTexts();
    assert Format(Quad(255, 255, 255, 0)) == Dotted("255", "255", "255", "0");
  }

  lemma Spell255_255_255_255()
    ensures "255.255.255.255" == Format(Quad(255, 255, 255, 255))
  {
    OctetTexts();
    assert Format(Quad(255, 255, 255, 255)) == Dotted("255", "255", "255", "255");
  }
}
