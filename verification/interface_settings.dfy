/** The address and mask of a network interface, a plain value with
    structural equality. */
module InterfaceSettings {
  import opened Octets
  import opened AddressText

  const LoopbackAddress: string := "127.0.0.1"
  const LoopbackMask: string := "255.0.0.0"

  datatype InterfaceAdapterIpSettings = InterfaceAdapterIpSettings(ipAddress: NString, subnet: NString)

  /** A C# `object` handed to `Equals`: null, an instance of some other class,
      or a settings value. */
  datatype Object = NullObject | OtherObject | SettingsObject(settings: InterfaceAdapterIpSettings)

  /** The parameterless constructor: the loopback interface. */
  function DefaultSettings(): (r: InterfaceAdapterIpSettings)
    ensures r.ipAddress == Str(LoopbackAddress) && r.subnet == Str(LoopbackMask)
  {
    InterfaceAdapterIpSettings(Str(LoopbackAddress), Str(LoopbackMask))
  }

  /** The loopback address passes the validator. */
  lemma LoopbackAddressValid()
    ensures IsValidateIP(DefaultSettings().ipAddress)
  {
    FormatIsValid(Quad(127, 0, 0, 1));
    assert Format(Quad(127, 0, 0, 1)) == LoopbackAddress;
  }

  /** The loopback mask passes the validator. */
  lemma LoopbackMaskValid()
    ensures IsValidateIP(DefaultSettings().subnet)
  {
    FormatIsValid(Quad(255, 0, 0, 0));
    assert Format(Quad(255, 0, 0, 0)) == LoopbackMask;
  }

  /** The two-argument constructor keeps both texts as given, null included. */
  function NewSettings(ipAddress: NString, subnet: NString): (r: InterfaceAdapterIpSettings)
    ensures r.ipAddress == ipAddress && r.subnet == subnet
  {
    InterfaceAdapterIpSettings(ipAddress, subnet)
  }

  /** `Equals(object)`: false unless `other` is a settings value whose address
      and mask texts both equal this one's. */
  function Equals(self: InterfaceAdapterIpSettings, other: Object): (r: bool)
    ensures r <==> other == SettingsObject(self)
  {
    match other
    case SettingsObject(s) => self.ipAddress == s.ipAddress && self.subnet == s.subnet
    case _ => false
  }

  lemma EqualsNullOrOtherType(self: InterfaceAdapterIpSettings)
    ensures !Equals(self, NullObject) && !Equals(self, OtherObject)
  {
  }

  lemma EqualsReflexive(self: InterfaceAdapterIpSettings)
    ensures Equals(self, SettingsObject(self))
  {
  }

  lemma EqualsSymmetric(a: InterfaceAdapterIpSettings, b: InterfaceAdapterIpSettings)
    ensures Equals(a, SettingsObject(b)) <==> Equals(b, SettingsObject(a))
  {
  }

  lemma EqualsTransitive(a: InterfaceAdapterIpSettings, b: InterfaceAdapterIpSettings, c: InterfaceAdapterIpSettings)
    requires Equals(a, SettingsObject(b)) && Equals(b, SettingsObject(c))
    ensures Equals(a, SettingsObject(c))
  {
  }

  /** Settings built from the same two texts are equal, whichever constructor
      is used. */
  lemma ConstructorsAgree()
    ensures Equals(NewSettings(Str(LoopbackAddress), Str(LoopbackMask)), SettingsObject(DefaultSettings()))
    ensures !Equals(NewSettings(Str("10.0.169.53"), Str("255.255.0.0")), SettingsObject(DefaultSettings()))
  {
  }
}
