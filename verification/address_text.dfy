/** Dotted-quad text: the validator `IsValidateIP`, the per-octet parse the
    source performs with `Split('.')` and `int.Parse`, and `IPAddress.ToString()`. */
module AddressText {
  import opened Decimal
  import opened Octets

  /** A C# `string` reference, which may be null. */
  datatype NString = Null | Str(value: string)

  predicate NoDot(s: string) {
    forall i :: 0 <= i < |s| ==> s[i] != '.'
  }

  /** `s.Split('.')`: the pieces between dots, empty pieces included. */
  function Split(s: string): (parts: seq<string>)
    ensures |parts| >= 1
    ensures forall i :: 0 <= i < |parts| ==> NoDot(parts[i])
  {
    if |s| == 0 then [""]
    else
      var init := Split(s[..|s| - 1]);
      var c := s[|s| - 1];
      if c == '.' then init + [""]
      else init[..|init| - 1] + [init[|init| - 1] + [c]]
  }

  /** The number of dots in `s`. */
  function DotCount(s: string): (n: nat) {
    if |s| == 0 then 0 else (if s[0] == '.' then 1 else 0) + DotCount(s[1..])
  }

  lemma {:induction false} DotCountLast(s: string)
    requires |s| > 0
    ensures DotCount(s) == DotCount(s[..|s| - 1]) + (if s[|s| - 1] == '.' then 1 else 0)
    decreases |s|
  {
    if |s| > 1 {
      DotCountLast(s[1..]);
      assert s[1..][..|s| - 2] == s[..|s| - 1][1..];
    }
  }

  /** `Split` yields one piece more than there are dots. */
  lemma {:induction false} SplitCount(s: string)
    ensures |Split(s)| == DotCount(s) + 1
    decreases |s|
  {
    if |s| > 0 {
      SplitCount(s[..|s| - 1]);
      DotCountLast(s);
    }
  }

  /** Four pieces joined by dots. */
  function Dotted(p0: string, p1: string, p2: string, p3: string): string {
    p0 + "." + p1 + "." + p2 + "." + p3
  }

  // The pattern `^A(\.B){3}$` of the validator, where A and B only match
  // digits: a text matches it exactly when splitting it at the dots yields
  // four pieces, the first matching A and the other three matching B.

  /** Alternative `A` = `[1-9]|[1-9][0-9]|1[0-9][0-9]|2[0-4][0-9]|25[0-5]`. */
  predicate LeadingOctetPattern(s: string) {
    || (|s| == 1 && '1' <= s[0] <= '9')
    || (|s| == 2 && '1' <= s[0] <= '9' && IsDigit(s[1]))
    || (|s| == 3 && s[0] == '1' && IsDigit(s[1]) && IsDigit(s[2]))
    || (|s| == 3 && s[0] == '2' && '0' <= s[1] <= '4' && IsDigit(s[2]))
    || (|s| == 3 && s[0] == '2' && s[1] == '5' && '0' <= s[2] <= '5')
  }

  /** Alternative `B` = `[0-9]|[1-9][0-9]|1[0-9][0-9]|2[0-4][0-9]|25[0-5]`. */
  predicate OctetPattern(s: string) {
    (|s| == 1 && IsDigit(s[0])) || LeadingOctetPattern(s)
  }

  /** Four canonical decimal octets, the form `IPAddress.ToString()` writes:
      every piece matches `B`. */
  predicate IsDottedQuad(s: string) {
    var p := Split(s);
    |p| == 4 && OctetPattern(p[0]) && OctetPattern(p[1]) && OctetPattern(p[2]) && OctetPattern(p[3])
  }

  /** The whole validation pattern, anchored at both ends: four pieces, the
      first matching `A` and the other three `B` (`A` implies `B`). */
  predicate MatchesAddressPattern(s: string) {
    IsDottedQuad(s) && LeadingOctetPattern(Split(s)[0])
  }

  /** `IsValidateIP`: false for null or empty text, otherwise the pattern match. */
  predicate IsValidateIP(address: NString) {
    if address.Null? || |address.value| == 0 then false
    else MatchesAddressPattern(address.value)
  }

  /** The octet pattern accepts exactly the decimal texts of 0 .. 255 without
      leading zeros. */
  lemma OctetPatternIsByteText(s: string)
    ensures OctetPattern(s) <==> IsCanonical(s) && Value(s) <= 255
    ensures LeadingOctetPattern(s) <==> IsCanonical(s) && 1 <= Value(s) <= 255
  {
    if 1 <= |s| <= 3 && AllDigits(s) {
      ValueOfShort(s);
    }
    if IsCanonical(s) && Value(s) <= 255 {
      TextOfValue(s);
      TextLengthBelowThousand(Value(s));
    }
  }

  lemma TextIsOctetPattern(b: Byte)
    ensures OctetPattern(Text(b))
    ensures LeadingOctetPattern(Text(b)) <==> b >= 1
  {
    ValueOfText(b);
    OctetPatternIsByteText(Text(b));
  }

  /** A valid address is in particular a dotted quad. */
  lemma ValidIsDottedQuad(address: NString)
    requires IsValidateIP(address)
    ensures IsDottedQuad(address.value)
  {
  }

  function OctetOf(s: string): (b: Byte)
    requires OctetPattern(s)
    ensures Text(b) == s
  {
    OctetPatternIsByteText(s);
    TextOfValue(s);
    Value(s)
  }

  /** The four octets of a dotted quad, as the source reads them with
      `(byte)int.Parse(s.Split('.')[i])`. */
  function Parse(s: string): (q: Quad)
    requires IsDottedQuad(s)
    ensures forall i :: 0 <= i < 4 ==> Text(q.Octet(i)) == Split(s)[i]
  {
    var p := Split(s);
    Quad(OctetOf(p[0]), OctetOf(p[1]), OctetOf(p[2]), OctetOf(p[3]))
  }

  /** `IPAddress.ToString()` of an IPv4 address. */
  function Format(q: Quad): (s: string)
    ensures Split(s) == [Text(q.o0), Text(q.o1), Text(q.o2), Text(q.o3)]
  {
    TextNoDot(q.o0);
    TextNoDot(q.o1);
    TextNoDot(q.o2);
    TextNoDot(q.o3);
    SplitDotted(Text(q.o0), Text(q.o1), Text(q.o2), Text(q.o3));
    Dotted(Text(q.o0), Text(q.o1), Text(q.o2), Text(q.o3))
  }

  /** The decimal text of a number holds no dot. */
  lemma TextNoDot(n: nat)
    ensures NoDot(Text(n))
  {
    assert AllDigits(Text(n));
  }

  /** The network-order value of a dotted quad. */
  function AddressValue(s: string): U32
    requires IsDottedQuad(s)
  {
    ToU32(Parse(s))
  }

  lemma {:induction false} SplitNoDot(s: string)
    requires NoDot(s)
    ensures Split(s) == [s]
    decreases |s|
  {
    if |s| > 0 {
      SplitNoDot(s[..|s| - 1]);
      assert s[..|s| - 1] + [s[|s| - 1]] == s;
    }
  }

  /** Splitting `t + "." + u` for a dot-free `u` adds `u` as one last piece. */
  lemma {:induction false} SplitAppendPiece(t: string, u: string)
    requires NoDot(u)
    ensures Split(t + "." + u) == Split(t) + [u]
    decreases |u|
  {
    if |u| == 0 {
      assert t + "." + u == t + ".";
      assert (t + ".")[..|t + "."| - 1] == t;
    } else {
      var u' := u[..|u| - 1];
      SplitAppendPiece(t, u');
      var s := t + "." + u;
      assert s[..|s| - 1] == t + "." + u';
      assert u' + [u[|u| - 1]] == u;
    }
  }

  lemma SplitDotted(p0: string, p1: string, p2: string, p3: string)
    requires NoDot(p0) && NoDot(p1) && NoDot(p2) && NoDot(p3)
    ensures Split(Dotted(p0, p1, p2, p3)) == [p0, p1, p2, p3]
  {
    SplitNoDot(p0);
    SplitAppendPiece(p0, p1);
    SplitAppendPiece(p0 + "." + p1, p2);
    SplitAppendPiece(p0 + "." + p1 + "." + p2, p3);
  }

  /** Pieces joined by dots: the inverse of `Split`. */
  function Join(parts: seq<string>): (s: string)
    requires |parts| >= 1
  {
    if |parts| == 1 then parts[0]
    else Join(parts[..|parts| - 1]) + "." + parts[|parts| - 1]
  }

  /** Extending the last piece extends the joined text. */
  lemma JoinExtendLast(parts: seq<string>, c: char)
    requires |parts| >= 1
    ensures Join(parts[..|parts| - 1] + [parts[|parts| - 1] + [c]]) == Join(parts) + [c]
  {
    var n := |parts|;
    var q := parts[..n - 1] + [parts[n - 1] + [c]];
    if n > 1 {
      assert q[..n - 1] == parts[..n - 1];
    }
  }

  /** Joining the pieces of a text gives the text back. */
  lemma {:induction false} JoinSplit(s: string)
    ensures Join(Split(s)) == s
    decreases |s|
  {
    if |s| > 0 {
      var s' := s[..|s| - 1];
      var c := s[|s| - 1];
      JoinSplit(s');
      var p' := Split(s');
      if c == '.' {
        assert (p' + [""])[..|p'|] == p';
      } else {
        JoinExtendLast(p', c);
      }
      assert s' + [c] == s;
    }
  }

  /** Null and empty text are rejected before the pattern is tried. */
  lemma IsValidateIPRejectsEmpty()
    ensures !IsValidateIP(Null)
    ensures !IsValidateIP(Str(""))
  {
  }

  /** The validator accepts exactly the dotted quads whose first octet is not
      0: the pattern's `A` is `B` without the single digit `0`. */
  lemma IsValidateIPIffFirstOctet(address: NString)
    ensures IsValidateIP(address)
        <==> address.Str? && IsDottedQuad(address.value) && Parse(address.value).o0 >= 1
  {
    if address.Str? && IsDottedQuad(address.value) {
      FormatParse(address.value);
      FormatIsValid(Parse(address.value));
    }
  }

  /** Formatting always yields a dotted quad, which parses back to the same
      octets. */
  lemma ParseFormat(q: Quad)
    ensures IsDottedQuad(Format(q))
    ensures Parse(Format(q)) == q
  {
    TextIsOctetPattern(q.o0);
    TextIsOctetPattern(q.o1);
    TextIsOctetPattern(q.o2);
    TextIsOctetPattern(q.o3);
    SplitDotted(Text(q.o0), Text(q.o1), Text(q.o2), Text(q.o3));
    ValueOfText(q.o0);
    ValueOfText(q.o1);
    ValueOfText(q.o2);
    ValueOfText(q.o3);
  }

  /** A formatted address passes the validator exactly when its first octet is
      not 0. */
  lemma FormatIsValid(q: Quad)
    ensures IsValidateIP(Str(Format(q))) <==> q.o0 >= 1
  {
    ParseFormat(q);
    TextIsOctetPattern(q.o0);
  }

  /** Every dotted quad is the formatting of its own octets. */
  lemma FormatParse(s: string)
    requires IsDottedQuad(s)
    ensures Format(Parse(s)) == s
  {
    JoinSplit(s);
    var p := Split(s);
    assert Join(p[..1]) == p[0];
    assert p[..2][..1] == p[..1];
    assert Join(p[..2]) == p[0] + "." + p[1];
    assert p[..3][..2] == p[..2];
    assert Join(p[..3]) == p[0] + "." + p[1] + "." + p[2];
    assert Join(p) == Dotted(p[0], p[1], p[2], p[3]);
  }

  /** Two dotted quads are equal exactly when their values are. */
  lemma AddressValueInjective(s: string, t: string)
    requires IsDottedQuad(s) && IsDottedQuad(t)
    ensures AddressValue(s) == AddressValue(t) <==> s == t
  {
    if AddressValue(s) == AddressValue(t) {
      ToU32Injective(Parse(s), Parse(t));
      FormatParse(s);
      FormatParse(t);
    }
  }

  /** A valid address has a first octet of at least 1, so its value is at least 2^24. */
  lemma ValidAddressValue(address: NString)
    requires IsValidateIP(address)
    ensures AddressValue(address.value) >= 0x100_0000
  {
    var p := Split(address.value);
    OctetPatternIsByteText(p[0]);
  }
}
