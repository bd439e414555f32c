/**
 Worked instances of the route command: the masks of /0, /8, /24 and /32,
 the command for 10.10.10.5/8, and text that is rejected. Each fact about a
 concrete address is reached through the general lemmas in small steps, so
 that no single proof has to evaluate a whole literal address at once.
 */
module RouteExamples {
  import opened Wrappers
  import opened Text
  import opened IPv4
  import opened Route
  import opened Emit

  /** The all-zero dotted quad is written 0.0.0.0. */
  lemma ZeroText()
    ensures DottedQuad(0, 0, 0, 0) == "0.0.0.0"
  {
    assert Decimal(0) == "0";
  }

  /** The dotted quads of the /8, /24 and /32 masks, written out. */
  lemma MaskTexts()
    ensures DottedQuad(255, 0, 0, 0) == "255.0.0.0"
    ensures DottedQuad(255, 255, 255, 0) == "255.255.255.0"
    ensures DottedQuad(255, 255, 255, 255) == "255.255.255.255"
  {
    assert Decimal(0) == "0" && Decimal(255) == "255";
  }

  /** The dotted quads of 10.0.0.0 and 10.10.10.5, and the decimal of the length 8, written out. */
  lemma AddressTexts()
    ensures DottedQuad(10, 0, 0, 0) == "10.0.0.0"
    ensures DottedQuad(10, 10, 10, 5) == "10.10.10.5"
    ensures Decimal(8) == "8"
  {
    assert Decimal(0) == "0" && Decimal(5) == "5" && Decimal(10) == "10";
  }

  /** The text of an address from its four octet values. */
  lemma TextOf(a: Addr, x0: nat, x1: nat, x2: nat, x3: nat)
    requires Octet(a, 0) == x0 && Octet(a, 1) == x1 && Octet(a, 2) == x2 && Octet(a, 3) == x3
    ensures ToString(a) == DottedQuad(x0, x1, x2, x3)
  {
    ToStringOctets(a);
  }

  /** Every octet of the /0 mask is 0. */
  lemma Mask0Octets()
    ensures Octet(Mask(0), 0) == 0 && Octet(Mask(0), 1) == 0 && Octet(Mask(0), 2) == 0 && Octet(Mask(0), 3) == 0
  {
    MaskOctetValue(0, 0);
    MaskOctetValue(0, 1);
    MaskOctetValue(0, 2);
    MaskOctetValue(0, 3);
  }

  /** The /8 mask has octets 255, 0, 0, 0. */
  lemma Mask8Octets()
    ensures Octet(Mask(8), 0) == 255 && Octet(Mask(8), 1) == 0 && Octet(Mask(8), 2) == 0 && Octet(Mask(8), 3) == 0
  {
    MaskOctetValue(8, 0);
    MaskOctetValue(8, 1);
    MaskOctetValue(8, 2);
    MaskOctetValue(8, 3);
  }

  /** The /24 mask has octets 255, 255, 255, 0. */
  lemma Mask24Octets()
    ensures Octet(Mask(24), 0) == 255 && Octet(Mask(24), 1) == 255 && Octet(Mask(24), 2) == 255 && Octet(Mask(24), 3) == 0
  {
    MaskOctetValue(24, 0);
    MaskOctetValue(24, 1);
    MaskOctetValue(24, 2);
    MaskOctetValue(24, 3);
  }

  /** The /32 mask has four octets 255. */
  lemma Mask32Octets()
    ensures Octet(Mask(32), 0) == 255 && Octet(Mask(32), 1) == 255 && Octet(Mask(32), 2) == 255 && Octet(Mask(32), 3) == 255
  {
    MaskOctetValue(32, 0);
    MaskOctetValue(32, 1);
    MaskOctetValue(32, 2);
    MaskOctetValue(32, 3);
  }

  /** An address whose four octets are zero is written 0.0.0.0. */
  lemma ZeroAddrText(a: Addr)
    requires Octet(a, 0) == 0 && Octet(a, 1) == 0 && Octet(a, 2) == 0 && Octet(a, 3) == 0
    ensures ToString(a) == "0.0.0.0"
  {
    TextOf(a, 0, 0, 0, 0);
    ZeroText();
  }

  /**
   The /0 mask is written 0.0.0.0. The mask is passed in as `m` so that the
   literal `Mask(0)` stays out of this proof: the solver then reasons from
   the octet values alone instead of unfolding the 32 mask bits.
   */
  lemma ZeroMaskText(m: Addr)
    requires m == Mask(0)
    ensures ToString(m) == "0.0.0.0"
  {
    Mask0Octets();
    ZeroAddrText(m);
  }

  /** /0 gives the all-zero mask. */
  lemma MaskText0()
    ensures ToString(Mask(0)) == "0.0.0.0"
  {
    ZeroMaskText(Mask(0));
  }

  /** /8 gives one whole octet of ones. */
  lemma MaskText8()
    ensures ToString(Mask(8)) == "255.0.0.0"
  {
    Mask8Octets();
    TextOf(Mask(8), 255, 0, 0, 0);
    MaskTexts();
  }

  /** /24 gives three whole octets of ones. */
  lemma MaskText24()
    ensures ToString(Mask(24)) == "255.255.255.0"
  {
    Mask24Octets();
    TextOf(Mask(24), 255, 255, 255, 0);
    MaskTexts();
  }

  /** /32 gives the all-ones mask. */
  lemma MaskText32()
    ensures ToString(Mask(32)) == "255.255.255.255"
  {
    Mask32Octets();
    TextOf(Mask(32), 255, 255, 255, 255);
    MaskTexts();
  }

  /** The prefix text of address 10.10.10.5 with length 8. */
  lemma PrefixText(a: Addr)
    requires Octet(a, 0) == 10 && Octet(a, 1) == 10 && Octet(a, 2) == 10 && Octet(a, 3) == 5
    ensures CidrToString(Cidr(a, 8)) == "10.10.10.5/8"
  {
    TextOf(a, 10, 10, 10, 5);
    AddressTexts();
  }

  /** Any address starting with 10, cut to length 8, has network 10.0.0.0. */
  lemma NetworkText(c: Cidr)
    requires c.len == 8 && Octet(c.addr, 0) == 10
    ensures ToString(Network(c)) == "10.0.0.0"
  {
    NetworkOctetKept(c, 0);
    NetworkOctetCleared(c, 1);
    NetworkOctetCleared(c, 2);
    NetworkOctetCleared(c, 3);
    TextOf(Network(c), 10, 0, 0, 0);
    AddressTexts();
  }

  /** The command template filled in with 10.0.0.0 and 255.0.0.0. */
  lemma CommandText10()
    ensures Command("10.0.0.0", "255.0.0.0") == "route ADD 10.0.0.0 MASK 255.0.0.0 0.0.0.0"
  {
  }

  /** Every /8 prefix of an address starting with 10 routes 10.0.0.0, with the /8 mask still in symbolic form. */
  lemma RouteOf10(a: Addr)
    requires Octet(a, 0) == 10
    ensures BuildRouteCommand(CidrToString(Cidr(a, 8))) == RouteResult(Command("10.0.0.0", ToString(Mask(8))), None)
  {
    BuildRouteCommandOf(Cidr(a, 8));
    NetworkText(Cidr(a, 8));
  }

  /** Every /8 prefix of an address starting with 10 routes 10.0.0.0 with mask 255.0.0.0. */
  lemma CommandOf10(a: Addr)
    requires Octet(a, 0) == 10
    ensures BuildRouteCommand(CidrToString(Cidr(a, 8))) == RouteResult("route ADD 10.0.0.0 MASK 255.0.0.0 0.0.0.0", None)
  {
    RouteOf10(a);
    MaskText8();
    CommandText10();
  }

  /** The host bits of 10.10.10.5/8 are cleared: the command routes 10.0.0.0 with mask 255.0.0.0. */
  lemma Command10()
    ensures BuildRouteCommand("10.10.10.5/8") == RouteResult("route ADD 10.0.0.0 MASK 255.0.0.0 0.0.0.0", None)
  {
    var a := FromOctets(10, 10, 10, 5);
    PrefixText(a);
    CommandOf10(a);
  }

  /** Text without a slash is rejected with an error and no command. */
  lemma RejectsNoSlash()
    ensures BuildRouteCommand("not-a-cidr") == RouteResult("", Some(InvalidCidr("not-a-cidr")))
  {
  }

  /** A record whose IPv4 field is `not-a-cidr` gives no command. */
  lemma RejectedRecord(y: PrefixRecord)
    requires y.ipv4Prefix == "not-a-cidr"
    ensures RouteOf(y) == None
  {
    RejectsNoSlash();
  }

  /** A record whose IPv4 field is `10.10.10.5/8` gives its command. */
  lemma KeptRecord(z: PrefixRecord)
    requires z.ipv4Prefix == "10.10.10.5/8"
    ensures RouteOf(z) == Some("route ADD 10.0.0.0 MASK 255.0.0.0 0.0.0.0")
  {
    Command10();
  }

  /** Of two outcomes without a command and one with, only the last command is kept. */
  lemma KeptLast(cmd: string)
    ensures Kept([None, None, Some(cmd)]) == [cmd]
  {
    var os: seq<Option<string>> := [None, None, Some(cmd)];
    assert os[..2] == [None, None] && os[..2][..1] == [None] && os[..2][..1][..0] == [];
    assert Kept(os[..2][..1]) == [];
    assert Kept(os[..2]) == [];
  }

  /** Mapping over a three-element list, element by element. */
  lemma MapThree<T, U>(f: T -> U, x: T, y: T, z: T)
    ensures Map(f, [x, y, z]) == [f(x), f(y), f(z)]
  {
  }

  /** The lines of three records are the commands kept from their three outcomes. */
  lemma ThreeOutcomes(x: PrefixRecord, y: PrefixRecord, z: PrefixRecord)
    ensures Routes([x, y, z]) == Kept([RouteOf(x), RouteOf(y), RouteOf(z)])
  {
    MapThree(RouteOf, x, y, z);
  }

  /** Of an IPv6-only record, an unparsable one and 10.10.10.5/8, only the last gives a line. */
  lemma EmitSkips(x: PrefixRecord, y: PrefixRecord, z: PrefixRecord)
    requires x.ipv4Prefix == "" && y.ipv4Prefix == "not-a-cidr" && z.ipv4Prefix == "10.10.10.5/8"
    ensures Routes([x, y, z]) == ["route ADD 10.0.0.0 MASK 255.0.0.0 0.0.0.0"]
  {
    RejectedRecord(y);
    KeptRecord(z);
    ThreeOutcomes(x, y, z);
    KeptLast("route ADD 10.0.0.0 MASK 255.0.0.0 0.0.0.0");
  }
}
