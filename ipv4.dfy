/**
 IPv4 addresses and masks as 32-bit values, the contiguous mask of a prefix
 length, masking, dotted-decimal rendering, and the `a.b.c.d/p` prefix
 notation of section 3.1 of RFC 4632, restricted to IPv4.
 */
module IPv4 {
  import opened Wrappers
  import opened Text
  import opened Bits

  /** An address or mask: its 32 bits, most significant first; bits 8k..8k+7 form octet k. */
  type Addr = b: seq<bool> | |b| == 32 witness Zeros(32)

  /** The value 0..255 of octet `k` of an address, `k` = 0 being the first one written. */
  function Octet(a: Addr, k: nat): (v: nat)
    requires k < 4
    ensures v < 256
  {
    ValueBound(a[8 * k .. 8 * k + 8]);
    Value(a[8 * k .. 8 * k + 8])
  }

  /** The address whose octets have the values `x0.x1.x2.x3`. */
  function FromOctets(x0: nat, x1: nat, x2: nat, x3: nat): (a: Addr)
    requires x0 < 256 && x1 < 256 && x2 < 256 && x3 < 256
    ensures Octet(a, 0) == x0 && Octet(a, 1) == x1 && Octet(a, 2) == x2 && Octet(a, 3) == x3
  {
    var a := ToBits(x0, 8) + ToBits(x1, 8) + ToBits(x2, 8) + ToBits(x3, 8);
    OctetSlices(ToBits(x0, 8), ToBits(x1, 8), ToBits(x2, 8), ToBits(x3, 8));
    ValueOfToBits(x0, 8);
    ValueOfToBits(x1, 8);
    ValueOfToBits(x2, 8);
    ValueOfToBits(x3, 8);
    a
  }

  /** The octets of four concatenated 8-bit blocks are those blocks. */
  lemma OctetSlices(b0: seq<bool>, b1: seq<bool>, b2: seq<bool>, b3: seq<bool>)
    requires |b0| == 8 && |b1| == 8 && |b2| == 8 && |b3| == 8
    ensures var a := b0 + b1 + b2 + b3;
      a[0..8] == b0 && a[8..16] == b1 && a[16..24] == b2 && a[24..32] == b3
  {
  }

  /** An address is the concatenation of its four 8-bit blocks. */
  lemma OctetsJoin(a: Addr)
    ensures a == a[0..8] + a[8..16] + a[16..24] + a[24..32]
  {
  }

  /** An address is determined by the values of its four octets. */
  lemma OctetsDetermine(a: Addr)
    ensures FromOctets(Octet(a, 0), Octet(a, 1), Octet(a, 2), Octet(a, 3)) == a
  {
    var b0, b1, b2, b3 := a[0..8], a[8..16], a[16..24], a[24..32];
    OctetsJoin(a);
    ToBitsOfValue(b0);
    ToBitsOfValue(b1);
    ToBitsOfValue(b2);
    ToBitsOfValue(b3);
  }

  /** The byte whose `n` leading bits are one and the rest zero, as ^(0xff >> n) computes it. */
  function MaskOctet(n: nat): (v: nat)
    requires n <= 8
    ensures v < 256 && ToBits(v, 8) == Ones(n) + Zeros(8 - n)
  {
    var bits := Ones(n) + Zeros(8 - n);
    OnesThenZerosValue(bits, n, 8 - n);
    assert Pow2(8) == 256;
    ToBitsOfValue(bits);
    256 - Pow2(8 - n)
  }

  /** How many of the first `p` bits of an address fall in octet `k`. */
  function OnesInOctet(p: nat, k: nat): (n: nat)
    ensures n <= 8
  {
    if p <= 8 * k then 0 else if p - 8 * k >= 8 then 8 else p - 8 * k
  }

  /** The mask of prefix length `p`: exactly `p` leading one-bits, then `32 - p` zero-bits. */
  function Mask(p: nat): (m: Addr)
    requires p <= 32
    ensures forall i | 0 <= i < 32 :: m[i] == (i < p)
  {
    Ones(p) + Zeros(32 - p)
  }

  /** The mask as Go's net.CIDRMask builds it for a 4-byte address: octet by octet, each octet holding its share of the `p` ones. */
  function CIDRMask(p: nat): (m: Addr)
    requires p <= 32
    ensures m == Mask(p)
  {
    var n0, n1, n2, n3 := OnesInOctet(p, 0), OnesInOctet(p, 1), OnesInOctet(p, 2), OnesInOctet(p, 3);
    var m := FromOctets(MaskOctet(n0), MaskOctet(n1), MaskOctet(n2), MaskOctet(n3));
    FromOctetsBlocks(MaskOctet(n0), MaskOctet(n1), MaskOctet(n2), MaskOctet(n3));
    MaskBlocks(p);
    m
  }

  /** The bits of the address with given octet values are the 8-bit renderings of those values. */
  lemma FromOctetsBlocks(x0: nat, x1: nat, x2: nat, x3: nat)
    requires x0 < 256 && x1 < 256 && x2 < 256 && x3 < 256
    ensures FromOctets(x0, x1, x2, x3) == ToBits(x0, 8) + ToBits(x1, 8) + ToBits(x2, 8) + ToBits(x3, 8)
  {
  }

  /** The four mask octets of prefix length `p`, as bits, are `p` ones followed by zeros. */
  lemma MaskBlocks(p: nat)
    requires p <= 32
    ensures ToBits(MaskOctet(OnesInOctet(p, 0)), 8) + ToBits(MaskOctet(OnesInOctet(p, 1)), 8)
          + ToBits(MaskOctet(OnesInOctet(p, 2)), 8) + ToBits(MaskOctet(OnesInOctet(p, 3)), 8)
         == Ones(p) + Zeros(32 - p)
  {
    var n0, n1, n2, n3 := OnesInOctet(p, 0), OnesInOctet(p, 1), OnesInOctet(p, 2), OnesInOctet(p, 3);
    OnesBlocks(p, Ones(n0) + Zeros(8 - n0), Ones(n1) + Zeros(8 - n1),
               Ones(n2) + Zeros(8 - n2), Ones(n3) + Zeros(8 - n3));
  }

  /** Four 8-bit blocks each holding its share of `p` leading ones make `p` ones followed by zeros. */
  lemma OnesBlocks(p: nat, b0: seq<bool>, b1: seq<bool>, b2: seq<bool>, b3: seq<bool>)
    requires p <= 32
    requires b0 == Ones(OnesInOctet(p, 0)) + Zeros(8 - OnesInOctet(p, 0))
    requires b1 == Ones(OnesInOctet(p, 1)) + Zeros(8 - OnesInOctet(p, 1))
    requires b2 == Ones(OnesInOctet(p, 2)) + Zeros(8 - OnesInOctet(p, 2))
    requires b3 == Ones(OnesInOctet(p, 3)) + Zeros(8 - OnesInOctet(p, 3))
    ensures b0 + b1 + b2 + b3 == Ones(p) + Zeros(32 - p)
  {
    var m := b0 + b1 + b2 + b3;
    forall i | 0 <= i < 32
      ensures m[i] == (i < p)
    {
      if i < 8 {
        assert m[i] == b0[i];
      } else if i < 16 {
        assert m[i] == b1[i - 8];
      } else if i < 24 {
        assert m[i] == b2[i - 16];
      } else {
        assert m[i] == b3[i - 24];
      }
    }
  }

  /** Keeps the bits of `a` that are set in `m`, as Go's IP.Mask does byte by byte. */
  function ApplyMask(a: Addr, m: Addr): Addr
  {
    seq(32, i requires 0 <= i < 32 => a[i] && m[i])
  }

  /** The four decimal fields of an address. */
  function Fields(a: Addr): (parts: seq<string>)
    ensures |parts| == 4
  {
    [Decimal(Octet(a, 0)), Decimal(Octet(a, 1)), Decimal(Octet(a, 2)), Decimal(Octet(a, 3))]
  }

  /** The fields of the address with given octet values are the decimals of those values. */
  lemma FieldsOfFromOctets(x0: nat, x1: nat, x2: nat, x3: nat)
    requires x0 < 256 && x1 < 256 && x2 < 256 && x3 < 256
    ensures Fields(FromOctets(x0, x1, x2, x3)) == [Decimal(x0), Decimal(x1), Decimal(x2), Decimal(x3)]
  {
  }

  /** Dotted-decimal rendering, as Go's IP.String prints a 4-byte address. */
  function ToString(a: Addr): string
  {
    Join(Fields(a), '.')
  }

  /** Four numbers in decimal separated by dots, whether or not each fits in an octet. */
  function DottedQuad(x0: nat, x1: nat, x2: nat, x3: nat): string
  {
    Decimal(x0) + "." + Decimal(x1) + "." + Decimal(x2) + "." + Decimal(x3)
  }

  /** Dotted-decimal text is the four octet values in decimal, separated by dots. */
  lemma ToStringOctets(a: Addr)
    ensures ToString(a) == DottedQuad(Octet(a, 0), Octet(a, 1), Octet(a, 2), Octet(a, 3))
  {
    Join4(Decimal(Octet(a, 0)), Decimal(Octet(a, 1)), Decimal(Octet(a, 2)), Decimal(Octet(a, 3)), '.');
  }

  /** Dotted-decimal text consists of digits and dots only. */
  lemma ToStringChars(a: Addr)
    ensures forall k :: 0 <= k < |ToString(a)| ==> IsDigit(ToString(a)[k]) || ToString(a)[k] == '.'
  {
    JoinChars(Fields(a), '.', c => IsDigit(c) || c == '.');
  }

  /** Reads four dot-separated decimal octets, each 0..255; any other text is rejected. */
  function Parse(s: string): (r: Option<Addr>)
    ensures r.Some? ==> ToString(r.value) == s
  {
    var parts := Split(s, '.');
    if |parts| != 4 then None
    else
      var r := ParseFields(parts);
      if r.Some? then Some(r.value) else None
  }

  /** Reads four decimal fields, each 0..255, into the address with those octets. */
  function ParseFields(parts: seq<string>): (r: Option<Addr>)
    requires |parts| == 4
    ensures r.Some? ==> Fields(r.value) == parts
  {
    var d0, d1, d2, d3 := ParseDecimal(parts[0], 255), ParseDecimal(parts[1], 255),
                          ParseDecimal(parts[2], 255), ParseDecimal(parts[3], 255);
    if d0.Some? && d1.Some? && d2.Some? && d3.Some? then
      var a := FromOctets(d0.value, d1.value, d2.value, d3.value);
      FieldsOfFromOctets(d0.value, d1.value, d2.value, d3.value);
      FourParts(parts);
      Some(a)
    else None
  }

  /** Reading a rendered address gives the address back. */
  lemma {:induction false} ParseToString(a: Addr)
    ensures Parse(ToString(a)) == Some(a)
  {
    var parts := Fields(a);
    assert forall i :: 0 <= i < 4 ==> '.' !in parts[i];
    SplitJoin(parts, '.');
    forall k | 0 <= k < 4
      ensures ParseDecimal(parts[k], 255) == Some(Octet(a, k))
    {
      ParseDecimalOfDecimal(Octet(a, k), 255);
    }
    OctetsDetermine(a);
  }

  /** An IPv4 address with a prefix length, the value that `a.b.c.d/len` denotes. */
  datatype Cidr = Cidr(addr: Addr, len: nat)

  /** Prefix notation: the dotted-decimal address, a slash and the decimal prefix length. */
  function CidrToString(c: Cidr): string
  {
    ToString(c.addr) + "/" + Decimal(c.len)
  }

  /** Reads `a.b.c.d/p` with a prefix length 0..32; any other text is rejected. */
  function ParseCidr(s: string): (r: Option<Cidr>)
    ensures r.Some? ==> r.value.len <= 32 && CidrToString(r.value) == s
  {
    var parts := Split(s, '/');
    if |parts| != 2 then None
    else
      match (Parse(parts[0]), ParseDecimal(parts[1], 32))
      case (Some(a), Some(p)) =>
        assert Join(parts, '/') == parts[0] + "/" + parts[1];
        Some(Cidr(a, p))
      case _ => None
  }

  /** A decimal numeral holds no character other than digits. */
  lemma NotInDecimal(n: nat, ch: char)
    requires !IsDigit(ch)
    ensures ch !in Decimal(n)
  {
  }

  /** Text with an octet above 255 is not an address. */
  lemma ParseRejectsLargeOctet(x0: nat, x1: nat, x2: nat, x3: nat)
    requires x0 > 255 || x1 > 255 || x2 > 255 || x3 > 255
    ensures Parse(DottedQuad(x0, x1, x2, x3)) == None
  {
    var parts := [Decimal(x0), Decimal(x1), Decimal(x2), Decimal(x3)];
    NotInDecimal(x0, '.');
    NotInDecimal(x1, '.');
    NotInDecimal(x2, '.');
    NotInDecimal(x3, '.');
    Join4(parts[0], parts[1], parts[2], parts[3], '.');
    SplitJoin(parts, '.');
    ParseDecimalOfDecimal(x0, 255);
    ParseDecimalOfDecimal(x1, 255);
    ParseDecimalOfDecimal(x2, 255);
    ParseDecimalOfDecimal(x3, 255);
  }

  /** Splitting `left/right` at the slash gives the two sides, when neither holds a slash. */
  lemma SplitSlash(left: string, right: string)
    requires '/' !in left && '/' !in right
    ensures Split(left + "/" + right, '/') == [left, right]
  {
    var parts := [left, right];
    assert parts[1..] == [right];
    assert Join(parts, '/') == left + "/" + right;
    SplitJoin(parts, '/');
  }

  /** A prefix whose address part is not an address is rejected. */
  lemma ParseCidrRejectsAddress(addr: string, len: string)
    requires '/' !in addr && '/' !in len && Parse(addr).None?
    ensures ParseCidr(addr + "/" + len) == None
  {
    SplitSlash(addr, len);
  }

  /** A prefix length above 32 is rejected, whatever the address part. */
  lemma ParseCidrRejectsLongPrefix(addr: string, n: nat)
    requires '/' !in addr && n > 32
    ensures ParseCidr(addr + "/" + Decimal(n)) == None
  {
    NotInDecimal(n, '/');
    SplitSlash(addr, Decimal(n));
    ParseDecimalOfDecimal(n, 32);
  }

  /** Reading rendered prefix notation gives the prefix back. */
  lemma {:induction false} ParseCidrToString(c: Cidr)
    requires c.len <= 32
    ensures ParseCidr(CidrToString(c)) == Some(c)
  {
    var parts := [ToString(c.addr), Decimal(c.len)];
    ToStringChars(c.addr);
    assert forall i :: 0 <= i < 2 ==> '/' !in parts[i];
    assert Join(parts, '/') == CidrToString(c);
    SplitJoin(parts, '/');
    ParseToString(c.addr);
    ParseDecimalOfDecimal(c.len, 32);
  }

  /** Text is accepted exactly when it renders some prefix of length at most 32. */
  lemma ParseCidrAccepts(s: string)
    ensures ParseCidr(s).Some? <==> exists c: Cidr :: c.len <= 32 && CidrToString(c) == s
  {
    if c: Cidr :| c.len <= 32 && CidrToString(c) == s {
      ParseCidrToString(c);
    }
  }

  /** The network a prefix denotes: its first `len` bits, with the host bits after them cleared. */
  function Network(c: Cidr): (n: Addr)
    requires c.len <= 32
    ensures forall i | 0 <= i < 32 :: n[i] == (i < c.len && c.addr[i])
  {
    var m := Mask(c.len);
    assert forall i | 0 <= i < 32 :: m[i] == (i < c.len);
    ApplyMask(c.addr, m)
  }

  /** The host part of a prefix: `len` zero-bits, then the bits of its address past `len`. */
  function HostPart(c: Cidr): (h: Addr)
    requires c.len <= 32
    ensures forall i | 0 <= i < 32 :: h[i] == (c.len <= i && c.addr[i])
  {
    var h := Zeros(c.len) + c.addr[c.len..];
    assert forall i | c.len <= i < 32 :: h[i] == c.addr[i];
    h
  }

  /** The network is the first `len` bits of the address followed by zeros. */
  lemma NetworkSplit(c: Cidr)
    requires c.len <= 32
    ensures Network(c) == c.addr[..c.len] + Zeros(32 - c.len)
  {
    var n, n' := Network(c), c.addr[..c.len] + Zeros(32 - c.len);
    forall i | 0 <= i < 32 ensures n[i] == n'[i] {
      if i < c.len {
        assert n'[i] == c.addr[i];
      }
    }
  }

  /** As 32-bit numbers: the mask of `p` is 2^32 - 2^(32-p). */
  lemma MaskValue(p: nat)
    requires p <= 32
    ensures Value(Mask(p)) == Pow2(32) - Pow2(32 - p)
  {
    OnesThenZerosValue(Mask(p), p, 32 - p);
  }

  /** As 32-bit numbers: the network is the value of the first `len` bits times the block size 2^(32-len). */
  lemma NetworkValue(c: Cidr)
    requires c.len <= 32
    ensures Value(Network(c)) == Value(c.addr[..c.len]) * Pow2(32 - c.len)
  {
    NetworkSplit(c);
    PrefixZerosValue(Network(c), c.addr[..c.len], 32 - c.len);
  }

  /** As 32-bit numbers: the host part is the value of the bits past `len`, below the block size 2^(32-len). */
  lemma HostValue(c: Cidr)
    requires c.len <= 32
    ensures Value(HostPart(c)) == Value(c.addr[c.len..]) < Pow2(32 - c.len)
  {
    ZerosSuffixValue(HostPart(c), c.len, c.addr[c.len..]);
    ValueBound(c.addr[c.len..]);
  }

  /** As 32-bit numbers: an address is its network plus its host part. */
  lemma NetworkHostValue(c: Cidr)
    requires c.len <= 32
    ensures Value(c.addr) == Value(Network(c)) + Value(HostPart(c))
  {
    NetworkValue(c);
    HostValue(c);
    ValueSplit(c.addr, c.len);
  }

  /** Octet `k` of the mask of `p` holds the share of the `p` leading ones that falls in it: 255 when all of them, 0 when none. */
  lemma MaskOctetValue(p: nat, k: nat)
    requires p <= 32 && k < 4
    ensures Octet(Mask(p), k) == MaskOctet(OnesInOctet(p, k))
    ensures 8 * k + 8 <= p ==> Octet(Mask(p), k) == 255
    ensures p <= 8 * k ==> Octet(Mask(p), k) == 0
  {
    var m := CIDRMask(p);
    if k == 0 {
      assert Octet(m, 0) == MaskOctet(OnesInOctet(p, 0));
    } else if k == 1 {
      assert Octet(m, 1) == MaskOctet(OnesInOctet(p, 1));
    } else if k == 2 {
      assert Octet(m, 2) == MaskOctet(OnesInOctet(p, 2));
    } else {
      assert Octet(m, 3) == MaskOctet(OnesInOctet(p, 3));
    }
    assert Pow2(0) == 1 && Pow2(8) == 256;
  }

  /** Octets wholly inside the prefix are kept. */
  lemma NetworkOctetKept(c: Cidr, k: nat)
    requires c.len <= 32 && k < 4 && 8 * k + 8 <= c.len
    ensures Octet(Network(c), k) == Octet(c.addr, k)
  {
    var n, lo := Network(c), 8 * k;
    assert forall i | lo <= i < lo + 8 :: n[i] == c.addr[i];
    assert n[lo..lo + 8] == c.addr[lo..lo + 8];
  }

  /** Octets wholly past the prefix are cleared. */
  lemma NetworkOctetCleared(c: Cidr, k: nat)
    requires c.len <= 32 && k < 4 && c.len <= 8 * k
    ensures Octet(Network(c), k) == 0
  {
    var n, lo := Network(c), 8 * k;
    assert forall i | lo <= i < lo + 8 :: !n[i];
    assert n[lo..lo + 8] == Zeros(8);
    ValueZeros(8);
  }

  /** An address is its own network exactly when all its host bits are zero. */
  lemma NetworkFixedPoint(c: Cidr)
    requires c.len <= 32
    ensures Network(c) == c.addr <==> HostPart(c) == Zeros(32)
  {
    var n, h := Network(c), HostPart(c);
    if h == Zeros(32) {
      forall i | 0 <= i < 32 ensures n[i] == c.addr[i] {
        if c.len <= i {
          assert !h[i];
        }
      }
    }
    if n == c.addr {
      forall i | 0 <= i < 32 ensures h[i] == Zeros(32)[i] {
        if c.len <= i {
          assert !n[i];
        }
      }
    }
  }

  /** Taking the network of a network changes nothing. */
  lemma NetworkIdempotent(c: Cidr)
    requires c.len <= 32
    ensures Network(Cidr(Network(c), c.len)) == Network(c)
  {
    var n := Network(c);
    assert forall i | 0 <= i < 32 :: Network(Cidr(n, c.len))[i] == n[i];
  }
}
