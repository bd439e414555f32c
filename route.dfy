/**
 The route command built for one IPv4 prefix: the network of the prefix and
 its mask, both in dotted-decimal, in a Windows `route ADD` command line.
 */
module Route {
  import opened Wrappers
  import opened Text
  import opened Bits
  import opened IPv4

  /** Why a prefix could not be turned into a command: the text given is not `a.b.c.d/p`. */
  datatype RouteError = InvalidCidr(cidr: string)

  /** The pair buildRouteCommand returns: the command, or "" together with an error. */
  datatype RouteResult = RouteResult(command: string, err: Option<RouteError>)

  /** A mask printed as the 4-byte address with the same bytes. */
  function IPMaskToString(mask: Addr): (s: string)
    ensures Parse(s) == Some(mask)
  {
    ParseToString(mask);
    ToString(mask)
  }

  /** The command line for a network and a mask, both given as text. */
  function Command(network: string, mask: string): string
  {
    "route ADD " + network + " MASK " + mask + " 0.0.0.0"
  }

  /** Reads a prefix and builds the command routing its network through gateway 0.0.0.0; text that is not a prefix gives "" and an error. */
  function BuildRouteCommand(cidr: string): (r: RouteResult)
    ensures r.err.Some? <==> ParseCidr(cidr).None?
    ensures r.err.Some? ==> r.command == "" && r.err.value == InvalidCidr(cidr)
    ensures r.err.None? ==> |r.command| > 0
  {
    match ParseCidr(cidr)
    case None => RouteResult("", Some(InvalidCidr(cidr)))
    case Some(c) => RouteResult(Command(ToString(Network(c)), IPMaskToString(Mask(c.len))), None)
  }

  /** The command of every prefix, in its written form, names its network and its mask. */
  lemma BuildRouteCommandOf(c: Cidr)
    requires c.len <= 32
    ensures BuildRouteCommand(CidrToString(c))
         == RouteResult(Command(ToString(Network(c)), ToString(Mask(c.len))), None)
  {
    ParseCidrToString(c);
  }

  /** The six space-separated words of a command line. */
  function Words(network: string, mask: string): seq<string>
  {
    ["route", "ADD", network, "MASK", mask, "0.0.0.0"]
  }

  /** A command line is its words joined by single spaces. */
  lemma CommandWords(network: string, mask: string)
    ensures Command(network, mask) == Join(Words(network, mask), ' ')
  {
    var w := Words(network, mask);
    var j4 := Join(w[4..], ' ');
    assert w[4..] == [mask, "0.0.0.0"];
    assert w[4..][1..] == ["0.0.0.0"];
    assert Join(w[4..][1..], ' ') == "0.0.0.0";
    assert j4 == mask + [' '] + "0.0.0.0";
    assert [' '] + "0.0.0.0" == " 0.0.0.0";
    assert j4 == mask + " 0.0.0.0";
    var j3 := Join(w[3..], ' ');
    assert w[3..][1..] == w[4..];
    assert j3 == "MASK " + mask + " 0.0.0.0";
    var j2 := Join(w[2..], ' ');
    assert w[2..][1..] == w[3..];
    assert j2 == network + " MASK " + mask + " 0.0.0.0";
    var j1 := Join(w[1..], ' ');
    assert w[1..][1..] == w[2..];
    assert j1 == "ADD " + network + " MASK " + mask + " 0.0.0.0";
  }

  /** Splitting a command line at its spaces gives its words back, when network and mask hold no space. */
  lemma CommandSplit(network: string, mask: string)
    requires ' ' !in network && ' ' !in mask
    ensures Split(Command(network, mask), ' ') == Words(network, mask)
  {
    var w := Words(network, mask);
    assert forall i | 0 <= i < 6 :: ' ' !in w[i];
    CommandWords(network, mask);
    SplitJoin(w, ' ');
  }

  /** Reads a command line back into the network and mask it routes; any other text is rejected. */
  function ParseCommand(line: string): (r: Option<(Addr, Addr)>)
    ensures r.Some? ==> line == Command(ToString(r.value.0), ToString(r.value.1))
  {
    var w := Split(line, ' ');
    if |w| == 6 && w == Words(w[2], w[4]) then
      var n, m := Parse(w[2]), Parse(w[4]);
      if n.Some? && m.Some? then
        CommandWords(w[2], w[4]);
        Some((n.value, m.value))
      else None
    else None
  }

  /** Dotted-decimal text holds no character other than digits and dots. */
  lemma NotInAddr(a: Addr, ch: char)
    requires !IsDigit(ch) && ch != '.'
    ensures ch !in ToString(a)
  {
    ToStringChars(a);
  }

  /** The command of a prefix reads back as exactly its network and its mask. */
  lemma ParseCommandOf(c: Cidr)
    requires c.len <= 32
    ensures ParseCommand(BuildRouteCommand(CidrToString(c)).command) == Some((Network(c), Mask(c.len)))
  {
    var n, m := ToString(Network(c)), ToString(Mask(c.len));
    BuildRouteCommandOf(c);
    NotInAddr(Network(c), ' ');
    NotInAddr(Mask(c.len), ' ');
    CommandSplit(n, m);
    ParseToString(Network(c));
    ParseToString(Mask(c.len));
  }

  /** Two prefixes give the same command exactly when they have the same network and length. */
  lemma CommandInjective(c: Cidr, d: Cidr)
    requires c.len <= 32 && d.len <= 32
    ensures BuildRouteCommand(CidrToString(c)) == BuildRouteCommand(CidrToString(d))
        <==> Network(c) == Network(d) && c.len == d.len
  {
    BuildRouteCommandOf(c);
    BuildRouteCommandOf(d);
    if c.len != d.len {
      MasksDiffer(c.len, d.len);
      ParseCommandOf(c);
      ParseCommandOf(d);
    } else if Network(c) != Network(d) {
      ParseCommandOf(c);
      ParseCommandOf(d);
    }
  }

  /** Masks of different lengths differ. */
  lemma MasksDiffer(p: nat, q: nat)
    requires p <= 32 && q <= 32 && p != q
    ensures Mask(p) != Mask(q)
  {
    if p < q {
      assert Mask(q)[p] != Mask(p)[p];
    } else {
      assert Mask(p)[q] != Mask(q)[q];
    }
  }

  /** A character that is not a digit, not a dot and not in the fixed words is absent from a command line. */
  lemma NotInCommand(network: Addr, mask: Addr, ch: char)
    requires !IsDigit(ch) && ch != '.' && ch !in "route ADD MASK 0.0.0.0"
    ensures ch !in Command(ToString(network), ToString(mask))
  {
    NotInAddr(network, ch);
    NotInAddr(mask, ch);
    assert ch !in "route ADD " && ch !in " MASK " && ch !in " 0.0.0.0";
  }

  /** The command line of a prefix holds no newline. */
  lemma PrefixCommandOneLine(c: Cidr)
    requires c.len <= 32
    ensures '\n' !in Command(ToString(Network(c)), ToString(Mask(c.len)))
  {
    NotInCommand(Network(c), Mask(c.len), '\n');
  }

  /** A command line is one line: it holds no newline. */
  lemma CommandOneLine(cidr: string)
    ensures '\n' !in BuildRouteCommand(cidr).command
  {
    match ParseCidr(cidr)
    case None =>
    case Some(c) => PrefixCommandOneLine(c);
  }

  /** Feeding the command's own network back, with the same length, gives the same command. */
  lemma RouteIdempotent(cidr: string)
    requires BuildRouteCommand(cidr).err.None?
    ensures var c := ParseCidr(cidr).value;
      BuildRouteCommand(CidrToString(Cidr(Network(c), c.len))) == BuildRouteCommand(cidr)
  {
    var c := ParseCidr(cidr).value;
    NetworkIdempotent(c);
    BuildRouteCommandOf(Cidr(Network(c), c.len));
  }
}
