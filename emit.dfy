/**
 The main loop: every record of the downloaded range list is turned into a
 route command, in order. Records without an IPv4 prefix and prefixes that do
 not parse are skipped; each command is printed as a line on standard output
 and written to the routes file followed by a newline.
 */
module Emit {
  import opened Wrappers
  import opened Text
  import opened IPv4
  import opened Route

  /** One entry of the published range list: an IPv4 prefix, an IPv6 prefix, or either left empty. */
  datatype PrefixRecord = PrefixRecord(ipv4Prefix: string, ipv6Prefix: string)

  /** The whole published range list. */
  datatype GoogIPRanges = GoogIPRanges(syncToken: string, creationTime: string, prefixes: seq<PrefixRecord>)

  /** The command one record contributes, if any: none for an empty IPv4 prefix or one that does not parse. */
  function RouteOf(pr: PrefixRecord): (r: Option<string>)
    ensures r.Some? <==> pr.ipv4Prefix != "" && ParseCidr(pr.ipv4Prefix).Some?
    ensures r.Some? ==> r.value == BuildRouteCommand(pr.ipv4Prefix).command && |r.value| > 0 && '\n' !in r.value
  {
    if pr.ipv4Prefix == "" then None
    else
      var res := BuildRouteCommand(pr.ipv4Prefix);
      if res.err.Some? then None
      else
        CommandOneLine(pr.ipv4Prefix);
        Some(res.command)
  }

  /** The commands among a list of per-record outcomes, in order; records with no command are dropped. */
  function Kept(os: seq<Option<string>>): (r: seq<string>)
    ensures |r| <= |os|
    ensures forall k :: 0 <= k < |r| ==> Some(r[k]) in os
    decreases |os|
  {
    if os == [] then []
    else
      var n := |os| - 1;
      Kept(os[..n]) + match os[n] case None => [] case Some(cmd) => [cmd]
  }

  /** The positions of the outcomes that hold a command, in increasing order. */
  function Origins(os: seq<Option<string>>): (idx: seq<nat>)
    ensures forall k :: 0 <= k < |idx| ==> idx[k] < |os| && os[idx[k]].Some?
    ensures forall k, l :: 0 <= k < l < |idx| ==> idx[k] < idx[l]
    ensures forall j :: 0 <= j < |os| && os[j].Some? ==> j in idx
    decreases |os|
  {
    if os == [] then []
    else
      var n := |os| - 1;
      Origins(os[..n]) + if os[n].Some? then [n] else []
  }

  /** The k-th kept command is the command at the k-th position that holds one. */
  lemma {:induction false} KeptOrigins(os: seq<Option<string>>)
    ensures |Kept(os)| == |Origins(os)|
    ensures forall k :: 0 <= k < |Origins(os)| ==> Kept(os)[k] == os[Origins(os)[k]].value
    decreases |os|
  {
    if os != [] {
      var n := |os| - 1;
      KeptOrigins(os[..n]);
      forall k | 0 <= k < |Origins(os[..n])|
        ensures os[..n][Origins(os[..n])[k]] == os[Origins(os[..n])[k]]
      {
      }
    }
  }

  /** Keeping distributes over concatenation. */
  lemma {:induction false} KeptAppend(a: seq<Option<string>>, b: seq<Option<string>>)
    ensures Kept(a + b) == Kept(a) + Kept(b)
    decreases |b|
  {
    if b == [] {
      assert a + b == a;
    } else {
      var n := |b| - 1;
      KeptAppend(a, b[..n]);
      assert (a + b)[..|a + b| - 1] == a + b[..n];
      assert (a + b)[|a + b| - 1] == b[n];
    }
  }

  /** A function applied to every element, in order. */
  function Map<T, U>(f: T -> U, s: seq<T>): (r: seq<U>)
    ensures |r| == |s|
    ensures forall k {:trigger r[k]} :: 0 <= k < |s| ==> r[k] == f(s[k])
  {
    seq(|s|, k requires 0 <= k < |s| => f(s[k]))
  }

  /** Mapping distributes over concatenation. */
  lemma MapAppend<T, U>(f: T -> U, a: seq<T>, b: seq<T>)
    ensures Map(f, a + b) == Map(f, a) + Map(f, b)
  {
    var m, n := Map(f, a + b), Map(f, a) + Map(f, b);
    forall k | 0 <= k < |m|
      ensures m[k] == n[k]
    {
      if k < |a| {
        assert (a + b)[k] == a[k];
      } else {
        assert (a + b)[k] == b[k - |a|];
      }
    }
  }

  /** An outcome without a command between two lists adds nothing. */
  lemma KeptSkip(a: seq<Option<string>>, b: seq<Option<string>>)
    ensures Kept(a + [None] + b) == Kept(a + b)
  {
    KeptAppend(a + [None], b);
    KeptAppend(a, [None]);
    KeptAppend(a, b);
    var skipped: seq<Option<string>> := [None];
    assert skipped[..0] == [];
  }

  /** The outcome of every record. */
  function Outcomes(prs: seq<PrefixRecord>): seq<Option<string>>
  {
    Map(RouteOf, prs)
  }

  /** The commands of a list of records, in the order of the records: at most one line per record. */
  function Routes(prs: seq<PrefixRecord>): (r: seq<string>)
    ensures |r| <= |prs|
  {
    Kept(Outcomes(prs))
  }

  /** The k-th command comes from the k-th record that gives one: order is kept and only skipped records are dropped. */
  lemma RoutesOrigins(prs: seq<PrefixRecord>)
    ensures var idx := Origins(Outcomes(prs));
      && |Routes(prs)| == |idx|
      && (forall k :: 0 <= k < |idx| ==> idx[k] < |prs| && Routes(prs)[k] == RouteOf(prs[idx[k]]).value)
      && (forall k, l :: 0 <= k < l < |idx| ==> idx[k] < idx[l])
      && (forall j :: 0 <= j < |prs| && RouteOf(prs[j]).Some? ==> j in idx)
  {
    KeptOrigins(Outcomes(prs));
  }

  /** Every command is a non-empty line holding no newline. */
  lemma RoutesLines(prs: seq<PrefixRecord>)
    ensures forall k :: 0 <= k < |Routes(prs)| ==> |Routes(prs)[k]| > 0 && '\n' !in Routes(prs)[k]
  {
    RoutesOrigins(prs);
    var idx := Origins(Outcomes(prs));
    forall k | 0 <= k < |Routes(prs)|
      ensures |Routes(prs)[k]| > 0 && '\n' !in Routes(prs)[k]
    {
      var pr := prs[idx[k]];
      assert RouteOf(pr).Some?;
    }
  }

  /** The commands of two lists one after the other are those of the first followed by those of the second. */
  lemma RoutesAppend(a: seq<PrefixRecord>, b: seq<PrefixRecord>)
    ensures Routes(a + b) == Routes(a) + Routes(b)
  {
    MapAppend(RouteOf, a, b);
    KeptAppend(Outcomes(a), Outcomes(b));
  }

  /** The commands of a single record. */
  lemma RoutesOne(pr: PrefixRecord)
    ensures Routes([pr]) == match RouteOf(pr) case None => [] case Some(cmd) => [cmd]
  {
    assert Outcomes([pr]) == [RouteOf(pr)];
    assert [RouteOf(pr)][..0] == [];
  }

  /** One more record adds its command, if it gives one, at the end. */
  lemma RoutesSnoc(prs: seq<PrefixRecord>, pr: PrefixRecord)
    ensures Routes(prs + [pr]) == Routes(prs) + match RouteOf(pr) case None => [] case Some(cmd) => [cmd]
  {
    RoutesAppend(prs, [pr]);
    RoutesOne(pr);
  }

  /** A further record with an empty IPv4 prefix adds no line. */
  lemma SnocEmpty(prs: seq<PrefixRecord>, pr: PrefixRecord)
    requires pr.ipv4Prefix == ""
    ensures Routes(prs + [pr]) == Routes(prs)
  {
    RoutesSnoc(prs, pr);
  }

  /** A further record whose prefix is rejected adds no line. */
  lemma SnocRejected(prs: seq<PrefixRecord>, pr: PrefixRecord)
    requires BuildRouteCommand(pr.ipv4Prefix).err.Some?
    ensures Routes(prs + [pr]) == Routes(prs)
  {
    RoutesSnoc(prs, pr);
  }

  /** A further record whose prefix is accepted adds its command as the last line. */
  lemma SnocAccepted(prs: seq<PrefixRecord>, pr: PrefixRecord)
    requires pr.ipv4Prefix != "" && BuildRouteCommand(pr.ipv4Prefix).err.None?
    ensures Routes(prs + [pr]) == Routes(prs) + [BuildRouteCommand(pr.ipv4Prefix).command]
  {
    RoutesSnoc(prs, pr);
  }

  /** A record that gives no command, an empty prefix among them, leaves the lines of the records around it as they were. */
  lemma RoutesSkip(a: seq<PrefixRecord>, pr: PrefixRecord, b: seq<PrefixRecord>)
    requires pr.ipv4Prefix == "" || ParseCidr(pr.ipv4Prefix).None?
    ensures Routes(a + [pr] + b) == Routes(a + b)
  {
    var none := RouteOf(pr);
    assert Outcomes([pr]) == [none];
    MapAppend(RouteOf, a + [pr], b);
    MapAppend(RouteOf, a, [pr]);
    MapAppend(RouteOf, a, b);
    KeptSkip(Outcomes(a), Outcomes(b));
  }

  /** A record that gives a command contributes exactly that one line, between the lines of the records before and after it. */
  lemma RoutesKeep(a: seq<PrefixRecord>, pr: PrefixRecord, b: seq<PrefixRecord>)
    requires pr.ipv4Prefix != "" && ParseCidr(pr.ipv4Prefix).Some?
    ensures Routes(a + [pr] + b) == Routes(a) + [BuildRouteCommand(pr.ipv4Prefix).command] + Routes(b)
  {
    RoutesAppend(a + [pr], b);
    RoutesAppend(a, [pr]);
    RoutesOne(pr);
  }

  /** The record with its IPv4 prefix replaced by the network it names, written with the same length. */
  function Canonical(pr: PrefixRecord): (q: PrefixRecord)
    ensures RouteOf(q) == RouteOf(pr)
    ensures q.ipv6Prefix == pr.ipv6Prefix
    ensures RouteOf(pr).None? ==> q == pr
    ensures RouteOf(pr).Some? ==>
      var c := ParseCidr(pr.ipv4Prefix).value;
      q.ipv4Prefix == CidrToString(Cidr(Network(c), c.len))
  {
    if RouteOf(pr).None? then pr
    else
      var c := ParseCidr(pr.ipv4Prefix).value;
      var q := pr.(ipv4Prefix := CidrToString(Cidr(Network(c), c.len)));
      RouteIdempotent(pr.ipv4Prefix);
      assert '/' in q.ipv4Prefix;
      q
  }

  /** Every record made canonical. */
  function CanonicalAll(prs: seq<PrefixRecord>): seq<PrefixRecord>
  {
    Map(Canonical, prs)
  }

  /** Replacing every prefix by its network, the commands come out the same: emitting is idempotent. */
  lemma RoutesCanonical(prs: seq<PrefixRecord>)
    ensures Routes(CanonicalAll(prs)) == Routes(prs)
  {
    assert Outcomes(CanonicalAll(prs)) == Outcomes(prs);
  }

  /** The text of the routes file: every line followed by one newline. */
  function FileText(lines: seq<string>): string
    decreases |lines|
  {
    if lines == [] then "" else lines[0] + "\n" + FileText(lines[1..])
  }

  /** Writing one more line appends it and its newline to the file. */
  lemma {:induction false} FileTextAppend(lines: seq<string>, line: string)
    ensures FileText(lines + [line]) == FileText(lines) + line + "\n"
    decreases |lines|
  {
    if lines == [] {
      assert [line][1..] == [];
    } else {
      FileTextAppend(lines[1..], line);
      assert (lines + [line])[1..] == lines[1..] + [line];
    }
  }

  /** The file text is the lines joined by newlines, with a final newline. */
  lemma {:induction false} FileTextJoin(lines: seq<string>)
    ensures FileText(lines) == Join(lines + [""], '\n')
    decreases |lines|
  {
    if lines != [] {
      FileTextJoin(lines[1..]);
      assert (lines + [""])[1..] == lines[1..] + [""];
    }
  }

  /** Cutting the file at its newlines gives back the lines, then the empty rest after the last newline. */
  lemma FileLines(lines: seq<string>)
    requires forall k :: 0 <= k < |lines| ==> '\n' !in lines[k]
    ensures Split(FileText(lines), '\n') == lines + [""]
  {
    FileTextJoin(lines);
    SplitJoin(lines + [""], '\n');
  }

  /** The routes file holds one line per command, in order, and nothing else. */
  lemma RoutesFileLines(prs: seq<PrefixRecord>)
    ensures Split(FileText(Routes(prs)), '\n') == Routes(prs) + [""]
  {
    RoutesLines(prs);
    FileLines(Routes(prs));
  }

  /** Walks the records in order, printing each command and writing it with a newline to the routes file. */
  method EmitRoutes(data: GoogIPRanges) returns (stdout: seq<string>, file: string)
    ensures stdout == Routes(data.prefixes)
    ensures file == FileText(stdout)
  {
    var prefixes := data.prefixes;
    stdout, file := [], "";
    var i := 0;
    while i < |prefixes|
      invariant 0 <= i <= |prefixes|
      invariant stdout == Routes(prefixes[..i])
      invariant file == FileText(stdout)
    {
      var pr := prefixes[i];
      assert prefixes[..i + 1] == prefixes[..i] + [pr];
      i := i + 1;
      if pr.ipv4Prefix == "" {
        SnocEmpty(prefixes[..i - 1], pr);
        continue;
      }
      var res := BuildRouteCommand(pr.ipv4Prefix);
      if res.err.Some? {
        SnocRejected(prefixes[..i - 1], pr);
        continue;
      }
      SnocAccepted(prefixes[..i - 1], pr);
      FileTextAppend(stdout, res.command);
      stdout := stdout + [res.command];
      file := file + res.command + "\n";
    }
    assert prefixes[..i] == prefixes;
  }
}
