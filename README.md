# mask: IPv4 prefixes to Windows route commands

The program downloads Google's published list of IP ranges (`goog.json`). For every
record that carries an IPv4 prefix `a.b.c.d/p`, it prints a Windows static-route command
and writes the same command to `routes.txt`:

    route ADD <network> MASK <mask> 0.0.0.0

Here `<network>` is the prefix's address with its host bits cleared, and `<mask>` is the
contiguous mask of `p` leading one-bits. Both are in dotted-decimal.

This project models that core in Dafny:

- `text.dfy`: modules `Wrappers` (the `Option` type) and `Text`.
  - Canonical decimal numerals and their reading back (`Decimal`, `ParseDecimal`).
  - Splitting a string at a separator, and joining, which undoes it (`Split`, `Join`).
- `bits.dfy`: module `Bits`. Bit strings, most significant bit first, and the numbers
  they denote (`Value`, `ToBits`, `Ones`, `Zeros`).
- `ipv4.dfy`: module `IPv4`.
  - A 32-bit address `Addr` and its octets.
  - The mask of a prefix length, as a specification (`Mask`) and as Go's octet-by-octet
    construction (`CIDRMask`).
  - Dotted-decimal rendering (`ToString`, Go's `IP.String`) and reading (`Parse`).
  - The prefix notation `a.b.c.d/p` (`Cidr`, `ParseCidr`; section 3.1 of RFC 4632,
    IPv4 only).
  - The network of a prefix (`Network`, the address ANDed with the mask).
- `route.dfy`: module `Route`. `buildRouteCommand` and `ipMaskToString`.
  - The Go pair `(string, error)` is the datatype `RouteResult`.
  - The command's fixed template is `Command`.
  - `ParseCommand` reads a command line back; it exists only to state that the line
    determines the network and the mask.
- `emit.dfy`: module `Emit`. The records `PrefixRecord` and `GoogIPRanges`
  (main.go:12-21) and the loop in `main`.
  - `EmitRoutes` is a method with a `while` loop and `continue`, as in the source.
  - It returns the lines printed to standard output and the text written to `routes.txt`.
  - It is proved against the specification function `Routes` and against `FileText`.
- `examples.dfy`: module `RouteExamples`. Worked instances proved from the general lemmas:
  - the masks of /0, /8, /24 and /32;
  - `10.10.10.5/8`, which routes `10.0.0.0` with mask `255.0.0.0`;
  - a rejected string;
  - a three-record list of which only one record produces a line.

An address is a sequence of 32 booleans. Octet `k` is bits `8k..8k+7`. This layout is the
4-byte form Go uses for IPv4 addresses and masks.

## Model

| member | source | states |
|---|---|---|
| Route.BuildRouteCommand | main.go:85-99 | An error is returned exactly when the text is not an IPv4 prefix. The error names the text and comes with the empty command. Otherwise the command is non-empty. |
| Route.BuildRouteCommandOf | main.go:91-98 | For every prefix of length at most 32, its written form produces `route ADD <network> MASK <mask> 0.0.0.0` with no error. The network is the address with host bits cleared; the mask is that of the prefix length. |
| Route.IPMaskToString | main.go:101-104 | The mask is printed as the dotted-decimal address with the same four bytes: reading the text back gives the mask. |
| Route.Command | main.go:95-98 | The `fmt.Sprintf` template `route ADD %s MASK %s 0.0.0.0` applied to the network text and the mask text. Its meaning is stated by `CommandWords` (six space-separated words), `CommandSplit` and `ParseCommandOf` (it reads back), and `BuildRouteCommandOf` (what it is filled with). |
| Route.CommandWords | main.go:95-98 | The command line is the six words `route`, `ADD`, network, `MASK`, mask, `0.0.0.0`, separated by single spaces. |
| Route.CommandSplit | main.go:95-98 | Cutting a command line at its spaces gives exactly those six words back. |
| Route.ParseCommand | main.go:95-98 | Any line it accepts is exactly the command for the network and mask it returns. |
| Route.ParseCommandOf | main.go:85-99 | The command built for a prefix reads back as exactly its network and its mask, so the line carries both without loss. |
| Route.CommandInjective | main.go:85-99 | Two prefixes produce the same command if and only if they have the same network and the same length. |
| Route.MasksDiffer | main.go:93 | Different prefix lengths give different masks. |
| Route.CommandOneLine | main.go:95-98 | The result of buildRouteCommand never contains a newline, whatever the input. |
| Route.RouteIdempotent | main.go:86-98 | Feeding the network back in with the same length gives the same command. |
| IPv4.Mask | main.go:86 | Bit `i` of the mask of `p` is set exactly when `i < p`. |
| IPv4.CIDRMask | main.go:86 | The octet-by-octet construction, each octet `256 - 2^(8-n)` for its share `n` of the ones, is the mask of `p` leading ones. |
| IPv4.MaskOctetValue | main.go:86 | Octet `k` of the mask holds its share of the leading ones. It is 255 when all eight of its bits are within the prefix, and 0 when none are. |
| IPv4.MaskValue | main.go:86 | As a 32-bit number, the mask of `p` is 2^32 - 2^(32-p). |
| IPv4.Network | main.go:91 | Bit `i` of the network is bit `i` of the address when `i < len`, and 0 otherwise. |
| IPv4.NetworkSplit | main.go:91 | The network is the first `len` bits of the address followed by `32 - len` zeros. |
| IPv4.NetworkOctetKept | main.go:91 | An octet wholly inside the prefix keeps its value. |
| IPv4.NetworkOctetCleared | main.go:91 | An octet wholly past the prefix becomes 0. |
| IPv4.NetworkValue | main.go:91 | As a number, the network is the value of the first `len` bits times the block size 2^(32-len). |
| IPv4.HostValue | main.go:91 | As a number, the host bits the mask clears are worth less than the block size 2^(32-len). |
| IPv4.NetworkHostValue | main.go:91 | As a number, the address is its network plus the value of the host bits the mask clears. |
| IPv4.NetworkFixedPoint | main.go:91 | An address is its own network exactly when its host bits are all zero. |
| IPv4.NetworkIdempotent | main.go:86-91 | Taking the network of a network changes nothing. |
| IPv4.ApplyMask | main.go:86-91 | Go's `IP.Mask`, which `net.ParseCIDR` applies to give the network: bit by bit, the address AND the mask. Its results are stated through `Network`, `NetworkSplit` and `NetworkFixedPoint`. |
| IPv4.Parse | main.go:86 | Any text accepted as an address is exactly the dotted-decimal rendering of that address. |
| IPv4.ToString | main.go:96 | Go's `IP.String` of a 4-byte address: `ToStringOctets` states it is the four octet values in decimal separated by dots, and `ParseToString` that reading it back gives the address. |
| IPv4.ParseToString | main.go:86 | Reading a rendered address gives the address back. |
| IPv4.ParseRejectsLargeOctet | main.go:86-89 | Dotted text with a field above 255 is not an address. |
| IPv4.ToStringOctets | main.go:96 | The rendering of an address is its four octet values in decimal, separated by dots. |
| IPv4.ToStringChars | main.go:96 | A rendered address consists of digits and dots only. |
| IPv4.ParseCidr | main.go:86-89 | An accepted prefix has length at most 32, and the text is exactly its rendering `a.b.c.d/p`. |
| IPv4.ParseCidrToString | main.go:86 | Reading a rendered prefix of length at most 32 gives the prefix back. |
| IPv4.ParseCidrAccepts | main.go:86-89 | Text is accepted if and only if it is the rendering of some prefix of length at most 32. |
| IPv4.ParseCidrRejectsAddress | main.go:86-89 | A prefix whose address part is not an address is rejected. |
| IPv4.ParseCidrRejectsLongPrefix | main.go:86-89 | A prefix length above 32 is rejected, whatever the address. |
| Emit.RouteOf | main.go:43-51 | A record produces a command exactly when its IPv4 field is non-empty and parses. The command is buildRouteCommand's result: non-empty and without a newline. |
| Emit.Kept | main.go:42-59 | Collecting the commands of the per-record outcomes gives at most one line per record, and every line comes from one of them. |
| Emit.Routes | main.go:42-59 | At most one line is produced per record. |
| Emit.RoutesOrigins | main.go:42-59 | The k-th line is the command of the k-th record that produces one. These positions increase strictly, and every record that produces a command is among them. So order is kept, and only skipped records are dropped. |
| Emit.RoutesLines | main.go:53-55 | Every emitted command is a non-empty line without a newline. |
| Emit.RoutesAppend | main.go:42 | The lines of two record lists, one after the other, are the lines of the first followed by those of the second. |
| Emit.RoutesSkip | main.go:43-51 | A record with an empty IPv4 field, or one that does not parse, can be removed without changing any line. The records after it are still processed. |
| Emit.RoutesKeep | main.go:47-55 | A record that parses contributes exactly its command, between the lines of the records before and after it. |
| Emit.SnocEmpty | main.go:43-45 | One more record with an empty IPv4 field adds no line. |
| Emit.SnocRejected | main.go:47-51 | One more record whose prefix is rejected adds no line. |
| Emit.SnocAccepted | main.go:53-55 | One more record whose prefix parses adds its command as the last line. |
| Emit.Canonical | main.go:86-98 | A record that produces a command gets as its IPv4 prefix its network written with the same length (`network/len`); any other record is left as it is, and the IPv6 field never changes. Either way the record's command is unchanged. |
| Emit.RoutesCanonical | main.go:42-59 | Replacing every prefix by its network yields the same output: running the program on its own networks reproduces it. |
| Emit.FileText | main.go:55 | The text the `file.WriteString` calls leave in `routes.txt`: `FileTextAppend` states that each write appends one command and one newline, and `FileLines` that cutting the text at newlines gives the commands back. |
| Emit.FileTextAppend | main.go:55 | Writing one more command appends the command and one newline to the file. |
| Emit.FileTextJoin | main.go:55 | The file is the commands joined by newlines, with a final newline. |
| Emit.FileLines | main.go:55 | Cutting the file at its newlines gives back the commands, then the empty rest after the last newline. |
| Emit.RoutesFileLines | main.go:53-55 | The routes file holds each command followed by exactly one newline, in order, and nothing else. |
| Emit.EmitRoutes | main.go:42-59 | The lines printed are exactly `Routes` of the records. The file text is those lines, each followed by one newline. |
| RouteExamples.Command10 | main.go:85-99 | `10.10.10.5/8` gives `route ADD 10.0.0.0 MASK 255.0.0.0 0.0.0.0`: the host bits are cleared. |
| RouteExamples.MaskText0 | main.go:93 | The mask of /0 prints as `0.0.0.0`. |
| RouteExamples.MaskText8 | main.go:93 | The mask of /8 prints as `255.0.0.0`. |
| RouteExamples.MaskText24 | main.go:93 | The mask of /24 prints as `255.255.255.0`. |
| RouteExamples.MaskText32 | main.go:93 | The mask of /32 prints as `255.255.255.255`. |
| RouteExamples.RejectsNoSlash | main.go:86-89 | `not-a-cidr` gives the empty command and an error naming it. |
| RouteExamples.EmitSkips | main.go:42-59 | Records with an empty IPv4 field, with `not-a-cidr`, and with `10.10.10.5/8` give the single line for the last. |

## Left out

- Downloading the list in `fetchGoogIPRanges` (main.go:62-83) is not modelled. This covers the HTTP request, the status check and the JSON decoding, which are network I/O and library decoding. `EmitRoutes` takes the decoded `GoogIPRanges` as its input.
- Creating and closing `routes.txt`, and the fatal errors when the download or the file creation fails (main.go:24-40), are not modelled. These are I/O.
- The log messages for a prefix that does not parse, and for a failed write (main.go:49, main.go:56-58), are not modelled. Standard output is modelled as the list of printed lines. The file is modelled as the text written to it, every write succeeding. The source continues after a failed write, so the lines that reach the file in that case are not modelled.
- The text of the Go error value is not modelled. `RouteError.InvalidCidr` records only the prefix that failed, which the message names.
- `net.ParseCIDR` is Go library code and is not part of this model. `ParseCidr` states an IPv4-only syntax instead:
  - four decimal octets 0..255 separated by dots, a slash, and a decimal length 0..32;
  - every decimal field in its canonical spelling: no sign, no spaces, and no leading zero unless the field is `0`.
  How Go treats other spellings is not claimed.
- IPv6 is left out. The loop reads only the IPv4 field of each record. An IPv6 prefix placed in that field is rejected by this model, whereas Go's parser would accept it and print an IPv6 command.
- `Route.ParseCommand` is not part of the program. It only serves to state that a command line determines its network and mask.
