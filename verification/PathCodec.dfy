/**
 * MeshCore packet framing: header, optional transport codes, packed path byte, path, payload.
 */
module PathCodec {
  import opened Common

  type byte = b: int | 0 <= b < 256

  const MAX_PATH_SIZE := 64

  /** A packed path byte holds the hash mode in its top two bits and the hop count below; mode 3 is reserved.
      Yields (hop count, bytes per hop). */
  function DecodePathByte(pathByte: int): Option<(nat, nat)> {
    var mode := (pathByte / 64) % 4;
    if mode == 3 then None else Some((pathByte % 64, mode + 1))
  }

  function WireLength(hops: nat, size: nat): nat {
    hops * size
  }

  /** The firmware's check: a usable mode and at most MAX_PATH_SIZE path bytes. */
  function ValidatePathByte(pathByte: int): Option<(nat, nat, nat)> {
    match DecodePathByte(pathByte)
    case None => None
    case Some((hops, size)) =>
      if WireLength(hops, size) > MAX_PATH_SIZE then None else Some((hops, size, WireLength(hops, size)))
  }

  datatype Envelope = Envelope(
    header: byte,
    routeType: nat,
    payloadType: nat,
    payloadVersion: nat,
    pathByte: byte,
    hopCount: nat,
    hashSize: nat,
    pathByteLen: nat,
    path: seq<byte>,
    payload: seq<byte>,
    payloadOffset: nat)

  function RouteType(header: byte): nat { header % 4 }

  function PayloadType(header: byte): nat { (header / 4) % 16 }

  /** Flood and direct routes with transport codes carry four more bytes after the header. */
  function TransportLength(header: byte): nat {
    if RouteType(header) == 0 || RouteType(header) == 3 then 4 else 0
  }

  // ------------------------------------------------------------ reference: printing

  ghost predicate WellFormed(header: byte, transport: seq<byte>, pathByte: byte, path: seq<byte>, payload: seq<byte>) {
    && |transport| == TransportLength(header)
    && ValidatePathByte(pathByte).Some?
    && |path| == ValidatePathByte(pathByte).value.2
    && payload != []
  }

  function Print(header: byte, transport: seq<byte>, pathByte: byte, path: seq<byte>, payload: seq<byte>): seq<byte> {
    [header] + transport + [pathByte] + path + payload
  }

  // ------------------------------------------------------------ parsing

  /** The fields at their offsets, when the packet is long enough to hold them and at least one payload byte. */
  function ParseEnvelope(raw: seq<byte>): Option<Envelope> {
    if |raw| < 2 then None
    else
      var at := 1 + TransportLength(raw[0]);
      if |raw| <= at then None
      else
        match ValidatePathByte(raw[at])
        case None => None
        case Some((hops, size, length)) =>
          var start := at + 1 + length;
          if |raw| <= start then None
          else Some(Envelope(raw[0], RouteType(raw[0]), PayloadType(raw[0]), raw[0] / 64, raw[at], hops, size, length,
                             raw[at + 1..start], raw[start..], start))
  }

  /** The parser as the program runs it, moving an offset through the packet. */
  method ParsePacketEnvelope(raw: seq<byte>) returns (r: Option<Envelope>)
    ensures r == ParseEnvelope(raw)
  {
    if |raw| < 2 {
      return None;
    }
    var header := raw[0];
    var routeType := header % 4;
    var payloadType := (header / 4) % 16;
    var payloadVersion := (header / 64) % 4;
    var offset := 1;
    if routeType == 0 || routeType == 3 {
      if |raw| < offset + 4 {
        return None;
      }
      offset := offset + 4;
    }
    if |raw| < offset + 1 {
      return None;
    }
    var pathByte := raw[offset];
    offset := offset + 1;
    var valid := ValidatePathByte(pathByte);
    if valid.None? {
      return None;
    }
    var (hopCount, hashSize, pathByteLen) := valid.value;
    if |raw| < offset + pathByteLen {
      return None;
    }
    var path := raw[offset..offset + pathByteLen];
    offset := offset + pathByteLen;
    if offset >= |raw| {
      return None;
    }
    return Some(Envelope(header, routeType, payloadType, payloadVersion, pathByte, hopCount, hashSize, pathByteLen,
                         path, raw[offset..], offset));
  }

  /** The packed byte: exactly the bytes below 192 decode, to one, two or three bytes per hop and up to 63 hops, and
      the byte is 64 times the mode plus the hops. */
  lemma PathByteFields(b: byte)
    ensures DecodePathByte(b).Some? <==> b < 192
    ensures DecodePathByte(b).Some? ==>
              var (hops, size) := DecodePathByte(b).value; 1 <= size <= 3 && hops < 64 && 64 * (size - 1) + hops == b
  {
  }

  lemma ValidExactly(b: byte)
    ensures var hops, size := b % 64, b / 64 + 1;
            ValidatePathByte(b) == if b < 192 && hops * size <= 64 then Some((hops, size, hops * size)) else None
  {
    PathByteFields(b);
  }

  /** The framing in plain numbers.  Route types 1 and 2 put the path byte at offset 1, types 0 and 3 put four bytes of
      transport codes before it; a packet is accepted exactly if its path byte is below 192, the path has at most 64
      bytes and at least one byte follows the path. */
  lemma FramingExactly(raw: seq<byte>)
    requires |raw| >= 2
    ensures var at := if raw[0] % 4 == 1 || raw[0] % 4 == 2 then 1 else 5;
            && (ParseEnvelope(raw).Some? <==>
                  && |raw| > at && raw[at] < 192
                  && (raw[at] % 64) * (raw[at] / 64 + 1) <= 64
                  && |raw| > at + 1 + (raw[at] % 64) * (raw[at] / 64 + 1))
            && (ParseEnvelope(raw).Some? ==>
                  var e, start := ParseEnvelope(raw).value, at + 1 + (raw[at] % 64) * (raw[at] / 64 + 1);
                  && e.pathByte == raw[at] && e.path == raw[at + 1..start] && e.payload == raw[start..]
                  && e.hopCount == raw[at] % 64 && e.hashSize == raw[at] / 64 + 1)
  {
    var at := if raw[0] % 4 == 1 || raw[0] % 4 == 2 then 1 else 5;
    if |raw| > at {
      ValidExactly(raw[at]);
    }
  }

  /** Packets too short for a header and a path byte are refused. */
  lemma ShortPacketsRefused(raw: seq<byte>)
    requires |raw| < 2
    ensures ParseEnvelope(raw).None?
  {
  }

  /** A plain flood packet without hops. */
  lemma PlainFloodExample()
    ensures ParseEnvelope([0x15, 0, 0xAA]).Some? && ParseEnvelope([0x15, 0, 0xAA]).value.payload == [0xAA]
  {
    FramingExactly([0x15, 0, 0xAA]);
  }

  /** Parsing a packet printed from well-formed fields returns those fields. */
  lemma ParsePrinted(header: byte, transport: seq<byte>, pathByte: byte, path: seq<byte>, payload: seq<byte>)
    requires WellFormed(header, transport, pathByte, path, payload)
    ensures var r := ParseEnvelope(Print(header, transport, pathByte, path, payload));
            && r.Some?
            && r.value.header == header && r.value.pathByte == pathByte && r.value.path == path
                 && r.value.payload == payload
            && r.value.routeType == header % 4 && r.value.payloadType == (header / 4) % 16
            && r.value.payloadVersion == header / 64
            && Some((r.value.hopCount, r.value.hashSize, r.value.pathByteLen)) == ValidatePathByte(pathByte)
            && r.value.payloadOffset == 2 + |transport| + |path|
  {
    var raw := Print(header, transport, pathByte, path, payload);
    var at := 1 + |transport|;
    var start := at + 1 + |path|;
    assert raw[0] == header && raw[at] == pathByte;
    assert raw[at + 1..start] == path;
    assert raw[start..] == payload;
  }

  /** Every accepted packet is the print of its own fields, given its transport bytes; so the parser accepts exactly
      the prints of well-formed fields. */
  lemma PrintParsed(raw: seq<byte>)
    requires ParseEnvelope(raw).Some?
    ensures var e := ParseEnvelope(raw).value;
            var transport := raw[1..1 + TransportLength(e.header)];
            && WellFormed(e.header, transport, e.pathByte, e.path, e.payload)
            && raw == Print(e.header, transport, e.pathByte, e.path, e.payload)
  {
    var e := ParseEnvelope(raw).value;
    var at := 1 + TransportLength(e.header);
    assert raw == raw[..1] + raw[1..at] + raw[at..at + 1] + raw[at + 1..e.payloadOffset] + raw[e.payloadOffset..];
  }

  // ------------------------------------------------------------ the dedup key

  function ExtractPayload(raw: seq<byte>): Option<seq<byte>> {
    var e := ParseEnvelope(raw);
    if e.Some? then Some(e.value.payload) else None
  }

  /** What the stored hash is taken of: the payload, or the whole packet when it does not parse. */
  function HashedPart(raw: seq<byte>): seq<byte> {
    var payload := ExtractPayload(raw);
    if payload.Some? && payload.value != [] then payload.value else raw
  }

  /** A packet that comes by another route keeps its payload type, its payload and what its dedup key is taken of. */
  lemma RerouteKeepsIdentity(raw: seq<byte>, transport: seq<byte>, pathByte: byte, path: seq<byte>)
    requires ParseEnvelope(raw).Some?
    requires var e := ParseEnvelope(raw).value; WellFormed(e.header, transport, pathByte, path, e.payload)
    ensures var e := ParseEnvelope(raw).value;
            var rerouted := Print(e.header, transport, pathByte, path, e.payload);
            && ExtractPayload(rerouted) == ExtractPayload(raw)
            && ParseEnvelope(rerouted).value.payloadType == e.payloadType
            && HashedPart(rerouted) == HashedPart(raw)
  {
    var e := ParseEnvelope(raw).value;
    ParsePrinted(e.header, transport, pathByte, path, e.payload);
  }

  /** What the dedup key covers decides which packets are duplicates: of packets that parse the payloads alone, of
      others all their bytes. */
  lemma HashedExactly(a: seq<byte>, b: seq<byte>)
    ensures ParseEnvelope(a).Some? && ParseEnvelope(b).Some? ==>
              (HashedPart(a) == HashedPart(b) <==> ParseEnvelope(a).value.payload == ParseEnvelope(b).value.payload)
    ensures ParseEnvelope(a).None? && ParseEnvelope(b).None? ==> (HashedPart(a) == HashedPart(b) <==> a == b)
    ensures ParseEnvelope(a).Some? && ParseEnvelope(b).None? ==>
              (HashedPart(a) == HashedPart(b) <==> ParseEnvelope(a).value.payload == b)
  {
  }

  // ------------------------------------------------------------ hex and hop chunks

  const HEX_DIGITS := "0123456789abcdef"

  function Hex(bytes: seq<byte>): (s: string)
    ensures |s| == 2 * |bytes|
    ensures forall i :: 0 <= i < |bytes| ==>
              s[2 * i] == HEX_DIGITS[bytes[i] / 16] && s[2 * i + 1] == HEX_DIGITS[bytes[i] % 16]
  {
    seq(2 * |bytes|, i requires 0 <= i < 2 * |bytes| =>
      if i % 2 == 0 then HEX_DIGITS[bytes[i / 2] / 16] else HEX_DIGITS[bytes[i / 2] % 16])
  }

  /** The number a lower-case hex digit stands for. */
  function DigitValue(c: char): int {
    if '0' <= c <= '9' then c as int - '0' as int else c as int - 'a' as int + 10
  }

  lemma HexDigit(d: nat)
    requires d < 16
    ensures DigitValue(HEX_DIGITS[d]) == d
  {
  }

  /** Reading two digits at a time gives the bytes back. */
  lemma HexReads(bytes: seq<byte>, i: nat)
    requires i < |bytes|
    ensures 16 * DigitValue(Hex(bytes)[2 * i]) + DigitValue(Hex(bytes)[2 * i + 1]) == bytes[i]
  {
    HexDigit(bytes[i] / 16);
    HexDigit(bytes[i] % 16);
  }

  /** `[s[i : i + n] for i in range(0, len(s), n)]` */
  function Chunks(s: string, n: nat): seq<string>
    requires n > 0
  {
    if s == "" then [] else if |s| <= n then [s] else [s[..n]] + Chunks(s[n..], n)
  }

  /** Per-hop chunks of a hex path, falling back to one-byte chunks when the length does not fit the hop count. */
  function SplitPathHex(pathHex: string, hopCount: int): seq<string> {
    if pathHex == "" || hopCount <= 0 then []
    else
      var perHop := |pathHex| / hopCount;
      if perHop < 2 || perHop % 2 != 0 || perHop * hopCount != |pathHex| then Chunks(pathHex, 2)
      else Chunks(pathHex, perHop)
  }

  function Concat(parts: seq<string>): string {
    if parts == [] then "" else parts[0] + Concat(parts[1..])
  }

  lemma ChunksUnfold(s: string, n: nat)
    requires 0 < n <= |s|
    ensures Chunks(s, n) == [s[..n]] + Chunks(s[n..], n)
  {
    if |s| == n {
      assert s[..n] == s && s[n..] == "";
    }
  }

  lemma OneMore(k: nat, n: nat)
    requires k > 0
    ensures k * n == (k - 1) * n + n && (k - 1) * n >= 0
  {
  }

  lemma ConcatFirst(first: string, rest: seq<string>)
    ensures Concat([first] + rest) == first + Concat(rest)
  {
    assert ([first] + rest)[1..] == rest;
  }

  lemma {:induction false} ChunksJoin(s: string, n: nat, count: nat)
    requires n > 0 && |s| == count * n
    ensures |Chunks(s, n)| == count && Concat(Chunks(s, n)) == s
  {
    if count > 0 {
      var rest := s[n..];
      OneMore(count, n);
      ChunksUnfold(s, n);
      ChunksJoin(rest, n, count - 1);
      ConcatFirst(s[..n], Chunks(rest, n));
      assert s[..n] + rest == s;
    } else {
      assert s == "";
    }
  }

  lemma {:induction false} ChunkAt(s: string, n: nat, count: nat, i: nat)
    requires n > 0 && |s| == count * n && i < count
    ensures i < |Chunks(s, n)| && 0 <= i * n <= i * n + n <= |s|
    ensures Chunks(s, n)[i] == s[i * n..i * n + n]
  {
    OneMore(count, n);
    ChunksUnfold(s, n);
    if i > 0 {
      OneMore(i, n);
      var from := (i - 1) * n;
      ChunkAt(s[n..], n, count - 1, i - 1);
      assert s[n..][from..from + n] == s[from + n..from + n + n];
    }
  }

  /** For every accepted packet, splitting its path gives exactly one chunk per hop, each the hex of that hop's
      bytes, and the chunks join back to the path: the fallback is never taken. */
  lemma SplitParsedPath(raw: seq<byte>)
    requires ParseEnvelope(raw).Some?
    ensures var e := ParseEnvelope(raw).value;
            var hops := SplitPathHex(Hex(e.path), e.hopCount);
            && |hops| == e.hopCount
            && Concat(hops) == Hex(e.path)
            && forall i :: 0 <= i < e.hopCount ==>
                             && |hops[i]| == 2 * e.hashSize
                             && 0 <= i * (2 * e.hashSize) <= i * (2 * e.hashSize) + 2 * e.hashSize <= |Hex(e.path)|
                             && hops[i] == Hex(e.path)[i * (2 * e.hashSize)..i * (2 * e.hashSize) + 2 * e.hashSize]
  {
    var e := ParseEnvelope(raw).value;
    var hex := Hex(e.path);
    var width := 2 * e.hashSize;
    assert |hex| == 2 * (e.hopCount * e.hashSize) == e.hopCount * width;
    if e.hopCount > 0 {
      assert |hex| / e.hopCount == width by { DivExact(e.hopCount, width); }
      assert |hex| >= width;
      ChunksJoin(hex, width, e.hopCount);
      forall i | 0 <= i < e.hopCount
        ensures 0 <= i * width <= i * width + width <= |hex|
                && Chunks(hex, width)[i] == hex[i * width..i * width + width]
      {
        ChunkAt(hex, width, e.hopCount, i);
      }
    }
  }

  lemma {:induction false} ChunksOfAny(s: string, n: nat)
    requires n > 0
    ensures Concat(Chunks(s, n)) == s
    ensures n == 2 ==> |Chunks(s, n)| == (|s| + 1) / 2
  {
    if |s| > n {
      ChunksOfAny(s[n..], n);
      ConcatFirst(s[..n], Chunks(s[n..], n));
      assert s[..n] + s[n..] == s;
    } else if s != "" {
      assert [s][1..] == [];
    }
  }

  /** Splitting any hex path for any positive hop count joins back to the path: into that many hops when the length is
      that many times an even width, and else into single bytes. */
  lemma SplitExactly(pathHex: string, hopCount: nat)
    requires pathHex != "" && hopCount > 0
    ensures var hops := SplitPathHex(pathHex, hopCount);
            && Concat(hops) == pathHex
            && (FitsHops(|pathHex|, hopCount) ==> |hops| == hopCount)
            && (!FitsHops(|pathHex|, hopCount) ==> hops == Chunks(pathHex, 2))
  {
    var perHop := |pathHex| / hopCount;
    ChunksOfAny(pathHex, 2);
    FitsExactly(|pathHex|, hopCount);
    if FitsHops(|pathHex|, hopCount) {
      ChunksJoin(pathHex, perHop, hopCount);
    }
  }

  /** A length that is some even, positive width for each hop. */
  ghost predicate FitsHops(length: nat, hopCount: nat) {
    exists width: nat :: width > 0 && length == hopCount * (2 * width)
  }

  lemma FitsExactly(length: nat, hopCount: nat)
    requires hopCount > 0
    ensures var perHop := length / hopCount;
            FitsHops(length, hopCount) <==> perHop >= 2 && perHop % 2 == 0 && perHop * hopCount == length
  {
    var perHop := length / hopCount;
    if width: nat :| width > 0 && length == hopCount * (2 * width) {
      DivExact(hopCount, 2 * width);
    }
    if perHop >= 2 && perHop % 2 == 0 && perHop * hopCount == length {
      assert length == hopCount * (2 * (perHop / 2));
    }
  }

  lemma DivExact(a: nat, b: nat)
    requires a > 0
    ensures (a * b) / a == b
  {
    var q := (a * b) / a;
    assert a * b == b * a;
    assert q < b ==> (q + 1) * a <= b * a;
    assert q > b ==> (b + 1) * a <= q * a;
  }
}
