/**
 * Contact routes: the normaliser applied on every write and read, explicit route input, decoded PATH payloads, and
 * the route columns of the contacts table.
 */
module ContactRoutes {
  import opened Common
  import opened PathCodec

  /** A normalised route.  Length -1 is flood, 0 direct. */
  datatype Route = Route(path: string, len: int, mode: int)

  const FLOOD := Route("", -1, -1)

  // ------------------------------------------------------------ reference: two stages

  /** Stage 1.  A length outside [-1, 63] is a packed wire byte that was stored by mistake; 0xFF is flood, mode 3 is
      left alone. */
  function Unpack(len: int, mode: Option<int>): (int, Option<int>) {
    var packed := len % 256;
    if -1 <= len <= 63 then (len, mode)
    else if packed == 255 then (-1, mode)
    else if packed >= 192 then (len, mode)
    else (packed % 64, Some(packed / 64))
  }

  /** Stage 2.  Path and length are made to fit: a longer path is cut, a shorter whole number of hops counts. */
  function Fit(path: string, len: int, mode: nat): Route {
    var actual := |path| / 2;
    var expected := len * (mode + 1);
    if path == "" || actual == expected then Route(path, len, mode)
    else if actual > expected then Route(if expected >= 0 then path[..2 * expected] else path, len, mode)
    else Route(path, if actual % (mode + 1) == 0 then actual / (mode + 1) else len, mode)
  }

  /** The mode used for fitting: anything but 0, 1, 2 means one byte per hop. */
  function UsableMode(mode: Option<int>): nat {
    if mode.Some? && 0 <= mode.value <= 2 then mode.value else 0
  }

  function Normalize(path: Option<string>, len: Option<int>, mode: Option<int>): Route {
    var (l, m) := Unpack(if len.Some? then len.value else -1, mode);
    if l == -1 then FLOOD else Fit(if path.Some? then path.value else "", l, UsableMode(m))
  }

  /** The normaliser as the program runs it, rewriting its local variables. */
  method NormalizeContactRoute(pathHex: Option<string>, pathLen: Option<int>, pathHashMode: Option<int>)
    returns (r: Route)
    ensures r == Normalize(pathHex, pathLen, pathHashMode)
  {
    var path := if pathHex.Some? then pathHex.value else "";
    var len := if pathLen.Some? then pathLen.value else -1;
    var mode := pathHashMode;
    if len < -1 || len > 63 {
      var packed := len % 256;
      if packed == 255 {
        return FLOOD;
      }
      var decodedMode := (packed / 64) % 4;
      if decodedMode != 3 {
        len, mode := packed % 64, Some(decodedMode);
      }
    }
    assert (len, mode) == Unpack(if pathLen.Some? then pathLen.value else -1, pathHashMode);
    if len == -1 {
      return FLOOD;
    }
    if mode != Some(0) && mode != Some(1) && mode != Some(2) {
      mode := Some(0);
    }
    ghost var expected := Fit(path, len, mode.value);
    if path != "" {
      var bytesPerHop := mode.value + 1;
      var actualBytes := |path| / 2;
      var expectedBytes := len * bytesPerHop;
      if actualBytes > expectedBytes >= 0 {
        path := path[..expectedBytes * 2];
      } else if actualBytes < expectedBytes && bytesPerHop > 0 && actualBytes % bytesPerHop == 0 {
        len := actualBytes / bytesPerHop;
      }
    }
    assert Route(path, len, mode.value) == expected;
    return Route(path, len, mode.value);
  }

  function Renormalize(r: Route): Route {
    Normalize(Some(r.path), Some(r.len), Some(r.mode))
  }

  // ------------------------------------------------------------ idempotence

  /** The inputs a second pass changes: a positive length outside the range whose low byte is in the reserved mode 3
      (but not 0xFF), with a shorter path of whole hops, more than 63 of them, whose count reads as another packed
      byte. */
  predicate Unstable(path: Option<string>, len: Option<int>, mode: Option<int>) {
    && len.Some? && len.value > 63 && 192 <= len.value % 256 < 255
    && path.Some? && path.value != ""
    && var size := UsableMode(mode) + 1;
    var actual := |path.value| / 2;
    && actual < len.value * size
    && actual % size == 0
    && actual / size > 63
    && !(192 <= (actual / size) % 256 < 255)
  }

  lemma Sizes(a: nat, size: nat)
    requires 1 <= size <= 3
    ensures a % size == 0 ==> (a / size) * size == a
  {
  }

  /** Fitting twice changes nothing, for any length that is itself left alone by Unpack. */
  lemma FitTwice(path: string, len: int, mode: nat)
    requires mode <= 2
    ensures var r := Fit(path, len, mode); Fit(r.path, r.len, mode) == r
  {
    Sizes(|path| / 2, mode + 1);
    var expected := len * (mode + 1);
    if path != "" && |path| / 2 > expected >= 0 {
      assert |path[..2 * expected]| / 2 == expected;
    }
  }

  /** What fitting does to the length. */
  lemma FitLength(path: string, len: int, mode: nat)
    requires mode <= 2
    ensures var r := Fit(path, len, mode);
            && r.mode == mode
            && (r.len == len || (0 <= r.len < len && r.len == (|path| / 2) / (mode + 1)))
            && (r.len != len <==> path != "" && |path| / 2 < len * (mode + 1) && (|path| / 2) % (mode + 1) == 0)
  {
    Sizes(|path| / 2, mode + 1);
  }

  /** What fitting does to the path: it keeps a prefix, all of it unless the path is longer than the hops need; path
      and hops then fit exactly, unless the path stops short in the middle of a hop. */
  lemma FitPath(path: string, len: nat, mode: nat)
    requires mode <= 2 && path != ""
    ensures var r := Fit(path, len, mode);
            && r.path <= path
            && (r.path == path || |r.path| == 2 * (len * (mode + 1)) < |path|)
            && (|r.path| / 2 == r.len * (mode + 1) <==>
                 |path| / 2 >= len * (mode + 1) || (|path| / 2) % (mode + 1) == 0)
  {
    Sizes(|path| / 2, mode + 1);
    var expected := len * (mode + 1);
    if |path| / 2 > expected {
      assert |path[..2 * expected]| == 2 * expected;
    }
  }

  /** Lengths that Unpack leaves alone. */
  predicate Settled(len: int) {
    -1 <= len <= 63 || 192 <= len % 256 < 255
  }

  /** A fitted route is a fixed point exactly when its length is settled. */
  lemma FixedWhenSettled(path: string, len: int, mode: nat)
    requires mode <= 2 && len != -1
    ensures var r := Fit(path, len, mode); Renormalize(r) == r <==> Settled(r.len)
  {
    FitTwice(path, len, mode);
    FitLength(path, len, mode);
    var r := Fit(path, len, mode);
    if !Settled(r.len) && r.len % 256 != 255 {
      FitLength(r.path, (r.len % 256) % 64, (r.len % 256) / 64);
    }
  }

  /** Fitting an unpacked length leaves it settled unless the input is Unstable. */
  lemma SettledUnlessUnstable(path: Option<string>, len: Option<int>, mode: Option<int>)
    ensures var (l, m) := Unpack(if len.Some? then len.value else -1, mode);
            if l == -1 then !Unstable(path, len, mode)
            else Settled(Fit(if path.Some? then path.value else "", l, UsableMode(m)).len) <==>
                !Unstable(path, len, mode)
  {
    var (l, m) := Unpack(if len.Some? then len.value else -1, mode);
    FitLength(if path.Some? then path.value else "", l, UsableMode(m));
  }

  /** Main result: normalising is idempotent on exactly the inputs that are not Unstable. */
  lemma NormalizeIdempotent(path: Option<string>, len: Option<int>, mode: Option<int>)
    ensures var r := Normalize(path, len, mode); Renormalize(r) == r <==> !Unstable(path, len, mode)
  {
    var (l, m) := Unpack(if len.Some? then len.value else -1, mode);
    SettledUnlessUnstable(path, len, mode);
    if l != -1 {
      FixedWhenSettled(if path.Some? then path.value else "", l, UsableMode(m));
    }
  }

  /** The unstable inputs exist: 200 one-byte hops announced, 100 present. */
  lemma UnstableExample(path: string)
    requires |path| == 200
    ensures Normalize(Some(path), Some(200), Some(0)) == Route(path, 100, 0)
    ensures Renormalize(Route(path, 100, 0)).len == 36
  {
  }

  /** A packed byte of mode 1 or 2 means the same whether it was stored unsigned or as a signed byte, whatever mode
      was stored beside it: its own hop count and mode, as DecodePathByte reads them. */
  lemma SignedAndUnsignedAgree(path: Option<string>, b: int, mode: Option<int>, mode': Option<int>)
    requires 64 <= b < 192
    ensures Normalize(path, Some(b), mode) == Normalize(path, Some(b - 256), mode')
    ensures DecodePathByte(b).Some?
    ensures var (hops, size) := DecodePathByte(b).value;
            Normalize(path, Some(b), mode) == Normalize(path, Some(hops), Some(size - 1))
  {
    assert (b - 256) % 256 == b;
  }

  /** What reads as flood: no length, -1, or any stray byte 0xFF, however it was stored. */
  lemma FloodExactly(path: Option<string>, len: Option<int>, mode: Option<int>)
    ensures Normalize(path, len, mode).len == -1 && path == Some("") ==> Normalize(path, len, mode) == FLOOD
    ensures len == None || len == Some(-1) || len == Some(255) ==> Normalize(path, len, mode) == FLOOD
    ensures Normalize(path, len, mode) == FLOOD <==>
            len.None? || len.value == -1 || ((len.value < -1 || len.value > 63) && len.value % 256 == 255)
  {
    var (l, m) := Unpack(if len.Some? then len.value else -1, mode);
    FitLength(if path.Some? then path.value else "", l, UsableMode(m));
  }

  lemma StrayLengthUnpacks(len: int, mode: Option<int>)
    requires len < -1 || len > 63
    ensures len % 256 < 192 ==>
              Unpack(len, mode) == ((len % 256) % 64, Some((len % 256) / 64)) && 0 <= (len % 256) / 64 <= 2
    ensures 192 <= len % 256 < 255 ==> Unpack(len, mode) == (len, mode)
  {
  }

  /** What a stray length outside [-1, 63] reads as: the hops and mode of its low byte, or, in the reserved mode 3, the
      length itself under the mode stored beside it. */
  lemma StrayLengthReadsAs(path: Option<string>, len: int, mode: Option<int>)
    requires len < -1 || len > 63
    ensures len % 256 < 192 ==>
              Normalize(path, Some(len), mode) == Normalize(path, Some((len % 256) % 64), Some((len % 256) / 64))
    ensures 192 <= len % 256 < 255 ==>
              Normalize(path, Some(len), mode) == Fit(if path.Some? then path.value else "", len, UsableMode(mode))
  {
    StrayLengthUnpacks(len, mode);
    if len % 256 < 192 {
      var hops, packed := (len % 256) % 64, Some((len % 256) / 64);
      assert Unpack(hops, packed) == (hops, packed);
    }
  }

  /** A missing or unknown mode means one byte per hop. */
  lemma UnknownModeIsOneByte(path: Option<string>, len: int, mode: Option<int>)
    requires -1 <= len <= 63 && mode != Some(1) && mode != Some(2)
    ensures Normalize(path, Some(len), mode) == Normalize(path, Some(len), Some(0))
  {
  }

  // ------------------------------------------------------------ explicit routes

  datatype RouteError = NoHops | BadWidth | MixedWidth | NotHex | TooLong

  datatype RouteResult = Ok(route: Route) | Err(error: RouteError)

  /** Python's whitespace below U+0100. */
  predicate IsSpace(c: char) {
    '\t' <= c <= '\r' || 28 <= c as int <= 32 || c as int == 0x85 || c as int == 0xA0
  }

  predicate IsHexDigit(c: char) {
    '0' <= c <= '9' || 'a' <= c <= 'f' || 'A' <= c <= 'F'
  }

  /** What `bytes.fromhex` accepts: digit pairs, with ASCII whitespace between them. */
  predicate FromHexAccepts(s: string) {
    if s == "" then true
    else if '\t' <= s[0] <= '\r' || s[0] == ' ' then FromHexAccepts(s[1..])
    else |s| >= 2 && IsHexDigit(s[0]) && IsHexDigit(s[1]) && FromHexAccepts(s[2..])
  }

  function TrimLeft(s: string): string {
    if s != "" && IsSpace(s[0]) then TrimLeft(s[1..]) else s
  }

  function TrimRight(s: string): string {
    if s != "" && IsSpace(s[|s| - 1]) then TrimRight(s[..|s| - 1]) else s
  }

  /** The non-blank comma-separated parts, stripped and lower-cased. */
  function Hops(text: string, part: string): seq<string>
    decreases |text|
  {
    var hop := TrimRight(TrimLeft(part));
    if text == "" then (if hop == "" then [] else [Lower(hop)])
    else if text[0] == ',' then (if hop == "" then [] else [Lower(hop)]) + Hops(text[1..], "")
    else Hops(text[1..], part + [text[0]])
  }

  /** The first complaint of the checking loop, hop by hop: width before hex. */
  function Complaint(hops: seq<string>, width: nat): Option<RouteError> {
    if hops == [] then None
    else if |hops[0]| != width then Some(MixedWidth)
    else if !FromHexAccepts(hops[0]) then Some(NotHex)
    else Complaint(hops[1..], width)
  }

  function ParseExplicitHopRoute(text: string): RouteResult {
    var hops := Hops(text, "");
    if hops == [] then Err(NoHops)
    else
      var width := |hops[0]|;
      if width != 2 && width != 4 && width != 6 then Err(BadWidth)
      else
        var complaint := Complaint(hops, width);
        if complaint.Some? then Err(complaint.value)
        else if WireLength(|hops|, width / 2) > MAX_PATH_SIZE then Err(TooLong)
        else Ok(Route(Concat(hops), |hops|, width / 2 - 1))
  }

  lemma {:induction false} JoinedLength(hops: seq<string>, width: nat)
    requires Complaint(hops, width).None?
    ensures |Concat(hops)| == |hops| * width
  {
    if hops != [] {
      JoinedLength(hops[1..], width);
      assert |hops| * width == width + (|hops| - 1) * width;
    }
  }

  /** A route whose path holds exactly its hops survives normalising exactly when its hop count fits six bits. */
  lemma ExactRouteReadsBack(path: string, hops: nat, mode: nat)
    requires mode <= 2 && |path| == 2 * (hops * (mode + 1)) && hops * (mode + 1) <= 189
    ensures Normalize(Some(path), Some(hops), Some(mode)) == Route(path, hops, mode) <==> hops <= 63
  {
    if hops > 63 {
      FitLength(path, (hops % 256) % 64, (hops % 256) / 64);
    }
  }

  /** What an accepted route is made of. */
  lemma AcceptedShape(text: string) returns (size: nat)
    requires ParseExplicitHopRoute(text).Ok?
    ensures var hops := Hops(text, "");
            && hops != [] && 1 <= size <= 3 && WireLength(|hops|, size) <= 64
            && Complaint(hops, 2 * size).None?
            && ParseExplicitHopRoute(text).route == Route(Concat(hops), |hops|, size - 1)
  {
    size := |Hops(text, "")[0]| / 2;
  }

  /** The lengths of so many hops of one size. */
  lemma HopBytes(n: nat, size: nat)
    requires 1 <= size <= 3 && n * size <= 64
    ensures n * (2 * size) == 2 * (n * size) && n <= 64 && (n == 64 ==> size == 1)
  {
  }

  /** An accepted explicit route is stored unchanged exactly when its text has at most 63 hops; the size check also
      admits 64 one-byte hops, which do not fit the six-bit hop field. */
  lemma ExplicitRouteReadsBack(text: string)
    requires ParseExplicitHopRoute(text).Ok?
    ensures var r := ParseExplicitHopRoute(text).route;
            && 1 <= r.len <= 64 && 0 <= r.mode <= 2 && |r.path| == 2 * (r.len * (r.mode + 1)) <= 2 * MAX_PATH_SIZE
            && (r.len == 64 ==> r.mode == 0)
            && r.len == |Hops(text, "")|
            && (Renormalize(r) == r <==> |Hops(text, "")| <= 63)
  {
    var hops := Hops(text, "");
    var size := AcceptedShape(text);
    JoinedLength(hops, 2 * size);
    HopBytes(|hops|, size);
    ExactRouteReadsBack(Concat(hops), |hops|, size - 1);
  }

  // ------------------------------------------------------------ reading the text of a route

  /** What one part between commas contributes. */
  function Kept(part: string): seq<string> {
    var hop := TrimRight(TrimLeft(part));
    if hop == "" then [] else [Lower(hop)]
  }

  /** The parts joined with commas. */
  function Commas(parts: seq<string>): string
    requires parts != []
  {
    if |parts| == 1 then parts[0] else parts[0] + "," + Commas(parts[1..])
  }

  function KeptAll(parts: seq<string>): seq<string> {
    if parts == [] then [] else Kept(parts[0]) + KeptAll(parts[1..])
  }

  lemma {:induction false} PartAlone(w: string, part: string)
    requires ',' !in w
    ensures Hops(w, part) == Kept(part + w)
    decreases |w|
  {
    if w == "" {
      assert part + w == part;
    } else {
      assert w[0] in w;
      assert forall c :: c in w[1..] ==> c in w;
      PartAlone(w[1..], part + [w[0]]);
      assert part + [w[0]] + w[1..] == part + w;
    }
  }

  lemma {:induction false} PartThenRest(w: string, part: string, rest: string)
    requires ',' !in w
    ensures Hops(w + "," + rest, part) == Kept(part + w) + Hops(rest, "")
    decreases |w|
  {
    var text := w + "," + rest;
    if w == "" {
      assert part + w == part;
      assert text[0] == ',' && text[1..] == rest;
    } else {
      assert w[0] in w;
      assert forall c :: c in w[1..] ==> c in w;
      assert text[0] == w[0] && text[1..] == w[1..] + "," + rest;
      PartThenRest(w[1..], part + [w[0]], rest);
      assert part + [w[0]] + w[1..] == part + w;
    }
  }

  /** Splitting at commas gives back the parts, each stripped and in lower case, the blank ones left out. */
  lemma {:induction false} HopsOfParts(parts: seq<string>)
    requires parts != [] && forall i :: 0 <= i < |parts| ==> ',' !in parts[i]
    ensures Hops(Commas(parts), "") == KeptAll(parts)
  {
    assert "" + parts[0] == parts[0];
    if |parts| == 1 {
      PartAlone(parts[0], "");
      assert KeptAll(parts[1..]) == [];
    } else {
      PartThenRest(parts[0], "", Commas(parts[1..]));
      HopsOfParts(parts[1..]);
    }
  }

  /** Upper-case spelling and blanks around a hop do not matter. */
  lemma SpellingIsForgiven(hop: string)
    requires Plain(hop) && hop != ""
    ensures Kept(Upper(hop)) == [hop] && Kept(" " + hop + " ") == [hop]
  {
    PlainKept(hop);
    var upper, padded := Upper(hop), " " + hop + " ";
    assert TrimLeft(upper) == upper && TrimRight(upper) == upper;
    assert Lower(upper) == hop;
    assert padded[1..] == hop + " " && TrimLeft(padded) == TrimLeft(hop + " ") == hop + " ";
    assert (hop + " ")[..|hop|] == hop && TrimRight(hop + " ") == TrimRight(hop);
  }

  /** A hop in plain spelling: lower-case hex digits. */
  predicate Plain(hop: string) {
    forall i :: 0 <= i < |hop| ==> '0' <= hop[i] <= '9' || 'a' <= hop[i] <= 'f'
  }

  lemma {:induction false} PlainAccepted(hop: string)
    requires Plain(hop) && |hop| % 2 == 0
    ensures FromHexAccepts(hop)
  {
    if hop != "" {
      PlainAccepted(hop[2..]);
    }
  }

  lemma PlainKept(hop: string)
    requires Plain(hop) && hop != ""
    ensures Kept(hop) == [hop] && ',' !in hop
  {
    assert TrimLeft(hop) == hop && TrimRight(hop) == hop;
    assert Lower(hop) == hop;
  }

  lemma {:induction false} PlainRoute(hops: seq<string>, width: nat)
    requires forall i :: 0 <= i < |hops| ==> Plain(hops[i]) && |hops[i]| == width
    requires width > 0 && width % 2 == 0
    ensures KeptAll(hops) == hops && Complaint(hops, width).None?
    ensures forall i :: 0 <= i < |hops| ==> ',' !in hops[i]
  {
    if hops != [] {
      PlainRoute(hops[1..], width);
      PlainKept(hops[0]);
      PlainAccepted(hops[0]);
      assert forall i :: 1 <= i < |hops| ==> hops[i] == hops[1..][i - 1];
    }
  }

  /** From the hops on, parsing is a question of width, spelling and size. */
  lemma ParsedHops(text: string, size: nat)
    requires 1 <= size <= 3 && Hops(text, "") != [] && |Hops(text, "")[0]| == 2 * size
    requires Complaint(Hops(text, ""), 2 * size).None?
    ensures var hops := Hops(text, "");
            ParseExplicitHopRoute(text) ==
            if WireLength(|hops|, size) > 64 then Err(TooLong) else Ok(Route(Concat(hops), |hops|, size - 1))
  {
    assert (2 * size) / 2 == size;
  }

  /** Main result: writing hops of one, two or three bytes with commas and parsing them gives exactly those hops, and is
      refused exactly when the path has more than 64 bytes. */
  lemma PrintedRouteParses(hops: seq<string>, size: nat)
    requires hops != [] && 1 <= size <= 3
    requires forall i :: 0 <= i < |hops| ==> Plain(hops[i]) && |hops[i]| == 2 * size
    ensures ParseExplicitHopRoute(Commas(hops)) ==
            if |hops| * size > 64 then Err(TooLong) else Ok(Route(Concat(hops), |hops|, size - 1))
  {
    PlainRoute(hops, 2 * size);
    HopsOfParts(hops);
    ParsedHops(Commas(hops), size);
  }

  /** Whitespace of `bytes.fromhex`. */
  predicate IsBlank(c: char) {
    '\t' <= c <= '\r' || c == ' '
  }

  predicate AllHex(s: string) {
    forall i :: 0 <= i < |s| ==> IsHexDigit(s[i])
  }

  /** Two digits, two blanks, two digits. */
  predicate Gapped(hop: string) {
    |hop| == 6 && AllHex(hop[..2]) && IsBlank(hop[2]) && IsBlank(hop[3]) && AllHex(hop[4..])
  }

  lemma TwoDigits(s: string)
    requires |s| == 2 && !IsBlank(s[1])
    ensures FromHexAccepts(s) <==> AllHex(s)
  {
    assert s[2..] == "";
    if IsBlank(s[0]) { assert |s[1..]| == 1; }
  }

  lemma FourDigits(s: string)
    requires |s| == 4 && !IsBlank(s[3])
    ensures FromHexAccepts(s) <==> AllHex(s) || (IsBlank(s[0]) && IsBlank(s[1]) && AllHex(s[2..]))
  {
    TwoDigits(s[2..]);
    if IsBlank(s[0]) {
      if IsBlank(s[1]) {
        assert s[1..][1..] == s[2..];
      } else {
        var last := s[1..][2..];
        assert |last| == 1 && last[0] == s[3] && !FromHexAccepts(last);
      }
    } else {
      assert AllHex(s) <==> IsHexDigit(s[0]) && IsHexDigit(s[1]) && AllHex(s[2..]);
    }
  }

  /** Which stripped hops pass the hex check: those of hex digits, and three-byte hops with a gap of two blanks, which
      `bytes.fromhex` reads as two bytes. */
  lemma HexCheckExactly(hop: string)
    requires |hop| == 2 || |hop| == 4 || |hop| == 6
    requires !IsSpace(hop[0]) && !IsSpace(hop[|hop| - 1])
    ensures FromHexAccepts(hop) <==> AllHex(hop) || Gapped(hop)
  {
    if |hop| == 2 {
      TwoDigits(hop);
    } else if |hop| == 4 {
      FourDigits(hop);
    } else {
      var rest := hop[2..];
      FourDigits(rest);
      assert rest[2..] == hop[4..];
      assert AllHex(hop[..2]) <==> IsHexDigit(hop[0]) && IsHexDigit(hop[1]);
      assert AllHex(hop) <==> AllHex(hop[..2]) && AllHex(rest);
    }
  }

  lemma GappedKept(hop: string)
    requires |hop| == 6 && Plain(hop[..2]) && hop[2] == ' ' == hop[3] && Plain(hop[4..])
    ensures Kept(hop) == [hop] && ',' !in hop && Gapped(hop) && !AllHex(hop) && !IsSpace(hop[0]) && !IsSpace(hop[5])
  {
    assert hop[0] == hop[..2][0] && hop[1] == hop[..2][1] && hop[4] == hop[4..][0] && hop[5] == hop[4..][1];
    assert TrimLeft(hop) == hop && TrimRight(hop) == hop && Lower(hop) == hop;
    assert !IsHexDigit(hop[2]);
  }

  lemma OneHop(hop: string)
    requires Hops(hop, "") == [hop] && |hop| == 6 && FromHexAccepts(hop)
    ensures ParseExplicitHopRoute(hop) == Ok(Route(hop, 1, 2))
  {
    var hops := [hop];
    assert hops[1..] == [];
    assert Complaint(hops, 6).None?;
    ParsedHops(hop, 3);
    assert Concat(hops) == hop;
  }

  /** An accepted route need not be hex: a single hop with a gap is accepted as three bytes. */
  lemma GappedHopAccepted(hop: string)
    requires |hop| == 6 && Plain(hop[..2]) && hop[2] == ' ' == hop[3] && Plain(hop[4..])
    ensures ParseExplicitHopRoute(hop) == Ok(Route(hop, 1, 2)) && !AllHex(hop)
  {
    GappedKept(hop);
    assert "" + hop == hop;
    PartAlone(hop, "");
    HexCheckExactly(hop);
    OneHop(hop);
  }

  predicate Stripped(hop: string) {
    hop != "" && !IsSpace(hop[0]) && !IsSpace(hop[|hop| - 1])
  }

  lemma {:induction false} TrimLeftStrips(s: string)
    ensures TrimLeft(s) != "" ==> !IsSpace(TrimLeft(s)[0])
  {
    if s != "" && IsSpace(s[0]) { TrimLeftStrips(s[1..]); }
  }

  lemma {:induction false} TrimRightStrips(s: string)
    ensures TrimRight(s) != "" ==> !IsSpace(TrimRight(s)[|TrimRight(s)| - 1]) && TrimRight(s)[0] == s[0]
    ensures |TrimRight(s)| <= |s|
  {
    if s != "" && IsSpace(s[|s| - 1]) { TrimRightStrips(s[..|s| - 1]); }
  }

  lemma KeptIsStripped(part: string)
    ensures Kept(part) == [] || (|Kept(part)| == 1 && Stripped(Kept(part)[0]))
  {
    var left := TrimLeft(part);
    var hop := TrimRight(left);
    TrimLeftStrips(part);
    TrimRightStrips(left);
    if hop != "" {
      var low := Lower(hop);
      assert low[0] == hop[0] || 'a' <= low[0] <= 'z';
      assert low[|low| - 1] == hop[|hop| - 1] || 'a' <= low[|low| - 1] <= 'z';
    }
  }

  lemma {:induction false} HopsAreStripped(text: string, part: string)
    ensures forall i :: 0 <= i < |Hops(text, part)| ==> Stripped(Hops(text, part)[i])
    decreases |text|
  {
    KeptIsStripped(part);
    if text != "" {
      HopsAreStripped(text[1..], if text[0] == ',' then "" else part + [text[0]]);
      if text[0] == ',' {
        assert Hops(text, part) == Kept(part) + Hops(text[1..], "");
      }
    } else {
      assert Hops(text, part) == Kept(part);
    }
  }

  lemma {:induction false} NoComplaint(hops: seq<string>, width: nat, i: nat)
    requires Complaint(hops, width).None? && i < |hops|
    ensures |hops[i]| == width && FromHexAccepts(hops[i])
  {
    if i > 0 { NoComplaint(hops[1..], width, i - 1); }
  }

  /** The hops of an accepted route are hex, but for three-byte hops with a gap. */
  lemma AcceptedHops(text: string, i: nat)
    requires ParseExplicitHopRoute(text).Ok? && i < |Hops(text, "")|
    ensures AllHex(Hops(text, "")[i]) || Gapped(Hops(text, "")[i])
  {
    var hops := Hops(text, "");
    HopsAreStripped(text, "");
    NoComplaint(hops, |hops[0]|, i);
    HexCheckExactly(hops[i]);
  }

  lemma {:induction false} ComplaintExactly(hops: seq<string>, width: nat)
    ensures Complaint(hops, width).None? <==>
            forall i :: 0 <= i < |hops| ==> |hops[i]| == width && FromHexAccepts(hops[i])
  {
    if hops != [] {
      ComplaintExactly(hops[1..], width);
      assert forall i :: 1 <= i < |hops| ==> hops[i] == hops[1..][i - 1];
    }
  }

  /** Exactly these texts are accepted: at least one hop, all of one width of 2, 4 or 6 characters that pass the hex
      check, and at most 64 bytes in all. */
  lemma AcceptedExactly(text: string)
    ensures var hops := Hops(text, "");
            ParseExplicitHopRoute(text).Ok? <==>
            && hops != []
            && (|hops[0]| == 2 || |hops[0]| == 4 || |hops[0]| == 6)
            && (forall i :: 0 <= i < |hops| ==> |hops[i]| == |hops[0]| && FromHexAccepts(hops[i]))
            && |hops| * (|hops[0]| / 2) <= 64
  {
    var hops := Hops(text, "");
    if hops != [] { ComplaintExactly(hops, |hops[0]|); }
  }

  lemma SameHops(n: nat) returns (hops: seq<string>)
    ensures |hops| == n && forall i :: 0 <= i < n ==> hops[i] == "aa"
  {
    hops := seq(n, i requires 0 <= i < n => "aa");
  }

  lemma SixtyFourReadsAsDirect(r: Route)
    requires r.len == 64 && r.mode == 0 && |r.path| == 128
    ensures Renormalize(r) == Route("", 0, 1)
  {
  }

  /** The failing routes exist: 64 one-byte hops are accepted, and read back as a direct route. */
  lemma SixtyFourHopsAccepted() returns (text: string)
    ensures var r := ParseExplicitHopRoute(text);
            r.Ok? && r.route.len == 64 && Renormalize(r.route) == Route("", 0, 1)
  {
    var hops := SameHops(64);
    text := Commas(hops);
    PrintedRouteParses(hops, 1);
    ExplicitRouteReadsBack(text);
    SixtyFourReadsAsDirect(ParseExplicitHopRoute(text).route);
  }

  // ------------------------------------------------------------ decoded PATH payloads

  datatype PathPayload = PathPayload(path: seq<byte>, len: nat, mode: nat, extraType: nat, extra: seq<byte>)

  /** The layout of a PATH payload after decryption. */
  function PathLayout(decrypted: seq<byte>): Option<PathPayload> {
    if |decrypted| < 2 then None
    else
      match DecodePathByte(decrypted[0])
      case None => None
      case Some((hops, size)) =>
        var length := WireLength(hops, size);
        if |decrypted| < 1 + length + 1 then None
        else Some(PathPayload(decrypted[1..1 + length], hops, size - 1,
                              decrypted[1 + length] % 16, decrypted[2 + length..]))
  }

  /** A PATH payload is accepted exactly if its first byte is below 192 and a byte follows the path it announces. */
  lemma PathAcceptedExactly(decrypted: seq<byte>)
    ensures PathLayout(decrypted).Some? <==>
            |decrypted| >= 2 && decrypted[0] < 192
            && |decrypted| >= 2 + WireLength(decrypted[0] % 64, decrypted[0] / 64 + 1)
  {
    if |decrypted| >= 2 { PathByteFields(decrypted[0]); }
  }

  /** Every decoded PATH route is read back unchanged. */
  lemma DecodedPathReadsBack(decrypted: seq<byte>)
    requires PathLayout(decrypted).Some?
    ensures var p := PathLayout(decrypted).value;
            Normalize(Some(Hex(p.path)), Some(p.len), Some(p.mode)) == Route(Hex(p.path), p.len, p.mode)
  {
    var p := PathLayout(decrypted).value;
    ExactRouteReadsBack(Hex(p.path), p.len, p.mode);
  }

  /** The layout accounts for every byte. */
  lemma PathLayoutIsExact(decrypted: seq<byte>)
    requires PathLayout(decrypted).Some?
    ensures var p := PathLayout(decrypted).value;
            && |p.path| == p.len * (p.mode + 1)
            && decrypted[0] == 64 * p.mode + p.len
            && exists t: byte :: t % 16 == p.extraType && decrypted == [decrypted[0]] + p.path + [t] + p.extra
  {
    var p := PathLayout(decrypted).value;
    var length := |p.path|;
    var t := decrypted[1 + length];
    assert decrypted == [decrypted[0]] + decrypted[1..1 + length] + [t] + decrypted[2 + length..];
  }
}
