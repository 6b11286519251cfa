/** DNS stamps: dnsstamp/src/dns_stamp.cpp. A stamp is written as length-prefixed fields, in base64url,
    behind `sdns://`, and read back from there. Text is a sequence of bytes. */
module DnsStamp {
  import opened Text
  import opened Base64

  datatype Proto = Plain | DnsCrypt | Doh | Tls | Doq

  type U64 = n: int | 0 <= n < 0x1_0000_0000_0000_0000

  datatype Stamp = Stamp(
    proto: Proto,
    props: U64,
    serverAddr: Bytes,
    serverPk: Bytes,
    hashes: seq<Bytes>,
    providerName: Bytes,
    path: Bytes
  )

  /** `OutOfBounds` stands for reading a byte behind the end, which the reader does not check for. */
  datatype Result<T> = Ok(value: T) | Error(message: string) | OutOfBounds

  // ----- constants ----------------------------------------------------------------------------------

  const COLON: Byte := 58
  const OPEN_BRACKET: Byte := 91
  const CLOSE_BRACKET: Byte := 93

  /** `sdns://` */
  const STAMP_URL_PREFIX: Bytes := [115, 100, 110, 115, 58, 47, 47]

  function ProtoByte(p: Proto): Byte {
    match p case Plain => 0 case DnsCrypt => 1 case Doh => 2 case Tls => 3 case Doq => 4
  }

  /** A colon and the default port: 53, 443, 443, 853 and 8853. */
  function PortSuffix(p: Proto): (r: Bytes)
    ensures 0 < |r| <= 5 && r[0] == COLON
  {
    match p
    case Plain => [COLON, 53, 51]
    case DnsCrypt => [COLON, 52, 52, 51]
    case Doh => [COLON, 52, 52, 51]
    case Tls => [COLON, 56, 53, 51]
    case Doq => [COLON, 56, 56, 53, 51]
  }

  function MinSize(p: Proto): nat {
    match p case Plain => 17 case DnsCrypt => 66 case Doh => 19 case Tls => 19 case Doq => 19
  }

  // ----- writing --------------------------------------------------------------------------------------

  /** The first `k` bytes of a number, the lowest first. */
  function LittleEndian(n: nat, k: nat): (r: Bytes)
    ensures |r| == k
  {
    if k == 0 then [] else [n % 256] + LittleEndian(n / 256, k - 1)
  }

  /** A length in one byte, with the highest bit set when another entry follows. */
  function SizeByte(size: nat, more: bool): Byte {
    var low := size % 256;
    if more && low < 128 then low + 128 else low
  }

  function WithSize(data: Bytes, more: bool): Bytes {
    [SizeByte(|data|, more)] + data
  }

  function HashEntries(hashes: seq<Bytes>): Bytes {
    if hashes == [] then []
    else WithSize(hashes[0], |hashes| > 1) + HashEntries(hashes[1..])
  }

  function HashesField(hashes: seq<Bytes>): Bytes {
    if hashes == [] then [0] else HashEntries(hashes)
  }

  function WithoutSuffix(s: Bytes, suffix: Bytes): Bytes {
    if EndsWith(s, suffix) then s[..|s| - |suffix|] else s
  }

  function Header(s: Stamp): Bytes {
    [ProtoByte(s.proto)] + LittleEndian(s.props, 8)
  }

  function AddrField(s: Stamp): Bytes {
    WithSize(WithoutSuffix(s.serverAddr, PortSuffix(s.proto)), false)
  }

  /** The fields behind the address. */
  function Fields(s: Stamp): Bytes {
    match s.proto
    case Plain => []
    case DnsCrypt => WithSize(s.serverPk, false) + WithSize(s.providerName, false)
    case Doh => HashesField(s.hashes) + (WithSize(s.providerName, false) + WithSize(s.path, false))
    case Tls => HashesField(s.hashes) + WithSize(s.providerName, false)
    case Doq => HashesField(s.hashes) + WithSize(s.providerName, false)
  }

  function StampBytes(s: Stamp): Bytes {
    Header(s) + (AddrField(s) + Fields(s))
  }

  function StampString(s: Stamp): Bytes {
    STAMP_URL_PREFIX + Encoded(StampBytes(s), true)
  }

  method WriteHashes(bin: Bytes, hashes: seq<Bytes>) returns (out: Bytes)
    ensures out == bin + HashesField(hashes)
  {
    out := bin;
    if hashes == [] {
      out := out + [0];
      return;
    }
    var lastIndex, i := |hashes| - 1, 0;
    while i < |hashes|
      invariant 0 <= i <= |hashes|
      invariant out + HashEntries(hashes[i..]) == bin + HashEntries(hashes)
    {
      assert hashes[i..][1..] == hashes[i + 1..];
      Regroup(out, WithSize(hashes[i], i < lastIndex), HashEntries(hashes[i + 1..]));
      out := out + WithSize(hashes[i], i < lastIndex);
      i := i + 1;
    }
  }

  method WriteFields(bin: Bytes, s: Stamp) returns (out: Bytes)
    ensures out == bin + Fields(s)
  {
    match s.proto {
      case Plain =>
        out := bin;
      case DnsCrypt =>
        out := bin + (WithSize(s.serverPk, false) + WithSize(s.providerName, false));
      case Doh =>
        out := WriteHashes(bin, s.hashes);
        out := Append(out, bin, HashesField(s.hashes), WithSize(s.providerName, false) + WithSize(s.path, false));
      case Tls =>
        out := WriteHashes(bin, s.hashes);
        out := Append(out, bin, HashesField(s.hashes), WithSize(s.providerName, false));
      case Doq =>
        out := WriteHashes(bin, s.hashes);
        out := Append(out, bin, HashesField(s.hashes), WithSize(s.providerName, false));
    }
  }

  method Append(bin: Bytes, ghost a: Bytes, ghost b: Bytes, c: Bytes) returns (out: Bytes)
    requires bin == a + b
    ensures out == a + (b + c)
  {
    Regroup(a, b, c);
    out := bin + c;
  }

  method Str(s: Stamp) returns (r: Bytes)
    ensures r == StampString(s)
  {
    var bin := WriteFields(Header(s) + AddrField(s), s);
    Regroup(Header(s), AddrField(s), Fields(s));
    var text := EncodeToBase64(bin, true);
    r := STAMP_URL_PREFIX + text;
  }

  // ----- reading --------------------------------------------------------------------------------------

  function FromLittleEndian(b: Bytes): nat {
    if b == [] then 0 else b[0] + 256 * FromLittleEndian(b[1..])
  }

  /** The host and the port of an address; the flag tells that it is malformed. IPv6 addresses need
      brackets, and a colon needs a port behind it. */
  function SplitHostPort(a: Bytes): (Bytes, Bytes, bool) {
    if a != [] && a[0] == OPEN_BRACKET then
      match Find(a, [CLOSE_BRACKET, COLON], 0)
      case Some(i) =>
        var port := a[i + 2..];
        (if i == 0 then [] else a[1..i], port, port == [])
      case None =>
        if a[|a| - 1] == CLOSE_BRACKET then (a[1..|a| - 1], [], false) else (a, [], true)
    else
      match Find(a, [COLON], 0)
      case None => (a, [], false)
      case Some(i) =>
        if RFind(a, [COLON]) != Some(i) then (a, [], true)
        else (a[..i], a[i + 1..], a[i + 1..] == [])
  }

  /** A numeric address, in brackets or not, and no port. */
  predicate IsBareIp(isIp: Bytes -> bool, a: Bytes) {
    var (host, port, malformed) := SplitHostPort(a);
    !malformed && port == [] && isIp(host)
  }

  /** A length-prefixed field at `pos`, and the position behind it. */
  function ReadField(v: Bytes, pos: nat): Result<(Bytes, nat)> {
    if pos >= |v| then OutOfBounds
    else if pos + 1 + v[pos] > |v| then Error("Invalid stamp")
    else Ok((v[pos + 1..pos + 1 + v[pos]], pos + 1 + v[pos]))
  }

  /** The hashes from `pos` on, behind those read before; an empty one is skipped. */
  function ReadHashes(v: Bytes, pos: nat, before: seq<Bytes>): Result<(seq<Bytes>, nat)>
    decreases |v| - pos
  {
    if pos >= |v| then OutOfBounds
    else
      var size := v[pos] % 128;
      var next := pos + 1 + size;
      if next > |v| then Error("Invalid stamp")
      else
        var hashes := if size > 0 then before + [v[pos + 1..next]] else before;
        if v[pos] >= 128 then ReadHashes(v, next, hashes) else Ok((hashes, next))
  }

  method ReadHashesLoop(v: Bytes, start: nat) returns (r: Result<(seq<Bytes>, nat)>)
    ensures r == ReadHashes(v, start, [])
  {
    var pos := start;
    var hashes: seq<Bytes> := [];
    while true
      invariant ReadHashes(v, start, []) == ReadHashes(v, pos, hashes)
      decreases |v| - pos
    {
      if pos >= |v| {
        return OutOfBounds;
      }
      var raw := v[pos];
      pos := pos + 1;
      var size := raw % 128;
      if size + pos > |v| {
        return Error("Invalid stamp");
      }
      if size > 0 {
        hashes := hashes + [v[pos..pos + size]];
        pos := pos + size;
      }
      if raw < 128 {
        break;
      }
    }
    r := Ok((hashes, pos));
  }

  function EmptyStamp(p: Proto): Stamp {
    Stamp(p, 0, [], [], [], [], [])
  }

  /** The protocol, the properties and the address, to which a bare numeric address gets its port. */
  function ReadStart(isIp: Bytes -> bool, v: Bytes, p: Proto): Result<(Stamp, nat)> {
    if |v| < MinSize(p) then Error("Stamp is too short")
    else
      var props := FromLittleEndian(v[1..9]);
      match ReadField(v, 9)
      case OutOfBounds => OutOfBounds
      case Error(e) => Error(e)
      case Ok((addr, pos)) =>
        if SplitHostPort(addr).2 then Error("Malformed address")
        else
          PropsFit(v[1..9]);
          var full := if IsBareIp(isIp, addr) then addr + PortSuffix(p) else addr;
          Ok((EmptyStamp(p).(props := props, serverAddr := full), pos))
  }

  lemma PropsFit(b: Bytes)
    requires |b| == 8
    ensures FromLittleEndian(b) < 0x1_0000_0000_0000_0000
  {
    FitsBytes(b);
  }

  function Power256(k: nat): nat {
    if k == 0 then 1 else 256 * Power256(k - 1)
  }

  lemma {:induction false} FitsBytes(b: Bytes)
    ensures FromLittleEndian(b) < Power256(|b|)
    ensures Power256(8) == 0x1_0000_0000_0000_0000
  {
    assert Power256(2) == 65536 && Power256(4) == 0x1_0000_0000 && Power256(6) == 0x1_0000_0000_0000;
    if b != [] {
      FitsBytes(b[1..]);
    }
  }

  function ReadProvider(v: Bytes, s: Stamp, pos: nat): Result<(Stamp, nat)> {
    match ReadField(v, pos)
    case OutOfBounds => OutOfBounds
    case Error(e) => Error(e)
    case Ok((name, next)) => Ok((s.(providerName := name), next))
  }

  function ReadPath(v: Bytes, s: Stamp, pos: nat): Result<(Stamp, nat)> {
    match ReadField(v, pos)
    case OutOfBounds => OutOfBounds
    case Error(e) => Error(e)
    case Ok((path, next)) => Ok((s.(path := path), next))
  }

  function ReadPk(v: Bytes, s: Stamp, pos: nat): Result<(Stamp, nat)> {
    match ReadField(v, pos)
    case OutOfBounds => OutOfBounds
    case Error(e) => Error(e)
    case Ok((pk, next)) => Ok((s.(serverPk := pk), next))
  }

  function ReadStampHashes(v: Bytes, s: Stamp, pos: nat): Result<(Stamp, nat)> {
    match ReadHashes(v, pos, [])
    case OutOfBounds => OutOfBounds
    case Error(e) => Error(e)
    case Ok((hashes, next)) => Ok((s.(hashes := hashes), next))
  }

  /** The readers of a protocol, in turn, each from where the one before stopped. */
  function ReadRest(v: Bytes, s: Stamp, pos: nat): Result<(Stamp, nat)> {
    match s.proto
    case Plain => Ok((s, pos))
    case DnsCrypt =>
      (match ReadPk(v, s, pos)
       case Ok((s1, p1)) => ReadProvider(v, s1, p1)
       case failed => failed)
    case Doh =>
      (match ReadStampHashes(v, s, pos)
       case Ok((s1, p1)) =>
         (match ReadProvider(v, s1, p1)
          case Ok((s2, p2)) => ReadPath(v, s2, p2)
          case failed => failed)
       case failed => failed)
    case Tls =>
      (match ReadStampHashes(v, s, pos)
       case Ok((s1, p1)) => ReadProvider(v, s1, p1)
       case failed => failed)
    case Doq =>
      (match ReadStampHashes(v, s, pos)
       case Ok((s1, p1)) => ReadProvider(v, s1, p1)
       case failed => failed)
  }

  function NewServerStamp(isIp: Bytes -> bool, v: Bytes, p: Proto): Result<Stamp> {
    match ReadStart(isIp, v, p)
    case OutOfBounds => OutOfBounds
    case Error(e) => Error(e)
    case Ok((s, pos)) =>
      match ReadRest(v, s, pos)
      case OutOfBounds => OutOfBounds
      case Error(e) => Error(e)
      case Ok((r, end)) => if end != |v| then Error("Invalid stamp (garbage after end)") else Ok(r)
  }

  function ProtoOf(b: Byte): Option<Proto> {
    if b == 0 then Some(Plain) else if b == 1 then Some(DnsCrypt) else if b == 2 then Some(Doh)
    else if b == 3 then Some(Tls) else if b == 4 then Some(Doq) else None
  }

  function FromDecoded(isIp: Bytes -> bool, decoded: Option<Bytes>): Result<Stamp> {
    match decoded
    case None => Error("Invalid stamp")
    case Some(v) =>
      if v == [] then Error("Stamp is too short")
      else
        match ProtoOf(v[0])
        case None => Error("Unsupported stamp version or protocol")
        case Some(p) => NewServerStamp(isIp, v, p)
  }

  function FromString(isIp: Bytes -> bool, url: Bytes): Result<Stamp> {
    if StartsWith(url, STAMP_URL_PREFIX) then FromDecoded(isIp, Decoded(url[|STAMP_URL_PREFIX|..], true))
    else Error("Stamps are expected to start with sdns://")
  }
}
