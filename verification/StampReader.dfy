/** The reader of a stamp as it runs: a cursor that moves along the decoded bytes while the fields of
    the stamp are filled. Each step does what the function of the same name in DnsStamp says. */
module StampReader {
  import opened Text
  import opened Base64
  import opened DnsStamp

  datatype Status = Done | Failed(message: string) | Overrun

  /** How a reading step ends, and where it leaves the reader. */
  ghost predicate Agrees(status: Status, stamp: Stamp, pos: nat, spec: Result<(Stamp, nat)>) {
    match spec
    case Ok((s, p)) => status == Done && stamp == s && pos == p
    case Error(e) => status == Failed(e)
    case OutOfBounds => status == Overrun
  }

  class Reader {
    const value: Bytes
    var pos: nat
    var stamp: Stamp

    constructor (value: Bytes, p: Proto)
      ensures this.value == value && pos == 0 && stamp == EmptyStamp(p)
    {
      this.value := value;
      pos := 0;
      stamp := EmptyStamp(p);
    }

    method ReadBytesWithSize() returns (status: Status, bytes: Bytes)
      modifies this`pos
      ensures match ReadField(value, old(pos))
              case Ok((b, p)) => status == Done && bytes == b && pos == p
              case Error(e) => status == Failed(e)
              case OutOfBounds => status == Overrun
    {
      if pos >= |value| {
        return Overrun, [];
      }
      var size := value[pos];
      pos := pos + 1;
      if size + pos > |value| {
        return Failed("Invalid stamp"), [];
      }
      bytes := value[pos..pos + size];
      pos := pos + size;
      status := Done;
    }

    method ReadProtoPropsServerAddr(isIp: Bytes -> bool, p: Proto) returns (status: Status)
      requires stamp == EmptyStamp(p)
      modifies this
      ensures Agrees(status, stamp, pos, ReadStart(isIp, value, p))
    {
      if |value| < MinSize(p) {
        return Failed("Stamp is too short");
      }
      pos := 1;
      PropsFit(value[1..9]);
      stamp := stamp.(props := FromLittleEndian(value[pos..pos + 8]));
      pos := pos + 8;
      var addr;
      status, addr := ReadBytesWithSize();
      if status != Done {
        return;
      }
      stamp := stamp.(serverAddr := addr);
      if SplitHostPort(addr).2 {
        return Failed("Malformed address");
      }
      if IsBareIp(isIp, addr) {
        stamp := stamp.(serverAddr := addr + PortSuffix(p));
      }
    }

    method ReadServerPk() returns (status: Status)
      modifies this
      ensures Agrees(status, stamp, pos, ReadPk(value, old(stamp), old(pos)))
    {
      var bytes;
      status, bytes := ReadBytesWithSize();
      if status == Done {
        stamp := stamp.(serverPk := bytes);
      }
    }

    method ReadProviderName() returns (status: Status)
      modifies this
      ensures Agrees(status, stamp, pos, ReadProvider(value, old(stamp), old(pos)))
    {
      var bytes;
      status, bytes := ReadBytesWithSize();
      if status == Done {
        stamp := stamp.(providerName := bytes);
      }
    }

    method ReadHttpPath() returns (status: Status)
      modifies this
      ensures Agrees(status, stamp, pos, ReadPath(value, old(stamp), old(pos)))
    {
      var bytes;
      status, bytes := ReadBytesWithSize();
      if status == Done {
        stamp := stamp.(path := bytes);
      }
    }

    method ReadHashList() returns (status: Status)
      modifies this
      ensures Agrees(status, stamp, pos, ReadStampHashes(value, old(stamp), old(pos)))
    {
      var r := ReadHashesLoop(value, pos);
      match r {
        case Ok((hashes, next)) =>
          stamp := stamp.(hashes := hashes);
          pos := next;
          status := Done;
        case Error(e) =>
          status := Failed(e);
        case OutOfBounds =>
          status := Overrun;
      }
    }

    /** The readers of the protocol, until one of them fails. */
    method ReadFields() returns (status: Status)
      modifies this
      ensures Agrees(status, stamp, pos, ReadRest(value, old(stamp), old(pos)))
    {
      status := Done;
      if stamp.proto.DnsCrypt? {
        status := ReadServerPk();
      } else if !stamp.proto.Plain? {
        status := ReadHashList();
      }
      if status == Done && !stamp.proto.Plain? {
        status := ReadProviderName();
      }
      if status == Done && stamp.proto.Doh? {
        status := ReadHttpPath();
      }
    }
  }

  method NewStamp(isIp: Bytes -> bool, value: Bytes, p: Proto) returns (r: Result<Stamp>)
    ensures r == NewServerStamp(isIp, value, p)
  {
    var reader := new Reader(value, p);
    var status := reader.ReadProtoPropsServerAddr(isIp, p);
    if status == Done {
      status := reader.ReadFields();
    }
    match status {
      case Done =>
        r := if reader.pos != |value| then Error("Invalid stamp (garbage after end)") else Ok(reader.stamp);
      case Failed(e) =>
        r := Error(e);
      case Overrun =>
        r := OutOfBounds;
    }
  }

  method ParseStamp(isIp: Bytes -> bool, url: Bytes) returns (r: Result<Stamp>)
    ensures r == FromString(isIp, url)
  {
    if !StartsWith(url, STAMP_URL_PREFIX) {
      return Error("Stamps are expected to start with sdns://");
    }
    var decoded := DecodeBase64(url[|STAMP_URL_PREFIX|..], true);
    if decoded.None? {
      return Error("Invalid stamp");
    }
    if decoded.value == [] {
      return Error("Stamp is too short");
    }
    var proto := ProtoOf(decoded.value[0]);
    if proto.None? {
      return Error("Unsupported stamp version or protocol");
    }
    r := NewStamp(isIp, decoded.value, proto.value);
  }
}
