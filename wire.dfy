/** The byte-buffer writer and reader that every wire value is written to and read from:
    little-endian fixed-width unsigned integers, booleans and raw byte runs, plus the
    configuration queries (process-identifier width, string-length-prefix width, structure
    header flag) that every writer and reader carries. */
module Wire {

  type byte = x: int | 0 <= x < 0x100
  type u16 = x: int | 0 <= x < 0x1_0000
  type u32 = x: int | 0 <= x < 0x1_0000_0000
  type u64 = x: int | 0 <= x < 0x1_0000_0000_0000_0000

  const TWO_TO_THE_32: nat := 0x1_0000_0000

  /** A string as the wire carries it: its bytes. */
  type Ident = seq<byte>

  datatype Option<T> = None | Some(value: T)

  /** The three configuration queries of a reader or writer. */
  datatype Config = Config(stringLengthSize: nat, pidSize: nat, useStructureHeader: bool)

  datatype Error =
    | ShortRead(wanted: nat, available: nat)
    | StringTooLong(length: nat)
    | UnknownIdentifier(identifier: Ident)

  datatype Result<T> = Ok(value: T) | Err(err: Error)

  /** What a decoder made of the bytes in front of it: the value on success, and in both
      cases how many bytes it consumed before it stopped. */
  datatype Parse<T> = Parsed(value: T, used: nat) | Failed(err: Error, used: nat)
  {
    function Shift(n: nat): Parse<T> {
      match this
      case Parsed(v, u) => Parsed(v, u + n)
      case Failed(e, u) => Failed(e, u + n)
    }

    function ToResult(): Result<T> {
      match this
      case Parsed(v, _) => Ok(v)
      case Failed(e, _) => Err(e)
    }

    function Status(): Result<()> {
      match this
      case Parsed(_, _) => Ok(())
      case Failed(e, _) => Err(e)
    }
  }

  /** What an encoder appended to its writer: everything, or what it had written when it failed. */
  datatype Emitted = Done(bytes: seq<byte>) | Aborted(err: Error, bytes: seq<byte>)
  {
    /** Sequential composition: `next` runs only when this part succeeded. */
    function Then(next: Emitted): Emitted {
      match this
      case Aborted(_, _) => this
      case Done(b) =>
        match next
        case Done(n) => Done(b + n)
        case Aborted(e, n) => Aborted(e, b + n)
    }

    function Status(): Result<()> {
      match this
      case Done(_) => Ok(())
      case Aborted(e, _) => Err(e)
    }
  }

  /** The write/extract half of a wire value's contract, for a value type the generic
      container is instantiated with. */
  datatype Codec<!T> = Codec(enc: (Config, T) -> Emitted, dec: (Config, seq<byte>) -> Parse<T>)

  /** The decoder never claims more bytes than it was given. */
  ghost predicate Bounded<T>(c: Codec<T>) {
    forall cfg, s :: c.dec(cfg, s).used <= |s|
  }

  /** Decoding a stream that starts with a successful encoding of x yields x, consuming
      exactly that encoding. */
  ghost predicate RoundTrips<T(!new)>(c: Codec<T>) {
    forall cfg, x, s :: c.enc(cfg, x).Done? && c.enc(cfg, x).bytes <= s ==>
      c.dec(cfg, s) == Parsed(x, |c.enc(cfg, x).bytes|)
  }

  function Pow256(n: nat): (r: nat)
    ensures r >= 1
  {
    if n == 0 then 1 else 256 * Pow256(n - 1)
  }

  lemma Pow256Values()
    ensures Pow256(2) == 0x1_0000 && Pow256(4) == TWO_TO_THE_32
    ensures Pow256(8) == 0x1_0000_0000_0000_0000
  {
    assert Pow256(4) == 256 * 256 * Pow256(2);
    assert Pow256(8) == 256 * 256 * 256 * 256 * Pow256(4);
  }

  /** The n-byte little-endian encoding of x; bits above the n-th byte are dropped, as an
      `as` cast to the n-byte type drops them. */
  function LE(x: nat, n: nat): (r: seq<byte>)
    ensures |r| == n
  {
    if n == 0 then [] else [x % 256] + LE(x / 256, n - 1)
  }

  /** The number a little-endian byte run denotes. */
  function FromLE(s: seq<byte>): (r: nat)
    ensures r < Pow256(|s|)
  {
    if s == [] then 0 else s[0] + 256 * FromLE(s[1..])
  }

  lemma {:induction false} FromLEOfLE(x: nat, n: nat)
    requires x < Pow256(n)
    ensures FromLE(LE(x, n)) == x
  {
    if n > 0 {
      FromLEOfLE(x / 256, n - 1);
      assert LE(x, n)[1..] == LE(x / 256, n - 1);
    }
  }

  lemma {:induction false} LEOfFromLE(s: seq<byte>)
    ensures LE(FromLE(s), |s|) == s
  {
    if s != [] {
      LEOfFromLE(s[1..]);
      var x := FromLE(s);
      assert x % 256 == s[0] && x / 256 == FromLE(s[1..]);
    }
  }

  /** Reading an n-byte little-endian unsigned integer. */
  function ParseFixed(s: seq<byte>, n: nat): (p: Parse<nat>)
    ensures p.Parsed? <==> n <= |s|
    ensures p.Parsed? ==> p.used == n && p.value < Pow256(n) && LE(p.value, n) == s[..n]
    ensures p.Failed? ==> p == Failed(ShortRead(n, |s|), 0)
  {
    if |s| < n then Failed(ShortRead(n, |s|), 0)
    else
      LEOfFromLE(s[..n]);
      Parsed(FromLE(s[..n]), n)
  }

  lemma FixedRoundTrip(x: nat, n: nat, rest: seq<byte>)
    requires x < Pow256(n)
    ensures ParseFixed(LE(x, n) + rest, n) == Parsed(x, n)
  {
    assert (LE(x, n) + rest)[..n] == LE(x, n);
    FromLEOfLE(x, n);
  }

  /** read_u32_le. */
  function ParseU32(s: seq<byte>): (p: Parse<u32>)
    ensures p.used <= |s|
  {
    Pow256Values();
    match ParseFixed(s, 4)
    case Parsed(x, u) => Parsed(x, u)
    case Failed(e, u) => Failed(e, u)
  }

  /** read_u64_le. */
  function ParseU64(s: seq<byte>): (p: Parse<u64>)
    ensures p.used <= |s|
  {
    Pow256Values();
    match ParseFixed(s, 8)
    case Parsed(x, u) => Parsed(x, u)
    case Failed(e, u) => Failed(e, u)
  }

  /** write_bool: one byte, 1 for true and 0 for false. */
  function BoolBytes(b: bool): seq<byte> {
    [if b then 1 else 0]
  }

  /** read_bool: one byte, any non-zero value reads as true. */
  function ParseBool(s: seq<byte>): (p: Parse<bool>)
    ensures p.used <= |s|
  {
    if |s| < 1 then Failed(ShortRead(1, |s|), 0) else Parsed(s[0] != 0, 1)
  }

  /** read(n): the next n bytes verbatim. */
  function ParseBytes(s: seq<byte>, n: nat): (p: Parse<seq<byte>>)
    ensures p.Failed? <==> |s| < n
    ensures p.Parsed? ==> p.used == n && p.value == s[..n]
    ensures p.used <= |s|
  {
    if |s| < n then Failed(ShortRead(n, |s|), 0) else Parsed(s[..n], n)
  }

  /** read(n) right after write(data), with n the data's length, gives the data back. */
  lemma BytesRoundTrip(data: seq<byte>, rest: seq<byte>)
    ensures ParseBytes(data + rest, |data|) == Parsed(data, |data|)
  {
    assert (data + rest)[..|data|] == data;
  }

  /** A byte sink: the bytes written so far and the configuration it was created with. */
  class Writer {
    const config: Config
    var buf: seq<byte>

    constructor (config: Config)
      ensures this.config == config && buf == []
    {
      this.config := config;
      buf := [];
    }

    /** copy_new: a fresh, empty writer with the same configuration. */
    method CopyNew() returns (w: Writer)
      ensures fresh(w) && w.config == config && w.buf == []
    {
      w := new Writer(config);
    }

    function Bytes(): seq<byte>
      reads this
    {
      buf
    }

    method Write(data: seq<byte>)
      modifies this
      ensures buf == old(buf) + data
    {
      buf := buf + data;
    }

    method WriteU32(x: u32)
      modifies this
      ensures buf == old(buf) + LE(x, 4)
    {
      buf := buf + LE(x, 4);
    }

    method WriteU64(x: u64)
      modifies this
      ensures buf == old(buf) + LE(x, 8)
    {
      buf := buf + LE(x, 8);
    }

    method WriteBool(b: bool)
      modifies this
      ensures buf == old(buf) + BoolBytes(b)
    {
      buf := buf + BoolBytes(b);
    }
  }

  /** A byte source: fixed data and a read position. Every read either consumes exactly the
      bytes it asked for or fails without moving. */
  class Reader {
    const config: Config
    const data: seq<byte>
    var pos: nat

    ghost predicate Valid()
      reads this
    {
      pos <= |data|
    }

    constructor (config: Config, data: seq<byte>)
      ensures Valid() && this.config == config && this.data == data && pos == 0
    {
      this.config := config;
      this.data := data;
      pos := 0;
    }

    function Remaining(): seq<byte>
      reads this
      requires Valid()
    {
      data[pos..]
    }

    /** Hands the unread bytes to a decoder and moves past what it consumed. */
    method Decode<T>(dec: seq<byte> -> Parse<T>) returns (res: Result<T>)
      requires Valid() && dec(Remaining()).used <= |Remaining()|
      modifies this
      ensures Valid()
      ensures pos == old(pos) + dec(old(Remaining())).used
      ensures res == dec(old(Remaining())).ToResult()
    {
      var p := dec(data[pos..]);
      pos := pos + p.used;
      res := p.ToResult();
    }

    method Read(n: nat) returns (res: Result<seq<byte>>)
      requires Valid()
      modifies this
      ensures Valid()
      ensures pos == old(pos) + ParseBytes(old(Remaining()), n).used
      ensures res == ParseBytes(old(Remaining()), n).ToResult()
    {
      res := Decode(s => ParseBytes(s, n));
    }

    method ReadFixed(n: nat) returns (res: Result<nat>)
      requires Valid()
      modifies this
      ensures Valid()
      ensures pos == old(pos) + ParseFixed(old(Remaining()), n).used
      ensures res == ParseFixed(old(Remaining()), n).ToResult()
    {
      res := Decode(s => ParseFixed(s, n));
    }

    method ReadU32() returns (res: Result<u32>)
      requires Valid()
      modifies this
      ensures Valid()
      ensures pos == old(pos) + ParseU32(old(Remaining())).used
      ensures res == ParseU32(old(Remaining())).ToResult()
    {
      res := Decode(ParseU32);
    }

    method ReadU64() returns (res: Result<u64>)
      requires Valid()
      modifies this
      ensures Valid()
      ensures pos == old(pos) + ParseU64(old(Remaining())).used
      ensures res == ParseU64(old(Remaining())).ToResult()
    {
      res := Decode(ParseU64);
    }

    method ReadBool() returns (res: Result<bool>)
      requires Valid()
      modifies this
      ensures Valid()
      ensures pos == old(pos) + ParseBool(old(Remaining())).used
      ensures res == ParseBool(old(Remaining())).ToResult()
    {
      res := Decode(ParseBool);
    }
  }
}
