/** The process-identifier wire value: a u64 written as 8 little-endian bytes when the stream's
    process-identifier width is 8, and as the low 32 bits in 4 bytes for any other width. */
module PidType {
  import opened Wire
  import opened Values

  function Width(cfg: Config): nat {
    if cfg.pidSize == 8 then 8 else 4
  }

  function Encode(cfg: Config, n: u64): (r: seq<byte>)
    ensures |r| == Width(cfg)
  {
    if cfg.pidSize == 8 then LE(n, 8) else LE(n % TWO_TO_THE_32, 4)
  }

  /** The 4-byte read is zero-extended to a u64. */
  function Decode(cfg: Config, s: seq<byte>): (p: Parse<u64>)
    ensures p.used <= |s|
    ensures p.Parsed? <==> Width(cfg) <= |s|
    ensures p.Parsed? ==> p.used == Width(cfg)
    ensures p.Parsed? && cfg.pidSize != 8 ==> p.value < TWO_TO_THE_32
    ensures p.Failed? ==> p.used == 0
  {
    if cfg.pidSize == 8 then ParseU64(s)
    else
      match ParseU32(s)
      case Parsed(x, u) => Parsed(x, u)
      case Failed(e, u) => Failed(e, u)
  }

  /** equals: the other value must downcast to a PID holding the same number. */
  predicate Equals(self: u64, other: Value) {
    other.PidV? && other.pid == self
  }

  /** Decoding what was encoded gives the number back exactly under width 8, and its low
      32 bits under any other width. */
  lemma {:induction false} RoundTrip(cfg: Config, n: u64, rest: seq<byte>)
    ensures Decode(cfg, Encode(cfg, n) + rest)
         == Parsed(if cfg.pidSize == 8 then n else n % TWO_TO_THE_32, Width(cfg))
  {
    Pow256Values();
    if cfg.pidSize == 8 {
      FixedRoundTrip(n, 8, rest);
    } else {
      FixedRoundTrip(n % TWO_TO_THE_32, 4, rest);
    }
  }

  /** The round trip is exact precisely when the width is 8 or the number fits in 32 bits. */
  lemma {:induction false} RoundTripExact(cfg: Config, n: u64, rest: seq<byte>)
    ensures Decode(cfg, Encode(cfg, n) + rest) == Parsed(n, Width(cfg))
        <==> cfg.pidSize == 8 || n < TWO_TO_THE_32
  {
    RoundTrip(cfg, n, rest);
  }

  /** A process identifier equals the one read back from its own encoding exactly when the
      width is 8 or the number fits in 32 bits. */
  lemma EqualsAfterRoundTrip(cfg: Config, n: u64, rest: seq<byte>)
    ensures Decode(cfg, Encode(cfg, n) + rest).Parsed?
    ensures Equals(n, PidV(Decode(cfg, Encode(cfg, n) + rest).value))
        <==> cfg.pidSize == 8 || n < TWO_TO_THE_32
  {
    RoundTrip(cfg, n, rest);
  }

  class PID {
    var value: u64

    constructor New(input: u64)
      ensures value == input
    {
      value := input;
    }

    /** copy (and copy_ref and deref, which call it): a fresh PID holding the same value. */
    method Copy() returns (c: PID)
      ensures fresh(c) && c.value == value
    {
      c := new PID.New(value);
    }

    /** write_to appends the encoding of the width the writer is configured with. */
    method WriteTo(w: Writer) returns (res: Result<()>)
      modifies w
      ensures w.buf == old(w.buf) + Encode(w.config, value)
      ensures res == Ok(())
    {
      if w.config.pidSize == 8 {
        w.WriteU64(value);
      } else {
        w.WriteU32(value % TWO_TO_THE_32);
      }
      res := Ok(());
    }

    /** extract_from stores the number read; a failed read leaves the value as it was. */
    method ExtractFrom(r: Reader) returns (res: Result<()>)
      requires r.Valid()
      modifies this, r
      ensures r.Valid()
      ensures r.pos == old(r.pos) + Decode(r.config, old(r.Remaining())).used
      ensures res == Decode(r.config, old(r.Remaining())).Status()
      ensures value == if res.Ok? then Decode(r.config, old(r.Remaining())).value else old(value)
    {
      if r.config.pidSize == 8 {
        var read := r.ReadU64();
        if read.Err? {
          return Err(read.err);
        }
        value := read.value;
      } else {
        var read := r.ReadU32();
        if read.Err? {
          return Err(read.err);
        }
        value := read.value;
      }
      res := Ok(());
    }
  }
}
