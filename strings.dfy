/** The length-prefixed string codec used for envelope identifiers and for string-typed
    container keys: the string's byte length as a little-endian unsigned integer whose width
    is the stream's string-length-prefix width, then the bytes themselves. */
module Strings {
  import opened Wire

  /** Writing a string fails, writing nothing, when its length does not fit the prefix. */
  function EncodeString(cfg: Config, s: Ident): (e: Emitted)
    ensures e.Done? <==> |s| < Pow256(cfg.stringLengthSize)
    ensures e.Done? ==> |e.bytes| == cfg.stringLengthSize + |s|
    ensures e.Done? ==> FromLE(e.bytes[..cfg.stringLengthSize]) == |s|
    ensures e.Done? ==> e.bytes[cfg.stringLengthSize..] == s
    ensures e.Aborted? ==> e == Aborted(StringTooLong(|s|), [])
  {
    var w := cfg.stringLengthSize;
    if |s| < Pow256(w) then
      var bytes := LE(|s|, w) + s;
      assert bytes[..w] == LE(|s|, w);
      FromLEOfLE(|s|, w);
      Done(bytes)
    else
      Aborted(StringTooLong(|s|), [])
  }

  /** Reads the length prefix, then that many bytes. */
  function DecodeString(cfg: Config, s: seq<byte>): (p: Parse<Ident>)
    ensures p.used <= |s|
    ensures p.Parsed? ==> p.used == cfg.stringLengthSize + |p.value|
    ensures p.Parsed? ==> FromLE(s[..cfg.stringLengthSize]) == |p.value|
    ensures p.Parsed? ==> s[cfg.stringLengthSize..p.used] == p.value
  {
    var w := cfg.stringLengthSize;
    match ParseFixed(s, w)
    case Failed(e, u) => Failed(e, u)
    case Parsed(n, u) =>
      match ParseBytes(s[u..], n)
      case Failed(e, u2) => Failed(e, u + u2)
      case Parsed(b, u2) => Parsed(b, u + u2)
  }

  lemma {:induction false} StringRoundTrip(cfg: Config, id: Ident, rest: seq<byte>)
    requires EncodeString(cfg, id).Done?
    ensures DecodeString(cfg, EncodeString(cfg, id).bytes + rest) == Parsed(id, cfg.stringLengthSize + |id|)
  {
    var w := cfg.stringLengthSize;
    var s := EncodeString(cfg, id).bytes + rest;
    assert s == LE(|id|, w) + (id + rest);
    FixedRoundTrip(|id|, w, id + rest);
    assert s[w..] == id + rest;
    assert (id + rest)[..|id|] == id;
  }

  lemma IdentCodecLaws()
    ensures RoundTrips(Codec(EncodeString, DecodeString))
    ensures Bounded(Codec(EncodeString, DecodeString))
  {
    var c := Codec(EncodeString, DecodeString);
    forall cfg, x, s | c.enc(cfg, x).Done? && c.enc(cfg, x).bytes <= s
      ensures c.dec(cfg, s) == Parsed(x, |c.enc(cfg, x).bytes|)
    {
      var e := EncodeString(cfg, x).bytes;
      assert s == e + s[|e|..];
      StringRoundTrip(cfg, x, s[|e|..]);
    }
  }

  /** The string codec as the key codec of a generic container. */
  function IdentCodec(): (c: Codec<Ident>)
    ensures RoundTrips(c) && Bounded(c)
  {
    IdentCodecLaws();
    Codec(EncodeString, DecodeString)
  }

  /** Writes an identifier: its prefix and bytes, or nothing when it is too long. */
  method WriteString(w: Writer, s: Ident) returns (res: Result<()>)
    modifies w
    ensures w.buf == old(w.buf) + EncodeString(w.config, s).bytes
    ensures res == EncodeString(w.config, s).Status()
  {
    var width := w.config.stringLengthSize;
    if |s| < Pow256(width) {
      w.Write(LE(|s|, width));
      w.Write(s);
      res := Ok(());
    } else {
      res := Err(StringTooLong(|s|));
    }
  }

  /** Reads an identifier: the prefix, then the bytes it announces. */
  method ReadString(r: Reader) returns (res: Result<Ident>)
    requires r.Valid()
    modifies r
    ensures r.Valid()
    ensures r.pos == old(r.pos) + DecodeString(r.config, old(r.Remaining())).used
    ensures res == DecodeString(r.config, old(r.Remaining())).ToResult()
  {
    ghost var s := r.Remaining();
    var length := r.ReadFixed(r.config.stringLengthSize);
    if length.Err? {
      return Err(length.err);
    }
    assert r.Remaining() == s[r.config.stringLengthSize..];
    var bytes := r.Read(length.value);
    if bytes.Err? {
      return Err(bytes.err);
    }
    res := Ok(bytes.value);
  }
}
