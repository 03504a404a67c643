/** The polymorphic envelope and its registry: an envelope writes its held object as
    [identifier][u32 frame length = payload length + 4][payload], and reads one back by looking
    the identifier up in a table of prototypes, decoding into a fresh clone of the prototype and
    swapping the clone in only when the whole decode succeeded. */
module AnyHolder {
  import opened Wire
  import opened Values
  import opened Strings
  import opened Holdable

  /** The identifier string of a value's type, as bytes: never empty, and short enough for a
      string-length prefix of a single byte. */
  function TypeName(v: Value): (id: Ident)
    ensures 0 < |id| < 256
  {
    match v
    case BoolV(_) => [0x42, 0x6f, 0x6f, 0x6c]
    case PidV(_) => [0x50, 0x49, 0x44]
    case CvcV(_, _) =>
      [0x43, 0x6c, 0x61, 0x73, 0x73, 0x56, 0x65, 0x72, 0x73, 0x69, 0x6f, 0x6e,
       0x43, 0x6f, 0x6e, 0x74, 0x61, 0x69, 0x6e, 0x65, 0x72]
    case DummyV =>
      [0x44, 0x75, 0x6d, 0x6d, 0x79, 0x48, 0x6f, 0x6c, 0x64, 0x61, 0x62, 0x6c, 0x65,
       0x4f, 0x62, 0x6a, 0x65, 0x63, 0x74]
  }

  /** Distinct types have distinct identifiers. */
  lemma TypeNameIdentifiesKind(a: Value, b: Value)
    ensures TypeName(a) == TypeName(b) <==> SameKind(a, b)
  {
    if TypeName(a) == TypeName(b) {
      assert |TypeName(a)| == |TypeName(b)|;
    }
  }

  /** What writing the held object's identifier appends: the placeholder is its own identifier
      and writes nothing; every other type writes its name as a length-prefixed string. */
  function IdentifierBytes(cfg: Config, v: Value): (e: Emitted)
    ensures v.DummyV? ==> e == Done([])
    ensures !v.DummyV? ==> e == EncodeString(cfg, TypeName(v))
  {
    if v.DummyV? then Done([]) else EncodeString(cfg, TypeName(v))
  }

  /** Writing an identifier succeeds whenever the string-length prefix has at least one byte, and
      what it writes for a type other than the placeholder reads back as that type's name. */
  lemma IdentifierReadsBack(cfg: Config, v: Value, rest: seq<byte>)
    ensures IdentifierBytes(cfg, v).Done? <==> v.DummyV? || 1 <= cfg.stringLengthSize
    ensures !v.DummyV? && IdentifierBytes(cfg, v).Done? ==>
      DecodeString(cfg, IdentifierBytes(cfg, v).bytes + rest)
      == Parsed(TypeName(v), |IdentifierBytes(cfg, v).bytes|)
  {
    if !v.DummyV? {
      var w := cfg.stringLengthSize;
      if 1 <= w {
        assert Pow256(w) == 256 * Pow256(w - 1);
        StringRoundTrip(cfg, TypeName(v), rest);
      }
    }
  }

  /** The frame-length field for a payload of the given length: the length plus four, as a
      little-endian u32, truncated to 32 bits as a cast to u32 truncates. */
  function FrameField(payloadLength: nat): (f: seq<byte>)
    ensures |f| == 4
  {
    LE((payloadLength + 4) % TWO_TO_THE_32, 4)
  }

  /** Framing: a payload that failed leaves nothing; otherwise the identifier, then the u32
      frame length, then the payload. */
  function Frame(identifier: Emitted, payload: Emitted): Emitted {
    if payload.Aborted? then Aborted(payload.err, [])
    else identifier.Then(Done(FrameField(|payload.bytes|) + payload.bytes))
  }

  /** write_to: the payload is produced first on its own and then framed. */
  function EncodeEnvelope(cfg: Config, v: Value, order: seq<Ident>): (e: Emitted)
    requires OrderFor(v, order)
    ensures e.Done? <==> IdentifierBytes(cfg, v).Done? && EncodeValue(cfg, v, order).Done?
    ensures e.Aborted? ==> e.bytes == []
    ensures e.Done? ==>
      |e.bytes| == |IdentifierBytes(cfg, v).bytes| + 4 + |EncodeValue(cfg, v, order).bytes|
  {
    IdentifierAtomic(cfg, v);
    FrameLayout(IdentifierBytes(cfg, v), EncodeValue(cfg, v, order));
    Frame(IdentifierBytes(cfg, v), EncodeValue(cfg, v, order))
  }

  /** The layout of a framed payload: identifier, then a frame length counting the payload and
      its own four bytes, then the payload verbatim. A payload or an identifier that fails leaves
      no bytes. */
  lemma FrameLayout(identifier: Emitted, payload: Emitted)
    requires identifier.Aborted? ==> identifier.bytes == []
    ensures var e := Frame(identifier, payload);
      && (payload.Aborted? ==> e == Aborted(payload.err, []))
      && (payload.Done? && identifier.Aborted? ==> e == Aborted(identifier.err, []))
      && (e.Done? <==> payload.Done? && identifier.Done?)
      && (e.Done? ==> e.bytes == identifier.bytes + FrameField(|payload.bytes|) + payload.bytes)
  {
    if payload.Done? && identifier.Done? {
      assert identifier.bytes + (FrameField(|payload.bytes|) + payload.bytes)
          == identifier.bytes + FrameField(|payload.bytes|) + payload.bytes;
    }
  }

  /** Writing an identifier either succeeds or writes nothing. */
  lemma IdentifierAtomic(cfg: Config, v: Value)
    ensures IdentifierBytes(cfg, v).Aborted? ==> IdentifierBytes(cfg, v).bytes == []
  {
  }

  /** The frame length field reads back as the payload length plus four whenever that sum fits
      the u32 it is written as. */
  lemma FrameLength(payloadLength: nat)
    requires payloadLength + 4 < TWO_TO_THE_32
    ensures FromLE(FrameField(payloadLength)) == payloadLength + 4
  {
    var n := payloadLength + 4;
    assert FrameField(payloadLength) == LE(n, 4);
    Pow256Values();
    FromLEOfLE(n, 4);
  }

  /** extract_from, with the single frame-length field the encoder writes: identifier, frame
      length (read and not otherwise used), registry lookup, then the prototype's decode. */
  function DecodeEnvelope(cfg: Config, table: map<Ident, Value>, s: seq<byte>): (p: Parse<Value>)
    ensures p.used <= |s|
    ensures p.Parsed? ==>
      && DecodeString(cfg, s).Parsed? && DecodeString(cfg, s).value in table
      && SameKind(p.value, table[DecodeString(cfg, s).value])
  {
    match DecodeString(cfg, s)
    case Failed(e, u) => Failed(e, u)
    case Parsed(id, u1) =>
      match ParseU32(s[u1..])
      case Failed(e, u) => Failed(e, u1 + u)
      case Parsed(_, u2) =>
        if id !in table then Failed(UnknownIdentifier(id), u1 + u2)
        else DecodeValue(cfg, table[id], s[u1 + u2..]).Shift(u1 + u2)
  }

  /** An identifier with no registered prototype fails the decode: once the frame length has
      been read, with UnknownIdentifier naming it, after the identifier and the four bytes. */
  lemma UnknownIdentifierFails(cfg: Config, table: map<Ident, Value>, s: seq<byte>, id: Ident, u1: nat)
    requires DecodeString(cfg, s) == Parsed(id, u1) && id !in table
    ensures DecodeEnvelope(cfg, table, s).Failed?
    ensures u1 + 4 <= |s| ==> DecodeEnvelope(cfg, table, s) == Failed(UnknownIdentifier(id), u1 + 4)
  {
  }

  /** extract_from as written: a second u32 ("buffer length") is read after the frame length,
      which the encoder never writes. */
  function DecodeEnvelopeAsWritten(cfg: Config, table: map<Ident, Value>, s: seq<byte>): (p: Parse<Value>)
    ensures p.used <= |s|
  {
    match DecodeString(cfg, s)
    case Failed(e, u) => Failed(e, u)
    case Parsed(id, u1) =>
      match ParseU32(s[u1..])
      case Failed(e, u) => Failed(e, u1 + u)
      case Parsed(_, u2) =>
        match ParseU32(s[u1 + u2..])
        case Failed(e, u) => Failed(e, u1 + u2 + u)
        case Parsed(_, u3) =>
          if id !in table then Failed(UnknownIdentifier(id), u1 + u2 + u3)
          else DecodeValue(cfg, table[id], s[u1 + u2 + u3..]).Shift(u1 + u2 + u3)
  }

  /** Every registered prototype sits under its own type's identifier. */
  ghost predicate WellFormed(table: map<Ident, Value>) {
    forall id :: id in table ==> TypeName(table[id]) == id
  }

  /** Decoding a stream that starts with a registered identifier and a frame length hands the
      rest to the prototype's decode. */
  lemma DecodeEnvelopeFront(cfg: Config, table: map<Ident, Value>, id: Ident, frame: u32, tail: seq<byte>)
    requires id in table && EncodeString(cfg, id).Done?
    ensures DecodeEnvelope(cfg, table, EncodeString(cfg, id).bytes + (LE(frame, 4) + tail))
         == DecodeValue(cfg, table[id], tail).Shift(|EncodeString(cfg, id).bytes| + 4)
  {
    var idBytes := EncodeString(cfg, id).bytes;
    var s := idBytes + (LE(frame, 4) + tail);
    StringRoundTrip(cfg, id, LE(frame, 4) + tail);
    assert s[|idBytes|..] == LE(frame, 4) + tail;
    DecodeAfterIdentifier(cfg, table, s, id, |idBytes|, frame, tail);
  }

  /** The same, once the identifier has been read. */
  lemma DecodeAfterIdentifier(cfg: Config, table: map<Ident, Value>, s: seq<byte>, id: Ident, u1: nat,
                              frame: u32, tail: seq<byte>)
    requires id in table && DecodeString(cfg, s) == Parsed(id, u1)
    requires s[u1..] == LE(frame, 4) + tail
    ensures DecodeEnvelope(cfg, table, s) == DecodeValue(cfg, table[id], tail).Shift(u1 + 4)
  {
    Pow256Values();
    FixedRoundTrip(frame, 4, tail);
    assert ParseU32(s[u1..]) == Parsed(frame, 4);
    assert s[u1 + 4..] == tail;
  }

  /** The bytes of a successfully written envelope for a value other than the placeholder. */
  lemma EnvelopeBytes(cfg: Config, v: Value, order: seq<Ident>, rest: seq<byte>)
    requires OrderFor(v, order) && !v.DummyV? && EncodeEnvelope(cfg, v, order).Done?
    ensures EncodeValue(cfg, v, order).Done? && EncodeString(cfg, TypeName(v)).Done?
    ensures var payload := EncodeValue(cfg, v, order).bytes;
      EncodeEnvelope(cfg, v, order).bytes + rest
      == EncodeString(cfg, TypeName(v)).bytes + (FrameField(|payload|) + (payload + rest))
    ensures |EncodeEnvelope(cfg, v, order).bytes|
         == |EncodeString(cfg, TypeName(v)).bytes| + 4 + |EncodeValue(cfg, v, order).bytes|
  {
    var identifier := IdentifierBytes(cfg, v);
    var payload := EncodeValue(cfg, v, order);
    IdentifierAtomic(cfg, v);
    FrameAppend(identifier, payload, rest);
  }

  /** A framed payload followed by more bytes, regrouped as its parts. */
  lemma FrameAppend(identifier: Emitted, payload: Emitted, rest: seq<byte>)
    requires identifier.Aborted? ==> identifier.bytes == []
    requires Frame(identifier, payload).Done?
    ensures identifier.Done? && payload.Done?
    ensures Frame(identifier, payload).bytes + rest
         == identifier.bytes + (FrameField(|payload.bytes|) + (payload.bytes + rest))
    ensures |Frame(identifier, payload).bytes| == |identifier.bytes| + 4 + |payload.bytes|
  {
    FrameLayout(identifier, payload);
    var f := FrameField(|payload.bytes|);
    assert identifier.bytes + f + payload.bytes + rest == identifier.bytes + (f + (payload.bytes + rest));
  }

  /** Round trip: decoding the envelope written for a registered value other than the placeholder
      gives back the value (up to Restored, against the registered prototype) and consumes
      exactly the envelope; the result compares equal to the original unless process-identifier
      bits were dropped. */
  lemma EnvelopeRoundTrip(cfg: Config, table: map<Ident, Value>, v: Value, order: seq<Ident>, rest: seq<byte>)
    requires WellFormed(table) && TypeName(v) in table && !v.DummyV?
    requires OrderFor(v, order) && (v.CvcV? ==> |v.classVersions| < TWO_TO_THE_32)
    requires EncodeEnvelope(cfg, v, order).Done?
    ensures var proto := table[TypeName(v)];
      && SameKind(v, proto)
      && DecodeEnvelope(cfg, table, EncodeEnvelope(cfg, v, order).bytes + rest)
         == Parsed(Restored(cfg, v, proto), |EncodeEnvelope(cfg, v, order).bytes|)
    ensures ValueEquals(DecodeEnvelope(cfg, table, EncodeEnvelope(cfg, v, order).bytes + rest).value, v)
        <==> !v.PidV? || cfg.pidSize == 8 || v.pid < TWO_TO_THE_32
  {
    var proto := table[TypeName(v)];
    TypeNameIdentifiesKind(v, proto);
    EnvelopeBytes(cfg, v, order, rest);
    var payload := EncodeValue(cfg, v, order).bytes;
    DecodeEnvelopeFront(cfg, table, TypeName(v), (|payload| + 4) % TWO_TO_THE_32, payload + rest);
    ValueRoundTrip(cfg, v, order, proto, rest);
    RestoredEquals(cfg, v, proto);
  }

  /** The round trip on the envelope's bytes alone. */
  lemma EnvelopeDecodes(cfg: Config, table: map<Ident, Value>, v: Value, order: seq<Ident>)
    requires WellFormed(table) && TypeName(v) in table && !v.DummyV?
    requires OrderFor(v, order) && (v.CvcV? ==> |v.classVersions| < TWO_TO_THE_32)
    requires EncodeEnvelope(cfg, v, order).Done?
    ensures var p := DecodeEnvelope(cfg, table, EncodeEnvelope(cfg, v, order).bytes);
      p.Parsed? && p.value == Restored(cfg, v, table[TypeName(v)])
  {
    var bytes := EncodeEnvelope(cfg, v, order).bytes;
    EnvelopeRoundTrip(cfg, table, v, order, []);
    assert bytes + [] == bytes;
  }

  /** The decoder as written, on a stream that starts with a registered identifier and a frame
      length: it takes the first four bytes after the frame length for a second length field,
      so it fails when fewer than four bytes follow and otherwise decodes the prototype from
      four bytes too far on. */
  lemma AsWrittenFront(cfg: Config, table: map<Ident, Value>, id: Ident, frame: u32, tail: seq<byte>)
    requires id in table && EncodeString(cfg, id).Done?
    ensures var u1 := |EncodeString(cfg, id).bytes|;
      DecodeEnvelopeAsWritten(cfg, table, EncodeString(cfg, id).bytes + (LE(frame, 4) + tail))
      == if |tail| < 4 then Failed(ShortRead(4, |tail|), u1 + 4)
         else DecodeValue(cfg, table[id], tail[4..]).Shift(u1 + 8)
  {
    var idBytes := EncodeString(cfg, id).bytes;
    var s := idBytes + (LE(frame, 4) + tail);
    StringRoundTrip(cfg, id, LE(frame, 4) + tail);
    assert s[|idBytes|..] == LE(frame, 4) + tail;
    AsWrittenAfterIdentifier(cfg, table, s, id, |idBytes|, frame, tail);
  }

  /** The same, once the identifier has been read. */
  lemma AsWrittenAfterIdentifier(cfg: Config, table: map<Ident, Value>, s: seq<byte>, id: Ident, u1: nat,
                                 frame: u32, tail: seq<byte>)
    requires id in table && DecodeString(cfg, s) == Parsed(id, u1)
    requires s[u1..] == LE(frame, 4) + tail
    ensures DecodeEnvelopeAsWritten(cfg, table, s)
      == if |tail| < 4 then Failed(ShortRead(4, |tail|), u1 + 4)
         else DecodeValue(cfg, table[id], tail[4..]).Shift(u1 + 8)
  {
    Pow256Values();
    FixedRoundTrip(frame, 4, tail);
    assert ParseU32(s[u1..]) == Parsed(frame, 4);
    assert s[u1 + 4..] == tail;
    if |tail| >= 4 {
      assert s[u1 + 8..] == tail[4..];
    }
  }

  /** The identifier of Bool under a two-byte string-length prefix. */
  lemma BoolIdentifierBytes()
    ensures IdentifierBytes(Config(2, 4, false), BoolV(true)) == Done([4, 0, 0x42, 0x6f, 0x6f, 0x6c])
  {
    Pow256Values();
    assert LE(4, 2) == [4, 0];
  }

  /** The envelope of Bool(true) under a two-byte string-length prefix: the length-prefixed name,
      a frame length of 5 (one payload byte plus four), and the payload byte. */
  lemma BoolEnvelopeBytes()
    ensures EncodeEnvelope(Config(2, 4, false), BoolV(true), [])
         == Done([4, 0, 0x42, 0x6f, 0x6f, 0x6c, 5, 0, 0, 0, 1])
  {
    var cfg := Config(2, 4, false);
    var payload := EncodeValue(cfg, BoolV(true), []);
    assert payload == Done([1]);
    BoolIdentifierBytes();
    assert FrameField(1) == [5, 0, 0, 0];
    FrameLayout(IdentifierBytes(cfg, BoolV(true)), payload);
  }

  /** Those bytes decode back to Bool(true) with the single-field decoder. */
  lemma BoolEnvelopeDecodes()
    ensures DecodeEnvelope(Config(2, 4, false), map[TypeName(BoolV(true)) := BoolV(false)],
                           [4, 0, 0x42, 0x6f, 0x6f, 0x6c, 5, 0, 0, 0, 1])
         == Parsed(BoolV(true), 11)
  {
    var table := map[TypeName(BoolV(true)) := BoolV(false)];
    BoolEnvelopeBytes();
    EnvelopeRoundTrip(Config(2, 4, false), table, BoolV(true), [], []);
    assert [4, 0, 0x42, 0x6f, 0x6f, 0x6c, 5, 0, 0, 0, 1] + [] == [4, 0, 0x42, 0x6f, 0x6f, 0x6c, 5, 0, 0, 0, 1];
  }

  /** The decoder as written rejects the same bytes: its second u32 runs past the one payload
      byte. */
  lemma AsWrittenRejectsOwnEnvelope()
    ensures DecodeEnvelopeAsWritten(Config(2, 4, false), map[TypeName(BoolV(true)) := BoolV(false)],
                                    [4, 0, 0x42, 0x6f, 0x6f, 0x6c, 5, 0, 0, 0, 1])
         == Failed(ShortRead(4, 1), 10)
  {
    var cfg := Config(2, 4, false);
    var table := map[TypeName(BoolV(true)) := BoolV(false)];
    BoolIdentifierBytes();
    var idBytes := EncodeString(cfg, TypeName(BoolV(true))).bytes;
    Pow256Values();
    assert LE(5, 4) == [5, 0, 0, 0];
    assert [4, 0, 0x42, 0x6f, 0x6f, 0x6c, 5, 0, 0, 0, 1] == idBytes + (LE(5, 4) + [1]);
    AsWrittenFront(cfg, table, TypeName(BoolV(true)), 5, [1]);
  }

  /** A new envelope holds the placeholder, whose identifier is the placeholder itself and
      writes nothing: its envelope is just the frame length 4. On their own those four bytes
      never decode, whatever the width of the string-length prefix: a decoder takes them for the
      length of an identifier whose bytes are missing, or for too short a prefix. */
  lemma PlaceholderEnvelopeUnreadable(cfg: Config, table: map<Ident, Value>)
    requires 1 <= cfg.stringLengthSize
    ensures EncodeEnvelope(cfg, DummyV, []) == Done([4, 0, 0, 0])
    ensures var w := cfg.stringLengthSize;
      DecodeEnvelope(cfg, table, [4, 0, 0, 0])
      == if w <= 4 then Failed(ShortRead(4, 4 - w), w) else Failed(ShortRead(w, 4), 0)
  {
    assert FrameField(0) == [4, 0, 0, 0];
    FrameLayout(IdentifierBytes(cfg, DummyV), EncodeValue(cfg, DummyV, []));
    var s: seq<byte> := [4, 0, 0, 0];
    var w := cfg.stringLengthSize;
    if w <= 4 {
      assert s[..w] == LE(4, w) by {
        if w == 1 { assert LE(4, 1) == [4]; }
        else if w == 2 { assert LE(4, 2) == [4, 0]; }
        else if w == 3 { assert LE(4, 3) == [4, 0, 0]; }
        else { assert LE(4, 4) == [4, 0, 0, 0]; }
      }
      assert Pow256(w) == 256 * Pow256(w - 1);
      FromLEOfLE(4, w);
      assert ParseFixed(s, w) == Parsed(4, w);
    }
  }

  /** In a stream, under a four-byte string-length prefix, the placeholder's envelope is taken
      for the length of an identifier made of the next four bytes, whatever they belong to. */
  lemma PlaceholderMisreadsFollowing(cfg: Config, rest: seq<byte>)
    requires cfg.stringLengthSize == 4 && 4 <= |rest|
    ensures DecodeString(cfg, [4, 0, 0, 0] + rest) == Parsed(rest[..4], 8)
  {
    var s := [4, 0, 0, 0] + rest;
    Pow256Values();
    assert s[..4] == LE(4, 4);
    FromLEOfLE(4, 4);
    assert ParseFixed(s, 4) == Parsed(4, 4);
    assert s[4..][..4] == rest[..4];
  }

  /** The placeholder writes no identifier and no payload, reads nothing, and accepts every value
      as equal. */
  lemma PlaceholderIsEmpty(cfg: Config, s: seq<byte>, other: Value)
    ensures IdentifierBytes(cfg, DummyV) == Done([]) && EncodeValue(cfg, DummyV, []) == Done([])
    ensures DecodeValue(cfg, DummyV, s) == Parsed(DummyV, 0)
    ensures ValueEquals(DummyV, other)
  {
  }

  /** equals is not symmetric: the placeholder accepts every value, and no other value accepts
      the placeholder. */
  lemma PlaceholderEqualsOneWay(v: Value)
    requires !v.DummyV?
    ensures ValueEquals(DummyV, v) && !ValueEquals(v, DummyV)
  {
    EqualsAcrossTypes(v, DummyV);
  }

  /** object_id().write_to: nothing for the placeholder, the type's name otherwise. */
  method WriteIdentifier(v: Value, w: Writer) returns (res: Result<()>)
    modifies w
    ensures w.buf == old(w.buf) + IdentifierBytes(w.config, v).bytes
    ensures res == IdentifierBytes(w.config, v).Status()
  {
    if v.DummyV? {
      res := Ok(());
    } else {
      res := WriteString(w, TypeName(v));
    }
  }

  /** The frame length and the payload, written once the identifier is out. */
  method WriteLengthAndPayload(w: Writer, payloadBytes: seq<byte>)
    modifies w
    ensures w.buf == old(w.buf) + FrameField(|payloadBytes|) + payloadBytes
  {
    Pow256Values();
    w.WriteU32((|payloadBytes| + 4) % TWO_TO_THE_32);
    w.Write(payloadBytes);
  }

  /** The second half of write_to: given the outcome and bytes of the payload written on its
      own, writes the frame around it, or nothing when the payload failed. */
  method WriteFrame(w: Writer, v: Value, written: Result<()>, payloadBytes: seq<byte>, ghost payload: Emitted)
    returns (res: Result<()>)
    requires payload.bytes == payloadBytes && payload.Status() == written
    modifies w
    ensures w.buf == old(w.buf) + Frame(IdentifierBytes(w.config, v), payload).bytes
    ensures res == Frame(IdentifierBytes(w.config, v), payload).Status()
  {
    ghost var identifier := IdentifierBytes(w.config, v);
    IdentifierAtomic(w.config, v);
    FrameLayout(identifier, payload);
    if written.Err? {
      return written;
    }
    res := WriteIdentifier(v, w);
    if res.Err? {
      return res;
    }
    ghost var afterId := w.buf;
    WriteLengthAndPayload(w, payloadBytes);
    assert w.buf == old(w.buf) + (identifier.bytes + FrameField(|payloadBytes|) + payloadBytes);
  }

  /** The front of extract_from: the identifier, the frame length and the registry lookup.
      On failure the envelope decode has failed with that error after the bytes consumed; on
      success what remains is the registered prototype's decode of the rest. */
  method ReadHeader(r: Reader, table: map<Ident, Value>) returns (res: Result<Ident>)
    requires r.Valid()
    modifies r
    ensures r.Valid() && old(r.pos) <= r.pos
    ensures res.Err? ==>
      DecodeEnvelope(r.config, table, old(r.Remaining())) == Failed(res.err, r.pos - old(r.pos))
    ensures res.Ok? ==>
      && res.value in table
      && DecodeEnvelope(r.config, table, old(r.Remaining()))
         == DecodeValue(r.config, table[res.value], r.Remaining()).Shift(r.pos - old(r.pos))
  {
    ghost var s := r.Remaining();
    res := ReadString(r);
    if res.Err? {
      return;
    }
    ghost var u1 := DecodeString(r.config, s).used;
    assert r.Remaining() == s[u1..];
    var frameLength := r.ReadU32();
    if frameLength.Err? {
      return Err(frameLength.err);
    }
    assert r.Remaining() == s[u1 + 4..];
    if res.value !in table {
      return Err(UnknownIdentifier(res.value));
    }
  }

  /** The process-wide table of prototypes, keyed by identifier. */
  class Registry {
    var table: map<Ident, Value>

    ghost predicate Valid()
      reads this
    {
      WellFormed(table)
    }

    constructor ()
      ensures Valid() && table == map[]
    {
      table := map[];
    }

    /** register_object_holder_type: the prototype is stored under its identifier, replacing an
        earlier one there; every other entry stays. */
    method Register(prototype: Value)
      requires Valid()
      modifies this
      ensures Valid()
      ensures TypeName(prototype) in table && table[TypeName(prototype)] == prototype
      ensures forall id :: id != TypeName(prototype) ==> (id in table <==> id in old(table))
      ensures forall id :: id != TypeName(prototype) && id in table ==> table[id] == old(table)[id]
    {
      table := table[TypeName(prototype) := prototype];
    }
  }

  /** An envelope holding exactly one object behind the wire-value contract. */
  class AnyObjectHolder {
    var held: Obj

    /** new: holds the placeholder. */
    constructor ()
      ensures held == DummyObj
    {
      held := DummyObj;
    }

    /** write_to: the held object is written to a scratch writer with the same configuration;
        only if that succeeds do the identifier, the frame length and the payload reach w. */
    method WriteTo(w: Writer) returns (res: Result<()>, ghost order: seq<Ident>)
      modifies w
      ensures OrderFor(old(View(held)), order)
      ensures w.buf == old(w.buf) + EncodeEnvelope(w.config, old(View(held)), order).bytes
      ensures res == EncodeEnvelope(w.config, old(View(held)), order).Status()
    {
      var v := View(held);
      var content := w.CopyNew();
      var written;
      written, order := WriteObj(held, content);
      assert View(held) == v;
      ghost var payload := EncodeValue(w.config, v, order);
      res := WriteFrame(w, v, written, content.Bytes(), payload);
    }

    /** extract_from: identifier, frame length, lookup, decode into a fresh clone of the
        prototype; the held object is replaced by the clone only when all of it succeeded, and
        neither it nor the registry changes otherwise. */
    method ExtractFrom(r: Reader, registry: Registry) returns (res: Result<()>)
      requires r.Valid()
      modifies this, r
      ensures r.Valid()
      ensures r.pos == old(r.pos) + DecodeEnvelope(r.config, registry.table, old(r.Remaining())).used
      ensures res == DecodeEnvelope(r.config, registry.table, old(r.Remaining())).Status()
      ensures res.Ok? ==>
        && fresh(Footprint(held))
        && View(held) == DecodeEnvelope(r.config, registry.table, old(r.Remaining())).value
      ensures res.Err? ==> held == old(held) && View(held) == old(View(held))
      ensures var id := DecodeString(r.config, old(r.Remaining()));
        id.Parsed? && id.value !in registry.table ==> res.Err?
    {
      var identifier := ReadHeader(r, registry.table);
      if identifier.Err? {
        return Err(identifier.err);
      }
      var candidate := NewObj(registry.table[identifier.value]);
      var decoded := ExtractObj(candidate, r);
      if decoded.Err? {
        return decoded;
      }
      held := candidate;
      res := Ok(());
    }

    /** copy: a new envelope holding a fresh copy of the held object. */
    method Copy() returns (h: AnyObjectHolder)
      ensures fresh(h) && fresh(Footprint(h.held)) && View(h.held) == View(held)
    {
      var c := CopyObj(held);
      h := new AnyObjectHolder();
      h.held := c;
    }

    /** equals: delegates to the held object's own comparison. */
    predicate Equals(other: AnyObjectHolder)
      reads this, other, Footprint(held), Footprint(other.held)
    {
      ValueEquals(View(held), View(other.held))
    }
  }

  /** A holder written to an empty stream and extracted from exactly those bytes into another
      holder: when the write succeeded, so does the extraction, and the target then holds the
      source's value as restored through the registered prototype. */
  method Transfer(w: Writer, registry: Registry, source: AnyObjectHolder, target: AnyObjectHolder)
    returns (written: Result<()>, extracted: Result<()>)
    requires w.buf == [] && registry.Valid()
    requires TypeName(View(source.held)) in registry.table && !View(source.held).DummyV?
    requires View(source.held).CvcV? ==> |View(source.held).classVersions| < TWO_TO_THE_32
    modifies w, target
    ensures written.Err? ==> extracted == written && target.held == old(target.held)
    ensures written.Ok? ==>
      && extracted.Ok?
      && View(target.held)
         == Restored(w.config, old(View(source.held)), old(registry.table)[TypeName(old(View(source.held)))])
  {
    ghost var v := View(source.held);
    ghost var table := registry.table;
    ghost var order;
    written, order := source.WriteTo(w);
    if written.Err? {
      extracted := written;
      return;
    }
    ghost var bytes := EncodeEnvelope(w.config, v, order).bytes;
    assert w.buf == bytes;
    EnvelopeDecodes(w.config, table, v, order);
    var r := new Reader(w.config, w.buf);
    extracted := target.ExtractFrom(r, registry);
  }
}
