/** The values an envelope can hold, behind the one wire-value contract: the concrete objects,
    what they denote, and the dispatch of write_to, extract_from, copy and equals to the
    concrete type that sits behind the trait object. */
module Holdable {
  import opened Wire
  import opened Values
  import opened Maps
  import BoolType
  import PidType
  import ClassVersions

  /** A boxed trait object: one of the concrete objects, or the placeholder, which has no state. */
  datatype Obj =
    | BoolObj(b: BoolType.Bool)
    | PidObj(p: PidType.PID)
    | CvcObj(c: ClassVersions.ClassVersionContainer)
    | DummyObj

  /** The heap objects an Obj's state lives in. */
  function Footprint(o: Obj): set<object> {
    match o
    case BoolObj(b) => {b}
    case PidObj(p) => {p}
    case CvcObj(c) => {c, c.classVersions}
    case DummyObj => {}
  }

  /** The value an Obj currently denotes. */
  function View(o: Obj): Value
    reads Footprint(o)
  {
    match o
    case BoolObj(b) => BoolV(b.value)
    case PidObj(p) => PidV(p.value)
    case CvcObj(c) => CvcV(c.structureVersion, c.classVersions.inner)
    case DummyObj => DummyV
  }

  /** `order` is an iteration order write_to may use for v: an enumeration of the version table
      of a container, and empty for every other value. */
  ghost predicate OrderFor(v: Value, order: seq<Ident>) {
    if v.CvcV? then IsEnumeration(order, v.classVersions) else order == []
  }

  /** What write_to appends for v, taking `order` as the table's iteration order. Only a
      container's write can fail; a boolean is one byte, a process identifier as wide as the
      stream's process-identifier width, and a container at least its four-byte entry count. */
  function EncodeValue(cfg: Config, v: Value, order: seq<Ident>): (e: Emitted)
    requires OrderFor(v, order)
    ensures !v.CvcV? ==> e.Done?
    ensures v.BoolV? ==> |e.bytes| == 1
    ensures v.PidV? ==> |e.bytes| == PidType.Width(cfg)
    ensures v.CvcV? ==> 4 <= |e.bytes|
  {
    match v
    case BoolV(b) => Done(BoolBytes(b))
    case PidV(n) => Done(PidType.Encode(cfg, n))
    case CvcV(_, m) => ClassVersions.EncodeVersions(cfg, m, order)
    case DummyV => Done([])
  }

  /** What extract_from makes of s on a clone of the prototype `proto`: the decoded value has the
      prototype's type, and a container keeps the prototype's structure version. */
  function DecodeValue(cfg: Config, proto: Value, s: seq<byte>): (p: Parse<Value>)
    ensures p.used <= |s|
    ensures p.Parsed? ==> SameKind(p.value, proto)
    ensures p.Parsed? && proto.CvcV? ==> p.value.structureVersion == proto.structureVersion
    ensures proto.DummyV? ==> p == Parsed(DummyV, 0)
  {
    match proto
    case BoolV(_) =>
      (match ParseBool(s)
       case Parsed(b, u) => Parsed(BoolV(b), u)
       case Failed(e, u) => Failed(e, u))
    case PidV(_) =>
      (match PidType.Decode(cfg, s)
       case Parsed(n, u) => Parsed(PidV(n), u)
       case Failed(e, u) => Failed(e, u))
    case CvcV(sv, _) =>
      (match ClassVersions.DecodeVersions(cfg, s)
       case Parsed(m, u) => Parsed(CvcV(sv, m), u)
       case Failed(e, u) => Failed(e, u))
    case DummyV => Parsed(DummyV, 0)
  }

  /** equals, dispatched on the receiver's type; the placeholder equals anything. */
  predicate ValueEquals(self: Value, other: Value) {
    match self
    case BoolV(b) => BoolType.Equals(b, other)
    case PidV(n) => PidType.Equals(n, other)
    case CvcV(_, m) => ClassVersions.Equals(m, other)
    case DummyV => true
  }

  /** Every value equals itself. */
  lemma EqualsReflexive(v: Value)
    ensures ValueEquals(v, v)
  {
  }

  /** Between values other than the placeholder, equals is symmetric. */
  lemma EqualsSymmetric(a: Value, b: Value)
    requires !a.DummyV? && !b.DummyV?
    ensures ValueEquals(a, b) <==> ValueEquals(b, a)
  {
  }

  /** A comparison against a value of another type is false, never an error, except that the
      placeholder accepts everything. */
  lemma EqualsAcrossTypes(self: Value, other: Value)
    requires !self.DummyV?
    ensures !SameKind(self, other) ==> !ValueEquals(self, other)
    ensures ValueEquals(self, other) <==>
      (if self.CvcV? then other.CvcV? && other.classVersions == self.classVersions else other == self)
  {
  }

  /** What decoding v's encoding on a clone of proto gives back: the value itself, except that a
      process identifier keeps only its low 32 bits under a width other than 8 and a container
      takes the prototype's structure version, which is not on the wire. */
  function Restored(cfg: Config, v: Value, proto: Value): (r: Value)
    requires SameKind(v, proto)
    ensures SameKind(r, v)
  {
    match v
    case PidV(n) => PidV(if cfg.pidSize == 8 then n else n % TWO_TO_THE_32)
    case CvcV(_, m) => CvcV(proto.structureVersion, m)
    case _ => v
  }

  /** The restored value compares equal to the original exactly when no identifier bits were
      dropped. */
  lemma RestoredEquals(cfg: Config, v: Value, proto: Value)
    requires SameKind(v, proto)
    ensures ValueEquals(Restored(cfg, v, proto), v)
        <==> !v.PidV? || cfg.pidSize == 8 || v.pid < TWO_TO_THE_32
  {
  }

  /** Decoding a value's encoding on a clone of a prototype of the same type restores it, up to
      Restored, and consumes exactly the encoding. */
  lemma ValueRoundTrip(cfg: Config, v: Value, order: seq<Ident>, proto: Value, rest: seq<byte>)
    requires SameKind(v, proto) && OrderFor(v, order)
    requires v.CvcV? ==> |v.classVersions| < TWO_TO_THE_32
    requires EncodeValue(cfg, v, order).Done?
    ensures DecodeValue(cfg, proto, EncodeValue(cfg, v, order).bytes + rest)
         == Parsed(Restored(cfg, v, proto), |EncodeValue(cfg, v, order).bytes|)
  {
    match v
    case BoolV(b) => BoolType.RoundTrip(b, rest);
    case PidV(n) => PidType.RoundTrip(cfg, n, rest);
    case CvcV(_, m) => ClassVersions.VersionsRoundTrip(cfg, m, order, rest);
    case DummyV =>
  }

  /** write_to through the trait object. */
  method WriteObj(o: Obj, w: Writer) returns (res: Result<()>, ghost order: seq<Ident>)
    modifies w
    ensures OrderFor(View(o), order)
    ensures w.buf == old(w.buf) + EncodeValue(w.config, View(o), order).bytes
    ensures res == EncodeValue(w.config, View(o), order).Status()
  {
    match o
    case BoolObj(b) =>
      res := b.WriteTo(w);
      order := [];
    case PidObj(p) =>
      res := p.WriteTo(w);
      order := [];
    case CvcObj(c) =>
      res, order := c.WriteTo(w);
    case DummyObj =>
      res := Ok(());
      order := [];
  }

  /** extract_from through the trait object: the object's value becomes the decoded one on
      success and stays as it was on failure. */
  method ExtractObj(o: Obj, r: Reader) returns (res: Result<()>)
    requires r.Valid()
    modifies Footprint(o), r
    ensures r.Valid()
    ensures r.pos == old(r.pos) + DecodeValue(r.config, old(View(o)), old(r.Remaining())).used
    ensures res == DecodeValue(r.config, old(View(o)), old(r.Remaining())).Status()
    ensures View(o) == if res.Ok? then DecodeValue(r.config, old(View(o)), old(r.Remaining())).value else old(View(o))
  {
    match o
    case BoolObj(b) =>
      res := b.ExtractFrom(r);
    case PidObj(p) =>
      res := p.ExtractFrom(r);
    case CvcObj(c) =>
      res := c.ExtractFrom(r);
    case DummyObj =>
      res := Ok(());
  }

  /** copy_ref on a registered prototype: a fresh object denoting the same value. */
  method NewObj(v: Value) returns (o: Obj)
    ensures fresh(Footprint(o)) && View(o) == v
  {
    if v.BoolV? {
      var x := new BoolType.Bool.New(v.b);
      o := BoolObj(x);
    } else if v.PidV? {
      var x := new PidType.PID.New(v.pid);
      o := PidObj(x);
    } else if v.CvcV? {
      var x := new ClassVersions.ClassVersionContainer.New();
      x.structureVersion := v.structureVersion;
      x.classVersions.inner := v.classVersions;
      o := CvcObj(x);
    } else {
      o := DummyObj;
    }
  }

  /** copy / copy_ref of a held object: each concrete type's own copy, a new placeholder for
      the placeholder. */
  method CopyObj(o: Obj) returns (c: Obj)
    ensures fresh(Footprint(c)) && View(c) == View(o)
  {
    match o
    case BoolObj(b) =>
      var x := b.Copy();
      c := BoolObj(x);
    case PidObj(p) =>
      var x := p.Copy();
      c := PidObj(x);
    case CvcObj(cvc) =>
      var x := cvc.Copy();
      c := CvcObj(x);
    case DummyObj =>
      c := DummyObj;
  }
}
