/** The versioned-class metadata container: a structure version and a table from class names
    to u16 versions. Only the table travels on the wire and takes part in comparisons. */
module ClassVersions {
  import opened Wire
  import opened Values
  import opened Strings
  import opened Maps

  /** The u16 value codec of the version table: two little-endian bytes. */
  function EncodeU16(cfg: Config, x: u16): Emitted {
    Done(LE(x, 2))
  }

  function DecodeU16(cfg: Config, s: seq<byte>): (p: Parse<u16>)
    ensures p.used <= |s|
  {
    Pow256Values();
    match ParseFixed(s, 2)
    case Parsed(x, u) => Parsed(x, u)
    case Failed(e, u) => Failed(e, u)
  }

  lemma U16CodecLaws()
    ensures RoundTrips(Codec(EncodeU16, DecodeU16))
    ensures Bounded(Codec(EncodeU16, DecodeU16))
  {
    forall cfg, x: u16, s | LE(x, 2) <= s
      ensures DecodeU16(cfg, s) == Parsed(x, 2)
    {
      Pow256Values();
      assert s == LE(x, 2) + s[2..];
      FixedRoundTrip(x, 2, s[2..]);
    }
  }

  function U16Codec(): (c: Codec<u16>)
    ensures RoundTrips(c) && Bounded(c)
  {
    U16CodecLaws();
    Codec(EncodeU16, DecodeU16)
  }

  /** The wire form of a version table in a given iteration order. */
  function EncodeVersions(cfg: Config, m: map<Ident, u16>, order: seq<Ident>): Emitted
    requires IsEnumeration(order, m)
  {
    EncodeMap(cfg, IdentCodec(), U16Codec(), m, order)
  }

  function DecodeVersions(cfg: Config, s: seq<byte>): (p: Parse<map<Ident, u16>>)
    ensures p.used <= |s|
  {
    DecodeMap(cfg, IdentCodec(), U16Codec(), s)
  }

  /** A version table comes back from its own encoding, whatever the iteration order, as long
      as its names fit the string-length prefix and its size fits a u32. */
  lemma VersionsRoundTrip(cfg: Config, m: map<Ident, u16>, order: seq<Ident>, rest: seq<byte>)
    requires IsEnumeration(order, m) && |m| < TWO_TO_THE_32
    requires EncodeVersions(cfg, m, order).Done?
    ensures DecodeVersions(cfg, EncodeVersions(cfg, m, order).bytes + rest)
         == Parsed(m, |EncodeVersions(cfg, m, order).bytes|)
  {
    MapRoundTrip(cfg, IdentCodec(), U16Codec(), m, order, rest);
  }

  /** equals: the other value must downcast to a container with the same version table; the
      structure version is not compared. */
  predicate Equals(self: map<Ident, u16>, other: Value) {
    other.CvcV? && other.classVersions == self
  }

  /** Two containers that differ only in their structure version compare equal, and nothing
      but a container compares equal to one. */
  lemma EqualsIgnoresStructureVersion(a: Value, b: Value)
    requires a.CvcV?
    ensures Equals(a.classVersions, b) <==> b.CvcV? && b.classVersions == a.classVersions
    ensures b.CvcV? && b.classVersions == a.classVersions && b.structureVersion != a.structureVersion
            ==> Equals(a.classVersions, b)
  {
  }

  /** n tab characters. */
  function Tabs(n: nat): (t: string)
    ensures |t| == n && forall i :: 0 <= i < n ==> t[i] == '\t'
  {
    if n == 0 then "" else Tabs(n - 1) + "\t"
  }

  function DigitChar(d: nat): char
    requires d < 10
  {
    "0123456789"[d]
  }

  /** The decimal rendering of n, most significant digit first. */
  function Decimal(n: nat): (s: string)
    ensures |s| >= 1
    ensures forall i :: 0 <= i < |s| ==> '0' <= s[i] <= '9'
  {
    if n < 10 then [DigitChar(n)] else Decimal(n / 10) + [DigitChar(n % 10)]
  }

  /** The number a run of decimal digits denotes. */
  function DecimalValue(s: string): nat
    requires forall i :: 0 <= i < |s| ==> '0' <= s[i] <= '9'
  {
    if s == [] then 0 else 10 * DecimalValue(s[..|s| - 1]) + (s[|s| - 1] as int - '0' as int)
  }

  lemma {:induction false} DecimalRoundTrip(n: nat)
    ensures DecimalValue(Decimal(n)) == n
  {
    if n >= 10 {
      DecimalRoundTrip(n / 10);
      var s := Decimal(n);
      assert s[..|s| - 1] == Decimal(n / 10);
    }
  }

  /** The text format_to_string builds, with the table's own rendering given. */
  function Formatted(indentationLevel: nat, structureVersion: u32, versionsText: string): string {
    "ClassVersionContainer{\n"
      + Tabs(indentationLevel + 1) + "StructureVersion: " + Decimal(structureVersion) + ",\n"
      + Tabs(indentationLevel + 1) + "ClassVersions: " + versionsText + "\n"
      + Tabs(indentationLevel) + "}"
  }

  /** The rendering opens with the type name and an opening brace. */
  lemma FormattedOpens(indentationLevel: nat, structureVersion: u32, versionsText: string)
    ensures var s := Formatted(indentationLevel, structureVersion, versionsText);
      23 <= |s| && s[..23] == "ClassVersionContainer{\n"
  {
    var head := "ClassVersionContainer{\n";
    var rest := Tabs(indentationLevel + 1) + "StructureVersion: " + Decimal(structureVersion) + ",\n"
      + Tabs(indentationLevel + 1) + "ClassVersions: " + versionsText + "\n"
      + Tabs(indentationLevel) + "}";
    assert Formatted(indentationLevel, structureVersion, versionsText) == head + rest;
    assert (head + rest)[..|head|] == head;
  }

  /** The rendering closes with the enclosing level's indentation and a closing brace. */
  lemma FormattedCloses(indentationLevel: nat, structureVersion: u32, versionsText: string)
    ensures var s := Formatted(indentationLevel, structureVersion, versionsText);
      indentationLevel + 1 <= |s| && s[|s| - indentationLevel - 1..] == Tabs(indentationLevel) + "}"
  {
    var body := "ClassVersionContainer{\n"
      + Tabs(indentationLevel + 1) + "StructureVersion: " + Decimal(structureVersion) + ",\n"
      + Tabs(indentationLevel + 1) + "ClassVersions: " + versionsText + "\n";
    var tail := Tabs(indentationLevel) + "}";
    assert Formatted(indentationLevel, structureVersion, versionsText) == body + tail;
    assert (body + tail)[|body|..] == tail;
  }

  /** The structure version can be read back from its line. */
  lemma StructureVersionReadable(indentationLevel: nat, structureVersion: u32, versionsText: string)
    ensures var s := Formatted(indentationLevel, structureVersion, versionsText);
      var start := 23 + indentationLevel + 1 + 18;
      && start + |Decimal(structureVersion)| <= |s|
      && DecimalValue(s[start..start + |Decimal(structureVersion)|]) == structureVersion
  {
    var s := Formatted(indentationLevel, structureVersion, versionsText);
    var start := 23 + indentationLevel + 1 + 18;
    var d := Decimal(structureVersion);
    var before := "ClassVersionContainer{\n" + Tabs(indentationLevel + 1) + "StructureVersion: ";
    assert |before| == start;
    var after := ",\n" + Tabs(indentationLevel + 1) + "ClassVersions: " + versionsText + "\n"
      + Tabs(indentationLevel) + "}";
    assert s == before + d + after;
    assert s[start..start + |d|] == d;
    DecimalRoundTrip(structureVersion);
  }

  class ClassVersionContainer {
    var structureVersion: u32
    const classVersions: Map<Ident, u16>

    /** new: structure version 0 and an empty table. */
    constructor New()
      ensures structureVersion == 0 && classVersions.inner == map[]
      ensures fresh(classVersions)
    {
      structureVersion := 0;
      classVersions := new Map();
    }

    /** format_to_string: built line by line, with the table's rendering given. */
    method FormatToString(indentationLevel: nat, versionsText: string) returns (s: string)
      ensures s == Formatted(indentationLevel, structureVersion, versionsText)
    {
      var indentValues := Tabs(indentationLevel + 1);
      var indentEnd := Tabs(indentationLevel);
      s := "";
      s := s + "ClassVersionContainer{\n";
      s := s + indentValues + "StructureVersion: " + Decimal(structureVersion) + ",\n";
      s := s + indentValues + "ClassVersions: " + versionsText + "\n";
      s := s + indentEnd + "}";
    }

    /** write_to: exactly the table's encoding; the structure version is not written. */
    method WriteTo(w: Writer) returns (res: Result<()>, ghost order: seq<Ident>)
      modifies w
      ensures IsEnumeration(order, classVersions.inner)
      ensures w.buf == old(w.buf) + EncodeVersions(w.config, classVersions.inner, order).bytes
      ensures res == EncodeVersions(w.config, classVersions.inner, order).Status()
    {
      res, order := classVersions.WriteTo(w, IdentCodec(), U16Codec());
    }

    /** extract_from: only the table changes, and only when the whole table was read. */
    method ExtractFrom(r: Reader) returns (res: Result<()>)
      requires r.Valid()
      modifies classVersions, r
      ensures r.Valid()
      ensures r.pos == old(r.pos) + DecodeVersions(r.config, old(r.Remaining())).used
      ensures res == DecodeVersions(r.config, old(r.Remaining())).Status()
      ensures classVersions.inner
           == if res.Ok? then DecodeVersions(r.config, old(r.Remaining())).value else old(classVersions.inner)
      ensures structureVersion == old(structureVersion)
    {
      res := classVersions.ExtractFrom(r, IdentCodec(), U16Codec());
    }

    /** copy: a fresh container with the same structure version and a fresh, equal table. */
    method Copy() returns (c: ClassVersionContainer)
      ensures fresh(c) && fresh(c.classVersions)
      ensures c.structureVersion == structureVersion && c.classVersions.inner == classVersions.inner
    {
      c := new ClassVersionContainer.New();
      c.structureVersion := structureVersion;
      c.classVersions.inner := classVersions.inner;
    }
  }
}
