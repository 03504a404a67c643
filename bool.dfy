/** The boolean wire value: one byte written with write_bool and read back with read_bool. */
module BoolType {
  import opened Wire
  import opened Values

  /** equals: the other value must downcast to a Bool holding the same boolean. */
  predicate Equals(self: bool, other: Value) {
    other.BoolV? && other.b == self
  }

  lemma {:induction false} RoundTrip(b: bool, rest: seq<byte>)
    ensures ParseBool(BoolBytes(b) + rest) == Parsed(b, 1)
  {
  }

  /** A boolean equals the one read back from its own byte, and never the opposite boolean. */
  lemma EqualsAfterRoundTrip(b: bool, rest: seq<byte>)
    ensures Equals(b, BoolV(ParseBool(BoolBytes(b) + rest).value))
    ensures !Equals(b, BoolV(!b))
  {
    RoundTrip(b, rest);
  }

  class Bool {
    var value: bool

    constructor New(input: bool)
      ensures value == input
    {
      value := input;
    }

    /** copy (and copy_ref and deref, which call it): a fresh Bool holding the same value. */
    method Copy() returns (c: Bool)
      ensures fresh(c) && c.value == value
    {
      c := new Bool.New(value);
    }

    /** write_to appends the one write_bool byte and never fails. */
    method WriteTo(w: Writer) returns (res: Result<()>)
      modifies w
      ensures w.buf == old(w.buf) + BoolBytes(value)
      ensures res == Ok(())
    {
      w.WriteBool(value);
      res := Ok(());
    }

    /** extract_from stores the boolean read; a failed read leaves the value as it was. */
    method ExtractFrom(r: Reader) returns (res: Result<()>)
      requires r.Valid()
      modifies this, r
      ensures r.Valid()
      ensures r.pos == old(r.pos) + ParseBool(old(r.Remaining())).used
      ensures res == ParseBool(old(r.Remaining())).Status()
      ensures value == if res.Ok? then ParseBool(old(r.Remaining())).value else old(value)
    {
      var read := r.ReadBool();
      if read.Err? {
        return Err(read.err);
      }
      value := read.value;
      res := Ok(());
    }
  }

  /** A Bool written to a fresh writer and extracted, from those bytes, into a Bool that
      held the opposite value ends up holding the original value. */
  method WriteThenExtract(cfg: Config, b: bool) returns (out: bool)
    ensures out == b
  {
    var source := new Bool.New(b);
    var w := new Writer(cfg);
    var _ := source.WriteTo(w);
    var r := new Reader(cfg, w.buf);
    var target := new Bool.New(!b);
    var _ := target.ExtractFrom(r);
    out := target.value;
  }
}
