/** The generic associative container: a table whose wire form is a u32 entry count followed by
    each key's encoding and then its value's encoding, in the table's iteration order. The key
    and value types take part through their codecs. */
module Maps {
  import opened Wire

  /** `order` lists the keys of m in some iteration order: every key, and nothing else, once. */
  ghost predicate IsEnumeration<K, V>(order: seq<K>, m: map<K, V>) {
    && |order| == |m|
    && (forall i :: 0 <= i < |order| ==> order[i] in m)
    && (forall k :: k in m ==> k in order)
  }

  /** The entries of m in the given key order. */
  function Entries<K, V>(m: map<K, V>, order: seq<K>): (es: seq<(K, V)>)
    requires forall i :: 0 <= i < |order| ==> order[i] in m
    ensures |es| == |order|
    ensures forall i :: 0 <= i < |order| ==> es[i] == (order[i], m[order[i]])
  {
    seq(|order|, i requires 0 <= i < |order| => (order[i], m[order[i]]))
  }

  /** One key's encoding followed by its value's encoding. */
  function EncodePair<K, V>(cfg: Config, kc: Codec<K>, vc: Codec<V>, pair: (K, V)): Emitted {
    kc.enc(cfg, pair.0).Then(vc.enc(cfg, pair.1))
  }

  /** The pairs' encodings one after the other, stopping at the first that fails. */
  function EncodePairs<K, V>(cfg: Config, kc: Codec<K>, vc: Codec<V>, pairs: seq<(K, V)>): Emitted {
    if pairs == [] then Done([])
    else EncodePair(cfg, kc, vc, pairs[0]).Then(EncodePairs(cfg, kc, vc, pairs[1..]))
  }

  /** write_to for the iteration order `order`: the entry count, cast to u32, then the entries.
      The count is written even when an entry then fails. */
  function EncodeMap<K, V>(cfg: Config, kc: Codec<K>, vc: Codec<V>, m: map<K, V>, order: seq<K>): (e: Emitted)
    requires IsEnumeration(order, m)
    ensures 4 <= |e.bytes| && e.bytes[..4] == LE(|m| % TWO_TO_THE_32, 4)
  {
    var e := Done(LE(|m| % TWO_TO_THE_32, 4)).Then(EncodePairs(cfg, kc, vc, Entries(m, order)));
    assert e.bytes[..4] == LE(|m| % TWO_TO_THE_32, 4);
    e
  }

  /** The table obtained by inserting the pairs into acc one after the other. */
  function InsertAll<K, V>(acc: map<K, V>, pairs: seq<(K, V)>): (r: map<K, V>)
    ensures |r| <= |acc| + |pairs|
    ensures forall k :: k in acc ==> k in r
    decreases pairs
  {
    if pairs == [] then acc else InsertAll(acc[pairs[0].0 := pairs[0].1], pairs[1..])
  }

  /** One entry: a key, then a value from where the key ended. */
  function DecodePair<K, V>(cfg: Config, kc: Codec<K>, vc: Codec<V>, s: seq<byte>): (p: Parse<(K, V)>)
    requires Bounded(kc) && Bounded(vc)
    ensures p.used <= |s|
  {
    match kc.dec(cfg, s)
    case Failed(e, u) => Failed(e, u)
    case Parsed(k, uk) =>
      match vc.dec(cfg, s[uk..])
      case Failed(e, u) => Failed(e, uk + u)
      case Parsed(v, uv) => Parsed((k, v), uk + uv)
  }

  /** extract_from's loop: read n entries in turn, inserting each into acc. */
  function DecodeEntries<K, V>(cfg: Config, kc: Codec<K>, vc: Codec<V>, n: nat, acc: map<K, V>, s: seq<byte>): (p: Parse<map<K, V>>)
    requires Bounded(kc) && Bounded(vc)
    ensures p.used <= |s|
    ensures p.Parsed? ==> |p.value| <= |acc| + n
    decreases n
  {
    if n == 0 then Parsed(acc, 0)
    else
      match DecodePair(cfg, kc, vc, s)
      case Failed(e, u) => Failed(e, u)
      case Parsed(kv, u) => DecodeEntries(cfg, kc, vc, n - 1, acc[kv.0 := kv.1], s[u..]).Shift(u)
  }

  /** extract_from: the u32 count, then that many pairs into a fresh table. A repeated key keeps
      the last value read, so the table never has more entries than the count announced. */
  function DecodeMap<K, V>(cfg: Config, kc: Codec<K>, vc: Codec<V>, s: seq<byte>): (p: Parse<map<K, V>>)
    requires Bounded(kc) && Bounded(vc)
    ensures p.used <= |s|
    ensures p.Parsed? ==> 4 <= p.used && |p.value| <= FromLE(s[..4])
  {
    match ParseU32(s)
    case Failed(e, u) => Failed(e, u)
    case Parsed(n, u) => DecodeEntries(cfg, kc, vc, n, map[], s[u..]).Shift(u)
  }

  /** equals: `other` is the result of downcasting the other value to this table type; the
      sizes must agree and every key must be present there with a value `veq` accepts. */
  predicate Equals<K, V>(self: map<K, V>, other: Option<map<K, V>>, veq: (V, V) -> bool) {
    match other
    case None => false
    case Some(o) => |self| == |o| && forall k :: k in self ==> k in o && veq(self[k], o[k])
  }

  lemma ThenAssociative(a: Emitted, b: Emitted, c: Emitted)
    ensures a.Then(b).Then(c) == a.Then(b.Then(c))
  {
  }

  lemma {:induction false} EncodePairsAppend<K, V>(cfg: Config, kc: Codec<K>, vc: Codec<V>, p: seq<(K, V)>, q: seq<(K, V)>)
    ensures EncodePairs(cfg, kc, vc, p + q) == EncodePairs(cfg, kc, vc, p).Then(EncodePairs(cfg, kc, vc, q))
  {
    if p == [] {
      assert p + q == q;
    } else {
      assert (p + q)[1..] == p[1..] + q;
      EncodePairsAppend(cfg, kc, vc, p[1..], q);
      ThenAssociative(EncodePair(cfg, kc, vc, p[0]), EncodePairs(cfg, kc, vc, p[1..]), EncodePairs(cfg, kc, vc, q));
    }
  }

  /** The encoding of a table is its count followed by its entries', with their outcome. */
  lemma EncodeMapParts<K, V>(cfg: Config, kc: Codec<K>, vc: Codec<V>, m: map<K, V>, order: seq<K>)
    requires IsEnumeration(order, m)
    ensures EncodeMap(cfg, kc, vc, m, order).bytes
         == LE(|m| % TWO_TO_THE_32, 4) + EncodePairs(cfg, kc, vc, Entries(m, order)).bytes
    ensures EncodeMap(cfg, kc, vc, m, order).Status() == EncodePairs(cfg, kc, vc, Entries(m, order)).Status()
  {
  }

  /** What writing the i-th pair after the first i did to the run's encoding: either the run
      stops there with the pair's partial bytes, or the first i + 1 pairs encode in full. */
  lemma EncodePairsAt<K, V>(cfg: Config, kc: Codec<K>, vc: Codec<V>, pairs: seq<(K, V)>, i: nat)
    requires i < |pairs| && EncodePairs(cfg, kc, vc, pairs[..i]).Done?
    ensures EncodePair(cfg, kc, vc, pairs[i]).Aborted? ==>
      EncodePairs(cfg, kc, vc, pairs)
      == Aborted(EncodePair(cfg, kc, vc, pairs[i]).err, EncodePairs(cfg, kc, vc, pairs[..i]).bytes + EncodePair(cfg, kc, vc, pairs[i]).bytes)
    ensures EncodePair(cfg, kc, vc, pairs[i]).Done? ==>
      EncodePairs(cfg, kc, vc, pairs[..i + 1])
      == Done(EncodePairs(cfg, kc, vc, pairs[..i]).bytes + EncodePair(cfg, kc, vc, pairs[i]).bytes)
  {
    assert pairs == pairs[..i] + pairs[i..];
    EncodePairsAppend(cfg, kc, vc, pairs[..i], pairs[i..]);
    assert pairs[i..][0] == pairs[i] && pairs[i..][1..] == pairs[i + 1..];
    assert pairs[..i + 1] == pairs[..i] + [pairs[i]];
    EncodePairsAppend(cfg, kc, vc, pairs[..i], [pairs[i]]);
    assert [pairs[i]][1..] == [];
  }

  /** One turn of extract_from's loop. */
  lemma DecodeEntriesNext<K, V>(cfg: Config, kc: Codec<K>, vc: Codec<V>, n: nat, acc: map<K, V>, s: seq<byte>)
    requires Bounded(kc) && Bounded(vc) && n > 0
    ensures DecodePair(cfg, kc, vc, s).Failed? ==>
      DecodeEntries(cfg, kc, vc, n, acc, s) == Failed(DecodePair(cfg, kc, vc, s).err, DecodePair(cfg, kc, vc, s).used)
    ensures DecodePair(cfg, kc, vc, s).Parsed? ==>
      var p := DecodePair(cfg, kc, vc, s);
      DecodeEntries(cfg, kc, vc, n, acc, s)
      == DecodeEntries(cfg, kc, vc, n - 1, acc[p.value.0 := p.value.1], s[p.used..]).Shift(p.used)
  {
  }

  lemma DecodesEncoding<T(!new)>(c: Codec<T>, cfg: Config, x: T, rest: seq<byte>)
    requires RoundTrips(c) && c.enc(cfg, x).Done?
    ensures c.dec(cfg, c.enc(cfg, x).bytes + rest) == Parsed(x, |c.enc(cfg, x).bytes|)
  {
    assert c.enc(cfg, x).bytes <= c.enc(cfg, x).bytes + rest;
  }

  /** A successfully encoded entry decodes back, consuming exactly its encoding. */
  lemma PairRoundTrip<K(!new), V(!new)>(cfg: Config, kc: Codec<K>, vc: Codec<V>, pair: (K, V), rest: seq<byte>)
    requires RoundTrips(kc) && RoundTrips(vc) && Bounded(kc) && Bounded(vc)
    requires EncodePair(cfg, kc, vc, pair).Done?
    ensures DecodePair(cfg, kc, vc, EncodePair(cfg, kc, vc, pair).bytes + rest)
         == Parsed(pair, |EncodePair(cfg, kc, vc, pair).bytes|)
  {
    var ek := kc.enc(cfg, pair.0).bytes;
    var ev := vc.enc(cfg, pair.1).bytes;
    var s := EncodePair(cfg, kc, vc, pair).bytes + rest;
    assert s == ek + (ev + rest);
    DecodesEncoding(kc, cfg, pair.0, ev + rest);
    assert s[|ek|..] == ev + rest;
    DecodesEncoding(vc, cfg, pair.1, rest);
  }

  /** Decoding the encodings of a run of pairs inserts exactly those pairs, in order. */
  lemma {:induction false} DecodeEncodedPairs<K(!new), V(!new)>(cfg: Config, kc: Codec<K>, vc: Codec<V>, acc: map<K, V>, pairs: seq<(K, V)>, rest: seq<byte>)
    requires RoundTrips(kc) && RoundTrips(vc) && Bounded(kc) && Bounded(vc)
    requires EncodePairs(cfg, kc, vc, pairs).Done?
    ensures DecodeEntries(cfg, kc, vc, |pairs|, acc, EncodePairs(cfg, kc, vc, pairs).bytes + rest)
         == Parsed(InsertAll(acc, pairs), |EncodePairs(cfg, kc, vc, pairs).bytes|)
    decreases pairs
  {
    if pairs != [] {
      var ep := EncodePair(cfg, kc, vc, pairs[0]).bytes;
      var et := EncodePairs(cfg, kc, vc, pairs[1..]).bytes;
      var s := EncodePairs(cfg, kc, vc, pairs).bytes + rest;
      assert s == ep + (et + rest);
      PairRoundTrip(cfg, kc, vc, pairs[0], et + rest);
      assert s[|ep|..] == et + rest;
      DecodeEncodedPairs(cfg, kc, vc, acc[pairs[0].0 := pairs[0].1], pairs[1..], rest);
    }
  }

  /** Inserting the entries of m in the order `order` into acc overwrites exactly the keys
      listed, each with its value in m. */
  lemma {:induction false} InsertAllEntries<K, V>(acc: map<K, V>, m: map<K, V>, order: seq<K>)
    requires forall i :: 0 <= i < |order| ==> order[i] in m
    ensures forall k :: k in InsertAll(acc, Entries(m, order)) <==> k in acc || k in order
    ensures forall k :: k in order ==> InsertAll(acc, Entries(m, order))[k] == m[k]
    ensures forall k :: k in acc && k !in order ==> InsertAll(acc, Entries(m, order))[k] == acc[k]
    decreases order
  {
    if order != [] {
      var k0 := order[0];
      assert Entries(m, order)[1..] == Entries(m, order[1..]);
      InsertAllEntries(acc[k0 := m[k0]], m, order[1..]);
      forall k ensures k in order <==> k == k0 || k in order[1..] {
        assert order == [k0] + order[1..];
      }
    }
  }

  /** Inserting a table's entries, in any enumeration of its keys, into an empty table rebuilds it. */
  lemma RebuildFromEntries<K(!new), V>(m: map<K, V>, order: seq<K>)
    requires IsEnumeration(order, m)
    ensures InsertAll(map[], Entries(m, order)) == m
  {
    InsertAllEntries(map[], m, order);
    var r := InsertAll(map[], Entries(m, order));
    assert r.Keys == m.Keys;
  }

  /** extract_from's header: the count in front of the entries. */
  lemma DecodeMapHeader<K, V>(cfg: Config, kc: Codec<K>, vc: Codec<V>, n: u32, tail: seq<byte>)
    requires Bounded(kc) && Bounded(vc)
    ensures DecodeMap(cfg, kc, vc, LE(n, 4) + tail) == DecodeEntries(cfg, kc, vc, n, map[], tail).Shift(4)
  {
    Pow256Values();
    FixedRoundTrip(n, 4, tail);
    assert (LE(n, 4) + tail)[4..] == tail;
  }

  /** Round trip: for every iteration order the encoder may take, decoding its output restores
      the table and consumes exactly the encoding, provided the key and value codecs round-trip
      and the entry count fits the u32 it is written as. */
  lemma MapRoundTrip<K(!new), V(!new)>(cfg: Config, kc: Codec<K>, vc: Codec<V>, m: map<K, V>, order: seq<K>, rest: seq<byte>)
    requires RoundTrips(kc) && RoundTrips(vc) && Bounded(kc) && Bounded(vc)
    requires IsEnumeration(order, m) && |m| < TWO_TO_THE_32
    requires EncodeMap(cfg, kc, vc, m, order).Done?
    ensures DecodeMap(cfg, kc, vc, EncodeMap(cfg, kc, vc, m, order).bytes + rest)
         == Parsed(m, |EncodeMap(cfg, kc, vc, m, order).bytes|)
  {
    var pairs := Entries(m, order);
    var body := EncodePairs(cfg, kc, vc, pairs).bytes;
    EncodeMapParts(cfg, kc, vc, m, order);
    assert |m| % TWO_TO_THE_32 == |m|;
    assert EncodeMap(cfg, kc, vc, m, order).bytes + rest == LE(|m|, 4) + (body + rest);
    DecodeMapHeader(cfg, kc, vc, |m|, body + rest);
    DecodeEncodedPairs(cfg, kc, vc, map[], pairs, rest);
    RebuildFromEntries(m, order);
  }

  /** Repeated keys: the value a key ends up with is the one in its last pair. */
  lemma {:induction false} InsertAllLastWins<K, V>(acc: map<K, V>, pairs: seq<(K, V)>, i: nat)
    requires i < |pairs|
    requires forall j :: i < j < |pairs| ==> pairs[j].0 != pairs[i].0
    ensures pairs[i].0 in InsertAll(acc, pairs) && InsertAll(acc, pairs)[pairs[i].0] == pairs[i].1
    decreases pairs
  {
    if i == 0 {
      InsertAllKeepsAbsent(acc[pairs[0].0 := pairs[0].1], pairs[1..], pairs[0].0);
    } else {
      InsertAllLastWins(acc[pairs[0].0 := pairs[0].1], pairs[1..], i - 1);
    }
  }

  /** A key none of the pairs mentions keeps its value in acc. */
  lemma {:induction false} InsertAllKeepsAbsent<K, V>(acc: map<K, V>, pairs: seq<(K, V)>, k: K)
    requires k in acc
    requires forall j :: 0 <= j < |pairs| ==> pairs[j].0 != k
    ensures k in InsertAll(acc, pairs) && InsertAll(acc, pairs)[k] == acc[k]
    decreases pairs
  {
    if pairs != [] {
      InsertAllKeepsAbsent(acc[pairs[0].0 := pairs[0].1], pairs[1..], k);
    }
  }

  lemma SubsetOfSameSize<K>(a: set<K>, b: set<K>)
    requires a <= b && |a| == |b|
    ensures a == b
  {
    assert |b - a| == |b| - |a|;
  }

  /** When the value comparison is equality, equals holds exactly between equal tables. */
  lemma EqualsIsEquality<K, V>(a: map<K, V>, b: map<K, V>, veq: (V, V) -> bool)
    requires forall x, y :: veq(x, y) <==> x == y
    ensures Equals(a, Some(b), veq) <==> a == b
  {
    if Equals(a, Some(b), veq) {
      SubsetOfSameSize(a.Keys, b.Keys);
    }
  }

  /** A value that is not a table of this type compares unequal, without failing. */
  lemma EqualsOtherTypeIsFalse<K, V>(self: map<K, V>, veq: (V, V) -> bool)
    ensures !Equals(self, None, veq)
  {
  }

  /** Equality does not see insertion order: inserting two pairs with distinct keys in either
      order gives tables that compare equal, given a reflexive value comparison. */
  lemma EqualsIgnoresInsertionOrder<K, V>(m: map<K, V>, k1: K, v1: V, k2: K, v2: V, veq: (V, V) -> bool)
    requires k1 != k2
    requires forall x :: veq(x, x)
    ensures Equals(m[k1 := v1][k2 := v2], Some(m[k2 := v2][k1 := v1]), veq)
  {
    assert m[k1 := v1][k2 := v2] == m[k2 := v2][k1 := v1];
  }

  /** Writes one entry: the key's encoding, then, if that succeeded, the value's. */
  method WritePair<K, V>(w: Writer, kc: Codec<K>, vc: Codec<V>, k: K, v: V) returns (res: Result<()>)
    modifies w
    ensures w.buf == old(w.buf) + EncodePair(w.config, kc, vc, (k, v)).bytes
    ensures res == EncodePair(w.config, kc, vc, (k, v)).Status()
  {
    var ek := kc.enc(w.config, k);
    w.Write(ek.bytes);
    if ek.Aborted? {
      return Err(ek.err);
    }
    var ev := vc.enc(w.config, v);
    w.Write(ev.bytes);
    res := ev.Status();
  }

  /** Writes the entries one after the other, stopping at the first that fails. */
  method WritePairs<K, V>(w: Writer, kc: Codec<K>, vc: Codec<V>, pairs: seq<(K, V)>) returns (res: Result<()>)
    modifies w
    ensures w.buf == old(w.buf) + EncodePairs(w.config, kc, vc, pairs).bytes
    ensures res == EncodePairs(w.config, kc, vc, pairs).Status()
  {
    var i := 0;
    while i < |pairs|
      invariant 0 <= i <= |pairs|
      invariant EncodePairs(w.config, kc, vc, pairs[..i]).Done?
      invariant w.buf == old(w.buf) + EncodePairs(w.config, kc, vc, pairs[..i]).bytes
    {
      EncodePairsAt(w.config, kc, vc, pairs, i);
      var written := WritePair(w, kc, vc, pairs[i].0, pairs[i].1);
      if written.Err? {
        return written;
      }
      i := i + 1;
    }
    assert pairs[..|pairs|] == pairs;
    res := Ok(());
  }

  /** Reads one entry: the key, then, if that succeeded, the value. */
  method ReadPair<K, V>(r: Reader, kc: Codec<K>, vc: Codec<V>) returns (res: Result<(K, V)>)
    requires r.Valid() && Bounded(kc) && Bounded(vc)
    modifies r
    ensures r.Valid()
    ensures r.pos == old(r.pos) + DecodePair(r.config, kc, vc, old(r.Remaining())).used
    ensures res == DecodePair(r.config, kc, vc, old(r.Remaining())).ToResult()
  {
    ghost var s := r.Remaining();
    var cfg := r.config;
    var key := r.Decode(t => kc.dec(cfg, t));
    if key.Err? {
      return Err(key.err);
    }
    assert r.Remaining() == s[kc.dec(cfg, s).used..];
    var value := r.Decode(t => vc.dec(cfg, t));
    if value.Err? {
      return Err(value.err);
    }
    res := Ok((key.value, value.value));
  }

  /** Reads n entries in turn into a fresh table. */
  method ReadEntries<K, V>(r: Reader, kc: Codec<K>, vc: Codec<V>, n: nat) returns (res: Result<map<K, V>>)
    requires r.Valid() && Bounded(kc) && Bounded(vc)
    modifies r
    ensures r.Valid()
    ensures r.pos == old(r.pos) + DecodeEntries(r.config, kc, vc, n, map[], old(r.Remaining())).used
    ensures res == DecodeEntries(r.config, kc, vc, n, map[], old(r.Remaining())).ToResult()
  {
    ghost var s := r.Remaining();
    var extracted: map<K, V> := map[];
    var i := 0;
    while i < n
      invariant r.Valid() && 0 <= i <= n && old(r.pos) <= r.pos
      invariant DecodeEntries(r.config, kc, vc, n, map[], s)
             == DecodeEntries(r.config, kc, vc, n - i, extracted, r.Remaining()).Shift(r.pos - old(r.pos))
    {
      ghost var here := r.Remaining();
      var pair := ReadPair(r, kc, vc);
      if pair.Err? {
        DecodeEntriesNext(r.config, kc, vc, n - i, extracted, here);
        return Err(pair.err);
      }
      assert r.Remaining() == here[DecodePair(r.config, kc, vc, here).used..];
      DecodeEntriesNext(r.config, kc, vc, n - i, extracted, here);
      extracted := extracted[pair.value.0 := pair.value.1];
      i := i + 1;
    }
    res := Ok(extracted);
  }

  /** A table whose contents are replaced only once a whole decode has succeeded. */
  class Map<K(==), V> {
    var inner: map<K, V>

    constructor ()
      ensures inner == map[]
    {
      inner := map[];
    }

    /** insert: k maps to v afterwards and every other key is untouched. */
    method Insert(k: K, v: V)
      modifies this
      ensures k in inner && inner[k] == v
      ensures forall j :: j != k ==> (j in inner <==> j in old(inner))
      ensures forall j :: j != k && j in inner ==> inner[j] == old(inner)[j]
      ensures |old(inner)| <= |inner| <= |old(inner)| + 1
    {
      inner := inner[k := v];
    }

    function Len(): nat
      reads this
    {
      |inner|
    }

    function IsEmpty(): (b: bool)
      reads this
      ensures b <==> Len() == 0
      ensures b <==> inner == map[]
    {
      |inner| == 0
    }

    /** The table's iteration order, which nothing constrains beyond listing each key once. */
    method IterationOrder() returns (order: seq<K>)
      ensures IsEnumeration(order, inner)
    {
      order := [];
      var rest := inner.Keys;
      while rest != {}
        invariant rest <= inner.Keys
        invariant |order| + |rest| == |inner|
        invariant forall i :: 0 <= i < |order| ==> order[i] in inner && order[i] !in rest
        invariant forall k :: k in inner ==> k in rest || k in order
        decreases |rest|
      {
        var k :| k in rest;
        order := order + [k];
        rest := rest - {k};
      }
    }

    /** write_to: the entry count as a u32, then every entry in the table's iteration order,
        stopping at the first entry that fails to write. */
    method WriteTo(w: Writer, kc: Codec<K>, vc: Codec<V>) returns (res: Result<()>, ghost order: seq<K>)
      modifies w
      ensures IsEnumeration(order, inner)
      ensures w.buf == old(w.buf) + EncodeMap(w.config, kc, vc, inner, order).bytes
      ensures res == EncodeMap(w.config, kc, vc, inner, order).Status()
    {
      var keys := IterationOrder();
      order := keys;
      var entries := Entries(inner, keys);
      EncodeMapParts(w.config, kc, vc, inner, keys);
      Pow256Values();
      w.WriteU32(|inner| % TWO_TO_THE_32);
      res := WritePairs(w, kc, vc, entries);
    }

    /** extract_from: the count, then the entries into a fresh table that replaces this one's
        contents only when every entry was read. */
    method ExtractFrom(r: Reader, kc: Codec<K>, vc: Codec<V>) returns (res: Result<()>)
      requires r.Valid() && Bounded(kc) && Bounded(vc)
      modifies this, r
      ensures r.Valid()
      ensures r.pos == old(r.pos) + DecodeMap(r.config, kc, vc, old(r.Remaining())).used
      ensures res == DecodeMap(r.config, kc, vc, old(r.Remaining())).Status()
      ensures inner == if res.Ok? then DecodeMap(r.config, kc, vc, old(r.Remaining())).value else old(inner)
    {
      ghost var s := r.Remaining();
      var count := r.ReadU32();
      if count.Err? {
        return Err(count.err);
      }
      assert r.Remaining() == s[4..];
      var extracted := ReadEntries(r, kc, vc, count.value);
      if extracted.Err? {
        return Err(extracted.err);
      }
      inner := extracted.value;
      res := Ok(());
    }

    method Copy() returns (c: Map<K, V>)
      ensures fresh(c) && c.inner == inner
    {
      c := new Map();
      c.inner := inner;
    }
  }
}
