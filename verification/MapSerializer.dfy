/** The length-prefixed serialization of header maps (pkg/protocol/serialize/simple.go). */
module MapSerializer {
  import opened Bytes

  type Entry = (ByteString, ByteString)
  type Headers = map<ByteString, ByteString>

  predicate Fits(s: ByteString) {
    |s| < 0x1_0000_0000
  }

  function EncodeEntry(e: Entry): ByteString {
    PutUint32(|e.0|) + e.0 + (PutUint32(|e.1|) + e.1)
  }

  function EncodeEntries(es: seq<Entry>): ByteString {
    if es == [] then [] else EncodeEntries(es[..|es| - 1]) + EncodeEntry(es[|es| - 1])
  }

  // The entries put into an empty map one after the other.
  function AsMap(es: seq<Entry>): Headers {
    if es == [] then map[] else AsMap(es[..|es| - 1])[es[|es| - 1].0 := es[|es| - 1].1]
  }

  /** One iteration order of a map: every entry, once. */
  predicate Lists(es: seq<Entry>, m: Headers) {
    && (forall i, j :: 0 <= i < j < |es| ==> es[i].0 != es[j].0)
    && (forall i :: 0 <= i < |es| ==> es[i].0 in m && m[es[i].0] == es[i].1)
    && (forall k :: k in m ==> (k, m[k]) in es)
  }

  /** The outcome of decodeMap: the map, an error for a missing length, or a slice out of range.  The map filled so far
      is kept in the first two cases. */
  datatype Decoded = Ok(headers: Headers) | Short(headers: Headers) | OutOfRange

  // A length and that many bytes, from the front.
  datatype Piece = Piece(text: ByteString, rest: ByteString) | NoLength | TooLong

  function ReadPiece(b: ByteString): (r: Piece)
    ensures r.Piece? ==> |b| == 4 + |r.text| + |r.rest|
  {
    if |b| < 4 then NoLength
    else
      var length := Uint32(b[..4]);
      if 4 + length <= |b| then Piece(b[4..4 + length], b[4 + length..]) else TooLong
  }

  function DecodeInto(b: ByteString, acc: Headers): Decoded
    decreases |b|
  {
    if b == [] then Ok(acc)
    else
      var key := ReadPiece(b);
      if key.NoLength? then Short(acc)
      else if key.TooLong? then OutOfRange
      else
        var value := ReadPiece(key.rest);
        if value.NoLength? then Short(acc)
        else if value.TooLong? then OutOfRange
        else DecodeInto(value.rest, acc[key.text := value.text])
  }

  function Decode(b: ByteString): Decoded {
    DecodeInto(b, map[])
  }

  lemma ReadPieceOf(text: ByteString, rest: ByteString)
    requires Fits(text)
    ensures ReadPiece(PutUint32(|text|) + text + rest) == Piece(text, rest)
  {
    Uint32Put(|text|);
    var b := PutUint32(|text|) + text + rest;
    assert b[..4] == PutUint32(|text|);
    assert b[4..4 + |text|] == text && b[4 + |text|..] == rest;
  }

  // An entry on the wire: each of key and value after its length, in four bytes, most significant first.
  lemma EntryLayout(e: Entry)
    requires Fits(e.0) && Fits(e.1)
    ensures var b, n := EncodeEntry(e), 4 + |e.0|;
            && |b| == n + 4 + |e.1| && BigEndian(b[..4]) == |e.0| && b[4..n] == e.0 && BigEndian(b[n..n + 4]) == |e.1| && b[n + 4..] == e.1
  {
    hide PutUint32, Uint32, BigEndian;
    var b, n := EncodeEntry(e), 4 + |e.0|;
    assert b[..4] == PutUint32(|e.0|) && b[n..n + 4] == PutUint32(|e.1|);
    Uint32Put(|e.0|);
    Uint32Put(|e.1|);
    Uint32IsBigEndian(b[..4]);
    Uint32IsBigEndian(b[n..n + 4]);
  }

  predicate AllFit(es: seq<Entry>) {
    forall i :: 0 <= i < |es| ==> Fits(es[i].0) && Fits(es[i].1)
  }

  lemma {:induction false} EncodeCons(e: Entry, es: seq<Entry>)
    ensures EncodeEntries([e] + es) == EncodeEntry(e) + EncodeEntries(es)
  {
    hide EncodeEntry, EncodeEntries;
    NoEntries();
    if es == [] {
      assert [e] + es == [] + [e];
      EncodeSnoc([], e);
      assert [] + EncodeEntry(e) == EncodeEntry(e) + [];
    } else {
      var last := |es| - 1;
      var front, l := es[..last], es[last];
      EncodeCons(e, front);
      assert es == front + [l] && [e] + es == ([e] + front) + [l];
      EncodeSnoc(front, l);
      EncodeSnoc([e] + front, l);
      Regroup(EncodeEntry(e), EncodeEntries(front), EncodeEntry(l));
    }
  }

  lemma NoEntries()
    ensures EncodeEntries([]) == []
  {
  }

  lemma EncodeSnoc(es: seq<Entry>, e: Entry)
    ensures EncodeEntries(es + [e]) == EncodeEntries(es) + EncodeEntry(e)
  {
    hide EncodeEntry;
    assert (es + [e])[..|es|] == es;
  }

  lemma DecodeOne(e: Entry, tail: ByteString, acc: Headers)
    requires Fits(e.0) && Fits(e.1)
    ensures DecodeInto(EncodeEntry(e) + tail, acc) == DecodeInto(tail, acc[e.0 := e.1])
  {
    hide ReadPiece;
    var value := PutUint32(|e.1|) + e.1 + tail;
    ReadPieceOf(e.0, value);
    ReadPieceOf(e.1, tail);
    assert EncodeEntry(e) + tail == PutUint32(|e.0|) + e.0 + value;
  }

  // Decoding what was encoded, after anything that was decoded before.
  lemma {:induction false} DecodeEncoded(es: seq<Entry>, acc: Headers)
    requires AllFit(es)
    ensures DecodeInto(EncodeEntries(es), acc) == Ok(acc + AsMap(es))
    decreases |es|
  {
    hide EncodeEntry, ReadPiece;
    if es == [] {
      assert acc + map[] == acc;
    } else {
      var e, rest := es[0], es[1..];
      assert es == [e] + rest;
      EncodeCons(e, rest);
      DecodeOne(e, EncodeEntries(rest), acc);
      DecodeEncoded(rest, acc[e.0 := e.1]);
      AsMapCons(e, rest);
      assert acc[e.0 := e.1] + AsMap(rest) == acc + AsMap(es);
    }
  }

  // Whatever follows whole entries is decoded into their map.
  lemma {:induction false} DecodeAfter(es: seq<Entry>, tail: ByteString, acc: Headers)
    requires AllFit(es)
    ensures DecodeInto(EncodeEntries(es) + tail, acc) == DecodeInto(tail, acc + AsMap(es))
    decreases |es|
  {
    hide EncodeEntry, ReadPiece;
    if es == [] {
      assert acc + map[] == acc && [] + tail == tail;
    } else {
      var e, rest := es[0], es[1..];
      assert es == [e] + rest;
      EncodeCons(e, rest);
      Regroup(EncodeEntry(e), EncodeEntries(rest), tail);
      hide EncodeEntries, DecodeInto;
      DecodeOne(e, EncodeEntries(rest) + tail, acc);
      DecodeAfter(rest, tail, acc[e.0 := e.1]);
      AsMapCons(e, rest);
      assert acc[e.0 := e.1] + AsMap(rest) == acc + AsMap(es);
    }
  }

  /** The two failures, after any whole entries.  Bytes that end inside a length are reported and the entries are kept; a
      length that reaches beyond the end is out of range.  Either may happen at a key or, after a whole key, at its value. */
  lemma DecodeFaults(es: seq<Entry>, key: ByteString, tail: ByteString)
    requires AllFit(es) && Fits(key)
    ensures var whole, half := EncodeEntries(es), PutUint32(|key|) + key;
            && (0 < |tail| < 4 ==> Decode(whole + tail) == Short(AsMap(es)))
            && (|tail| < 4 ==> Decode(whole + (half + tail)) == Short(AsMap(es)))
            && (|tail| >= 4 && BigEndian(tail[..4]) > |tail| - 4 ==>
                  Decode(whole + tail) == OutOfRange && Decode(whole + (half + tail)) == OutOfRange)
  {
    DecodeAfter(es, tail, map[]);
    DecodeAfter(es, PutUint32(|key|) + key + tail, map[]);
    ReadPieceOf(key, tail);
    if |tail| >= 4 { Uint32IsBigEndian(tail[..4]); }
    assert map[] + AsMap(es) == AsMap(es);
    hide EncodeEntries, AsMap, BigEndian, Uint32, PutUint32;
  }

  lemma {:induction false} AsMapCons(e: Entry, es: seq<Entry>)
    ensures AsMap([e] + es) == map[e.0 := e.1] + AsMap(es)
  {
    if es == [] {
      assert ([e] + es)[..0] == [];
    } else {
      var last := |es| - 1;
      AsMapCons(e, es[..last]);
      assert ([e] + es)[..|es|] == [e] + es[..last];
    }
  }

  lemma {:induction false} AsMapLists(es: seq<Entry>, m: Headers)
    requires Lists(es, m)
    ensures AsMap(es) == m
  {
    AsMapEntries(es);
    forall k | k in m ensures k in AsMap(es) { assert (k, m[k]) in es; }
  }

  lemma {:induction false} AsMapEntries(es: seq<Entry>)
    requires forall i, j :: 0 <= i < j < |es| ==> es[i].0 != es[j].0
    ensures forall i :: 0 <= i < |es| ==> es[i].0 in AsMap(es) && AsMap(es)[es[i].0] == es[i].1
    ensures forall k :: k in AsMap(es) ==> exists i :: 0 <= i < |es| && es[i].0 == k
  {
    if es != [] { AsMapEntries(es[..|es| - 1]); }
  }

  /** Round trip, for every iteration order. */
  lemma RoundTrip(es: seq<Entry>, m: Headers)
    requires Lists(es, m) && AllFit(es)
    ensures Decode(EncodeEntries(es)) == Ok(m)
  {
    AsMapLists(es, m);
    DecodeEncoded(es, map[]);
    assert map[] + m == m;
  }

  // Equal encodings come only from equal maps.
  lemma EncodingInjective(es: seq<Entry>, m: Headers, es': seq<Entry>, m': Headers)
    requires Lists(es, m) && AllFit(es) && Lists(es', m') && AllFit(es')
    requires EncodeEntries(es) == EncodeEntries(es')
    ensures m == m'
  {
    RoundTrip(es, m);
    RoundTrip(es', m');
  }

  // encodeMap: Go ranges over a map in any order.
  method EncodeMap(m: Headers) returns (buf: ByteString)
    ensures exists es :: Lists(es, m) && buf == EncodeEntries(es)
    ensures (forall k :: k in m ==> Fits(k) && Fits(m[k])) ==> Decode(buf) == Ok(m)
  {
    hide EncodeEntry, DecodeInto;
    ghost var es: seq<Entry> := [];
    buf := [];
    var rest := m.Keys;
    while rest != {}
      invariant rest <= m.Keys && buf == EncodeEntries(es)
      invariant forall i, j :: 0 <= i < j < |es| ==> es[i].0 != es[j].0
      invariant forall i :: 0 <= i < |es| ==> es[i].0 in m.Keys - rest && m[es[i].0] == es[i].1
      invariant forall k :: k in m.Keys - rest ==> (k, m[k]) in es
      decreases rest
    {
      var key :| key in rest;
      rest := rest - {key};
      buf := buf + EncodeEntry((key, m[key]));
      es := es + [(key, m[key])];
      assert es[..|es| - 1] + [(key, m[key])] == es;
    }
    assert Lists(es, m);
    if forall k :: k in m ==> Fits(k) && Fits(m[k]) { RoundTrip(es, m); }
  }

  /** decodeMap on a slice whose backing array goes on with the spare bytes.  A key that runs over the end panics at the
      next length, but a last value may run on into the spare bytes. */
  function DecodeWithin(b: ByteString, spare: ByteString, acc: Headers): Decoded
    decreases |b|
  {
    if b == [] then Ok(acc)
    else
      var key := ReadPiece(b);
      if key.NoLength? then Short(acc)
      else if key.TooLong? then OutOfRange
      else
        var value := ReadPiece(key.rest);
        if value.NoLength? then Short(acc)
        else if value.Piece? then DecodeWithin(value.rest, spare, acc[key.text := value.text])
        else
          var end := 4 + Uint32(key.rest[..4]);
          if end <= |key.rest + spare| then Ok(acc[key.text := (key.rest + spare)[4..end]]) else OutOfRange
  }

  // The spare bytes matter only where the slice itself runs out.
  lemma {:induction false} SpareMatters(b: ByteString, spare: ByteString, acc: Headers)
    ensures spare == [] || !DecodeInto(b, acc).OutOfRange? ==> DecodeWithin(b, spare, acc) == DecodeInto(b, acc)
    decreases |b|
  {
    var key := ReadPiece(b);
    if b != [] && key.Piece? && ReadPiece(key.rest).Piece? {
      SpareMatters(ReadPiece(key.rest).rest, spare, acc[key.text := ReadPiece(key.rest).text]);
    }
  }

  // decodeMap, into a map that may already hold entries.
  method DecodeMap(b: ByteString, spare: ByteString, result: Headers) returns (r: Decoded)
    ensures r == DecodeWithin(b, spare, result)
  {
    var headers := result;
    var index := 0;
    while index < |b|
      invariant 0 <= index <= |b| && DecodeWithin(b, spare, result) == DecodeWithin(b[index..], spare, headers)
    {
      var key := ReadPiece(b[index..]);
      if key.NoLength? {
        return Short(headers);
      }
      if key.TooLong? {
        return OutOfRange;
      }
      index := index + 4 + |key.text|;
      assert key.rest == b[index..];
      var value := ReadPiece(b[index..]);
      if value.NoLength? {
        return Short(headers);
      }
      if value.TooLong? {
        var end := 4 + Uint32(b[index..][..4]);
        var backing := b[index..] + spare;
        return if end <= |backing| then Ok(headers[key.text := backing[4..end]]) else OutOfRange;
      }
      index := index + 4 + |value.text|;
      assert value.rest == b[index..];
      headers := headers[key.text := value.text];
    }
    return Ok(headers);
  }

  // A decoded buffer is the encoding of the entries read from it, in order.
  lemma {:induction false} DecodedEntries(b: ByteString, acc: Headers) returns (es: seq<Entry>)
    requires DecodeInto(b, acc).Ok?
    ensures EncodeEntries(es) == b && AllFit(es) && DecodeInto(b, acc) == Ok(acc + AsMap(es))
    decreases |b|
  {
    hide EncodeEntry, ReadPiece;
    if b == [] {
      es := [];
      assert acc + AsMap([]) == acc;
    } else {
      var e, tail := FirstEntry(b, acc);
      var rest := DecodedEntries(tail, acc[e.0 := e.1]);
      es := [e] + rest;
      EncodeCons(e, rest);
      AsMapCons(e, rest);
      assert acc[e.0 := e.1] + AsMap(rest) == acc + AsMap(es);
    }
  }

  lemma FirstEntry(b: ByteString, acc: Headers) returns (e: Entry, tail: ByteString)
    requires b != [] && DecodeInto(b, acc).Ok?
    ensures b == EncodeEntry(e) + tail && Fits(e.0) && Fits(e.1) && |tail| < |b|
    ensures DecodeInto(b, acc) == DecodeInto(tail, acc[e.0 := e.1])
  {
    hide EncodeEntry;
    var key := ReadPiece(b);
    var value := ReadPiece(key.rest);
    e, tail := (key.text, value.text), value.rest;
    PieceBytes(b);
    PieceBytes(key.rest);
    EncodeTwo(e, tail);
  }

  lemma EncodeTwo(e: Entry, tail: ByteString)
    ensures EncodeEntry(e) + tail == PutUint32(|e.0|) + e.0 + (PutUint32(|e.1|) + e.1 + tail)
  {
  }

  lemma PieceBytes(b: ByteString)
    requires ReadPiece(b).Piece?
    ensures b == PutUint32(|ReadPiece(b).text|) + ReadPiece(b).text + ReadPiece(b).rest && Fits(ReadPiece(b).text)
  {
    PutUint32Of(b[..4]);
  }

  // An encoding of part of a map is no longer than any sequence of entries that built the map.
  lemma {:induction false} EncodingNotLonger(es: seq<Entry>, part: seq<Entry>)
    requires forall i, j :: 0 <= i < j < |part| ==> part[i].0 != part[j].0
    requires forall i :: 0 <= i < |part| ==> part[i].0 in AsMap(es) && AsMap(es)[part[i].0] == part[i].1
    ensures |EncodeEntries(part)| <= |EncodeEntries(es)|
    decreases |es|
  {
    hide EncodeEntry;
    if es != [] {
      var last := |es| - 1;
      var e := es[last];
      if i :| 0 <= i < |part| && part[i].0 == e.0 {
        var less := part[..i] + part[i + 1..];
        RemoveEntry(part, i);
        EncodingNotLonger(es[..last], less);
      } else {
        EncodingNotLonger(es[..last], part);
      }
    }
  }

  lemma {:induction false} RemoveEntry(es: seq<Entry>, i: nat)
    requires i < |es|
    ensures |EncodeEntries(es)| == |EncodeEntries(es[..i] + es[i + 1..])| + |EncodeEntry(es[i])|
  {
    hide EncodeEntry;
    var last := |es| - 1;
    var less := es[..i] + es[i + 1..];
    if i == last {
      assert less == es[..last];
    } else {
      assert less[..|less| - 1] == es[..last][..i] + es[..last][i + 1..];
      RemoveEntry(es[..last], i);
    }
  }
}
