/** Records inside a batch payload (section 5.3.2 of the Apache Kafka documentation). */
module Records {
  import opened Bytes
  import opened Varint

  /** Well-formed UTF-8, table 3-7 of the Unicode standard: what `String::from_utf8` accepts. */
  predicate IsUtf8(s: bytes) {
    s == [] || (var n := ScalarLength(s); n > 0 && IsUtf8(s[n..]))
  }

  predicate Continues(s: bytes, k: nat) { k < |s| && 0x80 <= s[k] <= 0xBF }

  function ScalarLength(s: bytes): (n: nat)
    requires s != []
    ensures n <= |s|
  {
    var b := s[0];
    if b <= 0x7F then 1
    else if 0xC2 <= b <= 0xDF && Continues(s, 1) then 2
    else if 0xE0 <= b <= 0xEF && Continues(s, 1) && Continues(s, 2)
            && (b == 0xE0 ==> s[1] >= 0xA0) && (b == 0xED ==> s[1] <= 0x9F) then 3
    else if 0xF0 <= b <= 0xF4 && Continues(s, 1) && Continues(s, 2) && Continues(s, 3)
            && (b == 0xF0 ==> s[1] >= 0x90) && (b == 0xF4 ==> s[1] <= 0x8F) then 4
    else 0
  }

  type utf8 = s: bytes | IsUtf8(s) witness []

  datatype Header = Header(key: utf8, value: bytes)

  datatype Record = Record(offset: i64, timestamp: i64, key: Option<bytes>, value: Option<bytes>,
                           headers: seq<Header>)

  // ---------- encoding ----------

  function Sized(b: bytes): bytes { WriteSigned(WrapI64(|b|)) + b }

  function EncodeNullable(b: Option<bytes>): bytes {
    if b.Some? then Sized(b.value) else WriteSigned(-1)
  }

  function EncodeHeaders(hs: seq<Header>): bytes {
    if hs == [] then [] else Sized(hs[0].key) + Sized(hs[0].value) + EncodeHeaders(hs[1..])
  }

  /** The body of a record whose offset and timestamp are deltas. */
  function EncodeBody(r: Record): (s: bytes)
    ensures s != []
  {
    [0] + WriteSigned(r.timestamp) + WriteSigned(r.offset) + EncodeNullable(r.key) + EncodeNullable(r.value)
    + WriteSigned(WrapI64(|r.headers|)) + EncodeHeaders(r.headers)
  }

  function EncodeRecords(rs: seq<Record>): bytes {
    if rs == [] then [] else Sized(EncodeBody(rs[0])) + EncodeRecords(rs[1..])
  }

  // ---------- parsing ----------

  /** A varint off the front of the payload, or the error that ends the parse. */
  function Next(s: bytes): (r: Result<(i64, bytes)>)
    ensures r.Ok? ==> |r.value.1| < |s|
  {
    ReadConsumes(s);
    match ReadSigned(s)
    case (Ok(v), rest) => Ok((v, rest))
    case (Err(e), _) => Err(e)
  }

  /** A length-prefixed field; a negative length is null. */
  function ParseNullable(s: bytes, what: string): (r: Result<(Option<bytes>, bytes)>)
    ensures r.Ok? ==> |r.value.1| < |s|
  {
    var (len, p) :- Next(s);
    if len < 0 then Ok((None, p))
    else if |p| < len then Err(what)
    else Ok((Some(p[..len]), p[len..]))
  }

  function ParseHeaders(s: bytes, n: int): (r: Result<(seq<Header>, bytes)>)
    ensures r.Ok? ==> |r.value.1| <= |s|
    decreases |s|
  {
    if n <= 0 then Ok(([], s))
    else
      var (key, p) :- ParseNullable(s, "Truncated header key");
      if key.None? then Err("Truncated header key")
      else if !IsUtf8(key.value) then Err("Invalid header key UTF-8")
      else
        var (value, q) :- ParseNullable(p, "Truncated header value");
        var header := Header(key.value, if value.Some? then value.value else []);
        var (rest, t) :- ParseHeaders(q, n - 1);
        Ok(([header] + rest, t))
  }

  /** A record body; offset and timestamp of the result are deltas. */
  function ParseBody(s: bytes): (r: Result<(Record, bytes)>)
    ensures r.Ok? ==> |r.value.1| <= |s|
  {
    var (ts, p1) :- Next(s);
    var (off, p2) :- Next(p1);
    var (key, p3) :- ParseNullable(p2, "Truncated record key");
    var (value, p4) :- ParseNullable(p3, "Truncated record value");
    var (count, p5) :- Next(p4);
    var (headers, p6) :- ParseHeaders(p5, count);
    Ok((Record(off, ts, key, value, headers), p6))
  }

  /** Up to `n` records, in deltas. */
  function ParseRecords(s: bytes, n: int): Result<seq<Record>>
    decreases |s|
  {
    if n <= 0 || s == [] then Ok([])
    else
      var (_, p) :- Next(s);
      if p == [] then Ok([])
      else
        var (r, q) :- ParseBody(p[1..]);
        var rest :- ParseRecords(q, n - 1);
        Ok([r] + rest)
  }

  // ---------- deltas ----------

  function Absolute(d: Record, offset: i64, timestamp: i64): Record {
    d.(offset := WrapI64(offset + d.offset), timestamp := WrapI64(timestamp + d.timestamp))
  }

  function Delta(r: Record, offset: i64, timestamp: i64): Record {
    r.(offset := WrapI64(r.offset - offset), timestamp := WrapI64(r.timestamp - timestamp))
  }

  /** Deltas against a batch's base offset and timestamp, made absolute; 64-bit sums wrap. */
  function At(offset: i64, timestamp: i64, ds: seq<Record>): (out: seq<Record>)
    ensures |out| == |ds|
    ensures forall i :: 0 <= i < |ds| ==> out[i] == Absolute(ds[i], offset, timestamp)
  {
    if ds == [] then [] else [Absolute(ds[0], offset, timestamp)] + At(offset, timestamp, ds[1..])
  }

  function Deltas(offset: i64, timestamp: i64, rs: seq<Record>): (out: seq<Record>)
    ensures |out| == |rs|
    ensures forall i :: 0 <= i < |rs| ==> out[i] == Delta(rs[i], offset, timestamp)
  {
    if rs == [] then [] else [Delta(rs[0], offset, timestamp)] + Deltas(offset, timestamp, rs[1..])
  }

  lemma AtOfDeltas(offset: i64, timestamp: i64, rs: seq<Record>)
    ensures At(offset, timestamp, Deltas(offset, timestamp, rs)) == rs
  {
    forall i | 0 <= i < |rs|
      ensures At(offset, timestamp, Deltas(offset, timestamp, rs))[i] == rs[i]
    {
      WrapCancels(rs[i].offset, offset);
      WrapCancels(rs[i].timestamp, timestamp);
    }
  }

  lemma WrapCancels(x: i64, base: i64)
    ensures WrapI64(base + WrapI64(x - base)) == x
  {
  }

  // ---------- round trip ----------

  lemma NextRoundTrip(v: i64, t: bytes)
    ensures Next(WriteSigned(v) + t) == Ok((v, t))
  {
    ReadAfterWriteSigned(v, t);
  }

  lemma PresentField(s: bytes, b: bytes, t: bytes, what: string)
    requires Next(s) == Ok((|b|, b + t))
    ensures ParseNullable(s, what) == Ok((Some(b), t))
  {
    assert (b + t)[..|b|] == b && (b + t)[|b|..] == t;
  }

  lemma SizedLayout(b: bytes, t: bytes)
    requires |b| <= I64_MAX
    ensures Sized(b) + t == WriteSigned(|b|) + (b + t)
  {
    Assoc3(WriteSigned(|b|), b, t);
  }

  lemma Assoc3(a: bytes, b: bytes, c: bytes)
    ensures a + b + c == a + (b + c)
  {
  }

  lemma SizedRoundTrip(b: bytes, t: bytes, what: string)
    requires |b| <= I64_MAX
    ensures ParseNullable(Sized(b) + t, what) == Ok((Some(b), t))
  {
    SizedLayout(b, t);
    NextRoundTrip(|b|, b + t);
    PresentField(Sized(b) + t, b, t, what);
  }

  lemma NullableRoundTrip(b: Option<bytes>, t: bytes, what: string)
    requires b.Some? ==> |b.value| <= I64_MAX
    ensures ParseNullable(EncodeNullable(b) + t, what) == Ok((b, t))
  {
    if b.Some? {
      SizedRoundTrip(b.value, t, what);
    } else {
      NextRoundTrip(-1, t);
    }
  }

  lemma ParseHeadersStep(s: bytes, n: nat, h: Header, p: bytes, q: bytes, rest: seq<Header>, t: bytes)
    requires n > 0
    requires ParseNullable(s, "Truncated header key") == Ok((Some(h.key), p))
    requires ParseNullable(p, "Truncated header value") == Ok((Some(h.value), q))
    requires ParseHeaders(q, n - 1) == Ok((rest, t))
    ensures ParseHeaders(s, n) == Ok(([h] + rest, t))
  {
  }

  lemma {:induction false} HeadersRoundTrip(hs: seq<Header>, t: bytes)
    requires |EncodeHeaders(hs)| <= I64_MAX
    ensures ParseHeaders(EncodeHeaders(hs) + t, |hs|) == Ok((hs, t))
    ensures |hs| <= |EncodeHeaders(hs)|
  {
    hide ParseNullable, WriteSigned;
    if hs == [] {
      assert EncodeHeaders(hs) + t == t;
    } else {
      var h := hs[0];
      var tail := EncodeHeaders(hs[1..]);
      var q := tail + t;
      var p := Sized(h.value) + q;
      HeadersLayout(Sized(h.key), Sized(h.value), tail, t);
      assert |h.key| <= |Sized(h.key)| && |h.value| <= |Sized(h.value)|;
      SizedRoundTrip(h.key, p, "Truncated header key");
      SizedRoundTrip(h.value, q, "Truncated header value");
      HeadersRoundTrip(hs[1..], t);
      ParseHeadersStep(EncodeHeaders(hs) + t, |hs|, h, p, q, hs[1..], t);
      assert [h] + hs[1..] == hs;
    }
  }

  lemma HeadersLayout(a: bytes, b: bytes, c: bytes, t: bytes)
    ensures a + b + c + t == a + (b + (c + t))
  {
  }

  lemma ParseBodySteps(s: bytes, r: Record, p1: bytes, p2: bytes, p3: bytes, p4: bytes, p5: bytes, p6: bytes)
    requires Next(s) == Ok((r.timestamp, p1)) && Next(p1) == Ok((r.offset, p2))
    requires ParseNullable(p2, "Truncated record key") == Ok((r.key, p3))
    requires ParseNullable(p3, "Truncated record value") == Ok((r.value, p4))
    requires Next(p4) == Ok((|r.headers|, p5)) && ParseHeaders(p5, |r.headers|) == Ok((r.headers, p6))
    ensures ParseBody(s) == Ok((r, p6))
  {
  }

  lemma BodyLayout(a: bytes, b: bytes, c: bytes, d: bytes, e: bytes, f: bytes, t: bytes)
    ensures ([0] + a + b + c + d + e + f)[1..] + t == a + (b + (c + (d + (e + (f + t)))))
  {
  }

  lemma FieldFits(b: Option<bytes>)
    ensures b.Some? ==> |b.value| <= |EncodeNullable(b)|
  {
  }

  lemma BodyRoundTrip(r: Record, t: bytes)
    requires |EncodeBody(r)| <= I64_MAX
    ensures ParseBody(EncodeBody(r)[1..] + t) == Ok((r, t))
  {
    var key, value, hs := EncodeNullable(r.key), EncodeNullable(r.value), EncodeHeaders(r.headers);
    var count := WrapI64(|r.headers|);
    var p5 := hs + t;
    var p4 := WriteSigned(count) + p5;
    var p3 := value + p4;
    var p2 := key + p3;
    var p1 := WriteSigned(r.offset) + p2;
    BodyLayout(WriteSigned(r.timestamp), WriteSigned(r.offset), key, value, WriteSigned(count), hs, t);
    NextRoundTrip(r.timestamp, p1);
    NextRoundTrip(r.offset, p2);
    FieldFits(r.key);
    NullableRoundTrip(r.key, p3, "Truncated record key");
    FieldFits(r.value);
    NullableRoundTrip(r.value, p4, "Truncated record value");
    HeadersRoundTrip(r.headers, t);
    NextRoundTrip(count, p5);
    ParseBodySteps(WriteSigned(r.timestamp) + p1, r, p1, p2, p3, p4, p5, t);
  }

  lemma ParseRecordsStep(s: bytes, n: nat, len: i64, p: bytes, r: Record, q: bytes, rest: seq<Record>)
    requires n > 0 && s != [] && p != []
    requires Next(s) == Ok((len, p)) && ParseBody(p[1..]) == Ok((r, q)) && ParseRecords(q, n - 1) == Ok(rest)
    ensures ParseRecords(s, n) == Ok([r] + rest)
  {
  }

  lemma {:induction false} RecordsRoundTrip(rs: seq<Record>)
    requires |EncodeRecords(rs)| <= I64_MAX
    ensures ParseRecords(EncodeRecords(rs), |rs|) == Ok(rs)
    ensures |rs| <= |EncodeRecords(rs)|
  {
    hide EncodeBody, ParseBody, Next, WriteSigned;
    if rs != [] {
      var body, rest := EncodeBody(rs[0]), EncodeRecords(rs[1..]);
      var p := body + rest;
      SizedLayout(body, rest);
      NextRoundTrip(|body|, p);
      assert p[1..] == body[1..] + rest;
      BodyRoundTrip(rs[0], rest);
      RecordsRoundTrip(rs[1..]);
      ParseRecordsStep(EncodeRecords(rs), |rs|, |body|, p, rs[0], rest, rs[1..]);
      assert [rs[0]] + rs[1..] == rs;
    }
  }

  /** The announced number decides how many are read, whatever follows them; fewer are read only if there are fewer. */
  lemma {:induction false} ParsesAnnounced(rs: seq<Record>, n: int, t: bytes)
    requires |EncodeRecords(rs)| <= I64_MAX
    ensures n <= |rs| ==> ParseRecords(EncodeRecords(rs) + t, n) == Ok(rs[..if n > 0 then n else 0])
    ensures n >= |rs| && t == [] ==> ParseRecords(EncodeRecords(rs) + t, n) == Ok(rs)
  {
    hide ParseRecords, EncodeRecords;
    if n <= 0 || rs == [] {
      NoneAnnounced(n, rs, t);
    } else {
      RestIsShorter(rs);
      ParsesAnnounced(rs[1..], n - 1, t);
      var m := if n <= |rs| then n else |rs|;
      if n <= |rs| || t == [] {
        assert rs[1..][..m - 1] == rs[1..m] && rs[1..|rs|] == rs[1..] && rs[..|rs|] == rs;
        AnnouncedStep(rs, n, t, rs[1..m]);
        assert [rs[0]] + rs[1..m] == rs[..m];
      }
    }
  }

  lemma NoneAnnounced(n: int, rs: seq<Record>, t: bytes)
    requires n <= 0 || rs == []
    ensures n <= 0 ==> ParseRecords(EncodeRecords(rs) + t, n) == Ok([])
    ensures rs == [] && t == [] ==> ParseRecords(EncodeRecords(rs) + t, n) == Ok([])
  {
  }

  lemma AnnouncedStep(rs: seq<Record>, n: int, t: bytes, more: seq<Record>)
    requires rs != [] && n > 0 && |EncodeRecords(rs)| <= I64_MAX
    requires ParseRecords(EncodeRecords(rs[1..]) + t, n - 1) == Ok(more)
    ensures ParseRecords(EncodeRecords(rs) + t, n) == Ok([rs[0]] + more)
  {
    hide EncodeBody, ParseBody, Next, WriteSigned, ParseRecords;
    var body, rest := EncodeBody(rs[0]), EncodeRecords(rs[1..]) + t;
    var p := body + rest;
    Assoc3(Sized(body), EncodeRecords(rs[1..]), t);
    SizedLayout(body, rest);
    NextRoundTrip(|body|, p);
    assert p[1..] == body[1..] + rest;
    BodyRoundTrip(rs[0], rest);
    ParseRecordsStep(EncodeRecords(rs) + t, n, |body|, p, rs[0], rest, more);
  }

  lemma RestIsShorter(rs: seq<Record>)
    requires rs != []
    ensures |EncodeRecords(rs[1..])| <= |EncodeRecords(rs)|
  {
    hide EncodeBody, WriteSigned;
  }

  /** A negative length is null, one beyond the end an error. */
  lemma OddLengths(len: i64, t: bytes, what: string)
    ensures len < 0 ==> ParseNullable(WriteSigned(len) + t, what) == Ok((None, t))
    ensures len > |t| ==> ParseNullable(WriteSigned(len) + t, what) == Err(what)
  {
    hide Next, WriteSigned;
    NextRoundTrip(len, t);
  }

  /** A header may have a null value, which reads as an empty one, but no null key. */
  lemma NullHeaders(key: utf8, len: i64, t: bytes)
    requires len < 0 && |key| <= I64_MAX
    ensures ParseHeaders(Sized(key) + (WriteSigned(len) + t), 1) == Ok(([Header(key, [])], t))
    ensures ParseHeaders(WriteSigned(len) + t, 1) == Err("Truncated header key")
  {
    hide ParseNullable, WriteSigned, Sized;
    SizedRoundTrip(key, WriteSigned(len) + t, "Truncated header key");
    OddLengths(len, t, "Truncated header value");
    OddLengths(len, t, "Truncated header key");
    var none: seq<Header> := [];
    assert [Header(key, [])] + none == [Header(key, [])] && ParseHeaders(t, 0) == Ok((none, t));
  }

  // ---------- the loops ----------

  function Prepend<T>(front: seq<T>, r: Result<seq<T>>): Result<seq<T>> {
    if r.Ok? then Ok(front + r.value) else r
  }

  function Parsed(r: Result<seq<Record>>, offset: i64, timestamp: i64): Result<seq<Record>> {
    if r.Ok? then Ok(At(offset, timestamp, r.value)) else r
  }

  method ParsePayload(payload: bytes, numRecords: i32, baseOffset: i64, baseTimestamp: i64)
    returns (r: Result<seq<Record>>)
    ensures r == Parsed(ParseRecords(payload, numRecords), baseOffset, baseTimestamp)
  {
    hide Next, ParseBody;
    var records: seq<Record> := [];
    ghost var deltas: seq<Record> := [];
    var p := payload;
    var i := 0;
    PrependEmpty(deltas, ParseRecords(p, numRecords));
    while i < numRecords && p != []
      invariant 0 <= i && (i <= numRecords || i == 0)
      invariant records == At(baseOffset, baseTimestamp, deltas)
      invariant Prepend(deltas, ParseRecords(p, numRecords - i)) == ParseRecords(payload, numRecords)
      decreases numRecords - i
    {
      var len := Next(p);
      if len.Err? { return Err(len.error); }
      var body := len.value.1;
      if body == [] { break; }
      var parsed := ParseBody(body[1..]);
      if parsed.Err? { return Err(parsed.error); }
      var d, q := parsed.value.0, parsed.value.1;
      AtAppend(baseOffset, baseTimestamp, deltas, d);
      PrependAssoc(deltas, d, ParseRecords(q, numRecords - i - 1));
      records := records + [Absolute(d, baseOffset, baseTimestamp)];
      deltas := deltas + [d];
      p := q;
      i := i + 1;
    }
    PrependEmpty(deltas, Ok([]));
    return Ok(records);
  }

  lemma PrependEmpty<T>(front: seq<T>, r: Result<seq<T>>)
    ensures Prepend([], r) == r && Prepend(front, Ok([])) == Ok(front)
  {
    assert front + [] == front;
    if r.Ok? { assert [] + r.value == r.value; }
  }

  lemma AtAppend(offset: i64, timestamp: i64, ds: seq<Record>, d: Record)
    ensures At(offset, timestamp, ds + [d]) == At(offset, timestamp, ds) + [Absolute(d, offset, timestamp)]
  {
  }

  lemma PrependAssoc<T>(front: seq<T>, x: T, r: Result<seq<T>>)
    ensures Prepend(front, Prepend([x], r)) == Prepend(front + [x], r)
  {
    if r.Ok? { assert front + ([x] + r.value) == front + [x] + r.value; }
  }

  /** The encoder's record loop: the payload and the largest timestamp. */
  method EncodePayload(rs: seq<Record>, baseOffset: i64, baseTimestamp: i64)
    returns (payload: bytes, maxTimestamp: i64)
    ensures payload == EncodeRecords(Deltas(baseOffset, baseTimestamp, rs))
    ensures maxTimestamp == MaxTimestamp(rs, baseTimestamp)
  {
    hide EncodeBody, EncodeRecords, Deltas, Delta, WriteSigned;
    payload := [];
    assert rs[0..] == rs;
    maxTimestamp := baseTimestamp;
    for i := 0 to |rs|
      invariant payload + EncodeRecords(Deltas(baseOffset, baseTimestamp, rs[i..]))
             == EncodeRecords(Deltas(baseOffset, baseTimestamp, rs))
      invariant MaxTimestamp(rs[i..], maxTimestamp) == MaxTimestamp(rs, baseTimestamp)
    {
      var r := rs[i];
      assert rs[i..][0] == r && rs[i..][1..] == rs[i + 1..];
      maxTimestamp := if r.timestamp > maxTimestamp then r.timestamp else maxTimestamp;
      var body := EncodeBody(Delta(r, baseOffset, baseTimestamp));
      EncodeStep(rs[i..], baseOffset, baseTimestamp);
      Assoc3(payload, Sized(body), EncodeRecords(Deltas(baseOffset, baseTimestamp, rs[i + 1..])));
      payload := payload + Sized(body);
    }
    EncodeNone(baseOffset, baseTimestamp);
    assert payload + [] == payload;
  }

  lemma EncodeStep(rs: seq<Record>, offset: i64, timestamp: i64)
    requires rs != []
    ensures EncodeRecords(Deltas(offset, timestamp, rs))
         == Sized(EncodeBody(Delta(rs[0], offset, timestamp))) + EncodeRecords(Deltas(offset, timestamp, rs[1..]))
  {
    hide EncodeBody, WriteSigned, WrapI64;
    assert Deltas(offset, timestamp, rs)[1..] == Deltas(offset, timestamp, rs[1..]);
  }

  lemma EncodeNone(offset: i64, timestamp: i64)
    ensures EncodeRecords(Deltas(offset, timestamp, [])) == []
  {
  }

  function MaxTimestamp(rs: seq<Record>, start: i64): (m: i64)
    ensures m >= start && forall r :: r in rs ==> m >= r.timestamp
    ensures m == start || exists r :: r in rs && m == r.timestamp
  {
    if rs == [] then start
    else
      assert rs == [rs[0]] + rs[1..];
      MaxTimestamp(rs[1..], if rs[0].timestamp > start then rs[0].timestamp else start)
  }

  // ---------- order ----------

  /** Records and headers are written one behind the other, in order. */
  lemma {:induction false} EncodesInOrder(a: seq<Record>, b: seq<Record>)
    ensures EncodeRecords(a + b) == EncodeRecords(a) + EncodeRecords(b)
  {
    hide EncodeBody, Sized;
    if a == [] {
      assert a + b == b;
    } else {
      EncodesInOrder(a[1..], b);
      assert (a + b)[1..] == a[1..] + b;
      Assoc3(Sized(EncodeBody(a[0])), EncodeRecords(a[1..]), EncodeRecords(b));
    }
  }

  lemma {:induction false} EncodesHeadersInOrder(a: seq<Header>, b: seq<Header>)
    ensures EncodeHeaders(a + b) == EncodeHeaders(a) + EncodeHeaders(b)
  {
    hide EncodeHeaders, Sized;
    if a == [] {
      assert a + b == b;
      FirstHeader(a);
    } else {
      EncodesHeadersInOrder(a[1..], b);
      FirstHeader(a);
      FirstHeader(a + b);
      assert (a + b)[1..] == a[1..] + b;
    }
  }

  lemma FirstHeader(hs: seq<Header>)
    ensures hs == [] ==> EncodeHeaders(hs) == []
    ensures hs != [] ==> EncodeHeaders(hs) == (Sized(hs[0].key) + Sized(hs[0].value)) + EncodeHeaders(hs[1..])
  {
    hide Sized;
  }
}
