/** Nullable strings and byte strings on the wire (`parser.rs`). A string is its UTF-8 bytes. */
module Wire {
  import opened Bytes
  import opened Varint
  import Records

  function Checked(s: bytes): Result<Option<bytes>> {
    if Records.IsUtf8(s) then Ok(Some(s)) else Err("Invalid UTF-8")
  }

  /** The answer and what is left of the input, which a failed call has also advanced. */
  function ReadString(src: bytes): (Result<Option<bytes>>, bytes) {
    if |src| < 2 then (Err("Truncated string length"), src)
    else
      var n: int, rest := GetI16(src[..2]), src[2..];
      if n < 0 then (Ok(None), rest)
      else if |rest| < n then (Err("Truncated string body"), rest)
      else (Checked(rest[..n]), rest[n..])
  }

  function ReadBytes(src: bytes): (Result<Option<bytes>>, bytes) {
    if |src| < 4 then (Err("Truncated bytes length"), src)
    else
      var n: int, rest := GetI32(src[..4]), src[4..];
      if n < 0 then (Ok(None), rest)
      else if |rest| < n then (Err("Truncated bytes body"), rest)
      else (Ok(Some(rest[..n])), rest[n..])
  }

  function ReadCompactBytes(src: bytes): (Result<Option<bytes>>, bytes) {
    var (len, rest) := Read(src);
    if len.Err? then (Err(len.error), rest)
    else if len.value == 0 then (Ok(None), rest)
    else
      var n: int := len.value - 1;
      if |rest| < n then (Err("Truncated compact bytes body"), rest)
      else (Ok(Some(rest[..n])), rest[n..])
  }

  function ReadCompactString(src: bytes): (Result<Option<bytes>>, bytes) {
    var (len, rest) := Read(src);
    if len.Err? then (Err(len.error), rest)
    else if len.value == 0 then (Ok(None), rest)
    else
      var n: int := len.value - 1;
      if |rest| < n then (Err("Truncated compact string body"), rest)
      else (Checked(rest[..n]), rest[n..])
  }

  function WriteString(v: Option<Records.utf8>): bytes {
    if v.Some? then PutI16(WrapI16(|v.value|)) + v.value else PutI16(-1)
  }

  function WriteBytes(v: Option<bytes>): bytes {
    if v.Some? then PutI32(WrapI32(|v.value|)) + v.value else PutI32(-1)
  }

  /** Both compact forms; lengths in memory stay below the largest `u64`. */
  function WriteCompact(v: Option<bytes>): bytes
    requires v.Some? ==> |v.value| < 0xffff_ffff_ffff_ffff
  {
    if v.Some? then Write(|v.value| + 1) + v.value else Write(0)
  }

  /** A string comes back exactly when its length fits the 16-bit field. */
  lemma StringRoundTrip(v: Option<Records.utf8>, t: bytes)
    ensures ReadString(WriteString(v) + t) == (Ok(v), t) <==> (v.Some? ==> |v.value| <= 0x7fff)
  {
    hide GetI16, PutI16, WrapI16, Records.IsUtf8;
    var s := WriteString(v) + t;
    if v.Some? {
      WrapI16Smaller(|v.value|);
      var n: int := WrapI16(|v.value|);
      assert s[..2] == PutI16(n) && s[2..] == v.value + t;
      if n == |v.value| { assert (v.value + t)[..n] == v.value && (v.value + t)[n..] == t; }
    } else {
      assert s[..2] == PutI16(-1) && s[2..] == t;
    }
  }

  /** A byte string comes back exactly when its length fits the 32-bit field. */
  lemma BytesRoundTrip(v: Option<bytes>, t: bytes)
    ensures ReadBytes(WriteBytes(v) + t) == (Ok(v), t) <==> (v.Some? ==> |v.value| <= I32_MAX)
  {
    hide GetI32, PutI32, WrapI32;
    var s := WriteBytes(v) + t;
    if v.Some? {
      WrapI32Smaller(|v.value|);
      var n: int := WrapI32(|v.value|);
      assert s[..4] == PutI32(n) && s[4..] == v.value + t;
      if n == |v.value| { assert (v.value + t)[..n] == v.value && (v.value + t)[n..] == t; }
    } else {
      assert s[..4] == PutI32(-1) && s[4..] == t;
    }
  }

  lemma CompactLength(v: Option<bytes>, t: bytes)
    requires v.Some? ==> |v.value| < 0xffff_ffff_ffff_ffff
    ensures Read(WriteCompact(v) + t) == if v.Some? then (Ok(|v.value| + 1), v.value + t) else (Ok(0), t)
  {
    hide Read, Write;
    if v.Some? {
      assert WriteCompact(v) + t == Write(|v.value| + 1) + (v.value + t);
      ReadAfterWrite(|v.value| + 1, v.value + t);
    } else {
      ReadAfterWrite(0, t);
    }
  }

  /** The compact forms come back at every length. */
  lemma CompactRoundTrip(v: Option<bytes>, t: bytes)
    requires v.Some? ==> |v.value| < 0xffff_ffff_ffff_ffff
    ensures ReadCompactBytes(WriteCompact(v) + t) == (Ok(v), t)
    ensures ReadCompactString(WriteCompact(v) + t)
         == (if v.Some? then Checked(v.value) else Ok(None), t)
  {
    hide Read, WriteCompact;
    CompactLength(v, t);
    if v.Some? { assert (v.value + t)[..|v.value|] == v.value && (v.value + t)[|v.value|..] == t; }
  }

  /** What the readers accept is what the writers write, but for null lengths other than -1. */
  lemma ReadIsWritten(src: bytes)
    ensures var (r, rest) := ReadString(src);
            r.Ok? ==> (src == WriteString(r.value) + rest <==> r.value.Some? || GetI16(src[..2]) == -1)
    ensures var (r, rest) := ReadBytes(src);
            r.Ok? ==> (src == WriteBytes(r.value) + rest <==> r.value.Some? || GetI32(src[..4]) == -1)
  {
    hide GetI16, PutI16, GetI32, PutI32;
    if |src| >= 2 {
      assert src == src[..2] + src[2..];
      PutI16OfGet(src[..2]);
      var n: int := GetI16(src[..2]);
      if 0 <= n <= |src| - 2 { assert src == src[..2] + src[2..][..n] + src[2..][n..]; }
    }
    if |src| >= 4 {
      assert src == src[..4] + src[4..];
      PutI32OfGet(src[..4]);
      var n: int := GetI32(src[..4]);
      if 0 <= n <= |src| - 4 { assert src == src[..4] + src[4..][..n] + src[4..][n..]; }
    }
  }
}
