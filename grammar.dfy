/** The decoder of `src/de.rs` as functions of the input bytes and a cursor
    position: each function returns the decoded item and the position just
    past it, or the error at which the source would abort.  The stateful
    `Deserializer` of module `De` is proved to compute exactly these.

    As in the source, only major type 0 resolves its additional-type field
    through follow-up bytes (24, 25, 26: one, two, four bytes, big-endian).
    Major types 2, 3, 4, 5 and 7 take the raw five-bit field as the length,
    count or code, so a field of 24..31 is itself the length. */
module Grammar {
  import opened Wrappers
  import opened BytesUtil
  import opened Values

  /** A decoded item and the cursor position just past it. */
  datatype Parsed<T> = Parsed(val: T, next: nat)

  /** The item alone, without the position. */
  function ValueOf<T>(r: Result<Parsed<T>, Error>): Result<T, Error> {
    match r
    case Ok(p) => Ok(p.val)
    case Err(e) => Err(e)
  }

  /** Items decoded before `r`'s, in front of them. */
  function Prepend<T>(front: seq<T>, r: Result<Parsed<seq<T>>, Error>): Result<Parsed<seq<T>>, Error> {
    match r
    case Ok(p) => Ok(Parsed(front + p.val, p.next))
    case Err(e) => Err(e)
  }

  lemma PrependNothing<T>(r: Result<Parsed<seq<T>>, Error>)
    ensures Prepend([], r) == r
  {
    if r.Ok? {
      assert [] + r.value.val == r.value.val;
    }
  }

  lemma PrependTwice<T>(a: seq<T>, b: seq<T>, r: Result<Parsed<seq<T>>, Error>)
    ensures Prepend(a, Prepend(b, r)) == Prepend(a + b, r)
  {
    if r.Ok? {
      assert a + (b + r.value.val) == (a + b) + r.value.val;
    }
  }

  // ---------------------------------------------------------------------
  // Big-endian integers, and the source's bit expressions for them.

  /** `u8_slice_to_u16`: the first two bytes, most significant first. */
  function U8SliceToU16(slice: seq<byte>): (r: nat)
    requires |slice| >= 2
    ensures r < 0x1_0000
  {
    slice[0] as int * 0x100 + slice[1] as int
  }

  /** `u8_slice_to_u32`: the first four bytes, most significant first. */
  function U8SliceToU32(slice: seq<byte>): (r: nat)
    requires |slice| >= 4
    ensures r < 0x1_0000_0000
  {
    slice[0] as int * 0x100_0000 + slice[1] as int * 0x1_0000 + slice[2] as int * 0x100 + slice[3] as int
  }

  lemma Join8(hi: bv8, lo: bv8)
    ensures (((hi as bv16) << 8) | (lo as bv16)) as int == hi as int * 0x100 + lo as int
  {
  }

  lemma Join16(hi: bv16, lo: bv16)
    ensures (((hi as bv32) << 16) | (lo as bv32)) as int == hi as int * 0x1_0000 + lo as int
  {
  }

  /** The source's expression `(s[0] & 0xff) << 8 | (s[1] & 0xff)` on 16
      bits is `U8SliceToU16`. */
  lemma U16BitExpression(s0: bv8, s1: bv8)
    ensures var b0, b1 := s0 as bv16, s1 as bv16;
      (((b0 & 0xff) << 8) | (b1 & 0xff)) as int == U8SliceToU16([s0 as int, s1 as int])
  {
    var b0, b1 := s0 as bv16, s1 as bv16;
    assert ((b0 & 0xff) << 8) | (b1 & 0xff) == (b0 << 8) | b1;
    Join8(s0, s1);
  }

  /** The four masked, shifted bytes are the two 16-bit halves side by side. */
  lemma Regroup32(s0: bv8, s1: bv8, s2: bv8, s3: bv8)
    ensures var b0, b1, b2, b3 := s0 as bv32, s1 as bv32, s2 as bv32, s3 as bv32;
      ((b0 & 0xff) << 24) | ((b1 & 0xff) << 16) | ((b2 & 0xff) << 8) | (b3 & 0xff)
      == (((((s0 as bv16) << 8) | (s1 as bv16)) as bv32) << 16) | ((((s2 as bv16) << 8) | (s3 as bv16)) as bv32)
  {
  }

  /** The source's expression `(s[0] & 0xff) << 24 | (s[1] & 0xff) << 16 |
      (s[2] & 0xff) << 8 | (s[3] & 0xff)` on 32 bits is `U8SliceToU32`. */
  lemma U32BitExpression(s0: bv8, s1: bv8, s2: bv8, s3: bv8)
    ensures var b0, b1, b2, b3 := s0 as bv32, s1 as bv32, s2 as bv32, s3 as bv32;
      (((b0 & 0xff) << 24) | ((b1 & 0xff) << 16) | ((b2 & 0xff) << 8) | (b3 & 0xff)) as int
      == U8SliceToU32([s0 as int, s1 as int, s2 as int, s3 as int])
  {
    var hi := ((s0 as bv16) << 8) | (s1 as bv16);
    var lo := ((s2 as bv16) << 8) | (s3 as bv16);
    Regroup32(s0, s1, s2, s3);
    Join8(s0, s1);
    Join8(s2, s3);
    Join16(hi, lo);
    assert hi as int * 0x1_0000 == s0 as int * 0x100_0000 + s1 as int * 0x1_0000;
  }

  // ---------------------------------------------------------------------
  // The byte source: one byte, or a block of `n` bytes, at the cursor.

  function ReadByte(d: seq<byte>, pos: nat): Result<Parsed<byte>, Error> {
    if pos < |d| then Ok(Parsed(d[pos], pos + 1)) else Err(Truncated)
  }

  function ReadNBytes(d: seq<byte>, pos: nat, n: nat): Result<Parsed<seq<byte>>, Error>
    requires pos <= |d|
  {
    if pos + n <= |d| then Ok(Parsed(d[pos..pos + n], pos + n)) else Err(Truncated)
  }

  // ---------------------------------------------------------------------
  // One function per `Deserializer` operation.

  /** `read_u8`: the next byte, or Truncated at the end of the input. */
  function ReadU8(d: seq<byte>, pos: nat): (r: Result<Parsed<Value>, Error>)
    ensures r.Ok? <==> pos < |d|
    ensures r.Ok? ==> r.value == Parsed(Int(d[pos]), pos + 1)
    ensures r.Err? ==> r.error == Truncated
  {
    var b :- ReadByte(d, pos);
    Ok(Parsed(Int(b.val), b.next))
  }

  /** `read_u16`: the next two bytes as a big-endian number. */
  function ReadU16(d: seq<byte>, pos: nat): (r: Result<Parsed<Value>, Error>)
    requires pos <= |d|
    ensures r.Ok? <==> pos + 2 <= |d|
    ensures r.Ok? ==> r.value == Parsed(Int(d[pos] as int * 0x100 + d[pos + 1]), pos + 2)
    ensures r.Err? ==> r.error == Truncated
  {
    var b :- ReadNBytes(d, pos, 2);
    Ok(Parsed(Int(U8SliceToU16(b.val)), b.next))
  }

  /** `read_u32`: the next four bytes as a big-endian number. */
  function ReadU32(d: seq<byte>, pos: nat): (r: Result<Parsed<Value>, Error>)
    requires pos <= |d|
    ensures r.Ok? <==> pos + 4 <= |d|
    ensures r.Ok? ==> r.value == Parsed(Int(d[pos] as int * 0x100_0000 + d[pos + 1] as int * 0x1_0000
                                            + d[pos + 2] as int * 0x100 + d[pos + 3]), pos + 4)
    ensures r.Err? ==> r.error == Truncated
  {
    var b :- ReadNBytes(d, pos, 4);
    Ok(Parsed(Int(U8SliceToU32(b.val)), b.next))
  }

  /** `deserialize_int`: the additional-type field (already read, the
      cursor just past the header) is the value itself or selects a one-,
      two- or four-byte follow-up. */
  function DeserializeInt(d: seq<byte>, pos: nat, ai: nat): (r: Result<Parsed<Value>, Error>)
    requires pos <= |d|
    ensures r.Ok? ==> pos <= r.value.next <= |d|
  {
    if ai <= 23 then Ok(Parsed(Int(ai), pos))
    else if ai == 24 then ReadU8(d, pos)
    else if ai == 25 then ReadU16(d, pos)
    else if ai == 26 then ReadU32(d, pos)
    else Err(UnsupportedAdditionalType(ai))
  }

  /** `read_additional_type`: a length that is the field itself (0..23) or
      the next byte (24).  The decoder never calls it. */
  function ReadAdditionalType(d: seq<byte>, pos: nat, ai: nat): (r: Result<Parsed<nat>, Error>)
    requires pos <= |d|
    ensures r.Ok? ==> pos <= r.value.next <= pos + 1 && r.value.val < 256
  {
    if ai <= 23 then Ok(Parsed(ai, pos))
    else if ai == 24 then
      var b :- ReadByte(d, pos);
      Ok(Parsed(b.val, b.next))
    else Err(UnsupportedAdditionalType(ai))
  }

  /** `deserialize_bytes`: the next `len` bytes, as they are. */
  function DeserializeBytes(d: seq<byte>, pos: nat, len: nat): (r: Result<Parsed<Value>, Error>)
    requires pos <= |d|
    ensures r.Ok? <==> pos + len <= |d|
    ensures r.Ok? ==> r.value == Parsed(Bytes(d[pos..pos + len]), pos + len)
    ensures r.Err? ==> r.error == Truncated
  {
    var b :- ReadNBytes(d, pos, len);
    Ok(Parsed(Bytes(b.val), b.next))
  }

  /** `bytes::to_string`: text must be well-formed UTF-8. */
  function ToString(bytes: seq<byte>): (r: Result<Value, Error>)
    ensures r.Ok? <==> ValidUtf8(bytes)
    ensures r.Ok? ==> r.value == String(bytes)
    ensures r.Err? ==> r.error == InvalidUtf8
  {
    if ValidUtf8(bytes) then Ok(String(bytes)) else Err(InvalidUtf8)
  }

  /** `deserialize_string`: the next `len` bytes, which must be text. */
  function DeserializeString(d: seq<byte>, pos: nat, len: nat): (r: Result<Parsed<Value>, Error>)
    requires pos <= |d|
    ensures r.Ok? <==> pos + len <= |d| && ValidUtf8(d[pos..pos + len])
    ensures r.Ok? ==> r.value == Parsed(String(d[pos..pos + len]), pos + len)
    ensures r.Err? ==> r.error == if pos + len > |d| then Truncated else InvalidUtf8
  {
    var b :- ReadNBytes(d, pos, len);
    var s :- ToString(b.val);
    Ok(Parsed(s, b.next))
  }

  /** `deserialize_simple`: code 22 is `null`; no other simple value is known. */
  function DeserializeSimple(code: nat): (r: Result<Value, Error>)
    ensures r.Ok? <==> code == 22
    ensures r.Ok? ==> r.value == Null
    ensures r.Err? ==> r.error == UnsupportedSimpleValue(code)
  {
    if code == 22 then Ok(Null) else Err(UnsupportedSimpleValue(code))
  }

  /** `parse_value`: one complete item starting at `pos`. */
  function ParseValue(d: seq<byte>, pos: nat): (r: Result<Parsed<Value>, Error>)
    requires pos <= |d|
    ensures r.Ok? ==> pos < r.value.next <= |d|
    decreases |d| - pos, 0, 0
  {
    var h :- ReadByte(d, pos);
    var mt, ai := MajorType(h.val), AdditionalType(h.val);
    if mt == 0 then DeserializeInt(d, h.next, ai)
    else if mt == 2 then DeserializeBytes(d, h.next, ai)
    else if mt == 3 then DeserializeString(d, h.next, ai)
    else if mt == 4 then DeserializeArray(d, h.next, ai)
    else if mt == 5 then DeserializeMap(d, h.next, ai)
    else if mt == 7 then
      var v :- DeserializeSimple(ai);
      Ok(Parsed(v, h.next))
    else Err(UnsupportedMajorType(mt))
  }

  /** `deserialize_array`: `len` items, collected in the order parsed. */
  function DeserializeArray(d: seq<byte>, pos: nat, len: nat): (r: Result<Parsed<Value>, Error>)
    requires pos <= |d|
    ensures r.Ok? ==> pos <= r.value.next <= |d|
    ensures r.Ok? ==> r.value.val.Array? && |r.value.val.items| == len
    decreases |d| - pos, 2, 0
  {
    var items :- ParseItems(d, pos, len);
    Ok(Parsed(Array(items.val), items.next))
  }

  /** `n` consecutive items. */
  function ParseItems(d: seq<byte>, pos: nat, n: nat): (r: Result<Parsed<seq<Value>>, Error>)
    requires pos <= |d|
    ensures r.Ok? ==> pos <= r.value.next <= |d| && |r.value.val| == n
    decreases |d| - pos, 1, n
  {
    if n == 0 then Ok(Parsed([], pos))
    else
      var first :- ParseValue(d, pos);
      var rest :- ParseItems(d, first.next, n - 1);
      Ok(Parsed([first.val] + rest.val, rest.next))
  }

  /** `deserialize_map`: `len` key/value pairs inserted one after the other
      into an empty ordered map. */
  function DeserializeMap(d: seq<byte>, pos: nat, len: nat): (r: Result<Parsed<Value>, Error>)
    requires pos <= |d|
    ensures r.Ok? ==> pos <= r.value.next <= |d|
    ensures r.Ok? ==> r.value.val.Map? && Sorted(r.value.val.entries)
    decreases |d| - pos, 2, 0
  {
    var pairs :- ParsePairs(d, pos, len);
    Ok(Parsed(Map(FromPairs(pairs.val)), pairs.next))
  }

  /** `n` key/value pairs in wire order; a key that is not text is an error. */
  function ParsePairs(d: seq<byte>, pos: nat, n: nat): (r: Result<Parsed<seq<Entry>>, Error>)
    requires pos <= |d|
    ensures r.Ok? ==> pos <= r.value.next <= |d| && |r.value.val| == n
    decreases |d| - pos, 1, n
  {
    if n == 0 then Ok(Parsed([], pos))
    else
      var key :- ParseValue(d, pos);
      if !key.val.String? then Err(InvalidMapKey)
      else
        var val :- ParseValue(d, key.next);
        var rest :- ParsePairs(d, val.next, n - 1);
        Ok(Parsed([Entry(key.val.text, val.val)] + rest.val, rest.next))
  }

  /** One key/value pair, then the remaining `n - 1`. */
  lemma PairsStep(d: seq<byte>, pos: nat, n: nat)
    requires pos <= |d| && n > 0
    requires ParseValue(d, pos).Ok? && ParseValue(d, pos).value.val.String?
    requires ParseValue(d, ParseValue(d, pos).value.next).Ok?
    ensures var key := ParseValue(d, pos).value; var val := ParseValue(d, key.next).value;
      ParsePairs(d, pos, n) == Prepend([Entry(key.val.text, val.val)], ParsePairs(d, val.next, n - 1))
  {
  }

  /** `from_bytes`: the first item of the input, a value a Rust program
      can hold. */
  function Decode(bytes: seq<byte>): (r: Result<Value, Error>)
    ensures r.Ok? ==> |bytes| > 0 && WellFormed(r.value)
  {
    if ParseValue(bytes, 0).Ok? then
      DecodedWellFormed(bytes, 0);
      ValueOf(ParseValue(bytes, 0))
    else ValueOf(ParseValue(bytes, 0))
  }

  // ---------------------------------------------------------------------
  // What the decoder promises.

  /** Additional type 0..23 is the value and nothing else is read; 24, 25
      and 26 read exactly one, two and four more bytes, big-endian; 27..31
      is an error. */
  lemma IntWidths(d: seq<byte>, pos: nat)
    requires pos < |d| && MajorType(d[pos]) == 0
    ensures var ai, r := AdditionalType(d[pos]), ParseValue(d, pos);
      && (ai <= 23 ==> r == Ok(Parsed(Int(ai), pos + 1)))
      && (ai == 24 ==> r == if pos + 2 <= |d| then Ok(Parsed(Int(d[pos + 1]), pos + 2))
                            else Err(Truncated))
      && (ai == 25 ==> r == if pos + 3 <= |d|
                            then Ok(Parsed(Int(d[pos + 1] as int * 0x100 + d[pos + 2]), pos + 3))
                            else Err(Truncated))
      && (ai == 26 ==> r == if pos + 5 <= |d|
                            then Ok(Parsed(Int(d[pos + 1] as int * 0x100_0000 + d[pos + 2] as int * 0x1_0000
                                               + d[pos + 3] as int * 0x100 + d[pos + 4]), pos + 5))
                            else Err(Truncated))
      && (ai >= 27 ==> r == Err(UnsupportedAdditionalType(ai)))
  {
    var ai := AdditionalType(d[pos]);
    if ai == 25 && pos + 3 <= |d| {
      assert d[pos + 1..pos + 3][0] == d[pos + 1] && d[pos + 1..pos + 3][1] == d[pos + 2];
    } else if ai == 26 && pos + 5 <= |d| {
      var s := d[pos + 1..pos + 5];
      assert s[0] == d[pos + 1] && s[1] == d[pos + 2] && s[2] == d[pos + 3] && s[3] == d[pos + 4];
    }
  }

  /** `read_additional_type` reads a length the way `deserialize_int` reads
      a small integer: the field itself for 0..23, the next byte for 24.
      Any larger field is an error. */
  lemma AdditionalTypeLengths(d: seq<byte>, pos: nat, ai: nat)
    requires pos <= |d|
    ensures var r, i := ReadAdditionalType(d, pos, ai), DeserializeInt(d, pos, ai);
      && (ai <= 24 ==> (r.Ok? <==> i.Ok?) && (r.Ok? ==> i.value == Parsed(Int(r.value.val), r.value.next))
                       && (r.Err? ==> r.error == i.error))
      && (ai <= 23 ==> r == Ok(Parsed(ai, pos)))
      && (ai == 24 ==> r == if pos < |d| then Ok(Parsed(d[pos], pos + 1)) else Err(Truncated))
      && (ai >= 25 ==> r == Err(UnsupportedAdditionalType(ai)))
  {
  }

  /** Major types 1 and 6 are errors: no value is produced. */
  lemma UnsupportedMajorTypes(d: seq<byte>, pos: nat)
    requires pos < |d| && MajorType(d[pos]) !in {0, 2, 3, 4, 5, 7}
    ensures ParseValue(d, pos) == Err(UnsupportedMajorType(MajorType(d[pos])))
  {
  }

  /** A byte string's length is the raw additional-type field `n`; the
      payload is the next `n` input bytes and the cursor moves `1 + n`. */
  lemma ByteStrings(d: seq<byte>, pos: nat)
    requires pos < |d| && MajorType(d[pos]) == 2
    ensures var n := AdditionalType(d[pos]);
      ParseValue(d, pos) == if pos + 1 + n <= |d| then Ok(Parsed(Bytes(d[pos + 1..pos + 1 + n]), pos + 1 + n))
                            else Err(Truncated)
  {
  }

  /** A text payload of `n` bytes at `pos`, checked for UTF-8. */
  lemma StringPayload(d: seq<byte>, pos: nat, n: nat)
    requires pos <= |d|
    ensures DeserializeString(d, pos, n)
            == if pos + n > |d| then Err(Truncated)
               else if ValidUtf8(d[pos..pos + n]) then Ok(Parsed(String(d[pos..pos + n]), pos + n))
               else Err(InvalidUtf8)
  {
  }

  /** Text likewise, and the payload must be well-formed UTF-8. */
  lemma TextStrings(d: seq<byte>, pos: nat)
    requires pos < |d| && MajorType(d[pos]) == 3
    ensures var n := AdditionalType(d[pos]);
      ParseValue(d, pos) == if pos + 1 + n > |d| then Err(Truncated)
                            else if ValidUtf8(d[pos + 1..pos + 1 + n]) then Ok(Parsed(String(d[pos + 1..pos + 1 + n]), pos + 1 + n))
                            else Err(InvalidUtf8)
  {
    StringPayload(d, pos + 1, AdditionalType(d[pos]));
  }

  /** An array of count `n` (the raw field) holds exactly `n` items, read
      one after the other from just past the header. */
  lemma Arrays(d: seq<byte>, pos: nat)
    requires pos < |d| && MajorType(d[pos]) == 4
    ensures var n, r, items := AdditionalType(d[pos]), ParseValue(d, pos), ParseItems(d, pos + 1, AdditionalType(d[pos]));
      && (r.Ok? <==> items.Ok?)
      && (r.Ok? ==> r.value == Parsed(Array(items.value.val), items.value.next) && |items.value.val| == n)
      && (r.Err? ==> r.error == items.error)
  {
  }

  /** Decoding `n + m` items is decoding `n` items and then `m` more from
      where the first `n` ended: items keep the order they were read in. */
  lemma {:induction false} ItemsSplit(d: seq<byte>, pos: nat, n: nat, m: nat)
    requires pos <= |d|
    ensures ParseItems(d, pos, n + m) ==
      match ParseItems(d, pos, n)
      case Ok(p) => Prepend(p.val, ParseItems(d, p.next, m))
      case Err(e) => Err(e)
    decreases n
  {
    if n == 0 {
      var q := ParseItems(d, pos, m);
      if q.Ok? {
        assert [] + q.value.val == q.value.val;
      }
    } else if ParseValue(d, pos).Ok? {
      var first := ParseValue(d, pos).value;
      assert n + m - 1 == (n - 1) + m;
      ItemsSplit(d, first.next, n - 1, m);
      var p := ParseItems(d, first.next, n - 1);
      if p.Ok? {
        var q := ParseItems(d, p.value.next, m);
        if q.Ok? {
          assert [first.val] + (p.value.val + q.value.val) == ([first.val] + p.value.val) + q.value.val;
        }
      }
    }
  }

  /** A map of count `n` (the raw field) is built from exactly `n` wire
      pairs, read one after the other from just past the header. */
  lemma MapPairs(d: seq<byte>, pos: nat)
    requires pos < |d| && MajorType(d[pos]) == 5
    ensures var r, pairs := ParseValue(d, pos), ParsePairs(d, pos + 1, AdditionalType(d[pos]));
      && (r.Ok? <==> pairs.Ok?)
      && (r.Ok? ==> r.value == Parsed(Map(FromPairs(pairs.value.val)), pairs.value.next))
      && (r.Err? ==> r.error == pairs.error)
  {
  }

  /** A map is built from its `n` wire pairs by successive insertion: its
      keys ascend and it binds each key to the value of the last pair with
      that key.  A key position that decodes to anything but text is an
      error. */
  lemma Maps(d: seq<byte>, pos: nat)
    requires pos < |d| && MajorType(d[pos]) == 5
    ensures var r, pairs := ParseValue(d, pos), ParsePairs(d, pos + 1, AdditionalType(d[pos]));
      && (r.Ok? <==> pairs.Ok?)
      && (r.Ok? ==> r.value == Parsed(Map(FromPairs(pairs.value.val)), pairs.value.next)
                    && Sorted(r.value.val.entries)
                    && ToMap(r.value.val.entries) == Updates(pairs.value.val))
      && (r.Err? ==> r.error == pairs.error)
  {
    MapPairs(d, pos);
    var pairs := ParsePairs(d, pos + 1, AdditionalType(d[pos]));
    if pairs.Ok? {
      FromPairsBindings(pairs.value.val);
    }
  }

  lemma MapKeyMustBeText(d: seq<byte>, pos: nat, n: nat)
    requires pos <= |d| && n > 0
    requires ParseValue(d, pos).Ok? && !ParseValue(d, pos).value.val.String?
    ensures ParsePairs(d, pos, n) == Err(InvalidMapKey)
  {
  }

  /** Major type 7 accepts code 22 only, as `null`. */
  lemma SimpleValues(d: seq<byte>, pos: nat)
    requires pos < |d| && MajorType(d[pos]) == 7
    ensures var ai := AdditionalType(d[pos]);
      ParseValue(d, pos) == if ai == 22 then Ok(Parsed(Null, pos + 1)) else Err(UnsupportedSimpleValue(ai))
  {
  }

  // ---------------------------------------------------------------------
  // Bytes after the item are never looked at.

  lemma SliceOfLonger(d: seq<byte>, rest: seq<byte>, i: nat, j: nat)
    requires i <= j <= |d|
    ensures (d + rest)[i..j] == d[i..j]
  {
  }

  lemma {:induction false} ParseIgnoresTrailing(d: seq<byte>, rest: seq<byte>, pos: nat)
    requires pos <= |d| && ParseValue(d, pos).Ok?
    ensures ParseValue(d + rest, pos) == ParseValue(d, pos)
    decreases |d| - pos, 0, 0
  {
    var e := d + rest;
    assert e[pos] == d[pos];
    var mt, ai := MajorType(d[pos]), AdditionalType(d[pos]);
    if mt == 0 {
      if ai == 24 {
        assert e[pos + 1] == d[pos + 1];
      } else if ai == 25 {
        SliceOfLonger(d, rest, pos + 1, pos + 3);
      } else if ai == 26 {
        SliceOfLonger(d, rest, pos + 1, pos + 5);
      }
    } else if mt == 2 || mt == 3 {
      SliceOfLonger(d, rest, pos + 1, pos + 1 + ai);
    } else if mt == 4 {
      ItemsIgnoreTrailing(d, rest, pos + 1, ai);
    } else if mt == 5 {
      PairsIgnoreTrailing(d, rest, pos + 1, ai);
    }
  }

  lemma {:induction false} ItemsIgnoreTrailing(d: seq<byte>, rest: seq<byte>, pos: nat, n: nat)
    requires pos <= |d| && ParseItems(d, pos, n).Ok?
    ensures ParseItems(d + rest, pos, n) == ParseItems(d, pos, n)
    decreases |d| - pos, 1, n
  {
    if n > 0 {
      ParseIgnoresTrailing(d, rest, pos);
      ItemsIgnoreTrailing(d, rest, ParseValue(d, pos).value.next, n - 1);
    }
  }

  lemma {:induction false} PairsIgnoreTrailing(d: seq<byte>, rest: seq<byte>, pos: nat, n: nat)
    requires pos <= |d| && ParsePairs(d, pos, n).Ok?
    ensures ParsePairs(d + rest, pos, n) == ParsePairs(d, pos, n)
    decreases |d| - pos, 1, n
  {
    if n > 0 {
      ParseIgnoresTrailing(d, rest, pos);
      var key := ParseValue(d, pos).value;
      ParseIgnoresTrailing(d, rest, key.next);
      PairsIgnoreTrailing(d, rest, ParseValue(d, key.next).value.next, n - 1);
    }
  }

  /** `d` and `e` hold the same bytes at positions `lo` to `hi - 1`. */
  predicate Agree(d: seq<byte>, e: seq<byte>, lo: nat, hi: nat) {
    lo <= hi <= |d| && hi <= |e| && forall i | lo <= i < hi :: d[i] == e[i]
  }

  lemma SliceAgree(d: seq<byte>, e: seq<byte>, lo: nat, hi: nat, i: nat, j: nat)
    requires Agree(d, e, lo, hi) && lo <= i <= j <= hi
    ensures d[i..j] == e[i..j]
  {
    assert forall k | 0 <= k < j - i :: d[i..j][k] == d[i + k] && e[i..j][k] == e[i + k];
  }

  /** An item is decoded from its own bytes only: any input that holds the
      same bytes from `pos` up to where the item ends decodes it the same. */
  lemma {:induction false} ParseReadsOnlyItem(d: seq<byte>, e: seq<byte>, pos: nat)
    requires pos <= |d| && ParseValue(d, pos).Ok? && Agree(d, e, pos, ParseValue(d, pos).value.next)
    ensures ParseValue(e, pos) == ParseValue(d, pos)
    decreases |d| - pos, 0, 0
  {
    var next := ParseValue(d, pos).value.next;
    assert e[pos] == d[pos];
    var mt, ai := MajorType(d[pos]), AdditionalType(d[pos]);
    if mt == 0 {
      if ai == 24 {
        assert e[pos + 1] == d[pos + 1];
      } else if ai == 25 {
        SliceAgree(d, e, pos, next, pos + 1, pos + 3);
      } else if ai == 26 {
        SliceAgree(d, e, pos, next, pos + 1, pos + 5);
      }
    } else if mt == 2 || mt == 3 {
      SliceAgree(d, e, pos, next, pos + 1, pos + 1 + ai);
    } else if mt == 4 {
      ItemsReadOnlyItems(d, e, pos + 1, ai);
    } else if mt == 5 {
      PairsReadOnlyPairs(d, e, pos + 1, ai);
    }
  }

  lemma {:induction false} ItemsReadOnlyItems(d: seq<byte>, e: seq<byte>, pos: nat, n: nat)
    requires pos <= |d| && ParseItems(d, pos, n).Ok? && Agree(d, e, pos, ParseItems(d, pos, n).value.next)
    ensures ParseItems(e, pos, n) == ParseItems(d, pos, n)
    decreases |d| - pos, 1, n
  {
    if n > 0 {
      var first := ParseValue(d, pos).value;
      ParseReadsOnlyItem(d, e, pos);
      ItemsReadOnlyItems(d, e, first.next, n - 1);
    }
  }

  lemma {:induction false} PairsReadOnlyPairs(d: seq<byte>, e: seq<byte>, pos: nat, n: nat)
    requires pos <= |d| && ParsePairs(d, pos, n).Ok? && Agree(d, e, pos, ParsePairs(d, pos, n).value.next)
    ensures ParsePairs(e, pos, n) == ParsePairs(d, pos, n)
    decreases |d| - pos, 1, n
  {
    if n > 0 {
      var next := ParsePairs(d, pos, n).value.next;
      var key := ParseValue(d, pos).value;
      var val := ParseValue(d, key.next).value;
      assert ParsePairs(d, val.next, n - 1).value.next == next;
      ParseReadsOnlyItem(d, e, pos);
      ParseReadsOnlyItem(d, e, key.next);
      PairsReadOnlyPairs(d, e, val.next, n - 1);
      SamePairs(d, e, pos, n);
    }
  }

  /** Inputs that decode a key, its value and the remaining pairs alike
      decode the pairs alike. */
  lemma SamePairs(d: seq<byte>, e: seq<byte>, pos: nat, n: nat)
    requires pos <= |d| && pos <= |e| && n > 0 && ParsePairs(d, pos, n).Ok?
    requires ParseValue(e, pos) == ParseValue(d, pos)
    requires ParseValue(d, pos).value.next <= |e|
    requires ParseValue(e, ParseValue(d, pos).value.next) == ParseValue(d, ParseValue(d, pos).value.next)
    requires ParseValue(d, ParseValue(d, pos).value.next).value.next <= |e|
    requires ParsePairs(e, ParseValue(d, ParseValue(d, pos).value.next).value.next, n - 1)
             == ParsePairs(d, ParseValue(d, ParseValue(d, pos).value.next).value.next, n - 1)
    ensures ParsePairs(e, pos, n) == ParsePairs(d, pos, n)
  {
  }

  /** `from_bytes` reads exactly the first item: the input cut just past
      it decodes the same. */
  lemma DecodeReadsOnlyItem(bytes: seq<byte>)
    requires ParseValue(bytes, 0).Ok?
    ensures var next := ParseValue(bytes, 0).value.next;
      Decode(bytes[..next]) == Decode(bytes)
  {
    var next := ParseValue(bytes, 0).value.next;
    ParseReadsOnlyItem(bytes, bytes[..next], 0);
  }

  /** `from_bytes` decodes the first item and ignores what follows it. */
  lemma DecodeIgnoresTrailing(bytes: seq<byte>, rest: seq<byte>)
    requires Decode(bytes).Ok?
    ensures Decode(bytes + rest) == Decode(bytes)
  {
    ParseIgnoresTrailing(bytes, rest, 0);
  }

  // ---------------------------------------------------------------------
  // Decoded values are values a Rust program can hold.

  lemma {:induction false} DecodedWellFormed(d: seq<byte>, pos: nat)
    requires pos <= |d| && ParseValue(d, pos).Ok?
    ensures WellFormed(ParseValue(d, pos).value.val)
    decreases |d| - pos, 0, 0
  {
    var mt, ai := MajorType(d[pos]), AdditionalType(d[pos]);
    if mt == 4 {
      ItemsWellFormed(d, pos + 1, ai);
    } else if mt == 5 {
      PairsWellFormed(d, pos + 1, ai);
      var pairs := ParsePairs(d, pos + 1, ai).value.val;
      var es := FromPairs(pairs);
      forall i | 0 <= i < |es| ensures EntryWellFormed(es[i]) {
        assert es[i] in pairs;
      }
    }
  }

  lemma {:induction false} ItemsWellFormed(d: seq<byte>, pos: nat, n: nat)
    requires pos <= |d| && ParseItems(d, pos, n).Ok?
    ensures forall x :: x in ParseItems(d, pos, n).value.val ==> WellFormed(x)
    decreases |d| - pos, 1, n
  {
    if n > 0 {
      DecodedWellFormed(d, pos);
      ItemsWellFormed(d, ParseValue(d, pos).value.next, n - 1);
    }
  }

  lemma {:induction false} PairsWellFormed(d: seq<byte>, pos: nat, n: nat)
    requires pos <= |d| && ParsePairs(d, pos, n).Ok?
    ensures forall e :: e in ParsePairs(d, pos, n).value.val ==> EntryWellFormed(e)
    decreases |d| - pos, 1, n
  {
    if n > 0 {
      var key := ParseValue(d, pos).value;
      DecodedWellFormed(d, pos);
      DecodedWellFormed(d, key.next);
      PairsWellFormed(d, ParseValue(d, key.next).value.next, n - 1);
    }
  }
}
