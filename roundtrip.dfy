/** How the encoder of `src/ser.rs` and the decoder of `src/de.rs` fit
    together.  The encoder fails exactly on a count, length or integer above
    255.  Decoding gives an encoded value back when every length is at most
    23 and every integer at most 255: the decoder takes the raw 5-bit
    additional-type field as the length of strings, arrays and maps, so a
    length of 24..255, which the encoder writes with a follow-up byte, is
    read back as 24. */
module RoundTrip {
  import opened Wrappers
  import opened BytesUtil
  import opened Values
  import opened Grammar
  import opened Ser

  // ---------------------------------------------------------------------
  // Which values the encoder can write.

  /** Every integer, length and count fits the one-byte follow-up. */
  predicate Encodable(v: Value)
    decreases v
  {
    match v
    case Null => true
    case Int(n) => n <= MAX_U8
    case Bytes(bytes) => |bytes| <= MAX_U8
    case String(text) => |text| <= MAX_U8
    case Array(items) => |items| <= MAX_U8 && forall i :: 0 <= i < |items| ==> Encodable(items[i])
    case Map(entries) => |entries| <= MAX_U8 && forall i :: 0 <= i < |entries| ==> EntryEncodable(entries[i])
  }

  predicate EntryEncodable(e: Entry)
    decreases e
  {
    |e.key| <= MAX_U8 && Encodable(e.val)
  }

  /** `Encode` succeeds exactly on the encodable values. */
  lemma {:induction false} EncodeSucceeds(v: Value)
    ensures Encode(v).Ok? <==> Encodable(v)
    decreases v, 1
  {
    match v
    case Null =>
    case Int(_) =>
    case Bytes(bytes) =>
      AndThenOk(EncodeUnsigned(|bytes|, 2), Ok(bytes));
    case String(text) =>
      AndThenOk(EncodeUnsigned(|text|, 3), Ok(text));
    case Array(items) =>
      ItemsSucceed(items);
      AndThenOk(EncodeUnsigned(|items|, 4), EncodeItems(items));
    case Map(entries) =>
      EntriesSucceed(entries);
      AndThenOk(EncodeUnsigned(|entries|, 5), EncodeEntries(entries));
  }

  lemma {:induction false} ItemsSucceed(items: seq<Value>)
    ensures EncodeItems(items).Ok? <==> forall i :: 0 <= i < |items| ==> Encodable(items[i])
    decreases items, 0
  {
    if items != [] {
      EncodeSucceeds(items[0]);
      ItemsSucceed(items[1..]);
      AndThenOk(Encode(items[0]), EncodeItems(items[1..]));
      ItemsEncodableSplit(items);
    }
  }

  lemma ItemsEncodableSplit(items: seq<Value>)
    requires items != []
    ensures (forall i :: 0 <= i < |items| ==> Encodable(items[i]))
            <==> Encodable(items[0]) && forall i :: 0 <= i < |items[1..]| ==> Encodable(items[1..][i])
  {
    assert forall i :: 1 <= i < |items| ==> items[i] == items[1..][i - 1];
  }

  lemma {:induction false} EntriesSucceed(entries: seq<Entry>)
    ensures EncodeEntries(entries).Ok? <==> forall i :: 0 <= i < |entries| ==> EntryEncodable(entries[i])
    decreases entries, 1
  {
    if entries != [] {
      EntrySucceeds(entries[0]);
      EntriesSucceed(entries[1..]);
      AndThenOk(EncodeEntry(entries[0]), EncodeEntries(entries[1..]));
      EntriesEncodableSplit(entries);
    }
  }

  lemma EntriesEncodableSplit(entries: seq<Entry>)
    requires entries != []
    ensures (forall i :: 0 <= i < |entries| ==> EntryEncodable(entries[i]))
            <==> EntryEncodable(entries[0]) && forall i :: 0 <= i < |entries[1..]| ==> EntryEncodable(entries[1..][i])
  {
    assert forall i :: 1 <= i < |entries| ==> entries[i] == entries[1..][i - 1];
  }

  lemma {:induction false} EntrySucceeds(e: Entry)
    ensures EncodeEntry(e).Ok? <==> EntryEncodable(e)
    decreases e, 0
  {
    EncodeSucceeds(e.val);
    AndThenOk(EncodeUnsigned(|e.key|, 3), Ok(e.key));
    AndThenOk(EncodeString(e.key), Encode(e.val));
  }

  // ---------------------------------------------------------------------
  // Which values come back.

  /** Every length and count fits the header byte, and every integer the
      one-byte follow-up. */
  predicate Small(v: Value)
    decreases v
  {
    match v
    case Null => true
    case Int(n) => n <= MAX_U8
    case Bytes(bytes) => |bytes| <= 23
    case String(text) => |text| <= 23
    case Array(items) => |items| <= 23 && forall i :: 0 <= i < |items| ==> Small(items[i])
    case Map(entries) => |entries| <= 23 && forall i :: 0 <= i < |entries| ==> SmallEntry(entries[i])
  }

  predicate SmallEntry(e: Entry)
    decreases e
  {
    |e.key| <= 23 && Small(e.val)
  }

  lemma {:induction false} SmallIsEncodable(v: Value)
    requires Small(v)
    ensures Encodable(v)
    decreases v, 1
  {
    match v
    case Array(items) =>
      forall i | 0 <= i < |items| ensures Encodable(items[i]) {
        SmallIsEncodable(items[i]);
      }
    case Map(entries) =>
      forall i | 0 <= i < |entries| ensures EntryEncodable(entries[i]) {
        SmallEntryIsEncodable(entries[i]);
      }
    case _ =>
  }

  lemma {:induction false} SmallEntryIsEncodable(e: Entry)
    requires SmallEntry(e)
    ensures EntryEncodable(e)
    decreases e, 0
  {
    SmallIsEncodable(e.val);
  }

  /** The written bytes `r` sit in `d` from `pos` on. */
  predicate At(d: seq<byte>, pos: nat, r: Result<seq<byte>, Error>) {
    r.Ok? && pos + |r.value| <= |d| && d[pos..pos + |r.value|] == r.value
  }

  lemma AtAndThen(d: seq<byte>, pos: nat, first: Result<seq<byte>, Error>, second: Result<seq<byte>, Error>)
    requires At(d, pos, AndThen(first, second))
    ensures At(d, pos, first) && At(d, pos + |first.value|, second)
    ensures |AndThen(first, second).value| == |first.value| + |second.value|
  {
    AndThenOk(first, second);
    var a, b := first.value, second.value;
    assert d[pos..pos + |a| + |b|] == a + b;
    assert d[pos..pos + |a|] == (a + b)[..|a|];
    assert d[pos + |a|..pos + |a| + |b|] == (a + b)[|a|..];
  }

  /** A one-byte header at `pos`. */
  lemma AtHeader(d: seq<byte>, pos: nat, n: nat, majorType: nat)
    requires majorType < 8 && n <= 23 && At(d, pos, EncodeUnsigned(n, majorType))
    ensures MajorType(d[pos]) == majorType && AdditionalType(d[pos]) == n
  {
    assert d[pos] == d[pos..pos + 1][0];
  }

  /** `WellFormed(v) && Small(v)`, with lists walked head first: the form
      the proof of `Recover` goes by. */
  predicate Recoverable(v: Value)
    decreases v, 1
  {
    match v
    case Null => true
    case Int(n) => n <= MAX_U8
    case Bytes(bytes) => |bytes| <= 23
    case String(text) => |text| <= 23 && ValidUtf8(text)
    case Array(items) => |items| <= 23 && ItemsRecoverable(items)
    case Map(entries) => |entries| <= 23 && Sorted(entries) && EntriesRecoverable(entries)
  }

  predicate ItemsRecoverable(items: seq<Value>)
    decreases items, 0
  {
    items == [] || (Recoverable(items[0]) && ItemsRecoverable(items[1..]))
  }

  predicate EntriesRecoverable(entries: seq<Entry>)
    decreases entries, 2
  {
    entries == [] || (EntryRecoverable(entries[0]) && EntriesRecoverable(entries[1..]))
  }

  predicate EntryRecoverable(e: Entry)
    decreases e, 0
  {
    |e.key| <= 23 && ValidUtf8(e.key) && Recoverable(e.val)
  }

  lemma {:induction false} IsRecoverable(v: Value)
    requires WellFormed(v) && Small(v)
    ensures Recoverable(v)
    decreases v, 1
  {
    match v
    case Array(items) =>
      ItemsAreRecoverable(items);
    case Map(entries) =>
      EntriesAreRecoverable(entries);
    case _ =>
  }

  lemma {:induction false} ItemsAreRecoverable(items: seq<Value>)
    requires forall i :: 0 <= i < |items| ==> WellFormed(items[i]) && Small(items[i])
    ensures ItemsRecoverable(items)
    decreases items, 0
  {
    if items != [] {
      IsRecoverable(items[0]);
      assert forall i :: 0 <= i < |items[1..]| ==> items[1..][i] == items[i + 1];
      ItemsAreRecoverable(items[1..]);
    }
  }

  lemma {:induction false} EntriesAreRecoverable(entries: seq<Entry>)
    requires forall i :: 0 <= i < |entries| ==> EntryWellFormed(entries[i]) && SmallEntry(entries[i])
    ensures EntriesRecoverable(entries)
    decreases entries, 0
  {
    if entries != [] {
      IsRecoverable(entries[0].val);
      assert forall i :: 0 <= i < |entries[1..]| ==> entries[1..][i] == entries[i + 1];
      EntriesAreRecoverable(entries[1..]);
    }
  }

  // ---------------------------------------------------------------------
  // Where the pieces of an encoding sit.  These lemmas know nothing about
  // the decoder.

  lemma BytesAt(d: seq<byte>, pos: nat, bytes: seq<byte>)
    requires |bytes| <= 23 && At(d, pos, Encode(Bytes(bytes)))
    ensures MajorType(d[pos]) == 2 && AdditionalType(d[pos]) == |bytes|
    ensures pos + 1 + |bytes| <= |d| && d[pos + 1..pos + 1 + |bytes|] == bytes
    ensures |Encode(Bytes(bytes)).value| == 1 + |bytes|
  {
    AtAndThen(d, pos, EncodeUnsigned(|bytes|, 2), Ok(bytes));
    AtHeader(d, pos, |bytes|, 2);
  }

  lemma TextAt(d: seq<byte>, pos: nat, text: seq<byte>)
    requires |text| <= 23 && At(d, pos, EncodeString(text))
    ensures MajorType(d[pos]) == 3 && AdditionalType(d[pos]) == |text|
    ensures pos + 1 + |text| <= |d| && d[pos + 1..pos + 1 + |text|] == text
    ensures |EncodeString(text).value| == 1 + |text|
  {
    AtAndThen(d, pos, EncodeUnsigned(|text|, 3), Ok(text));
    AtHeader(d, pos, |text|, 3);
  }

  lemma ArrayAt(d: seq<byte>, pos: nat, items: seq<Value>)
    requires |items| <= 23 && At(d, pos, Encode(Array(items)))
    ensures MajorType(d[pos]) == 4 && AdditionalType(d[pos]) == |items|
    ensures At(d, pos + 1, EncodeItems(items))
    ensures |Encode(Array(items)).value| == 1 + |EncodeItems(items).value|
  {
    AtAndThen(d, pos, EncodeUnsigned(|items|, 4), EncodeItems(items));
    AtHeader(d, pos, |items|, 4);
  }

  lemma MapAt(d: seq<byte>, pos: nat, entries: seq<Entry>)
    requires |entries| <= 23 && At(d, pos, Encode(Map(entries)))
    ensures MajorType(d[pos]) == 5 && AdditionalType(d[pos]) == |entries|
    ensures At(d, pos + 1, EncodeEntries(entries))
    ensures |Encode(Map(entries)).value| == 1 + |EncodeEntries(entries).value|
  {
    AtAndThen(d, pos, EncodeUnsigned(|entries|, 5), EncodeEntries(entries));
    AtHeader(d, pos, |entries|, 5);
  }

  lemma ItemsAt(d: seq<byte>, pos: nat, items: seq<Value>)
    requires items != [] && At(d, pos, EncodeItems(items))
    ensures At(d, pos, Encode(items[0]))
    ensures At(d, pos + |Encode(items[0]).value|, EncodeItems(items[1..]))
    ensures |EncodeItems(items).value| == |Encode(items[0]).value| + |EncodeItems(items[1..]).value|
  {
    AtAndThen(d, pos, Encode(items[0]), EncodeItems(items[1..]));
  }

  lemma EntriesAt(d: seq<byte>, pos: nat, entries: seq<Entry>)
    requires entries != [] && At(d, pos, EncodeEntries(entries))
    ensures At(d, pos, EncodeEntry(entries[0]))
    ensures At(d, pos + |EncodeEntry(entries[0]).value|, EncodeEntries(entries[1..]))
    ensures |EncodeEntries(entries).value| == |EncodeEntry(entries[0]).value| + |EncodeEntries(entries[1..]).value|
  {
    AtAndThen(d, pos, EncodeEntry(entries[0]), EncodeEntries(entries[1..]));
  }

  lemma EntryAt(d: seq<byte>, pos: nat, e: Entry)
    requires At(d, pos, EncodeEntry(e))
    ensures At(d, pos, EncodeString(e.key))
    ensures At(d, pos + |EncodeString(e.key).value|, Encode(e.val))
    ensures |EncodeEntry(e).value| == |EncodeString(e.key).value| + |Encode(e.val).value|
  {
    AtAndThen(d, pos, EncodeString(e.key), Encode(e.val));
  }

  // ---------------------------------------------------------------------
  // What the decoder makes of those pieces.  These lemmas know nothing
  // about the encoder.

  lemma ArrayFromHeader(d: seq<byte>, pos: nat, items: seq<Value>, next: nat)
    requires pos < |d| && MajorType(d[pos]) == 4 && AdditionalType(d[pos]) == |items|
    requires ParseItems(d, pos + 1, |items|) == Ok(Parsed(items, next))
    ensures ParseValue(d, pos) == Ok(Parsed(Array(items), next))
  {
    Arrays(d, pos);
  }

  lemma MapFromHeader(d: seq<byte>, pos: nat, entries: seq<Entry>, next: nat)
    requires pos < |d| && MajorType(d[pos]) == 5 && AdditionalType(d[pos]) == |entries|
    requires Sorted(entries) && ParsePairs(d, pos + 1, |entries|) == Ok(Parsed(entries, next))
    ensures ParseValue(d, pos) == Ok(Parsed(Map(entries), next))
  {
    Maps(d, pos);
    FromSortedPairs(entries);
  }

  /** No items, no bytes. */
  lemma NoItems(d: seq<byte>, pos: nat)
    requires pos <= |d|
    ensures ParseItems(d, pos, 0) == Ok(Parsed([], pos)) && ParsePairs(d, pos, 0) == Ok(Parsed([], pos))
  {
  }

  /** One item, then the remaining ones. */
  lemma ItemsFromParts(d: seq<byte>, pos: nat, items: seq<Value>, mid: nat, next: nat)
    requires pos <= |d| && items != []
    requires ParseValue(d, pos) == Ok(Parsed(items[0], mid))
    requires ParseItems(d, mid, |items[1..]|) == Ok(Parsed(items[1..], next))
    ensures ParseItems(d, pos, |items|) == Ok(Parsed(items, next))
  {
    assert [items[0]] + items[1..] == items;
  }

  /** One key/value pair, then the remaining ones. */
  lemma PairsFromParts(d: seq<byte>, pos: nat, entries: seq<Entry>, keyEnd: nat, mid: nat, next: nat)
    requires pos <= |d| && entries != []
    requires ParseValue(d, pos) == Ok(Parsed(String(entries[0].key), keyEnd))
    requires ParseValue(d, keyEnd) == Ok(Parsed(entries[0].val, mid))
    requires ParsePairs(d, mid, |entries[1..]|) == Ok(Parsed(entries[1..], next))
    ensures ParsePairs(d, pos, |entries|) == Ok(Parsed(entries, next))
  {
    PairsStep(d, pos, |entries|);
    assert [Entry(entries[0].key, entries[0].val)] + entries[1..] == entries;
  }

  // ---------------------------------------------------------------------
  // Both together.

  /** Decoding the bytes of a recoverable value at `pos` gives the value
      back and stops at `next`, just after those bytes. */
  lemma {:induction false} Recover(v: Value, d: seq<byte>, pos: nat, next: nat)
    requires Recoverable(v) && At(d, pos, Encode(v)) && next == pos + |Encode(v).value|
    ensures ParseValue(d, pos) == Ok(Parsed(v, next))
    decreases v, 2
  {
    match v
    case Null =>
      AtHeader(d, pos, 22, 7);
      SimpleValues(d, pos);
    case Int(n) =>
      RecoverInt(n, d, pos, next);
    case Bytes(bytes) =>
      BytesAt(d, pos, bytes);
      ByteStrings(d, pos);
    case String(text) =>
      RecoverText(text, d, pos, next);
    case Array(items) =>
      RecoverArray(items, d, pos, next);
    case Map(entries) =>
      RecoverMap(entries, d, pos, next);
  }

  lemma IntAt(d: seq<byte>, pos: nat, n: nat)
    requires 23 < n <= MAX_U8 && At(d, pos, Encode(Int(n)))
    ensures pos + 2 <= |d| && MajorType(d[pos]) == 0 && AdditionalType(d[pos]) == 24 && d[pos + 1] == n
    ensures |Encode(Int(n)).value| == 2
  {
    var header := EncodeUnsigned(n, 0).value;
    assert d[pos] == header[0] && d[pos + 1] == header[1];
  }

  lemma RecoverInt(n: nat, d: seq<byte>, pos: nat, next: nat)
    requires n <= MAX_U8 && At(d, pos, Encode(Int(n))) && next == pos + |Encode(Int(n)).value|
    ensures ParseValue(d, pos) == Ok(Parsed(Int(n), next))
  {
    if n <= 23 {
      AtHeader(d, pos, n, 0);
    } else {
      IntAt(d, pos, n);
    }
    IntWidths(d, pos);
  }

  lemma RecoverText(text: seq<byte>, d: seq<byte>, pos: nat, next: nat)
    requires ValidUtf8(text) && |text| <= 23 && At(d, pos, EncodeString(text))
    requires next == pos + |EncodeString(text).value|
    ensures ParseValue(d, pos) == Ok(Parsed(String(text), next))
  {
    TextAt(d, pos, text);
    TextStrings(d, pos);
  }

  lemma {:induction false} RecoverArray(items: seq<Value>, d: seq<byte>, pos: nat, next: nat)
    requires |items| <= 23 && ItemsRecoverable(items)
    requires At(d, pos, Encode(Array(items))) && next == pos + |Encode(Array(items)).value|
    ensures ParseValue(d, pos) == Ok(Parsed(Array(items), next))
    decreases items, 1
  {
    ArrayAt(d, pos, items);
    RecoverItems(items, d, pos + 1, next);
    ArrayFromHeader(d, pos, items, next);
  }

  lemma {:induction false} RecoverMap(entries: seq<Entry>, d: seq<byte>, pos: nat, next: nat)
    requires |entries| <= 23 && Sorted(entries) && EntriesRecoverable(entries)
    requires At(d, pos, Encode(Map(entries))) && next == pos + |Encode(Map(entries)).value|
    ensures ParseValue(d, pos) == Ok(Parsed(Map(entries), next))
    decreases entries, 3
  {
    MapAt(d, pos, entries);
    RecoverEntries(entries, d, pos + 1, next);
    MapFromHeader(d, pos, entries, next);
  }

  lemma {:induction false} RecoverItems(items: seq<Value>, d: seq<byte>, pos: nat, next: nat)
    requires ItemsRecoverable(items) && At(d, pos, EncodeItems(items)) && next == pos + |EncodeItems(items).value|
    ensures ParseItems(d, pos, |items|) == Ok(Parsed(items, next))
    decreases items, 0
  {
    if items == [] {
      NoItems(d, pos);
    } else {
      ItemsAt(d, pos, items);
      var mid := pos + |Encode(items[0]).value|;
      Recover(items[0], d, pos, mid);
      RecoverItems(items[1..], d, mid, next);
      ItemsFromParts(d, pos, items, mid, next);
    }
  }

  lemma {:induction false} RecoverEntries(entries: seq<Entry>, d: seq<byte>, pos: nat, next: nat)
    requires EntriesRecoverable(entries) && At(d, pos, EncodeEntries(entries))
    requires next == pos + |EncodeEntries(entries).value|
    ensures ParsePairs(d, pos, |entries|) == Ok(Parsed(entries, next))
    decreases entries, 2
  {
    if entries == [] {
      NoItems(d, pos);
    } else {
      EntriesAt(d, pos, entries);
      var mid := pos + |EncodeEntry(entries[0]).value|;
      var keyEnd := RecoverEntry(entries[0], d, pos, mid);
      RecoverEntries(entries[1..], d, mid, next);
      PairsFromParts(d, pos, entries, keyEnd, mid, next);
    }
  }

  lemma {:induction false} RecoverEntry(e: Entry, d: seq<byte>, pos: nat, next: nat) returns (keyEnd: nat)
    requires EntryRecoverable(e) && At(d, pos, EncodeEntry(e)) && next == pos + |EncodeEntry(e).value|
    ensures ParseValue(d, pos) == Ok(Parsed(String(e.key), keyEnd))
    ensures ParseValue(d, keyEnd) == Ok(Parsed(e.val, next))
    decreases e, 1
  {
    EntryAt(d, pos, e);
    keyEnd := pos + |EncodeString(e.key).value|;
    RecoverText(e.key, d, pos, keyEnd);
    Recover(e.val, d, keyEnd, next);
  }

  /** The round trip: a small, well-formed value is encodable, and decoding
      its encoding gives it back. */
  lemma DecodeEncode(v: Value)
    requires WellFormed(v) && Small(v)
    ensures Encode(v).Ok? && Decode(Encode(v).value) == Ok(v)
  {
    SmallIsEncodable(v);
    EncodeSucceeds(v);
    IsRecoverable(v);
    var bytes := Encode(v).value;
    assert bytes[0..|bytes|] == bytes;
    Recover(v, bytes, 0, |bytes|);
  }

  /** The encoding of a small, well-formed value followed by anything
      decodes to that value. */
  lemma DecodeEncodePrefix(v: Value, rest: seq<byte>)
    requires WellFormed(v) && Small(v)
    ensures Encode(v).Ok? && Decode(Encode(v).value + rest) == Ok(v)
  {
    DecodeEncode(v);
    DecodeIgnoresTrailing(Encode(v).value, rest);
  }

  // ---------------------------------------------------------------------
  // Where the round trip ends.

  /** A 24-byte string is written with a follow-up length byte, which the
      decoder reads as the first payload byte: `[0x58, 24, 0 x 24]` comes
      back as the 24 bytes `[24, 0 x 23]`. */
  lemma LongBytesComeBackShifted()
    ensures var v := Bytes(seq(24, _ => 0));
      Encode(v) == Ok([0x58, 24] + seq(24, _ => 0)) &&
      Decode(Encode(v).value) == Ok(Bytes([24] + seq(23, _ => 0))) &&
      Decode(Encode(v).value) != Ok(v)
  {
    var zeros := seq(24, _ => 0 as byte);
    var bytes := [0x58 as byte, 24] + zeros;
    assert bytes[1..25] == [24] + seq(23, _ => 0);
    assert ([24] + seq(23, _ => 0 as byte))[0] != zeros[0];
  }

  /** A length of exactly 24 happens to come back: the decoder takes the
      raw field 24 as the length, which is the value of the length byte
      too.  So `Small` is enough for the round trip but not necessary. */
  lemma TwentyFourComesBack()
    ensures var v := Bytes(seq(24, _ => 24));
      !Small(v) && Encode(v) == Ok([0x58, 24] + seq(24, _ => 24)) && Decode(Encode(v).value) == Ok(v)
  {
    var payload := seq(24, _ => 24 as byte);
    var bytes := [0x58 as byte, 24] + payload;
    assert bytes[1..25] == payload;
  }

  /** The decoder reads integers above 255, which the encoder cannot
      write. */
  lemma WideIntsNotWritten()
    ensures Decode([25, 1, 0]) == Ok(Int(256))
    ensures Encode(Int(256)) == Err(Unrepresentable(256))
  {
    assert [25 as byte, 1, 0][1..3] == [1, 0];
  }

  // ---------------------------------------------------------------------
  // Canonical maps.

  /** Two well-formed maps with the same bindings are written as the same
      bytes. */
  lemma SameBindingsSameBytes(a: seq<Entry>, b: seq<Entry>)
    requires WellFormed(Map(a)) && WellFormed(Map(b)) && ToMap(a) == ToMap(b)
    ensures Encode(Map(a)) == Encode(Map(b))
  {
    SortedUnique(a, b);
  }

  /** Pairs with distinct keys inserted in any order give one map, written
      as one byte sequence. */
  lemma InsertionOrderIrrelevant(p: seq<Entry>, q: seq<Entry>)
    requires DistinctKeys(p) && multiset(p) == multiset(q)
    ensures Encode(Map(FromPairs(p))) == Encode(Map(FromPairs(q)))
  {
    FromPairsOrderIndependent(p, q);
  }
}
