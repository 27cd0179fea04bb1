/** The byte vectors of the unit tests of `src/ser.rs` and `src/de.rs`,
    stated as facts about `Encode` and `Decode`. */
module Vectors {
  import opened Wrappers
  import opened BytesUtil
  import opened Values
  import opened Grammar
  import opened Ser
  import opened RoundTrip

  /** The ASCII text "key1", "key2", "value1", "value2" and "test". */
  const KEY1: seq<byte> := [0x6b, 0x65, 0x79, 0x31]
  const KEY2: seq<byte> := [0x6b, 0x65, 0x79, 0x32]
  const VALUE1: seq<byte> := [0x76, 0x61, 0x6c, 0x75, 0x65, 0x31]
  const VALUE2: seq<byte> := [0x76, 0x61, 0x6c, 0x75, 0x65, 0x32]
  const TEST: seq<byte> := [0x74, 0x65, 0x73, 0x74]

  /** The test map: "key1" and then "key2" inserted into an empty map. */
  function TestMap(): Value {
    Map(Insert(Insert([], KEY1, String(VALUE1)), KEY2, String(VALUE2)))
  }

  const MAP_BYTES: seq<byte> :=
    [0xa2, 0x64, 0x6b, 0x65, 0x79, 0x31, 0x66, 0x76, 0x61, 0x6c, 0x75, 0x65, 0x31,
     0x64, 0x6b, 0x65, 0x79, 0x32, 0x66, 0x76, 0x61, 0x6c, 0x75, 0x65, 0x32]

  /** The insertions leave the two entries in key order. */
  lemma TestMapEntries()
    ensures TestMap() == Map([Entry(KEY1, String(VALUE1)), Entry(KEY2, String(VALUE2))])
  {
    assert KEY1[..3] == KEY2[..3];
    LessAt(KEY1, KEY2, 3);
    LessTotal(KEY1, KEY2);
    var first := [Entry(KEY1, String(VALUE1))];
    assert Insert([], KEY1, String(VALUE1)) == first;
    assert first[1..] == [];
    assert Insert(first, KEY2, String(VALUE2)) == [first[0]] + Insert([], KEY2, String(VALUE2));
  }

  /** Text of `|text| <= 23` bytes is its header byte and the text. */
  lemma ShortText(text: seq<byte>)
    requires |text| <= 23
    ensures EncodeString(text) == Ok([0x60 + |text|] + text)
    ensures Encode(String(text)) == Ok([0x60 + |text|] + text)
  {
  }

  /** A pair of short texts is the key, then the value, each as text. */
  lemma TextPair(key: seq<byte>, val: seq<byte>)
    requires |key| <= 23 && |val| <= 23
    ensures EncodeEntry(Entry(key, String(val))) == Ok([0x60 + |key|] + key + ([0x60 + |val|] + val))
  {
    ShortText(key);
    ShortText(val);
  }

  /** Two pairs are written one after the other. */
  lemma TwoPairs(e1: Entry, e2: Entry)
    requires EncodeEntry(e1).Ok? && EncodeEntry(e2).Ok?
    ensures EncodeEntries([e1, e2]) == Ok(EncodeEntry(e1).value + EncodeEntry(e2).value)
  {
    assert [e1, e2][1..] == [e2] && [e2][1..] == [];
    assert EncodeEntries([e2]) == Ok(EncodeEntry(e2).value + []);
    assert EncodeEntry(e2).value + [] == EncodeEntry(e2).value;
  }

  /** The test's bytes: the header of a two-pair map, then each pair as
      two texts. */
  lemma MapBytesLayout()
    ensures MAP_BYTES == [0xa2] + (([0x64] + KEY1 + ([0x66] + VALUE1)) + ([0x64] + KEY2 + ([0x66] + VALUE2)))
  {
  }

  lemma SerializeMap()
    ensures Encode(TestMap()) == Ok(MAP_BYTES)
  {
    TestMapEntries();
    TextPair(KEY1, VALUE1);
    TextPair(KEY2, VALUE2);
    TwoPairs(Entry(KEY1, String(VALUE1)), Entry(KEY2, String(VALUE2)));
    MapBytesLayout();
  }

  lemma SerializeArray()
    ensures Encode(Array([Int(1), Int(2), Int(3)])) == Ok([131, 1, 2, 3])
  {
    var items := [Int(1), Int(2), Int(3)];
    assert items[1..] == [Int(2), Int(3)] && items[1..][1..] == [Int(3)] && items[1..][1..][1..] == [];
    assert EncodeItems(items) == Ok([1] + ([2] + ([3] + [])));
    assert [131] + ([1] + ([2] + ([3] + []))) == [131, 1, 2, 3];
  }

  lemma SerializeString()
    ensures Encode(String(TEST)) == Ok([0x64, 0x74, 0x65, 0x73, 0x74])
  {
    ShortText(TEST);
    assert [0x64] + TEST == [0x64, 0x74, 0x65, 0x73, 0x74];
  }

  lemma SerializeU8()
    ensures Encode(Int(2)) == Ok([2])
    ensures Encode(Int(42)) == Ok([24, 42])
  {
  }

  lemma SerializeNull()
    ensures Encode(Null) == Ok([246])
  {
  }

  lemma AsciiTexts()
    ensures ValidUtf8(KEY1) && ValidUtf8(KEY2) && ValidUtf8(VALUE1) && ValidUtf8(VALUE2) && ValidUtf8(TEST)
  {
    AsciiText(KEY1);
    AsciiText(KEY2);
    AsciiText(VALUE1);
    AsciiText(VALUE2);
    AsciiText(TEST);
  }

  lemma AsciiText(s: seq<byte>)
    requires s in {KEY1, KEY2, VALUE1, VALUE2, TEST}
    ensures ValidUtf8(s)
  {
    AsciiIsValidUtf8(s);
  }

  /** Two pairs of short, well-formed texts with ascending keys form a map
      the round trip covers. */
  lemma TwoTextPairs(k1: seq<byte>, v1: seq<byte>, k2: seq<byte>, v2: seq<byte>)
    requires Less(k1, k2) && |k1| <= 23 && |v1| <= 23 && |k2| <= 23 && |v2| <= 23
    requires ValidUtf8(k1) && ValidUtf8(v1) && ValidUtf8(k2) && ValidUtf8(v2)
    ensures var m := Map([Entry(k1, String(v1)), Entry(k2, String(v2))]);
      WellFormed(m) && Small(m)
  {
    var es := [Entry(k1, String(v1)), Entry(k2, String(v2))];
    TwoSorted(es);
    forall i | 0 <= i < |es| ensures EntryWellFormed(es[i]) && SmallEntry(es[i]) {
      assert es[i] == Entry(k1, String(v1)) || es[i] == Entry(k2, String(v2));
    }
  }

  lemma TwoSorted(es: seq<Entry>)
    requires |es| == 2 && Less(es[0].key, es[1].key)
    ensures Sorted(es)
  {
  }

  /** The test map is a value the round trip covers. */
  lemma TestMapRecoverable()
    ensures WellFormed(TestMap()) && Small(TestMap())
  {
    TestMapEntries();
    AsciiTexts();
    assert KEY1[..3] == KEY2[..3];
    LessAt(KEY1, KEY2, 3);
    TwoTextPairs(KEY1, VALUE1, KEY2, VALUE2);
  }

  lemma DeserializeMap()
    ensures Decode(MAP_BYTES) == Ok(TestMap())
  {
    SerializeMap();
    TestMapRecoverable();
    DecodeEncode(TestMap());
  }

  lemma DeserializeString()
    ensures Decode([0x64, 0x74, 0x65, 0x73, 0x74]) == Ok(String(TEST))
  {
    var d: seq<byte> := [0x64, 0x74, 0x65, 0x73, 0x74];
    TextStrings(d, 0);
    assert d[1..5] == TEST;
    AsciiTexts();
  }

  lemma DeserializeArray()
    ensures Decode([0x83, 0x01, 0x02, 0x03]) == Ok(Array([Int(1), Int(2), Int(3)]))
  {
    var v := Array([Int(1), Int(2), Int(3)]);
    SerializeArray();
    assert WellFormed(v) && Small(v);
    DecodeEncode(v);
  }

  lemma DeserializeBytes()
    ensures Decode([0x43, 0x01, 0x02, 0x03]) == Ok(Bytes([1, 2, 3]))
  {
    var d: seq<byte> := [0x43, 0x01, 0x02, 0x03];
    ByteStrings(d, 0);
    assert d[1..4] == [1, 2, 3];
  }

  lemma DeserializeU8()
    ensures Decode([0x01]) == Ok(Int(1))
    ensures Decode([24, 42]) == Ok(Int(42))
  {
  }

  lemma DeserializeU16()
    ensures Decode([25, 1, 0]) == Ok(Int(0x100))
  {
  }

  lemma DeserializeU32()
    ensures Decode([26, 1, 0, 0, 0]) == Ok(Int(0x100_0000))
  {
  }

  lemma DeserializeNull()
    ensures Decode([246]) == Ok(Null)
  {
  }
}
