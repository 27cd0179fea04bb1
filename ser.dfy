/** The encoder of `src/ser.rs`: a `VecSerializer` whose `Serializer`
    operations append header bytes and payloads to a growing output vector.

    `Encode` gives the bytes a whole value is written as.  The `Serialize`
    implementation for `Value` is not among the modelled files; `Encode`
    and `VecSerializer.Serialize` compose the `Serializer` operations as the
    wire format requires: `null` is simple value 22, an integer is its own
    header argument under major type 0, a byte string or text is a length
    header followed by the payload, an array is a count header followed by
    its items in order, and a map is a count header followed by its
    key/value pairs in the order of its (ascending) keys. */
module Ser {
  import opened Wrappers
  import opened BytesUtil
  import opened Values

  /** The largest argument `encode_unsigned` can write. */
  const MAX_U8: nat := 255

  /** `encode_unsigned`: the shortest header carrying `n` under `majorType`;
      an argument above 255 is not representable. */
  function EncodeUnsigned(n: nat, majorType: nat): (r: Result<seq<byte>, Error>)
    requires majorType < 8
    ensures r.Ok? <==> n <= MAX_U8
    ensures r.Err? ==> r.error == Unrepresentable(n)
    ensures r.Ok? ==> 1 <= |r.value| <= 2 && MajorType(r.value[0]) == majorType
    ensures r.Ok? ==> (|r.value| == 1 <==> n <= 23)
    ensures r.Ok? && n <= 23 ==> AdditionalType(r.value[0]) == n
    ensures r.Ok? && n > 23 ==> AdditionalType(r.value[0]) == 24 && r.value[1] == n
  {
    if n <= 23 then Ok([Concat(majorType, n)])
    else if n <= MAX_U8 then Ok([Concat(majorType, 24), n])
    else Err(Unrepresentable(n))
  }

  /** The major type each variant is written under. */
  function MajorTypeOf(v: Value): (mt: nat)
    ensures mt < 8
  {
    match v
    case Int(_) => 0
    case Bytes(_) => 2
    case String(_) => 3
    case Array(_) => 4
    case Map(_) => 5
    case Null => 7
  }

  /** Bytes written before the ones of `r`, in front of them. */
  function PrependBytes(front: seq<byte>, r: Result<seq<byte>, Error>): Result<seq<byte>, Error> {
    if r.Ok? then Ok(front + r.value) else r
  }

  /** Writing `first`, then `second`: the first failure aborts. */
  function AndThen(first: Result<seq<byte>, Error>, second: Result<seq<byte>, Error>): Result<seq<byte>, Error> {
    if first.Err? then Err(first.error) else PrependBytes(first.value, second)
  }

  /** `serialize_string`: a length header under major type 3, then the
      UTF-8 bytes. */
  function EncodeString(text: seq<byte>): Result<seq<byte>, Error> {
    AndThen(EncodeUnsigned(|text|, 3), Ok(text))
  }

  /** Text is a one- or two-byte length header of major type 3, then the
      text itself; a text longer than 255 bytes is not representable. */
  lemma EncodeStringLayout(text: seq<byte>)
    ensures var r := EncodeString(text);
      && (r.Ok? <==> |text| <= MAX_U8)
      && (r.Err? ==> r.error == Unrepresentable(|text|))
      && (r.Ok? ==> |r.value| == (if |text| <= 23 then 1 else 2) + |text|
                    && MajorType(r.value[0]) == 3 && r.value[|r.value| - |text|..] == text)
      && (r.Ok? ==> AdditionalType(r.value[0]) == if |text| <= 23 then |text| else 24)
      && (r.Ok? && |text| > 23 ==> r.value[1] == |text|)
  {
  }

  /** The bytes `v` is written as. */
  function Encode(v: Value): Result<seq<byte>, Error>
    decreases v
  {
    match v
    case Null => EncodeUnsigned(22, 7)
    case Int(n) => EncodeUnsigned(n, 0)
    case Bytes(bytes) => AndThen(EncodeUnsigned(|bytes|, 2), Ok(bytes))
    case String(text) => EncodeString(text)
    case Array(items) => AndThen(EncodeUnsigned(|items|, 4), EncodeItems(items))
    case Map(entries) => AndThen(EncodeUnsigned(|entries|, 5), EncodeEntries(entries))
  }

  /** The items one after the other, in sequence order. */
  function EncodeItems(items: seq<Value>): Result<seq<byte>, Error>
    decreases items
  {
    if items == [] then Ok([])
    else AndThen(Encode(items[0]), EncodeItems(items[1..]))
  }

  /** The pairs one after the other, in list (that is, key) order. */
  function EncodeEntries(entries: seq<Entry>): Result<seq<byte>, Error>
    decreases entries
  {
    if entries == [] then Ok([])
    else AndThen(EncodeEntry(entries[0]), EncodeEntries(entries[1..]))
  }

  /** A key written as text, then its value. */
  function EncodeEntry(e: Entry): Result<seq<byte>, Error>
    decreases e
  {
    AndThen(EncodeString(e.key), Encode(e.val))
  }

  /** The first byte written for a value is a header naming its kind. */
  lemma EncodeMajorType(v: Value)
    requires Encode(v).Ok?
    ensures Encode(v).value != [] && MajorType(Encode(v).value[0]) == MajorTypeOf(v)
  {
  }

  /** Whether a write went through, without its bytes. */
  function OutcomeOf(r: Result<seq<byte>, Error>): Outcome<Error> {
    if r.Ok? then Pass else Fail(r.error)
  }

  /** The bytes a write appends: none when it fails. */
  function Written(r: Result<seq<byte>, Error>): seq<byte> {
    if r.Ok? then r.value else []
  }

  /** `AndThen` succeeds exactly when both parts do, with the two parts'
      bytes one after the other. */
  lemma AndThenOk(first: Result<seq<byte>, Error>, second: Result<seq<byte>, Error>)
    ensures AndThen(first, second).Ok? <==> first.Ok? && second.Ok?
    ensures AndThen(first, second).Ok? ==> AndThen(first, second).value == first.value + second.value
  {
  }

  /** `AndThenOk` behind bytes already written: once `first` has gone
      through, the whole fails exactly when `second` does, and appending
      the two parts one after the other appends the whole. */
  lemma AndThenAppends(front: seq<byte>, first: Result<seq<byte>, Error>, second: Result<seq<byte>, Error>)
    requires first.Ok?
    ensures OutcomeOf(AndThen(first, second)) == OutcomeOf(second)
    ensures second.Ok? ==>
      front + AndThen(first, second).value == (front + first.value) + second.value
  {
    AndThenOk(first, second);
    if second.Ok? {
      assert (front + first.value) + second.value == front + (first.value + second.value);
    }
  }

  lemma PrependBytesNothing(r: Result<seq<byte>, Error>)
    ensures PrependBytes([], r) == r
  {
    if r.Ok? {
      assert [] + r.value == r.value;
    }
  }

  lemma PrependBytesTwice(a: seq<byte>, b: seq<byte>, r: Result<seq<byte>, Error>)
    ensures PrependBytes(a, PrependBytes(b, r)) == PrependBytes(a + b, r)
  {
    if r.Ok? {
      assert a + (b + r.value) == (a + b) + r.value;
    }
  }

  /** Bytes already written, then the two parts of an `AndThen`: a failing
      first part ends the whole, a passing one joins what was written. */
  lemma PrependAndThen(done: seq<byte>, first: Result<seq<byte>, Error>, second: Result<seq<byte>, Error>)
    ensures PrependBytes(done, AndThen(first, second))
            == if first.Err? then Err(first.error) else PrependBytes(done + first.value, second)
  {
    if first.Ok? {
      PrependBytesTwice(done, first.value, second);
    }
  }

  /** The items from `i` on, after `done`: item `i`, then the rest. */
  lemma ItemsStep(items: seq<Value>, i: nat, done: seq<byte>)
    requires i < |items|
    ensures PrependBytes(done, EncodeItems(items[i..]))
            == if Encode(items[i]).Err? then Err(Encode(items[i]).error)
               else PrependBytes(done + Encode(items[i]).value, EncodeItems(items[i + 1..]))
  {
    assert items[i..][0] == items[i] && items[i..][1..] == items[i + 1..];
    PrependAndThen(done, Encode(items[i]), EncodeItems(items[i + 1..]));
  }

  /** The pairs from `i` on, after `done`: pair `i`, then the rest. */
  lemma EntriesStep(entries: seq<Entry>, i: nat, done: seq<byte>)
    requires i < |entries|
    ensures PrependBytes(done, EncodeEntries(entries[i..]))
            == if EncodeEntry(entries[i]).Err? then Err(EncodeEntry(entries[i]).error)
               else PrependBytes(done + EncodeEntry(entries[i]).value, EncodeEntries(entries[i + 1..]))
  {
    assert entries[i..][0] == entries[i] && entries[i..][1..] == entries[i + 1..];
    PrependAndThen(done, EncodeEntry(entries[i]), EncodeEntries(entries[i + 1..]));
  }

  lemma PrefixTrans(a: seq<byte>, b: seq<byte>, c: seq<byte>)
    requires a <= b && b <= c
    ensures a <= c
  {
  }

  class VecSerializer {
    /** The `VecWriter`'s output vector. */
    var output: seq<byte>

    /** `from_vec_writer`. */
    constructor FromVecWriter(output: seq<byte>)
      ensures this.output == output
    {
      this.output := output;
    }

    /** The `Writer::write_bytes` of the `VecWriter`. */
    method WriteBytes(bytes: seq<byte>)
      modifies this
      ensures output == old(output) + bytes
    {
      output := output + bytes;
    }

    method SerializeUnsigned(n: nat, majorType: nat) returns (r: Outcome<Error>)
      requires majorType < 8
      modifies this
      ensures r == OutcomeOf(EncodeUnsigned(n, majorType))
      ensures output == old(output) + Written(EncodeUnsigned(n, majorType))
    {
      var bytes := EncodeUnsigned(n, majorType);
      if bytes.Err? {
        return Fail(bytes.error);
      }
      WriteBytes(bytes.value);
      r := Pass;
    }

    /** The payload verbatim, without a header. */
    method SerializeBytes(bytes: seq<byte>)
      modifies this
      ensures output == old(output) + bytes
    {
      WriteBytes(bytes);
    }

    method SerializeString(text: seq<byte>) returns (r: Outcome<Error>)
      modifies this
      ensures r == OutcomeOf(EncodeString(text))
      ensures output == old(output) + Written(EncodeString(text))
    {
      r := SerializeUnsigned(|text|, 3);
      if r.Pass? {
        WriteBytes(text);
        AndThenAppends(old(output), EncodeUnsigned(|text|, 3), Ok(text));
      }
    }

    method SerializeSeq(len: nat) returns (r: Outcome<Error>)
      modifies this
      ensures r == OutcomeOf(EncodeUnsigned(len, 4))
      ensures output == old(output) + Written(EncodeUnsigned(len, 4))
    {
      r := SerializeUnsigned(len, 4);
    }

    method SerializeMap(len: nat) returns (r: Outcome<Error>)
      modifies this
      ensures r == OutcomeOf(EncodeUnsigned(len, 5))
      ensures output == old(output) + Written(EncodeUnsigned(len, 5))
    {
      r := SerializeUnsigned(len, 5);
    }

    method SerializeSimple(value: nat) returns (r: Outcome<Error>)
      modifies this
      ensures r == OutcomeOf(EncodeUnsigned(value, 7))
      ensures output == old(output) + Written(EncodeUnsigned(value, 7))
    {
      r := SerializeUnsigned(value, 7);
    }

    /** Write `v` through the operations above.  On success exactly
        `Encode(v)` is appended; on a failure the source aborts, and what
        was written so far is still only appended to the old output. */
    method Serialize(v: Value) returns (r: Outcome<Error>)
      modifies this
      ensures r == OutcomeOf(Encode(v))
      ensures r.Pass? ==> output == old(output) + Encode(v).value
      ensures old(output) <= output
      decreases v, 1
    {
      match v
      case Null =>
        r := SerializeSimple(22);
      case Int(n) =>
        r := SerializeUnsigned(n, 0);
      case Bytes(bytes) =>
        r := SerializeUnsigned(|bytes|, 2);
        if r.Pass? {
          SerializeBytes(bytes);
          AndThenAppends(old(output), EncodeUnsigned(|bytes|, 2), Ok(bytes));
        }
      case String(text) =>
        r := SerializeString(text);
      case Array(items) =>
        r := SerializeSeq(|items|);
        if r.Pass? {
          ghost var middle := output;
          r := SerializeItems(items);
          PrefixTrans(old(output), middle, output);
          AndThenAppends(old(output), EncodeUnsigned(|items|, 4), EncodeItems(items));
        }
      case Map(entries) =>
        r := SerializeMap(|entries|);
        if r.Pass? {
          ghost var middle := output;
          r := SerializeEntries(entries);
          PrefixTrans(old(output), middle, output);
          AndThenAppends(old(output), EncodeUnsigned(|entries|, 5), EncodeEntries(entries));
        }
    }

    /** The items of an array, after its header. */
    method SerializeItems(items: seq<Value>) returns (r: Outcome<Error>)
      modifies this
      ensures r == OutcomeOf(EncodeItems(items))
      ensures r.Pass? ==> output == old(output) + EncodeItems(items).value
      ensures old(output) <= output
      decreases items, 0
    {
      ghost var whole := EncodeItems(items);
      ghost var done: seq<byte> := [];
      var i := 0;
      assert items[0..] == items;
      PrependBytesNothing(whole);
      while i < |items|
        invariant 0 <= i <= |items|
        invariant output == old(output) + done
        invariant whole == PrependBytes(done, EncodeItems(items[i..]))
      {
        ItemsStep(items, i, done);
        ghost var before := output;
        var item := Serialize(items[i]);
        if item.Fail? {
          PrefixTrans(old(output), before, output);
          return item;
        }
        done := done + Encode(items[i]).value;
        i := i + 1;
      }
      assert items[i..] == [] && done + [] == done;
      r := Pass;
    }

    /** The pairs of a map, after its header, in list order. */
    method SerializeEntries(entries: seq<Entry>) returns (r: Outcome<Error>)
      modifies this
      ensures r == OutcomeOf(EncodeEntries(entries))
      ensures r.Pass? ==> output == old(output) + EncodeEntries(entries).value
      ensures old(output) <= output
      decreases entries, 1
    {
      ghost var whole := EncodeEntries(entries);
      ghost var done: seq<byte> := [];
      var i := 0;
      assert entries[0..] == entries;
      PrependBytesNothing(whole);
      while i < |entries|
        invariant 0 <= i <= |entries|
        invariant output == old(output) + done
        invariant whole == PrependBytes(done, EncodeEntries(entries[i..]))
      {
        EntriesStep(entries, i, done);
        ghost var before := output;
        var pair := SerializeEntry(entries[i]);
        if pair.Fail? {
          PrefixTrans(old(output), before, output);
          return pair;
        }
        done := done + EncodeEntry(entries[i]).value;
        i := i + 1;
      }
      assert entries[i..] == [] && done + [] == done;
      r := Pass;
    }

    /** One pair: the key as text, then the value. */
    method SerializeEntry(e: Entry) returns (r: Outcome<Error>)
      modifies this
      ensures r == OutcomeOf(EncodeEntry(e))
      ensures r.Pass? ==> output == old(output) + EncodeEntry(e).value
      ensures old(output) <= output
      decreases e, 0
    {
      r := SerializeString(e.key);
      if r.Fail? {
        return;
      }
      ghost var middle := output;
      r := Serialize(e.val);
      PrefixTrans(old(output), middle, output);
      AndThenAppends(old(output), EncodeString(e.key), Encode(e.val));
    }
  }

  /** `to_bytes`: write `v` to a fresh, empty output vector. */
  method ToBytes(v: Value) returns (r: Result<seq<byte>, Error>)
    ensures r == Encode(v)
  {
    var serializer := new VecSerializer.FromVecWriter([]);
    var written := serializer.Serialize(v);
    if written.Fail? {
      return Err(written.error);
    }
    assert [] + Encode(v).value == Encode(v).value;
    r := Ok(serializer.output);
  }
}
