/** The decoder of `src/de.rs`: a `Deserializer` owning a byte reader whose
    cursor its methods advance.  Every method is proved to return what the
    matching function of module `Grammar` computes from the input and the
    cursor it started at, and to leave the cursor where that function says;
    on an error the source aborts, so the cursor is then only known to stay
    inside the input. */
module De {
  import opened Wrappers
  import opened BytesUtil
  import opened Values
  import Grammar

  class Deserializer {
    /** The `VecReader`'s input and read position. */
    const input: seq<byte>
    var pos: nat

    ghost predicate Valid()
      reads this
    {
      pos <= |input|
    }

    /** `from_vec_reader`: a reader at the start of `bytes`. */
    constructor FromVecReader(bytes: seq<byte>)
      ensures Valid() && input == bytes && pos == 0
    {
      input := bytes;
      pos := 0;
    }

    /** `Reader::read_byte`. */
    method ReadByte() returns (r: Result<byte, Error>)
      requires Valid()
      modifies this
      ensures Valid()
      ensures r == Grammar.ValueOf(Grammar.ReadByte(input, old(pos)))
      ensures pos == if r.Ok? then old(pos) + 1 else old(pos)
    {
      if pos < |input| {
        r := Ok(input[pos]);
        pos := pos + 1;
      } else {
        r := Err(Truncated);
      }
    }

    /** `Reader::read_n_bytes`. */
    method ReadNBytes(n: nat) returns (r: Result<seq<byte>, Error>)
      requires Valid()
      modifies this
      ensures Valid()
      ensures r == Grammar.ValueOf(Grammar.ReadNBytes(input, old(pos), n))
      ensures pos == if r.Ok? then old(pos) + n else old(pos)
    {
      if pos + n <= |input| {
        r := Ok(input[pos..pos + n]);
        pos := pos + n;
      } else {
        r := Err(Truncated);
      }
    }

    method ReadAdditionalType(additionalType: nat) returns (r: Result<nat, Error>)
      requires Valid()
      modifies this
      ensures Valid()
      ensures r == Grammar.ValueOf(Grammar.ReadAdditionalType(input, old(pos), additionalType))
      ensures r.Ok? ==> pos == Grammar.ReadAdditionalType(input, old(pos), additionalType).value.next
    {
      if additionalType <= 23 {
        r := Ok(additionalType);
      } else if additionalType == 24 {
        var b := ReadByte();
        if b.Err? {
          return Err(b.error);
        }
        r := Ok(b.value);
      } else {
        r := Err(UnsupportedAdditionalType(additionalType));
      }
    }

    method ReadU8() returns (r: Result<Value, Error>)
      requires Valid()
      modifies this
      ensures Valid()
      ensures r == Grammar.ValueOf(Grammar.ReadU8(input, old(pos)))
      ensures r.Ok? ==> pos == Grammar.ReadU8(input, old(pos)).value.next
    {
      var b := ReadByte();
      if b.Err? {
        return Err(b.error);
      }
      r := Ok(Int(b.value));
    }

    method ReadU16() returns (r: Result<Value, Error>)
      requires Valid()
      modifies this
      ensures Valid()
      ensures r == Grammar.ValueOf(Grammar.ReadU16(input, old(pos)))
      ensures r.Ok? ==> pos == Grammar.ReadU16(input, old(pos)).value.next
    {
      var bytes := ReadNBytes(2);
      if bytes.Err? {
        return Err(bytes.error);
      }
      r := Ok(Int(Grammar.U8SliceToU16(bytes.value)));
    }

    method ReadU32() returns (r: Result<Value, Error>)
      requires Valid()
      modifies this
      ensures Valid()
      ensures r == Grammar.ValueOf(Grammar.ReadU32(input, old(pos)))
      ensures r.Ok? ==> pos == Grammar.ReadU32(input, old(pos)).value.next
    {
      var bytes := ReadNBytes(4);
      if bytes.Err? {
        return Err(bytes.error);
      }
      r := Ok(Int(Grammar.U8SliceToU32(bytes.value)));
    }

    method DeserializeInt(additionalType: nat) returns (r: Result<Value, Error>)
      requires Valid()
      modifies this
      ensures Valid()
      ensures r == Grammar.ValueOf(Grammar.DeserializeInt(input, old(pos), additionalType))
      ensures r.Ok? ==> pos == Grammar.DeserializeInt(input, old(pos), additionalType).value.next
    {
      if additionalType <= 23 {
        r := Ok(Int(additionalType));
      } else if additionalType == 24 {
        r := ReadU8();
      } else if additionalType == 25 {
        r := ReadU16();
      } else if additionalType == 26 {
        r := ReadU32();
      } else {
        r := Err(UnsupportedAdditionalType(additionalType));
      }
    }

    method DeserializeBytes(len: nat) returns (r: Result<Value, Error>)
      requires Valid()
      modifies this
      ensures Valid()
      ensures r == Grammar.ValueOf(Grammar.DeserializeBytes(input, old(pos), len))
      ensures r.Ok? ==> pos == Grammar.DeserializeBytes(input, old(pos), len).value.next
    {
      var bytes := ReadNBytes(len);
      if bytes.Err? {
        return Err(bytes.error);
      }
      r := Ok(Bytes(bytes.value));
    }

    method DeserializeString(len: nat) returns (r: Result<Value, Error>)
      requires Valid()
      modifies this
      ensures Valid()
      ensures r == Grammar.ValueOf(Grammar.DeserializeString(input, old(pos), len))
      ensures r.Ok? ==> pos == Grammar.DeserializeString(input, old(pos), len).value.next
    {
      var bytes := ReadNBytes(len);
      if bytes.Err? {
        return Err(bytes.error);
      }
      r := Grammar.ToString(bytes.value);
    }

    /** Only code 22, `null`, is a known simple value. */
    method DeserializeSimple(value: nat) returns (r: Result<Value, Error>)
      ensures r.Ok? <==> value == 22
      ensures r.Ok? ==> r.value == Null
      ensures r.Err? ==> r.error == UnsupportedSimpleValue(value)
    {
      if value == 22 {
        r := Ok(Null);
      } else {
        r := Err(UnsupportedSimpleValue(value));
      }
    }

    method ParseValue() returns (r: Result<Value, Error>)
      requires Valid()
      modifies this
      ensures Valid()
      ensures r == Grammar.ValueOf(Grammar.ParseValue(input, old(pos)))
      ensures r.Ok? ==> pos == Grammar.ParseValue(input, old(pos)).value.next
      decreases |input| - pos, 0, 0
    {
      var header := ReadByte();
      if header.Err? {
        return Err(header.error);
      }
      var majorType, additionalType := MajorType(header.value), AdditionalType(header.value);
      if majorType == 0 {
        r := DeserializeInt(additionalType);
      } else if majorType == 2 {
        r := DeserializeBytes(additionalType);
      } else if majorType == 3 {
        r := DeserializeString(additionalType);
      } else if majorType == 4 {
        r := DeserializeArray(additionalType);
      } else if majorType == 5 {
        r := DeserializeMap(additionalType);
      } else if majorType == 7 {
        r := DeserializeSimple(additionalType);
      } else {
        r := Err(UnsupportedMajorType(majorType));
      }
    }

    method DeserializeArray(len: nat) returns (r: Result<Value, Error>)
      requires Valid()
      modifies this
      ensures Valid()
      ensures r == Grammar.ValueOf(Grammar.DeserializeArray(input, old(pos), len))
      ensures r.Ok? ==> pos == Grammar.DeserializeArray(input, old(pos), len).value.next
      decreases |input| - pos, 2, 0
    {
      ghost var start := pos;
      var values: seq<Value> := [];
      var i := 0;
      Grammar.PrependNothing(Grammar.ParseItems(input, pos, len));
      while i < len
        invariant Valid() && start <= pos && i <= len
        invariant Grammar.ParseItems(input, start, len)
                  == Grammar.Prepend(values, Grammar.ParseItems(input, pos, len - i))
      {
        var value := ParseValue();
        if value.Err? {
          return Err(value.error);
        }
        Grammar.PrependTwice(values, [value.value], Grammar.ParseItems(input, pos, len - i - 1));
        values := values + [value.value];
        i := i + 1;
      }
      assert values + [] == values;
      r := Ok(Array(values));
    }

    method DeserializeMap(len: nat) returns (r: Result<Value, Error>)
      requires Valid()
      modifies this
      ensures Valid()
      ensures r == Grammar.ValueOf(Grammar.DeserializeMap(input, old(pos), len))
      ensures r.Ok? ==> pos == Grammar.DeserializeMap(input, old(pos), len).value.next
      decreases |input| - pos, 2, 0
    {
      ghost var start := pos;
      ghost var pairs: seq<Entry> := [];
      var entries: seq<Entry> := [];
      var i := 0;
      Grammar.PrependNothing(Grammar.ParsePairs(input, pos, len));
      while i < len
        invariant Valid() && start <= pos && i <= len
        invariant entries == FromPairs(pairs)
        invariant Grammar.ParsePairs(input, start, len)
                  == Grammar.Prepend(pairs, Grammar.ParsePairs(input, pos, len - i))
      {
        ghost var before := pos;
        var key := ParseValue();
        if key.Err? {
          return Err(key.error);
        }
        if !key.value.String? {
          return Err(InvalidMapKey);
        }
        var value := ParseValue();
        if value.Err? {
          return Err(value.error);
        }
        ghost var pair := Entry(key.value.text, value.value);
        Grammar.PairsStep(input, before, len - i);
        Grammar.PrependTwice(pairs, [pair], Grammar.ParsePairs(input, pos, len - i - 1));
        FromPairsAppend(pairs, pair);
        entries := Insert(entries, key.value.text, value.value);
        pairs := pairs + [pair];
        i := i + 1;
      }
      assert pairs + [] == pairs;
      r := Ok(Map(entries));
    }
  }

  /** `from_bytes`: decode the first item of `bytes`. */
  method FromBytes(bytes: seq<byte>) returns (r: Result<Value, Error>)
    ensures r == Grammar.Decode(bytes)
  {
    var d := new Deserializer.FromVecReader(bytes);
    r := d.ParseValue();
  }
}
