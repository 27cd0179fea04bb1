/** The byte-level helpers the codec builds on: splitting a header byte into
    its major type and additional-type fields, joining them back, and the
    UTF-8 well-formedness test applied to text payloads (RFC 8949 section 3,
    RFC 3629 section 4). */
module BytesUtil {

  /** An octet. */
  type byte = b: int | 0 <= b < 256

  /** The top three bits of a header byte. */
  function MajorType(header: byte): (mt: nat)
    ensures mt < 8
  {
    header / 32
  }

  /** The bottom five bits of a header byte. */
  function AdditionalType(header: byte): (ai: nat)
    ensures ai < 32
  {
    header % 32
  }

  /** The header byte carrying major type `mt` and additional type `ai`. */
  function Concat(mt: nat, ai: nat): (header: byte)
    requires mt < 8 && ai < 32
    ensures MajorType(header) == mt && AdditionalType(header) == ai
  {
    mt * 32 + ai
  }

  /** `MajorType` is the bit operation `header >> 5`. */
  lemma MajorTypeIsShift(header: bv8)
    ensures MajorType(header as int) == (header >> 5) as int
  {
  }

  /** `AdditionalType` is the bit operation `header & 0x1f`. */
  lemma AdditionalTypeIsMask(header: bv8)
    ensures AdditionalType(header as int) == (header & 0x1f) as int
  {
  }

  /** `Concat` is the bit operation `mt << 5 | ai`. */
  lemma ConcatIsShiftOr(mt: bv8, ai: bv8)
    requires mt < 8 && ai < 32
    ensures Concat(mt as int, ai as int) == ((mt << 5) | ai) as int
  {
  }

  /** Splitting a header byte and joining the fields gives the byte back. */
  lemma SplitConcat(header: byte)
    ensures Concat(MajorType(header), AdditionalType(header)) == header
  {
  }

  /** A continuation byte 10xxxxxx. */
  predicate IsContinuation(b: byte) {
    0x80 <= b <= 0xBF
  }

  /** Well-formed UTF-8: the byte sequences of the syntax in section 4 of
      RFC 3629, which excludes overlong forms, surrogates and code points
      above U+10FFFF. */
  predicate ValidUtf8(s: seq<byte>)
    decreases |s|
  {
    if s == [] then true
    else if s[0] <= 0x7F then ValidUtf8(s[1..])
    else if 0xC2 <= s[0] <= 0xDF then
      |s| >= 2 && IsContinuation(s[1]) && ValidUtf8(s[2..])
    else if 0xE0 <= s[0] <= 0xEF then
      |s| >= 3 &&
      (if s[0] == 0xE0 then 0xA0 <= s[1] <= 0xBF
       else if s[0] == 0xED then 0x80 <= s[1] <= 0x9F
       else IsContinuation(s[1])) &&
      IsContinuation(s[2]) && ValidUtf8(s[3..])
    else if 0xF0 <= s[0] <= 0xF4 then
      |s| >= 4 &&
      (if s[0] == 0xF0 then 0x90 <= s[1] <= 0xBF
       else if s[0] == 0xF4 then 0x80 <= s[1] <= 0x8F
       else IsContinuation(s[1])) &&
      IsContinuation(s[2]) && IsContinuation(s[3]) && ValidUtf8(s[4..])
    else false
  }

  /** Two well-formed texts side by side are well-formed: a character
      never needs bytes of the text after it. */
  lemma {:induction false} ValidUtf8Concat(a: seq<byte>, b: seq<byte>)
    requires ValidUtf8(a) && ValidUtf8(b)
    ensures ValidUtf8(a + b)
    decreases |a|
  {
    if a == [] {
      assert a + b == b;
    } else {
      var k := if a[0] <= 0x7F then 1 else if a[0] <= 0xDF then 2 else if a[0] <= 0xEF then 3 else 4;
      ValidUtf8Concat(a[k..], b);
      CharThenRest(a, b, k);
    }
  }

  /** The first character of `a` (`k` bytes), then the rest of `a + b`. */
  lemma CharThenRest(a: seq<byte>, b: seq<byte>, k: nat)
    requires a != [] && ValidUtf8(a)
    requires k == if a[0] <= 0x7F then 1 else if a[0] <= 0xDF then 2 else if a[0] <= 0xEF then 3 else 4
    requires k <= |a| && ValidUtf8(a[k..] + b)
    ensures ValidUtf8(a + b)
  {
    assert (a + b)[k..] == a[k..] + b;
    assert (a + b)[0] == a[0];
    if k >= 2 {
      assert (a + b)[1] == a[1];
    }
    if k >= 3 {
      assert (a + b)[2] == a[2];
    }
    if k == 4 {
      assert (a + b)[3] == a[3];
    }
  }

  /** A lone continuation byte, an overlong encoding of "/", and an
      encoded surrogate are not well-formed; "é" and U+10FFFF are. */
  lemma Utf8Examples()
    ensures !ValidUtf8([0x80]) && !ValidUtf8([0xC0, 0xAF]) && !ValidUtf8([0xED, 0xA0, 0x80])
    ensures ValidUtf8([0xC3, 0xA9]) && ValidUtf8([0xF4, 0x8F, 0xBF, 0xBF])
  {
    assert [0xC3, 0xA9][2..] == [];
    assert [0xF4, 0x8F, 0xBF, 0xBF][4..] == [];
  }

  /** Text made of ASCII bytes only is well-formed UTF-8. */
  lemma {:induction false} AsciiIsValidUtf8(s: seq<byte>)
    requires forall i :: 0 <= i < |s| ==> s[i] <= 0x7F
    ensures ValidUtf8(s)
    decreases |s|
  {
    if s != [] {
      AsciiIsValidUtf8(s[1..]);
    }
  }
}
