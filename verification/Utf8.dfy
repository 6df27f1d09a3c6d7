/**
  UTF-8 as section 4 of RFC 3629 defines it, the streaming decoder of the WHATWG Encoding Standard, and the encoder,
  with the proofs that the three agree.
 */
module Utf8 {
  import opened Options

  newtype Byte = x: int | 0 <= x < 0x100

  /** A Unicode scalar value: a code point that is not a surrogate. */
  newtype Scalar = x: int | 0 <= x < 0x11_0000 && !(0xD800 <= x < 0xE000)

  /** The two top bits are 1 and 0. */
  predicate IsContinuation(b: Byte) {
    b / 0x40 == 2
  }

  predicate SecondOfThree(first: Byte, second: Byte) {
    IsContinuation(second) && (first == 0xE0 ==> second >= 0xA0) && (first == 0xED ==> second < 0xA0)
  }

  predicate SecondOfFour(first: Byte, second: Byte) {
    IsContinuation(second) && (first == 0xF0 ==> second >= 0x90) && (first == 0xF4 ==> second < 0x90)
  }

  /** The length of the well-formed character at the front of a byte string, or 0 when there is none. */
  function CharLen(b: seq<Byte>): (n: nat)
    ensures n <= |b| && n <= 4
  {
    if b == [] then 0
    else if b[0] < 0x80 then 1
    else if 0xC2 <= b[0] < 0xE0 then
      if |b| >= 2 && IsContinuation(b[1]) then 2 else 0
    else if 0xE0 <= b[0] < 0xF0 then
      if |b| >= 3 && SecondOfThree(b[0], b[1]) && IsContinuation(b[2]) then 3 else 0
    else if 0xF0 <= b[0] < 0xF5 then
      if |b| >= 4 && SecondOfFour(b[0], b[1]) && IsContinuation(b[2]) && IsContinuation(b[3]) then 4 else 0
    else 0
  }

  /** A byte string that is a sequence of well-formed characters. */
  predicate Valid(b: seq<Byte>) {
    b == [] || (CharLen(b) > 0 && Valid(b[CharLen(b)..]))
  }

  // -------------------------------------------------------------------------------------------------------------------
  // The streaming decoder
  // -------------------------------------------------------------------------------------------------------------------

  /** How many bytes the current character still needs, and the range its next byte must lie in. */
  datatype Decoder = Decoder(needed: nat, lower: int, upper: int)

  const READY: Decoder := Decoder(0, 0x80, 0xBF)

  /** One byte; `None` is a decoding error. */
  function DecodeByte(d: Decoder, b: Byte): Option<Decoder> {
    var x := b as int;
    if d.needed == 0 then
      if x < 0x80 then Some(READY)
      else if 0xC2 <= x < 0xE0 then Some(Decoder(1, 0x80, 0xBF))
      else if 0xE0 <= x < 0xF0 then
        Some(Decoder(2, if x == 0xE0 then 0xA0 else 0x80, if x == 0xED then 0x9F else 0xBF))
      else if 0xF0 <= x < 0xF5 then
        Some(Decoder(3, if x == 0xF0 then 0x90 else 0x80, if x == 0xF4 then 0x8F else 0xBF))
      else None
    else if d.lower <= x <= d.upper then Some(Decoder(d.needed - 1, 0x80, 0xBF))
    else None
  }

  function Feed(d: Decoder, b: seq<Byte>): Option<Decoder>
    decreases |b|
  {
    if b == [] then Some(d)
    else
      var next := DecodeByte(d, b[0]);
      if next.None? then None else Feed(next.value, b[1..])
  }

  /** A fatal decode of a whole text succeeds. */
  predicate DecodesWhole(b: seq<Byte>) {
    Feed(READY, b).Some? && Feed(READY, b).value.needed == 0
  }

  /** A fatal decode with more to come succeeds: an incomplete character at the end is kept for later. */
  predicate DecodesStream(b: seq<Byte>) {
    Feed(READY, b).Some?
  }

  lemma {:induction false} FeedConcat(d: Decoder, a: seq<Byte>, b: seq<Byte>)
    ensures Feed(d, a + b) == (if Feed(d, a).None? then None else Feed(Feed(d, a).value, b))
    decreases |a|
  {
    if a == [] {
      assert a + b == b;
    } else {
      assert (a + b)[1..] == a[1..] + b;
      var next := DecodeByte(d, a[0]);
      if next.Some? {
        FeedConcat(next.value, a[1..], b);
      }
    }
  }

  /** Reading the bytes of one character. */
  lemma FeedOne(d: Decoder, b: seq<Byte>)
    requires b != []
    ensures Feed(d, b) == (if DecodeByte(d, b[0]).None? then None else Feed(DecodeByte(d, b[0]).value, b[1..]))
  {
  }

  /** The decoder reads a well-formed character and is ready for the next one. */
  lemma FeedCharacter(b: seq<Byte>)
    requires CharLen(b) > 0
    ensures Feed(READY, b) == Feed(READY, b[CharLen(b)..])
  {
    var n := CharLen(b);
    FeedOne(READY, b);
    if n >= 2 {
      FeedOne(DecodeByte(READY, b[0]).value, b[1..]);
      assert b[1..][1..] == b[2..];
    }
    if n >= 3 {
      FeedOne(Decoder(n - 2, 0x80, 0xBF), b[2..]);
      assert b[2..][1..] == b[3..];
    }
    if n == 4 {
      FeedOne(Decoder(1, 0x80, 0xBF), b[3..]);
      assert b[3..][1..] == b[4..];
    }
  }

  /** At a front that is not a well-formed character the decoder fails or waits for more bytes. */
  lemma FeedBroken(b: seq<Byte>)
    requires b != [] && CharLen(b) == 0
    ensures Feed(READY, b).Some? ==> Feed(READY, b).value.needed > 0
  {
    FeedOne(READY, b);
    var first := DecodeByte(READY, b[0]);
    if first.Some? && |b| >= 2 {
      FeedOne(first.value, b[1..]);
      assert b[1..][1..] == b[2..];
      if |b| >= 3 {
        FeedOne(Decoder(first.value.needed - 1, 0x80, 0xBF), b[2..]);
        assert b[2..][1..] == b[3..];
        if |b| >= 4 {
          FeedOne(Decoder(1, 0x80, 0xBF), b[3..]);
        }
      }
    }
  }

  /** The whole-text decoder accepts exactly the byte strings of section 4 of RFC 3629. */
  lemma {:induction false} DecodesWholeIffValid(b: seq<Byte>)
    ensures DecodesWhole(b) <==> Valid(b)
    decreases |b|
  {
    if b == [] {
    } else {
      if CharLen(b) > 0 {
        FeedCharacter(b);
        DecodesWholeIffValid(b[CharLen(b)..]);
      } else {
        FeedBroken(b);
      }
    }
  }

  ghost predicate Sensible(d: Decoder) {
    0x80 <= d.lower <= d.upper <= 0xBF
  }

  lemma {:induction false} FeedStaysSensible(d: Decoder, b: seq<Byte>)
    requires Sensible(d) && Feed(d, b).Some?
    ensures Sensible(Feed(d, b).value)
    decreases |b|
  {
    if b == [] {
    } else {
      FeedStaysSensible(DecodeByte(d, b[0]).value, b[1..]);
    }
  }

  /** Bytes that complete the character a decoder is reading. */
  function Completion(d: Decoder): seq<Byte>
    requires 0x80 <= d.lower <= 0xBF
    decreases d.needed
  {
    if d.needed == 0 then [] else [d.lower as Byte] + Completion(Decoder(d.needed - 1, 0x80, 0xBF))
  }

  lemma {:induction false} CompletionCompletes(d: Decoder)
    requires Sensible(d)
    ensures Feed(d, Completion(d)).Some? && Feed(d, Completion(d)).value.needed == 0
    decreases d.needed
  {
    if d.needed > 0 {
      var next := Decoder(d.needed - 1, 0x80, 0xBF);
      assert Completion(d)[1..] == Completion(next);
      CompletionCompletes(next);
    }
  }

  lemma CutTextCompletes(b: seq<Byte>)
    requires DecodesStream(b)
    ensures exists rest :: Valid(b + rest)
  {
    FeedStaysSensible(READY, b);
    var d := Feed(READY, b).value;
    CompletionCompletes(d);
    FeedConcat(READY, b, Completion(d));
    DecodesWholeIffValid(b + Completion(d));
  }

  lemma CutTextStreams(b: seq<Byte>, rest: seq<Byte>)
    requires Valid(b + rest)
    ensures DecodesStream(b)
  {
    DecodesWholeIffValid(b + rest);
    FeedConcat(READY, b, rest);
  }

  /** The streaming decoder accepts exactly the cut-off fronts of well-formed texts. */
  lemma DecodesStreamIffCutText(b: seq<Byte>)
    ensures DecodesStream(b) <==> exists rest :: Valid(b + rest)
  {
    if DecodesStream(b) {
      CutTextCompletes(b);
    }
    if rest :| Valid(b + rest) {
      CutTextStreams(b, rest);
    }
  }

  // -------------------------------------------------------------------------------------------------------------------
  // The encoder
  // -------------------------------------------------------------------------------------------------------------------

  /** The encoding, six bits at a time from the end. */
  function EncodeScalar(v: Scalar): (b: seq<Byte>)
    ensures 1 <= |b| <= 4
  {
    var x := v as int;
    var y := x / 0x40;
    var z := y / 0x40;
    var w := z / 0x40;
    if x < 0x80 then [x as Byte]
    else if x < 0x800 then [(0xC0 + y) as Byte, Tail(x)]
    else if x < 0x1_0000 then [(0xE0 + z) as Byte, Tail(y), Tail(x)]
    else [(0xF0 + w) as Byte, Tail(z), Tail(y), Tail(x)]
  }

  /** A continuation byte with the six low bits of `x`. */
  function Tail(x: int): (b: Byte)
    ensures IsContinuation(b)
  {
    (0x80 + x % 0x40) as Byte
  }

  function Encode(vs: seq<Scalar>): seq<Byte> {
    if vs == [] then [] else EncodeScalar(vs[0]) + Encode(vs[1..])
  }

  /** `high` followed by the six bits of a continuation byte. */
  function Append(high: int, b: Byte): int {
    high * 0x40 + (b as int - 0x80)
  }

  /** The scalar value of the character at the front. */
  function DecodeChar(b: seq<Byte>): Scalar
    requires CharLen(b) > 0
  {
    var n := CharLen(b);
    var b0 := b[0] as int;
    if n == 1 then b0 as Scalar
    else if n == 2 then Append(b0 - 0xC0, b[1]) as Scalar
    else if n == 3 then Append(Append(b0 - 0xE0, b[1]), b[2]) as Scalar
    else Append(Append(Append(b0 - 0xF0, b[1]), b[2]), b[3]) as Scalar
  }

  function Decode(b: seq<Byte>): seq<Scalar>
    requires Valid(b)
  {
    if b == [] then [] else [DecodeChar(b)] + Decode(b[CharLen(b)..])
  }

  lemma EncodedCharacter(v: Scalar, rest: seq<Byte>)
    ensures CharLen(EncodeScalar(v) + rest) == |EncodeScalar(v)|
    ensures DecodeChar(EncodeScalar(v) + rest) == v
  {
    var x := v as int;
    var y := x / 0x40;
    AppendTail(x);
    AppendTail(y);
    AppendTail(y / 0x40);
  }

  lemma AppendTail(x: int)
    ensures Append(x / 0x40, Tail(x)) == x
  {
  }

  lemma TailAppend(high: int, b: Byte)
    requires IsContinuation(b)
    ensures Append(high, b) / 0x40 == high && Tail(Append(high, b)) == b
  {
  }

  /** A text whose first character is known. */
  lemma FrontCharacter(b: seq<Byte>, n: nat, rest: seq<Byte>, v: Scalar)
    requires n > 0 && CharLen(b) == n && rest == b[n..] && Valid(rest) && DecodeChar(b) == v
    ensures Valid(b) && Decode(b) == [v] + Decode(rest)
  {
  }

  lemma EncodedFront(v: Scalar, vs: seq<Scalar>, b: seq<Byte>, rest: seq<Byte>)
    requires b == Encode([v] + vs) && rest == Encode(vs) && Valid(rest)
    ensures Valid(b) && Decode(b) == [v] + Decode(rest)
  {
    var n := |EncodeScalar(v)|;
    EncodeCons(v, vs);
    EncodedCharacter(v, rest);
    assert b[n..] == rest;
    FrontCharacter(b, n, rest, v);
  }

  lemma EncodeCons(v: Scalar, vs: seq<Scalar>)
    ensures Encode([v] + vs) == EncodeScalar(v) + Encode(vs)
  {
    assert ([v] + vs)[1..] == vs;
  }

  /** What the encoder writes is well-formed, and decoding it gives the text back. */
  lemma {:induction false} DecodeEncode(vs: seq<Scalar>)
    ensures Valid(Encode(vs)) && Decode(Encode(vs)) == vs
  {
    if vs == [] {
      return;
    }
    var v, rest := vs[0], vs[1..];
    assert vs == [v] + rest;
    DecodeEncode(rest);
    EncodedFront(v, rest, Encode(vs), Encode(rest));
  }

  lemma DecodedCharacter(b: seq<Byte>)
    requires CharLen(b) > 0
    ensures EncodeScalar(DecodeChar(b)) == b[..CharLen(b)]
  {
    var n := CharLen(b);
    var b0 := b[0] as int;
    if n == 2 {
      TailAppend(b0 - 0xC0, b[1]);
    } else if n == 3 {
      TailAppend(b0 - 0xE0, b[1]);
      TailAppend(Append(b0 - 0xE0, b[1]), b[2]);
    } else if n == 4 {
      TailAppend(b0 - 0xF0, b[1]);
      TailAppend(Append(b0 - 0xF0, b[1]), b[2]);
      TailAppend(Append(Append(b0 - 0xF0, b[1]), b[2]), b[3]);
    }
  }

  lemma DecodedFront(b: seq<Byte>, n: nat, rest: seq<Byte>)
    requires Valid(b) && n > 0 && CharLen(b) == n && rest == b[n..]
    ensures Valid(rest) && Encode(Decode(b)) == b[..n] + Encode(Decode(rest))
  {
    FrontCharacter(b, n, rest, DecodeChar(b));
    EncodeCons(DecodeChar(b), Decode(rest));
    DecodedCharacter(b);
  }

  /** Every well-formed byte string is the encoding of the text it decodes to. */
  lemma {:induction false} EncodeDecode(b: seq<Byte>)
    requires Valid(b)
    ensures Encode(Decode(b)) == b
    decreases |b|
  {
    if b == [] {
      return;
    }
    DecodedFront(b, CharLen(b), b[CharLen(b)..]);
    EncodeDecode(b[CharLen(b)..]);
  }

  lemma EncodeInjective(a: seq<Scalar>, b: seq<Scalar>)
    requires Encode(a) == Encode(b)
    ensures a == b
  {
    DecodeEncode(a);
    DecodeEncode(b);
  }
}
