/**
  Cutting UTF-8 text at a byte limit, and telling text from binary by the first 8 KiB.
 */
module TextBoundaries {
  import opened Utf8

  /** How many bytes a character that starts with `b` should have. */
  function Expected(b: Byte): nat {
    if b >= 0xF0 then 4 else if b >= 0xE0 then 3 else if b >= 0xC0 then 2 else 1
  }

  /**
    Where the trimmed bytes end, looking back from the end over at most three bytes, starting `back` bytes before it.
   */
  function TrimFrom(b: seq<Byte>, back: nat): (end: nat)
    requires back >= 1
    ensures end <= |b| <= end + 3
    decreases 4 - back
  {
    if back > 3 || back > |b| then |b|
    else if IsContinuation(b[|b| - back]) then TrimFrom(b, back + 1)
    else if Expected(b[|b| - back]) > back then |b| - back
    else |b|
  }

  function TrimPoint(b: seq<Byte>): nat {
    TrimFrom(b, 1)
  }

  method TrimToCharacterBoundary(bytes: seq<Byte>) returns (r: seq<Byte>)
    ensures r == bytes[..TrimPoint(bytes)]
  {
    var end := |bytes|;
    var back := 1;
    while back <= 3 && back <= |bytes|
      invariant 1 <= back <= 4 && end == |bytes|
      invariant TrimFrom(bytes, back) == TrimPoint(bytes)
    {
      var byte := bytes[|bytes| - back];
      if byte / 0x40 == 2 {
        back := back + 1;
        continue;
      }
      var expected := if byte >= 0xF0 then 4 else if byte >= 0xE0 then 3 else if byte >= 0xC0 then 2 else 1;
      if expected > back {
        end := |bytes| - back;
      }
      break;
    }
    r := bytes[..end];
  }

  /** The end of the last whole character at or before `k`. */
  ghost function WholeEnd(b: seq<Byte>, k: nat): (m: nat)
    requires k <= |b|
    ensures m <= k
    decreases |b|
  {
    var n := CharLen(b);
    if n == 0 || n > k then 0 else n + WholeEnd(b[n..], k - n)
  }

  /** A prefix that holds the whole first character has the same first character, a shorter one has none. */
  lemma CharLenOfPrefix(b: seq<Byte>, m: nat)
    requires CharLen(b) > 0 && m <= |b|
    ensures CharLen(b[..m]) == (if CharLen(b) <= m then CharLen(b) else 0)
  {
  }

  lemma {:induction false} WholeEndIsLongest(b: seq<Byte>, k: nat, m: nat)
    requires Valid(b) && m <= k <= |b|
    ensures Valid(b[..WholeEnd(b, k)])
    ensures WholeEnd(b, k) < m ==> !Valid(b[..m])
    decreases |b|
  {
    var n := CharLen(b);
    if b == [] {
    } else {
      CharLenOfPrefix(b, m);
      if n <= k {
        var e := WholeEnd(b, k);
        WholeEndIsLongest(b[n..], k - n, if n <= m then m - n else 0);
        CharLenOfPrefix(b, e);
        assert b[..e][n..] == b[n..][..e - n];
        if n <= m {
          assert b[..m][n..] == b[n..][..m - n];
        }
      }
    }
  }

  /** Looking back stops at the first byte of the last part, so what stands before it does not matter. */
  lemma {:induction false} TrimIgnoresFront(front: seq<Byte>, part: seq<Byte>, back: nat)
    requires part != [] && !IsContinuation(part[0]) && 1 <= back <= |part|
    ensures TrimFrom(front + part, back) == |front| + TrimFrom(part, back)
    decreases 4 - back
  {
    var all := front + part;
    assert all[|all| - back] == part[|part| - back];
    if back <= 3 && IsContinuation(part[|part| - back]) {
      TrimIgnoresFront(front, part, back + 1);
    }
  }

  /** A whole character is kept. */
  lemma TrimKeepsCharacter(b: seq<Byte>)
    requires CharLen(b) > 0 && CharLen(b) == |b|
    ensures TrimPoint(b) == |b|
  {
    assert |b| >= 2 ==> TrimFrom(b, 1) == TrimFrom(b, 2);
    assert |b| >= 3 ==> TrimFrom(b, 2) == TrimFrom(b, 3);
  }

  /** A cut character is dropped whole. */
  lemma TrimDropsCutCharacter(b: seq<Byte>, k: nat)
    requires 0 < k < CharLen(b)
    ensures TrimPoint(b[..k]) == 0
  {
    var cut := b[..k];
    assert k >= 2 ==> TrimFrom(cut, 1) == TrimFrom(cut, 2);
    assert k >= 3 ==> TrimFrom(cut, 2) == TrimFrom(cut, 3);
  }

  lemma {:induction false} TrimPointIsWholeEnd(b: seq<Byte>, k: nat)
    requires Valid(b) && k <= |b|
    ensures TrimPoint(b[..k]) == WholeEnd(b, k)
    decreases |b|
  {
    var n := CharLen(b);
    if k == 0 {
    } else {
      if k < n {
        TrimDropsCutCharacter(b, k);
      } else {
        var part := b[n..][..k - n];
        assert b[..k] == b[..n] + part;
        TrimPointIsWholeEnd(b[n..], k - n);
        if part == [] {
          assert b[..k] == b[..n];
          CharLenOfPrefix(b, n);
          TrimKeepsCharacter(b[..n]);
        } else {
          assert CharLen(b[n..]) > 0;
          TrimIgnoresFront(b[..n], part, 1);
        }
      }
    }
  }

  /**
    For every text and every cut point, trimming the cut text gives exactly its longest prefix of whole characters, and
    drops at most three bytes.
   */
  lemma TrimIsLongestWholePrefix(b: seq<Byte>, k: nat)
    requires Valid(b) && k <= |b|
    ensures var m := TrimPoint(b[..k]);
            && m <= k <= m + 3
            && Valid(b[..m])
            && forall longer | m < longer <= k :: !Valid(b[..longer])
  {
    TrimPointIsWholeEnd(b, k);
    forall longer | 0 <= longer <= k
      ensures Valid(b[..WholeEnd(b, k)]) && (WholeEnd(b, k) < longer ==> !Valid(b[..longer]))
    {
      WholeEndIsLongest(b, k, longer);
    }
  }

  // ----- Text or binary -----

  const BINARY_SNIFF_BYTES: nat := 8192

  function Head(b: seq<Byte>): seq<Byte> {
    if |b| <= BINARY_SNIFF_BYTES then b else b[..BINARY_SNIFF_BYTES]
  }

  predicate LooksBinary(b: seq<Byte>) {
    if 0 in Head(b) then true
    else if |b| > BINARY_SNIFF_BYTES then !DecodesStream(Head(b))
    else !DecodesWhole(Head(b))
  }

  /**
    Exactly which files pass as text: those whose first 8 KiB hold no NUL and are well-formed UTF-8, or, for a longer
    file, the beginning of well-formed UTF-8.
   */
  lemma PassesAsTextIff(b: seq<Byte>)
    ensures !LooksBinary(b) <==>
              if |b| <= 8192 then 0 !in b && Valid(b) else 0 !in b[..8192] && exists rest :: Valid(b[..8192] + rest)
  {
    DecodesWholeIffValid(Head(b));
    DecodesStreamIffCutText(Head(b));
  }

  /** Text without NUL is never called binary, whatever its length and wherever the 8 KiB boundary cuts a character. */
  lemma TextIsNeverBinary(b: seq<Byte>)
    requires Valid(b) && 0 !in b
    ensures !LooksBinary(b)
  {
    PassesAsTextIff(b);
    if |b| > BINARY_SNIFF_BYTES {
      assert Head(b) + b[BINARY_SNIFF_BYTES..] == b;
    }
  }
}
