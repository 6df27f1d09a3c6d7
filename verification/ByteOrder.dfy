/**
  The order of relative paths: the lexicographic order of their UTF-8 bytes, which is the order of their code points.
 */
module ByteOrder {
  import opened Utf8

  /** Negative, zero or positive as `left` comes before, is, or comes after `right`. */
  function Compare(left: seq<Byte>, right: seq<Byte>): int {
    if left == [] || right == [] then |left| - |right|
    else if left[0] != right[0] then left[0] as int - right[0] as int
    else Compare(left[1..], right[1..])
  }

  method CompareUtf8Bytes(left: seq<Byte>, right: seq<Byte>) returns (r: int)
    ensures r == Compare(left, right)
  {
    var shared := if |left| < |right| then |left| else |right|;
    for index := 0 to shared
      invariant Compare(left[index..], right[index..]) == Compare(left, right)
    {
      var difference := left[index] as int - right[index] as int;
      if difference != 0 {
        return difference;
      }
      assert left[index..][1..] == left[index + 1..] && right[index..][1..] == right[index + 1..];
    }
    r := |left| - |right|;
  }

  lemma {:induction false} CompareIsZeroIffEqual(a: seq<Byte>, b: seq<Byte>)
    ensures Compare(a, b) == 0 <==> a == b
  {
    if a == [] || b == [] {
    } else {
      CompareIsZeroIffEqual(a[1..], b[1..]);
      assert a == [a[0]] + a[1..] && b == [b[0]] + b[1..];
    }
  }

  lemma {:induction false} CompareIsAntisymmetric(a: seq<Byte>, b: seq<Byte>)
    ensures Compare(a, b) == -Compare(b, a)
  {
    if a == [] || b == [] {
    } else {
      CompareIsAntisymmetric(a[1..], b[1..]);
    }
  }

  lemma {:induction false} CompareIsTransitive(a: seq<Byte>, b: seq<Byte>, c: seq<Byte>)
    requires Compare(a, b) <= 0 && Compare(b, c) <= 0
    ensures Compare(a, c) <= 0
  {
    if a != [] && b != [] && c != [] && a[0] == b[0] == c[0] {
      CompareIsTransitive(a[1..], b[1..], c[1..]);
    }
  }

  // ----- Byte order is code point order -----

  function CompareScalars(left: seq<Scalar>, right: seq<Scalar>): int {
    if left == [] || right == [] then |left| - |right|
    else if left[0] != right[0] then left[0] as int - right[0] as int
    else CompareScalars(left[1..], right[1..])
  }

  lemma {:induction false} CompareSamePrefix(p: seq<Byte>, a: seq<Byte>, b: seq<Byte>)
    ensures Compare(p + a, p + b) == Compare(a, b)
  {
    if p == [] {
      assert p + a == a && p + b == b;
    } else {
      assert (p + a)[1..] == p[1..] + a && (p + b)[1..] == p[1..] + b;
      CompareSamePrefix(p[1..], a, b);
    }
  }

  /** The first byte that differs decides. */
  lemma FirstDifference(a: seq<Byte>, b: seq<Byte>, i: nat)
    requires i < |a| && i < |b| && a[..i] == b[..i] && a[i] < b[i]
    ensures Compare(a, b) < 0
  {
    assert a == a[..i] + a[i..] && b == b[..i] + b[i..];
    CompareSamePrefix(a[..i], a[i..], b[i..]);
  }

  /** The encoding of a smaller scalar value differs first at a smaller byte. */
  lemma SmallerScalar(v: Scalar, w: Scalar, a: seq<Byte>, b: seq<Byte>)
    requires v < w
    ensures Compare(EncodeScalar(v) + a, EncodeScalar(w) + b) < 0
  {
    var i := FirstDifferentByte(v, w);
    FirstDifference(EncodeScalar(v) + a, EncodeScalar(w) + b, i);
  }

  lemma DigitsOrder(x: int, y: int)
    requires x < y
    ensures x / 0x40 < y / 0x40 || (x / 0x40 == y / 0x40 && Tail(x) < Tail(y))
  {
  }

  lemma LongerStartsHigher(v: Scalar, w: Scalar)
    requires v < w && |EncodeScalar(v)| != |EncodeScalar(w)|
    ensures EncodeScalar(v)[0] < EncodeScalar(w)[0]
  {
  }

  lemma FirstDifferentByte(v: Scalar, w: Scalar) returns (i: nat)
    requires v < w
    ensures i < |EncodeScalar(v)| && i < |EncodeScalar(w)|
    ensures EncodeScalar(v)[..i] == EncodeScalar(w)[..i] && EncodeScalar(v)[i] < EncodeScalar(w)[i]
  {
    var p, q := EncodeScalar(v), EncodeScalar(w);
    var x, y := v as int, w as int;
    i := 0;
    if |p| != |q| {
      LongerStartsHigher(v, w);
    } else if |p| > 1 {
      DigitsOrder(x, y);
      i := |p| - 1;
      if x / 0x40 < y / 0x40 {
        i := i - 1;
        if |p| > 2 {
          DigitsOrder(x / 0x40, y / 0x40);
          if x / 0x40 / 0x40 < y / 0x40 / 0x40 {
            i := i - 1;
            if |p| > 3 {
              DigitsOrder(x / 0x40 / 0x40, y / 0x40 / 0x40);
              if x / 0x40 / 0x40 / 0x40 < y / 0x40 / 0x40 / 0x40 {
                i := 0;
              }
            }
          }
        }
      }
    }
  }

  /** Sorting paths by their bytes is sorting them by code points. */
  lemma {:induction false} ByteOrderIsCodePointOrder(a: seq<Scalar>, b: seq<Scalar>)
    ensures Compare(Encode(a), Encode(b)) < 0 <==> CompareScalars(a, b) < 0
    ensures Compare(Encode(a), Encode(b)) == 0 <==> CompareScalars(a, b) == 0
  {
    if a == [] || b == [] {
    } else {
      if a[0] == b[0] {
        CompareSamePrefix(EncodeScalar(a[0]), Encode(a[1..]), Encode(b[1..]));
        ByteOrderIsCodePointOrder(a[1..], b[1..]);
      } else if a[0] < b[0] {
        SmallerScalar(a[0], b[0], Encode(a[1..]), Encode(b[1..]));
      } else {
        SmallerScalar(b[0], a[0], Encode(b[1..]), Encode(a[1..]));
        CompareIsAntisymmetric(Encode(a), Encode(b));
      }
    }
  }
}
