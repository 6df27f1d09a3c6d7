/**
  The hash input of a directory tree. Each descendant is written as one line of text, the lines are put in the byte
  order of their paths, and the text is encoded. The bytes are canonical, since the order in which the descendants are
  given does not show, and they determine the tree, since a decoder reads the lines back. Both laws are proved together
  with their exact limits.
 */
module TreeHash {
  import opened Options
  import opened Utf8
  import opened Utf16
  import opened ByteOrder
  import opened StableSort

  datatype Descendant =
    | File(relativePath: JsString, size: nat)
    | Symlink(relativePath: JsString, target: JsString)
    | Dir(relativePath: JsString)

  const NUL: CodeUnit := 0

  /** "file", "symlink" or "dir". */
  function KindName(d: Descendant): JsString {
    match d
    case File(_, _) => [0x66, 0x69, 0x6C, 0x65]
    case Symlink(_, _) => [0x73, 0x79, 0x6D, 0x6C, 0x69, 0x6E, 0x6B]
    case Dir(_) => [0x64, 0x69, 0x72]
  }

  lemma KindNames(d: Descendant)
    ensures Spells(KindName(d), match d case File(_, _) => "file" case Symlink(_, _) => "symlink" case Dir(_) => "dir")
    ensures Spells([NUL], "\0")
  {
  }

  /** The decimal digits of a number. */
  function Decimal(n: nat): JsString {
    if n < 10 then [(0x30 + n) as CodeUnit] else Decimal(n / 10) + [(0x30 + n % 10) as CodeUnit]
  }

  function Value(d: Descendant): JsString {
    match d
    case File(_, size) => Decimal(size)
    case Symlink(_, target) => target
    case Dir(_) => [0x30]
  }

  function Line(d: Descendant): JsString {
    KindName(d) + [NUL] + d.relativePath + [NUL] + Value(d) + [LF]
  }

  function Lines(ds: seq<Descendant>): JsString {
    if ds == [] then [] else Line(ds[0]) + Lines(ds[1..])
  }

  /** What a descendant is sorted by. */
  function SortKey(d: Descendant): seq<Byte> {
    Encode(ToScalars(d.relativePath))
  }

  /** The comparison the descendants are sorted by. */
  predicate NotAfter(a: Descendant, b: Descendant) {
    Compare(SortKey(a), SortKey(b)) <= 0
  }

  function InPathOrder(ds: seq<Descendant>): seq<Descendant> {
    Sort(ds, NotAfter)
  }

  function TreeHashInput(ds: seq<Descendant>): seq<Byte> {
    Encode(ToScalars(Lines(InPathOrder(ds))))
  }

  // -------------------------------------------------------------------------------------------------------------------
  // Sorting
  // -------------------------------------------------------------------------------------------------------------------

  lemma NotAfterIsTotal()
    ensures TotalPreorder(NotAfter)
  {
    forall x, y
      ensures NotAfter(x, y) || NotAfter(y, x)
    {
      CompareIsAntisymmetric(SortKey(x), SortKey(y));
    }
    forall x, y, z | NotAfter(x, y) && NotAfter(y, z)
      ensures NotAfter(x, z)
    {
      CompareIsTransitive(SortKey(x), SortKey(y), SortKey(z));
    }
  }

  // -------------------------------------------------------------------------------------------------------------------
  // Reading the lines back
  // -------------------------------------------------------------------------------------------------------------------

  datatype Kind = FileKind | SymlinkKind | DirKind

  /** A line as the scalar values of its parts. */
  datatype Entry = Entry(kind: Kind, path: seq<Scalar>, value: seq<Scalar>)

  function KindText(kind: Kind): seq<Scalar> {
    match kind
    case FileKind => [0x66, 0x69, 0x6C, 0x65]
    case SymlinkKind => [0x73, 0x79, 0x6D, 0x6C, 0x69, 0x6E, 0x6B]
    case DirKind => [0x64, 0x69, 0x72]
  }

  function KindFromText(t: seq<Scalar>): Option<Kind> {
    if t == KindText(FileKind) then Some(FileKind)
    else if t == KindText(SymlinkKind) then Some(SymlinkKind)
    else if t == KindText(DirKind) then Some(DirKind)
    else None
  }

  lemma KindRoundTrip(kind: Kind)
    ensures KindFromText(KindText(kind)) == Some(kind)
    ensures 0 !in KindText(kind) && 10 !in KindText(kind)
  {
    assert |KindText(FileKind)| == 4 && |KindText(SymlinkKind)| == 7 && |KindText(DirKind)| == 3;
  }

  /** What follows `kind NUL` in the serialisation of `e` and the entries after it. */
  function AfterKind(e: Entry, rest: seq<Entry>): seq<Scalar>
    decreases |rest|, 1
  {
    e.path + ([0] + (e.value + ([10] + Serialize(rest))))
  }

  function Serialize(es: seq<Entry>): seq<Scalar>
    decreases |es|, 0
  {
    if es == [] then [] else KindText(es[0].kind) + ([0] + AfterKind(es[0], es[1..]))
  }

  /** The parts before and after the first `x`. */
  function SplitFirst(t: seq<Scalar>, x: Scalar): (r: Option<(seq<Scalar>, seq<Scalar>)>)
    ensures r.Some? ==> |r.value.1| < |t|
  {
    if t == [] then None
    else if t[0] == x then Some(([], t[1..]))
    else
      var rest := SplitFirst(t[1..], x);
      if rest.None? then None else Some(([t[0]] + rest.value.0, rest.value.1))
  }

  /** The parts before and after the last `x`. */
  function SplitLast(t: seq<Scalar>, x: Scalar): Option<(seq<Scalar>, seq<Scalar>)> {
    if t == [] then None
    else
      var n := |t| - 1;
      if t[n] == x then Some((t[..n], []))
      else
        var rest := SplitLast(t[..n], x);
        if rest.None? then None else Some((rest.value.0, rest.value.1 + [t[n]]))
  }

  /** The last line ends in a line feed. */
  function ParseEnd(kind: Kind, path: seq<Scalar>, u: seq<Scalar>): Option<seq<Entry>> {
    if u == [] || u[|u| - 1] != 10 then None else Some([Entry(kind, path, u[..|u| - 1])])
  }

  /** Read the entries from the text after a `kind NUL`: the value ends at the last line feed before the next NUL. */
  function ParseAfterKind(kind: Kind, t: seq<Scalar>): Option<seq<Entry>>
    decreases |t|
  {
    match SplitFirst(t, 0)
    case None => None
    case Some((path, u)) =>
      match SplitFirst(u, 0)
      case None => ParseEnd(kind, path, u)
      case Some((chunk, tail)) =>
        match SplitLast(chunk, 10)
        case None => None
        case Some((value, name)) =>
          var next := KindFromText(name);
          if next.None? then None
          else
            var rest := ParseAfterKind(next.value, tail);
            if rest.None? then None else Some([Entry(kind, path, value)] + rest.value)
  }

  function Parse(t: seq<Scalar>): Option<seq<Entry>> {
    if t == [] then Some([])
    else
      match SplitFirst(t, 0)
      case None => None
      case Some((name, rest)) =>
        var kind := KindFromText(name);
        if kind.None? then None else ParseAfterKind(kind.value, rest)
  }

  ghost predicate NulFree(es: seq<Entry>) {
    forall e | e in es :: 0 !in e.path && 0 !in e.value
  }

  lemma {:induction false} SplitFirstAt(a: seq<Scalar>, x: Scalar, b: seq<Scalar>)
    requires x !in a
    ensures SplitFirst(a + ([x] + b), x) == Some((a, b))
  {
    var t := a + ([x] + b);
    if a == [] {
      assert t[1..] == b;
    } else {
      assert t[1..] == a[1..] + ([x] + b);
      SplitFirstAt(a[1..], x, b);
      assert [a[0]] + a[1..] == a;
    }
  }

  lemma {:induction false} SplitLastAt(a: seq<Scalar>, x: Scalar, b: seq<Scalar>)
    requires x !in b
    ensures SplitLast(a + ([x] + b), x) == Some((a, b))
  {
    var t := a + ([x] + b);
    if b == [] {
      assert t[..|t| - 1] == a;
    } else {
      var init := b[..|b| - 1];
      assert t[..|t| - 1] == a + ([x] + init);
      SplitLastAt(a, x, init);
      assert init + [b[|b| - 1]] == b;
    }
  }

  lemma {:induction false} SplitFirstAbsent(a: seq<Scalar>, x: Scalar)
    requires x !in a
    ensures SplitFirst(a, x) == None
  {
    if a == [] {
    } else {
      SplitFirstAbsent(a[1..], x);
    }
  }

  /** Reading the last entry. */
  lemma ParseLast(kind: Kind, path: seq<Scalar>, value: seq<Scalar>)
    requires 0 !in path && 0 !in value
    ensures ParseAfterKind(kind, path + ([0] + (value + [10]))) == Some([Entry(kind, path, value)])
  {
    var u := value + [10];
    SplitFirstAt(path, 0, u);
    SplitFirstAbsent(u, 0);
    assert u[..|u| - 1] == value;
  }

  /** Reading an entry that another one follows. */
  lemma ParseNext(kind: Kind, path: seq<Scalar>, value: seq<Scalar>, next: Kind, tail: seq<Scalar>)
    requires 0 !in path && 0 !in value
    ensures var rest := ParseAfterKind(next, tail);
            ParseAfterKind(kind, path + ([0] + (value + ([10] + (KindText(next) + ([0] + tail))))))
            == if rest.None? then None else Some([Entry(kind, path, value)] + rest.value)
  {
    var name := KindText(next);
    var chunk := value + ([10] + name);
    var u := value + ([10] + (name + ([0] + tail)));
    Regroup(value, [10] + name, [0] + tail);
    Regroup([10], name, [0] + tail);
    assert u == chunk + ([0] + tail);
    KindRoundTrip(next);
    SplitFirstAt(path, 0, u);
    SplitFirstAt(chunk, 0, tail);
    SplitLastAt(value, 10, name);
  }

  lemma Regroup(a: seq<Scalar>, b: seq<Scalar>, c: seq<Scalar>)
    ensures (a + b) + c == a + (b + c)
  {
  }

  /** Reading back what was written, entry by entry. */
  lemma {:induction false} ParseAfterKindSerialize(e: Entry, rest: seq<Entry>)
    requires 0 !in e.path && 0 !in e.value && NulFree(rest)
    ensures ParseAfterKind(e.kind, AfterKind(e, rest)) == Some([e] + rest)
    decreases |rest|
  {
    if rest == [] {
      ParseLast(e.kind, e.path, e.value);
      assert AfterKind(e, rest) == e.path + ([0] + (e.value + [10]));
      assert [e] + rest == [e];
      assert e == Entry(e.kind, e.path, e.value);
    } else {
      var next := rest[0];
      ParseAfterKindSerialize(next, rest[1..]);
      assert [next] + rest[1..] == rest;
      ParseNext(e.kind, e.path, e.value, next.kind, AfterKind(next, rest[1..]));
    }
  }

  /** The serialisation of NUL-free entries can be undone, even when paths and values hold line feeds. */
  lemma ParseSerialize(es: seq<Entry>)
    requires NulFree(es)
    ensures Parse(Serialize(es)) == Some(es)
  {
    if es != [] {
      KindRoundTrip(es[0].kind);
      SplitFirstAt(KindText(es[0].kind), 0, AfterKind(es[0], es[1..]));
      assert [es[0]] + es[1..] == es;
      ParseAfterKindSerialize(es[0], es[1..]);
    }
  }

  // -------------------------------------------------------------------------------------------------------------------
  // From strings to entries
  // -------------------------------------------------------------------------------------------------------------------

  function EntryOf(d: Descendant): Entry {
    Entry(match d case File(_, _) => FileKind case Symlink(_, _) => SymlinkKind case Dir(_) => DirKind,
          ToScalars(d.relativePath), ToScalars(Value(d)))
  }

  function EntriesOf(ds: seq<Descendant>): seq<Entry> {
    if ds == [] then [] else [EntryOf(ds[0])] + EntriesOf(ds[1..])
  }

  lemma ToScalarsUnit(u: CodeUnit)
    requires !IsHigh(u) && !IsLow(u)
    ensures ToScalars([u]) == [(u as int) as Scalar]
  {
    assert [u][1..] == [];
  }

  lemma KindScalars(d: Descendant)
    ensures ToScalars(KindName(d)) == KindText(EntryOf(d).kind)
  {
    PlainScalars(KindName(d));
  }

  /** Code units that are no surrogates stand for themselves. */
  lemma {:induction false} PlainScalars(s: JsString)
    requires forall u | u in s :: !IsHigh(u) && !IsLow(u)
    ensures |ToScalars(s)| == |s|
    ensures forall i | 0 <= i < |s| :: ToScalars(s)[i] as int == s[i] as int
  {
    if s == [] {
    } else {
      PlainScalars(s[1..]);
    }
  }

  /** A separator splits the text. */
  lemma ScalarsAroundSeparator(a: JsString, u: CodeUnit, b: JsString)
    requires !IsHigh(u) && !IsLow(u)
    ensures ToScalars(a + ([u] + b)) == ToScalars(a) + ([(u as int) as Scalar] + ToScalars(b))
  {
    ToScalarsConcat(a, [u] + b);
    ToScalarsConcat([u], b);
    ToScalarsUnit(u);
  }

  lemma LineParts(kind: JsString, path: JsString, value: JsString, rest: JsString)
    ensures kind + [NUL] + path + [NUL] + value + [LF] + rest
              == kind + ([NUL] + (path + ([NUL] + (value + ([LF] + rest)))))
  {
  }

  /** A line is read as the scalar values of its parts, whatever the strings hold. */
  lemma LineScalars(d: Descendant, rest: JsString)
    ensures ToScalars(Line(d) + rest)
            == KindText(EntryOf(d).kind) + ([0] + (ToScalars(d.relativePath)
                                                   + ([0] + (ToScalars(Value(d)) + ([10] + ToScalars(rest))))))
  {
    var valuePart := Value(d) + ([LF] + rest);
    var pathPart := d.relativePath + ([NUL] + valuePart);
    LineParts(KindName(d), d.relativePath, Value(d), rest);
    KindScalars(d);
    ScalarsAroundSeparator(KindName(d), NUL, pathPart);
    ScalarsAroundSeparator(d.relativePath, NUL, valuePart);
    ScalarsAroundSeparator(Value(d), LF, rest);
  }

  lemma {:induction false} LinesScalars(ds: seq<Descendant>)
    ensures ToScalars(Lines(ds)) == Serialize(EntriesOf(ds))
  {
    if ds == [] {
    } else {
      LinesScalars(ds[1..]);
      LineScalars(ds[0], Lines(ds[1..]));
      assert EntriesOf(ds)[1..] == EntriesOf(ds[1..]);
    }
  }

  /** NUL-free paths and targets; line feeds are allowed. */
  ghost predicate Clean(ds: seq<Descendant>) {
    forall d | d in ds :: 0 !in d.relativePath && (d.Symlink? ==> 0 !in d.target)
  }

  /** Strings without unpaired surrogates. */
  ghost predicate AllWellFormed(ds: seq<Descendant>) {
    forall d | d in ds :: WellFormed(d.relativePath) && (d.Symlink? ==> WellFormed(d.target))
  }

  ghost predicate IsDigits(s: JsString) {
    forall u | u in s :: 0x30 <= u < 0x3A
  }

  lemma {:induction false} DecimalIsDigits(n: nat)
    ensures IsDigits(Decimal(n))
  {
    if n < 10 {
    } else {
      DecimalIsDigits(n / 10);
    }
  }

  lemma {:induction false} EntriesNulFree(ds: seq<Descendant>)
    requires Clean(ds)
    ensures NulFree(EntriesOf(ds))
  {
    if ds == [] {
    } else {
      var d := ds[0];
      assert forall x | x in ds[1..] :: x in ds;
      EntriesNulFree(ds[1..]);
      ToScalarsNulFree(d.relativePath);
      if d.File? {
        DecimalIsDigits(d.size);
      }
      ToScalarsNulFree(Value(d));
    }
  }

  /** The number that a string of digits stands for. */
  ghost function NumberOf(s: JsString): int {
    if s == [] then 0 else NumberOf(s[..|s| - 1]) * 10 + (s[|s| - 1] as int - 0x30)
  }

  lemma {:induction false} NumberOfDecimal(n: nat)
    ensures NumberOf(Decimal(n)) == n
  {
    if n < 10 {
      assert Decimal(n)[..0] == [];
    } else {
      NumberOfDecimal(n / 10);
      assert Decimal(n)[..|Decimal(n)| - 1] == Decimal(n / 10);
    }
  }

  lemma {:induction false} PlainIsWellFormed(s: JsString)
    requires forall u | u in s :: !IsHigh(u) && !IsLow(u)
    ensures WellFormed(s)
  {
    if s == [] {
    } else {
      PlainIsWellFormed(s[1..]);
    }
  }

  /** A descendant with well-formed strings is determined by its entry. */
  lemma EntryDeterminesDescendant(a: Descendant, b: Descendant)
    requires EntryOf(a) == EntryOf(b) && AllWellFormed([a]) && AllWellFormed([b])
    ensures a == b
  {
    assert a in [a] && b in [b];
    ToScalarsInjective(a.relativePath, b.relativePath);
    match a {
      case File(_, m) =>
        DecimalIsDigits(m);
        DecimalIsDigits(b.size);
        PlainIsWellFormed(Decimal(m));
        PlainIsWellFormed(Decimal(b.size));
        ToScalarsInjective(Decimal(m), Decimal(b.size));
        NumberOfDecimal(m);
        NumberOfDecimal(b.size);
      case Symlink(_, target) =>
        ToScalarsInjective(target, b.target);
      case Dir(_) =>
    }
  }

  lemma {:induction false} EntriesDetermineDescendants(a: seq<Descendant>, b: seq<Descendant>)
    requires EntriesOf(a) == EntriesOf(b) && AllWellFormed(a) && AllWellFormed(b)
    ensures a == b
  {
    if a == [] || b == [] {
    } else {
      assert EntriesOf(a)[0] == EntriesOf(b)[0] && EntriesOf(a)[1..] == EntriesOf(b)[1..];
      EntryDeterminesDescendant(a[0], b[0]);
      EntriesDetermineDescendants(a[1..], b[1..]);
      assert a == [a[0]] + a[1..] && b == [b[0]] + b[1..];
    }
  }

  /** The bytes are equal if and only if the sorted lines, read as scalar values, are equal. */
  lemma SameBytesIffSameEntries(a: seq<Descendant>, b: seq<Descendant>)
    requires Clean(a) && Clean(b)
    ensures TreeHashInput(a) == TreeHashInput(b) <==> EntriesOf(InPathOrder(a)) == EntriesOf(InPathOrder(b))
  {
    LinesScalars(InPathOrder(a));
    LinesScalars(InPathOrder(b));
    if TreeHashInput(a) == TreeHashInput(b) {
      EncodeInjective(ToScalars(Lines(InPathOrder(a))), ToScalars(Lines(InPathOrder(b))));
      SortKeepsMembers(a, NotAfter);
      SortKeepsMembers(b, NotAfter);
      EntriesNulFree(InPathOrder(a));
      EntriesNulFree(InPathOrder(b));
      ParseSerialize(EntriesOf(InPathOrder(a)));
      ParseSerialize(EntriesOf(InPathOrder(b)));
    }
  }

  // -------------------------------------------------------------------------------------------------------------------
  // The order of the descendants
  // -------------------------------------------------------------------------------------------------------------------

  function EntryKey(e: Entry): seq<Byte> {
    Encode(e.path)
  }

  predicate EntryNotAfter(a: Entry, b: Entry) {
    Compare(EntryKey(a), EntryKey(b)) <= 0
  }

  lemma EntryNotAfterIsTotal()
    ensures TotalPreorder(EntryNotAfter)
  {
    forall x, y
      ensures EntryNotAfter(x, y) || EntryNotAfter(y, x)
    {
      CompareIsAntisymmetric(EntryKey(x), EntryKey(y));
    }
    forall x, y, z | EntryNotAfter(x, y) && EntryNotAfter(y, z)
      ensures EntryNotAfter(x, z)
    {
      CompareIsTransitive(EntryKey(x), EntryKey(y), EntryKey(z));
    }
  }

  /**
    Descendants whose paths have the same bytes have the same line; in particular when no two paths have the same bytes.
   */
  ghost predicate PathsIdentify(ds: seq<Descendant>) {
    forall d, e | d in ds && e in ds && SortKey(d) == SortKey(e) :: EntryOf(d) == EntryOf(e)
  }

  lemma {:induction false} EntriesAt(ds: seq<Descendant>)
    ensures |EntriesOf(ds)| == |ds|
    ensures forall i | 0 <= i < |ds| :: EntriesOf(ds)[i] == EntryOf(ds[i])
  {
    if ds == [] {
    } else {
      EntriesAt(ds[1..]);
    }
  }

  lemma {:induction false} EntriesConcat(a: seq<Descendant>, b: seq<Descendant>)
    ensures EntriesOf(a + b) == EntriesOf(a) + EntriesOf(b)
  {
    if a == [] {
      assert a + b == b;
    } else {
      assert (a + b)[1..] == a[1..] + b;
      EntriesConcat(a[1..], b);
    }
  }

  lemma WithoutOne<T>(front: seq<T>, x: T, back: seq<T>)
    ensures multiset(front + ([x] + back)) == multiset(front + back) + multiset{x}
  {
  }

  lemma EntriesAround(front: seq<Descendant>, d: Descendant, back: seq<Descendant>)
    ensures EntriesOf(front + ([d] + back)) == EntriesOf(front) + ([EntryOf(d)] + EntriesOf(back))
    ensures EntriesOf(front + back) == EntriesOf(front) + EntriesOf(back)
  {
    EntriesConcat(front, back);
    EntriesConcat(front, [d] + back);
    assert ([d] + back)[1..] == back;
  }

  /** A list with one of its elements taken out. */
  lemma TakeOut(ds: seq<Descendant>, d: Descendant) returns (rest: seq<Descendant>)
    requires d in ds
    ensures multiset(rest) + multiset{d} == multiset(ds)
    ensures multiset(EntriesOf(rest)) + multiset{EntryOf(d)} == multiset(EntriesOf(ds))
    ensures |rest| == |ds| - 1
  {
    var i :| 0 <= i < |ds| && ds[i] == d;
    var front, back := ds[..i], ds[i + 1..];
    rest := front + back;
    assert ds == front + ([d] + back);
    WithoutOne(front, d, back);
    EntriesAround(front, d, back);
    WithoutOne(EntriesOf(front), EntryOf(d), EntriesOf(back));
  }

  /** The lines of a tree do not depend on the order of its descendants. */
  lemma {:induction false} EntriesOfSame(a: seq<Descendant>, b: seq<Descendant>)
    requires multiset(a) == multiset(b)
    ensures multiset(EntriesOf(a)) == multiset(EntriesOf(b))
    decreases |a|
  {
    assert |multiset(a)| == |a| && |multiset(b)| == |b|;
    if a == [] {
    } else {
      assert a[0] in multiset(a);
      var restA := TakeOut(a, a[0]);
      var restB := TakeOut(b, a[0]);
      SameWithoutOne(multiset(restA), multiset(restB), a[0]);
      EntriesOfSame(restA, restB);
    }
  }

  lemma SameWithoutOne(a: multiset<Descendant>, b: multiset<Descendant>, d: Descendant)
    requires a + multiset{d} == b + multiset{d}
    ensures a == b
  {
    assert a == a + multiset{d} - multiset{d};
    assert b == b + multiset{d} - multiset{d};
  }

  /** The sorted lines are sorted as lines, and hold the lines of the tree. */
  lemma SortedEntries(ds: seq<Descendant>)
    ensures Sorted(EntriesOf(InPathOrder(ds)), EntryNotAfter)
    ensures multiset(EntriesOf(InPathOrder(ds))) == multiset(EntriesOf(ds))
  {
    NotAfterIsTotal();
    SortIsSorted(ds, NotAfter);
    SortIsPermutation(ds, NotAfter);
    EntriesAt(InPathOrder(ds));
    EntriesOfSame(InPathOrder(ds), ds);
  }

  lemma SameKeySameEntry(ds: seq<Descendant>, d: Descendant, e: Descendant)
    requires PathsIdentify(ds) && d in ds && e in ds
    requires EntryNotAfter(EntryOf(d), EntryOf(e)) && EntryNotAfter(EntryOf(e), EntryOf(d))
    ensures EntryOf(d) == EntryOf(e)
  {
    CompareIsAntisymmetric(SortKey(d), SortKey(e));
    CompareIsZeroIffEqual(SortKey(d), SortKey(e));
  }

  /** Every entry is the entry of a descendant. */
  lemma EntryComesFrom(ds: seq<Descendant>, x: Entry) returns (d: Descendant)
    requires x in EntriesOf(ds)
    ensures d in ds && EntryOf(d) == x
  {
    EntriesAt(ds);
    var i :| 0 <= i < |ds| && EntriesOf(ds)[i] == x;
    d := ds[i];
  }

  lemma EntriesIdentify(ds: seq<Descendant>)
    requires PathsIdentify(ds)
    ensures OrderIdentifies(EntriesOf(InPathOrder(ds)), EntryNotAfter)
  {
    var sorted := InPathOrder(ds);
    SortKeepsMembers(ds, NotAfter);
    forall x, y | x in EntriesOf(sorted) && y in EntriesOf(sorted) && EntryNotAfter(x, y) && EntryNotAfter(y, x)
      ensures x == y
    {
      var d := EntryComesFrom(sorted, x);
      var e := EntryComesFrom(sorted, y);
      SameKeySameEntry(ds, d, e);
    }
  }

  /** Trees with the same lines have the same bytes. */
  lemma SameLinesSameBytes(a: seq<Descendant>, b: seq<Descendant>)
    requires PathsIdentify(a) && multiset(EntriesOf(a)) == multiset(EntriesOf(b))
    ensures TreeHashInput(a) == TreeHashInput(b)
  {
    SortedEntries(a);
    SortedEntries(b);
    EntriesIdentify(a);
    EntryNotAfterIsTotal();
    SortedIsUnique(EntriesOf(InPathOrder(a)), EntriesOf(InPathOrder(b)), EntryNotAfter);
    LinesScalars(InPathOrder(a));
    LinesScalars(InPathOrder(b));
  }

  /** Canonical: the input order of the descendants does not matter. */
  lemma TreeHashInputIsCanonical(a: seq<Descendant>, b: seq<Descendant>)
    requires multiset(a) == multiset(b) && PathsIdentify(a)
    ensures TreeHashInput(a) == TreeHashInput(b)
  {
    EntriesOfSame(a, b);
    SameLinesSameBytes(a, b);
  }

  /** Two descendants whose paths have the same bytes, but not the same lines, are written in the order they came in. */
  lemma OrderShows(rest: seq<Descendant>, d: Descendant, e: Descendant)
    requires Clean(rest + [d, e]) && SortKey(d) == SortKey(e) && EntryOf(d) != EntryOf(e)
    ensures TreeHashInput(rest + [d, e]) != TreeHashInput(rest + [e, d])
  {
    NotAfterIsTotal();
    CompareIsZeroIffEqual(SortKey(d), SortKey(e));
    CompareIsZeroIffEqual(SortKey(e), SortKey(d));
    var before, after := SortKeepsOrder(rest, d, e, NotAfter);
    assert forall x | x in rest + [e, d] :: x in rest + [d, e];
    SameBytesIffSameEntries(rest + [d, e], rest + [e, d]);
    var one, other := before + [d, e] + after, before + [e, d] + after;
    EntriesAt(one);
    EntriesAt(other);
    assert one[|before|] == d && other[|before|] == e;
  }

  /** Two descendants at the end of the list. */
  lemma LastTwo(ds: seq<Descendant>, d: Descendant, e: Descendant) returns (rest: seq<Descendant>)
    requires d in ds && e in ds && d != e
    ensures multiset(rest) + multiset{d, e} == multiset(ds)
  {
    var most := TakeOut(ds, d);
    assert e in multiset(ds);
    assert e in multiset(most);
    rest := TakeOut(most, e);
  }

  lemma CleanLike(a: seq<Descendant>, b: seq<Descendant>)
    requires Clean(a) && multiset(a) == multiset(b)
    ensures Clean(b)
  {
    forall x | x in b
      ensures x in a
    {
      assert x in multiset(b);
    }
  }

  /** Descendants whose paths do not identify them can be listed in two orders that show. */
  lemma TwoOrders(ds: seq<Descendant>) returns (one: seq<Descendant>, other: seq<Descendant>)
    requires Clean(ds) && !PathsIdentify(ds)
    ensures multiset(one) == multiset(ds) && multiset(other) == multiset(ds)
    ensures TreeHashInput(one) != TreeHashInput(other)
  {
    var d, e :| d in ds && e in ds && SortKey(d) == SortKey(e) && EntryOf(d) != EntryOf(e);
    var rest := LastTwo(ds, d, e);
    one, other := rest + [d, e], rest + [e, d];
    CleanLike(ds, one);
    OrderShows(rest, d, e);
  }

  /**
    Exactly when the bytes are canonical: for NUL-free descendants, the bytes are the same for every order of the input
    if and only if no two descendants with different lines have paths of the same bytes. Distinct paths are not quite
    enough: see `UnpairedSurrogatesCollideInTrees`.
   */
  lemma CanonicalIff(ds: seq<Descendant>)
    requires Clean(ds)
    ensures PathsIdentify(ds) <==>
              forall other | multiset(other) == multiset(ds) :: TreeHashInput(other) == TreeHashInput(ds)
  {
    if PathsIdentify(ds) {
      forall other | multiset(other) == multiset(ds)
        ensures TreeHashInput(other) == TreeHashInput(ds)
      {
        TreeHashInputIsCanonical(ds, other);
      }
    } else {
      var one, other := TwoOrders(ds);
      assert TreeHashInput(one) != TreeHashInput(ds) || TreeHashInput(other) != TreeHashInput(ds);
    }
  }

  /**
    The bytes determine the tree up to the reading of its strings: for NUL-free descendants whose paths identify them,
    two trees give the same bytes if and only if they have the same lines, read as scalar values, in whatever order.
   */
  lemma SameBytesIffSameLines(a: seq<Descendant>, b: seq<Descendant>)
    requires Clean(a) && Clean(b) && PathsIdentify(a)
    ensures TreeHashInput(a) == TreeHashInput(b) <==> multiset(EntriesOf(a)) == multiset(EntriesOf(b))
  {
    if TreeHashInput(a) == TreeHashInput(b) {
      SameBytesIffSameEntries(a, b);
      SortedEntries(a);
      SortedEntries(b);
    } else if multiset(EntriesOf(a)) == multiset(EntriesOf(b)) {
      SameLinesSameBytes(a, b);
    }
  }

  /**
    The hash input determines the tree: for descendants with distinct paths, NUL-free paths and targets and no unpaired
    surrogates, two trees give the same bytes if and only if they have the same descendants, in whatever order.
   */
  lemma TreeHashInputDeterminesTree(a: seq<Descendant>, b: seq<Descendant>)
    requires Clean(a) && Clean(b) && AllWellFormed(a) && AllWellFormed(b) && PathsIdentify(a)
    ensures TreeHashInput(a) == TreeHashInput(b) <==> multiset(a) == multiset(b)
  {
    if TreeHashInput(a) == TreeHashInput(b) {
      SortIsPermutation(a, NotAfter);
      SortIsPermutation(b, NotAfter);
      SortKeepsMembers(a, NotAfter);
      SortKeepsMembers(b, NotAfter);
      SameBytesIffSameEntries(a, b);
      EntriesDetermineDescendants(InPathOrder(a), InPathOrder(b));
    }
    if multiset(a) == multiset(b) {
      TreeHashInputIsCanonical(a, b);
    }
  }

  /** Distinct well-formed paths have distinct bytes. */
  lemma DistinctPathsIdentify(ds: seq<Descendant>)
    requires AllWellFormed(ds)
    requires forall i, j | 0 <= i < j < |ds| :: ds[i].relativePath != ds[j].relativePath
    ensures PathsIdentify(ds)
  {
    forall d, e | d in ds && e in ds && SortKey(d) == SortKey(e)
      ensures EntryOf(d) == EntryOf(e)
    {
      EncodeInjective(ToScalars(d.relativePath), ToScalars(e.relativePath));
      ToScalarsInjective(d.relativePath, e.relativePath);
      var i :| 0 <= i < |ds| && ds[i] == d;
      var j :| 0 <= j < |ds| && ds[j] == e;
    }
  }

  /**
    Paths with unpaired surrogates break both laws: two different trees with the same bytes, and a tree with distinct
    paths whose bytes depend on the order of the input.
   */
  lemma UnpairedSurrogatesCollideInTrees()
    ensures TreeHashInput([Dir([0xD800])]) == TreeHashInput([Dir([0xDC00])])
    ensures TreeHashInput([Dir([0xD800]), File([0xDC00], 0)]) != TreeHashInput([File([0xDC00], 0), Dir([0xD800])])
  {
    var a, b := Dir([0xD800]), Dir([0xDC00]);
    UnpairedSurrogatesCollide();
    assert EntryOf(a) == EntryOf(b);
    EntriesAt([a]);
    EntriesAt([b]);
    assert EntriesOf([a]) == EntriesOf([b]);
    SameLinesSameBytes([a], [b]);
    var f := File([0xDC00], 0);
    assert [] + [a, f] == [a, f] && [] + [f, a] == [f, a];
    OrderShows([], a, f);
  }

  lemma LinesOfOne(d: Descendant)
    ensures Lines([d]) == Line(d)
  {
    assert [d][1..] == [];
  }

  lemma LinesCons(d: Descendant, ds: seq<Descendant>)
    ensures Lines([d] + ds) == Line(d) + Lines(ds)
  {
    assert ([d] + ds)[1..] == ds;
  }

  /** A target that holds NULs can imitate the lines that follow it. */
  lemma ImitatedLines(path: JsString, target: JsString, ds: seq<Descendant>, shorter: JsString)
    requires Lines(ds) == shorter + [LF]
    ensures Lines([Symlink(path, target + [LF] + shorter)]) == Lines([Symlink(path, target)] + ds)
  {
    LinesOfOne(Symlink(path, target + [LF] + shorter));
    LinesCons(Symlink(path, target), ds);
    ImitatedLine(path, target, shorter);
  }

  /**
    The NUL condition is needed: a link whose target goes on with the lines of descendants that come after it has the
    bytes of the tree in which those descendants exist.
   */
  lemma NulInTargetImitatesTree(path: JsString, target: JsString, ds: seq<Descendant>, shorter: JsString)
    requires Lines(ds) == shorter + [LF] && Sorted([Symlink(path, target)] + ds, NotAfter)
    ensures TreeHashInput([Symlink(path, target + [LF] + shorter)]) == TreeHashInput([Symlink(path, target)] + ds)
  {
    ImitatedLines(path, target, ds, shorter);
    SortOfSorted([Symlink(path, target)] + ds, NotAfter);
    SortOfSorted([Symlink(path, target + [LF] + shorter)], NotAfter);
  }

  /** For example, a link "a" alone and a link "a" beside a directory "b". */
  lemma NulInTargetImitatesDirectory(target: JsString)
    ensures var a: JsString := [0x61]; var b: JsString := [0x62];
            var longer := target + [LF] + (KindName(Dir(b)) + [NUL] + b + [NUL] + [0x30]);
            TreeHashInput([Symlink(a, longer)]) == TreeHashInput([Symlink(a, target), Dir(b)])
  {
    var a: JsString, b: JsString := [0x61], [0x62];
    var shorter := KindName(Dir(b)) + [NUL] + b + [NUL] + [0x30];
    LinesOfOne(Dir(b));
    PathsInOrder();
    assert [Symlink(a, target)] + [Dir(b)] == [Symlink(a, target), Dir(b)];
    NulInTargetImitatesTree(a, target, [Dir(b)], shorter);
  }

  lemma PathsInOrder()
    ensures Compare(Encode(ToScalars([0x61])), Encode(ToScalars([0x62]))) < 0
  {
    ToScalarsUnit(0x61);
    ToScalarsUnit(0x62);
    ByteOrderIsCodePointOrder([0x61], [0x62]);
  }

  lemma ImitatedLine(path: JsString, target: JsString, shorter: JsString)
    ensures Line(Symlink(path, target + [LF] + shorter)) == Line(Symlink(path, target)) + (shorter + [LF])
  {
    var front := KindName(Symlink(path, target)) + [NUL] + path + [NUL];
    assert Line(Symlink(path, target)) == front + target + [LF];
    assert front + (target + [LF] + shorter) + [LF] == front + target + [LF] + (shorter + [LF]);
  }
}
