/** 32-byte directory records: 8.3 names, the record codec, and lists of records on disk. */
module DirectoryEntries {
  import opened Basics

  const SPACE: Byte := 32
  const DOT: Byte := 46
  const DELETED: Byte := 0xE5

  type Name = seq<Byte>

  datatype Result<T> = Ok(value: T) | Err(error: Error)

  datatype Error =
    | NotInitialized | EmptyFile | NoFreeClusters | ReadFailed | WriteFailed
    | NotFound | AlreadyExists | BadNameFormat | NameTooLong
    | OutOfBounds
    | BadBootSector | NotFat12 | OtherSectorSize

  // ---------------------------------------------------------------------------
  // Names

  function ToUpper(b: Byte): Byte { if 97 <= b <= 122 then b - 32 else b }

  function Upper(s: Name): (r: Name)
    ensures |r| == |s| && forall i | 0 <= i < |s| :: r[i] == ToUpper(s[i])
  {
    seq(|s|, i requires 0 <= i < |s| => ToUpper(s[i]))
  }

  /** The position of the first dot, or the length. */
  function DotAt(s: Name): (i: nat)
    ensures i <= |s| && DOT !in s[..i] && (i < |s| ==> s[i] == DOT)
  {
    if s == [] || s[0] == DOT then 0
    else
      var i := 1 + DotAt(s[1..]);
      assert s[..i] == [s[0]] + s[1..][..i - 1];
      i
  }

  function BasePart(s: Name): Name { s[..DotAt(s)] }
  function ExtPart(s: Name): Name { if DotAt(s) < |s| then s[DotAt(s) + 1..] else [] }

  function Pad(s: Name, n: nat): (r: Name)
    requires |s| <= n
    ensures |r| == n && r[..|s|] == s && forall i | |s| <= i < n :: r[i] == SPACE
  {
    s + seq(n - |s|, _ => SPACE)
  }

  /** `set_name`: the 11-byte field for a file name with at most one dot. */
  function EncodeName(s: Name): (r: Result<Name>)
    ensures r.Ok? ==> |r.value| == 11
  {
    if DOT in ExtPart(s) then Err(BadNameFormat)
    else if |BasePart(s)| > 8 || |ExtPart(s)| > 3 then Err(NameTooLong)
    else Ok(Upper(Pad(BasePart(s), 8) + Pad(ExtPart(s), 3)))
  }

  /** A byte pushed as a character: one byte below 128, two above. */
  function Utf8(b: Byte): (r: Name)
    ensures 1 <= |r| <= 2 && (|r| == 1 <==> b < 128) && (b < 128 ==> r == [b])
    ensures SPACE in r ==> b == SPACE
    ensures DOT in r ==> b == DOT
  {
    if b < 128 then [b] else [192 + b / 64, 128 + b % 64]
  }

  function PushAll(s: Name): (r: Name)
    ensures SPACE in r ==> SPACE in s
    ensures DOT in r ==> DOT in s
  {
    if s == [] then [] else PushAll(s[..|s| - 1]) + Utf8(s[|s| - 1])
  }

  function UntilSpace(s: Name): (r: Name)
    ensures SPACE !in r
  {
    if s == [] || s[0] == SPACE then [] else [s[0]] + UntilSpace(s[1..])
  }

  function NonSpace(s: Name): (r: Name)
    ensures SPACE !in r && forall b | b in r :: b in s
  {
    if s == [] then []
    else NonSpace(s[..|s| - 1]) + (if s[|s| - 1] == SPACE then [] else [s[|s| - 1]])
  }

  /** `get_name`: the readable form of an 11-byte field. */
  function DisplayName(field: Name): Name
    requires |field| == 11
  {
    PushAll(UntilSpace(field[..8]))
    + (if NonSpace(field[8..]) == [] then [] else [DOT] + PushAll(NonSpace(field[8..])))
  }

  /** The key a name is looked up by: comparison ignores ASCII case. */
  function Key(s: Name): Name { Upper(s) }

  function FieldKey(field: Name): Name
    requires |field| == 11
  {
    Key(DisplayName(field))
  }

  predicate Ascii(s: Name) { forall i | 0 <= i < |s| :: s[i] < 128 }

  lemma AsciiConcat(a: Name, b: Name)
    ensures Ascii(a + b) <==> Ascii(a) && Ascii(b)
  {
    if Ascii(a + b) {
      forall i | 0 <= i < |a| ensures a[i] < 128 { assert (a + b)[i] == a[i]; }
      forall i | 0 <= i < |b| ensures b[i] < 128 { assert (a + b)[|a| + i] == b[i]; }
    }
  }

  /** Only ASCII, no space, and no dot at the end. */
  predicate Plain(s: Name) {
    && Ascii(s)
    && SPACE !in s
    && (DotAt(s) < |s| ==> ExtPart(s) != [])
  }

  /** A plain name that does not start with the byte that marks the end of a directory. */
  predicate GoodName(s: Name) { Plain(s) && (s == [] || s[0] != 0) }

  lemma {:induction false} PushAllLast(front: Name, last: Byte)
    ensures PushAll(front + [last]) == PushAll(front) + Utf8(last)
  {
    assert (front + [last])[..|front|] == front;
  }

  lemma {:induction false} AsciiLast(front: Name, last: Byte)
    ensures Ascii(front + [last]) <==> Ascii(front) && last < 128
  {
    AsciiConcat(front, [last]);
    assert Ascii([last]) <==> last < 128 by { assert [last][0] == last; }
  }

  lemma {:induction false} PushAllLength(s: Name)
    ensures |PushAll(s)| >= |s|
    ensures |PushAll(s)| == |s| <==> Ascii(s)
    ensures Ascii(s) ==> PushAll(s) == s
  {
    if s != [] {
      var front, last := s[..|s| - 1], s[|s| - 1];
      assert s == front + [last];
      PushAllLength(front);
      PushAllLast(front, last);
      AsciiLast(front, last);
    }
  }

  lemma {:induction false} UntilSpaceOfPadded(s: Name, n: nat)
    requires |s| <= n && SPACE !in s
    ensures UntilSpace(Pad(s, n)) == s
  {
    if s == [] {
      assert n > 0 ==> Pad(s, n)[0] == SPACE;
    } else {
      UntilSpaceOfPadded(s[1..], n - 1);
      assert Pad(s, n)[1..] == Pad(s[1..], n - 1);
    }
  }

  lemma {:induction false} NonSpaceOfPadded(s: Name, n: nat)
    requires |s| <= n && SPACE !in s
    ensures NonSpace(Pad(s, n)) == s
  {
    if n > 0 {
      var p := Pad(s, n);
      if |s| == n {
        NonSpaceOfPadded(s[..n - 1], n - 1);
        assert p[..n - 1] == Pad(s[..n - 1], n - 1);
        assert p[n - 1] == s[n - 1] && s == s[..n - 1] + [s[n - 1]];
      } else {
        NonSpaceOfPadded(s, n - 1);
        assert p[..n - 1] == Pad(s, n - 1) && p[n - 1] == SPACE;
      }
    }
  }

  lemma UpperKeepsSpace(s: Name)
    ensures SPACE in Upper(s) <==> SPACE in s
    ensures DOT in Upper(s) <==> DOT in s
    ensures Ascii(Upper(s)) <==> Ascii(s)
  {
    var u := Upper(s);
    forall i | 0 <= i < |s| ensures s[i] in s && u[i] in u && u[i] == ToUpper(s[i]) {}
  }

  lemma UpperPadded(base: Name, ext: Name)
    requires |base| <= 8 && |ext| <= 3
    ensures Upper(Pad(base, 8) + Pad(ext, 3)) == Pad(Upper(base), 8) + Pad(Upper(ext), 3)
  {
  }

  lemma UpperTwice(s: Name)
    ensures Upper(Upper(s)) == Upper(s)
  {
  }

  /** The stored name of a space-free file name, read back. */
  lemma StoredName(s: Name)
    requires EncodeName(s).Ok? && SPACE !in s
    ensures DisplayName(EncodeName(s).value) == Shown(Upper(BasePart(s)), Upper(ExtPart(s)))
  {
    var base, ext := Upper(BasePart(s)), Upper(ExtPart(s));
    UpperKeepsSpace(BasePart(s));
    UpperKeepsSpace(ExtPart(s));
    UpperPadded(BasePart(s), ExtPart(s));
    var field := EncodeName(s).value;
    assert field[..8] == Pad(base, 8) && field[8..] == Pad(ext, 3);
    UntilSpaceOfPadded(base, 8);
    NonSpaceOfPadded(ext, 3);
  }

  lemma JoinAt<T>(s: seq<T>, d: nat)
    requires d < |s|
    ensures s == s[..d] + ([s[d]] + s[d + 1..])
  {
  }

  lemma NameParts(s: Name)
    ensures s == BasePart(s) + (if DotAt(s) < |s| then [DOT] + ExtPart(s) else [])
    ensures DOT !in BasePart(s)
  {
    if DotAt(s) < |s| { JoinAt(s, DotAt(s)); }
  }

  lemma UpperConcat(a: Name, b: Name)
    ensures Upper(a + b) == Upper(a) + Upper(b)
  {
  }

  /** A file name that can be stored is found again under its own name exactly when it is plain. */
  lemma NameRoundTrip(s: Name)
    requires EncodeName(s).Ok?
    ensures FieldKey(EncodeName(s).value) == Key(s) <==> Plain(s)
  {
    var field := EncodeName(s).value;
    if SPACE in s {
      UpperKeepsSpace(s);
      UpperKeepsSpace(DisplayName(field));
    } else {
      StoredName(s);
      PlainIffStored(s);
    }
  }

  /** "A B" is stored, but not found again. */
  lemma SpacedNameIsLost()
    ensures var name := [65, SPACE, 66]; EncodeName(name).Ok? && FieldKey(EncodeName(name).value) != Key(name)
  {
    var name := [65, SPACE, 66];
    assert DotAt(name) == 3;
    assert name[1] == SPACE;
    NameRoundTrip(name);
  }

  /** "A B" is stored so that it is shown, and found, as "A". */
  lemma SpacedNameClashes()
    ensures var name := [65, SPACE, 66];
            EncodeName(name).Ok? && Shows(name) && StoredKey(name) == Key([65]) != Key(name)
  {
    var name := [65, SPACE, 66];
    assert DotAt(name) == 3;
    var field := EncodeName(name).value;
    assert field[..8][0] == 65 && field[..8][1] == SPACE;
    assert UntilSpace(field[..8]) == [65];
    assert NonSpace(field[8..]) == [] by {
      NonSpaceOfPadded([], 3);
      assert field[8..] == Pad([], 3);
    }
    assert PushAll([65]) == [65] by { PushAllLast([], 65); }
  }

  /** The readable form built from the two parts of a stored name. */
  function Shown(base: Name, ext: Name): Name {
    PushAll(base) + (if ext == [] then [] else [DOT] + PushAll(ext))
  }

  /** A file name with the given parts; `dotted` when it has a dot. */
  function Joined(base: Name, ext: Name, dotted: bool): Name {
    base + (if dotted then [DOT] + ext else [])
  }

  lemma ShownWhenPlain(base: Name, ext: Name, dotted: bool)
    requires Ascii(base)
    requires Ascii(ext)
    requires dotted <==> ext != []
    ensures Upper(Shown(Upper(base), Upper(ext))) == Upper(Joined(base, ext, dotted))
  {
    UpperKeepsSpace(base);
    UpperKeepsSpace(ext);
    PushAllLength(Upper(base));
    PushAllLength(Upper(ext));
    UpperConcat(base, if dotted then [DOT] + ext else []);
    UpperConcat([DOT], ext);
    assert Upper([DOT]) == [DOT];
    assert Shown(Upper(base), Upper(ext)) == Upper(Joined(base, ext, dotted));
    UpperTwice(Joined(base, ext, dotted));
  }

  lemma ShownWhenDotAtEnd(base: Name)
    requires DOT !in base
    ensures Upper(Shown(Upper(base), [])) != Upper(Joined(base, [], true))
  {
    var shown, joined := Shown(Upper(base), []), Joined(base, [], true);
    UpperKeepsSpace(base);
    UpperKeepsSpace(shown);
    UpperKeepsSpace(joined);
    assert joined[|base|] == DOT;
  }

  lemma ShownWhenNotAscii(base: Name, ext: Name, dotted: bool)
    requires !Ascii(base) || !Ascii(ext)
    requires dotted <==> ext != []
    ensures |Shown(Upper(base), Upper(ext))| > |Joined(base, ext, dotted)|
  {
    UpperKeepsSpace(base);
    UpperKeepsSpace(ext);
    PushAllLength(Upper(base));
    PushAllLength(Upper(ext));
  }

  lemma AsciiJoined(base: Name, ext: Name, dotted: bool)
    requires dotted <==> ext != []
    ensures Ascii(Joined(base, ext, dotted)) <==> Ascii(base) && Ascii(ext)
  {
    AsciiConcat(base, if dotted then [DOT] + ext else []);
    AsciiConcat([DOT], ext);
  }

  lemma ShownIffAscii(base: Name, ext: Name, dotted: bool)
    requires dotted <==> ext != []
    ensures Upper(Shown(Upper(base), Upper(ext))) == Upper(Joined(base, ext, dotted)) <==> Ascii(Joined(base, ext, dotted))
  {
    AsciiJoined(base, ext, dotted);
    if Ascii(base) && Ascii(ext) { ShownWhenPlain(base, ext, dotted); } else { ShownWhenNotAscii(base, ext, dotted); }
  }

  lemma PlainIffStored(s: Name)
    requires EncodeName(s).Ok? && SPACE !in s
    ensures Upper(Shown(Upper(BasePart(s)), Upper(ExtPart(s)))) == Upper(s) <==> Plain(s)
  {
    var base, ext, dotted := BasePart(s), ExtPart(s), DotAt(s) < |s|;
    NameParts(s);
    assert s == Joined(base, ext, dotted);
    if dotted && ext == [] {
      ShownWhenDotAtEnd(base);
    } else {
      ShownIffAscii(base, ext, dotted);
    }
  }

  // ---------------------------------------------------------------------------
  // Records

  datatype DirEntry = DirEntry(name: Name, attr: Byte, middle: seq<Byte>, first: nat, size: nat)

  predicate Fits(e: DirEntry) {
    |e.name| == 11 && |e.middle| == 14 && e.first < 0x1_0000 && e.size < 0x1_0000_0000
  }

  type Entry = e: DirEntry | Fits(e) witness DirEntry(seq(11, _ => 32), 0, seq(14, _ => 0), 0, 0)

  /** The first byte of the stored name is the first of the name in upper case, or a space. */
  lemma StoredFirst(s: Name)
    requires EncodeName(s).Ok?
    ensures EncodeName(s).value[0] == 0 <==> s != [] && s[0] == 0
    ensures EncodeName(s).value[0] == DELETED <==> s != [] && s[0] == DELETED
  {
    var base := BasePart(s);
    assert (Pad(base, 8) + Pad(ExtPart(s), 3))[0] == if base == [] then SPACE else s[0];
    assert base == [] <==> s == [] || s[0] == DOT;
  }

  predicate IsEnd(e: Entry) { e.name[0] == 0 }
  predicate IsDeleted(e: Entry) { e.name[0] == DELETED }
  predicate IsLfn(e: Entry) { e.attr == 0x0F }
  predicate IsVolumeId(e: Entry) { e.attr / 8 % 2 == 1 }
  predicate Visible(e: Entry) { !IsDeleted(e) && !IsLfn(e) && !IsVolumeId(e) }

  /** A record stored under this name is shown: it is no end mark and not deleted. */
  predicate Shows(s: Name) { s == [] || (s[0] != 0 && s[0] != DELETED) }

  /** The key under which a file stored with this name is found. */
  function StoredKey(s: Name): Name { if EncodeName(s).Ok? then FieldKey(EncodeName(s).value) else Key(s) }

  /** A record stored under a name is shown exactly if the name does not start with one of the two
      marks, and is found under that name exactly if the name is good. */
  lemma NameIsShown(s: Name, e: Entry)
    requires EncodeName(s).Ok? && e.name == EncodeName(s).value && !IsLfn(e) && !IsVolumeId(e)
    ensures !IsEnd(e) && Visible(e) <==> Shows(s)
    ensures Shows(s) && StoredKey(s) == Key(s) <==> GoodName(s)
  {
    StoredFirst(s);
    GoodNameIff(s);
  }

  lemma GoodNameIff(s: Name)
    requires EncodeName(s).Ok?
    ensures GoodName(s) <==> Shows(s) && StoredKey(s) == Key(s)
  {
    NameRoundTrip(s);
  }

  /** The name of one zero byte is plain and can be stored, but as an end mark. */
  lemma ZeroNameEnds()
    ensures var name := [0]; Plain(name) && EncodeName(name).Ok? && EncodeName(name).value[0] == 0
  {
    var name: Name := [0];
    assert DotAt(name) == 1;
    StoredFirst(name);
  }

  function NewEntry(field: Name, attr: Byte, first: nat, size: nat): Entry
    requires |field| == 11 && first < 0x1_0000 && size < 0x1_0000_0000
  {
    DirEntry(field, attr, seq(14, _ => 0), first, size)
  }

  /** The entry with another chain and size, and with another name. */
  function WithData(e: Entry, first: nat, size: nat): (e': Entry)
    requires first < 0x1_0000 && size < 0x1_0000_0000
    ensures e'.name == e.name && e'.first == first && e'.size == size
  {
    e.(first := first, size := size)
  }

  function WithName(e: Entry, field: Name): (e': Entry)
    requires |field| == 11
    ensures e'.name == field && e'.first == e.first && e'.size == e.size && e'.attr == e.attr
  {
    e.(name := field)
  }

  function ToBytes(e: Entry): (r: seq<Byte>)
    ensures |r| == 32
  {
    e.name + [e.attr] + e.middle + [e.first % 256, e.first / 256]
    + [e.size % 256, e.size / 256 % 256, e.size / 0x1_0000 % 256, e.size / 0x100_0000]
  }

  function FromBytes(r: seq<Byte>): Entry
    requires |r| == 32
  {
    DirEntry(r[..11], r[11], r[12..26], Little2(r, 26), Little2(r, 28) + 0x1_0000 * Little2(r, 30))
  }

  /** The little-endian word at `off`. */
  function Little2(s: seq<Byte>, off: nat): nat
    requires off + 2 <= |s|
  {
    var b0: nat, b1: nat := s[off], s[off + 1];
    b0 + 256 * b1
  }

  lemma LittleEndian4(n: nat)
    ensures n == n % 256 + 256 * (n / 256 % 256) + 0x1_0000 * (n / 0x1_0000 % 256 + 256 * (n / 0x100_0000))
  {
    DropByte(n);
    DropTwoBytes(n);
    var a, b := n / 256, n / 0x1_0000;
    assert n == 256 * a + n % 256 && a == 256 * b + a % 256 && b == 256 * (b / 256) + b % 256;
  }

  lemma DropByte(n: nat)
    ensures n / 0x1_0000 == n / 256 / 256
  {
  }

  lemma DropTwoBytes(n: nat)
    ensures n / 0x100_0000 == n / 0x1_0000 / 256
  {
  }

  lemma RecordRoundTrip(e: Entry)
    ensures FromBytes(ToBytes(e)) == e
  {
    var r := ToBytes(e);
    assert r[..11] == e.name && r[11] == e.attr && r[12..26] == e.middle;
    assert [r[26], r[27]] == [e.first % 256, e.first / 256];
    LittleEndian4(e.size);
  }

  // ---------------------------------------------------------------------------
  // Lists of records

  function RecordAt(data: seq<Byte>, i: nat): Entry
    requires 32 * i + 32 <= |data|
  {
    FromBytes(data[32 * i..32 * i + 32])
  }

  function Records(data: seq<Byte>, n: nat): (rs: seq<Entry>)
    requires 32 * n <= |data|
    ensures |rs| == n && forall k | 0 <= k < n :: rs[k] == RecordAt(data, k)
  {
    seq(n, k requires 0 <= k < n => RecordAt(data, k))
  }

  /** The visible records up to the end mark. */
  function Listed(rs: seq<Entry>): seq<Entry> {
    if rs == [] || IsEnd(rs[0]) then []
    else (if Visible(rs[0]) then [rs[0]] else []) + Listed(rs[1..])
  }

  predicate HasEnd(rs: seq<Entry>) { rs != [] && (IsEnd(rs[0]) || HasEnd(rs[1..])) }

  /** The visible records among the first `n` of a block of bytes. */
  function Parse(data: seq<Byte>, n: nat): seq<Entry>
    requires 32 * n <= |data|
  {
    Listed(Records(data, n))
  }

  /** `data` starts with the records `es` and is zero after them. */
  predicate LaidOut(data: seq<Byte>, es: seq<Entry>) {
    && 32 * |es| <= |data|
    && (forall i | 0 <= i < |es| :: data[32 * i..32 * i + 32] == ToBytes(es[i]))
    && (forall k | 32 * |es| <= k < |data| :: data[k] == 0)
  }

  /** Nothing behind an end mark is shown. */
  lemma {:induction false} ListedUpToEnd(rs: seq<Entry>, es: seq<Entry>)
    requires es <= rs && (|es| < |rs| ==> IsEnd(rs[|es|]))
    ensures Listed(rs) == Listed(es)
  {
    if es != [] {
      assert rs[0] == es[0] && es[1..] <= rs[1..];
      ListedUpToEnd(rs[1..], es[1..]);
    }
  }

  lemma LaidRecord(data: seq<Byte>, es: seq<Entry>, k: nat)
    requires LaidOut(data, es) && k < |es|
    ensures RecordAt(data, k) == es[k]
  {
    RecordRoundTrip(es[k]);
  }

  lemma EndRecord(data: seq<Byte>, es: seq<Entry>)
    requires LaidOut(data, es) && 32 * |es| + 32 <= |data|
    ensures IsEnd(RecordAt(data, |es|))
  {
    assert data[32 * |es|..32 * |es| + 32][0] == 0;
  }

  /** The first `n` records of a list, or all of them. */
  function Fitting(es: seq<Entry>, n: nat): (r: seq<Entry>)
    ensures r <= es && |r| <= n
  {
    if |es| <= n then es else es[..n]
  }

  /** Reading `n` records of a laid-out list back shows the visible ones before the first end mark. */
  lemma ParseLaidOut(data: seq<Byte>, es: seq<Entry>, n: nat)
    requires LaidOut(data, es) && 32 * n <= |data|
    ensures Parse(data, n) == Listed(Fitting(es, n))
  {
    var rs, fit := Records(data, n), Fitting(es, n);
    assert fit <= rs by {
      forall k | 0 <= k < |fit| ensures rs[k] == fit[k] { LaidRecord(data, es, k); }
    }
    if |es| < n { EndRecord(data, es); }
    ListedUpToEnd(rs, fit);
  }

  /** Every record of the list is shown. */
  predicate AllShown(es: seq<Entry>) { forall k | 0 <= k < |es| :: !IsEnd(es[k]) && Visible(es[k]) }

  /** Whatever is shown is visible and no end mark. */
  lemma {:induction false} ListedAreShown(rs: seq<Entry>)
    ensures |Listed(rs)| <= |rs| && AllShown(Listed(rs))
  {
    if rs != [] && !IsEnd(rs[0]) { ListedAreShown(rs[1..]); }
  }

  lemma TailOfConcat<T>(a: seq<T>, b: seq<T>)
    requires a != []
    ensures (a + b)[0] == a[0] && (a + b)[1..] == a[1..] + b
  {
  }

  lemma Assoc<T>(a: seq<T>, b: seq<T>, c: seq<T>)
    ensures (a + b) + c == a + (b + c)
    ensures a + [] == a && [] + a == a
  {
  }

  /** A list that has ended hides what follows. */
  lemma {:induction false} ListedConcat(a: seq<Entry>, b: seq<Entry>)
    ensures Listed(a + b) == Listed(a) + (if HasEnd(a) then [] else Listed(b))
  {
    if a == [] {
      assert a + b == b;
    } else {
      TailOfConcat(a, b);
      ListedConcat(a[1..], b);
      Assoc(if Visible(a[0]) then [a[0]] else [], Listed(a[1..]), if HasEnd(a) then [] else Listed(b));
    }
  }

  lemma {:induction false} ShownInFull(es: seq<Entry>)
    requires AllShown(es)
    ensures Listed(es) == es && !HasEnd(es)
  {
    if es != [] { ShownInFull(es[1..]); }
  }

  lemma ListedOne(e: Entry)
    ensures Listed([e]) == (if IsEnd(e) || !Visible(e) then [] else [e]) && (HasEnd([e]) <==> IsEnd(e))
  {
    assert [e][1..] == [];
  }

  /** A record appended to a directory that is shown in full. */
  lemma {:induction false} ListedAppend(es: seq<Entry>, e: Entry)
    requires AllShown(es)
    ensures Listed(es + [e]) == if IsEnd(e) || !Visible(e) then es else es + [e]
  {
    ShownInFull(es);
    ListedConcat(es, [e]);
    ListedOne(e);
    Assoc(es, [], []);
  }

  lemma {:induction false} ListedMiddle(before: seq<Entry>, e: Entry, after: seq<Entry>)
    requires AllShown(before) && AllShown(after)
    ensures Listed((before + [e]) + after)
         == if IsEnd(e) then before else if Visible(e) then (before + [e]) + after else before + after
  {
    ListedConcat(before + [e], after);
    ListedAppend(before, e);
    ShownInFull(after);
    EndOfConcat(before, e);
    Assoc(before, [], []);
  }

  lemma {:induction false} EndOfConcat(es: seq<Entry>, e: Entry)
    requires AllShown(es)
    ensures HasEnd(es + [e]) <==> IsEnd(e)
  {
    if es != [] {
      TailOfConcat(es, [e]);
      EndOfConcat(es[1..], e);
    } else {
      ListedOne(e);
      Assoc([e], [], []);
    }
  }

  /** A record replaced in it: an end mark hides everything from there on, a hidden record only
      itself. */
  lemma {:induction false} ListedUpdate(es: seq<Entry>, i: nat, e: Entry)
    requires AllShown(es) && i < |es|
    ensures Listed(es[i := e])
         == if IsEnd(e) then es[..i] else if Visible(e) then es[i := e] else es[..i] + es[i + 1..]
  {
    assert es[i := e] == (es[..i] + [e]) + es[i + 1..];
    ListedMiddle(es[..i], e, es[i + 1..]);
  }
}
