/** The scenarios of tests/Nelexa/Buffer/BufferTestCase.php, each run on a fresh
    sequence-backed buffer (what setUp creates) and proved to observe what the
    test asserts. Each scenario is first proved for any data of the shape of
    the test's literals (the lengths its positions depend on), and a wrapper
    then applies it to the literals themselves. */
module BufferScenarios {
  import opened IntegerCodec
  import opened Wire
  import S = BufferState
  import opened Buffers

  /** The bytes of an ASCII text. */
  function Ascii(t: string): (r: seq<byte>)
    requires forall i :: 0 <= i < |t| ==> t[i] < 128 as char
    ensures |r| == |t|
    ensures forall i :: 0 <= i < |t| ==> r[i] == t[i] as int
  {
    seq(|t|, i requires 0 <= i < |t| => t[i] as int)
  }

  // ---------------------------------------------------------------- testBaseFunctional

  /** The words of testBaseFunctional, piece by piece. */
  lemma BaseWords()
    ensures Ascii("Telephone") == Ascii("Tele") + Ascii("p") + Ascii("h") + Ascii("one")
    ensures Ascii("My Iphone") == Ascii("My I") + Ascii("p") + Ascii("h") + Ascii("one")
    ensures Ascii("Phone") == Ascii("P") + Ascii("h") + Ascii("one")
    ensures Ascii("TelePhone") == Ascii("Tele") + Ascii("P") + Ascii("h") + Ascii("one")
    ensures Ascii("TelePh") == Ascii("Tele") + Ascii("P") + Ascii("h")
  {
  }

  /** The first half of testBaseFunctional on an empty buffer: insertString(tele
      + p + h + one), then putString(myI) over the head, then replaceString(bigP, 5)
      over myI + p. */
  method OverwriteHead(b: Buffer, tele: seq<byte>, p: seq<byte>, h: seq<byte>, one: seq<byte>, myI: seq<byte>, bigP: seq<byte>)
      returns (outcomes: seq<Outcome>, views: seq<seq<byte>>)
    requires b.Valid() && b.content == [] && b.position == 0
    requires |tele| == 4 && |myI| == 4 && |p| == 1 && |bigP| == 1
    modifies b
    ensures b.Valid() && b.content == bigP + h + one && b.position == 1
    ensures outcomes == [Pass, Pass, Pass]
    ensures views == [myI + p + h + one, bigP + h + one]
  {
    var r1 := b.InsertString(tele + p + h + one);
    b.Rewind();
    var r2 := b.PutString(myI);
    assert b.content == myI + p + h + one;
    var v1 := b.ToString();

    b.Rewind();
    ghost var before := b.content;
    assert before[..0] == [] && before[5..] == h + one;
    var r3 := b.ReplaceString(bigP, 5);
    assert b.content == [] + bigP + (h + one);
    var v2 := b.ToString();
    outcomes := [r1, r2, r3];
    views := [v1, v2];
  }

  /** The second half: insertString(tele) in front of bigP + h + one, then skip(2)
      and flip cut the text after tele + bigP + h with the position back at 0,
      and truncate leaves position 0 and size 0. */
  method PrependAndCut(b: Buffer, tele: seq<byte>, h: seq<byte>, one: seq<byte>, bigP: seq<byte>)
      returns (outcomes: seq<Outcome>, views: seq<seq<byte>>, flipped: int, afterTruncate: (int, int))
    requires b.Valid() && b.content == bigP + h + one
    requires |tele| == 4 && |h| == 1 && |bigP| == 1
    modifies b
    ensures outcomes == [Pass, Pass, Pass]
    ensures views == [tele + bigP + h + one, tele + bigP + h]
    ensures flipped == 0
    ensures afterTruncate == (0, 0)
  {
    b.Rewind();
    var r4 := b.InsertString(tele);
    assert b.content == tele + bigP + h + one && b.position == 4;
    var v3 := b.ToString();

    var r5 := b.Skip(2);
    var r6 := b.Flip();
    assert b.content == tele + bigP + h;
    flipped := b.Position();
    var v4 := b.ToString();

    b.Truncate();
    afterTruncate := (b.Position(), b.Size());
    outcomes := [r4, r5, r6];
    views := [v3, v4];
  }

  /** testBaseFunctional on any text tele + p + h + one with a four-byte head and
      one-byte p and h, on a fresh buffer. No call throws. */
  method BaseRound(tele: seq<byte>, p: seq<byte>, h: seq<byte>, one: seq<byte>, myI: seq<byte>, bigP: seq<byte>)
      returns (outcomes: seq<Outcome>, views: seq<seq<byte>>, flipped: int, afterTruncate: (int, int))
    requires |tele| == 4 && |myI| == 4 && |p| == 1 && |h| == 1 && |bigP| == 1
    ensures outcomes == [Pass, Pass, Pass, Pass, Pass, Pass]
    ensures views == [myI + p + h + one, bigP + h + one, tele + bigP + h + one, tele + bigP + h]
    ensures flipped == 0
    ensures afterTruncate == (0, 0)
  {
    var b := new Buffer([]);
    var first, seen := OverwriteHead(b, tele, p, h, one, myI, bigP);
    var second, cut;
    second, cut, flipped, afterTruncate := PrependAndCut(b, tele, h, one, bigP);
    outcomes := first + second;
    views := seen + cut;
  }

  /** testBaseFunctional with its own words: "My Iphone", "Phone", "TelePhone" and
      "TelePh" are seen, the position after flip is 0, and truncate leaves
      position 0 and size 0. */
  method BaseFunctional() returns (outcomes: seq<Outcome>, views: seq<seq<byte>>, flipped: int, afterTruncate: (int, int))
    ensures outcomes == [Pass, Pass, Pass, Pass, Pass, Pass]
    ensures views == [Ascii("My Iphone"), Ascii("Phone"), Ascii("TelePhone"), Ascii("TelePh")]
    ensures flipped == 0
    ensures afterTruncate == (0, 0)
  {
    BaseWords();
    outcomes, views, flipped, afterTruncate :=
      BaseRound(Ascii("Tele"), Ascii("p"), Ascii("h"), Ascii("one"), Ascii("My I"), Ascii("P"));
  }

  // ---------------------------------------------------------------- testReplaceFunctional

  /** The texts of testReplaceFunctional, piece by piece. */
  lemma DigitWords()
    ensures Ascii("123456789") == Ascii("123") + Ascii("456") + Ascii("789")
    ensures Ascii("123789") == Ascii("123") + Ascii("789")
  {
  }

  /** setPosition(3) and replaceBoolean(true, 3) put the single byte 1 in place of m. */
  method BooleanOverMiddle(b: Buffer, a: seq<byte>, m: seq<byte>, z: seq<byte>) returns (outcomes: seq<Outcome>)
    requires b.Valid() && b.content == a + m + z
    requires |a| == 3 && |m| == 3
    modifies b
    ensures b.Valid() && b.content == a + [1] + z && b.position == 4
    ensures outcomes == [Pass, Pass]
  {
    var r2 := b.SetPosition(3);
    assert b.content[..3] == a && b.content[6..] == z;
    var r3 := b.ReplaceBoolean(Some(true), 3);
    outcomes := [r2, r3];
  }

  /** skip(-1) and replaceString("", 1) remove the byte 1 again; replaceString(m, 0)
      then puts m back without removing anything. */
  method CutAndRestore(b: Buffer, a: seq<byte>, m: seq<byte>, z: seq<byte>) returns (outcomes: seq<Outcome>, views: seq<seq<byte>>)
    requires b.Valid() && b.content == a + [1] + z && b.position == 4
    requires |a| == 3
    modifies b
    ensures outcomes == [Pass, Pass, Pass]
    ensures views == [a + z, a + m + z]
  {
    var r4 := b.Skip(-1);
    assert b.content[..3] == a && b.content[4..] == z;
    var r5 := b.ReplaceString([], 1);
    assert b.content == a + z && b.position == 3;
    var v2 := b.ToString();
    assert b.content[..3] == a && b.content[3..] == z;
    var r6 := b.ReplaceString(m, 0);
    assert b.content == a + m + z;
    var v3 := b.ToString();
    outcomes := [r4, r5, r6];
    views := [v2, v3];
  }

  /** testReplaceFunctional on any text a + m + z with three-byte a and m:
      replaceBoolean(true, 3) after a puts the single byte 1 in place of m;
      replacing that byte by nothing and then nothing by m restores the text. */
  method ReplaceRound(a: seq<byte>, m: seq<byte>, z: seq<byte>) returns (outcomes: seq<Outcome>, views: seq<seq<byte>>)
    requires |a| == 3 && |m| == 3
    ensures outcomes == [Pass, Pass, Pass, Pass, Pass, Pass]
    ensures views == [a + [1] + z, a + z, a + m + z]
  {
    var b := new Buffer([]);
    var r1 := b.InsertString(a + m + z);
    var o1 := BooleanOverMiddle(b, a, m, z);
    var v1 := b.ToString();
    var o2, vs := CutAndRestore(b, a, m, z);
    outcomes := [r1] + o1 + o2;
    views := [v1] + vs;
  }

  /** testReplaceFunctional with its own text "123456789". */
  method ReplaceFunctional() returns (outcomes: seq<Outcome>, views: seq<seq<byte>>)
    ensures outcomes == [Pass, Pass, Pass, Pass, Pass, Pass]
    ensures views == [Ascii("123") + [1] + Ascii("789"), Ascii("123789"), Ascii("123456789")]
  {
    DigitWords();
    outcomes, views := ReplaceRound(Ascii("123"), Ascii("456"), Ascii("789"));
  }

  // ---------------------------------------------------------------- testRemoveFunctional

  /** remove(3) at position 3 deletes "456" from "123456789". */
  method RemoveFunctional() returns (outcomes: seq<Outcome>, view: seq<byte>)
    ensures outcomes == [Pass, Pass, Pass]
    ensures view == Ascii("123789")
  {
    var b := new Buffer([]);
    var r1 := b.InsertString(Ascii("123456789"));
    var r2 := b.SetPosition(3);
    var r3 := b.Remove(3);
    view := b.ToString();
    outcomes := [r1, r2, r3];
  }

  // ---------------------------------------------------------------- the exception tests

  /** putString on an empty buffer throws "put length > remaining" and changes nothing. */
  method PutException() returns (sizeBefore: int, r: Outcome, sizeAfter: int)
    ensures sizeBefore == 0 && sizeAfter == 0
    ensures r.Fail? && r.error.Message() == "put length > remaining"
  {
    var b := new Buffer([]);
    sizeBefore := b.Size();
    r := b.PutString(Ascii("Test"));
    sizeAfter := b.Size();
  }

  /** replaceString with a length beyond an empty buffer throws "replace length > remaining". */
  method ReplaceException() returns (sizeBefore: int, r: Outcome, sizeAfter: int)
    ensures sizeBefore == 0 && sizeAfter == 0
    ensures r.Fail? && r.error.Message() == "replace length > remaining"
  {
    var b := new Buffer([]);
    sizeBefore := b.Size();
    r := b.ReplaceString(Ascii("Test"), 5);
    sizeAfter := b.Size();
  }

  /** remove(1) on an empty buffer throws "remove length > remaining". */
  method RemoveException() returns (sizeBefore: int, r: Outcome, sizeAfter: int)
    ensures sizeBefore == 0 && sizeAfter == 0
    ensures r.Fail? && r.error.Message() == "remove length > remaining"
  {
    var b := new Buffer([]);
    sizeBefore := b.Size();
    r := b.Remove(1);
    sizeAfter := b.Size();
  }

  // ---------------------------------------------------------------- testPutFunctional

  /** An unsigned 4-byte value is read back unchanged as a signed long. */
  lemma IntFitsLong(y: int)
    requires 0 <= y < Pow256(4)
    ensures Narrow(y, 8) == y
  {
    assert Half(8) == 128 * (256 * (256 * (256 * Pow256(4))));
    NarrowInRange(y, 8);
  }

  /** Big-endian: insertLong(x), then putInt(y) over its low half at position 4;
      the eight bytes are then the long y. */
  method PutIntIntoBigEndianLong(b: Buffer, x: int, y: int) returns (l: Result<int>)
    requires b.Valid() && b.content == [] && b.position == 0
    requires 0 <= x < Pow256(4) && 0 <= y < Pow256(4)
    modifies b
    ensures b.Valid() && b.content == Pack(BigEndian, y, 8) && b.position == 8
    ensures l == Success(y)
  {
    b.SetOrder(BIG_ENDIAN);
    var _ := b.InsertLong(Some(x));
    var _ := b.SetPosition(4);
    var _ := b.PutInt(Some(y));
    PackWiden(BigEndian, x, 4, 4);
    PackWiden(BigEndian, y, 4, 4);
    assert b.content == Pack(BigEndian, y, 8);
    b.Rewind();
    S.IntegerReadsBack(b.Snapshot(), y, 8);
    IntFitsLong(y);
    l := b.GetLong();
  }

  /** Little-endian: putLong(x) over the whole long reads back as x. */
  method PutLittleEndianLong(b: Buffer, x: int) returns (l: Result<int>)
    requires b.Valid() && |b.content| == 8
    requires 0 <= x < Pow256(4)
    modifies b
    ensures b.Valid() && b.content == Pack(LittleEndian, x, 8) && b.position == 8
    ensures b.order == LittleEndian
    ensures l == Success(x)
  {
    b.Rewind();
    b.SetOrder(LITTLE_ENDIAN);
    var _ := b.PutLong(Some(x));
    assert b.content == Pack(LittleEndian, x, 8);
    b.Rewind();
    S.IntegerReadsBack(b.Snapshot(), x, 8);
    IntFitsLong(x);
    l := b.GetLong();
  }

  /** Little-endian: putInt(y) at position 0 of the long x overwrites its low half;
      the eight bytes are then the long y. */
  method PutIntIntoLittleEndianLong(b: Buffer, x: int, y: int) returns (l: Result<int>)
    requires b.Valid() && b.content == Pack(LittleEndian, x, 8) && b.order == LittleEndian
    requires 0 <= x < Pow256(4) && 0 <= y < Pow256(4)
    modifies b
    ensures b.Valid() && b.content == Pack(LittleEndian, y, 8) && b.position == 8
    ensures l == Success(y)
  {
    PackWiden(LittleEndian, x, 4, 4);
    PackWiden(LittleEndian, y, 4, 4);
    assert b.content[..0] == [] && b.content[4..] == Zeros(4);
    var _ := b.SetPosition(0);
    var _ := b.PutInt(Some(y));
    assert b.content == [] + Pack(LittleEndian, y, 4) + Zeros(4);
    b.Rewind();
    S.IntegerReadsBack(b.Snapshot(), y, 8);
    IntFitsLong(y);
    l := b.GetLong();
  }

  /** testPutFunctional for any two values that fit in four unsigned bytes: the
      three getLong calls see y, x and y. */
  method PutRound(x: int, y: int) returns (longs: seq<Result<int>>)
    requires 0 <= x < Pow256(4) && 0 <= y < Pow256(4)
    ensures longs == [Success(y), Success(x), Success(y)]
  {
    var b := new Buffer([]);
    var l1 := PutIntIntoBigEndianLong(b, x, y);
    var l2 := PutLittleEndianLong(b, x);
    var l3 := PutIntIntoLittleEndianLong(b, x, y);
    longs := [l1, l2, l3];
  }

  /** testPutFunctional with its own values 12345 and 98765. */
  method PutFunctional() returns (longs: seq<Result<int>>)
    ensures longs == [Success(98765), Success(12345), Success(98765)]
  {
    assert Pow256(4) == 4294967296;
    longs := PutRound(12345, 98765);
  }
}
