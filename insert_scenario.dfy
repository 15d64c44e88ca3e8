/** testInsertFunctional of tests/Nelexa/Buffer/BufferTestCase.php: in each byte
    order, every typed insert followed by the matching typed get, with the cursor
    checked after each read. The pass is proved for any values of the test's
    shape and any text whose length fits the writeUTF prefix; InsertFunctional
    runs it with the test's own values. */
module InsertScenario {
  import opened IntegerCodec
  import opened Wire
  import S = BufferState
  import opened Buffers

  /** The bounds of the source's Cast class (those of Java's byte, int and long). */
  const BYTE_MIN_VALUE: int := -128
  const INTEGER_MIN_VALUE: int := -2147483648
  const INTEGER_MAX_VALUE: int := 2147483647
  const LONG_MIN_VALUE: int := -9223372036854775808
  const LONG_MAX_VALUE: int := 9223372036854775807

  /** The values one pass inserts, kind by kind. */
  datatype Values = Values(bytes: seq<int>, shorts: seq<int>, ints: seq<int>, longs: seq<int>, arrayBytes: seq<int>)

  /** As many values of each kind as the test inserts; the array holds signed bytes. */
  predicate Shaped(v: Values)
  {
    |v.bytes| == 3 && |v.shorts| == 3 && |v.ints| == 5 && |v.longs| == 5 && |v.arrayBytes| == 5 &&
    forall i :: 0 <= i < |v.arrayBytes| ==> -128 <= v.arrayBytes[i] < 128
  }

  /** The values of testInsertFunctional. */
  const TEST_VALUES: Values := Values(
    [34, 3432424, -100],
    [31111, -12444, 243253233],
    [INTEGER_MIN_VALUE, INTEGER_MIN_VALUE - 1, INTEGER_MAX_VALUE, INTEGER_MAX_VALUE + 1, 24234333],
    [LONG_MIN_VALUE, LONG_MAX_VALUE, BYTE_MIN_VALUE, 0, 243535423222],
    [1, 2, 3, 4, Narrow(INTEGER_MAX_VALUE, 1)])

  /** What one pass inserts: the byte order, the values, the text, and the
      content of the second buffer. */
  datatype Plan = Plan(order: ByteOrder, values: Values, text: seq<byte>, other: seq<byte>)

  /** Piece k of the 23 byte strings one pass inserts, in call order. */
  function Piece(p: Plan, k: nat): seq<byte>
    requires Shaped(p.values) && k < 23
  {
    var v := p.values;
    if k < 3 then WriteByte(Some(v.bytes[k])).value
    else if k < 6 then WriteShort(p.order, Some(v.shorts[k - 3])).value
    else if k < 11 then WriteInt(p.order, Some(v.ints[k - 6])).value
    else if k < 16 then WriteLong(p.order, Some(v.longs[k - 11])).value
    else if k == 16 then WriteBoolean(Some(true)).value
    else if k == 17 then WriteBoolean(Some(false)).value
    else if k == 18 then WriteArrayBytes(v.arrayBytes)
    else if k == 19 then WriteString(p.text)
    else if k == 20 then WriteUTF(p.order, Some(p.text)).value
    else if k == 21 then WriteUTF16(Some(p.text)).value
    else p.other
  }

  /** The 23 pieces of a pass. */
  function Pieces(p: Plan): (ps: seq<seq<byte>>)
    requires Shaped(p.values)
    ensures |ps| == 23
  {
    seq(23, k requires 0 <= k < 23 => Piece(p, k))
  }

  /** Pieces 0 .. k-1, one after the other. */
  function Prefix(ps: seq<seq<byte>>, k: nat): seq<byte>
    requires k <= |ps|
  {
    if k == 0 then [] else Prefix(ps, k - 1) + ps[k - 1]
  }

  /** A longer prefix starts with a shorter one. */
  lemma {:induction false} PrefixExtends(ps: seq<seq<byte>>, k: nat, m: nat)
    requires k <= m <= |ps|
    ensures |Prefix(ps, k)| <= |Prefix(ps, m)| && Prefix(ps, m)[..|Prefix(ps, k)|] == Prefix(ps, k)
  {
    if k < m {
      PrefixExtends(ps, k, m - 1);
      assert Prefix(ps, m)[..|Prefix(ps, m - 1)|] == Prefix(ps, m - 1);
    }
  }

  /** Inserting piece j at the end of pieces 0 .. j-1 gives pieces 0 .. j. */
  lemma AppendPiece(s: S.State, ps: seq<seq<byte>>, j: nat)
    requires j < |ps| && S.Valid(s) && s.position == |s.content| && s.content == Prefix(ps, j)
    ensures S.Insert(s, ps[j]) == S.Effect(Pass, s.(content := Prefix(ps, j + 1),
      limit := |Prefix(ps, j + 1)|, position := |Prefix(ps, j + 1)|))
  {
    assert s.content[..s.position] == s.content;
    assert s.content[s.position..] == [];
  }

  /** Where pieces 0 .. m-1 are in, piece k < m sits where pieces 0 .. k-1 end. */
  lemma PieceAt(s: S.State, ps: seq<seq<byte>>, k: nat, m: nat)
    requires k < m <= |ps|
    requires S.Valid(s) && s.content == Prefix(ps, m) && s.position == |Prefix(ps, k)|
    ensures S.At(s, ps[k])
    ensures |Prefix(ps, k + 1)| == s.position + |ps[k]|
  {
    PrefixExtends(ps, k + 1, m);
    var c, q := s.content, Prefix(ps, k + 1);
    assert c[s.position..s.position + |ps[k]|] == q[s.position..];
  }

  /** A plan as the test builds it: values of the test's shape, a non-empty text
      whose length fits the 16-bit writeUTF prefix, and another text as long. */
  predicate Planned(p: Plan)
  {
    Shaped(p.values) && 0 < |p.text| < 65536 && |p.other| == |p.text|
  }

  /** Where piece k starts, for a text of length n > 0: the positions the test
      checks. */
  function Start(k: nat, n: nat): nat
  {
    if k <= 3 then k
    else if k <= 6 then 3 + 2 * (k - 3)
    else if k <= 11 then 9 + 4 * (k - 6)
    else if k <= 16 then 29 + 8 * (k - 11)
    else if k <= 18 then 69 + (k - 16)
    else if k == 19 then 76
    else if k == 20 then 76 + n
    else if k == 21 then 78 + 2 * n
    else if k == 22 then 78 + 4 * n
    else 78 + 5 * n
  }

  lemma PieceLength(p: Plan, k: nat)
    requires Planned(p) && k < 23
    ensures |Piece(p, k)| == Start(k + 1, |p.text|) - Start(k, |p.text|)
  {
    if k == 18 {
      assert |WriteArrayBytes(p.values.arrayBytes)| == 5;
    }
  }

  lemma {:induction false} PrefixLength(p: Plan, k: nat)
    requires Planned(p) && k <= 23
    ensures |Prefix(Pieces(p), k)| == Start(k, |p.text|)
  {
    if k > 0 {
      PrefixLength(p, k - 1);
      PieceLength(p, k - 1);
    }
  }

  /** The buffer holds pieces 0 .. k-1 of the plan, in the plan's order, with the
      cursor at the end. */
  ghost predicate WrittenUpTo(b: Buffer, p: Plan, k: nat)
    reads b
  {
    b.Valid() && Planned(p) && k <= 23 && b.order == p.order &&
    b.content == Prefix(Pieces(p), k) && b.position == |b.content|
  }

  /** The buffer holds the whole plan in the plan's order, with the cursor where
      pieces 0 .. k-1 end. */
  ghost predicate ReadUpTo(b: Buffer, p: Plan, k: nat)
    reads b
  {
    b.Valid() && Planned(p) && k <= 23 && b.order == p.order &&
    b.content == Prefix(Pieces(p), 23) && b.position == Start(k, |p.text|)
  }

  /** insertByte of byte value j. */
  method InsertByteAt(b: Buffer, p: Plan, j: nat)
    requires WrittenUpTo(b, p, j) && j < 3
    modifies b
    ensures WrittenUpTo(b, p, j + 1)
  {
    AppendPiece(b.Snapshot(), Pieces(p), j);
    var _ := b.InsertByte(Some(p.values.bytes[j]));
  }

  /** insertShort of short value j - 3. */
  method InsertShortAt(b: Buffer, p: Plan, j: nat)
    requires WrittenUpTo(b, p, j) && 3 <= j < 6
    modifies b
    ensures WrittenUpTo(b, p, j + 1)
  {
    AppendPiece(b.Snapshot(), Pieces(p), j);
    var _ := b.InsertShort(Some(p.values.shorts[j - 3]));
  }

  /** insertInt of int value j - 6. */
  method InsertIntAt(b: Buffer, p: Plan, j: nat)
    requires WrittenUpTo(b, p, j) && 6 <= j < 11
    modifies b
    ensures WrittenUpTo(b, p, j + 1)
  {
    AppendPiece(b.Snapshot(), Pieces(p), j);
    var _ := b.InsertInt(Some(p.values.ints[j - 6]));
  }

  /** insertLong of long value j - 11. */
  method InsertLongAt(b: Buffer, p: Plan, j: nat)
    requires WrittenUpTo(b, p, j) && 11 <= j < 16
    modifies b
    ensures WrittenUpTo(b, p, j + 1)
  {
    AppendPiece(b.Snapshot(), Pieces(p), j);
    var _ := b.InsertLong(Some(p.values.longs[j - 11]));
  }

  /** insertBoolean(true), then insertBoolean(false). */
  method InsertBooleanAt(b: Buffer, p: Plan, j: nat)
    requires WrittenUpTo(b, p, j) && (j == 16 || j == 17)
    modifies b
    ensures WrittenUpTo(b, p, j + 1)
  {
    AppendPiece(b.Snapshot(), Pieces(p), j);
    var _ := b.InsertBoolean(Some(j == 16));
  }

  /** insertArrayBytes of the byte array. */
  method InsertArrayBytesAt(b: Buffer, p: Plan, j: nat)
    requires WrittenUpTo(b, p, j) && j == 18
    modifies b
    ensures WrittenUpTo(b, p, j + 1)
  {
    AppendPiece(b.Snapshot(), Pieces(p), j);
    var _ := b.InsertArrayBytes(p.values.arrayBytes);
  }

  /** insertString of the text. */
  method InsertStringAt(b: Buffer, p: Plan, j: nat)
    requires WrittenUpTo(b, p, j) && j == 19
    modifies b
    ensures WrittenUpTo(b, p, j + 1)
  {
    AppendPiece(b.Snapshot(), Pieces(p), j);
    var _ := b.InsertString(p.text);
  }

  /** insertUTF of the text. */
  method InsertUTFAt(b: Buffer, p: Plan, j: nat)
    requires WrittenUpTo(b, p, j) && j == 20
    modifies b
    ensures WrittenUpTo(b, p, j + 1)
  {
    AppendPiece(b.Snapshot(), Pieces(p), j);
    var _ := b.InsertUTF(Some(p.text));
  }

  /** insertUTF16 of the text. */
  method InsertUTF16At(b: Buffer, p: Plan, j: nat)
    requires WrittenUpTo(b, p, j) && j == 21
    modifies b
    ensures WrittenUpTo(b, p, j + 1)
  {
    AppendPiece(b.Snapshot(), Pieces(p), j);
    var _ := b.InsertUTF16(Some(p.text));
  }

  /** insert($otherBuffer): the content of a second buffer. */
  method InsertOtherAt(b: Buffer, p: Plan, j: nat)
    requires WrittenUpTo(b, p, j) && j == 22
    modifies b
    ensures WrittenUpTo(b, p, j + 1)
  {
    var otherBuffer := new Buffer(p.other);
    AppendPiece(b.Snapshot(), Pieces(p), j);
    var _ := b.Insert(otherBuffer.ToString());
  }

  /** Lines 79-151, the inserts of one pass, each appended at the end. */
  method WriteAll(b: Buffer, p: Plan)
    requires WrittenUpTo(b, p, 0)
    modifies b
    ensures WrittenUpTo(b, p, 23)
  {
    InsertByteAt(b, p, 0);
    InsertByteAt(b, p, 1);
    InsertByteAt(b, p, 2);
    InsertShortAt(b, p, 3);
    InsertShortAt(b, p, 4);
    InsertShortAt(b, p, 5);
    InsertIntAt(b, p, 6);
    InsertIntAt(b, p, 7);
    InsertIntAt(b, p, 8);
    InsertIntAt(b, p, 9);
    InsertIntAt(b, p, 10);
    InsertLongAt(b, p, 11);
    InsertLongAt(b, p, 12);
    InsertLongAt(b, p, 13);
    InsertLongAt(b, p, 14);
    InsertLongAt(b, p, 15);
    InsertBooleanAt(b, p, 16);
    InsertBooleanAt(b, p, 17);
    InsertArrayBytesAt(b, p, 18);
    InsertStringAt(b, p, 19);
    InsertUTFAt(b, p, 20);
    InsertUTF16At(b, p, 21);
    InsertOtherAt(b, p, 22);
  }

  /** getByte reads byte value k back, narrowed to a signed byte. */
  method GetByteAt(b: Buffer, p: Plan, k: nat) returns (x: Result<int>, m: int)
    requires ReadUpTo(b, p, k) && k < 3
    modifies b
    ensures ReadUpTo(b, p, k + 1) && b.position == old(b.position) + 1 && m == b.position
    ensures x == Success(Narrow(p.values.bytes[k], 1))
  {
    PrefixLength(p, k);
    PieceAt(b.Snapshot(), Pieces(p), k, 23);
    assert Pieces(p)[k] == Piece(p, k);
    S.ByteReadsBack(b.Snapshot(), p.values.bytes[k]);
    x := b.GetByte();
    m := b.Position();
  }

  /** getUnsignedByte reads byte value k back, masked to 8 bits. */
  method GetUnsignedByteAt(b: Buffer, p: Plan, k: nat) returns (x: Result<int>, m: int)
    requires ReadUpTo(b, p, k) && k < 3
    modifies b
    ensures ReadUpTo(b, p, k + 1) && b.position == old(b.position) + 1 && m == b.position
    ensures x == Success(ToUnsigned(p.values.bytes[k], 1))
  {
    PrefixLength(p, k);
    PieceAt(b.Snapshot(), Pieces(p), k, 23);
    assert Pieces(p)[k] == Piece(p, k);
    S.ByteReadsBack(b.Snapshot(), p.values.bytes[k]);
    x := b.GetUnsignedByte();
    m := b.Position();
  }

  /** getShort reads short value k - 3 back, narrowed to 16 signed bits. */
  method GetShortAt(b: Buffer, p: Plan, k: nat) returns (x: Result<int>, m: int)
    requires ReadUpTo(b, p, k) && 3 <= k < 6
    modifies b
    ensures ReadUpTo(b, p, k + 1) && b.position == old(b.position) + 2 && m == b.position
    ensures x == Success(Narrow(p.values.shorts[k - 3], 2))
  {
    PrefixLength(p, k);
    PieceAt(b.Snapshot(), Pieces(p), k, 23);
    assert Pieces(p)[k] == Piece(p, k);
    S.IntegerReadsBack(b.Snapshot(), p.values.shorts[k - 3], 2);
    x := b.GetShort();
    m := b.Position();
  }

  /** getUnsignedShort reads short value k - 3 back, masked to 16 bits. */
  method GetUnsignedShortAt(b: Buffer, p: Plan, k: nat) returns (x: Result<int>, m: int)
    requires ReadUpTo(b, p, k) && 3 <= k < 6
    modifies b
    ensures ReadUpTo(b, p, k + 1) && b.position == old(b.position) + 2 && m == b.position
    ensures x == Success(ToUnsigned(p.values.shorts[k - 3], 2))
  {
    PrefixLength(p, k);
    PieceAt(b.Snapshot(), Pieces(p), k, 23);
    assert Pieces(p)[k] == Piece(p, k);
    S.IntegerReadsBack(b.Snapshot(), p.values.shorts[k - 3], 2);
    x := b.GetUnsignedShort();
    m := b.Position();
  }

  /** getInt reads int value k - 6 back, narrowed to 32 signed bits. */
  method GetIntAt(b: Buffer, p: Plan, k: nat) returns (x: Result<int>, m: int)
    requires ReadUpTo(b, p, k) && 6 <= k < 11
    modifies b
    ensures ReadUpTo(b, p, k + 1) && b.position == old(b.position) + 4 && m == b.position
    ensures x == Success(Narrow(p.values.ints[k - 6], 4))
  {
    PrefixLength(p, k);
    PieceAt(b.Snapshot(), Pieces(p), k, 23);
    assert Pieces(p)[k] == Piece(p, k);
    S.IntegerReadsBack(b.Snapshot(), p.values.ints[k - 6], 4);
    x := b.GetInt();
    m := b.Position();
  }

  /** getUnsignedInt reads int value k - 6 back, masked to 32 bits. */
  method GetUnsignedIntAt(b: Buffer, p: Plan, k: nat) returns (x: Result<int>, m: int)
    requires ReadUpTo(b, p, k) && 6 <= k < 11
    modifies b
    ensures ReadUpTo(b, p, k + 1) && b.position == old(b.position) + 4 && m == b.position
    ensures x == Success(ToUnsigned(p.values.ints[k - 6], 4))
  {
    PrefixLength(p, k);
    PieceAt(b.Snapshot(), Pieces(p), k, 23);
    assert Pieces(p)[k] == Piece(p, k);
    S.IntegerReadsBack(b.Snapshot(), p.values.ints[k - 6], 4);
    x := b.GetUnsignedInt();
    m := b.Position();
  }

  /** getLong reads long value k - 11 back, narrowed to 64 signed bits. */
  method GetLongAt(b: Buffer, p: Plan, k: nat) returns (x: Result<int>, m: int)
    requires ReadUpTo(b, p, k) && 11 <= k < 16
    modifies b
    ensures ReadUpTo(b, p, k + 1) && b.position == old(b.position) + 8 && m == b.position
    ensures x == Success(Narrow(p.values.longs[k - 11], 8))
  {
    PrefixLength(p, k);
    PieceAt(b.Snapshot(), Pieces(p), k, 23);
    assert Pieces(p)[k] == Piece(p, k);
    S.IntegerReadsBack(b.Snapshot(), p.values.longs[k - 11], 8);
    x := b.GetLong();
    m := b.Position();
  }

  /** getBoolean reads true, then false, back. */
  method GetBooleanAt(b: Buffer, p: Plan, k: nat) returns (x: Result<bool>, m: int)
    requires ReadUpTo(b, p, k) && (k == 16 || k == 17)
    modifies b
    ensures ReadUpTo(b, p, k + 1) && b.position == old(b.position) + 1 && m == b.position
    ensures x == Success(k == 16)
  {
    PrefixLength(p, k);
    PieceAt(b.Snapshot(), Pieces(p), k, 23);
    assert Pieces(p)[k] == Piece(p, k);
    S.BooleanReadsBack(b.Snapshot(), k == 16);
    x := b.GetBoolean();
    m := b.Position();
  }

  /** getArrayBytes(5) reads the byte array back. */
  method GetArrayBytesAt(b: Buffer, p: Plan, k: nat) returns (x: Result<seq<int>>, m: int)
    requires ReadUpTo(b, p, k) && k == 18
    modifies b
    ensures ReadUpTo(b, p, k + 1) && b.position == old(b.position) + 5 && m == b.position
    ensures x == Success(p.values.arrayBytes)
  {
    PrefixLength(p, k);
    PieceAt(b.Snapshot(), Pieces(p), k, 23);
    assert Pieces(p)[k] == Piece(p, k);
    S.ArrayBytesReadBack(b.Snapshot(), p.values.arrayBytes);
    x := b.GetArrayBytes(5);
    m := b.Position();
  }

  /** getString(strlen) reads the text back. */
  method GetStringAt(b: Buffer, p: Plan, k: nat) returns (x: Result<seq<byte>>, m: int)
    requires ReadUpTo(b, p, k) && k == 19
    modifies b
    ensures ReadUpTo(b, p, k + 1) && b.position == old(b.position) + |p.text| && m == b.position
    ensures x == Success(p.text)
  {
    PrefixLength(p, k);
    PieceAt(b.Snapshot(), Pieces(p), k, 23);
    assert Pieces(p)[k] == Piece(p, k);
    S.StringReadsBack(b.Snapshot(), p.text);
    x := b.GetString(|p.text|);
    m := b.Position();
  }

  /** getUTF reads the text after its 16-bit length back. */
  method GetUTFAt(b: Buffer, p: Plan, k: nat) returns (x: Result<seq<byte>>, m: int)
    requires ReadUpTo(b, p, k) && k == 20
    modifies b
    ensures ReadUpTo(b, p, k + 1) && b.position == old(b.position) + 2 + |p.text| && m == b.position
    ensures x == Success(p.text)
  {
    PrefixLength(p, k);
    PieceAt(b.Snapshot(), Pieces(p), k, 23);
    assert Pieces(p)[k] == Piece(p, k);
    S.UTFReadsBack(b.Snapshot(), p.text);
    x := b.GetUTF();
    m := b.Position();
  }

  /** getUTF16(strlen) reads the text back from its UTF-16 units. */
  method GetUTF16At(b: Buffer, p: Plan, k: nat) returns (x: Result<seq<byte>>, m: int)
    requires ReadUpTo(b, p, k) && k == 21
    modifies b
    ensures ReadUpTo(b, p, k + 1) && b.position == old(b.position) + 2 * |p.text| && m == b.position
    ensures x == Success(p.text)
  {
    PrefixLength(p, k);
    PieceAt(b.Snapshot(), Pieces(p), k, 23);
    assert Pieces(p)[k] == Piece(p, k);
    S.UTF16ReadsBack(b.Snapshot(), p.text);
    x := b.GetUTF16(|p.text|);
    m := b.Position();
  }

  /** getString(strlen) reads the second buffer's content back. */
  method GetOtherAt(b: Buffer, p: Plan, k: nat) returns (x: Result<seq<byte>>, m: int)
    requires ReadUpTo(b, p, k) && k == 22
    modifies b
    ensures ReadUpTo(b, p, k + 1) && b.position == old(b.position) + |p.text| && m == b.position
    ensures x == Success(p.other)
  {
    PrefixLength(p, k);
    PieceAt(b.Snapshot(), Pieces(p), k, 23);
    assert Pieces(p)[k] == Piece(p, k) == p.other;
    S.StringReadsBack(b.Snapshot(), p.other);
    x := b.GetString(|p.other|);
    m := b.Position();
  }

  /** What one pass observes. */
  datatype Round = Round(
    numbers: seq<Result<int>>,
    flags: seq<Result<bool>>,
    bytes: Result<seq<int>>,
    texts: seq<Result<seq<byte>>>,
    positions: seq<int>)

  /** Lines 155-171 expect each byte narrowed as Cast::toByte would, then masked
      to 8 bits as Cast::toUnsignedByte would. */
  function BytesSeen(v: Values): seq<Result<int>>
    requires Shaped(v)
  {
    [ Success(Narrow(v.bytes[0], 1)), Success(Narrow(v.bytes[1], 1)), Success(Narrow(v.bytes[2], 1)),
      Success(ToUnsigned(v.bytes[0], 1)), Success(ToUnsigned(v.bytes[1], 1)), Success(ToUnsigned(v.bytes[2], 1)) ]
  }

  /** Lines 173-188 expect each short narrowed to 16 signed bits, then masked to 16 bits. */
  function ShortsSeen(v: Values): seq<Result<int>>
    requires Shaped(v)
  {
    [ Success(Narrow(v.shorts[0], 2)), Success(Narrow(v.shorts[1], 2)), Success(Narrow(v.shorts[2], 2)),
      Success(ToUnsigned(v.shorts[0], 2)), Success(ToUnsigned(v.shorts[1], 2)), Success(ToUnsigned(v.shorts[2], 2)) ]
  }

  /** Lines 190-199 expect each int narrowed to 32 signed bits. */
  function IntsSeen(v: Values): seq<Result<int>>
    requires Shaped(v)
  {
    [ Success(Narrow(v.ints[0], 4)), Success(Narrow(v.ints[1], 4)), Success(Narrow(v.ints[2], 4)),
      Success(Narrow(v.ints[3], 4)), Success(Narrow(v.ints[4], 4)) ]
  }

  /** Lines 201-212 expect each int masked to 32 bits. */
  function UnsignedIntsSeen(v: Values): seq<Result<int>>
    requires Shaped(v)
  {
    [ Success(ToUnsigned(v.ints[0], 4)), Success(ToUnsigned(v.ints[1], 4)), Success(ToUnsigned(v.ints[2], 4)),
      Success(ToUnsigned(v.ints[3], 4)), Success(ToUnsigned(v.ints[4], 4)) ]
  }

  /** Lines 214-224 expect each long as it was (Cast::toLong changes no long). */
  function LongsSeen(v: Values): seq<Result<int>>
    requires Shaped(v)
  {
    [ Success(Narrow(v.longs[0], 8)), Success(Narrow(v.longs[1], 8)), Success(Narrow(v.longs[2], 8)),
      Success(Narrow(v.longs[3], 8)), Success(Narrow(v.longs[4], 8)) ]
  }

  /** The positions the test checks, block by block; n is the text's length. */
  const BYTES_MARKS: seq<int> := [0, 1, 2, 3, 0, 1, 2, 3]
  const SHORTS_MARKS: seq<int> := [5, 7, 9, 3, 5, 7, 9]
  const INTS_MARKS: seq<int> := [13, 17, 21, 25, 29]
  const LONGS_FLAGS_ARRAY_MARKS: seq<int> := [37, 45, 53, 61, 69, 70, 71, 76]
  function TextMarks(n: int): seq<int>
  {
    [76 + n, 78 + 2 * n, 78 + 4 * n, 78 + 5 * n]
  }

  /** What the test asserts in one pass, in order: the integers, the booleans,
      the array, the texts, and every position it checks. */
  function Expected(v: Values, str: seq<byte>, other: seq<byte>): Round
    requires Shaped(v)
  {
    Round(
      BytesSeen(v) + ShortsSeen(v) + IntsSeen(v) + UnsignedIntsSeen(v) + LongsSeen(v),
      [Success(true), Success(false)],
      Success(v.arrayBytes),
      [Success(str), Success(str), Success(str), Success(other)],
      BYTES_MARKS + SHORTS_MARKS + INTS_MARKS + INTS_MARKS + LONGS_FLAGS_ARRAY_MARKS + TextMarks(|str|))
  }

  /** Lines 155-171: the bytes signed, setPosition(0), the bytes unsigned. */
  method ReadBytes(b: Buffer, p: Plan) returns (values: seq<Result<int>>, marks: seq<int>)
    requires ReadUpTo(b, p, 0)
    modifies b
    ensures ReadUpTo(b, p, 3)
    ensures Shaped(p.values) && values == BytesSeen(p.values)
    ensures marks == BYTES_MARKS
  {
    var m0 := b.Position();
    var x0, m1 := GetByteAt(b, p, 0);
    var x1, m2 := GetByteAt(b, p, 1);
    var x2, m3 := GetByteAt(b, p, 2);
    var _ := b.SetPosition(0);
    var m4 := b.Position();
    var u0, m5 := GetUnsignedByteAt(b, p, 0);
    var u1, m6 := GetUnsignedByteAt(b, p, 1);
    var u2, m7 := GetUnsignedByteAt(b, p, 2);
    values := [x0, x1, x2, u0, u1, u2];
    marks := [m0, m1, m2, m3, m4, m5, m6, m7];
  }

  /** Lines 173-188: the shorts signed, skip(-6), the shorts unsigned. */
  method ReadShorts(b: Buffer, p: Plan) returns (values: seq<Result<int>>, marks: seq<int>)
    requires ReadUpTo(b, p, 3)
    modifies b
    ensures ReadUpTo(b, p, 6)
    ensures Shaped(p.values) && values == ShortsSeen(p.values)
    ensures marks == SHORTS_MARKS
  {
    var y0, m0 := GetShortAt(b, p, 3);
    var y1, m1 := GetShortAt(b, p, 4);
    var y2, m2 := GetShortAt(b, p, 5);
    var _ := b.Skip(-6);
    var m3 := b.Position();
    var w0, m4 := GetUnsignedShortAt(b, p, 3);
    var w1, m5 := GetUnsignedShortAt(b, p, 4);
    var w2, m6 := GetUnsignedShortAt(b, p, 5);
    values := [y0, y1, y2, w0, w1, w2];
    marks := [m0, m1, m2, m3, m4, m5, m6];
  }

  /** Lines 190-199: the ints signed. */
  method ReadInts(b: Buffer, p: Plan) returns (values: seq<Result<int>>, marks: seq<int>)
    requires ReadUpTo(b, p, 6)
    modifies b
    ensures ReadUpTo(b, p, 11)
    ensures Shaped(p.values) && values == IntsSeen(p.values)
    ensures marks == INTS_MARKS
  {
    var x0, m0 := GetIntAt(b, p, 6);
    var x1, m1 := GetIntAt(b, p, 7);
    var x2, m2 := GetIntAt(b, p, 8);
    var x3, m3 := GetIntAt(b, p, 9);
    var x4, m4 := GetIntAt(b, p, 10);
    values := [x0, x1, x2, x3, x4];
    marks := [m0, m1, m2, m3, m4];
  }

  /** Lines 201-212: skip(-20), then the ints unsigned. */
  method ReadUnsignedInts(b: Buffer, p: Plan) returns (values: seq<Result<int>>, marks: seq<int>)
    requires ReadUpTo(b, p, 11)
    modifies b
    ensures ReadUpTo(b, p, 11)
    ensures Shaped(p.values) && values == UnsignedIntsSeen(p.values)
    ensures marks == INTS_MARKS
  {
    var _ := b.Skip(-20);
    var u0, m0 := GetUnsignedIntAt(b, p, 6);
    var u1, m1 := GetUnsignedIntAt(b, p, 7);
    var u2, m2 := GetUnsignedIntAt(b, p, 8);
    var u3, m3 := GetUnsignedIntAt(b, p, 9);
    var u4, m4 := GetUnsignedIntAt(b, p, 10);
    values := [u0, u1, u2, u3, u4];
    marks := [m0, m1, m2, m3, m4];
  }

  /** Lines 214-231: longs, booleans, the byte array. */
  method ReadLongsFlagsArray(b: Buffer, p: Plan)
    returns (values: seq<Result<int>>, flags: seq<Result<bool>>, bytes: Result<seq<int>>, marks: seq<int>)
    requires ReadUpTo(b, p, 11)
    modifies b
    ensures ReadUpTo(b, p, 19)
    ensures Shaped(p.values) && values == LongsSeen(p.values)
    ensures flags == [Success(true), Success(false)] && bytes == Success(p.values.arrayBytes)
    ensures marks == LONGS_FLAGS_ARRAY_MARKS
  {
    var x0, m0 := GetLongAt(b, p, 11);
    var x1, m1 := GetLongAt(b, p, 12);
    var x2, m2 := GetLongAt(b, p, 13);
    var x3, m3 := GetLongAt(b, p, 14);
    var x4, m4 := GetLongAt(b, p, 15);
    var f0, m5 := GetBooleanAt(b, p, 16);
    var f1, m6 := GetBooleanAt(b, p, 17);
    var m7;
    bytes, m7 := GetArrayBytesAt(b, p, 18);
    values := [x0, x1, x2, x3, x4];
    flags := [f0, f1];
    marks := [m0, m1, m2, m3, m4, m5, m6, m7];
  }

  /** Lines 233-243: the string, the UTF string, the UTF16 string, the other buffer's content. */
  method ReadTexts(b: Buffer, p: Plan) returns (texts: seq<Result<seq<byte>>>, marks: seq<int>)
    requires ReadUpTo(b, p, 19)
    modifies b
    ensures ReadUpTo(b, p, 23)
    ensures texts == [Success(p.text), Success(p.text), Success(p.text), Success(p.other)]
    ensures marks == TextMarks(|p.text|)
  {
    var t0, m0 := GetStringAt(b, p, 19);
    var t1, m1 := GetUTFAt(b, p, 20);
    var t2, m2 := GetUTF16At(b, p, 21);
    var t3, m3 := GetOtherAt(b, p, 22);
    texts := [t0, t1, t2, t3];
    marks := [m0, m1, m2, m3];
  }

  /** Lines 72-243, one pass of the loop body: truncate, setOrder, the inserts,
      rewind, the reads. */
  method InsertRound(b: Buffer, name: string, v: Values, str: seq<byte>, other: seq<byte>) returns (round: Round)
    requires Shaped(v) && 0 < |str| < 65536 && |other| == |str|
    modifies b
    ensures b.Valid() && b.order == ParseOrder(name)
    ensures round == Expected(v, str, other)
  {
    b.Truncate();
    b.SetOrder(name);
    var p := Plan(b.order, v, str, other);
    WriteAll(b, p);
    b.Rewind();
    var v1, m1 := ReadBytes(b, p);
    var v2, m2 := ReadShorts(b, p);
    var v3, m3 := ReadInts(b, p);
    var v4, m4 := ReadUnsignedInts(b, p);
    var v5, flags, bytes, m5 := ReadLongsFlagsArray(b, p);
    var texts, m6 := ReadTexts(b, p);
    round := Round(v1 + v2 + v3 + v4 + v5, flags, bytes, texts, m1 + m2 + m3 + m4 + m5 + m6);
  }

  /** testInsertFunctional: the same pass in big-endian and then little-endian
      order on one buffer observes what the test asserts both times. The text
      is any non-empty byte string whose length fits the 16-bit writeUTF prefix,
      and other has its length (str_rot13 of it in the test). */
  method InsertFunctional(str: seq<byte>, other: seq<byte>) returns (rounds: seq<Round>)
    requires 0 < |str| < 65536 && |other| == |str|
    ensures Shaped(TEST_VALUES)
    ensures rounds == [Expected(TEST_VALUES, str, other), Expected(TEST_VALUES, str, other)]
  {
    var b := new Buffer([]);
    var orders := [BIG_ENDIAN, LITTLE_ENDIAN];
    rounds := [];
    for i := 0 to |orders|
      invariant |rounds| == i
      invariant forall j :: 0 <= j < i ==> rounds[j] == Expected(TEST_VALUES, str, other)
    {
      var round := InsertRound(b, orders[i], TEST_VALUES, str, other);
      rounds := rounds + [round];
    }
  }
}
