/** The byte formats of the buffer's typed values: byte order, the pack/unpack
    codes used for integers, and the side-effect-free write* encoders with the
    decoders their get* counterparts apply (src/Nelexa/Buffer/Buffer.php). */
module Wire {
  import opened IntegerCodec

  /** The order in which multi-byte integers are laid out. */
  datatype ByteOrder = BigEndian | LittleEndian

  /** The values of Buffer::BIG_ENDIAN and Buffer::LITTLE_ENDIAN. */
  const BIG_ENDIAN: string := "BIG_ENDIAN"
  const LITTLE_ENDIAN: string := "LITTLE_ENDIAN"

  /** The byte order of pack code 'S' (machine order); fixed to little-endian here. */
  const HOST_ORDER: ByteOrder := LittleEndian

  /** setOrder keeps LITTLE_ENDIAN and maps every other argument to BIG_ENDIAN. */
  function ParseOrder(name: string): (o: ByteOrder)
    ensures o == LittleEndian <==> name == LITTLE_ENDIAN
    ensures o == BigEndian <==> name != LITTLE_ENDIAN
  {
    if name == LITTLE_ENDIAN then LittleEndian else BigEndian
  }

  /** What order() reports: one of the two constants, naming the order. */
  function OrderName(o: ByteOrder): (r: string)
    ensures r == BIG_ENDIAN || r == LITTLE_ENDIAN
    ensures r == LITTLE_ENDIAN <==> o == LittleEndian
  {
    match o
    case BigEndian => BIG_ENDIAN
    case LittleEndian => LITTLE_ENDIAN
  }

  /** Setting an order by the name the buffer reports gives the same order back,
      and parsing is idempotent. */
  lemma ParseOrderName(o: ByteOrder, name: string)
    ensures ParseOrder(OrderName(o)) == o
    ensures ParseOrder(OrderName(ParseOrder(name))) == ParseOrder(name)
  {
  }

  /** A possibly absent (PHP null) argument. */
  datatype Option<T> = None | Some(value: T)

  /** The failures a buffer operation reports (BufferException in the source). */
  datatype Error =
    | InvalidPosition(position: int, limit: int)
    | NegativeLimit(limit: int)
    | NullValue(kind: string)
    | LengthExceedsRemaining(operation: string)
    | NegativeLength(length: int)
    | NegativePosition(position: int)
  {
    /** The exception message. */
    function Message(): string
    {
      match this
      case InvalidPosition(p, l) =>
        "Set position " + Decimal(p) + " invalid. Exceeded limit " + Decimal(l)
      case NegativeLimit(_) => "New Limit < 0"
      case NullValue(kind) => "null " + kind
      case LengthExceedsRemaining(op) => op + " length > remaining"
      case NegativeLength(n) => "negative length " + Decimal(n)
      case NegativePosition(p) => "negative position " + Decimal(p)
    }
  }

  /** Decimal notation of an integer, as PHP's string concatenation prints it. */
  function Decimal(v: int): string
    decreases if v < 0 then 1 - v else v
  {
    if v < 0 then "-" + Decimal(-v)
    else if v < 10 then [['0','1','2','3','4','5','6','7','8','9'][v]]
    else Decimal(v / 10) + Decimal(v % 10)
  }

  /** The messages of the source's exceptions with a fixed text. */
  lemma SourceMessages()
    ensures NegativeLimit(-1).Message() == "New Limit < 0"
    ensures NullValue("boolean").Message() == "null " + "boolean"
    ensures NullValue("str").Message() == "null " + "str"
    ensures LengthExceedsRemaining("put").Message() == "put" + " length > remaining"
    ensures LengthExceedsRemaining("replace").Message() == "replace" + " length > remaining"
    ensures LengthExceedsRemaining("remove").Message() == "remove" + " length > remaining"
  {
  }

  /** setPosition's message prints the rejected position and the limit in decimal. */
  lemma PositionMessage()
    ensures InvalidPosition(12, 9).Message() == "Set position " + "12" + " invalid. Exceeded limit " + "9"
  {
    assert Decimal(12) == "12";
  }

  datatype Result<T> = Success(value: T) | Failure(error: Error)

  /** The outcome of an operation that returns no value. */
  datatype Outcome = Pass | Fail(error: Error)

  /** The unsigned value of a byte string read in the given order
      (unpack codes C, n/v, N/V). */
  function DecodeUnsigned(o: ByteOrder, b: seq<byte>): (u: nat)
    ensures u < Pow256(|b|)
  {
    match o
    case BigEndian => DecodeBE(b)
    case LittleEndian => DecodeLE(b)
  }

  /** The two's-complement value of a non-empty byte string (unpack codes c, J/P). */
  function DecodeSigned(o: ByteOrder, b: seq<byte>): (v: int)
    requires |b| >= 1
    ensures -Half(|b|) <= v < Half(|b|)
  {
    ToSigned(DecodeUnsigned(o, b), |b|)
  }

  /** pack() of an n-byte integer code: the low 8n bits of v, in order o.
      Byte i is the (n-1-i)-th least significant byte in big-endian and the
      i-th in little-endian, and unpacking gives back v modulo 256^n. */
  function Pack(o: ByteOrder, v: int, n: nat): (r: seq<byte>)
    ensures |r| == n
    ensures DecodeUnsigned(o, r) == ToUnsigned(v, n)
    ensures forall i :: 0 <= i < n ==>
      r[i] == ByteOf(ToUnsigned(v, n), if o == BigEndian then n - 1 - i else i)
  {
    var u := ToUnsigned(v, n);
    match o
    case BigEndian =>
      DecodeEncodeBE(u, n);
      EncodeBEBytes(u, n);
      EncodeBE(u, n)
    case LittleEndian =>
      DecodeEncodeLE(u, n);
      EncodeLEBytes(u, n);
      EncodeLE(u, n)
  }

  /** Unpacking loses nothing: packing the unpacked value rebuilds the bytes. */
  lemma PackDecodeUnsigned(o: ByteOrder, b: seq<byte>)
    ensures Pack(o, DecodeUnsigned(o, b), |b|) == b
  {
    var u := DecodeUnsigned(o, b);
    ModOfDecomposition(u, Pow256(|b|), 0, u);
    match o
    case BigEndian => EncodeDecodeBE(b);
    case LittleEndian => EncodeDecodeLE(b);
  }

  /** A non-negative value that fits in m bytes keeps its m-byte layout inside the
      (m + k)-byte one, the other k bytes being zero (high side first in big-endian,
      last in little-endian). */
  lemma PackWiden(o: ByteOrder, v: int, m: nat, k: nat)
    requires 0 <= v < Pow256(m)
    ensures o == BigEndian ==> Pack(o, v, m + k) == Zeros(k) + Pack(o, v, m)
    ensures o == LittleEndian ==> Pack(o, v, m + k) == Pack(o, v, m) + Zeros(k)
  {
    EncodeBEWiden(v, m, k);
    EncodeLEWiden(v, m, k);
    ModOfDecomposition(v, Pow256(m), 0, v);
    ModOfDecomposition(v, Pow256(m + k), 0, v);
  }

  /** Signed unpacking of packed bytes is narrowing. */
  lemma DecodeSignedPack(o: ByteOrder, v: int, n: nat)
    requires n >= 1
    ensures DecodeSigned(o, Pack(o, v, n)) == Narrow(v, n)
  {
  }

  /** Single-byte values are the same in both orders. */
  lemma SingleByteIgnoresOrder(v: int, b: seq<byte>)
    requires |b| == 1
    ensures Pack(BigEndian, v, 1) == Pack(LittleEndian, v, 1)
    ensures DecodeUnsigned(BigEndian, b) == DecodeUnsigned(LittleEndian, b) == b[0]
  {
    assert b[..0] == [] && b[1..] == [];
  }

  /** getBoolean: a byte is true when it is not zero. */
  function IsTrue(b: byte): bool
  {
    b != 0
  }

  /** writeBoolean: one byte, 1 for true and 0 for false; null is refused. */
  function WriteBoolean(v: Option<bool>): (r: Result<seq<byte>>)
    ensures r.Failure? <==> v.None?
    ensures r.Failure? ==> r.error == NullValue("boolean")
    ensures r.Success? ==> |r.value| == 1 && r.value[0] == (if v.value then 1 else 0)
    ensures r.Success? ==> (IsTrue(r.value[0]) <==> v.value)
  {
    match v
    case None => Failure(NullValue("boolean"))
    case Some(b) =>
      var x := if b then 1 else 0;
      PackByte(x);
      Success(Pack(BigEndian, x, 1))
  }

  /** One byte packs as itself. */
  lemma PackByte(x: int)
    requires 0 <= x < 256
    ensures Pack(BigEndian, x, 1) == [x]
  {
    assert Pow256(1) == 256;
    assert ByteOf(x, 0) == x;
  }

  /** writeByte: the low 8 bits of v (pack code c); null is refused. */
  function WriteByte(v: Option<int>): (r: Result<seq<byte>>)
    ensures r.Failure? <==> v.None?
    ensures r.Failure? ==> r.error == NullValue("byte")
    ensures r.Success? ==> |r.value| == 1 && r.value[0] == ToUnsigned(v.value, 1)
    ensures r.Success? ==> DecodeSigned(BigEndian, r.value) == Narrow(v.value, 1)
  {
    match v
    case None => Failure(NullValue("byte"))
    case Some(x) => Success(Pack(BigEndian, x, 1))
  }

  /** The shared shape of writeShort, writeInt and writeLong. */
  function WriteInteger(o: ByteOrder, v: Option<int>, n: nat, kind: string): (r: Result<seq<byte>>)
    requires n >= 1
    ensures r.Failure? <==> v.None?
    ensures r.Failure? ==> r.error == NullValue(kind)
    ensures r.Success? ==> |r.value| == n && DecodeUnsigned(o, r.value) == ToUnsigned(v.value, n)
    ensures r.Success? ==> DecodeSigned(o, r.value) == Narrow(v.value, n)
  {
    match v
    case None => Failure(NullValue(kind))
    case Some(x) => Success(Pack(o, x, n))
  }

  /** writeShort: 2 bytes, pack code n (big-endian) or v (little-endian). */
  function WriteShort(o: ByteOrder, v: Option<int>): (r: Result<seq<byte>>)
    ensures r.Failure? <==> v.None?
    ensures r.Success? ==> |r.value| == 2 && DecodeUnsigned(o, r.value) == ToUnsigned(v.value, 2)
  {
    WriteInteger(o, v, 2, "short")
  }

  /** writeInt: 4 bytes, pack code N (big-endian) or V (little-endian). */
  function WriteInt(o: ByteOrder, v: Option<int>): (r: Result<seq<byte>>)
    ensures r.Failure? <==> v.None?
    ensures r.Success? ==> |r.value| == 4 && DecodeUnsigned(o, r.value) == ToUnsigned(v.value, 4)
  {
    WriteInteger(o, v, 4, "int")
  }

  /** writeLong: 8 bytes, pack code J (big-endian) or P (little-endian). */
  function WriteLong(o: ByteOrder, v: Option<int>): (r: Result<seq<byte>>)
    ensures r.Failure? <==> v.None?
    ensures r.Success? ==> |r.value| == 8 && DecodeSigned(o, r.value) == Narrow(v.value, 8)
  {
    WriteInteger(o, v, 8, "long")
  }

  /** writeString: the raw bytes. */
  function WriteString(s: seq<byte>): (r: seq<byte>)
    ensures r == s
  {
    s
  }

  /** writeArrayBytes: each element's low 8 bits (pack code c*). */
  function WriteArrayBytes(a: seq<int>): (r: seq<byte>)
    ensures |r| == |a|
    ensures forall i :: 0 <= i < |a| ==> ToSigned(r[i], 1) == Narrow(a[i], 1)
  {
    seq(|a|, i requires 0 <= i < |a| => ToUnsigned(a[i], 1))
  }

  /** getArrayBytes: each byte read as a signed byte (unpack code c*). */
  function SignedBytes(b: seq<byte>): (r: seq<int>)
    ensures |r| == |b|
    ensures forall i :: 0 <= i < |b| ==> -128 <= r[i] < 128
    ensures forall i :: 0 <= i < |b| ==> r[i] == ToSigned(b[i], 1)
  {
    seq(|b|, i requires 0 <= i < |b| => ToSigned(b[i], 1))
  }

  /** Written byte arrays read back narrowed, so arrays of signed bytes round-trip. */
  lemma ArrayBytesRoundTrip(a: seq<int>)
    ensures |SignedBytes(WriteArrayBytes(a))| == |a|
    ensures forall i :: 0 <= i < |a| ==> SignedBytes(WriteArrayBytes(a))[i] == Narrow(a[i], 1)
    ensures (forall i :: 0 <= i < |a| ==> -128 <= a[i] < 128) ==> SignedBytes(WriteArrayBytes(a)) == a
  {
    var r := SignedBytes(WriteArrayBytes(a));
    if forall i :: 0 <= i < |a| ==> -128 <= a[i] < 128 {
      forall i | 0 <= i < |a|
        ensures r[i] == a[i]
      {
        NarrowInRange(a[i], 1);
      }
    }
  }

  /** writeUTF: a 2-byte length in the buffer's order followed by the raw bytes.
      There is no length check: the prefix keeps the length modulo 65536. */
  function WriteUTF(o: ByteOrder, s: Option<seq<byte>>): (r: Result<seq<byte>>)
    ensures r.Failure? <==> s.None?
    ensures r.Failure? ==> r.error == NullValue("str")
    ensures r.Success? ==> |r.value| == 2 + |s.value| && r.value[2..] == s.value
    ensures r.Success? ==> DecodeUnsigned(o, r.value[..2]) == |s.value| % 65536
  {
    match s
    case None => Failure(NullValue("str"))
    case Some(str) =>
      var prefix := Pack(o, |str|, 2);
      assert (prefix + str)[..2] == prefix;
      Success(prefix + str)
  }

  /** A byte packed as one host-order (little-endian) 16-bit unit is the byte and then zero. */
  lemma ByteUnit(x: byte)
    ensures Pack(HOST_ORDER, x, 2) == [x, 0]
  {
    assert Pow256(2) == 65536;
    ModOfDecomposition(x, 65536, 0, x);
    assert ByteOf(x, 0) == x;
    assert ByteOf(x, 1) == ByteOf(x / 256, 0) == 0;
  }

  /** chr of a host-order 16-bit unit is its first (low) byte. */
  lemma UnitLowByte(b: seq<byte>)
    requires |b| == 2
    ensures DecodeUnsigned(HOST_ORDER, b) % 256 == b[0]
  {
    ModOfDecomposition(DecodeLE(b), 256, DecodeLE(b[1..]), b[0]);
  }

  /** One 16-bit unit (pack code S, host order) per input byte, zero-extended:
      unit i is byte i of s followed by a zero byte. */
  function Utf16Units(s: seq<byte>): (r: seq<byte>)
    ensures |r| == 2 * |s|
    ensures forall i :: 0 <= i < |s| ==> r[2 * i] == s[i] && r[2 * i + 1] == 0
  {
    if s == [] then []
    else
      ByteUnit(s[0]);
      Pack(HOST_ORDER, s[0], 2) + Utf16Units(s[1..])
  }

  /** getUTF16's decoding: each 16-bit unit (unpack code S) narrowed by chr to
      its low byte, which is the unit's first byte in host order. */
  function LowBytes(b: seq<byte>): (r: seq<byte>)
    requires |b| % 2 == 0
    ensures 2 * |r| == |b|
  {
    if b == [] then [] else [DecodeUnsigned(HOST_ORDER, b[..2]) % 256] + LowBytes(b[2..])
  }

  /** Byte i of getUTF16's decoding is the first byte of unit i. */
  lemma {:induction false} LowBytesKeepFirst(b: seq<byte>)
    requires |b| % 2 == 0
    ensures forall i :: 0 <= i < |LowBytes(b)| ==> LowBytes(b)[i] == b[2 * i]
  {
    if b != [] {
      UnitLowByte(b[..2]);
      LowBytesKeepFirst(b[2..]);
      forall i | 1 <= i < |LowBytes(b)|
        ensures LowBytes(b)[i] == b[2 * i]
      {
        assert LowBytes(b)[i] == LowBytes(b[2..])[i - 1];
        assert b[2..][2 * (i - 1)] == b[2 * i];
      }
    }
  }

  lemma {:induction false} Utf16RoundTrip(s: seq<byte>)
    ensures LowBytes(Utf16Units(s)) == s
  {
    if s != [] {
      var units := Utf16Units(s);
      var head := Pack(HOST_ORDER, s[0], 2);
      assert units[..2] == head && units[2..] == Utf16Units(s[1..]);
      ModOfDecomposition(s[0], 256, 0, s[0]);
      ModOfDecomposition(s[0], 65536, 0, s[0]);
      Utf16RoundTrip(s[1..]);
    }
  }

  /** writeUTF16: str_split and ord give one unit per byte; on the PHP versions
      this code targets, str_split("") is [""] and ord("") is 0, so the empty
      string is written as one zero unit. */
  function WriteUTF16(s: Option<seq<byte>>): (r: Result<seq<byte>>)
    ensures r.Failure? <==> s.None?
    ensures r.Failure? ==> r.error == NullValue("UTF16")
    ensures r.Success? && s.value != [] ==> |r.value| == 2 * |s.value| && LowBytes(r.value) == s.value
    ensures r.Success? && s.value != [] ==>
      forall i :: 0 <= i < |s.value| ==> r.value[2 * i] == s.value[i] && r.value[2 * i + 1] == 0
    ensures r.Success? && s.value == [] ==> r.value == [0, 0]
  {
    match s
    case None => Failure(NullValue("UTF16"))
    case Some(str) =>
      if str == [] then Success(Pack(HOST_ORDER, 0, 2))
      else
        Utf16RoundTrip(str);
        Success(Utf16Units(str))
  }
}
