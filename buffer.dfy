/** The Buffer object of src/Nelexa/Buffer/Buffer.php: its four fields plus the
    content of the sequence-backed implementation, updated in place by methods.
    Every method is proved to perform exactly the transition of module BufferState
    (the properties proved there then hold of the object), and to keep Valid(). */
module Buffers {
  import opened IntegerCodec
  import opened Wire
  import S = BufferState

  class Buffer {
    var content: seq<byte>
    var position: int
    var limit: int
    var order: ByteOrder
    var readOnly: bool

    /** The object's state as a value. */
    function Snapshot(): S.State
      reads this
    {
      S.State(content, position, limit, order, readOnly)
    }

    ghost predicate Valid()
      reads this
    {
      S.Valid(Snapshot())
    }

    /** A buffer over the given bytes: position 0, big-endian, writable. */
    constructor (initial: seq<byte>)
      ensures Valid() && Snapshot() == S.Initial(initial)
    {
      content := initial;
      position := 0;
      limit := |initial|;
      order := BigEndian;
      readOnly := false;
    }

    // ------------------------------------------------------------ accessors

    function Position(): (r: int)
      reads this
      ensures r == Snapshot().position
    {
      position
    }

    function Size(): (r: int)
      reads this
      ensures Valid() ==> r == |Snapshot().content|
    {
      limit
    }

    function Order(): (r: string)
      reads this
      ensures r == BIG_ENDIAN || r == LITTLE_ENDIAN
      ensures r == LITTLE_ENDIAN <==> order == LittleEndian
    {
      OrderName(order)
    }

    function IsReadOnly(): (r: bool)
      reads this
      ensures r == Snapshot().readOnly
    {
      readOnly
    }

    function Remaining(): (r: int)
      reads this
      ensures r == S.Remaining(Snapshot())
    {
      limit - position
    }

    function HasRemaining(): (r: bool)
      reads this
      ensures r <==> Remaining() > 0
    {
      position < limit
    }

    /** toString(): the whole content. */
    function ToString(): (r: seq<byte>)
      reads this
      ensures r == Snapshot().content
    {
      content
    }

    // ------------------------------------------------------------ cursor

    method SetPosition(p: int) returns (r: Outcome)
      requires Valid()
      modifies this
      ensures Valid()
      ensures S.Effect(r, Snapshot()) == S.SetPosition(old(Snapshot()), p)
    {
      if p > limit {
        return Fail(InvalidPosition(p, limit));
      }
      position := p;
      return Pass;
    }

    method Rewind()
      requires Valid()
      modifies this
      ensures Valid()
      ensures Snapshot() == S.Rewind(old(Snapshot()))
    {
      var _ := SetPosition(0);
    }

    method Skip(n: int) returns (r: Outcome)
      requires Valid()
      modifies this
      ensures Valid()
      ensures S.Effect(r, Snapshot()) == S.Skip(old(Snapshot()), n)
    {
      r := SetPosition(position + n);
    }

    method SkipByte() returns (r: Outcome)
      requires Valid()
      modifies this
      ensures Valid()
      ensures S.Effect(r, Snapshot()) == S.Skip(old(Snapshot()), 1)
    {
      r := Skip(1);
    }

    method SkipShort() returns (r: Outcome)
      requires Valid()
      modifies this
      ensures Valid()
      ensures S.Effect(r, Snapshot()) == S.Skip(old(Snapshot()), 2)
    {
      r := Skip(2);
    }

    method SkipInt() returns (r: Outcome)
      requires Valid()
      modifies this
      ensures Valid()
      ensures S.Effect(r, Snapshot()) == S.Skip(old(Snapshot()), 4)
    {
      r := Skip(4);
    }

    method SkipLong() returns (r: Outcome)
      requires Valid()
      modifies this
      ensures Valid()
      ensures S.Effect(r, Snapshot()) == S.Skip(old(Snapshot()), 8)
    {
      r := Skip(8);
    }

    /** newLimit works whether or not the content already matches the limit,
        since Flip calls it after cutting the content. The source's newLimit is
        protected and no shown code calls it; in this model Flip is its only
        caller. Called on its own with n other than the size, it leaves the
        object outside Valid(). */
    method NewLimit(n: int) returns (r: Outcome)
      modifies this
      ensures S.Effect(r, Snapshot()) == S.NewLimit(old(Snapshot()), n)
    {
      if n < 0 {
        return Fail(NegativeLimit(n));
      }
      limit := n;
      if position > limit {
        position := limit;
      }
      return Pass;
    }

    method SetOrder(name: string)
      modifies this
      ensures Snapshot() == S.SetOrder(old(Snapshot()), name)
    {
      order := if name == LITTLE_ENDIAN then LittleEndian else BigEndian;
    }

    method SetReadOnly(flag: bool)
      modifies this
      ensures Snapshot() == S.SetReadOnly(old(Snapshot()), flag)
    {
      readOnly := flag;
    }

    // ------------------------------------------------------------ content primitives

    method Get(n: int) returns (r: Result<seq<byte>>)
      requires Valid()
      modifies this
      ensures Valid()
      ensures S.Reading(r, Snapshot()) == S.Get(old(Snapshot()), n)
    {
      if n > limit - position {
        return Failure(LengthExceedsRemaining("get"));
      }
      if n < 0 {
        return Failure(NegativeLength(n));
      }
      if position < 0 {
        return Failure(NegativePosition(position));
      }
      r := Success(content[position..position + n]);
      position := position + n;
    }

    method Insert(b: seq<byte>) returns (r: Outcome)
      requires Valid()
      modifies this
      ensures Valid()
      ensures S.Effect(r, Snapshot()) == S.Insert(old(Snapshot()), b)
    {
      if position < 0 {
        return Fail(NegativePosition(position));
      }
      content := content[..position] + b + content[position..];
      limit := |content|;
      position := position + |b|;
      return Pass;
    }

    method Put(b: seq<byte>) returns (r: Outcome)
      requires Valid()
      modifies this
      ensures Valid()
      ensures S.Effect(r, Snapshot()) == S.Put(old(Snapshot()), b)
    {
      if |b| > limit - position {
        return Fail(LengthExceedsRemaining("put"));
      }
      if position < 0 {
        return Fail(NegativePosition(position));
      }
      content := content[..position] + b + content[position + |b|..];
      position := position + |b|;
      return Pass;
    }

    method Replace(b: seq<byte>, n: int) returns (r: Outcome)
      requires Valid()
      modifies this
      ensures Valid()
      ensures S.Effect(r, Snapshot()) == S.Replace(old(Snapshot()), b, n)
    {
      if n > limit - position {
        return Fail(LengthExceedsRemaining("replace"));
      }
      if n < 0 {
        return Fail(NegativeLength(n));
      }
      if position < 0 {
        return Fail(NegativePosition(position));
      }
      content := content[..position] + b + content[position + n..];
      limit := |content|;
      position := position + |b|;
      return Pass;
    }

    method Remove(n: int) returns (r: Outcome)
      requires Valid()
      modifies this
      ensures Valid()
      ensures S.Effect(r, Snapshot()) == S.Remove(old(Snapshot()), n)
    {
      if n > limit - position {
        return Fail(LengthExceedsRemaining("remove"));
      }
      if n < 0 {
        return Fail(NegativeLength(n));
      }
      if position < 0 {
        return Fail(NegativePosition(position));
      }
      content := content[..position] + content[position + n..];
      limit := |content|;
      return Pass;
    }

    /** flip(): cut the content at the position, newLimit(position), setPosition(0). */
    method Flip() returns (r: Outcome)
      requires Valid()
      modifies this
      ensures Valid()
      ensures S.Effect(r, Snapshot()) == S.Flip(old(Snapshot()))
    {
      if position < 0 {
        r := NewLimit(position);
        return;
      }
      content := content[..position];
      r := NewLimit(position);
      r := SetPosition(0);
    }

    method Truncate()
      modifies this
      ensures Valid()
      ensures Snapshot() == S.Truncate(old(Snapshot()))
    {
      content := [];
      position := 0;
      limit := 0;
    }

    // ------------------------------------------------------------ typed readers

    method GetUnsignedByte() returns (r: Result<int>)
      requires Valid()
      modifies this
      ensures Valid()
      ensures S.Reading(r, Snapshot()) == S.GetUnsigned(old(Snapshot()), 1)
    {
      var g := Get(1);
      if g.Failure? {
        return Failure(g.error);
      }
      return Success(DecodeUnsigned(order, g.value));
    }

    method GetUnsignedShort() returns (r: Result<int>)
      requires Valid()
      modifies this
      ensures Valid()
      ensures S.Reading(r, Snapshot()) == S.GetUnsigned(old(Snapshot()), 2)
    {
      var g := Get(2);
      if g.Failure? {
        return Failure(g.error);
      }
      return Success(DecodeUnsigned(order, g.value));
    }

    method GetUnsignedInt() returns (r: Result<int>)
      requires Valid()
      modifies this
      ensures Valid()
      ensures S.Reading(r, Snapshot()) == S.GetUnsigned(old(Snapshot()), 4)
    {
      var g := Get(4);
      if g.Failure? {
        return Failure(g.error);
      }
      return Success(DecodeUnsigned(order, g.value));
    }

    /** getBoolean(): (bool) getUnsignedByte(). */
    method GetBoolean() returns (r: Result<bool>)
      requires Valid()
      modifies this
      ensures Valid()
      ensures S.Reading(r, Snapshot()) == S.GetBoolean(old(Snapshot()))
    {
      var u := GetUnsignedByte();
      if u.Failure? {
        return Failure(u.error);
      }
      return Success(u.value != 0);
    }

    /** getByte(): the unsigned byte narrowed to a signed one (Cast::toByte). */
    method GetByte() returns (r: Result<int>)
      requires Valid()
      modifies this
      ensures Valid()
      ensures S.Reading(r, Snapshot()) == S.GetSigned(old(Snapshot()), 1)
    {
      var u := GetUnsignedByte();
      if u.Failure? {
        return Failure(u.error);
      }
      NarrowOfUnsigned(u.value, 1);
      return Success(Narrow(u.value, 1));
    }

    /** getShort(): the unsigned short narrowed to a signed one (Cast::toShort). */
    method GetShort() returns (r: Result<int>)
      requires Valid()
      modifies this
      ensures Valid()
      ensures S.Reading(r, Snapshot()) == S.GetSigned(old(Snapshot()), 2)
    {
      var u := GetUnsignedShort();
      if u.Failure? {
        return Failure(u.error);
      }
      NarrowOfUnsigned(u.value, 2);
      return Success(Narrow(u.value, 2));
    }

    /** getInt(): the unsigned int narrowed to a signed one (Cast::toInt). */
    method GetInt() returns (r: Result<int>)
      requires Valid()
      modifies this
      ensures Valid()
      ensures S.Reading(r, Snapshot()) == S.GetSigned(old(Snapshot()), 4)
    {
      var u := GetUnsignedInt();
      if u.Failure? {
        return Failure(u.error);
      }
      NarrowOfUnsigned(u.value, 4);
      return Success(Narrow(u.value, 4));
    }

    /** getLong(): 8 bytes unpacked as a signed 64-bit integer ('J' or 'P'). */
    method GetLong() returns (r: Result<int>)
      requires Valid()
      modifies this
      ensures Valid()
      ensures S.Reading(r, Snapshot()) == S.GetSigned(old(Snapshot()), 8)
    {
      var g := Get(8);
      if g.Failure? {
        return Failure(g.error);
      }
      return Success(DecodeSigned(order, g.value));
    }

    method GetString(size: int) returns (r: Result<seq<byte>>)
      requires Valid()
      modifies this
      ensures Valid()
      ensures S.Reading(r, Snapshot()) == S.GetString(old(Snapshot()), size)
    {
      if size > 0 {
        r := Get(size);
      } else {
        r := Success([]);
      }
    }

    method GetArrayBytes(size: int) returns (r: Result<seq<int>>)
      requires Valid()
      modifies this
      ensures Valid()
      ensures S.Reading(r, Snapshot()) == S.GetArrayBytes(old(Snapshot()), size)
    {
      if size > 0 {
        var g := Get(size);
        if g.Failure? {
          return Failure(g.error);
        }
        return Success(SignedBytes(g.value));
      }
      return Success([]);
    }

    /** getUTF(): unsigned short length, then getString(length) when it is positive. */
    method GetUTF() returns (r: Result<seq<byte>>)
      requires Valid()
      modifies this
      ensures Valid()
      ensures S.Reading(r, Snapshot()) == S.GetUTF(old(Snapshot()))
    {
      var size := GetUnsignedShort();
      if size.Failure? {
        return Failure(size.error);
      }
      if size.value > 0 {
        r := GetString(size.value);
      } else {
        r := Success([]);
      }
    }

    /** getUTF16(length): get(length << 1), unpacked 'S*', each unit passed through chr. */
    method GetUTF16(length: int) returns (r: Result<seq<byte>>)
      requires Valid()
      modifies this
      ensures Valid()
      ensures S.Reading(r, Snapshot()) == S.GetUTF16(old(Snapshot()), length)
    {
      if length > 0 {
        var g := Get(2 * length);
        if g.Failure? {
          return Failure(g.error);
        }
        return Success(LowBytes(g.value));
      }
      return Success([]);
    }

    // ------------------------------------------------------------ typed writers

    /** The encoder runs first; when it throws, the primitive is not reached. */
    method InsertWritten(w: Result<seq<byte>>) returns (r: Outcome)
      requires Valid()
      modifies this
      ensures Valid()
      ensures S.Effect(r, Snapshot()) == S.InsertWritten(old(Snapshot()), w)
    {
      if w.Failure? {
        return Fail(w.error);
      }
      r := Insert(w.value);
    }

    method PutWritten(w: Result<seq<byte>>) returns (r: Outcome)
      requires Valid()
      modifies this
      ensures Valid()
      ensures S.Effect(r, Snapshot()) == S.PutWritten(old(Snapshot()), w)
    {
      if w.Failure? {
        return Fail(w.error);
      }
      r := Put(w.value);
    }

    method ReplaceWritten(w: Result<seq<byte>>, n: int) returns (r: Outcome)
      requires Valid()
      modifies this
      ensures Valid()
      ensures S.Effect(r, Snapshot()) == S.ReplaceWritten(old(Snapshot()), w, n)
    {
      if w.Failure? {
        return Fail(w.error);
      }
      r := Replace(w.value, n);
    }

    method InsertBoolean(v: Option<bool>) returns (r: Outcome)
      requires Valid()
      modifies this
      ensures Valid()
      ensures S.Effect(r, Snapshot()) == S.InsertWritten(old(Snapshot()), WriteBoolean(v))
    {
      r := InsertWritten(WriteBoolean(v));
    }

    method InsertByte(v: Option<int>) returns (r: Outcome)
      requires Valid()
      modifies this
      ensures Valid()
      ensures S.Effect(r, Snapshot()) == S.InsertWritten(old(Snapshot()), WriteByte(v))
    {
      r := InsertWritten(WriteByte(v));
    }

    method InsertShort(v: Option<int>) returns (r: Outcome)
      requires Valid()
      modifies this
      ensures Valid()
      ensures S.Effect(r, Snapshot()) == S.InsertWritten(old(Snapshot()), WriteShort(old(order), v))
    {
      r := InsertWritten(WriteShort(order, v));
    }

    method InsertInt(v: Option<int>) returns (r: Outcome)
      requires Valid()
      modifies this
      ensures Valid()
      ensures S.Effect(r, Snapshot()) == S.InsertWritten(old(Snapshot()), WriteInt(old(order), v))
    {
      r := InsertWritten(WriteInt(order, v));
    }

    method InsertLong(v: Option<int>) returns (r: Outcome)
      requires Valid()
      modifies this
      ensures Valid()
      ensures S.Effect(r, Snapshot()) == S.InsertWritten(old(Snapshot()), WriteLong(old(order), v))
    {
      r := InsertWritten(WriteLong(order, v));
    }

    method InsertString(str: seq<byte>) returns (r: Outcome)
      requires Valid()
      modifies this
      ensures Valid()
      ensures S.Effect(r, Snapshot()) == S.Insert(old(Snapshot()), WriteString(str))
    {
      r := Insert(WriteString(str));
    }

    method InsertArrayBytes(a: seq<int>) returns (r: Outcome)
      requires Valid()
      modifies this
      ensures Valid()
      ensures S.Effect(r, Snapshot()) == S.Insert(old(Snapshot()), WriteArrayBytes(a))
    {
      r := Insert(WriteArrayBytes(a));
    }

    method InsertUTF(str: Option<seq<byte>>) returns (r: Outcome)
      requires Valid()
      modifies this
      ensures Valid()
      ensures S.Effect(r, Snapshot()) == S.InsertWritten(old(Snapshot()), WriteUTF(old(order), str))
    {
      r := InsertWritten(WriteUTF(order, str));
    }

    method InsertUTF16(str: Option<seq<byte>>) returns (r: Outcome)
      requires Valid()
      modifies this
      ensures Valid()
      ensures S.Effect(r, Snapshot()) == S.InsertWritten(old(Snapshot()), WriteUTF16(str))
    {
      r := InsertWritten(WriteUTF16(str));
    }

    method PutBoolean(v: Option<bool>) returns (r: Outcome)
      requires Valid()
      modifies this
      ensures Valid()
      ensures S.Effect(r, Snapshot()) == S.PutWritten(old(Snapshot()), WriteBoolean(v))
    {
      r := PutWritten(WriteBoolean(v));
    }

    method PutByte(v: Option<int>) returns (r: Outcome)
      requires Valid()
      modifies this
      ensures Valid()
      ensures S.Effect(r, Snapshot()) == S.PutWritten(old(Snapshot()), WriteByte(v))
    {
      r := PutWritten(WriteByte(v));
    }

    method PutShort(v: Option<int>) returns (r: Outcome)
      requires Valid()
      modifies this
      ensures Valid()
      ensures S.Effect(r, Snapshot()) == S.PutWritten(old(Snapshot()), WriteShort(old(order), v))
    {
      r := PutWritten(WriteShort(order, v));
    }

    method PutInt(v: Option<int>) returns (r: Outcome)
      requires Valid()
      modifies this
      ensures Valid()
      ensures S.Effect(r, Snapshot()) == S.PutWritten(old(Snapshot()), WriteInt(old(order), v))
    {
      r := PutWritten(WriteInt(order, v));
    }

    method PutLong(v: Option<int>) returns (r: Outcome)
      requires Valid()
      modifies this
      ensures Valid()
      ensures S.Effect(r, Snapshot()) == S.PutWritten(old(Snapshot()), WriteLong(old(order), v))
    {
      r := PutWritten(WriteLong(order, v));
    }

    method PutString(str: seq<byte>) returns (r: Outcome)
      requires Valid()
      modifies this
      ensures Valid()
      ensures S.Effect(r, Snapshot()) == S.Put(old(Snapshot()), WriteString(str))
    {
      r := Put(WriteString(str));
    }

    method PutArrayBytes(a: seq<int>) returns (r: Outcome)
      requires Valid()
      modifies this
      ensures Valid()
      ensures S.Effect(r, Snapshot()) == S.Put(old(Snapshot()), WriteArrayBytes(a))
    {
      r := Put(WriteArrayBytes(a));
    }

    method PutUTF(str: Option<seq<byte>>) returns (r: Outcome)
      requires Valid()
      modifies this
      ensures Valid()
      ensures S.Effect(r, Snapshot()) == S.PutWritten(old(Snapshot()), WriteUTF(old(order), str))
    {
      r := PutWritten(WriteUTF(order, str));
    }

    method PutUTF16(str: Option<seq<byte>>) returns (r: Outcome)
      requires Valid()
      modifies this
      ensures Valid()
      ensures S.Effect(r, Snapshot()) == S.PutWritten(old(Snapshot()), WriteUTF16(str))
    {
      r := PutWritten(WriteUTF16(str));
    }

    method ReplaceBoolean(v: Option<bool>, n: int) returns (r: Outcome)
      requires Valid()
      modifies this
      ensures Valid()
      ensures S.Effect(r, Snapshot()) == S.ReplaceWritten(old(Snapshot()), WriteBoolean(v), n)
    {
      r := ReplaceWritten(WriteBoolean(v), n);
    }

    method ReplaceByte(v: Option<int>, n: int) returns (r: Outcome)
      requires Valid()
      modifies this
      ensures Valid()
      ensures S.Effect(r, Snapshot()) == S.ReplaceWritten(old(Snapshot()), WriteByte(v), n)
    {
      r := ReplaceWritten(WriteByte(v), n);
    }

    method ReplaceShort(v: Option<int>, n: int) returns (r: Outcome)
      requires Valid()
      modifies this
      ensures Valid()
      ensures S.Effect(r, Snapshot()) == S.ReplaceWritten(old(Snapshot()), WriteShort(old(order), v), n)
    {
      r := ReplaceWritten(WriteShort(order, v), n);
    }

    method ReplaceInt(v: Option<int>, n: int) returns (r: Outcome)
      requires Valid()
      modifies this
      ensures Valid()
      ensures S.Effect(r, Snapshot()) == S.ReplaceWritten(old(Snapshot()), WriteInt(old(order), v), n)
    {
      r := ReplaceWritten(WriteInt(order, v), n);
    }

    method ReplaceLong(v: Option<int>, n: int) returns (r: Outcome)
      requires Valid()
      modifies this
      ensures Valid()
      ensures S.Effect(r, Snapshot()) == S.ReplaceWritten(old(Snapshot()), WriteLong(old(order), v), n)
    {
      r := ReplaceWritten(WriteLong(order, v), n);
    }

    method ReplaceString(str: seq<byte>, n: int) returns (r: Outcome)
      requires Valid()
      modifies this
      ensures Valid()
      ensures S.Effect(r, Snapshot()) == S.Replace(old(Snapshot()), WriteString(str), n)
    {
      r := Replace(WriteString(str), n);
    }

    method ReplaceArrayBytes(a: seq<int>, n: int) returns (r: Outcome)
      requires Valid()
      modifies this
      ensures Valid()
      ensures S.Effect(r, Snapshot()) == S.Replace(old(Snapshot()), WriteArrayBytes(a), n)
    {
      r := Replace(WriteArrayBytes(a), n);
    }

    method ReplaceUTF(str: Option<seq<byte>>, n: int) returns (r: Outcome)
      requires Valid()
      modifies this
      ensures Valid()
      ensures S.Effect(r, Snapshot()) == S.ReplaceWritten(old(Snapshot()), WriteUTF(old(order), str), n)
    {
      r := ReplaceWritten(WriteUTF(order, str), n);
    }

    method ReplaceUTF16(str: Option<seq<byte>>, n: int) returns (r: Outcome)
      requires Valid()
      modifies this
      ensures Valid()
      ensures S.Effect(r, Snapshot()) == S.ReplaceWritten(old(Snapshot()), WriteUTF16(str), n)
    {
      r := ReplaceWritten(WriteUTF16(str), n);
    }
  }
}
