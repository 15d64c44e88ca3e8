/** The buffer as a value: its cursor state and content, with one pure transition
    per operation of src/Nelexa/Buffer/Buffer.php. The content is a byte sequence
    (the sequence-backed implementation of the abstract primitives), and the
    class Buffers.Buffer is proved to follow these transitions step by step. */
module BufferState {
  import opened IntegerCodec
  import opened Wire

  /** position, limit, order and isReadOnly are the fields of the source's Buffer;
      content is what toString() returns. */
  datatype State = State(content: seq<byte>, position: int, limit: int, order: ByteOrder, readOnly: bool)

  /** What an operation without a value returns, and the state it leaves. */
  datatype Effect = Effect(outcome: Outcome, next: State)

  /** What a reading operation returns, and the state it leaves. */
  datatype Reading<T> = Reading(result: Result<T>, next: State)

  /** The content fills the buffer up to its limit, and the position never exceeds
      the limit. The position may be negative: setPosition does not reject that. */
  predicate Valid(s: State)
  {
    s.limit == |s.content| && s.position <= s.limit
  }

  /** remaining(): the number of bytes between the position and the limit. */
  function Remaining(s: State): (r: int)
    ensures Valid(s) ==> r == |s.content| - s.position
  {
    s.limit - s.position
  }

  /** hasRemaining(): some byte lies between the position and the limit. */
  function HasRemaining(s: State): (r: bool)
    ensures r <==> Remaining(s) > 0
  {
    s.position < s.limit
  }

  /** The buffer a fresh sequence-backed instance starts as. */
  function Initial(content: seq<byte>): (s: State)
    ensures Valid(s) && s.position == 0 && s.limit == |content|
  {
    State(content, 0, |content|, BigEndian, false)
  }

  // ---------------------------------------------------------------- cursor

  /** setPosition(p): refused when p exceeds the limit, otherwise exact; negative p is accepted. */
  function SetPosition(s: State, p: int): (e: Effect)
    ensures e.outcome.Pass? <==> p <= s.limit
    ensures e.outcome.Fail? ==> e.outcome.error == InvalidPosition(p, s.limit) && e.next == s
    ensures e.outcome.Pass? ==> e.next == s.(position := p)
    ensures Valid(s) ==> Valid(e.next)
  {
    if p > s.limit then Effect(Fail(InvalidPosition(p, s.limit)), s)
    else Effect(Pass, s.(position := p))
  }

  /** rewind(): position 0; limit and order are kept. */
  function Rewind(s: State): (r: State)
    requires Valid(s)
    ensures Valid(r) && r == s.(position := 0)
  {
    SetPosition(s, 0).next
  }

  /** skip(n) is setPosition(position + n); n may be negative. */
  function Skip(s: State, n: int): (e: Effect)
    ensures e.outcome.Pass? <==> s.position + n <= s.limit
    ensures e.outcome.Fail? ==> e.next == s
    ensures e.outcome.Pass? ==> e.next == s.(position := s.position + n)
    ensures Valid(s) ==> Valid(e.next)
  {
    SetPosition(s, s.position + n)
  }

  /** newLimit(n): refused below zero; otherwise the limit becomes n and the
      position is pulled down to it when it lay beyond, so it never exceeds the limit. */
  function NewLimit(s: State, n: int): (e: Effect)
    ensures e.outcome.Pass? <==> n >= 0
    ensures e.outcome.Fail? ==> e.outcome.error == NegativeLimit(n) && e.next == s
    ensures e.outcome.Pass? ==> e.next.limit == n && e.next.position <= e.next.limit
    ensures e.outcome.Pass? ==> e.next.position == (if s.position <= n then s.position else n)
    ensures e.next.content == s.content && e.next.order == s.order && e.next.readOnly == s.readOnly
  {
    if n < 0 then Effect(Fail(NegativeLimit(n)), s)
    else if s.position > n then Effect(Pass, s.(limit := n, position := n))
    else Effect(Pass, s.(limit := n))
  }

  /** setOrder(name): only the order changes, and only to LITTLE_ENDIAN when so named. */
  function SetOrder(s: State, name: string): (r: State)
    ensures r == s.(order := ParseOrder(name))
    ensures r.order == LittleEndian <==> name == LITTLE_ENDIAN
  {
    s.(order := ParseOrder(name))
  }

  /** Setting an order twice is setting it once. */
  lemma SetOrderIdempotent(s: State, name: string)
    ensures SetOrder(SetOrder(s, name), name) == SetOrder(s, name)
    ensures SetOrder(SetOrder(s, name), OrderName(SetOrder(s, name).order)) == SetOrder(s, name)
  {
    ParseOrderName(ParseOrder(name), name);
  }

  /** setReadOnly(flag): the flag is stored and nothing else changes (it is never checked). */
  function SetReadOnly(s: State, flag: bool): (r: State)
    ensures r == s.(readOnly := flag)
  {
    s.(readOnly := flag)
  }

  // ---------------------------------------------------------------- content primitives

  /** c[0:p] + b + c[p+n:]: n bytes at p replaced by b. */
  function Splice(c: seq<byte>, p: int, b: seq<byte>, n: int): (r: seq<byte>)
    requires 0 <= p && 0 <= n && p + n <= |c|
    ensures |r| == |c| - n + |b|
  {
    c[..p] + b + c[p + n..]
  }

  /** The bytes at the cursor begin with b. */
  predicate At(s: State, b: seq<byte>)
  {
    0 <= s.position && s.position + |b| <= |s.content| &&
    s.content[s.position..s.position + |b|] == b
  }

  /** get(n): the next n bytes, and the position moves past them. */
  function Get(s: State, n: int): (t: Reading<seq<byte>>)
    requires Valid(s)
    ensures Valid(t.next) && t.next == s.(position := t.next.position)
    ensures t.result.Success? <==> 0 <= n <= Remaining(s) && 0 <= s.position
    ensures t.result.Failure? ==> t.next == s
    ensures t.result.Success? ==> t.next.position == s.position + n && At(s, t.result.value) && |t.result.value| == n
  {
    if n > Remaining(s) then Reading(Failure(LengthExceedsRemaining("get")), s)
    else if n < 0 then Reading(Failure(NegativeLength(n)), s)
    else if s.position < 0 then Reading(Failure(NegativePosition(s.position)), s)
    else Reading(Success(s.content[s.position..s.position + n]), s.(position := s.position + n))
  }

  /** insert(b): b goes in at the position, what was there shifts right, the limit
      grows by |b| and the position moves past b. */
  function Insert(s: State, b: seq<byte>): (e: Effect)
    requires Valid(s)
    ensures Valid(e.next)
    ensures e.outcome.Pass? <==> 0 <= s.position
    ensures e.outcome.Fail? ==> e.next == s
    ensures e.outcome.Pass? ==>
      e.next.content == s.content[..s.position] + b + s.content[s.position..] &&
      e.next.limit == s.limit + |b| && e.next.position == s.position + |b|
    ensures e.next.order == s.order && e.next.readOnly == s.readOnly
  {
    if s.position < 0 then Effect(Fail(NegativePosition(s.position)), s)
    else
      var c := Splice(s.content, s.position, b, 0);
      Effect(Pass, s.(content := c, limit := |c|, position := s.position + |b|))
  }

  /** put(b): b overwrites the |b| bytes at the position, the size is kept and the
      position moves past b; refused, with nothing changed, when |b| exceeds remaining(). */
  function Put(s: State, b: seq<byte>): (e: Effect)
    requires Valid(s)
    ensures Valid(e.next)
    ensures |b| > Remaining(s) ==> e.outcome == Fail(LengthExceedsRemaining("put"))
    ensures e.outcome.Pass? <==> |b| <= Remaining(s) && 0 <= s.position
    ensures e.outcome.Fail? ==> e.next == s
    ensures e.outcome.Pass? ==>
      e.next.content == s.content[..s.position] + b + s.content[s.position + |b|..] &&
      e.next.limit == s.limit && e.next.position == s.position + |b|
    ensures e.next.order == s.order && e.next.readOnly == s.readOnly
  {
    if |b| > Remaining(s) then Effect(Fail(LengthExceedsRemaining("put")), s)
    else if s.position < 0 then Effect(Fail(NegativePosition(s.position)), s)
    else
      var c := Splice(s.content, s.position, b, |b|);
      Effect(Pass, s.(content := c, position := s.position + |b|))
  }

  /** replace(b, n): the n bytes at the position give way to b, and the position
      moves past b; refused, with nothing changed, when n exceeds remaining(). */
  function Replace(s: State, b: seq<byte>, n: int): (e: Effect)
    requires Valid(s)
    ensures Valid(e.next)
    ensures n > Remaining(s) ==> e.outcome == Fail(LengthExceedsRemaining("replace"))
    ensures e.outcome.Pass? <==> 0 <= n <= Remaining(s) && 0 <= s.position
    ensures e.outcome.Fail? ==> e.next == s
    ensures e.outcome.Pass? ==>
      e.next.content == s.content[..s.position] + b + s.content[s.position + n..] &&
      e.next.limit == s.limit - n + |b| && e.next.position == s.position + |b|
    ensures e.next.order == s.order && e.next.readOnly == s.readOnly
  {
    if n > Remaining(s) then Effect(Fail(LengthExceedsRemaining("replace")), s)
    else if n < 0 then Effect(Fail(NegativeLength(n)), s)
    else if s.position < 0 then Effect(Fail(NegativePosition(s.position)), s)
    else
      var c := Splice(s.content, s.position, b, n);
      Effect(Pass, s.(content := c, limit := |c|, position := s.position + |b|))
  }

  /** remove(n): the n bytes at the position are deleted and the rest shifts left;
      the position stays; refused, with nothing changed, when n exceeds remaining(). */
  function Remove(s: State, n: int): (e: Effect)
    requires Valid(s)
    ensures Valid(e.next)
    ensures n > Remaining(s) ==> e.outcome == Fail(LengthExceedsRemaining("remove"))
    ensures e.outcome.Pass? <==> 0 <= n <= Remaining(s) && 0 <= s.position
    ensures e.outcome.Fail? ==> e.next == s
    ensures e.outcome.Pass? ==>
      e.next.content == s.content[..s.position] + s.content[s.position + n..] &&
      e.next.limit == s.limit - n && e.next.position == s.position
    ensures e.next.order == s.order && e.next.readOnly == s.readOnly
  {
    if n > Remaining(s) then Effect(Fail(LengthExceedsRemaining("remove")), s)
    else if n < 0 then Effect(Fail(NegativeLength(n)), s)
    else if s.position < 0 then Effect(Fail(NegativePosition(s.position)), s)
    else
      var c := Splice(s.content, s.position, [], n);
      Effect(Pass, s.(content := c, limit := |c|))
  }

  /** flip(): the limit becomes the position (the content is cut there) and the
      position becomes 0. A negative position is refused by newLimit. */
  function Flip(s: State): (e: Effect)
    requires Valid(s)
    ensures Valid(e.next)
    ensures e.outcome.Pass? <==> 0 <= s.position
    ensures e.outcome.Fail? ==> e.outcome.error == NegativeLimit(s.position) && e.next == s
    ensures e.outcome.Pass? ==>
      e.next.content == s.content[..s.position] && e.next.limit == s.position && e.next.position == 0
    ensures e.next.order == s.order && e.next.readOnly == s.readOnly
  {
    if s.position < 0 then Effect(Fail(NegativeLimit(s.position)), s)
    else Effect(Pass, s.(content := s.content[..s.position], limit := s.position, position := 0))
  }

  /** truncate(): no content, position 0, size 0. */
  function Truncate(s: State): (r: State)
    ensures Valid(r) && r.content == [] && r.position == 0 && r.limit == 0
    ensures r.order == s.order && r.readOnly == s.readOnly
  {
    s.(content := [], position := 0, limit := 0)
  }

  // ---------------------------------------------------------------- typed composition

  /** insertX(v) is insert(writeX(v)): an encoder failure (a null value) is
      reported before the primitive runs, and changes nothing. */
  function InsertWritten(s: State, w: Result<seq<byte>>): (e: Effect)
    requires Valid(s)
    ensures Valid(e.next)
    ensures w.Failure? ==> e == Effect(Fail(w.error), s)
    ensures w.Success? ==> e == Insert(s, w.value)
  {
    match w
    case Failure(err) => Effect(Fail(err), s)
    case Success(b) => Insert(s, b)
  }

  /** putX(v) is put(writeX(v)). */
  function PutWritten(s: State, w: Result<seq<byte>>): (e: Effect)
    requires Valid(s)
    ensures Valid(e.next)
    ensures w.Failure? ==> e == Effect(Fail(w.error), s)
    ensures w.Success? ==> e == Put(s, w.value)
  {
    match w
    case Failure(err) => Effect(Fail(err), s)
    case Success(b) => Put(s, b)
  }

  /** replaceX(v, n) is replace(writeX(v), n). */
  function ReplaceWritten(s: State, w: Result<seq<byte>>, n: int): (e: Effect)
    requires Valid(s)
    ensures Valid(e.next)
    ensures w.Failure? ==> e == Effect(Fail(w.error), s)
    ensures w.Success? ==> e == Replace(s, w.value, n)
  {
    match w
    case Failure(err) => Effect(Fail(err), s)
    case Success(b) => Replace(s, b, n)
  }

  // ---------------------------------------------------------------- typed readers

  /** getUnsignedByte / getUnsignedShort / getUnsignedInt: n bytes read as unsigned in the buffer's order. */
  function GetUnsigned(s: State, n: nat): (t: Reading<int>)
    requires Valid(s)
    ensures Valid(t.next) && t.next == s.(position := t.next.position)
    ensures t.result.Success? <==> n <= Remaining(s) && 0 <= s.position
    ensures t.result.Failure? ==> t.next == s
    ensures t.result.Success? ==> 0 <= t.result.value < Pow256(n) && t.next.position == s.position + n
  {
    var g := Get(s, n);
    match g.result
    case Failure(err) => Reading(Failure(err), g.next)
    case Success(b) => Reading(Success(DecodeUnsigned(s.order, b)), g.next)
  }

  /** getByte / getShort / getInt / getLong: the two's-complement reading of n bytes. */
  function GetSigned(s: State, n: nat): (t: Reading<int>)
    requires Valid(s) && n >= 1
    ensures Valid(t.next) && t.next == s.(position := t.next.position)
    ensures t.result.Success? <==> n <= Remaining(s) && 0 <= s.position
    ensures t.result.Failure? ==> t.next == s
    ensures t.result.Success? ==> -Half(n) <= t.result.value < Half(n) && t.next.position == s.position + n
  {
    var u := GetUnsigned(s, n);
    match u.result
    case Failure(err) => Reading(Failure(err), u.next)
    case Success(v) => Reading(Success(ToSigned(v, n)), u.next)
  }

  /** getBoolean: an unsigned byte, true when not zero. */
  function GetBoolean(s: State): (t: Reading<bool>)
    requires Valid(s)
    ensures Valid(t.next) && t.next == s.(position := t.next.position)
    ensures t.result.Success? <==> 1 <= Remaining(s) && 0 <= s.position
    ensures t.result.Failure? ==> t.next == s
    ensures t.result.Success? ==> t.next.position == s.position + 1
    ensures t.result.Success? ==> 0 <= s.position < |s.content| && t.result.value == (s.content[s.position] != 0)
  {
    var u := GetUnsigned(s, 1);
    match u.result
    case Failure(err) => Reading(Failure(err), u.next)
    case Success(v) =>
      SingleByteIgnoresOrder(0, s.content[s.position..s.position + 1]);
      Reading(Success(v != 0), u.next)
  }

  /** getString(size): size raw bytes; a size of zero or less reads nothing and stays put. */
  function GetString(s: State, size: int): (t: Reading<seq<byte>>)
    requires Valid(s)
    ensures Valid(t.next) && t.next == s.(position := t.next.position)
    ensures size <= 0 ==> t == Reading(Success([]), s)
    ensures t.result.Failure? ==> t.next == s
    ensures size > 0 && t.result.Success? ==> |t.result.value| == size && t.next.position == s.position + size
    ensures t.result.Success? <==> size <= 0 || (0 <= s.position && size <= Remaining(s))
    ensures size > 0 && t.result.Success? ==> t.result.value == s.content[s.position..s.position + size]
  {
    if size > 0 then Get(s, size) else Reading(Success([]), s)
  }

  /** getArrayBytes(size): size signed bytes; a size of zero or less reads nothing and stays put. */
  function GetArrayBytes(s: State, size: int): (t: Reading<seq<int>>)
    requires Valid(s)
    ensures Valid(t.next) && t.next == s.(position := t.next.position)
    ensures size <= 0 ==> t == Reading(Success([]), s)
    ensures t.result.Failure? ==> t.next == s
    ensures size > 0 && t.result.Success? ==> |t.result.value| == size && t.next.position == s.position + size
    ensures t.result.Success? <==> size <= 0 || (0 <= s.position && size <= Remaining(s))
    ensures size > 0 && t.result.Success? ==> t.result.value == SignedBytes(s.content[s.position..s.position + size])
  {
    if size > 0 then
      var g := Get(s, size);
      match g.result
      case Failure(err) => Reading(Failure(err), g.next)
      case Success(b) => Reading(Success(SignedBytes(b)), g.next)
    else Reading(Success([]), s)
  }

  /** getUTF(): an unsigned 2-byte length, then that many raw bytes.
      When the payload is short, the failure comes after the length was consumed. */
  function GetUTF(s: State): (t: Reading<seq<byte>>)
    requires Valid(s)
    ensures Valid(t.next) && t.next == s.(position := t.next.position)
    ensures t.result.Failure? ==> t.next == s || t.next.position == s.position + 2
    ensures t.result.Success? ==> t.next.position == s.position + 2 + |t.result.value|
    ensures t.result.Success? ==>
      0 <= s.position && t.next.position <= |s.content| &&
      t.result.value == s.content[s.position + 2..t.next.position]
  {
    var h := GetUnsigned(s, 2);
    match h.result
    case Failure(err) => Reading(Failure(err), h.next)
    case Success(len) => if len > 0 then GetString(h.next, len) else Reading(Success([]), h.next)
  }

  /** getUTF16(length): 2*length bytes, each 16-bit unit narrowed to its low byte;
      a length of zero or less reads nothing and stays put. */
  function GetUTF16(s: State, length: int): (t: Reading<seq<byte>>)
    requires Valid(s)
    ensures Valid(t.next) && t.next == s.(position := t.next.position)
    ensures length <= 0 ==> t == Reading(Success([]), s)
    ensures t.result.Failure? ==> t.next == s
    ensures t.result.Success? <==> length <= 0 || (2 * length <= Remaining(s) && 0 <= s.position)
    ensures length > 0 && t.result.Success? ==> |t.result.value| == length && t.next.position == s.position + 2 * length
    ensures length > 0 && t.result.Success? ==>
      t.result.value == LowBytes(s.content[s.position..s.position + 2 * length])
  {
    if length > 0 then
      var g := Get(s, 2 * length);
      match g.result
      case Failure(err) => Reading(Failure(err), g.next)
      case Success(b) => Reading(Success(LowBytes(b)), g.next)
    else Reading(Success([]), s)
  }

  // ---------------------------------------------------------------- splice algebra

  /** replace(b, n) is remove(n) followed by insert(b) at the same position:
      both succeed or fail together, and on success they leave the same state. */
  lemma ReplaceIsRemoveThenInsert(s: State, b: seq<byte>, n: int)
    requires Valid(s)
    ensures Replace(s, b, n).outcome.Pass? <==> Remove(s, n).outcome.Pass?
    ensures Remove(s, n).outcome.Pass? ==>
      Insert(Remove(s, n).next, b) == Effect(Pass, Replace(s, b, n).next)
  {
    if Remove(s, n).outcome.Pass? {
      var p, c := s.position, s.content;
      var removed := Remove(s, n).next.content;
      assert removed[..p] == c[..p];
      assert removed[p..] == c[p + n..];
    }
  }

  /** Two consecutive inserts at p leave their bytes in call order before the old tail. */
  lemma ConsecutiveInserts(s: State, a: seq<byte>, b: seq<byte>)
    requires Valid(s) && 0 <= s.position
    ensures Insert(Insert(s, a).next, b).outcome == Pass
    ensures Insert(Insert(s, a).next, b).next.content ==
      s.content[..s.position] + a + b + s.content[s.position..]
    ensures Insert(Insert(s, a).next, b).next.position == s.position + |a| + |b|
  {
    var p, c := s.position, s.content;
    var mid := Insert(s, a).next.content;
    assert mid[..p + |a|] == c[..p] + a;
    assert mid[p + |a|..] == c[p..];
  }

  /** The bytes just inserted are found again at the old position, and reading
      them from there ends exactly where insert left the cursor. */
  lemma InsertedBytesAreAt(s: State, b: seq<byte>)
    requires Valid(s) && 0 <= s.position
    ensures At(Insert(s, b).next.(position := s.position), b)
    ensures Get(Insert(s, b).next.(position := s.position), |b|) == Reading(Success(b), Insert(s, b).next)
  {
    var p := s.position;
    var c := Insert(s, b).next.content;
    assert c[p..p + |b|] == b;
  }

  /** After put(b) the bytes at the old position are b, and every byte outside
      the overwritten window is unchanged. */
  lemma PutOverwritesInPlace(s: State, b: seq<byte>)
    requires Valid(s) && 0 <= s.position && |b| <= Remaining(s)
    ensures At(Put(s, b).next.(position := s.position), b)
    ensures |Put(s, b).next.content| == |s.content|
    ensures forall i :: 0 <= i < |s.content| && !(s.position <= i < s.position + |b|) ==>
      Put(s, b).next.content[i] == s.content[i]
  {
    var p := s.position;
    var c := Put(s, b).next.content;
    assert c[p..p + |b|] == b;
  }

  /** A failing put, replace or remove leaves every part of the state unchanged. */
  lemma GuardBeforeMutate(s: State, b: seq<byte>, n: int)
    requires Valid(s)
    ensures |b| > Remaining(s) ==> Put(s, b) == Effect(Fail(LengthExceedsRemaining("put")), s)
    ensures n > Remaining(s) ==> Replace(s, b, n) == Effect(Fail(LengthExceedsRemaining("replace")), s)
    ensures n > Remaining(s) ==> Remove(s, n) == Effect(Fail(LengthExceedsRemaining("remove")), s)
  {
  }

  // ---------------------------------------------------------------- reading back

  /** Bytes found at the cursor in two parts are found part after part. */
  lemma AtConcat(s: State, x: seq<byte>, y: seq<byte>)
    requires At(s, x + y)
    ensures At(s, x) && At(s.(position := s.position + |x|), y)
  {
    var p := s.position;
    assert s.content[p..p + |x|] == (x + y)[..|x|];
    assert s.content[p + |x|..p + |x| + |y|] == (x + y)[|x|..];
  }

  /** get(|b|) returns the bytes b found at the cursor. */
  lemma GetReadsAt(s: State, b: seq<byte>)
    requires Valid(s) && At(s, b)
    ensures Get(s, |b|) == Reading(Success(b), s.(position := s.position + |b|))
  {
  }

  /** An n-byte integer written in the buffer's order reads back as its low bits
      (unsigned) or narrowed (signed), and the cursor moves n bytes. */
  lemma IntegerReadsBack(s: State, v: int, n: nat)
    requires Valid(s) && n >= 1 && At(s, Pack(s.order, v, n))
    ensures GetUnsigned(s, n) == Reading(Success(ToUnsigned(v, n)), s.(position := s.position + n))
    ensures GetSigned(s, n) == Reading(Success(Narrow(v, n)), s.(position := s.position + n))
  {
    GetReadsAt(s, Pack(s.order, v, n));
  }

  /** A written byte reads back the same in either order: signed it is v narrowed,
      unsigned its low 8 bits. */
  lemma ByteReadsBack(s: State, v: int)
    requires Valid(s) && At(s, WriteByte(Some(v)).value)
    ensures GetSigned(s, 1) == Reading(Success(Narrow(v, 1)), s.(position := s.position + 1))
    ensures GetUnsigned(s, 1) == Reading(Success(ToUnsigned(v, 1)), s.(position := s.position + 1))
  {
    SingleByteIgnoresOrder(v, WriteByte(Some(v)).value);
    IntegerReadsBack(s, v, 1);
  }

  /** getX after insertX(v) at the same position returns v narrowed to the width,
      and leaves the cursor where the insert did. */
  lemma InsertThenGetInteger(s: State, v: int, n: nat)
    requires Valid(s) && 0 <= s.position && n >= 1
    ensures var e := Insert(s, Pack(s.order, v, n));
      e.outcome == Pass &&
      GetSigned(e.next.(position := s.position), n) == Reading(Success(Narrow(v, n)), e.next) &&
      GetUnsigned(e.next.(position := s.position), n) == Reading(Success(ToUnsigned(v, n)), e.next)
  {
    var b := Pack(s.order, v, n);
    var e := Insert(s, b);
    InsertedBytesAreAt(s, b);
    IntegerReadsBack(e.next.(position := s.position), v, n);
  }

  /** A written boolean reads back as itself. */
  lemma BooleanReadsBack(s: State, v: bool)
    requires Valid(s) && At(s, WriteBoolean(Some(v)).value)
    ensures GetBoolean(s) == Reading(Success(v), s.(position := s.position + 1))
  {
    GetReadsAt(s, WriteBoolean(Some(v)).value);
  }

  /** A written byte array reads back element by element narrowed to signed bytes. */
  lemma ArrayBytesReadBack(s: State, a: seq<int>)
    requires Valid(s) && |a| > 0 && At(s, WriteArrayBytes(a))
    ensures GetArrayBytes(s, |a|).next == s.(position := s.position + |a|)
    ensures GetArrayBytes(s, |a|).result == Success(SignedBytes(WriteArrayBytes(a)))
    ensures (forall i :: 0 <= i < |a| ==> -128 <= a[i] < 128) ==> GetArrayBytes(s, |a|).result == Success(a)
  {
    GetReadsAt(s, WriteArrayBytes(a));
    ArrayBytesRoundTrip(a);
  }

  /** A written string reads back with getString of its length. */
  lemma StringReadsBack(s: State, str: seq<byte>)
    requires Valid(s) && At(s, WriteString(str))
    ensures GetString(s, |str|) == Reading(Success(str), s.(position := s.position + |str|))
  {
  }

  /** writeUTF then getUTF: the string comes back and 2 + |str| bytes are consumed,
      provided the length fits the 16-bit prefix. */
  lemma UTFReadsBack(s: State, str: seq<byte>)
    requires Valid(s) && |str| < 65536 && At(s, WriteUTF(s.order, Some(str)).value)
    ensures GetUTF(s) == Reading(Success(str), s.(position := s.position + 2 + |str|))
  {
    var prefix := Pack(s.order, |str|, 2);
    assert WriteUTF(s.order, Some(str)).value == prefix + str;
    AtConcat(s, prefix, str);
    IntegerReadsBack(s, |str|, 2);
    ModOfDecomposition(|str|, 65536, 0, |str|);
  }

  /** Without a length check, a string of 65536 bytes or more gets the prefix
      |str| mod 65536: getUTF then returns only that many leading bytes (none for
      exactly 65536) and leaves the rest of the payload unread. */
  lemma UTFLengthWraps(s: State, str: seq<byte>)
    requires Valid(s) && |str| >= 65536 && At(s, WriteUTF(s.order, Some(str)).value)
    ensures DecodeUnsigned(s.order, WriteUTF(s.order, Some(str)).value[..2]) == |str| % 65536
    ensures GetUTF(s) == Reading(Success(str[..|str| % 65536]), s.(position := s.position + 2 + |str| % 65536))
  {
    var prefix := Pack(s.order, |str|, 2);
    assert WriteUTF(s.order, Some(str)).value == prefix + str;
    AtConcat(s, prefix, str);
    IntegerReadsBack(s, |str|, 2);
    assert Pow256(2) == 65536;
    StringPrefixReadsBack(s.(position := s.position + 2), str, |str| % 65536);
  }

  /** getString(n) over bytes str at the cursor reads the first n of them. */
  lemma StringPrefixReadsBack(s: State, str: seq<byte>, n: nat)
    requires Valid(s) && At(s, str) && n <= |str|
    ensures GetString(s, n) == Reading(Success(str[..n]), s.(position := s.position + n))
  {
    assert s.content[s.position..s.position + n] == s.content[s.position..s.position + |str|][..n];
  }

  /** A length prefix whose payload is cut short makes getUTF fail after having
      consumed the prefix. */
  lemma UTFFailureConsumesPrefix(s: State, len: int)
    requires Valid(s) && 0 < len < 65536 && At(s, Pack(s.order, len, 2)) && Remaining(s) < 2 + len
    ensures GetUTF(s).result == Failure(LengthExceedsRemaining("get"))
    ensures GetUTF(s).next == s.(position := s.position + 2)
  {
    IntegerReadsBack(s, len, 2);
    ModOfDecomposition(len, 65536, 0, len);
  }

  /** writeUTF16 then getUTF16(|str|): a non-empty byte string comes back and 2|str| bytes are consumed. */
  lemma UTF16ReadsBack(s: State, str: seq<byte>)
    requires Valid(s) && |str| > 0 && At(s, WriteUTF16(Some(str)).value)
    ensures GetUTF16(s, |str|) == Reading(Success(str), s.(position := s.position + 2 * |str|))
  {
    GetReadsAt(s, WriteUTF16(Some(str)).value);
  }

  /** getUTF16(length) over any bytes: it succeeds when 2*length bytes remain, and
      character i is the first (low, in host order) byte of unit i. */
  lemma UTF16ReadsLowBytes(s: State, length: int)
    requires Valid(s) && 0 < length && 0 <= s.position && 2 * length <= Remaining(s)
    ensures GetUTF16(s, length).result.Success?
    ensures forall i :: 0 <= i < length ==> GetUTF16(s, length).result.value[i] == s.content[s.position + 2 * i]
  {
    LowBytesKeepFirst(s.content[s.position..s.position + 2 * length]);
  }

  /** The empty string is written by writeUTF16 as one unit, which getUTF16(0) does not read. */
  lemma UTF16EmptyIsNotRead(s: State)
    requires Valid(s)
    ensures |WriteUTF16(Some([])).value| == 2
    ensures GetUTF16(s, 0) == Reading(Success([]), s)
  {
  }
}
