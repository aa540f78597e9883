/**
 Data items of CBOR (RFC 8949, sections 3 and 4.1) as the zcbor library writes and reads them: heads of
 the shortest form, and containers of definite or indefinite length.
 */
module CborItems {
  import opened Arithmetic
  import opened Bytes

  const UNSIGNED: nat := 0
  const NEGATIVE: nat := 1
  const TEXT: nat := 3
  const LIST: nat := 4
  const MAP: nat := 5
  const BREAK: byte := 0xFF

  /** A text string: bytes that fit a 32-bit address space. */
  type Text = s: seq<byte> | |s| < 0x1_0000_0000

  type i32 = x: int | -0x8000_0000 <= x < 0x8000_0000

  // ---- Heads ------------------------------------------------------------------------------------

  /** The last `width` bytes of a number, the most significant one first. */
  function BigEndian(n: nat, width: nat): (r: seq<byte>)
    ensures |r| == width
  {
    if width == 0 then [] else BigEndian(n / 256, width - 1) + [n % 256]
  }

  function FromBigEndian(bytes: seq<byte>): nat
  {
    if bytes == [] then 0 else FromBigEndian(bytes[..|bytes| - 1]) * 256 + bytes[|bytes| - 1]
  }

  lemma {:induction false} BigEndianInverts(n: nat, width: nat)
    requires n < Pow2(8 * width)
    ensures FromBigEndian(BigEndian(n, width)) == n
  {
    if width > 0 {
      Pow2Eight(8 * (width - 1));
      BigEndianInverts(n / 256, width - 1);
      assert BigEndian(n, width)[..width - 1] == BigEndian(n / 256, width - 1);
    }
  }

  lemma Pow2Eight(k: nat)
    ensures Pow2(k + 8) == 256 * Pow2(k)
  {
    assert Pow2(k + 8) == 2 * Pow2(k + 7) == 4 * Pow2(k + 6) == 8 * Pow2(k + 5) == 16 * Pow2(k + 4);
    assert Pow2(k + 4) == 2 * Pow2(k + 3) == 4 * Pow2(k + 2) == 8 * Pow2(k + 1) == 16 * Pow2(k);
  }

  /** The bytes after the first one that the shortest head of an argument takes. */
  function ArgWidth(arg: nat): nat
  {
    if arg <= 23 then 0 else if arg <= 0xFF then 1 else if arg <= 0xFFFF then 2 else if arg <= 0xFFFF_FFFF then 4 else 8
  }

  /** The low 5 bits of the first byte that announce that many more. */
  function InfoOf(width: nat): (r: nat)
    requires width in {1, 2, 4, 8}
    ensures 24 <= r <= 27
  {
    if width == 1 then 24 else if width == 2 then 25 else if width == 4 then 26 else 27
  }

  function Head(major: nat, arg: nat): (r: seq<byte>)
    requires major < 8 && arg < 0x1_0000_0000_0000_0000
    ensures |r| == 1 + ArgWidth(arg)
  {
    if arg <= 23 then [major * 32 + arg]
    else [major * 32 + InfoOf(ArgWidth(arg))] + BigEndian(arg, ArgWidth(arg))
  }

  datatype Headed = NoHead | Headed(major: nat, arg: nat, length: nat)

  /** The head at the start of `bytes`: any of the definite forms. */
  function ReadHead(bytes: seq<byte>): (r: Headed)
    ensures r.Headed? ==> r.major < 8 && 1 <= r.length <= |bytes|
  {
    if bytes == [] then NoHead
    else
      var info := bytes[0] % 32;
      var width := if info <= 23 then 0 else if info == 24 then 1 else if info == 25 then 2 else if info == 26 then 4 else 8;
      if info > 27 || |bytes| < 1 + width then NoHead
      else Headed(bytes[0] / 32, if info <= 23 then info else FromBigEndian(bytes[1..1 + width]), 1 + width)
  }

  lemma Pow2Zero()
    ensures Pow2(0) == 1
  {
  }

  lemma WidthHolds(arg: nat)
    requires 23 < arg < 0x1_0000_0000_0000_0000
    ensures arg < Pow2(8 * ArgWidth(arg))
  {
    hide Pow2;
    Pow2Zero();
    Pow2Eight(0);
    Pow2Eight(8);
    Pow2Eight(16);
    Pow2Eight(24);
    Pow2Eight(32);
    Pow2Eight(40);
    Pow2Eight(48);
    Pow2Eight(56);
  }

  lemma FirstByte(major: nat, info: nat)
    requires info < 32
    ensures (major * 32 + info) / 32 == major && (major * 32 + info) % 32 == info
  {
  }

  lemma HeadIsRead(major: nat, arg: nat, tail: seq<byte>)
    requires major < 8 && arg < 0x1_0000_0000_0000_0000
    ensures ReadHead(Head(major, arg) + tail) == Headed(major, arg, |Head(major, arg)|)
  {
    hide BigEndian, FromBigEndian, Pow2;
    var bytes := Head(major, arg) + tail;
    var width := ArgWidth(arg);
    if arg > 23 {
      WidthHolds(arg);
      BigEndianInverts(arg, width);
      FirstByte(major, InfoOf(width));
      assert bytes[0] == major * 32 + InfoOf(width);
      assert bytes[1..1 + width] == BigEndian(arg, width);
    } else {
      FirstByte(major, arg);
      assert bytes[0] == major * 32 + arg;
    }
  }

  // ---- Values -----------------------------------------------------------------------------------

  function EncodeUint(v: u32): (r: seq<byte>)
    ensures r != []
  {
    Head(UNSIGNED, v)
  }

  function EncodeInt(v: i32): (r: seq<byte>)
    ensures r != []
  {
    if v >= 0 then Head(UNSIGNED, v) else Head(NEGATIVE, -1 - v)
  }

  function EncodeText(t: Text): (r: seq<byte>)
    ensures r != []
  {
    Head(TEXT, |t|) + t
  }

  function EncodeBool(b: bool): seq<byte>
  {
    [if b then 0xF5 else 0xF4]
  }

  /** A 32-bit float, by its bit pattern. */
  function EncodeFloat(bits: u32): (r: seq<byte>)
    ensures |r| == 5
  {
    [0xFA] + BigEndian(bits, 4)
  }

  /** A list or map of `count` items (pairs in a map), with its length in front or a break at its end. */
  function Container(canonical: bool, major: nat, count: nat, items: seq<byte>): (r: seq<byte>)
    requires major in {LIST, MAP} && count < 0x1_0000_0000
  {
    if canonical then Head(major, count) + items else [major * 32 + 31] + items + [BREAK]
  }

  // ---- Reading ----------------------------------------------------------------------------------

  /** The items that may follow in the container being read. */
  datatype Left = Definite(n: nat) | Indefinite

  datatype State = State(rest: seq<byte>, left: Left)

  datatype Parsed<+T> = Fail | Ok(value: T, next: State)

  predicate HasMore(left: Left)
  {
    left.Indefinite? || left.n > 0
  }

  function Taken(left: Left): Left
    requires HasMore(left)
  {
    if left.Indefinite? then Indefinite else Definite(left.n - 1)
  }

  /** An item of the major type, without its content. */
  function ParseHead(s: State, major: nat): (r: Parsed<nat>)
    ensures r.Ok? ==> |r.next.rest| < |s.rest|
  {
    var h := ReadHead(s.rest);
    if !HasMore(s.left) || h.NoHead? || h.major != major then Fail
    else Ok(h.arg, State(s.rest[h.length..], Taken(s.left)))
  }

  function ParseUint(s: State): (r: Parsed<u32>)
    ensures r.Ok? ==> |r.next.rest| < |s.rest|
  {
    var h := ParseHead(s, UNSIGNED);
    if h.Fail? || h.value >= 0x1_0000_0000 then Fail else Ok(h.value, h.next)
  }

  function ParseInt(s: State): (r: Parsed<i32>)
    ensures r.Ok? ==> |r.next.rest| < |s.rest|
  {
    var h := ParseHead(s, UNSIGNED);
    var n := ParseHead(s, NEGATIVE);
    if h.Ok? && h.value < 0x8000_0000 then Ok(h.value, h.next)
    else if n.Ok? && n.value < 0x8000_0000 then Ok(-1 - n.value, n.next)
    else Fail
  }

  function ParseText(s: State): (r: Parsed<Text>)
    ensures r.Ok? ==> |r.next.rest| < |s.rest|
  {
    var h := ParseHead(s, TEXT);
    if h.Fail? || h.value > |h.next.rest| || h.value >= 0x1_0000_0000 then Fail
    else Ok(h.next.rest[..h.value], State(h.next.rest[h.value..], h.next.left))
  }

  function ParseBool(s: State): (r: Parsed<bool>)
    ensures r.Ok? ==> |r.next.rest| < |s.rest|
  {
    if !HasMore(s.left) || s.rest == [] || s.rest[0] !in {0xF4, 0xF5} then Fail
    else Ok(s.rest[0] == 0xF5, State(s.rest[1..], Taken(s.left)))
  }

  function ParseFloat(s: State): (r: Parsed<u32>)
    ensures r.Ok? ==> |r.next.rest| < |s.rest|
  {
    if !HasMore(s.left) || |s.rest| < 5 || s.rest[0] != 0xFA then Fail
    else
      var bits := FromBigEndian(s.rest[1..5]);
      if bits >= 0x1_0000_0000 then Fail else Ok(bits, State(s.rest[5..], Taken(s.left)))
  }

  /** The inside of a container that starts here. */
  function Start(s: State, major: nat): (r: Option<State>)
    requires major in {LIST, MAP}
    ensures r.Some? ==> |r.value.rest| < |s.rest| && HasMore(s.left)
  {
    if !HasMore(s.left) then None
    else if s.rest != [] && s.rest[0] == major * 32 + 31 then Some(State(s.rest[1..], Indefinite))
    else
      var h := ParseHead(s, major);
      if h.Fail? then None else Some(State(h.next.rest, Definite(if major == MAP then 2 * h.value else h.value)))
  }

  predicate AtEnd(s: State)
  {
    if s.left.Indefinite? then s.rest != [] && s.rest[0] == BREAK else s.left.n == 0
  }

  /** The state after a container that ends here, among `outer` items. */
  function End(s: State, outer: Left): (r: Option<State>)
    ensures r.Some? ==> |r.value.rest| <= |s.rest|
  {
    if !AtEnd(s) then None
    else if s.left.Indefinite? then Some(State(s.rest[1..], outer))
    else Some(State(s.rest, outer))
  }

  // ---- Round trips ------------------------------------------------------------------------------

  lemma HeadParsed(major: nat, arg: nat, tail: seq<byte>, left: Left)
    requires major < 8 && arg < 0x1_0000_0000_0000_0000 && HasMore(left)
    ensures ParseHead(State(Head(major, arg) + tail, left), major) == Ok(arg, State(tail, Taken(left)))
  {
    hide Head, ReadHead;
    HeadIsRead(major, arg, tail);
  }

  /** An item of another major type is left alone. */
  lemma OtherMajor(major: nat, arg: nat, tail: seq<byte>, left: Left, other: nat)
    requires major < 8 && arg < 0x1_0000_0000_0000_0000 && other != major
    ensures ParseHead(State(Head(major, arg) + tail, left), other) == Fail
  {
    hide Head, ReadHead;
    HeadIsRead(major, arg, tail);
  }

  lemma Assoc(a: seq<byte>, b: seq<byte>, c: seq<byte>)
    ensures (a + b) + c == a + (b + c)
  {
  }

  lemma UintParsed(v: u32, tail: seq<byte>, left: Left)
    requires HasMore(left)
    ensures ParseUint(State(EncodeUint(v) + tail, left)) == Ok(v, State(tail, Taken(left)))
  {
    hide Head, ParseHead;
    HeadParsed(UNSIGNED, v, tail, left);
  }

  lemma IntParsed(v: i32, tail: seq<byte>, left: Left)
    requires HasMore(left)
    ensures ParseInt(State(EncodeInt(v) + tail, left)) == Ok(v, State(tail, Taken(left)))
  {
    hide Head, ParseHead;
    if v >= 0 {
      HeadParsed(UNSIGNED, v, tail, left);
    } else {
      HeadParsed(NEGATIVE, -1 - v, tail, left);
      OtherMajor(NEGATIVE, -1 - v, tail, left, UNSIGNED);
    }
  }

  lemma TextParsed(t: Text, tail: seq<byte>, left: Left)
    requires HasMore(left)
    ensures ParseText(State(EncodeText(t) + tail, left)) == Ok(t, State(tail, Taken(left)))
  {
    hide Head, ParseHead;
    Assoc(Head(TEXT, |t|), t, tail);
    HeadParsed(TEXT, |t|, t + tail, left);
    assert (t + tail)[..|t|] == t && (t + tail)[|t|..] == tail;
  }

  lemma BoolParsed(b: bool, tail: seq<byte>, left: Left)
    requires HasMore(left)
    ensures ParseBool(State(EncodeBool(b) + tail, left)) == Ok(b, State(tail, Taken(left)))
  {
    assert (EncodeBool(b) + tail)[1..] == tail;
  }

  lemma FloatParsed(bits: u32, tail: seq<byte>, left: Left)
    requires HasMore(left)
    ensures ParseFloat(State(EncodeFloat(bits) + tail, left)) == Ok(bits, State(tail, Taken(left)))
  {
    hide BigEndian, FromBigEndian, Pow2;
    Pow2Zero();
    Pow2Eight(0);
    Pow2Eight(8);
    Pow2Eight(16);
    Pow2Eight(24);
    BigEndianInverts(bits, 4);
    assert (EncodeFloat(bits) + tail)[1..5] == BigEndian(bits, 4);
    assert (EncodeFloat(bits) + tail)[5..] == tail;
  }

  /** A text is no number and no container; a number is no text and no container. */
  lemma TextIsNothingElse(t: Text, tail: seq<byte>, left: Left)
    ensures var s := State(EncodeText(t) + tail, left);
      ParseUint(s) == Fail && Start(s, LIST) == Start(s, MAP) == None
  {
    hide Head, ParseHead;
    Assoc(Head(TEXT, |t|), t, tail);
    OtherMajor(TEXT, |t|, t + tail, left, UNSIGNED);
    NoContainer(TEXT, |t|, t + tail, left);
  }

  lemma UintIsNothingElse(v: u32, tail: seq<byte>, left: Left)
    ensures var s := State(EncodeUint(v) + tail, left);
      ParseText(s) == Fail && Start(s, LIST) == Start(s, MAP) == None
  {
    hide Head, ParseHead;
    OtherMajor(UNSIGNED, v, tail, left, TEXT);
    NoContainer(UNSIGNED, v, tail, left);
  }

  lemma NoContainer(major: nat, arg: nat, tail: seq<byte>, left: Left)
    requires major in {UNSIGNED, TEXT} && arg < 0x1_0000_0000
    ensures var s := State(Head(major, arg) + tail, left); Start(s, LIST) == Start(s, MAP) == None
  {
    hide ParseHead;
    OtherMajor(major, arg, tail, left, LIST);
    OtherMajor(major, arg, tail, left, MAP);
  }

  /** What is left of a container that just started. */
  function Inside(canonical: bool, n: nat): Left
  {
    if canonical then Definite(n) else Indefinite
  }

  function Closing(canonical: bool): seq<byte>
  {
    if canonical then [] else [BREAK]
  }

  lemma ContainerStarts(canonical: bool, major: nat, count: nat, items: seq<byte>, tail: seq<byte>, left: Left)
    requires major in {LIST, MAP} && count < 0x1_0000_0000 && HasMore(left)
    ensures Start(State(Container(canonical, major, count, items) + tail, left), major) ==
      Some(State(items + (Closing(canonical) + tail), Inside(canonical, if major == MAP then 2 * count else count)))
  {
    hide ParseHead;
    if canonical {
      Assoc(Head(major, count), items, tail);
      assert Closing(canonical) + tail == tail;
      HeadParsed(major, count, items + tail, left);
      NotIndefinite(major, count, items + tail);
    } else {
      var bytes := Container(canonical, major, count, items) + tail;
      assert bytes[0] == major * 32 + 31;
      assert bytes[1..] == items + (Closing(canonical) + tail);
    }
  }

  lemma NotIndefinite(major: nat, arg: nat, tail: seq<byte>)
    requires major < 8 && arg < 0x1_0000_0000
    ensures (Head(major, arg) + tail)[0] != major * 32 + 31
  {
  }

  lemma ContainerEnds(canonical: bool, tail: seq<byte>, outer: Left)
    ensures End(State(Closing(canonical) + tail, Inside(canonical, 0)), outer) == Some(State(tail, outer))
  {
    assert canonical ==> Closing(canonical) + tail == tail;
    assert !canonical ==> (Closing(canonical) + tail)[1..] == tail;
  }
}
