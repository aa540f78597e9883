/**
 The identity a firmware image carries: the value of its identity TLV, and the decision a complete
 or partial image amounts to.
 */
module ImageIdentity {
  import opened Bytes

  const TLV_TYPE := 0x00A0
  const FORMAT: byte := 1
  const FIXED_SIZE := 4
  const MAX_BOARD_LENGTH := 116
  const HEADER_SIZE := 32
  const MAX_PROTECTED_TLV_SIZE := 128
  const HEADER_MAGIC := 0x96F3B83D
  const PROTECTED_TLV_MAGIC := 0x6908
  const TLV_INFO_SIZE := 4
  const TLV_HEADER_SIZE := 4

  datatype Identity = Identity(productId: nat, board: seq<byte>)

  datatype Decision = NEED_MORE | MATCH | NO_IDENTITY | WRONG_PRODUCT | WRONG_BOARD | BAD_IDENTITY

  predicate IsPrintable(c: byte)
  {
    ' ' as int <= c <= '~' as int
  }

  predicate IsBoard(board: seq<byte>)
  {
    |board| <= MAX_BOARD_LENGTH && forall c :: c in board ==> IsPrintable(c)
  }

  /** What an identity object can hold. */
  predicate IsIdentity(id: Identity)
  {
    id.productId < 0x1_0000 && IsBoard(id.board)
  }

  function Created(productId: nat, board: seq<byte>): Option<Identity>
  {
    if IsBoard(board) then Some(Identity(productId, board)) else None
  }

  lemma CreatedForPrintable(productId: nat, board: seq<byte>)
    ensures Created(productId, board) ==
      if |board| <= 116 && forall i :: 0 <= i < |board| ==> 0x20 <= board[i] <= 0x7E then Some(Identity(productId, board)) else None
  {
    if forall i :: 0 <= i < |board| ==> 0x20 <= board[i] <= 0x7E {
      forall c | c in board ensures IsPrintable(c) {
        var i :| 0 <= i < |board| && board[i] == c;
      }
    } else {
      var i :| 0 <= i < |board| && !(0x20 <= board[i] <= 0x7E);
      assert board[i] in board;
    }
  }

  method Create(productId: nat, board: seq<byte>) returns (r: Option<Identity>)
    ensures r == Created(productId, board)
    ensures r == if |board| <= 116 && forall i :: 0 <= i < |board| ==> 0x20 <= board[i] <= 0x7E
      then Some(Identity(productId, board)) else None
  {
    CreatedForPrintable(productId, board);
    if |board| > MAX_BOARD_LENGTH { return None; }
    var copy: seq<byte> := [];
    for i := 0 to |board|
      invariant copy == board[..i]
      invariant forall c :: c in board[..i] ==> IsPrintable(c)
    {
      if board[i] < ' ' as int || board[i] > '~' as int {
        assert board[i] in board && !IsPrintable(board[i]);
        return None;
      }
      copy := copy + [board[i]];
    }
    assert board[..|board|] == board;
    r := Some(Identity(productId, copy));
  }

  function Parse(value: seq<byte>): Option<Identity>
  {
    if |value| < FIXED_SIZE || value[0] != FORMAT then None
    else if |value| != FIXED_SIZE + value[3] then None
    else Created(ReadU16(value, 1), value[FIXED_SIZE..])
  }

  /** The value of the identity TLV. */
  function Encoded(id: Identity): (value: seq<byte>)
    requires IsIdentity(id)
  {
    [FORMAT, id.productId % 0x100, id.productId / 0x100, |id.board|] + id.board
  }

  method Encode(id: Identity, out: array<byte>) returns (size: nat)
    requires IsIdentity(id)
    modifies out
    ensures size == if out.Length < |Encoded(id)| then 0 else |Encoded(id)|
    ensures out[..size] == Encoded(id)[..size]
    ensures out[size..] == old(out[size..])
  {
    size := FIXED_SIZE + |id.board|;
    if out.Length < size { return 0; }
    out[0] := FORMAT;
    out[1] := id.productId % 0x100;
    out[2] := id.productId / 0x100;
    out[3] := |id.board|;
    forall i | 0 <= i < |id.board| {
      out[FIXED_SIZE + i] := id.board[i];
    }
    assert out[..size] == Encoded(id);
  }

  /** Parsing and encoding are inverse to each other: the values that parse are exactly the encodings. */
  lemma ParseInvertsEncode(id: Identity)
    requires IsIdentity(id)
    ensures Parse(Encoded(id)) == Some(id)
  {
    assert Encoded(id)[FIXED_SIZE..] == id.board;
  }

  lemma EncodeInvertsParse(value: seq<byte>)
    requires Parse(value).Some?
    ensures IsIdentity(Parse(value).value) && Encoded(Parse(value).value) == value
  {
    var id := Parse(value).value;
    assert value == value[..FIXED_SIZE] + value[FIXED_SIZE..];
    assert Encoded(id)[..FIXED_SIZE] == value[..FIXED_SIZE];
  }

  function Check(own: Identity, image: Identity): Decision
  {
    if image.productId != own.productId then WRONG_PRODUCT
    else if image.board != own.board then WRONG_BOARD
    else MATCH
  }

  /** The place of the protected TLV area, or the decision to refuse the image for its header. */
  datatype Layout = Area(start: nat, size: nat) | Refused(decision: Decision)

  function ParseHeader(header: seq<byte>, imageSize: nat): (r: Layout)
    requires |header| == HEADER_SIZE
    ensures r.Area? ==> HEADER_SIZE <= r.start && 0 < r.size <= MAX_PROTECTED_TLV_SIZE && r.start + r.size <= imageSize
    ensures r.Refused? ==> r.decision == BAD_IDENTITY || r.decision == NO_IDENTITY
  {
    var headerSize := ReadU16(header, 8);
    var protectedSize := ReadU16(header, 10);
    var areaStart := headerSize + ReadU32(header, 12);
    if ReadU32(header, 0) != HEADER_MAGIC then Refused(BAD_IDENTITY)
    else if headerSize < HEADER_SIZE then Refused(BAD_IDENTITY)
    else if protectedSize == 0 then Refused(NO_IDENTITY)
    else if protectedSize > MAX_PROTECTED_TLV_SIZE then Refused(BAD_IDENTITY)
    else if areaStart + protectedSize > imageSize then Refused(BAD_IDENTITY)
    else Area(areaStart, protectedSize)
  }

  datatype Tlv = Tlv(kind: nat, value: seq<byte>)

  /** The TLVs from `position` to the end of the area; nothing when one does not fit. */
  function Chain(area: seq<byte>, position: nat): (r: Option<seq<Tlv>>)
    requires position <= |area|
    decreases |area| - position
  {
    if position == |area| then Some([])
    else if |area| - position < TLV_HEADER_SIZE then None
    else
      var length := ReadU16(area, position + 2);
      var from := position + TLV_HEADER_SIZE;
      if length > |area| - from then None
      else
        match Chain(area, from + length)
        case None => None
        case Some(rest) => Some([Tlv(ReadU16(area, position), area[from..from + length])] + rest)
  }

  /** The values of the identity TLVs. */
  function IdentityValues(tlvs: seq<Tlv>): seq<seq<byte>>
  {
    if tlvs == [] then []
    else if tlvs[0].kind == TLV_TYPE then [tlvs[0].value] + IdentityValues(tlvs[1..])
    else IdentityValues(tlvs[1..])
  }

  predicate HasAreaInfo(area: seq<byte>)
  {
    |area| >= TLV_INFO_SIZE && ReadU16(area, 0) == PROTECTED_TLV_MAGIC && ReadU16(area, 2) == |area|
  }

  /** The decision the protected TLVs amount to. */
  function AreaDecision(own: Identity, area: seq<byte>): (r: Decision)
    ensures r != NEED_MORE
  {
    if !HasAreaInfo(area) then BAD_IDENTITY
    else
      match Chain(area, TLV_INFO_SIZE)
      case None => BAD_IDENTITY
      case Some(tlvs) =>
        var values := IdentityValues(tlvs);
        if values == [] then NO_IDENTITY
        else if |values| > 1 then BAD_IDENTITY
        else
          match Parse(values[0])
          case None => BAD_IDENTITY
          case Some(id) => Check(own, id)
  }

  /** The decision an image known up to the end of `prefix` amounts to, parsed in one go. */
  function Decide(own: Identity, prefix: seq<byte>, imageSize: nat): Decision
  {
    if |prefix| < HEADER_SIZE then NEED_MORE
    else
      match ParseHeader(prefix[..HEADER_SIZE], imageSize)
      case Refused(decision) => decision
      case Area(start, size) =>
        if |prefix| < start + size then NEED_MORE else AreaDecision(own, prefix[start..start + size])
  }

  /** A decision stands whatever follows in the image. */
  lemma DecisionStands(own: Identity, prefix: seq<byte>, longer: seq<byte>, imageSize: nat)
    requires prefix <= longer && Decide(own, prefix, imageSize) != NEED_MORE
    ensures Decide(own, longer, imageSize) == Decide(own, prefix, imageSize)
  {
    assert longer[..HEADER_SIZE] == prefix[..HEADER_SIZE];
    match ParseHeader(prefix[..HEADER_SIZE], imageSize)
    case Refused(_) =>
    case Area(start, size) =>
      assert longer[start..start + size] == prefix[start..start + size];
  }

  /** A whole image that is long enough to have a header is decided. */
  lemma WholeImageIsDecided(own: Identity, image: seq<byte>)
    requires HEADER_SIZE <= |image|
    ensures Decide(own, image, |image|) != NEED_MORE
  {
  }

  /** The header, the area and its TLVs are all in order, and the one identity among them is `value`. */
  predicate CarriesIdentity(prefix: seq<byte>, imageSize: nat, value: seq<byte>)
  {
    && HEADER_SIZE <= |prefix|
    && ParseHeader(prefix[..HEADER_SIZE], imageSize).Area?
    && var Area(start, size) := ParseHeader(prefix[..HEADER_SIZE], imageSize);
       && start + size <= |prefix|
       && var area := prefix[start..start + size];
          && HasAreaInfo(area)
          && Chain(area, TLV_INFO_SIZE).Some?
          && IdentityValues(Chain(area, TLV_INFO_SIZE).value) == [value]
  }

  /** An image matches exactly when its one identity TLV holds the unit's own encoded identity. */
  lemma MatchIffCarriesOwn(own: Identity, prefix: seq<byte>, imageSize: nat)
    requires IsIdentity(own)
    ensures Decide(own, prefix, imageSize) == MATCH <==> CarriesIdentity(prefix, imageSize, Encoded(own))
  {
    ParseInvertsEncode(own);
    if Decide(own, prefix, imageSize) == MATCH {
      var Area(start, size) := ParseHeader(prefix[..HEADER_SIZE], imageSize);
      var values := IdentityValues(Chain(prefix[start..start + size], TLV_INFO_SIZE).value);
      EncodeInvertsParse(values[0]);
      assert values == [values[0]];
    }
  }
}
