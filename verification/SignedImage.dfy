/**
 Firmware images as the signing step writes them, field by field, and what the identity check makes of
 each: an account of the format that does not use the parser.
 */
module SignedImage {
  import opened Bytes
  import opened ImageIdentity

  function Le16(x: nat): (r: seq<byte>)
    requires x < 0x1_0000
    ensures |r| == 2
  {
    [x % 0x100, x / 0x100]
  }

  function Le32(x: nat): (r: seq<byte>)
    requires x < 0x1_0000_0000
    ensures |r| == 4
  {
    [x % 0x100, x / 0x100 % 0x100, x / 0x1_0000 % 0x100, x / 0x100_0000]
  }

  /** The parts of an image: the header fields that the check ignores, the payload, the protected TLVs, what follows. */
  datatype Signed = Signed(loadAddress: seq<byte>, headerTail: seq<byte>, payload: seq<byte>, tlvs: seq<Tlv>, trailer: seq<byte>)

  predicate AreTlvs(tlvs: seq<Tlv>)
  {
    forall t :: t in tlvs ==> t.kind < 0x1_0000 && |t.value| < 0x1_0000
  }

  function TlvBytes(tlvs: seq<Tlv>): seq<byte>
    requires AreTlvs(tlvs)
  {
    if tlvs == [] then []
    else Le16(tlvs[0].kind) + Le16(|tlvs[0].value|) + tlvs[0].value + TlvBytes(tlvs[1..])
  }

  /** Every size fits its field, and the area fits the window. */
  predicate Fits(s: Signed)
  {
    && |s.loadAddress| == 4 && 16 <= |s.headerTail| && 16 + |s.headerTail| < 0x1_0000
    && |s.payload| < 0x1_0000_0000
    && AreTlvs(s.tlvs) && 4 + |TlvBytes(s.tlvs)| <= 128
  }

  function HeaderBytes(s: Signed): (r: seq<byte>)
    requires Fits(s)
    ensures |r| == 16 + |s.headerTail|
  {
    [0x3D, 0xB8, 0xF3, 0x96] + s.loadAddress + Le16(16 + |s.headerTail|) + Le16(4 + |TlvBytes(s.tlvs)|)
    + Le32(|s.payload|) + s.headerTail
  }

  function AreaBytes(tlvs: seq<Tlv>): (r: seq<byte>)
    requires AreTlvs(tlvs) && 4 + |TlvBytes(tlvs)| <= 128
    ensures |r| == 4 + |TlvBytes(tlvs)|
  {
    [0x08, 0x69] + Le16(4 + |TlvBytes(tlvs)|) + TlvBytes(tlvs)
  }

  function ImageBytes(s: Signed): seq<byte>
    requires Fits(s)
  {
    HeaderBytes(s) + s.payload + AreaBytes(s.tlvs) + s.trailer
  }

  /** Where the protected TLVs end: from here on an upload can be decided. */
  function AreaEnd(s: Signed): nat
    requires Fits(s)
  {
    |HeaderBytes(s)| + |s.payload| + |AreaBytes(s.tlvs)|
  }

  function IdentityBytes(id: Identity): seq<byte>
    requires id.productId < 0x1_0000 && |id.board| < 0x100
  {
    [1] + Le16(id.productId) + [|id.board|] + id.board
  }

  /** The TLV at `i` is the only identity. */
  predicate IsOnlyIdentity(tlvs: seq<Tlv>, i: nat)
  {
    i < |tlvs| && tlvs[i].kind == 0x00A0 && forall j :: 0 <= j < |tlvs| && j != i ==> tlvs[j].kind != 0x00A0
  }

  predicate HasNoIdentity(tlvs: seq<Tlv>)
  {
    forall i :: 0 <= i < |tlvs| ==> tlvs[i].kind != 0x00A0
  }

  ghost predicate IsSigned(image: seq<byte>, s: Signed)
  {
    Fits(s) && image == ImageBytes(s)
  }

  /** The TLV at `i` is the only identity, and it is the one of `id`. */
  predicate IsIdentifiedBy(tlvs: seq<Tlv>, i: nat, id: Identity)
  {
    IsOnlyIdentity(tlvs, i) && IsIdentity(id) && tlvs[i].value == IdentityBytes(id)
  }

  /** The image is signed with `id` as its one identity. */
  ghost predicate CarriesOnly(image: seq<byte>, id: Identity)
  {
    exists s, i: nat :: IsSigned(image, s) && IsIdentifiedBy(s.tlvs, i, id)
  }

  ghost predicate CarriesNone(image: seq<byte>)
  {
    exists s :: IsSigned(image, s) && HasNoIdentity(s.tlvs)
  }

  /** The header declares that there are no protected TLVs. */
  predicate DeclaresNoArea(image: seq<byte>)
  {
    && 32 <= |image| && image[..4] == [0x3D, 0xB8, 0xF3, 0x96]
    && 32 <= (image[8] as int) + 0x100 * (image[9] as int) && image[10..12] == [0, 0]
  }

  // ---- Numbers ----------------------------------------------------------------------------------

  lemma ReadsLe16(bytes: seq<byte>, at: nat, x: nat)
    requires at + 2 <= |bytes| && x < 0x1_0000
    ensures ReadU16(bytes, at) == x <==> bytes[at..at + 2] == Le16(x)
  {
    var two := bytes[at..at + 2];
    assert two == [bytes[at], bytes[at + 1]];
    assert x == x % 0x100 + 0x100 * (x / 0x100);
  }

  lemma Le32IsTwoLe16(x: nat)
    requires x < 0x1_0000_0000
    ensures Le32(x) == Le16(x % 0x1_0000) + Le16(x / 0x1_0000)
  {
    assert x % 0x1_0000 % 0x100 == x % 0x100;
    assert x % 0x1_0000 / 0x100 == x / 0x100 % 0x100;
    assert x / 0x1_0000 / 0x100 == x / 0x100_0000;
  }

  lemma ReadsLe32(bytes: seq<byte>, at: nat, x: nat)
    requires at + 4 <= |bytes| && x < 0x1_0000_0000
    ensures ReadU32(bytes, at) == x <==> bytes[at..at + 4] == Le32(x)
  {
    hide ReadU16, Le16, Le32;
    Le32IsTwoLe16(x);
    ReadsLe16(bytes, at, x % 0x1_0000);
    ReadsLe16(bytes, at + 2, x / 0x1_0000);
    var low, high := ReadU16(bytes, at), ReadU16(bytes, at + 2);
    var four := bytes[at..at + 4];
    assert four == bytes[at..at + 2] + bytes[at + 2..at + 4];
    assert four[..2] == bytes[at..at + 2] && four[2..] == bytes[at + 2..at + 4];
    assert Le32(x)[..2] == Le16(x % 0x1_0000) && Le32(x)[2..] == Le16(x / 0x1_0000);
    assert (low + 0x1_0000 * high) % 0x1_0000 == low && (low + 0x1_0000 * high) / 0x1_0000 == high;
  }

  // ---- TLVs -------------------------------------------------------------------------------------

  lemma FieldsAt(area: seq<byte>, at: nat, kind: seq<byte>, length: seq<byte>, value: seq<byte>, rest: seq<byte>)
    requires at <= |area| && |kind| == |length| == 2 && area[at..] == kind + length + value + rest
    ensures |area| == at + 4 + |value| + |rest|
    ensures area[at..at + 2] == kind && area[at + 2..at + 4] == length
    ensures area[at + 4..at + 4 + |value|] == value && area[at + 4 + |value|..] == rest
  {
    var bytes := area[at..];
    assert area[at..at + 2] == bytes[..2] && area[at + 2..at + 4] == bytes[2..4];
    assert area[at + 4..at + 4 + |value|] == bytes[4..4 + |value|] && area[at + 4 + |value|..] == bytes[4 + |value|..];
  }

  lemma ChainGoesOn(area: seq<byte>, at: nat, t: Tlv, rest: seq<Tlv>)
    requires at + 4 + |t.value| <= |area| && ReadU16(area, at) == t.kind && ReadU16(area, at + 2) == |t.value|
    requires area[at + 4..at + 4 + |t.value|] == t.value && Chain(area, at + 4 + |t.value|) == Some(rest)
    ensures Chain(area, at) == Some([t] + rest)
  {
    hide ReadU16;
  }

  /** What was written as TLVs is read back as those TLVs. */
  lemma {:induction false} WrittenTlvsAreRead(area: seq<byte>, at: nat, tlvs: seq<Tlv>)
    requires at <= |area| && AreTlvs(tlvs) && area[at..] == TlvBytes(tlvs)
    ensures Chain(area, at) == Some(tlvs)
    decreases |tlvs|
  {
    hide ReadU16, Le16, Chain;
    if tlvs == [] {
      ChainEnds(area, at);
    } else {
      var t, rest := tlvs[0], tlvs[1..];
      assert t in tlvs && forall u :: u in rest ==> u in tlvs;
      FieldsAt(area, at, Le16(t.kind), Le16(|t.value|), t.value, TlvBytes(rest));
      ReadsLe16(area, at, t.kind);
      ReadsLe16(area, at + 2, |t.value|);
      WrittenTlvsAreRead(area, at + 4 + |t.value|, rest);
      ChainGoesOn(area, at, t, rest);
      assert tlvs == [t] + rest;
    }
  }

  lemma ChainEnds(area: seq<byte>, at: nat)
    requires at <= |area| && area[at..] == []
    ensures Chain(area, at) == Some([])
  {
  }

  /** What is read as TLVs was written as those TLVs. */
  lemma {:induction false} ReadTlvsWereWritten(area: seq<byte>, at: nat)
    requires at <= |area| && Chain(area, at).Some?
    ensures AreTlvs(Chain(area, at).value) && area[at..] == TlvBytes(Chain(area, at).value)
    decreases |area| - at
  {
    hide ReadU16, Le16;
    var tlvs := Chain(area, at).value;
    if at < |area| {
      var from := at + 4;
      var t := tlvs[0];
      var next := from + |t.value|;
      ReadTlvsWereWritten(area, next);
      assert tlvs[1..] == Chain(area, next).value;
      assert t.kind == ReadU16(area, at) && |t.value| == ReadU16(area, at + 2);
      ReadsLe16(area, at, t.kind);
      ReadsLe16(area, at + 2, |t.value|);
      assert area[at..] == area[at..at + 2] + area[at + 2..at + 4] + area[from..next] + area[next..];
    }
  }

  lemma AreaIsRead(tlvs: seq<Tlv>)
    requires AreTlvs(tlvs) && 4 + |TlvBytes(tlvs)| <= 128
    ensures HasAreaInfo(AreaBytes(tlvs)) && Chain(AreaBytes(tlvs), 4) == Some(tlvs)
  {
    hide Le16, ReadU16, Chain;
    var area := AreaBytes(tlvs);
    Le16Of6908();
    assert area[0..2] == Le16(0x6908) && area[2..4] == Le16(|area|) && area[4..] == TlvBytes(tlvs);
    ReadsLe16(area, 0, 0x6908);
    ReadsLe16(area, 2, |area|);
    WrittenTlvsAreRead(area, 4, tlvs);
  }

  lemma Le16Of6908()
    ensures Le16(0x6908) == [0x08, 0x69]
  {
  }

  lemma ReadAreaWasWritten(area: seq<byte>)
    requires HasAreaInfo(area) && Chain(area, 4).Some? && |area| <= 128
    ensures AreTlvs(Chain(area, 4).value) && 4 + |TlvBytes(Chain(area, 4).value)| == |area|
    ensures area == AreaBytes(Chain(area, 4).value)
  {
    hide Le16, ReadU16, Chain;
    var tlvs := Chain(area, 4).value;
    ReadTlvsWereWritten(area, 4);
    Le16Of6908();
    ReadsLe16(area, 0, 0x6908);
    ReadsLe16(area, 2, |area|);
    assert area == area[0..2] + area[2..4] + area[4..];
  }

  // ---- Headers ----------------------------------------------------------------------------------

  lemma MagicIsRead(bytes: seq<byte>)
    requires 4 <= |bytes|
    ensures ReadU32(bytes, 0) == HEADER_MAGIC <==> bytes[..4] == [0x3D, 0xB8, 0xF3, 0x96]
  {
    ReadsLe32(bytes, 0, 0x96F3_B83D);
  }

  lemma HeaderFields(s: Signed)
    requires Fits(s)
    ensures var h := HeaderBytes(s);
      && h[..4] == [0x3D, 0xB8, 0xF3, 0x96] && h[8..10] == Le16(16 + |s.headerTail|)
      && h[10..12] == Le16(4 + |TlvBytes(s.tlvs)|) && h[12..16] == Le32(|s.payload|)
  {
    hide Le16, Le32, TlvBytes;
    var h := HeaderBytes(s);
    var a, b, c := Le16(16 + |s.headerTail|), Le16(4 + |TlvBytes(s.tlvs)|), Le32(|s.payload|);
    assert h == ([0x3D, 0xB8, 0xF3, 0x96] + s.loadAddress) + a + b + c + s.headerTail;
  }

  lemma {:induction false} HeaderIsRead(s: Signed)
    requires Fits(s)
    ensures ParseHeader(ImageBytes(s)[..32], |ImageBytes(s)|) ==
      Area(|HeaderBytes(s)| + |s.payload|, |AreaBytes(s.tlvs)|)
  {
    hide Le16, Le32, ReadU16, ReadU32, TlvBytes;
    var image, header := ImageBytes(s), ImageBytes(s)[..32];
    HeaderFields(s);
    var whole := HeaderBytes(s);
    assert header == whole[..32];
    assert header[..4] == whole[..4] && header[8..10] == whole[8..10] && header[10..12] == whole[10..12] && header[12..16] == whole[12..16];
    MagicIsRead(header);
    ReadsLe16(header, 8, 16 + |s.headerTail|);
    ReadsLe16(header, 10, 4 + |TlvBytes(s.tlvs)|);
    ReadsLe32(header, 12, |s.payload|);
  }

  lemma AreaIsInPlace(s: Signed)
    requires Fits(s)
    ensures var start := |HeaderBytes(s)| + |s.payload|;
      start + |AreaBytes(s.tlvs)| == AreaEnd(s) <= |ImageBytes(s)| && ImageBytes(s)[start..AreaEnd(s)] == AreaBytes(s.tlvs)
  {
    hide HeaderBytes, AreaBytes;
  }

  /** An image whose header, area info and TLVs are in order was written as a signed image. */
  lemma ReadImageWasSigned(image: seq<byte>) returns (s: Signed)
    requires 32 <= |image| && ParseHeader(image[..32], |image|).Area?
    requires var Area(start, size) := ParseHeader(image[..32], |image|);
      HasAreaInfo(image[start..start + size]) && Chain(image[start..start + size], 4).Some?
    ensures IsSigned(image, s)
    ensures var Area(start, size) := ParseHeader(image[..32], |image|); Chain(image[start..start + size], 4) == Some(s.tlvs)
  {
    hide Le16, Le32, ReadU16, ReadU32, TlvBytes, Chain, HasAreaInfo, AreaBytes;
    var header := image[..32];
    var Area(start, size) := ParseHeader(header, |image|);
    var headerSize, payloadSize := ReadU16(header, 8), ReadU32(header, 12);
    var area := image[start..start + size];
    ReadAreaWasWritten(area);
    s := Signed(image[4..8], image[16..headerSize], image[headerSize..start], Chain(area, 4).value, image[start + size..]);
    MagicIsRead(header);
    ReadsLe16(header, 8, headerSize);
    ReadsLe16(header, 10, size);
    ReadsLe32(header, 12, payloadSize);
    assert image[..headerSize] == image[..4] + image[4..8] + image[8..10] + image[10..12] + image[12..16] + image[16..headerSize];
    assert header[..4] == image[..4] && header[8..10] == image[8..10] && header[10..12] == image[10..12] && header[12..16] == image[12..16];
    assert image[..headerSize] == HeaderBytes(s);
    assert image == image[..headerSize] + image[headerSize..start] + area + image[start + size..];
  }

  // ---- Decisions --------------------------------------------------------------------------------

  lemma {:induction false} NoIdentityValues(tlvs: seq<Tlv>)
    ensures IdentityValues(tlvs) == [] <==> HasNoIdentity(tlvs)
  {
    if tlvs != [] {
      NoIdentityValues(tlvs[1..]);
      assert forall i :: 1 <= i < |tlvs| ==> tlvs[i] == tlvs[1..][i - 1];
      assert forall i :: 0 <= i < |tlvs| - 1 ==> tlvs[1..][i] == tlvs[i + 1];
    }
  }

  lemma {:induction false} OneIdentityValue(tlvs: seq<Tlv>, i: nat)
    requires IsOnlyIdentity(tlvs, i)
    ensures IdentityValues(tlvs) == [tlvs[i].value]
  {
    assert forall j :: 0 <= j < |tlvs| - 1 ==> tlvs[1..][j] == tlvs[j + 1];
    if i == 0 {
      NoIdentityValues(tlvs[1..]);
    } else {
      OneIdentityValue(tlvs[1..], i - 1);
    }
  }

  lemma {:induction false} IdentityOfValue(tlvs: seq<Tlv>) returns (i: nat)
    requires |IdentityValues(tlvs)| == 1
    ensures IsOnlyIdentity(tlvs, i) && IdentityValues(tlvs) == [tlvs[i].value]
  {
    assert forall j :: 1 <= j < |tlvs| ==> tlvs[j] == tlvs[1..][j - 1];
    if tlvs[0].kind == TLV_TYPE {
      NoIdentityValues(tlvs[1..]);
      i := 0;
    } else {
      var k := IdentityOfValue(tlvs[1..]);
      i := k + 1;
    }
  }

  lemma IdentityBytesAreEncoded(id: Identity)
    requires IsIdentity(id)
    ensures IdentityBytes(id) == Encoded(id)
  {
  }

  /** The decision on a signed image is that on its protected TLVs, wherever header and payload put them. */
  lemma SignedIsDecided(own: Identity, s: Signed)
    requires Fits(s)
    ensures Decide(own, ImageBytes(s), |ImageBytes(s)|) == AreaDecision(own, AreaBytes(s.tlvs))
    ensures 32 <= |ImageBytes(s)|
  {
    hide HeaderBytes, AreaBytes, ParseHeader, AreaDecision;
    HeaderIsRead(s);
    AreaIsInPlace(s);
  }

  /** While an upload has not reached the end of the protected TLVs it is undecided, from there on it is decided. */
  lemma DecidedFromAreaEnd(own: Identity, s: Signed, n: nat)
    requires Fits(s) && n <= |ImageBytes(s)|
    ensures var image := ImageBytes(s);
      Decide(own, image[..n], |image|) == if n < AreaEnd(s) then NEED_MORE else Decide(own, image, |image|)
  {
    hide HeaderBytes, AreaBytes, ParseHeader, AreaDecision;
    var image := ImageBytes(s);
    HeaderIsRead(s);
    AreaIsInPlace(s);
    if 32 <= n {
      assert image[..n][..32] == image[..32];
      if AreaEnd(s) <= n {
        var start := |HeaderBytes(s)| + |s.payload|;
        assert image[..n][start..AreaEnd(s)] == image[start..AreaEnd(s)];
      }
    }
  }

  lemma UnidentifiedIsDecided(own: Identity, s: Signed)
    requires Fits(s) && HasNoIdentity(s.tlvs)
    ensures Decide(own, ImageBytes(s), |ImageBytes(s)|) == NO_IDENTITY
  {
    hide ImageBytes, AreaBytes, Decide, Chain, IdentityValues;
    SignedIsDecided(own, s);
    AreaIsRead(s.tlvs);
    NoIdentityValues(s.tlvs);
  }

  /** An image signed with one identity is told by its product first, then by its board. */
  lemma IdentifiedIsDecided(own: Identity, s: Signed, i: nat, id: Identity)
    requires Fits(s) && IsIdentifiedBy(s.tlvs, i, id)
    ensures Decide(own, ImageBytes(s), |ImageBytes(s)|) ==
      if id.productId != own.productId then WRONG_PRODUCT else if id.board != own.board then WRONG_BOARD else MATCH
  {
    hide ImageBytes, AreaBytes, Decide, Chain, IdentityValues, Parse, IdentityBytes;
    SignedIsDecided(own, s);
    AreaIsRead(s.tlvs);
    OneIdentityValue(s.tlvs, i);
    IdentityBytesAreEncoded(id);
    ParseInvertsEncode(id);
  }

  lemma IdentityOfParsed(tlvs: seq<Tlv>) returns (i: nat, id: Identity)
    requires |IdentityValues(tlvs)| == 1 && Parse(IdentityValues(tlvs)[0]).Some?
    ensures IsIdentifiedBy(tlvs, i, id)
  {
    hide IdentityValues, Parse, IdentityBytes;
    i := IdentityOfValue(tlvs);
    id := Parse(IdentityValues(tlvs)[0]).value;
    EncodeInvertsParse(IdentityValues(tlvs)[0]);
    IdentityBytesAreEncoded(id);
  }

  /** A signed image with a malformed identity or with two identities is refused. */
  lemma UnclearIsRefused(own: Identity, s: Signed)
    requires Fits(s) && !HasNoIdentity(s.tlvs)
    requires forall i: nat, id :: !IsIdentifiedBy(s.tlvs, i, id)
    ensures Decide(own, ImageBytes(s), |ImageBytes(s)|) == BAD_IDENTITY
  {
    hide ImageBytes, AreaBytes, Decide, Chain, IdentityValues, Parse, IsIdentifiedBy, Check;
    SignedIsDecided(own, s);
    AreaIsRead(s.tlvs);
    NoIdentityValues(s.tlvs);
    var values := IdentityValues(s.tlvs);
    if |values| == 1 && Parse(values[0]).Some? {
      var i, id := IdentityOfParsed(s.tlvs);
    }
  }

  /** Without such a header, area and chain an image is refused, unless its header declares that it has no area. */
  lemma UnsignedIsRefused(own: Identity, image: seq<byte>)
    requires 32 <= |image| && forall s :: !IsSigned(image, s)
    ensures Decide(own, image, |image|) == if DeclaresNoArea(image) then NO_IDENTITY else BAD_IDENTITY
  {
    hide Chain, IsSigned, ReadU32, IdentityValues, Parse, Check;
    MagicIsRead(image[..32]);
    assert image[..32][..4] == image[..4];
    assert image[10..12] == [image[10], image[11]];
    if ParseHeader(image[..32], |image|).Area? {
      var Area(start, size) := ParseHeader(image[..32], |image|);
      var area := image[start..start + size];
      if HasAreaInfo(area) && Chain(area, 4).Some? {
        var s := ReadImageWasSigned(image);
        assert false;
      }
      assert |area| == size;
    }
  }

  lemma SignedDeclaresArea(image: seq<byte>, s: Signed)
    requires IsSigned(image, s)
    ensures !DeclaresNoArea(image)
  {
    hide Le32, TlvBytes;
    assert image[10..12] == Le16(4 + |TlvBytes(s.tlvs)|);
    assert image[10..12] == [image[10], image[11]];
  }

  /** The decision on every whole image, in terms of how it was written. */
  lemma DecisionIsByContent(own: Identity, image: seq<byte>)
    requires 32 <= |image| && IsIdentity(own)
    ensures var decision := Decide(own, image, |image|);
      && (decision == MATCH <==> CarriesOnly(image, own))
      && (decision == WRONG_PRODUCT <==> exists id: Identity :: id.productId != own.productId && CarriesOnly(image, id))
      && (decision == WRONG_BOARD <==> exists id: Identity :: id.productId == own.productId && id.board != own.board && CarriesOnly(image, id))
      && (decision == NO_IDENTITY <==> CarriesNone(image) || DeclaresNoArea(image))
      && decision != NEED_MORE
  {
    hide IsSigned, Decide, IsIdentifiedBy, HasNoIdentity, DeclaresNoArea;
    WholeIsDecided(own, image);
    forall id | CarriesOnly(image, id)
      ensures Decide(own, image, |image|) == Verdict(own, id) && !DeclaresNoArea(image)
    {
      var s, i: nat :| IsSigned(image, s) && IsIdentifiedBy(s.tlvs, i, id);
      OnlyTells(own, image, s, i, id);
    }
    if CarriesNone(image) {
      var s :| IsSigned(image, s) && HasNoIdentity(s.tlvs);
      NoneTells(own, image, s);
    }
    if s :| IsSigned(image, s) {
      if !CarriesNone(image) && forall id :: !CarriesOnly(image, id) {
        NeitherTells(own, image, s);
      }
    } else {
      UnsignedIsRefused(own, image);
    }
  }

  lemma OnlyTells(own: Identity, image: seq<byte>, s: Signed, i: nat, id: Identity)
    requires IsSigned(image, s) && IsIdentifiedBy(s.tlvs, i, id)
    ensures Decide(own, image, |image|) == Verdict(own, id) && !DeclaresNoArea(image)
  {
    hide Decide, IsIdentifiedBy, DeclaresNoArea, ImageBytes, Fits;
    SignedFits(image, s);
    IdentifiedIsDecided(own, s, i, id);
    SignedDeclaresArea(image, s);
  }

  lemma SignedFits(image: seq<byte>, s: Signed)
    requires IsSigned(image, s)
    ensures Fits(s) && image == ImageBytes(s)
  {
  }

  lemma NoneTells(own: Identity, image: seq<byte>, s: Signed)
    requires IsSigned(image, s) && HasNoIdentity(s.tlvs)
    ensures Decide(own, image, |image|) == NO_IDENTITY
  {
    hide Decide, ImageBytes, Fits;
    SignedFits(image, s);
    UnidentifiedIsDecided(own, s);
  }

  lemma NeitherTells(own: Identity, image: seq<byte>, s: Signed)
    requires IsSigned(image, s) && !CarriesNone(image) && forall id :: !CarriesOnly(image, id)
    ensures Decide(own, image, |image|) == BAD_IDENTITY && !DeclaresNoArea(image)
  {
    hide Decide, ImageBytes, Fits, IsIdentifiedBy, HasNoIdentity, DeclaresNoArea, IsSigned;
    SignedFits(image, s);
    SignedDeclaresArea(image, s);
    forall i: nat, id ensures !IsIdentifiedBy(s.tlvs, i, id) {
      assert !CarriesOnly(image, id);
    }
    UnclearIsRefused(own, s);
  }

  /** What the unit says to an image for `id`: the product is looked at first. */
  function Verdict(own: Identity, id: Identity): Decision
  {
    if id.productId != own.productId then WRONG_PRODUCT else if id.board != own.board then WRONG_BOARD else MATCH
  }

  lemma WholeIsDecided(own: Identity, image: seq<byte>)
    requires 32 <= |image|
    ensures Decide(own, image, |image|) != NEED_MORE
  {
    WholeImageIsDecided(own, image);
  }
}
