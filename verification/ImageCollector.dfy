/**
 The collector that finds the identity in an image while it is uploaded. It keeps a 128-byte window
 only, which moves from the header to the area that the header names. It is proved to behave as a
 reference that keeps every byte, and the reference to decide from the received prefix alone.
 */
module ImageCollector {
  import opened Arithmetic
  import opened Bytes
  import opened ImageIdentity
  import opened SignedImage

  // ---- The reference ----------------------------------------------------------------------------

  /** Everything received since the last chunk at offset 0, the layout once the header was complete, the decision. */
  datatype Reference = Reference(known: seq<byte>, layout: Option<Layout>, decision: Decision)

  const Initial := Reference([], None, NEED_MORE)

  /** What the layout and the bytes known amount to. */
  function Judge(own: Identity, known: seq<byte>, layout: Option<Layout>): Decision
  {
    match layout
    case None => NEED_MORE
    case Some(Refused(decision)) => decision
    case Some(Area(start, size)) =>
      if |known| < start + size then NEED_MORE else AreaDecision(own, known[start..start + size])
  }

  function Max(a: nat, b: nat): nat
  {
    if a < b then b else a
  }

  /** A chunk that skips data or reaches past the declared size. */
  predicate IsMisplaced(received: nat, offset: nat, chunk: seq<byte>, imageSize: nat)
  {
    offset > received || |chunk| > imageSize - Min(offset, imageSize)
  }

  function FeedReference(own: Identity, st: Reference, offset: nat, chunk: seq<byte>, imageSize: nat): Reference
  {
    var from := if offset == 0 then Initial else st;
    if from.decision != NEED_MORE then from
    else if IsMisplaced(|from.known|, offset, chunk, imageSize) then from.(decision := BAD_IDENTITY)
    else
      var known := Overlay(from.known, offset, chunk);
      var layout := if from.layout.None? && HEADER_SIZE <= |known|
        then Some(ParseHeader(known[..HEADER_SIZE], imageSize)) else from.layout;
      Reference(known, layout, Judge(own, known, layout))
  }

  // ---- Uploads of one image ---------------------------------------------------------------------

  /** A chunk of the image: `length` bytes from `offset` on. */
  datatype Cut = Cut(offset: nat, length: nat)

  /** The end of the prefix that the chunks cover. */
  function Received(cuts: seq<Cut>): nat
  {
    if cuts == [] then 0
    else
      var last := cuts[|cuts| - 1];
      Max(Received(cuts[..|cuts| - 1]), last.offset + last.length)
  }

  /** Starts at 0 and goes on without a gap; a chunk may be sent again, but not the start of the image. */
  ghost predicate IsUpload(image: seq<byte>, cuts: seq<Cut>)
  {
    && cuts != [] && cuts[0].offset == 0
    && (forall i :: 0 <= i < |cuts| ==> cuts[i].offset + cuts[i].length <= |image|)
    && (forall i :: 1 <= i < |cuts| ==> 0 < cuts[i].offset <= Received(cuts[..i]))
  }

  /** The reference after the chunks of an image, whatever it held before. */
  ghost function Upload(own: Identity, st: Reference, image: seq<byte>, cuts: seq<Cut>): Reference
    requires forall i :: 0 <= i < |cuts| ==> cuts[i].offset + cuts[i].length <= |image|
  {
    if cuts == [] then st
    else
      var c := cuts[|cuts| - 1];
      FeedReference(own, Upload(own, st, image, cuts[..|cuts| - 1]), c.offset, image[c.offset..c.offset + c.length], |image|)
  }

  lemma {:induction false} ReceivedIsInside(image: seq<byte>, cuts: seq<Cut>)
    requires forall i :: 0 <= i < |cuts| ==> cuts[i].offset + cuts[i].length <= |image|
    ensures Received(cuts) <= |image|
  {
    if cuts != [] {
      ReceivedIsInside(image, cuts[..|cuts| - 1]);
    }
  }

  /** The reference knows a prefix of the image and the layout in its header, and decided accordingly. */
  ghost predicate Agrees(own: Identity, st: Reference, image: seq<byte>, received: nat)
    requires received <= |image|
  {
    && st.decision == Decide(own, image[..received], |image|)
    && (st.decision == NEED_MORE ==>
         st.known == image[..received]
         && st.layout == if HEADER_SIZE <= received then Some(ParseHeader(image[..HEADER_SIZE], |image|)) else None)
  }

  lemma FeedAgrees(own: Identity, st: Reference, image: seq<byte>, received: nat, c: Cut)
    requires c.offset + c.length <= |image| && received <= |image|
    requires c.offset == 0 || (c.offset <= received && Agrees(own, st, image, received))
    ensures var received' := if c.offset == 0 then c.length else Max(received, c.offset + c.length);
      Agrees(own, FeedReference(own, st, c.offset, image[c.offset..c.offset + c.length], |image|), image, received')
  {
    hide AreaDecision, ParseHeader;
    var from := if c.offset == 0 then Initial else st;
    var before := if c.offset == 0 then 0 else received;
    var received' := Max(before, c.offset + c.length);
    var chunk := image[c.offset..c.offset + c.length];
    if from.decision != NEED_MORE {
      DecisionStands(own, image[..before], image[..received'], |image|);
    } else {
      assert from.known == image[..before];
      assert Overlay(from.known, c.offset, chunk) == image[..received'];
      if HEADER_SIZE <= received' {
        assert image[..received'][..HEADER_SIZE] == image[..HEADER_SIZE];
      }
    }
  }

  /**
   Chunking independence: after any upload of an image the decision is that of parsing the received
   prefix in one go, so it depends on neither the chunks nor what the collector saw before.
   */
  lemma {:induction false} UploadDecides(own: Identity, st: Reference, image: seq<byte>, cuts: seq<Cut>)
    requires IsUpload(image, cuts)
    ensures Received(cuts) <= |image|
    ensures Upload(own, st, image, cuts).decision == Decide(own, image[..Received(cuts)], |image|)
  {
    ReceivedIsInside(image, cuts);
    UploadAgrees(own, st, image, cuts);
  }

  lemma {:induction false} UploadAgrees(own: Identity, st: Reference, image: seq<byte>, cuts: seq<Cut>)
    requires IsUpload(image, cuts) && Received(cuts) <= |image|
    ensures Agrees(own, Upload(own, st, image, cuts), image, Received(cuts))
    decreases |cuts|
  {
    hide FeedReference, Agrees;
    var front := cuts[..|cuts| - 1];
    var last := cuts[|cuts| - 1];
    if |cuts| == 1 {
      assert front == [] && Received(front) == 0;
      FeedAgrees(own, st, image, 0, last);
    } else {
      forall i | 1 <= i < |front| ensures 0 < front[i].offset <= Received(front[..i]) {
        assert front[..i] == cuts[..i];
      }
      ReceivedIsInside(image, front);
      UploadAgrees(own, st, image, front);
      assert cuts[..|cuts| - 1] == front;
      FeedAgrees(own, Upload(own, st, image, front), image, Received(front), last);
    }
  }

  /** Two uploads that have come equally far have decided the same. */
  lemma UploadsAgree(own: Identity, st1: Reference, st2: Reference, image: seq<byte>, cuts1: seq<Cut>, cuts2: seq<Cut>)
    requires IsUpload(image, cuts1) && IsUpload(image, cuts2) && Received(cuts1) == Received(cuts2)
    ensures Upload(own, st1, image, cuts1).decision == Upload(own, st2, image, cuts2).decision
  {
    UploadDecides(own, st1, image, cuts1);
    UploadDecides(own, st2, image, cuts2);
  }

  /** However it is cut, a whole image ends in MATCH exactly when it carries the unit's own identity and nothing else. */
  lemma WholeUploadMatchesIff(own: Identity, st: Reference, image: seq<byte>, cuts: seq<Cut>)
    requires IsIdentity(own) && IsUpload(image, cuts) && Received(cuts) == |image|
    ensures Upload(own, st, image, cuts).decision == MATCH <==> CarriesIdentity(image, |image|, Encoded(own))
    ensures HEADER_SIZE <= |image| ==> Upload(own, st, image, cuts).decision != NEED_MORE
  {
    UploadDecides(own, st, image, cuts);
    assert image[..|image|] == image;
    MatchIffCarriesOwn(own, image, |image|);
    if HEADER_SIZE <= |image| { WholeImageIsDecided(own, image); }
  }

  // ---- The collector ----------------------------------------------------------------------------

  datatype Phase = HEADER | TLVS | DECIDED

  class Collector {
    const own: Identity
    var phase: Phase
    var decision: Decision
    var received: nat
    var windowStart: nat
    var windowSize: nat
    const window: array<byte>
    ghost var reference: Reference

    ghost predicate Valid()
      reads this, window
    {
      && window.Length == MAX_PROTECTED_TLV_SIZE
      && decision == reference.decision
      && received == |reference.known|
      && (phase == DECIDED <==> decision != NEED_MORE)
      && (phase == HEADER ==>
           reference.layout == None && windowStart == 0 && windowSize == HEADER_SIZE && received < HEADER_SIZE)
      && (phase == TLVS ==>
           reference.layout == Some(Area(windowStart, windowSize)) && HEADER_SIZE <= windowStart
           && 0 < windowSize <= MAX_PROTECTED_TLV_SIZE && received < windowStart + windowSize)
      && (phase != DECIDED ==> Mirrors(reference.known))
    }

    /** The window holds what is known of the part of the image it lies over. */
    ghost predicate Mirrors(known: seq<byte>)
      reads this`windowStart, this`windowSize, window
    {
      && windowSize <= window.Length
      && forall k :: windowStart <= k < Min(|known|, windowStart + windowSize) ==> window[k - windowStart] == known[k]
    }

    constructor (own: Identity)
      ensures Valid() && reference == Initial && this.own == own
    {
      this.own := own;
      phase, decision, received, windowStart, windowSize := HEADER, NEED_MORE, 0, 0, HEADER_SIZE;
      window := new byte[MAX_PROTECTED_TLV_SIZE];
      reference := Initial;
    }

    method Reset()
      requires Valid()
      modifies this
      ensures Valid() && reference == Initial
    {
      phase, decision, received, windowStart, windowSize := HEADER, NEED_MORE, 0, 0, HEADER_SIZE;
      reference := Initial;
    }

    method DecideOn(result: Decision)
      modifies this`phase, this`decision
      ensures phase == DECIDED && decision == result
    {
      phase, decision := DECIDED, result;
    }

    /** Copies the part of the chunk that lies under the window. */
    method CopyToWindow(offset: nat, chunk: seq<byte>, ghost known: seq<byte>)
      requires windowSize <= window.Length && offset <= |known|
      requires Mirrors(known)
      modifies window
      ensures Mirrors(Overlay(known, offset, chunk))
    {
      var from := Max(offset, windowStart);
      var to := Min(offset + |chunk|, windowStart + windowSize);
      if from >= to { return; }
      forall k | from <= k < to {
        window[k - windowStart] := chunk[k - offset];
      }
    }

    lemma WindowIsFull(known: seq<byte>)
      requires Mirrors(known) && windowStart + windowSize <= |known|
      ensures window[..windowSize] == known[windowStart..windowStart + windowSize]
    {
    }

    lemma WindowIsAhead(known: seq<byte>)
      requires windowSize <= window.Length && |known| <= windowStart
      ensures Mirrors(known)
    {
    }

    predicate IsWindowComplete()
      reads this
    {
      received >= windowStart + windowSize
    }

    /** Judges a complete header, and if it passes moves the window to where it says. */
    method ParseWindowHeader(imageSize: nat) returns (r: Decision)
      requires window.Length == MAX_PROTECTED_TLV_SIZE
      modifies this`phase, this`decision, this`windowStart, this`windowSize
      ensures match ParseHeader(old(window[..HEADER_SIZE]), imageSize)
        case Refused(refusal) => r == refusal && phase == DECIDED && decision == refusal
        case Area(start, size) =>
          r == NEED_MORE && phase == TLVS && decision == old(decision) && windowStart == start && windowSize == size
    {
      var header := window[..HEADER_SIZE];
      if ReadU32(header, 0) != HEADER_MAGIC { DecideOn(BAD_IDENTITY); return BAD_IDENTITY; }
      var headerSize := ReadU16(header, 8);
      var protectedSize := ReadU16(header, 10);
      var payloadSize := ReadU32(header, 12);
      if headerSize < HEADER_SIZE { DecideOn(BAD_IDENTITY); return BAD_IDENTITY; }
      if protectedSize == 0 { DecideOn(NO_IDENTITY); return NO_IDENTITY; }
      if protectedSize > MAX_PROTECTED_TLV_SIZE { DecideOn(BAD_IDENTITY); return BAD_IDENTITY; }
      var areaStart := headerSize + payloadSize;
      if areaStart + protectedSize > imageSize { DecideOn(BAD_IDENTITY); return BAD_IDENTITY; }
      phase, windowStart, windowSize := TLVS, areaStart, protectedSize;
      r := NEED_MORE;
    }

    /** Walks the TLVs of the area and decides. */
    method ParseTlvs() returns (r: Decision)
      requires window.Length == MAX_PROTECTED_TLV_SIZE && windowSize <= window.Length
      modifies this`phase, this`decision
      ensures r == AreaDecision(own, old(window[..windowSize])) && phase == DECIDED && decision == r
    {
      hide AreaDecision, Walked, Chain, Parse, Check, IdentityValues, ReadU16;
      var area := window[..windowSize];
      NoInfoIsBad(own, area);
      if windowSize < TLV_INFO_SIZE || ReadU16(area, 0) != PROTECTED_TLV_MAGIC || ReadU16(area, 2) != windowSize {
        DecideOn(BAD_IDENTITY); return BAD_IDENTITY;
      }
      var identity: Option<Identity> := None;
      var position := TLV_INFO_SIZE;
      ghost var passed: seq<Tlv> := [];
      WalkStarts(area);
      while position < windowSize
        invariant TLV_INFO_SIZE <= position <= windowSize == |area|
        invariant Walked(area, passed, position, identity)
      {
        WalkOn(own, area, passed, position, identity);
        if windowSize - position < TLV_HEADER_SIZE { DecideOn(BAD_IDENTITY); return BAD_IDENTITY; }
        var kind := ReadU16(area, position);
        var length := ReadU16(area, position + 2);
        position := position + TLV_HEADER_SIZE;
        if length > windowSize - position { DecideOn(BAD_IDENTITY); return BAD_IDENTITY; }
        var value := area[position..position + length];
        if kind == TLV_TYPE {
          if identity.Some? { DecideOn(BAD_IDENTITY); return BAD_IDENTITY; }
          identity := Parse(value);
          if identity.None? { DecideOn(BAD_IDENTITY); return BAD_IDENTITY; }
        }
        passed := passed + [Tlv(kind, value)];
        position := position + length;
      }
      WalkEnds(own, area, passed, identity);
      if identity.None? { DecideOn(NO_IDENTITY); return NO_IDENTITY; }
      r := Check(own, identity.value);
      DecideOn(r);
    }

    /** The part of Feed for a chunk that goes on where the data known so far allows it. */
    method Accept(offset: nat, chunk: seq<byte>, imageSize: nat) returns (r: Decision)
      requires Valid() && decision == NEED_MORE && !IsMisplaced(received, offset, chunk, imageSize)
      requires offset == 0 ==> reference == Initial
      modifies this, window
      ensures Valid() && r == decision
      ensures reference == FeedReference(own, old(reference), offset, chunk, imageSize)
    {
      hide AreaDecision, ParseHeader, Overlay, FeedReference, IsMisplaced, Mirrors;
      ghost var before := reference.known;
      FeedPlaced(own, reference, offset, chunk, imageSize);
      reference := FeedReference(own, reference, offset, chunk, imageSize);
      received := Max(received, offset + |chunk|);
      CopyToWindow(offset, chunk, before);
      if phase == HEADER && IsWindowComplete() {
        WindowIsFull(reference.known);
        var layout := ParseWindowHeader(imageSize);
        if layout == NEED_MORE {
          WindowIsAhead(before);
          CopyToWindow(offset, chunk, before);
        }
      }
      if phase == TLVS && IsWindowComplete() {
        WindowIsFull(reference.known);
        r := ParseTlvs();
        return;
      }
      r := decision;
    }

    method Feed(offset: nat, chunk: seq<byte>, imageSize: nat) returns (r: Decision)
      requires Valid()
      modifies this, window
      ensures Valid() && r == decision
      ensures reference == FeedReference(own, old(reference), offset, chunk, imageSize)
      ensures offset != 0 && old(decision) != NEED_MORE ==> r == old(decision)
      ensures offset == 0 || old(decision) == NEED_MORE ==>
        (offset > old(received) || (chunk != [] && offset + |chunk| > imageSize) ==> r == BAD_IDENTITY)
    {
      if offset == 0 { Reset(); }
      if phase == DECIDED { return decision; }
      if offset > received || |chunk| > imageSize - Min(offset, imageSize) {
        DecideOn(BAD_IDENTITY);
        reference := reference.(decision := BAD_IDENTITY);
        return decision;
      }
      r := Accept(offset, chunk, imageSize);
    }
  }

  /**
   Chunking independence of the collector: fed an upload chunk by chunk, whatever it held before, it gives
   the one-shot decision on the prefix received; for a whole image, MATCH exactly when it carries its own identity.
   */
  method FeedUpload(collector: Collector, image: seq<byte>, cuts: seq<Cut>) returns (r: Decision)
    requires collector.Valid() && IsUpload(image, cuts)
    modifies collector, collector.window
    ensures collector.Valid() && r == collector.decision
    ensures Received(cuts) <= |image| && r == Decide(collector.own, image[..Received(cuts)], |image|)
    ensures IsIdentity(collector.own) && Received(cuts) == |image| ==>
      (r == MATCH <==> CarriesIdentity(image, |image|, Encoded(collector.own)))
    ensures IsIdentity(collector.own) && Received(cuts) == |image| && 32 <= |image| ==>
      && (r == MATCH <==> CarriesOnly(image, collector.own))
      && (r == WRONG_PRODUCT <==> exists id: Identity :: id.productId != collector.own.productId && CarriesOnly(image, id))
      && (r == WRONG_BOARD <==>
           exists id: Identity :: id.productId == collector.own.productId && id.board != collector.own.board && CarriesOnly(image, id))
      && (r == NO_IDENTITY <==> CarriesNone(image) || DeclaresNoArea(image))
  {
    hide FeedReference, Decide, CarriesIdentity, Received, CarriesOnly, CarriesNone, DeclaresNoArea;
    ghost var before := collector.reference;
    UploadDecides(collector.own, before, image, cuts);
    if Received(cuts) == |image| && IsIdentity(collector.own) {
      WholeUploadMatchesIff(collector.own, before, image, cuts);
      assert image[..|image|] == image;
      if 32 <= |image| { DecisionIsByContent(collector.own, image); }
    }
    for i := 0 to |cuts|
      invariant collector.Valid()
      invariant collector.reference == Upload(collector.own, before, image, cuts[..i])
    {
      assert cuts[..i + 1][..i] == cuts[..i];
      r := collector.Feed(cuts[i].offset, image[cuts[i].offset..cuts[i].offset + cuts[i].length], |image|);
    }
    assert cuts[..|cuts|] == cuts;
    r := collector.decision;
  }

  /** The reference after a chunk in place, while it has not decided. */
  lemma FeedPlaced(own: Identity, st: Reference, offset: nat, chunk: seq<byte>, imageSize: nat)
    requires st.decision == NEED_MORE && !IsMisplaced(|st.known|, offset, chunk, imageSize) && (offset == 0 ==> st == Initial)
    ensures var after := FeedReference(own, st, offset, chunk, imageSize);
      && offset <= |st.known| && after.known == Overlay(st.known, offset, chunk)
      && |after.known| == Max(|st.known|, offset + |chunk|)
      && after.layout == (if st.layout.None? && HEADER_SIZE <= |after.known|
           then Some(ParseHeader(after.known[..HEADER_SIZE], imageSize)) else st.layout)
      && after.decision == Judge(own, after.known, after.layout)
  {
    hide AreaDecision, ParseHeader;
  }

  /** The TLVs before `position` are `passed`, and `identity` is the one identity among them, if any. */
  ghost predicate Walked(area: seq<byte>, passed: seq<Tlv>, position: nat, identity: Option<Identity>)
    requires TLV_INFO_SIZE <= position <= |area|
  {
    && Chain(area, TLV_INFO_SIZE)
       == (match Chain(area, position) case None => None case Some(rest) => Some(passed + rest))
    && match identity
       case None => IdentityValues(passed) == []
       case Some(id) => |IdentityValues(passed)| == 1 && Parse(IdentityValues(passed)[0]) == identity
  }

  lemma NoInfoIsBad(own: Identity, area: seq<byte>)
    ensures !HasAreaInfo(area) ==> AreaDecision(own, area) == BAD_IDENTITY
  {
  }

  lemma WalkStarts(area: seq<byte>)
    requires TLV_INFO_SIZE <= |area|
    ensures Walked(area, [], TLV_INFO_SIZE, None)
  {
    if Chain(area, TLV_INFO_SIZE).Some? {
      assert [] + Chain(area, TLV_INFO_SIZE).value == Chain(area, TLV_INFO_SIZE).value;
    }
  }

  lemma {:induction false} IdentityValuesAppend(a: seq<Tlv>, b: seq<Tlv>)
    ensures IdentityValues(a + b) == IdentityValues(a) + IdentityValues(b)
  {
    if a == [] {
      assert a + b == b;
    } else {
      IdentityValuesAppend(a[1..], b);
      assert (a + b)[1..] == a[1..] + b;
    }
  }

  predicate NextFits(area: seq<byte>, position: nat)
    requires position <= |area|
  {
    position + TLV_HEADER_SIZE <= |area| && ReadU16(area, position + 2) <= |area| - position - TLV_HEADER_SIZE
  }

  function NextTlv(area: seq<byte>, position: nat): Tlv
    requires position <= |area| && NextFits(area, position)
  {
    var from := position + TLV_HEADER_SIZE;
    Tlv(ReadU16(area, position), area[from..from + ReadU16(area, position + 2)])
  }

  /** A TLV that fits is the first of the chain from its position, one that does not ends the chain. */
  lemma NextInChain(area: seq<byte>, passed: seq<Tlv>, position: nat)
    requires TLV_INFO_SIZE <= position < |area|
    requires Chain(area, TLV_INFO_SIZE) == (match Chain(area, position) case None => None case Some(rest) => Some(passed + rest))
    ensures !NextFits(area, position) ==> Chain(area, TLV_INFO_SIZE) == None
    ensures NextFits(area, position) ==>
      var tlv := NextTlv(area, position);
      var next := position + TLV_HEADER_SIZE + |tlv.value|;
      next <= |area|
      && Chain(area, TLV_INFO_SIZE) == (match Chain(area, next) case None => None case Some(rest) => Some((passed + [tlv]) + rest))
  {
    hide ReadU16;
    if NextFits(area, position) {
      var tlv := NextTlv(area, position);
      var next := position + TLV_HEADER_SIZE + |tlv.value|;
      if Chain(area, next).Some? {
        var rest := Chain(area, next).value;
        assert passed + ([tlv] + rest) == (passed + [tlv]) + rest;
      }
    }
  }

  /** A second identity in the chain, or one that does not parse, refuses the area. */
  lemma RefusedByNext(own: Identity, area: seq<byte>, passed: seq<Tlv>, tlv: Tlv, next: nat)
    requires HasAreaInfo(area) && next <= |area| && tlv.kind == TLV_TYPE
    requires Chain(area, TLV_INFO_SIZE) == (match Chain(area, next) case None => None case Some(rest) => Some((passed + [tlv]) + rest))
    requires IdentityValues(passed) != [] || Parse(tlv.value).None?
    ensures AreaDecision(own, area) == BAD_IDENTITY
  {
    hide Parse, Check, Chain;
    OneMoreIdentity(passed, tlv);
    if Chain(area, next).Some? {
      IdentityValuesAppend(passed + [tlv], Chain(area, next).value);
    }
  }

  lemma OneMoreIdentity(passed: seq<Tlv>, tlv: Tlv)
    ensures IdentityValues(passed + [tlv]) == IdentityValues(passed) + (if tlv.kind == TLV_TYPE then [tlv.value] else [])
  {
    IdentityValuesAppend(passed, [tlv]);
    assert IdentityValues([tlv][1..]) == [];
  }

  /** One step of the walk: it goes on past the next TLV, or the area is refused. */
  lemma WalkOn(own: Identity, area: seq<byte>, passed: seq<Tlv>, position: nat, identity: Option<Identity>)
    requires HasAreaInfo(area) && TLV_INFO_SIZE <= position < |area|
    requires Walked(area, passed, position, identity)
    ensures !NextFits(area, position) ==> AreaDecision(own, area) == BAD_IDENTITY
    ensures NextFits(area, position) ==>
      var tlv := NextTlv(area, position);
      var next := position + TLV_HEADER_SIZE + |tlv.value|;
      if tlv.kind != TLV_TYPE then Walked(area, passed + [tlv], next, identity)
      else if identity.Some? || Parse(tlv.value).None? then AreaDecision(own, area) == BAD_IDENTITY
      else Walked(area, passed + [tlv], next, Parse(tlv.value))
  {
    hide Parse, Check, Chain, IdentityValues, NextTlv, NextFits, ReadU16;
    NextInChain(area, passed, position);
    if NextFits(area, position) {
      var tlv := NextTlv(area, position);
      var next := position + TLV_HEADER_SIZE + |tlv.value|;
      OneMoreIdentity(passed, tlv);
      if tlv.kind == TLV_TYPE && (identity.Some? || Parse(tlv.value).None?) {
        RefusedByNext(own, area, passed, tlv, next);
      }
    }
  }

  lemma WalkEnds(own: Identity, area: seq<byte>, passed: seq<Tlv>, identity: Option<Identity>)
    requires HasAreaInfo(area) && Walked(area, passed, |area|, identity)
    ensures AreaDecision(own, area) == match identity case None => NO_IDENTITY case Some(id) => Check(own, id)
  {
    hide Parse, Check;
    assert passed + [] == passed;
  }
}
