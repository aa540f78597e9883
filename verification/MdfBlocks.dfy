/**
 The block graph of an MDF file and its three traversals: Reset, ResolveAddress, WriteToStream.
 Blocks link to children and to a next block and may do so in cycles. Each traversal walks the
 chain of next links in a loop, recurses into the children, and recognises a block it has met by
 a field of that block, a different one for each traversal.
 */
module MdfBlocks {
  import opened Bytes
  import opened DepthFirst
  import opened Listing

  const ADDRESS_LIMIT: nat := 0x1_0000_0000_0000_0000

  /** Unsigned 64-bit addition. */
  function AddU64(a: nat, b: nat): nat
  {
    (a + b) % ADDRESS_LIMIT
  }

  /** A seekable byte stream that takes `room` more bytes from its position on before writes come up short. */
  class Stream {
    var data: seq<byte>
    var pos: nat
    var room: nat

    /** The room reaches to the end of what is there already, so overwriting takes none. */
    predicate Valid()
      reads this
    {
      pos <= |data| <= pos + room
    }

    constructor (room: nat)
      ensures Valid() && data == [] && pos == 0 && this.room == room
    {
      data, pos := [], 0;
      this.room := room;
    }

    /** std::streambuf::sputn: the number of bytes taken, fewer than offered when the room runs out. */
    method Put(bytes: seq<byte>) returns (written: nat)
      requires pos <= |data|
      modifies this
      ensures written == if |bytes| <= old(room) then |bytes| else old(room)
      ensures room == old(room) - written
      ensures pos == old(pos) + written && pos <= |data| && (old(Valid()) ==> Valid())
      ensures data == Overlay(old(data), old(pos), bytes[..written])
    {
      written := if |bytes| <= room then |bytes| else room;
      data := Overlay(data, pos, bytes[..written]);
      pos := pos + written;
      room := room - written;
    }

    /** std::streambuf::pubseekpos; a position past the end cannot be reached. */
    method Seek(target: nat) returns (ok: bool)
      requires Valid()
      modifies this`pos, this`room
      ensures Valid() && ok == (target <= |data|)
      ensures pos == if ok then target else old(pos)
      ensures pos + room == old(pos) + old(room)
    {
      ok := target <= |data|;
      if ok { pos, room := target, pos + room - target; }
    }
  }

  /** What Serialize() gives for every block while a traversal runs: GetSerializedSize() bytes of it. */
  type Content = Block -> seq<byte>

  function NonNull(bs: seq<Block?>): (r: seq<Block>)
    ensures forall b :: b in bs && b != null ==> b in r
    ensures forall b :: b in r ==> b in bs
  {
    if bs == [] then []
    else if bs[0] == null then NonNull(bs[1..])
    else [bs[0]] + NonNull(bs[1..])
  }

  lemma NonNullAtEnd(bs: seq<Block?>)
    ensures NonNull(bs[|bs|..]) == []
  {
  }

  lemma NonNullAt(bs: seq<Block?>, i: nat)
    requires i < |bs|
    ensures NonNull(bs[i..]) == if bs[i] == null then NonNull(bs[i + 1..]) else [bs[i]] + NonNull(bs[i + 1..])
  {
    assert bs[i..][1..] == bs[i + 1..];
  }

  /** The block sizes of an order, added up. */
  function SizeSum(order: seq<Block>): nat
  {
    if order == [] then 0 else SizeSum(order[..|order| - 1]) + order[|order| - 1].blockSize
  }

  lemma {:induction false} SizeSumAppend(a: seq<Block>, b: seq<Block>)
    ensures SizeSum(a + b) == SizeSum(a) + SizeSum(b)
    decreases |b|
  {
    if b == [] {
      assert a + b == a;
    } else {
      SizeSumAppend(a, b[..|b| - 1]);
      assert (a + b)[..|a + b| - 1] == a + b[..|b| - 1];
    }
  }

  /** The links of the blocks of `S`, children first and the next block last. */
  ghost function Links(S: set<Block>): (g: Graph<Block>)
    reads S`children, S`next
    ensures g.Keys == S
  {
    map b | b in S :: NonNull(b.children) + NonNull([b.next])
  }

  /** Both marks of the blocks as Reset found them. */
  ghost function States(S: set<Block>): map<Block, (nat, bool)>
    reads S`address, S`isSerialized
  {
    map b | b in S :: (b.address, b.isSerialized)
  }

  /** The blocks Reset takes for done: neither resolved nor written. */
  ghost function Clean(base: map<Block, (nat, bool)>): set<Block>
  {
    set b | b in base && base[b] == (0, false)
  }

  /** The marks after Reset cleaned `done`; every other block is as `base` says. */
  ghost predicate Cleaned(S: set<Block>, base: map<Block, (nat, bool)>, done: seq<Block>)
    reads S`address, S`isSerialized
  {
    && base.Keys == S
    && forall b :: b in S ==> (b.address, b.isSerialized) == if b in done then (0, false) else base[b]
  }

  ghost predicate AreLinks(g: Graph<Block>, S: set<Block>)
    reads S`children, S`next
  {
    g == Links(S)
  }

  lemma LinksAt(g: Graph<Block>, S: set<Block>, b: Block)
    requires AreLinks(g, S) && b in S
    ensures g.Keys == S && g[b] == NonNull(b.children) + NonNull([b.next])
  {
  }

  /** A child of a block is one of the blocks. */
  lemma ChildIsLinked(g: Graph<Block>, S: set<Block>, b: Block, i: nat)
    requires AreLinks(g, S) && Closed(g) && b in S && i < |b.children| && b.children[i] != null
    ensures b.children[i] in S && b.children[i] in g[b]
  {
    LinksAt(g, S, b);
    assert b.children[i] in b.children && b.children[i] in g[b];
  }

  /** Where `b` starts in an order laid out from 0: the sizes of the blocks before it. */
  ghost function Offset(order: seq<Block>, b: Block): nat
    requires b in order
  {
    if order[|order| - 1] == b then SizeSum(order[..|order| - 1]) else Offset(order[..|order| - 1], b)
  }

  lemma OffsetOfAppended(order: seq<Block>, b: Block)
    requires b !in order
    ensures Offset(order + [b], b) == SizeSum(order)
    ensures SizeSum(order + [b]) == SizeSum(order) + b.blockSize
    ensures forall x :: x in order ==> Offset(order + [b], x) == Offset(order, x)
  {
    assert (order + [b])[..|order|] == order;
  }

  /** The address marks as a traversal found them. */
  ghost function Addresses(S: set<Block>): map<Block, nat>
    reads S`address
  {
    map b | b in S :: b.address
  }

  /** The blocks a traversal takes for done: those with an address. */
  ghost function Resolved(base: map<Block, nat>): set<Block>
  {
    set b | b in base && base[b] != 0
  }

  /** The addresses after `done` was laid out from `start`: every other block is as `base` says. */
  ghost predicate LaidOut(S: set<Block>, base: map<Block, nat>, done: seq<Block>, start: nat)
    reads S`address
  {
    && base.Keys == S
    && forall b :: b in S ==> b.address == if b in done then start + Offset(done, b) else base[b]
  }

  /** The bytes of an order's blocks, one after the other. */
  function Payloads(content: Content, order: seq<Block>): seq<byte>
  {
    if order == [] then [] else Payloads(content, order[..|order| - 1]) + content(order[|order| - 1])
  }

  lemma NoPayloads(content: Content)
    ensures Payloads(content, []) == []
  {
  }

  lemma {:induction false} PayloadsAppend(content: Content, a: seq<Block>, b: seq<Block>)
    ensures Payloads(content, a + b) == Payloads(content, a) + Payloads(content, b)
    decreases |b|
  {
    hide Payloads;
    if b == [] {
      assert a + b == a;
      NoPayloads(content);
    } else {
      var front, last := b[..|b| - 1], b[|b| - 1];
      PayloadsAppend(content, a, front);
      assert b == front + [last] && a + b == (a + front) + [last];
      PayloadsOne(content, front, last);
      PayloadsOne(content, a + front, last);
      assert Payloads(content, a) + (Payloads(content, front) + content(last))
          == (Payloads(content, a) + Payloads(content, front)) + content(last);
    }
  }

  lemma PayloadsOne(content: Content, a: seq<Block>, b: Block)
    ensures Payloads(content, a + [b]) == Payloads(content, a) + content(b)
  {
    assert (a + [b])[..|a|] == a;
  }

  lemma PayloadsPrefix(content: Content, whole: seq<Block>, done: seq<Block>, rest: seq<Block>)
    requires whole == done + rest
    ensures Payloads(content, done) <= Payloads(content, whole)
  {
    PayloadsAppend(content, done, rest);
  }

  /** The write marks as a traversal found them. */
  ghost function Marks(S: set<Block>): map<Block, bool>
    reads S`isSerialized
  {
    map b | b in S :: b.isSerialized
  }

  ghost function Serialized(base: map<Block, bool>): set<Block>
  {
    set b | b in base && base[b]
  }

  /** The stream before a write. */
  datatype Tape = Tape(data: seq<byte>, pos: nat, room: nat)

  ghost function TapeOf(stream: Stream): Tape
    reads stream
  {
    Tape(stream.data, stream.pos, stream.room)
  }

  /** As many of `bytes` as fit. */
  function Fitting(bytes: seq<byte>, room: nat): seq<byte>
  {
    if |bytes| <= room then bytes else bytes[..room]
  }

  /** The tape after as many of `bytes` as fit were written to it. */
  ghost function Write(tape: Tape, bytes: seq<byte>): Tape
    requires tape.pos <= |tape.data|
  {
    var fit := Fitting(bytes, tape.room);
    Tape(Overlay(tape.data, tape.pos, fit), tape.pos + |fit|, tape.room - |fit|)
  }

  lemma FittingTwice(a: seq<byte>, b: seq<byte>, room: nat)
    requires |a| <= room
    ensures Fitting(a, room) == a && Fitting(a + b, room) == a + Fitting(b, room - |a|)
  {
  }

  lemma WriteTwice(tape: Tape, a: seq<byte>, b: seq<byte>)
    requires tape.pos <= |tape.data| && |a| <= tape.room
    ensures Write(tape, a).pos <= |Write(tape, a).data|
    ensures Write(Write(tape, a), b) == Write(tape, a + b)
    ensures Write(tape, a).room == tape.room - |a|
  {
    hide Fitting, Overlay;
    FittingTwice(a, b, tape.room);
    OverlayTwice(tape.data, tape.pos, a, Fitting(b, tape.room - |a|));
  }

  /** The marks after `done` was written; every other block is as `base` says. */
  ghost predicate Marked(S: set<Block>, base: map<Block, bool>, done: seq<Block>)
    reads S`isSerialized
  {
    && base.Keys == S
    && forall b :: b in S ==> (b.isSerialized <==> b in done || base[b])
  }

  /** The part of the order that belongs to `b` and its children, without the chain after it. */
  ghost function Subtree(g: Graph<Block>, b: Block, kids: seq<Block>, seen: set<Block>): (order: seq<Block>)
    requires Closed(g) && b in g && b !in seen && AllIn(g, kids)
    ensures AllIn(g, order) && b in order
  {
    [b] + VisitAll(g, kids, seen + {b})
  }

  /** A block's own subtree, then the chain that starts at its next block. */
  lemma VisitIsSubtreeThenChain(g: Graph<Block>, b: Block, kids: seq<Block>, chain: seq<Block>, seen: set<Block>)
    requires Closed(g) && b in g && b !in seen
    requires g[b] == kids + chain
    ensures AllIn(g, kids) && AllIn(g, chain)
    ensures Visit(g, b, seen)
         == Subtree(g, b, kids, seen) + VisitAll(g, chain, seen + Elements(Subtree(g, b, kids, seen)))
  {
    hide VisitAll;
    forall x | x in kids || x in chain ensures x in g { assert x in g[b]; }
    VisitAllAppend(g, kids, chain, seen + {b});
    var below := VisitAll(g, kids, seen + {b});
    assert seen + {b} + Elements(below) == seen + Elements([b] + below) by {
      assert Elements([b] + below) == {b} + Elements(below);
    }
    assert Visit(g, b, seen) == [b] + (below + VisitAll(g, chain, seen + {b} + Elements(below)));
  }

  lemma VisitAllSingle(g: Graph<Block>, b: Block, seen: set<Block>)
    requires Closed(g) && b in g
    ensures AllIn(g, [b])
    ensures VisitAll(g, [b], seen) == if b in seen then [] else Visit(g, b, seen)
  {
    assert [b][1..] == [];
  }

  /** A traversal in progress: `done` has been met, `todo` is still to be visited, `whole` is the outcome. */
  ghost predicate Split(g: Graph<Block>, whole: seq<Block>, done: seq<Block>, todo: seq<Block>, seen: set<Block>)
    requires Closed(g)
  {
    AllIn(g, todo) && whole == done + VisitAll(g, todo, seen + Elements(done))
  }

  /** `done` grows by the new blocks `more`, each met for the first time. */
  ghost predicate Extends(whole: seq<Block>, done: seq<Block>, more: seq<Block>)
  {
    && Elements(done) <= Elements(done + more)
    && SizeSum(done + more) <= SizeSum(whole)
  }

  lemma SplitEnd(g: Graph<Block>, whole: seq<Block>, done: seq<Block>, seen: set<Block>)
    requires Closed(g) && Split(g, whole, done, [], seen)
    ensures whole == done
  {
  }

  lemma SplitSkip(g: Graph<Block>, whole: seq<Block>, done: seq<Block>, b: Block, rest: seq<Block>, seen: set<Block>)
    requires Closed(g) && Split(g, whole, done, [b] + rest, seen) && b in seen + Elements(done)
    ensures Split(g, whole, done, rest, seen)
  {
    assert ([b] + rest)[1..] == rest;
  }

  /** Visiting the first block to do moves its whole order from `todo` to `done`. */
  lemma SplitVisit(g: Graph<Block>, whole: seq<Block>, done: seq<Block>, b: Block, rest: seq<Block>, seen: set<Block>)
    requires Closed(g) && Split(g, whole, done, [b] + rest, seen) && b !in seen + Elements(done)
    ensures b in g
    ensures var more := Visit(g, b, seen + Elements(done));
      Split(g, whole, done + more, rest, seen) && Extends(whole, done, more)
  {
    assert ([b] + rest)[1..] == rest && ([b] + rest)[0] == b;
    var more := Visit(g, b, seen + Elements(done));
    SplitMove(g, whole, done, more, rest, seen);
  }

  /** A child that is null or met already is passed over. */
  lemma SplitPassChild(g: Graph<Block>, whole: seq<Block>, done: seq<Block>, children: seq<Block?>, i: nat, seen: set<Block>)
    requires Closed(g) && i < |children| && Split(g, whole, done, NonNull(children[i..]), seen)
    requires children[i] == null || children[i] in seen + Elements(done)
    ensures Split(g, whole, done, NonNull(children[i + 1..]), seen)
  {
    hide VisitAll, NonNull, Split;
    NonNullAt(children, i);
    if children[i] != null {
      SplitSkip(g, whole, done, children[i], NonNull(children[i + 1..]), seen);
    }
  }

  /** Any other child is visited. */
  lemma SplitVisitChild(g: Graph<Block>, whole: seq<Block>, done: seq<Block>, children: seq<Block?>, i: nat, child: Block, seen: set<Block>)
    requires Closed(g) && i < |children| && Split(g, whole, done, NonNull(children[i..]), seen)
    requires child == children[i] && child !in seen + Elements(done)
    ensures child in g
    ensures var more := Visit(g, child, seen + Elements(done));
      Split(g, whole, done + more, NonNull(children[i + 1..]), seen) && Extends(whole, done, more)
  {
    hide VisitAll, Visit, NonNull, Split, Extends;
    NonNullAt(children, i);
    SplitVisit(g, whole, done, child, NonNull(children[i + 1..]), seen);
  }

  lemma SplitMove(g: Graph<Block>, whole: seq<Block>, done: seq<Block>, more: seq<Block>, rest: seq<Block>, seen: set<Block>)
    requires Closed(g) && AllIn(g, rest)
    requires whole == done + (more + VisitAll(g, rest, seen + Elements(done) + Elements(more)))
    ensures Split(g, whole, done + more, rest, seen)
    ensures Elements(done + more) == Elements(done) + Elements(more)
    ensures SizeSum(done + more) <= SizeSum(whole)
  {
    assert Elements(done + more) == Elements(done) + Elements(more);
    assert seen + Elements(done + more) == seen + Elements(done) + Elements(more);
    var left := VisitAll(g, rest, seen + Elements(done) + Elements(more));
    assert whole == (done + more) + left;
    SizeSumAppend(done + more, left);
  }

  /** Visiting a block without its chain leaves the chain to do. */
  lemma SplitSubtree(g: Graph<Block>, whole: seq<Block>, done: seq<Block>, b: Block,
                     kids: seq<Block>, chain: seq<Block>, seen: set<Block>)
    requires Closed(g) && Split(g, whole, done, [b], seen) && b !in seen + Elements(done)
    requires b in g && g[b] == kids + chain
    ensures AllIn(g, kids) && AllIn(g, chain)
    ensures var more := Subtree(g, b, kids, seen + Elements(done));
      Split(g, whole, done + more, chain, seen) && Extends(whole, done, more)
  {
    var met := seen + Elements(done);
    VisitAllSingle(g, b, met);
    VisitIsSubtreeThenChain(g, b, kids, chain, met);
    var more := Subtree(g, b, kids, met);
    SplitMove(g, whole, done, more, chain, seen);
  }

  /** A traversal of a block's subtree starts with the block met and its children to do. */
  lemma SplitStart(g: Graph<Block>, done: seq<Block>, b: Block, kids: seq<Block>, seen: set<Block>)
    requires Closed(g) && b in g && b !in seen + Elements(done) && AllIn(g, kids)
    ensures var whole := done + Subtree(g, b, kids, seen + Elements(done));
      Split(g, whole, done + [b], kids, seen) && SizeSum(done + [b]) <= SizeSum(whole)
  {
    assert Elements([b]) == {b};
    SplitMove(g, done + Subtree(g, b, kids, seen + Elements(done)), done, [b], kids, seen);
  }

  lemma SplitChainStart(g: Graph<Block>, done: seq<Block>, b: Block, kids: seq<Block>, chain: seq<Block>, seen: set<Block>)
    requires Closed(g) && b in g && b !in seen + Elements(done) && g[b] == kids + chain
    ensures AllIn(g, kids) && AllIn(g, chain)
    ensures var met := done + Subtree(g, b, kids, seen + Elements(done));
      var whole := done + Visit(g, b, seen + Elements(done));
      && b in met && Elements(done) <= Elements(met)
      && Split(g, whole, met, chain, seen) && SizeSum(met) <= SizeSum(whole)
  {
    VisitIsSubtreeThenChain(g, b, kids, chain, seen + Elements(done));
    SplitMove(g, done + Visit(g, b, seen + Elements(done)), done, Subtree(g, b, kids, seen + Elements(done)), chain, seen);
  }

  /** Once the tape is full, the blocks still to come change nothing. */
  lemma WriteStops(g: Graph<Block>, whole: seq<Block>, done: seq<Block>, todo: seq<Block>, seen: set<Block>,
                   content: Content, tape: Tape)
    requires Closed(g) && Split(g, whole, done, todo, seen)
    requires tape.pos <= |tape.data| && tape.room < |Payloads(content, done)|
    ensures tape.room < |Payloads(content, whole)|
    ensures Write(tape, Payloads(content, done)) == Write(tape, Payloads(content, whole))
  {
    PayloadsPrefix(content, whole, done, VisitAll(g, todo, seen + Elements(done)));
    assert Payloads(content, whole)[..tape.room] == Payloads(content, done)[..tape.room];
  }

  datatype RewriteResult = Rewritten(size: nat) | NeverWritten | NoSuchPosition | ShortWrite

  class Block {
    /** GetBlockSize(): the length field of the block. */
    const blockSize: nat
    var children: seq<Block?>
    var next: Block?
    var address: nat
    var isSerialized: bool

    constructor (blockSize: nat)
      ensures this.blockSize == blockSize
      ensures children == [] && next == null && address == 0 && !isSerialized
    {
      this.blockSize := blockSize;
      children, next, address, isSerialized := [], null, 0, false;
    }

    method ResolveBlockAddress(at: nat, ghost S: set<Block>, ghost g: Graph<Block>,
                               ghost base: map<Block, nat>, ghost start: nat, ghost done: seq<Block>)
      returns (end: nat)
      requires AreLinks(g, S) && Closed(g) && this in S
      requires LaidOut(S, base, done, start) && this !in Resolved(base) + Elements(done)
      requires 0 < start || g[this] == []
      requires AllIn(g, NonNull(children))
      requires at == start + SizeSum(done)
      requires start + SizeSum(done + Subtree(g, this, NonNull(children), Resolved(base) + Elements(done))) < ADDRESS_LIMIT
      modifies S`address
      ensures var order := done + Subtree(g, this, NonNull(children), Resolved(base) + Elements(done));
        end == start + SizeSum(order) && LaidOut(S, base, order, start)
      decreases S - Elements(done), 0
    {
      hide VisitAll, Visit, SizeSum, Offset, Split, Subtree, AreLinks, NonNull;
      LinksAt(g, S, this);
      ghost var seen := Resolved(base);
      ghost var whole := done + Subtree(g, this, NonNull(children), seen + Elements(done));
      SplitStart(g, done, this, NonNull(children), seen);
      OffsetOfAppended(done, this);
      address := at;
      end := AddU64(at, blockSize);
      ghost var met := done + [this];
      assert this in S - Elements(done);
      for i := 0 to |children|
        invariant AreLinks(g, S)
        invariant Split(g, whole, met, NonNull(children[i..]), seen)
        invariant S - Elements(met) < S - Elements(done)
        invariant end == start + SizeSum(met)
        invariant LaidOut(S, base, met, start)
      {
        var child := children[i];
        if child != null { ChildIsLinked(g, S, this, i); }
        if child != null && child.address == 0 {
          SplitVisitChild(g, whole, met, children, i, child, seen);
          end := child.ResolveAddress(end, S, g, base, start, met);
          met := met + Visit<Block>(g, child, seen + Elements(met));
        } else {
          SplitPassChild(g, whole, met, children, i, seen);
        }
      }
      NonNullAtEnd(children);
      SplitEnd(g, whole, met, seen);
    }

    method ResolveAddress(parentAddress: nat, ghost S: set<Block>, ghost g: Graph<Block>,
                          ghost base: map<Block, nat>, ghost start: nat, ghost done: seq<Block>)
      returns (end: nat)
      requires AreLinks(g, S) && Closed(g) && this in S
      requires LaidOut(S, base, done, start) && this !in Resolved(base) + Elements(done)
      requires 0 < start || g[this] == []
      requires parentAddress == start + SizeSum(done)
      requires start + SizeSum(done + Visit(g, this, Resolved(base) + Elements(done))) < ADDRESS_LIMIT
      modifies S`address
      ensures var order := done + Visit(g, this, Resolved(base) + Elements(done));
        end == start + SizeSum(order) && LaidOut(S, base, order, start)
      decreases S - Elements(done), 1
    {
      hide VisitAll, Visit, SizeSum, Offset, Split, Subtree, AreLinks;
      LinksAt(g, S, this);
      ghost var seen := Resolved(base);
      ghost var whole := done + Visit(g, this, seen + Elements(done));
      SplitChainStart(g, done, this, NonNull(children), NonNull([next]), seen);
      end := ResolveBlockAddress(parentAddress, S, g, base, start, done);
      ghost var met := done + Subtree(g, this, NonNull(children), seen + Elements(done));
      assert this in S - Elements(done);
      var link := next;
      while link != null && link.address == 0
        invariant Split(g, whole, met, NonNull([link]), seen)
        invariant S - Elements(met) < S - Elements(done)
        invariant AllIn(g, NonNull([link])) && (link != null ==> 0 < start)
        invariant end == start + SizeSum(met)
        invariant LaidOut(S, base, met, start)
        decreases S - Elements(met)
      {
        assert NonNull([link]) == [link] && link in NonNull([link]);
        assert link in S - Elements(met);
        LinksAt(g, S, link);
        SplitSubtree(g, whole, met, link, NonNull(link.children), NonNull([link.next]), seen);
        end := link.ResolveBlockAddress(end, S, g, base, start, met);
        met := met + Subtree(g, link, NonNull(link.children), seen + Elements(met));
        link := link.next;
      }
      if link != null {
        assert NonNull([link]) == [link] + [] && link in NonNull([link]);
        SplitSkip(g, whole, met, link, [], seen);
      } else {
        assert NonNull([link]) == [];
      }
      SplitEnd(g, whole, met, seen);
    }

    /** Writes the block itself; false stands for the exception on a short write. */
    method WriteBlockData(stream: Stream, content: Content) returns (ok: bool)
      requires stream.pos <= |stream.data|
      modifies stream
      ensures ok == (|content(this)| <= old(stream.room))
      ensures TapeOf(stream) == Write(old(TapeOf(stream)), content(this))
      ensures stream.pos <= |stream.data|
    {
      var written := stream.Put(content(this));
      ok := written == |content(this)|;
      assert content(this)[..|content(this)|] == content(this);
    }

    method WriteBlockToStream(stream: Stream, content: Content, ghost S: set<Block>, ghost g: Graph<Block>,
                              ghost base: map<Block, bool>, ghost tape: Tape, ghost done: seq<Block>)
      returns (ok: bool, written: nat)
      requires AreLinks(g, S) && Closed(g) && this in S
      requires Marked(S, base, done) && this !in Serialized(base) + Elements(done)
      requires AllIn(g, NonNull(children))
      requires tape.pos <= |tape.data| && |Payloads(content, done)| <= tape.room
      requires TapeOf(stream) == Write(tape, Payloads(content, done))
      modifies S`isSerialized, stream
      ensures var order := done + Subtree(g, this, NonNull(children), Serialized(base) + Elements(done));
        && ok == (|Payloads(content, order)| <= tape.room)
        && TapeOf(stream) == Write(tape, Payloads(content, order))
        && (ok ==> written == |Payloads(content, order)| - |Payloads(content, done)| && Marked(S, base, order))
      decreases S - Elements(done), 0
    {
      hide VisitAll, Visit, Payloads, Write, Split, Subtree, AreLinks, NonNull;
      LinksAt(g, S, this);
      ghost var seen := Serialized(base);
      ghost var whole := done + Subtree(g, this, NonNull(children), seen + Elements(done));
      SplitStart(g, done, this, NonNull(children), seen);
      PayloadsOne(content, done, this);
      WriteTwice(tape, Payloads(content, done), content(this));
      isSerialized := true;
      ok := WriteBlockData(stream, content);
      written := |content(this)|;
      ghost var met := done + [this];
      assert this in S - Elements(done);
      assert TapeOf(stream) == Write(tape, Payloads(content, met));
      if !ok {
        WriteStops(g, whole, met, NonNull(children), seen, content, tape);
        return;
      }
      for i := 0 to |children|
        invariant AreLinks(g, S)
        invariant Split(g, whole, met, NonNull(children[i..]), seen)
        invariant S - Elements(met) < S - Elements(done)
        invariant ok && |Payloads(content, met)| <= tape.room
        invariant TapeOf(stream) == Write(tape, Payloads(content, met))
        invariant written == |Payloads(content, met)| - |Payloads(content, done)|
        invariant Marked(S, base, met)
      {
        var child := children[i];
        if child != null && !child.isSerialized {
          SplitVisitChild(g, whole, met, children, i, child, seen);
          ghost var more := Visit<Block>(g, child, seen + Elements(met));
          var n;
          ok, n := child.WriteToStream(stream, content, S, g, base, tape, met);
          if !ok {
            WriteStops(g, whole, met + more, NonNull(children[i + 1..]), seen, content, tape);
            return;
          }
          written := written + n;
          met := met + more;
        } else {
          if child != null { ChildIsLinked(g, S, this, i); }
          SplitPassChild(g, whole, met, children, i, seen);
        }
      }
      NonNullAtEnd(children);
      SplitEnd(g, whole, met, seen);
    }

    method WriteToStream(stream: Stream, content: Content, ghost S: set<Block>, ghost g: Graph<Block>,
                         ghost base: map<Block, bool>, ghost tape: Tape, ghost done: seq<Block>)
      returns (ok: bool, written: nat)
      requires AreLinks(g, S) && Closed(g) && this in S
      requires Marked(S, base, done) && this !in Serialized(base) + Elements(done)
      requires tape.pos <= |tape.data| && |Payloads(content, done)| <= tape.room
      requires TapeOf(stream) == Write(tape, Payloads(content, done))
      modifies S`isSerialized, stream
      ensures var order := done + Visit(g, this, Serialized(base) + Elements(done));
        && ok == (|Payloads(content, order)| <= tape.room)
        && TapeOf(stream) == Write(tape, Payloads(content, order))
        && (ok ==> written == |Payloads(content, order)| - |Payloads(content, done)| && Marked(S, base, order))
      decreases S - Elements(done), 1
    {
      hide VisitAll, Visit, Payloads, Write, Split, Subtree, AreLinks;
      LinksAt(g, S, this);
      ghost var seen := Serialized(base);
      ghost var whole := done + Visit(g, this, seen + Elements(done));
      SplitChainStart(g, done, this, NonNull(children), NonNull([next]), seen);
      ghost var met := done + Subtree(g, this, NonNull(children), seen + Elements(done));
      ok, written := WriteBlockToStream(stream, content, S, g, base, tape, done);
      if !ok {
        WriteStops(g, whole, met, NonNull([next]), seen, content, tape);
        return;
      }
      assert this in S - Elements(done);
      var link := next;
      while link != null && !link.isSerialized
        invariant Split(g, whole, met, NonNull([link]), seen)
        invariant S - Elements(met) < S - Elements(done)
        invariant AllIn(g, NonNull([link]))
        invariant ok && |Payloads(content, met)| <= tape.room
        invariant TapeOf(stream) == Write(tape, Payloads(content, met))
        invariant written == |Payloads(content, met)| - |Payloads(content, done)|
        invariant Marked(S, base, met)
        decreases S - Elements(met)
      {
        assert NonNull([link]) == [link] && link in NonNull([link]);
        assert link in S - Elements(met);
        LinksAt(g, S, link);
        SplitSubtree(g, whole, met, link, NonNull(link.children), NonNull([link.next]), seen);
        ghost var more := Subtree(g, link, NonNull(link.children), seen + Elements(met));
        var n;
        ok, n := link.WriteBlockToStream(stream, content, S, g, base, tape, met);
        met := met + more;
        if !ok {
          WriteStops(g, whole, met, NonNull([link.next]), seen, content, tape);
          return;
        }
        written := written + n;
        link := link.next;
      }
      if link != null {
        assert NonNull([link]) == [link] + [] && link in NonNull([link]);
        SplitSkip(g, whole, met, link, [], seen);
      } else {
        assert NonNull([link]) == [];
      }
      SplitEnd(g, whole, met, seen);
    }

    /** Seeks back to the block's address and writes it again; `bytes` is what Serialize() gives now. */
    method RewriteToStream(stream: Stream, bytes: seq<byte>) returns (r: RewriteResult)
      requires stream.Valid()
      modifies stream
      ensures stream.Valid()
      ensures r.NeverWritten? <==> !isSerialized
      ensures r.NoSuchPosition? <==> isSerialized && |old(stream.data)| < address
      ensures r.Rewritten? || r.ShortWrite? ==>
        var room := old(stream.pos) + old(stream.room) - address;
        && 0 <= room && (r.ShortWrite? <==> room < |bytes|)
        && TapeOf(stream) == Write(Tape(old(stream.data), address, room), bytes)
      ensures r.Rewritten? ==> r.size == |bytes|
      ensures r.NeverWritten? || r.NoSuchPosition? ==> TapeOf(stream) == old(TapeOf(stream))
    {
      if !isSerialized { return NeverWritten; }
      var ok := stream.Seek(address);
      if !ok { return NoSuchPosition; }
      var written := stream.Put(bytes);
      assert bytes[..|bytes|] == bytes;
      r := if written == |bytes| then Rewritten(|bytes|) else ShortWrite;
    }

    method ResetBlock(ghost S: set<Block>, ghost g: Graph<Block>, ghost base: map<Block, (nat, bool)>, ghost done: seq<Block>)
      requires AreLinks(g, S) && Closed(g) && this in S
      requires Cleaned(S, base, done) && this !in Clean(base) + Elements(done)
      requires AllIn(g, NonNull(children))
      modifies S`address, S`isSerialized
      ensures Cleaned(S, base, done + Subtree(g, this, NonNull(children), Clean(base) + Elements(done)))
      decreases S - Elements(done), 0
    {
      hide VisitAll, Visit, SizeSum, Split, Subtree, AreLinks, NonNull;
      LinksAt(g, S, this);
      ghost var seen := Clean(base);
      ghost var whole := done + Subtree(g, this, NonNull(children), seen + Elements(done));
      SplitStart(g, done, this, NonNull(children), seen);
      address := 0;
      isSerialized := false;
      ghost var met := done + [this];
      assert this in S - Elements(done);
      for i := 0 to |children|
        invariant AreLinks(g, S)
        invariant Split(g, whole, met, NonNull(children[i..]), seen)
        invariant S - Elements(met) < S - Elements(done)
        invariant Cleaned(S, base, met)
      {
        var child := children[i];
        if child != null {
          ChildIsLinked(g, S, this, i);
          child.Reset(S, g, base, met);
        }
        if child == null || child in seen + Elements(met) {
          SplitPassChild(g, whole, met, children, i, seen);
        } else {
          SplitVisitChild(g, whole, met, children, i, child, seen);
          met := met + Visit<Block>(g, child, seen + Elements(met));
        }
      }
      NonNullAtEnd(children);
      SplitEnd(g, whole, met, seen);
    }

    method Reset(ghost S: set<Block>, ghost g: Graph<Block>, ghost base: map<Block, (nat, bool)>, ghost done: seq<Block>)
      requires AreLinks(g, S) && Closed(g) && this in S
      requires Cleaned(S, base, done)
      modifies S`address, S`isSerialized
      ensures this in Clean(base) + Elements(done) ==> Cleaned(S, base, done)
      ensures this !in Clean(base) + Elements(done) ==>
        Cleaned(S, base, done + Visit(g, this, Clean(base) + Elements(done)))
      decreases S - Elements(done), 1
    {
      hide VisitAll, Visit, SizeSum, Split, Subtree, AreLinks;
      if address == 0 && isSerialized == false {
        return;
      }
      LinksAt(g, S, this);
      ghost var seen := Clean(base);
      ghost var whole := done + Visit(g, this, seen + Elements(done));
      SplitChainStart(g, done, this, NonNull(children), NonNull([next]), seen);
      ResetBlock(S, g, base, done);
      ghost var met := done + Subtree(g, this, NonNull(children), seen + Elements(done));
      assert this in S - Elements(done);
      var link := next;
      while link != null && (link.address != 0 || link.isSerialized)
        invariant Split(g, whole, met, NonNull([link]), seen)
        invariant S - Elements(met) < S - Elements(done)
        invariant AllIn(g, NonNull([link]))
        invariant Cleaned(S, base, met)
        decreases S - Elements(met)
      {
        assert NonNull([link]) == [link] && link in NonNull([link]);
        assert link in S - Elements(met);
        LinksAt(g, S, link);
        SplitSubtree(g, whole, met, link, NonNull(link.children), NonNull([link.next]), seen);
        link.ResetBlock(S, g, base, met);
        met := met + Subtree(g, link, NonNull(link.children), seen + Elements(met));
        link := link.next;
      }
      if link != null {
        assert NonNull([link]) == [link] + [] && link in NonNull([link]);
        SplitSkip(g, whole, met, link, [], seen);
      } else {
        assert NonNull([link]) == [];
      }
      SplitEnd(g, whole, met, seen);
    }
  }
}
