/**
 Laying out and writing the header of an MDF file: Reset, ResolveAddress and WriteToStream in a row,
 as Mdf4File::WriteHeaderToStream does, and what holds of the file afterwards.
 */
module MdfHeader {
  import opened Bytes
  import opened DepthFirst
  import opened Listing
  import opened MdfBlocks

  /** Block `i` of the order starts in the file where its address says. */
  ghost predicate LandsAtAddress(content: Content, order: seq<Block>, i: nat)
    requires i < |order|
  {
    SizeSum(order[..i]) == |Payloads(content, order[..i])|
  }

  /** Every block that another one follows is as long in the file as its length field says. */
  ghost predicate SizesMatchButLast(content: Content, order: seq<Block>)
  {
    forall i :: 0 <= i < |order| - 1 ==> |content(order[i])| == order[i].blockSize
  }

  lemma EmptySums(content: Content, order: seq<Block>)
    requires order == []
    ensures SizeSum(order) == 0 && Payloads(content, order) == []
  {
  }

  lemma SumsStep(content: Content, order: seq<Block>, i: nat)
    requires i < |order|
    ensures SizeSum(order[..i + 1]) == SizeSum(order[..i]) + order[i].blockSize
    ensures Payloads(content, order[..i + 1]) == Payloads(content, order[..i]) + content(order[i])
  {
    assert order[..i + 1][..i] == order[..i];
  }

  lemma {:induction false} MatchingSizesLand(content: Content, order: seq<Block>, i: nat)
    requires i < |order| && SizesMatchButLast(content, order)
    ensures LandsAtAddress(content, order, i)
    decreases i
  {
    if i == 0 {
      assert order[..0] == [];
    } else {
      MatchingSizesLand(content, order, i - 1);
      SumsStep(content, order, i - 1);
    }
  }

  /** All blocks land at their addresses exactly when every block but the last is as long as its length field. */
  lemma LandingIffSizesMatch(content: Content, order: seq<Block>)
    ensures (forall i: nat :: i < |order| ==> LandsAtAddress(content, order, i)) <==> SizesMatchButLast(content, order)
  {
    if SizesMatchButLast(content, order) {
      forall i: nat | i < |order| ensures LandsAtAddress(content, order, i) {
        MatchingSizesLand(content, order, i);
      }
    }
    if forall i: nat :: i < |order| ==> LandsAtAddress(content, order, i) {
      forall i: nat | i < |order| - 1 ensures |content(order[i])| == order[i].blockSize {
        SumsStep(content, order, i);
        assert LandsAtAddress(content, order, i) && LandsAtAddress(content, order, i + 1);
      }
    }
  }

  /** Where the bytes of block `i` are in the concatenation. */
  lemma PayloadAt(content: Content, order: seq<Block>, i: nat)
    requires i < |order|
    ensures var from := |Payloads(content, order[..i])|;
      from + |content(order[i])| <= |Payloads(content, order)|
      && Payloads(content, order)[from..from + |content(order[i])|] == content(order[i])
  {
    SumsStep(content, order, i);
    assert order == order[..i + 1] + order[i + 1..];
    PayloadsAppend(content, order[..i + 1], order[i + 1..]);
  }

  /** The slice of the file that starts at the block's address. */
  ghost predicate HoldsAt(data: seq<byte>, at: nat, bytes: seq<byte>)
  {
    at + |bytes| <= |data| && data[at..at + |bytes|] == bytes
  }

  /**
   The file: its blocks tile it in the order given, and the bytes at each block's address are that
   block's bytes.
   */
  ghost predicate Tiled(data: seq<byte>, content: Content, order: seq<Block>, at: map<Block, nat>)
  {
    && (forall b :: b in order ==> b in at)
    && (forall i :: 0 <= i < |order| ==> HoldsAt(data, at[order[i]], content(order[i])))
    && (forall i, j :: 0 <= i < j < |order| && j == i + 1 ==> at[order[j]] == at[order[i]] + |content(order[i])|)
    && (order != [] ==> at[order[0]] == 0)
    && (order != [] ==> at[order[|order| - 1]] + |content(order[|order| - 1])| == |data|)
  }

  /** Each block's address is the size of the blocks before it. */
  ghost predicate InOrder(order: seq<Block>, at: map<Block, nat>)
  {
    forall i :: 0 <= i < |order| ==> order[i] in at && at[order[i]] == SizeSum(order[..i])
  }

  /** Blocks laid out from 0 and written in the same order tile the file. */
  lemma LaidOutAndWrittenTiles(content: Content, order: seq<Block>, at: map<Block, nat>)
    requires SizesMatchButLast(content, order)
    requires InOrder(order, at)
    ensures Tiled(Payloads(content, order), content, order, at)
  {
    hide Payloads, SizeSum;
    forall i | 0 <= i < |order|
      ensures HoldsAt(Payloads(content, order), at[order[i]], content(order[i]))
    {
      MatchingSizesLand(content, order, i);
      PayloadAt(content, order, i);
    }
    forall i, j | 0 <= i < j < |order| && j == i + 1
      ensures at[order[j]] == at[order[i]] + |content(order[i])|
    {
      SumsStep(content, order, i);
    }
    if order != [] {
      assert SizeSum(order[..0]) == 0 by { EmptySums(content, order[..0]); }
      var last := |order| - 1;
      MatchingSizesLand(content, order, last);
      SumsStep(content, order, last);
      assert order[..last + 1] == order;
    }
  }

  lemma {:induction false} TilesAreOrdered(data: seq<byte>, content: Content, order: seq<Block>, at: map<Block, nat>, i: nat, j: nat)
    requires Tiled(data, content, order, at) && i < j < |order|
    ensures at[order[i]] + |content(order[i])| <= at[order[j]]
    decreases j
  {
    if i + 1 < j {
      TilesAreOrdered(data, content, order, at, i, j - 1);
    }
    assert at[order[j]] == at[order[j - 1]] + |content(order[j - 1])|;
  }

  /** Writing a block again with as many bytes replaces that block and changes no other. */
  lemma RewriteKeepsOthers(data: seq<byte>, content: Content, order: seq<Block>, at: map<Block, nat>, k: nat, bytes: seq<byte>)
    requires Tiled(data, content, order, at) && k < |order| && |bytes| == |content(order[k])|
    requires Distinct(order)
    ensures at[order[k]] <= |data|
    ensures var after := Overlay(data, at[order[k]], bytes);
      |after| == |data|
      && HoldsAt(after, at[order[k]], bytes)
      && forall i :: 0 <= i < |order| && i != k ==> HoldsAt(after, at[order[i]], content(order[i]))
  {
    var after := Overlay(data, at[order[k]], bytes);
    assert HoldsAt(data, at[order[k]], content(order[k]));
    forall i | 0 <= i < |order| && i != k
      ensures HoldsAt(after, at[order[i]], content(order[i]))
    {
      assert HoldsAt(data, at[order[i]], content(order[i]));
      if i < k {
        TilesAreOrdered(data, content, order, at, i, k);
      } else {
        TilesAreOrdered(data, content, order, at, k, i);
      }
    }
  }

  /** After Reset no block that the traversals will meet carries a mark. */
  ghost predicate Cleanable(g: Graph<Block>, root: Block, clean: set<Block>)
    requires Closed(g) && root in g
  {
    forall b :: b in Visit(g, root, {}) ==>
      b in clean || (root !in clean && b in Visit(g, root, clean))
  }

  lemma {:induction false} PathIsUnmarked(g: Graph<Block>, p: seq<Block>, x: Block, y: Block, marked: set<Block>)
    requires Closed(g) && x in g && Path(g, p, x, y, {})
    requires forall b :: b in Visit(g, x, {}) ==> b !in marked
    ensures Path(g, p, x, y, marked)
  {
    forall i | 0 <= i < |p| ensures p[i] !in marked {
      assert Path(g, p[..i + 1], x, p[i], {});
      PathIsVisited(g, p[..i + 1], x, p[i], {});
    }
  }

  /** A graph that was written as a whole is cleaned as a whole, and so is one that was never touched. */
  lemma AllDirtyOrAllCleanIsCleanable(g: Graph<Block>, root: Block, clean: set<Block>)
    requires Closed(g) && root in g
    requires (forall b :: b in Visit(g, root, {}) ==> b in clean) || (forall b :: b in Visit(g, root, {}) ==> b !in clean)
    ensures Cleanable(g, root, clean)
  {
    if forall b :: b in Visit(g, root, {}) ==> b !in clean {
      forall b | b in Visit(g, root, {})
        ensures b in Visit(g, root, clean)
      {
        VisitedHasPath(g, root, b, {});
        var p :| Path(g, p, root, b, {});
        PathIsUnmarked(g, p, root, b, clean);
        PathIsVisited(g, p, root, b, clean);
      }
    }
  }

  lemma VisitedIffReached(g: Graph<Block>, root: Block, b: Block, clean: set<Block>)
    requires Closed(g) && root in g
    ensures root !in clean && b in Visit(g, root, clean) <==> b in g && Reaches(g, root, b, clean)
  {
    if root !in clean {
      VisitIsReachability(g, root, clean);
    }
  }

  /**
   Reset cleans everything a traversal will meet exactly when every dirty block that can be reached
   can be reached along dirty blocks alone.
   */
  lemma CleanableIff(g: Graph<Block>, root: Block, clean: set<Block>)
    requires Closed(g) && root in g
    ensures Cleanable(g, root, clean) <==>
      forall b :: b in g && Reaches(g, root, b, {}) && b !in clean ==> Reaches(g, root, b, clean)
  {
    hide Visit, Reaches;
    forall b ensures b in Visit(g, root, {}) <==> b in g && Reaches(g, root, b, {}) {
      VisitedIffReached(g, root, b, {});
    }
    forall b | b in g ensures root !in clean && b in Visit(g, root, clean) <==> Reaches(g, root, b, clean) {
      VisitedIffReached(g, root, b, clean);
    }
  }

  /** A clean block between two dirty ones keeps Reset from the second, when no other way leads there. */
  lemma ReusedBehindAddedIsNotCleanable(g: Graph<Block>, root: Block, added: Block, reused: Block)
    requires Closed(g) && root in g && g[root] == [added] && g[added] == [reused] && g[reused] == []
    requires root != added && root != reused && added != reused
    ensures Reaches(g, root, reused, {}) && !Cleanable(g, root, {added})
  {
    assert Path(g, [root, added, reused], root, reused, {});
    CleanableIff(g, root, {added});
    forall p ensures !Path(g, p, root, reused, {added}) {
      NoWayAround(g, root, added, reused, p);
    }
  }

  lemma NoWayAround(g: Graph<Block>, root: Block, added: Block, reused: Block, p: seq<Block>)
    requires root in g && g[root] == [added] && root != reused
    ensures !Path(g, p, root, reused, {added})
  {
    if |p| > 1 && p[0] == root && p[1] != added {
      assert p[0 + 1] !in g[p[0]];
    }
  }

  /**
   Reset on blocks in that state: `reused` keeps both marks. A conversion replaced by a new one that
   shares the text block of the old one is such a case, once addresses were given.
   */
  method ResetStopsAtCleanBlock(root: Block, added: Block, reused: Block, ghost g: Graph<Block>)
    requires root != added && root != reused && added != reused
    requires g == Links({root, added, reused}) && Closed(g)
    requires g[root] == [added] && g[added] == [reused] && g[reused] == []
    requires root.address != 0 && added.address == 0 && !added.isSerialized && reused.address != 0
    modifies {root, added, reused}`address, {root, added, reused}`isSerialized
    ensures root.address == 0 && !root.isSerialized
    ensures reused.address == old(reused.address) != 0 && reused.isSerialized == old(reused.isSerialized)
  {
    hide Visit, Links;
    ghost var S := {root, added, reused};
    ghost var base := States(S);
    ReusedBehindAddedIsNotCleanable(g, root, added, reused);
    assert Clean(base) == {added};
    StopsAtOnce(g, root, added);
    assert Clean(base) + Elements([]) == Clean(base);
    root.Reset(S, g, base, []);
  }

  lemma NothingCleaned(S: set<Block>, g: Graph<Block>, root: Block)
    requires Closed(g) && root in g
    ensures Cleaned(S, States(S), []) && Clean(States(S)) + Elements([]) == Clean(States(S))
    ensures root !in Clean(States(S)) ==> [] + Visit(g, root, Clean(States(S))) == Visit(g, root, Clean(States(S)))
  {
    hide Visit;
    assert Clean(States(S)) + Elements([]) == Clean(States(S));
  }

  /** What a call of Reset on `root` made of the marks is all clear exactly when the graph was cleanable. */
  lemma AllClearIffCleanable(S: set<Block>, base: map<Block, (nat, bool)>, g: Graph<Block>, root: Block)
    requires Closed(g) && g.Keys == S && root in S
    requires root in Clean(base) ==> Cleaned(S, base, [])
    requires root !in Clean(base) ==> Cleaned(S, base, Visit(g, root, Clean(base)))
    ensures (forall b :: b in Visit(g, root, {}) ==> b.address == 0 && !b.isSerialized) <==> Cleanable(g, root, Clean(base))
  {
    hide Visit;
    forall b | b in Visit(g, root, {})
      ensures b.address == 0 && !b.isSerialized <==> b in Clean(base) || (root !in Clean(base) && b in Visit(g, root, Clean(base)))
    {
      assert b in S;
    }
  }

  /**
   A call of Reset leaves every block below `root` without marks exactly when every dirty block that can
   be reached could be reached along dirty blocks alone.
   */
  method ResetCleansIff(root: Block, ghost S: set<Block>, ghost g: Graph<Block>)
    requires g == Links(S) && Closed(g) && root in S
    modifies S`address, S`isSerialized
    ensures (forall b :: b in Visit(g, root, {}) ==> b.address == 0 && !b.isSerialized) <==>
      forall b :: b in g && Reaches(g, root, b, {}) && b !in old(Clean(States(S))) ==> Reaches(g, root, b, old(Clean(States(S))))
  {
    hide Visit, Reaches, Links, Cleanable, Clean, Cleaned;
    ghost var base := States(S);
    CleanableIff(g, root, Clean(base));
    NothingCleaned(S, g, root);
    root.Reset(S, g, base, []);
    AllClearIffCleanable(S, base, g, root);
  }

  lemma StopsAtOnce(g: Graph<Block>, root: Block, added: Block)
    requires Closed(g) && root in g && g[root] == [added] && root != added
    ensures [] + Visit(g, root, {added}) == [root]
  {
    assert VisitAll(g, [added], {added} + {root}) == VisitAll(g, [], {added} + {root});
  }

  /** A block that had links leads to `x` in the edited graph. */
  ghost predicate IsLinkedOtherwise(g: Graph<Block>, edited: Graph<Block>, root: Block, x: Block)
    requires Closed(g) && root in g
  {
    exists c :: c in Visit(g, root, {}) && c in edited && g[c] != [] && x in edited[c]
  }

  /** The link from `b` to `x` is kept, or `x` has no links and is reached without it if it is reached. */
  ghost predicate IsKeptOrSpare(g: Graph<Block>, edited: Graph<Block>, root: Block, b: Block, x: Block)
    requires Closed(g) && Closed(edited) && root in g && root in edited && b in edited && x in g
  {
    x in edited[b] || (g[x] == [] && (x in Visit(edited, root, {}) ==> IsLinkedOtherwise(g, edited, root, x)))
  }

  /**
   An edit between two writes: from blocks that all had addresses, links are added to blocks without
   marks, and the only links taken away lead to blocks without links, which nothing reaches any more or
   another block that had links leads to as well.
   */
  ghost predicate IsEdit(g: Graph<Block>, edited: Graph<Block>, root: Block, clean: set<Block>)
    requires Closed(g) && Closed(edited) && root in g && root in edited
  {
    && (forall b :: b in Visit(g, root, {}) ==> b in edited && b !in clean)
    && (forall b :: b in Visit(edited, root, {}) && b !in clean ==> b in Visit(g, root, {}))
    && (forall b, x :: b in Visit(g, root, {}) && x in g[b] ==> IsKeptOrSpare(g, edited, root, b, x))
  }

  /** After such edits, appended channels and replaced comments for example, Reset still cleans everything. */
  lemma EditedIsCleanable(g: Graph<Block>, edited: Graph<Block>, root: Block, clean: set<Block>)
    requires Closed(g) && Closed(edited) && root in g && root in edited && IsEdit(g, edited, root, clean)
    ensures Cleanable(edited, root, clean)
  {
    hide Visit, IsEdit, IsLinkedOtherwise;
    RootIsMet(g, root);
    MetIsDirty(g, edited, root, clean, root);
    forall b | b in Visit(edited, root, {}) && b !in clean
      ensures root !in clean && b in Visit(edited, root, clean)
    {
      var p := WayAfterEdit(g, edited, root, clean, b);
      PathIsVisited(edited, p, root, b, clean);
    }
  }

  /** A way along dirty blocks to a block the edited header reaches: the old one, or over the other block that leads to it. */
  lemma WayAfterEdit(g: Graph<Block>, edited: Graph<Block>, root: Block, clean: set<Block>, b: Block) returns (p: seq<Block>)
    requires Closed(g) && Closed(edited) && root in g && root in edited && IsEdit(g, edited, root, clean)
    requires b in Visit(edited, root, {}) && b !in clean
    ensures Path(edited, p, root, b, clean)
  {
    hide Visit, IsEdit, IsLinkedOtherwise;
    ReachedWasMet(g, edited, root, clean, b);
    VisitedHasPath(g, root, b, {});
    p :| Path(g, p, root, b, {});
    if g[b] != [] {
      PathSurvivesEdit(g, edited, root, b, clean, p);
    } else if b == root {
      p := [root];
    } else {
      var c := p[|p| - 2];
      assert b in g[c] by { assert p[|p| - 2 + 1] in g[p[|p| - 2]]; }
      PathIsMet(g, root, b, p, |p| - 2);
      c := LinkedAfterEdit(g, edited, root, clean, c, b);
      VisitedHasPath(g, root, c, {});
      p :| Path(g, p, root, c, {});
      PathSurvivesEdit(g, edited, root, c, clean, p);
      p := p + [b];
    }
  }

  lemma RootIsMet(g: Graph<Block>, root: Block)
    requires Closed(g) && root in g
    ensures root in Visit(g, root, {})
  {
  }

  lemma ReachedWasMet(g: Graph<Block>, edited: Graph<Block>, root: Block, clean: set<Block>, b: Block)
    requires Closed(g) && Closed(edited) && root in g && root in edited && IsEdit(g, edited, root, clean)
    requires b in Visit(edited, root, {}) && b !in clean
    ensures b in Visit(g, root, {}) && b in edited
  {
    hide Visit;
  }

  /** Of the blocks that had links, one still leads to `x`. */
  lemma LinkedAfterEdit(g: Graph<Block>, edited: Graph<Block>, root: Block, clean: set<Block>, b: Block, x: Block) returns (c: Block)
    requires Closed(g) && Closed(edited) && root in g && root in edited && IsEdit(g, edited, root, clean)
    requires b in Visit(g, root, {}) && x in g[b] && x in Visit(edited, root, {})
    ensures c in Visit(g, root, {}) && c in edited && g[c] != [] && x in edited[c]
  {
    hide Visit;
    c := b;
    if x !in edited[b] {
      c :| c in Visit(g, root, {}) && c in edited && g[c] != [] && x in edited[c];
    }
  }

  lemma PathIsMet(g: Graph<Block>, root: Block, b: Block, p: seq<Block>, i: nat)
    requires Closed(g) && root in g && Path(g, p, root, b, {}) && i < |p|
    ensures p[i] in Visit(g, root, {})
  {
    hide Visit;
    assert Path(g, p[..i + 1], root, p[i], {});
    PathIsVisited(g, p[..i + 1], root, p[i], {});
  }

  /** A link to a block that had links stays. */
  lemma LinkSurvivesEdit(g: Graph<Block>, edited: Graph<Block>, root: Block, clean: set<Block>, b: Block, x: Block)
    requires Closed(g) && Closed(edited) && root in g && root in edited && IsEdit(g, edited, root, clean)
    requires b in Visit(g, root, {}) && x in g[b] && g[x] != []
    ensures b in edited && x in edited[b]
  {
    hide Visit, IsLinkedOtherwise;
    assert IsKeptOrSpare(g, edited, root, b, x);
  }

  lemma PathSurvivesEdit(g: Graph<Block>, edited: Graph<Block>, root: Block, b: Block, clean: set<Block>, p: seq<Block>)
    requires Closed(g) && Closed(edited) && root in g && root in edited && IsEdit(g, edited, root, clean)
    requires Path(g, p, root, b, {}) && g[b] != []
    ensures Path(edited, p, root, b, clean)
  {
    hide Visit, IsEdit;
    forall i | 0 <= i < |p| ensures p[i] in edited && p[i] !in clean {
      PathIsMet(g, root, b, p, i);
      MetIsDirty(g, edited, root, clean, p[i]);
    }
    forall i | 0 <= i < |p| - 1 ensures p[i + 1] in edited[p[i]] {
      PathIsMet(g, root, b, p, i);
      assert p[i + 1] in g[p[i]];
      if i + 1 < |p| - 1 {
        var j := i + 1;
        assert p[j + 1] in g[p[j]];
      }
      LinkSurvivesEdit(g, edited, root, clean, p[i], p[i + 1]);
    }
  }

  lemma MetIsDirty(g: Graph<Block>, edited: Graph<Block>, root: Block, clean: set<Block>, b: Block)
    requires Closed(g) && Closed(edited) && root in g && root in edited && IsEdit(g, edited, root, clean)
    requires b in Visit(g, root, {})
    ensures b in edited && b !in clean
  {
  }

  lemma {:induction false} OffsetIsPrefixSum(order: seq<Block>, i: nat)
    requires Distinct(order) && i < |order|
    ensures Offset(order, order[i]) == SizeSum(order[..i])
    decreases |order|
  {
    if i < |order| - 1 {
      var front := order[..|order| - 1];
      OffsetIsPrefixSum(front, i);
      assert front[..i] == order[..i];
    }
  }

  /**
   The data block ends where the file ends exactly when it is the last block: the check that
   WriteHeaderToStream makes before records are appended after it.
   */
  lemma EndsFileIffLast(data: seq<byte>, content: Content, order: seq<Block>, at: map<Block, nat>, k: nat)
    requires Tiled(data, content, order, at) && k < |order|
    requires forall b :: b in order ==> 0 < |content(b)|
    ensures at[order[k]] + |content(order[k])| == |data| <==> k == |order| - 1
  {
    if k < |order| - 1 {
      TilesAreOrdered(data, content, order, at, k, |order| - 1);
    }
  }

  lemma AddressAt(S: set<Block>, b: Block)
    requires b in S
    ensures b in Addresses(S) && Addresses(S)[b] == b.address
  {
  }

  lemma DataBlockEndsFileIff(data: seq<byte>, content: Content, order: seq<Block>, at: map<Block, nat>, block: Block)
    requires Tiled(data, content, order, at)
    ensures block in order && (forall b :: b in order ==> content(b) != []) ==>
      (at[block] + |content(block)| == |data| <==> block == order[|order| - 1])
  {
    hide Tiled;
    if block in order && (forall b :: b in order ==> content(b) != []) {
      var k :| 0 <= k < |order| && order[k] == block;
      EndsFileIffLast(data, content, order, at, k);
      EndsFileIffLast(data, content, order, at, |order| - 1);
    }
  }

  /** The order in which the header's blocks lie in the file: the id block, then everything below the header block. */
  ghost function FileOrder(g: Graph<Block>, id: Block, header: Block): (order: seq<Block>)
    requires Closed(g) && header in g && id in g
    ensures AllIn(g, order)
  {
    [id] + Visit(g, header, {})
  }

  /** What the links of a file's blocks are taken to be: nothing leads to the id block, and it leads nowhere. */
  ghost predicate FileGraph(g: Graph<Block>, id: Block, header: Block)
  {
    Closed(g) && header in g && id in g && g[id] == [] && id !in Visit(g, header, {}) && 0 < id.blockSize
  }

  lemma VisitLeaf(g: Graph<Block>, x: Block, seen: set<Block>)
    requires Closed(g) && x in g && g[x] == [] && x !in seen
    ensures Visit(g, x, seen) == [x]
  {
  }

  /** What the two Reset calls clean: the id block, then what the header block reaches outside the clean blocks. */
  lemma ResetOrders(g: Graph<Block>, id: Block, header: Block, clean: set<Block>)
    requires FileGraph(g, id, header)
    ensures id !in clean ==> [] + Visit(g, id, clean + Elements([])) == [id]
    ensures header != id
    ensures header !in clean ==> [] + Visit(g, header, clean + {id}) == Visit(g, header, clean)
  {
    assert clean + Elements([]) == clean;
    if header !in clean {
      var order := Visit(g, header, clean);
      forall b | b in order ensures b in Visit(g, header, {}) {
        VisitedHasPath(g, header, b, clean);
        var p :| Path(g, p, header, b, clean);
        assert Path(g, p, header, b, {});
        PathIsVisited(g, p, header, b, {});
      }
      VisitIgnoresOthers(g, header, clean, {id});
    }
  }

  lemma CleanableBesideId(g: Graph<Block>, id: Block, header: Block, clean: set<Block>)
    requires FileGraph(g, id, header) && Cleanable(g, header, clean)
    ensures Cleanable(g, header, clean + {id})
  {
    hide Visit;
    ResetOrders(g, id, header, clean);
  }

  lemma IdIsCleaned(S: set<Block>, base: map<Block, (nat, bool)>, id: Block)
    requires id in S && Cleaned(S, base, if id in Clean(base) then [] else [id])
    ensures Clean(States(S)) == Clean(base) + {id}
  {
  }

  lemma ClearStaysClear(S: set<Block>, base: map<Block, (nat, bool)>, b: Block)
    requires b in S && b in Clean(base)
    requires exists done :: Cleaned(S, base, done)
    ensures b.address == 0 && !b.isSerialized
  {
  }

  /** Marks on blocks outside the header's graph do not disturb a traversal of it. */
  lemma FreshOrder(g: Graph<Block>, header: Block, marked: set<Block>)
    requires Closed(g) && header in g
    requires forall b :: b in Visit(g, header, {}) ==> b !in marked
    ensures header !in marked && Visit(g, header, marked) == Visit(g, header, {})
    ensures [] + Visit(g, header, marked + Elements([])) == Visit(g, header, {})
  {
    VisitIgnoresOthers(g, header, {}, marked);
    assert {} + marked == marked && marked + Elements([]) == marked;
    assert [] + Visit(g, header, {}) == Visit(g, header, {});
  }

  /** The addresses below the header block, laid out after the id block, are those of the file order. */
  lemma FileAddresses(S: set<Block>, base: map<Block, nat>, g: Graph<Block>, id: Block, header: Block)
    requires FileGraph(g, id, header) && id in S && id.address == 0
    requires LaidOut(S, base, Visit(g, header, {}), id.blockSize)
    requires AllIn(g, Visit(g, header, {})) && g.Keys == S
    ensures InOrder(FileOrder(g, id, header), Addresses(S))
  {
    var below := Visit(g, header, {});
    var order := FileOrder(g, id, header);
    VisitOnce(g, header, {});
    forall i | 0 <= i < |order|
      ensures order[i].address == SizeSum(order[..i])
    {
      if i == 0 {
        assert order[..0] == [];
      } else {
        OffsetIsPrefixSum(below, i - 1);
        assert order[..i] == [id] + below[..i - 1] && order[i] in below;
        SizeSumAppend([id], below[..i - 1]);
        assert [id][..0] == [];
      }
    }
  }

  /**
   Once addresses are given, every block below the header block is dirty, written or not, so the next
   Reset cleans them all: a header can be written again, also after a write that failed half-way.
   */
  lemma ResolvedIsCleanable(S: set<Block>, g: Graph<Block>, id: Block, header: Block)
    requires FileGraph(g, id, header) && g.Keys == S
    requires InOrder(FileOrder(g, id, header), Addresses(S))
    ensures Cleanable(g, header, Clean(States(S)))
    ensures forall b :: b in Visit(g, header, {}) ==> b !in Clean(States(S))
  {
    var order := FileOrder(g, id, header);
    forall b | b in Visit(g, header, {}) ensures b !in Clean(States(S)) {
      assert b in order;
      var i :| 0 <= i < |order| && order[i] == b;
      assert i != 0;
      assert order[..i] == [id] + order[1..i];
      SizeSumAppend([id], order[1..i]);
      assert [id][..0] == [];
    }
    AllDirtyOrAllCleanIsCleanable(g, header, Clean(States(S)));
  }

  datatype HeaderResult = HeaderWritten(bytes: nat) | WriteFailed | DataBlockNotLast

  /** Mdf4File with the blocks its header consists of. */
  class Mdf4File {
    const idBlock: Block
    const headerBlock: Block
    const dataBlock: Block

    constructor (idBlock: Block, headerBlock: Block, dataBlock: Block)
      ensures this.idBlock == idBlock && this.headerBlock == headerBlock && this.dataBlock == dataBlock
    {
      this.idBlock, this.headerBlock, this.dataBlock := idBlock, headerBlock, dataBlock;
    }

    /** Clears both marks of every block of the file. */
    method ResetAll(ghost S: set<Block>, ghost g: Graph<Block>)
      requires AreLinks(g, S) && FileGraph(g, idBlock, headerBlock)
      requires Cleanable(g, headerBlock, Clean(States(S)))
      modifies S`address, S`isSerialized
      ensures forall b :: b in FileOrder(g, idBlock, headerBlock) ==> b.address == 0 && !b.isSerialized
    {
      hide VisitAll, Visit, Links, Cleanable, Clean, Cleaned;
      LinksAt(g, S, idBlock);
      ghost var base := States(S);
      CleanableBesideId(g, idBlock, headerBlock, Clean(base));
      NothingCleaned(S, g, idBlock);
      if idBlock !in Clean(base) { VisitLeaf(g, idBlock, Clean(base)); }
      idBlock.Reset(S, g, base, []);
      IdIsCleaned(S, base, idBlock);
      ghost var below := States(S);
      NothingCleaned(S, g, headerBlock);
      headerBlock.Reset(S, g, below, []);
      AllClearIffCleanable(S, below, g, headerBlock);
      ClearStaysClear(S, below, idBlock);
    }

    /** Gives every block of the file its address. */
    method ResolveAll(ghost S: set<Block>, ghost g: Graph<Block>)
      requires AreLinks(g, S) && FileGraph(g, idBlock, headerBlock)
      requires forall b :: b in FileOrder(g, idBlock, headerBlock) ==> b.address == 0
      requires SizeSum(FileOrder(g, idBlock, headerBlock)) < ADDRESS_LIMIT
      modifies S`address
      ensures InOrder(FileOrder(g, idBlock, headerBlock), Addresses(S))
    {
      hide VisitAll, Visit, SizeSum, Links;
      LinksAt(g, S, idBlock);
      ghost var below := Visit(g, headerBlock, {});
      ghost var base := Addresses(S);
      VisitLeaf(g, idBlock, Resolved(base) + Elements([]));
      IdThenBelow(idBlock, below);
      var end := idBlock.ResolveAddress(0, S, g, base, 0, []);
      OffsetOfAppended([], idBlock);
      ghost var after := Addresses(S);
      FreshOrder(g, headerBlock, Resolved(after));
      end := headerBlock.ResolveAddress(end, S, g, after, end, []);
      FileAddresses(S, after, g, idBlock, headerBlock);
    }

    /** Writes every block of the file, in the same order in which the addresses were given. */
    method WriteAll(stream: Stream, content: Content, ghost S: set<Block>, ghost g: Graph<Block>)
      returns (ok: bool, written: nat)
      requires AreLinks(g, S) && FileGraph(g, idBlock, headerBlock)
      requires forall b :: b in FileOrder(g, idBlock, headerBlock) ==> !b.isSerialized
      requires stream.data == [] && stream.pos == 0
      modifies S`isSerialized, stream
      ensures var order := FileOrder(g, idBlock, headerBlock);
        && ok == (|Payloads(content, order)| <= old(stream.room))
        && (ok ==> written == |Payloads(content, order)| && stream.data == Payloads(content, order))
        && (ok ==> stream.pos == |stream.data| && stream.room == old(stream.room) - |stream.data|)
        && (ok ==> forall b :: b in order ==> b.isSerialized)
    {
      hide VisitAll, Visit, Payloads, Write, Links;
      LinksAt(g, S, idBlock);
      ghost var order := FileOrder(g, idBlock, headerBlock);
      ghost var base := Marks(S);
      ghost var tape := TapeOf(stream);
      NothingWritten(content, tape);
      assert forall b :: b in order ==> b in S;
      VisitLeaf(g, idBlock, Serialized(base) + Elements([]));
      FreshOrder(g, headerBlock, Serialized(base) + Elements([idBlock]));
      PayloadsPrefix(content, order, [idBlock], Visit(g, headerBlock, {}));
      assert [] + [idBlock] == [idBlock] && AllIn(g, order);
      ok, written := idBlock.WriteToStream(stream, content, S, g, base, tape, []);
      if ok {
        var n;
        ok, n := headerBlock.WriteToStream(stream, content, S, g, base, tape, [idBlock]);
        written := written + n;
        if ok { WrittenToEmpty(tape, Payloads(content, order)); }
      }
    }

    /** Resets, resolves and writes the file's blocks, and checks that the data block ends the file. */
    method WriteHeaderToStream(stream: Stream, content: Content, ghost S: set<Block>, ghost g: Graph<Block>)
      returns (r: HeaderResult)
      requires AreLinks(g, S) && FileGraph(g, idBlock, headerBlock) && dataBlock in S
      requires Cleanable(g, headerBlock, Clean(States(S)))
      requires SizeSum(FileOrder(g, idBlock, headerBlock)) < ADDRESS_LIMIT
      requires stream.data == [] && stream.pos == 0
      modifies S`address, S`isSerialized, stream
      ensures var order := FileOrder(g, idBlock, headerBlock);
        && (r.WriteFailed? <==> old(stream.room) < |Payloads(content, order)|)
        && (r.HeaderWritten? <==> !r.WriteFailed? && dataBlock.address + |content(dataBlock)| == |stream.data|)
        && (r.HeaderWritten? ==> r.bytes == |stream.data|)
        && InOrder(order, Addresses(S))
        && (!r.WriteFailed? ==> stream.data == Payloads(content, order))
        && (!r.WriteFailed? ==> forall b :: b in order ==> b.isSerialized)
        && (!r.WriteFailed? && SizesMatchButLast(content, order) ==> Tiled(stream.data, content, order, Addresses(S)))
        && (!r.WriteFailed? ==> stream.Valid())
      ensures r.HeaderWritten? || r.DataBlockNotLast? ==>
        var order := FileOrder(g, idBlock, headerBlock);
        SizesMatchButLast(content, order) && dataBlock in order && (forall b :: b in order ==> content(b) != []) ==>
          (r.HeaderWritten? <==> dataBlock == order[|order| - 1])
      ensures Cleanable(g, headerBlock, Clean(States(S)))
      ensures forall b :: b in Visit(g, headerBlock, {}) ==> b !in Clean(States(S))
    {
      hide VisitAll, Visit, Links, Payloads, SizeSum, Tiled, FileOrder, InOrder, Addresses;
      LinksAt(g, S, headerBlock);
      ghost var order := FileOrder(g, idBlock, headerBlock);
      assert forall b :: b in order ==> b in S;
      ResetAll(S, g);
      ResolveAll(S, g);
      var ok, written := WriteAll(stream, content, S, g);
      ResolvedIsCleanable(S, g, idBlock, headerBlock);
      if !ok { return WriteFailed; }
      if SizesMatchButLast(content, order) {
        LaidOutAndWrittenTiles(content, order, Addresses(S));
        AddressAt(S, dataBlock);
        DataBlockEndsFileIff(stream.data, content, order, Addresses(S), dataBlock);
      }
      if written != dataBlock.address + |content(dataBlock)| { return DataBlockNotLast; }
      r := HeaderWritten(written);
    }
  }

  lemma OverlayInFront(data: seq<byte>, size: nat, at: nat, bytes: seq<byte>)
    requires at + |bytes| <= size <= |data|
    ensures |Overlay(data, at, bytes)| == |data|
    ensures Overlay(data, at, bytes)[..size] == Overlay(data[..size], at, bytes)
    ensures Overlay(data, at, bytes)[size..] == data[size..]
  {
  }

  /**
   Rewriting a block of a tiled header, also with records behind it: the block's bytes are the new ones,
   and no other block and no record changes. The write is never short.
   */
  method RewriteInHeader(stream: Stream, content: Content, ghost order: seq<Block>, ghost at: map<Block, nat>, ghost size: nat,
                         block: Block, bytes: seq<byte>) returns (r: RewriteResult)
    requires stream.Valid() && size <= |stream.data| && Tiled(stream.data[..size], content, order, at) && Distinct(order)
    requires block in order && block.address == at[block] && block.isSerialized && |bytes| == |content(block)|
    modifies stream
    ensures stream.Valid() && r == Rewritten(|bytes|)
    ensures |stream.data| == |old(stream.data)| && stream.data[size..] == old(stream.data[size..])
    ensures HoldsAt(stream.data[..size], at[block], bytes)
    ensures forall b :: b in order && b != block ==> HoldsAt(stream.data[..size], at[b], content(b))
  {
    hide Tiled, Distinct;
    ghost var k :| 0 <= k < |order| && order[k] == block;
    ghost var header := stream.data[..size];
    BlockIsInside(header, content, order, at, k);
    RewriteKeepsOthers(header, content, order, at, k, bytes);
    OverlayInFront(stream.data, size, at[block], bytes);
    r := block.RewriteToStream(stream, bytes);
  }

  lemma BlockIsInside(data: seq<byte>, content: Content, order: seq<Block>, at: map<Block, nat>, k: nat)
    requires Tiled(data, content, order, at) && k < |order|
    ensures order[k] in at && at[order[k]] + |content(order[k])| <= |data|
  {
    assert HoldsAt(data, at[order[k]], content(order[k]));
  }

  lemma NothingWritten(content: Content, tape: Tape)
    requires tape.data == [] && tape.pos == 0
    ensures Payloads(content, []) == [] && tape == Write(tape, [])
  {
  }

  lemma WrittenToEmpty(tape: Tape, bytes: seq<byte>)
    requires tape.data == [] && tape.pos == 0 && |bytes| <= tape.room
    ensures Write(tape, bytes) == Tape(bytes, |bytes|, tape.room - |bytes|)
  {
  }

  lemma IdThenBelow(id: Block, below: seq<Block>)
    ensures SizeSum([id] + below) == id.blockSize + SizeSum(below)
    ensures [] + [id] == [id] && SizeSum([]) == 0 && SizeSum([id]) == id.blockSize
    ensures forall xs: seq<Block> :: [] + xs == xs
  {
    SizeSumAppend([id], below);
    assert [id][..0] == [];
  }
}
