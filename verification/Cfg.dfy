/** The control-flow graph walk: a worklist search with a bound on the blocks, judged
    by reachability. */
module Cfg {
  import opened Words
  import opened InstrTable
  import opened Flow

  /** The graph that is walked. */
  function Edges(t: Table, img: Image, maxInsns: nat, a: u64): seq<u64> {
    Block(t, img, a, maxInsns).successors
  }

  predicate IsPath(t: Table, img: Image, maxInsns: nat, entry: u64, p: seq<u64>) {
    && p != [] && p[0] == entry
    && forall i :: 0 <= i < |p| - 1 ==> p[i + 1] in Edges(t, img, maxInsns, p[i])
  }

  ghost predicate Reachable(t: Table, img: Image, maxInsns: nat, entry: u64, a: u64) {
    exists p :: IsPath(t, img, maxInsns, entry, p) && p[|p| - 1] == a
  }

  function Starts(cfg: seq<BasicBlock>): set<u64> {
    set i | 0 <= i < |cfg| :: cfg[i].start
  }

  /** A block other than the first was found as a successor of an earlier one. */
  predicate FoundBefore(cfg: seq<BasicBlock>, i: nat)
    requires i < |cfg|
  {
    exists j :: 0 <= j < i && cfg[i].start in cfg[j].successors
  }

  /** The blocks are those of their starts, no two have the same start, and each was
      found from an earlier one; the entry is first. */
  predicate Discovered(t: Table, img: Image, maxInsns: nat, entry: u64, cfg: seq<BasicBlock>) {
    && (forall i :: 0 <= i < |cfg| ==> cfg[i] == Block(t, img, cfg[i].start, maxInsns))
    && (forall i, j :: 0 <= i < j < |cfg| ==> cfg[i].start != cfg[j].start)
    && (cfg != [] ==> cfg[0].start == entry)
    && (forall i :: 0 < i < |cfg| ==> FoundBefore(cfg, i))
  }

  /** No edge leaves the blocks. */
  predicate Closed(entry: u64, cfg: seq<BasicBlock>) {
    && entry in Starts(cfg)
    && forall i, a :: 0 <= i < |cfg| && a in cfg[i].successors ==> a in Starts(cfg)
  }

  lemma StartsOf(cfg: seq<BasicBlock>, b: BasicBlock)
    ensures Starts(cfg + [b]) == Starts(cfg) + {b.start}
  {
    var more := cfg + [b];
    assert more[|cfg|] == b;
    assert forall i :: 0 <= i < |cfg| ==> more[i] == cfg[i];
  }

  /** What is waiting was found from a block, or is the entry. */
  predicate Pending(entry: u64, cfg: seq<BasicBlock>, work: seq<u64>) {
    && (cfg == [] ==> forall a <- work :: a == entry)
    && (forall a <- work :: a == entry || exists j :: 0 <= j < |cfg| && a in cfg[j].successors)
    && (entry in Starts(cfg) || entry in work)
    && (forall i, a :: 0 <= i < |cfg| && a in cfg[i].successors ==> a in Starts(cfg) || a in work)
  }

  /** One more block. */
  lemma Extend(t: Table, img: Image, maxInsns: nat, entry: u64, cfg: seq<BasicBlock>, work: seq<u64>, a: u64)
    requires Discovered(t, img, maxInsns, entry, cfg) && Pending(entry, cfg, work + [a]) && a !in Starts(cfg)
    ensures Discovered(t, img, maxInsns, entry, cfg + [Block(t, img, a, maxInsns)])
  {
    hide Block;
    var b := Block(t, img, a, maxInsns);
    var more := cfg + [b];
    assert forall i :: 0 <= i < |cfg| ==> more[i] == cfg[i];
    assert a in work + [a] by {
      assert (work + [a])[|work|] == a;
    }
    forall i | 0 < i < |more|
      ensures FoundBefore(more, i)
    {
      if i < |cfg| {
        assert FoundBefore(cfg, i);
        var j :| 0 <= j < i && cfg[i].start in cfg[j].successors;
        assert more[i].start in more[j].successors;
      } else {
        assert cfg[0].start in Starts(cfg);
        var j :| 0 <= j < |cfg| && a in cfg[j].successors;
        assert more[i].start in more[j].successors;
      }
    }
  }

  lemma PendingAfter(entry: u64, cfg: seq<BasicBlock>, work: seq<u64>, a: u64, b: BasicBlock, next: seq<u64>)
    requires Pending(entry, cfg, work + [a]) && b.start == a
    requires forall x <- next :: x in work || x in b.successors
    requires forall x <- work :: x in next
    requires forall x <- b.successors :: x in next || x in Starts(cfg) || x == a
    ensures Pending(entry, cfg + [b], next)
  {
    var more := cfg + [b];
    StartsOf(cfg, b);
    assert more[|cfg|] == b && forall i :: 0 <= i < |cfg| ==> more[i] == cfg[i];
    forall x | x in next
      ensures x == entry || exists j :: 0 <= j < |more| && x in more[j].successors
    {
      if x in work && x != entry {
        assert x in work + [a];
        var j :| 0 <= j < |cfg| && x in cfg[j].successors;
        assert x in more[j].successors;
      }
    }
  }

  lemma StillPending(entry: u64, cfg: seq<BasicBlock>, work: seq<u64>, a: u64)
    requires Pending(entry, cfg, work + [a]) && a in Starts(cfg)
    ensures Pending(entry, cfg, work)
  {
    assert forall x <- work :: x in work + [a];
  }

  /** Walks the graph from `entry`. */
  method WalkCfg(om: OpcodeMap, img: Image, entry: u64, maxBlocks: nat, maxInsns: nat) returns (cfg: seq<BasicBlock>)
    requires om.Valid()
    ensures |cfg| <= maxBlocks && (maxBlocks > 0 ==> cfg != [])
    ensures Discovered(om.table, img, maxInsns, entry, cfg)
    ensures |cfg| < maxBlocks ==> Closed(entry, cfg)
  {
    hide Block;
    cfg := [];
    var worklist := [entry];
    var visited: set<u64> := {};
    while worklist != [] && |cfg| < maxBlocks
      invariant |cfg| <= maxBlocks && visited == Starts(cfg)
      invariant Discovered(om.table, img, maxInsns, entry, cfg) && Pending(entry, cfg, worklist)
      decreases maxBlocks - |cfg|, |worklist|
    {
      var addr, rest := worklist[|worklist| - 1], worklist[..|worklist| - 1];
      assert worklist == rest + [addr];
      worklist := rest;
      if addr in visited {
        StillPending(entry, cfg, rest, addr);
        continue;
      }
      visited := visited + {addr};
      var bb := WalkBasicBlock(om, img, addr, maxInsns);
      for k := 0 to |bb.successors|
        invariant forall x <- worklist :: x in rest || x in bb.successors
        invariant forall x <- rest :: x in worklist
        invariant forall j :: 0 <= j < k ==> bb.successors[j] in worklist || bb.successors[j] in visited
      {
        var succ := bb.successors[k];
        if succ !in visited { worklist := worklist + [succ]; }
      }
      StartsOf(cfg, bb);
      Extend(om.table, img, maxInsns, entry, cfg, rest, addr);
      PendingAfter(entry, cfg, rest, addr, bb, worklist);
      cfg := cfg + [bb];
    }
  }

  // ------------------------------------------------------------ reachability

  lemma {:induction false} PathTo(t: Table, img: Image, maxInsns: nat, entry: u64, cfg: seq<BasicBlock>, i: nat)
    returns (p: seq<u64>)
    requires Discovered(t, img, maxInsns, entry, cfg) && i < |cfg|
    ensures IsPath(t, img, maxInsns, entry, p) && p[|p| - 1] == cfg[i].start
    decreases i
  {
    if i == 0 {
      p := [entry];
    } else {
      assert FoundBefore(cfg, i);
      var j :| 0 <= j < i && cfg[i].start in cfg[j].successors;
      p := PathTo(t, img, maxInsns, entry, cfg, j);
      p := p + [cfg[i].start];
    }
  }

  lemma {:induction false} PathStaysInside(t: Table, img: Image, maxInsns: nat, entry: u64, cfg: seq<BasicBlock>,
                                           p: seq<u64>)
    requires Discovered(t, img, maxInsns, entry, cfg) && Closed(entry, cfg) && IsPath(t, img, maxInsns, entry, p)
    ensures p[|p| - 1] in Starts(cfg)
  {
    hide Block;
    if |p| > 1 {
      var q, a := p[..|p| - 1], p[|p| - 2];
      PathStaysInside(t, img, maxInsns, entry, cfg, q);
      var i :| 0 <= i < |cfg| && cfg[i].start == a;
      assert cfg[i].successors == Edges(t, img, maxInsns, a);
    }
  }

  /** Every block returned is reachable; if fewer than the limit came back, they are
      exactly the reachable ones. */
  lemma ExactReachability(t: Table, img: Image, maxInsns: nat, entry: u64, cfg: seq<BasicBlock>, a: u64)
    requires Discovered(t, img, maxInsns, entry, cfg)
    ensures a in Starts(cfg) ==> Reachable(t, img, maxInsns, entry, a)
    ensures Closed(entry, cfg) ==> (a in Starts(cfg) <==> Reachable(t, img, maxInsns, entry, a))
  {
    if a in Starts(cfg) {
      var i :| 0 <= i < |cfg| && cfg[i].start == a;
      var p := PathTo(t, img, maxInsns, entry, cfg, i);
    } else if Closed(entry, cfg) && Reachable(t, img, maxInsns, entry, a) {
      var p :| IsPath(t, img, maxInsns, entry, p) && p[|p| - 1] == a;
      PathStaysInside(t, img, maxInsns, entry, cfg, p);
    }
  }

  lemma {:induction false} StartsCount(cfg: seq<BasicBlock>)
    requires forall i, j :: 0 <= i < j < |cfg| ==> cfg[i].start != cfg[j].start
    ensures |Starts(cfg)| == |cfg|
  {
    if cfg != [] {
      var front, b := cfg[..|cfg| - 1], cfg[|cfg| - 1];
      StartsCount(front);
      assert cfg == front + [b];
      StartsOf(front, b);
      assert b.start !in Starts(front);
    }
  }

  lemma {:induction false} SubsetSize(a: set<u64>, b: set<u64>)
    requires a <= b
    ensures |a| <= |b| && (|a| == |b| ==> a == b)
  {
    if a != {} {
      var x :| x in a;
      SubsetSize(a - {x}, b - {x});
    }
  }

  /** The walk finds the whole graph if and only if the limit admits it. */
  lemma CompleteIff(t: Table, img: Image, maxBlocks: nat, maxInsns: nat, entry: u64, cfg: seq<BasicBlock>,
                    all: set<u64>)
    requires |cfg| <= maxBlocks && Discovered(t, img, maxInsns, entry, cfg)
             && (|cfg| < maxBlocks ==> Closed(entry, cfg))
    requires forall a: u64 :: a in all <==> Reachable(t, img, maxInsns, entry, a)
    ensures Starts(cfg) == all <==> |all| <= maxBlocks
  {
    StartsCount(cfg);
    forall a: u64
      ensures a in Starts(cfg) ==> a in all
      ensures Closed(entry, cfg) ==> (a in Starts(cfg) <==> a in all)
    {
      ExactReachability(t, img, maxInsns, entry, cfg, a);
    }
    SubsetSize(Starts(cfg), all);
  }
}
