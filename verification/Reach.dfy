/** Breadth-first search over the call graph, experiments/cl4-ctor-ordering/reach.py. */
module Reach {
  import opened Wrappers

  const VMBASE := 0xc000_0000
  const TEXT_LO := 0xc000_1200
  const TEXT_HI := 0xc04e_a8e8
  const MAX_INSNS := 6000

  /** What the disassembler says about one word; targets are those of immediate branches. */
  datatype Insn = Return | Call(target: int) | Jump(target: int) | Other | Undecodable

  /** The text under analysis. */
  datatype Image = Image(size: nat, insn: int -> Insn)

  predicate InText(t: int) { TEXT_LO <= t < TEXT_HI }

  function Clip(t: int): (r: seq<int>) { if InText(t) then [t] else [] }

  /** The callees found from va on, after n instructions of the function at `entry`. */
  function CalleesFrom(im: Image, entry: int, va: int, n: nat): seq<int>
    requires n <= MAX_INSNS
    decreases MAX_INSNS - n
  {
    if n == MAX_INSNS || !(VMBASE <= va < VMBASE + im.size - 4) then []
    else match im.insn(va)
      case Undecodable => []
      case Return => []
      case Call(t) => Clip(t) + CalleesFrom(im, entry, va + 4, n + 1)
      case Jump(t) => if t < entry || t > va then Clip(t) else CalleesFrom(im, entry, va + 4, n + 1)
      case Other => CalleesFrom(im, entry, va + 4, n + 1)
  }

  function Callees(im: Image, entry: int): seq<int> { CalleesFrom(im, entry, entry, 0) }

  lemma {:induction false} CalleesInText(im: Image, entry: int, va: int, n: nat)
    requires n <= MAX_INSNS
    ensures forall t :: t in CalleesFrom(im, entry, va, n) ==> InText(t)
    decreases MAX_INSNS - n
  {
    if n < MAX_INSNS {
      CalleesInText(im, entry, va + 4, n + 1);
    }
  }

  predicate InImage(im: Image, va: int) { 0xc000_0000 <= va < 0xc000_0000 + im.size - 4 }

  /** The scan of the function at entry goes on behind its instruction i. */
  predicate Continues(im: Image, entry: int, i: nat) {
    var va := entry + 4 * i;
    InImage(im, va)
      && (im.insn(va).Call? || im.insn(va).Other? || (im.insn(va).Jump? && entry <= im.insn(va).target <= va))
  }

  predicate Passes(im: Image, entry: int, n: nat) {
    forall i :: 0 <= i < n ==> Continues(im, entry, i)
  }

  /** Instruction k calls t or leaves the function for t. */
  predicate Leads(im: Image, entry: int, k: nat, t: int) {
    var va := entry + 4 * k;
    InImage(im, va) && (im.insn(va) == Call(t) || (im.insn(va) == Jump(t) && !(entry <= t <= va)))
  }

  /** The scan reaches such an instruction. */
  predicate Exits(im: Image, entry: int, k: nat, t: int) {
    k < MAX_INSNS && Passes(im, entry, k) && Leads(im, entry, k, t)
  }

  /** An instruction behind which the scan goes on. */
  lemma ScanGoesOn(im: Image, entry: int, va: int, n: nat)
    requires n < MAX_INSNS && InImage(im, va)
    ensures var i := im.insn(va);
      (i.Call? ==> CalleesFrom(im, entry, va, n) == Clip(i.target) + CalleesFrom(im, entry, va + 4, n + 1))
      && (i.Other? || (i.Jump? && entry <= i.target <= va) ==>
            CalleesFrom(im, entry, va, n) == CalleesFrom(im, entry, va + 4, n + 1))
  {
    hide Clip;
  }

  /** An instruction or a limit at which it ends. */
  lemma ScanEnds(im: Image, entry: int, va: int, n: nat)
    requires n <= MAX_INSNS
    ensures n == MAX_INSNS || !InImage(im, va) ==> CalleesFrom(im, entry, va, n) == []
    ensures n < MAX_INSNS && InImage(im, va) ==>
      var i := im.insn(va);
      (i.Return? || i.Undecodable? ==> CalleesFrom(im, entry, va, n) == [])
      && (i.Jump? && !(entry <= i.target <= va) ==> CalleesFrom(im, entry, va, n) == Clip(i.target))
  {
    hide Clip;
  }

  /** One step of the scan. */
  lemma CalleesStep(im: Image, entry: int, n: nat, t: int)
    requires n < MAX_INSNS
    ensures t in CalleesFrom(im, entry, entry + 4 * n, n) <==>
      || (InText(t) && Leads(im, entry, n, t))
      || (Continues(im, entry, n) && t in CalleesFrom(im, entry, entry + 4 * (n + 1), n + 1))
  {
    hide InText;
    assert entry + 4 * n + 4 == entry + 4 * (n + 1);
  }

  lemma {:induction false} CalleesFromExactly(im: Image, entry: int, n: nat, t: int)
    requires n <= MAX_INSNS && Passes(im, entry, n)
    ensures t in CalleesFrom(im, entry, entry + 4 * n, n)
      <==> InText(t) && exists k: nat :: n <= k && Exits(im, entry, k, t)
    decreases MAX_INSNS - n
  {
    hide InText, Leads, Continues;
    if n < MAX_INSNS {
      CalleesStep(im, entry, n, t);
      hide CalleesFrom;
      if Continues(im, entry, n) {
        CalleesFromExactly(im, entry, n + 1, t);
      }
      assert Leads(im, entry, n, t) ==> Exits(im, entry, n, t);
    }
  }

  /** The callees are exactly the text addresses the scanned stretch calls or tail-calls. */
  lemma CalleesExactly(im: Image, entry: int, t: int)
    ensures t in Callees(im, entry)
      <==> 0xc000_1200 <= t < 0xc04e_a8e8 && exists k: nat :: k < 6000 && Passes(im, entry, k) && Leads(im, entry, k, t)
  {
    assert Passes(im, entry, 0);
    hide Leads, Passes;
    CalleesFromExactly(im, entry, 0, t);
    assert forall k: nat :: Exits(im, entry, k, t) <==> k < 6000 && Passes(im, entry, k) && Leads(im, entry, k, t);
  }

  lemma TargetsInText(im: Image, entry: int)
    ensures forall t :: t in Callees(im, entry) ==> InText(t)
  {
    hide InText;
    CalleesInText(im, entry, entry, 0);
  }

  // ---- the order of discovery ----

  /** found, and behind it the members of cs that are new. */
  function Discover(found: seq<int>, cs: seq<int>): (r: seq<int>)
    ensures found <= r
  {
    if cs == [] then found
    else
      var g := Discover(found, cs[..|cs| - 1]);
      if cs[|cs| - 1] in g then g else g + [cs[|cs| - 1]]
  }

  /** The nodes known after n expansions, oldest first: expansion i is that of the i-th known node. */
  function KnownAfter(im: Image, start: int, n: nat): (r: seq<int>)
    ensures r != []
  {
    if n == 0 then [start]
    else
      var f := KnownAfter(im, start, n - 1);
      if n - 1 < |f| then Discover(f, Callees(im, f[n - 1])) else f
  }

  /** The search ends after n expansions: nothing is left to expand or more than maxnodes nodes are known, and neither
      was so before. */
  ghost predicate EndsAfter(im: Image, start: int, maxnodes: nat, n: nat) {
    && 0 < n <= |KnownAfter(im, start, n)|
    && (n == |KnownAfter(im, start, n)| || |KnownAfter(im, start, n)| > maxnodes)
    && forall m :: 0 < m < n ==> m < |KnownAfter(im, start, m)| <= maxnodes
  }

  ghost predicate Distinct(s: seq<int>) { forall i, j :: 0 <= i < j < |s| ==> s[i] != s[j] }

  lemma {:induction false} DistinctSize(s: seq<int>, m: set<int>)
    requires Distinct(s) && forall x :: x in m <==> x in s
    ensures |m| == |s|
    decreases |s|
  {
    if s == [] {
      assert forall x :: x !in m;
      assert m == {};
    } else {
      var x := s[|s| - 1];
      DistinctSize(s[..|s| - 1], m - {x});
    }
  }

  lemma DiscoverOne(found: seq<int>, cs: seq<int>, k: nat)
    requires k < |cs|
    ensures var g := Discover(found, cs[..k]);
      Discover(found, cs[..k + 1]) == if cs[k] in g then g else g + [cs[k]]
  {
    assert cs[..k + 1][..k] == cs[..k];
  }

  // ---- paths ----

  ghost predicate IsPath(im: Image, p: seq<int>, start: int, t: int) {
    && p != [] && p[0] == start && p[|p| - 1] == t
    && forall i :: 0 <= i < |p| - 1 ==> p[i + 1] in Callees(im, p[i])
  }

  ghost predicate IsShortest(im: Image, p: seq<int>, start: int, t: int) {
    IsPath(im, p, start, t) && forall p' :: IsPath(im, p', start, t) ==> |p| <= |p'|
  }

  /** Nodes that a search from start can meet: a finite set. */
  ghost function Universe(start: int): set<int> {
    {start} + set t {:trigger InText(t)} | TEXT_LO <= t < TEXT_HI && InText(t)
  }

  // ---- what the search knows ----

  type Parents = map<int, Option<int>>

  /** dist is the depth of the known nodes in the tree of parents. */
  ghost predicate Tree(im: Image, start: int, parent: Parents, dist: int -> nat) {
    && start in parent && parent[start] == None && dist(start) == 0
    && forall x :: x in parent && x != start ==>
         && InText(x) && parent[x].Some? && parent[x].value in parent
         && x in Callees(im, parent[x].value) && dist(x) == dist(parent[x].value) + 1
  }

  /** The callees of done nodes are known. */
  ghost predicate Closed(im: Image, parent: Parents, dist: int -> nat, done: set<int>) {
    forall x, y :: x in done && y in Callees(im, x) ==> y in parent && dist(y) <= dist(x) + 1
  }

  /** The queue holds the known nodes that are not done, once each. */
  ghost predicate Members(parent: Parents, done: set<int>, q: seq<int>) {
    && (forall x :: x in parent <==> x in done || x in q)
    && (forall i :: 0 <= i < |q| ==> q[i] !in done)
    && (forall i, j :: 0 <= i < j < |q| ==> q[i] != q[j])
  }

  /** The queue is sorted by depth, holds depths d and d + 1 only, and done nodes are not deeper than d. */
  ghost predicate Levels(dist: int -> nat, done: set<int>, q: seq<int>, d: nat) {
    && (forall i :: 0 <= i < |q| ==> d <= dist(q[i]) <= d + 1)
    && (forall i, j :: 0 <= i <= j < |q| ==> dist(q[i]) <= dist(q[j]))
    && (forall x :: x in done ==> dist(x) <= d)
  }

  ghost predicate Search(im: Image, start: int, parent: Parents, dist: int -> nat, done: set<int>, q: seq<int>,
                         d: nat) {
    && Tree(im, start, parent, dist) && Closed(im, parent, dist, done)
    && Members(parent, done, q) && Levels(dist, done, q, d)
  }

  /** A node at most d steps away is known at its true depth. */
  lemma {:induction false} NearKnown(im: Image, start: int, parent: Parents, dist: int -> nat,
                                     done: set<int>, q: seq<int>, d: nat, p: seq<int>, t: int)
    requires Search(im, start, parent, dist, done, q, d)
    requires IsPath(im, p, start, t) && (q == [] || |p| - 1 <= d)
    ensures t in parent && dist(t) <= |p| - 1
    decreases |p|
  {
    hide Callees, Levels, Closed, Members;
    if |p| > 1 {
      var p', u := p[..|p| - 1], p[|p| - 2];
      assert IsPath(im, p', start, u);
      NearKnown(im, start, parent, dist, done, q, d, p', u);
      assert t in Callees(im, u);
      NearStep(im, parent, dist, done, q, d, u, t);
    }
  }

  lemma NearStep(im: Image, parent: Parents, dist: int -> nat, done: set<int>, q: seq<int>, d: nat, u: int, t: int)
    requires Closed(im, parent, dist, done) && Members(parent, done, q) && Levels(dist, done, q, d)
    requires u in parent && (q == [] || dist(u) < d) && t in Callees(im, u)
    ensures t in parent && dist(t) <= dist(u) + 1
  {
    hide Callees;
  }

  lemma DepthBound(parent: Parents, dist: int -> nat, done: set<int>, q: seq<int>, d: nat, t: int)
    requires Members(parent, done, q) && Levels(dist, done, q, d) && t in parent
    ensures dist(t) <= d + 1
  {
  }

  /** The depth of a known node is the length of a shortest path. */
  lemma DepthIsDistance(im: Image, start: int, parent: Parents, dist: int -> nat,
                        done: set<int>, q: seq<int>, d: nat, p: seq<int>, t: int)
    requires Search(im, start, parent, dist, done, q, d)
    requires t in parent && IsPath(im, p, start, t)
    ensures dist(t) <= |p| - 1
  {
    hide Callees, IsPath, Tree, Closed, Members, Levels;
    DepthBound(parent, dist, done, q, d, t);
    if q == [] || |p| - 1 <= d {
      NearKnown(im, start, parent, dist, done, q, d, p, t);
    }
  }

  function Deeper(dist: int -> nat, c: int, n: nat): int -> nat {
    x => if x == c then n else dist(x)
  }

  lemma Begin(im: Image, start: int)
    ensures Search(im, start, map[start := None], AllZero(), {}, [start], 0)
  {
    hide Callees;
    var parent: Parents := map[start := None];
    assert Tree(im, start, parent, AllZero());
    assert Closed(im, parent, AllZero(), {});
    assert Members(parent, {}, [start]);
    assert Levels(AllZero(), {}, [start], 0);
  }

  function AllZero(): int -> nat { x => 0 }

  /** Taking the front of the queue moves the level up to its depth. */
  lemma Dequeue(parent: Parents, dist: int -> nat, done: set<int>, q: seq<int>, d: nat)
    requires Members(parent, done, q) && Levels(dist, done, q, d) && q != []
    ensures q[0] in parent && q[0] !in done
    ensures Members(parent, done + {q[0]}, q[1..]) && Levels(dist, done + {q[0]}, q[1..], dist(q[0]))
  {
    assert q == [q[0]] + q[1..];
  }

  lemma DiscoverTree(im: Image, start: int, parent: Parents, dist: int -> nat, f: int, c: int)
    requires Tree(im, start, parent, dist) && f in parent && c !in parent && c in Callees(im, f) && InText(c)
    ensures Tree(im, start, parent[c := Some(f)], Deeper(dist, c, dist(f) + 1))
  {
    hide Callees, InText;
  }

  lemma DiscoverClosed(im: Image, parent: Parents, dist: int -> nat, done: set<int>, f: int, c: int, n: nat)
    requires Closed(im, parent, dist, done) && c !in parent && forall x :: x in done ==> x in parent
    ensures Closed(im, parent[c := Some(f)], Deeper(dist, c, n), done)
  {
    hide Callees;
  }

  lemma DiscoverQueue(parent: Parents, dist: int -> nat, done: set<int>, q: seq<int>, f: int, c: int)
    requires Members(parent, done, q) && Levels(dist, done, q, dist(f)) && f in parent && c !in parent
    ensures Members(parent[c := Some(f)], done, q + [c])
    ensures Levels(Deeper(dist, c, dist(f) + 1), done, q + [c], dist(f))
  {
    assert forall i :: 0 <= i < |q| ==> q[i] in q;
  }

  lemma NowClosed(im: Image, parent: Parents, dist: int -> nat, done: set<int>, f: int, cs: seq<int>)
    requires Closed(im, parent, dist, done) && cs == Callees(im, f)
    requires forall i :: 0 <= i < |cs| ==> cs[i] in parent && dist(cs[i]) <= dist(f) + 1
    ensures Closed(im, parent, dist, done + {f})
  {
    hide Callees;
  }

  // ---- the search ----

  class CallGraph {
    const im: Image
    var cache: map<int, seq<int>>

    ghost predicate Valid()
      reads this
    {
      forall e :: e in cache ==> cache[e] == Callees(im, e)
    }

    constructor (im: Image)
      ensures Valid() && this.im == im
    {
      this.im := im;
      cache := map[];
    }

    method GetCallees(entry: int) returns (outs: seq<int>)
      requires Valid()
      modifies this
      ensures Valid() && outs == Callees(im, entry)
    {
      if entry in cache {
        return cache[entry];
      }
      outs := Scan(entry);
      cache := cache[entry := outs];
    }

    /** Linear scan of one function. */
    method Scan(entry: int) returns (outs: seq<int>)
      ensures outs == Callees(im, entry)
    {
      hide InText, CalleesFrom;
      outs := [];
      var off, n := entry - VMBASE, 0;
      while n < MAX_INSNS && 0 <= off < im.size - 4
        invariant 0 <= n <= MAX_INSNS && off == entry - VMBASE + 4 * n
        invariant outs + CalleesFrom(im, entry, VMBASE + off, n) == Callees(im, entry)
        decreases MAX_INSNS - n
      {
        var va := VMBASE + off;
        var i := im.insn(va);
        ScanGoesOn(im, entry, va, n);
        ScanEnds(im, entry, va, n);
        if i == Undecodable || i == Return {
          break;
        }
        if i.Call? {
          if InText(i.target) {
            outs := outs + [i.target];
          }
        } else if i.Jump? && (i.target < entry || i.target > va) {
          if InText(i.target) {
            outs := outs + [i.target];
          }
          break;
        }
        off := off + 4;
        n := n + 1;
      }
      ScanEnds(im, entry, VMBASE + off, n);
    }

    /** The path from the root to t, by parents. */
    method PathTo(ghost start: int, parent: Parents, ghost dist: int -> nat, t: int) returns (p: seq<int>)
      requires Tree(im, start, parent, dist) && t in parent
      ensures IsPath(im, p, start, t) && |p| == dist(t) + 1
    {
      hide Callees, InText;
      p := [t];
      var x := t;
      while parent[x].Some?
        invariant x in parent && p != [] && p[0] == x && |p| + dist(x) == dist(t) + 1 && p[|p| - 1] == t
        invariant forall i :: 0 <= i < |p| - 1 ==> p[i + 1] in Callees(im, p[i])
        decreases dist(x)
      {
        x := parent[x].value;
        p := [x] + p;
      }
    }

    /** The inner loop: the callees of f that are new become known, one level deeper than f. */
    method Expand(ghost start: int, f: int, cs: seq<int>, parent: Parents, q: seq<int>, ghost dist: int -> nat,
                  ghost done: set<int>, ghost base: seq<int>)
      returns (parent': Parents, q': seq<int>, ghost dist': int -> nat)
      requires cs == Callees(im, f) && f in parent && f !in done
      requires Tree(im, start, parent, dist) && Closed(im, parent, dist, done)
      requires Members(parent, done + {f}, q) && Levels(dist, done + {f}, q, dist(f))
      requires Lists(parent, base + q)
      ensures Search(im, start, parent', dist', done + {f}, q', dist'(f))
      ensures base + q' == Discover(base + q, cs) && Lists(parent', base + q')
    {
      hide Callees, Tree, Closed, Members, Levels, Lists, Discover;
      ghost var done' := done + {f};
      parent', q', dist' := parent, q, dist;
      DiscoverNone(base + q, cs);
      for k := 0 to |cs|
        invariant Tree(im, start, parent', dist') && Closed(im, parent', dist', done)
        invariant Members(parent', done', q') && Levels(dist', done', q', dist'(f))
        invariant f in parent' && dist'(f) == dist(f)
        invariant base + q' == Discover(base + q, cs[..k]) && Lists(parent', base + q')
        invariant forall i :: 0 <= i < k ==> cs[i] in parent' && dist'(cs[i]) <= dist(f) + 1
      {
        var c := cs[k];
        TargetsInText(im, f);
        assert c in Callees(im, f);
        KnownDepth(im, parent', dist', done', q', f, c);
        DiscoverOne(base + q, cs, k);
        ListOne(parent', base + q', c, f);
        assert base + (q' + [c]) == base + q' + [c];
        if c !in parent' {
          DoneKnown(parent', done', q');
          assert forall x :: x in done ==> x in done';
          DiscoverTree(im, start, parent', dist', f, c);
          DiscoverClosed(im, parent', dist', done, f, c, dist'(f) + 1);
          DiscoverQueue(parent', dist', done', q', f, c);
          parent' := parent'[c := Some(f)];
          q' := q' + [c];
          dist' := Deeper(dist', c, dist'(f) + 1);
        }
      }
      NowClosed(im, parent', dist', done, f, cs);
      assert cs[..|cs|] == cs;
    }

    /** For every target a shortest call path, or None; n is the number of nodes expanded,
        nearest first. What is known at the end is reachable, at most as far away as anything
        that is not, and without the cut it is all there is. */
    method Reachable(start: int, targets: seq<int>, maxnodes: nat)
      returns (res: map<int, Option<seq<int>>>, known: nat, ghost n: nat)
      requires Valid()
      modifies this
      ensures Valid()
      ensures res.Keys == set t | t in targets
      ensures forall t :: t in res && res[t].Some? ==> IsShortest(im, res[t].value, start, t)
      ensures EndsAfter(im, start, maxnodes, n)
      ensures known == |KnownAfter(im, start, n)| && Distinct(KnownAfter(im, start, n))
      ensures forall t :: t in res ==> (res[t].Some? <==> t in KnownAfter(im, start, n))
      ensures forall x :: x in KnownAfter(im, start, n) ==> exists p :: IsPath(im, p, start, x)
      ensures var found := KnownAfter(im, start, n);
        forall t, p, x :: IsPath(im, p, start, t) && t !in found && x in found ==>
          exists p' :: IsPath(im, p', start, x) && |p'| <= |p|
      ensures known <= maxnodes ==> forall t, p :: IsPath(im, p, start, t) ==> t in KnownAfter(im, start, n)
    {
      hide Callees, Tree, Closed, Members, Levels, Universe, IsPath, Lists, KnownAfter, Discover, Search, EndsAfter,
           Distinct, OnTheWay, IsShortest;
      var parent: Parents := map[start := None];
      var q := [start];
      ghost var dist := AllZero();
      ghost var done: set<int> := {};
      ghost var d := 0;
      ghost var found := [start];
      n := 0;
      Begin(im, start);
      BeginList(im, start, maxnodes);
      while q != []
        invariant Valid()
        invariant Search(im, start, parent, dist, done, q, d)
        invariant n <= |found| && q == found[n..] && found == KnownAfter(im, start, n) && Lists(parent, found)
        invariant OnTheWay(im, start, maxnodes, n) && (n > 0 ==> |found| <= maxnodes) && (q == [] ==> n > 0)
        decreases Universe(start) - done
      {
        var f := q[0];
        Front(im, start, parent, dist, done, q, d);
        var cs := GetCallees(f);
        ghost var base := found[..n + 1];
        assert base + q[1..] == found && f == found[n];
        KnownOneMore(im, start, n);
        OneMoreExpansion(im, start, maxnodes, n);
        parent, q, dist := Expand(start, f, cs, parent, q[1..], dist, done, base);
        d := dist(f);
        done := done + {f};
        found := base + q;
        n := n + 1;
        KnownSize(parent, found);
        if |parent| > maxnodes {
          break;
        }
      }
      known := |parent|;
      KnownSize(parent, found);
      Ended(im, start, maxnodes, n);
      res := Collect(start, targets, parent, dist, done, q, d);
      KnownMeans(im, start, parent, dist, done, q, d, found);
    }

    method Collect(ghost start: int, targets: seq<int>, parent: Parents, ghost dist: int -> nat, ghost done: set<int>,
                   ghost q: seq<int>, ghost d: nat)
      returns (res: map<int, Option<seq<int>>>)
      requires Search(im, start, parent, dist, done, q, d)
      ensures res.Keys == set t | t in targets
      ensures forall t :: t in res && res[t].Some? ==> IsShortest(im, res[t].value, start, t)
      ensures forall t :: t in res ==> (res[t].Some? <==> t in parent)
    {
      hide Callees, Tree, Closed, Members, Levels, IsPath;
      res := map[];
      for k := 0 to |targets|
        invariant res.Keys == set t | t in targets[..k]
        invariant forall t :: t in res && res[t].Some? ==> IsShortest(im, res[t].value, start, t)
        invariant forall t :: t in res ==> (res[t].Some? <==> t in parent)
      {
        var t := targets[k];
        if t in parent {
          var p := PathTo(start, parent, dist, t);
          forall p' | IsPath(im, p', start, t)
            ensures |p| <= |p'|
          {
            DepthIsDistance(im, start, parent, dist, done, q, d, p', t);
          }
          res := res[t := Some(p)];
        } else {
          res := res[t := None];
        }
        assert targets[..k + 1] == targets[..k] + [t];
      }
      assert targets[..|targets|] == targets;
    }
  }

  /** The search did not end before n expansions. */
  ghost predicate OnTheWay(im: Image, start: int, maxnodes: nat, n: nat) {
    forall m :: 0 < m < n ==> m < |KnownAfter(im, start, m)| <= maxnodes
  }

  lemma OneMoreExpansion(im: Image, start: int, maxnodes: nat, n: nat)
    requires OnTheWay(im, start, maxnodes, n)
    requires n > 0 ==> n < |KnownAfter(im, start, n)| <= maxnodes
    ensures OnTheWay(im, start, maxnodes, n + 1)
  {
    hide KnownAfter;
  }

  lemma Ended(im: Image, start: int, maxnodes: nat, n: nat)
    requires OnTheWay(im, start, maxnodes, n) && 0 < n <= |KnownAfter(im, start, n)|
    requires n == |KnownAfter(im, start, n)| || |KnownAfter(im, start, n)| > maxnodes
    ensures EndsAfter(im, start, maxnodes, n)
  {
    hide KnownAfter;
  }

  /** Taking the front of the queue of a search. */
  lemma Front(im: Image, start: int, parent: Parents, dist: int -> nat, done: set<int>, q: seq<int>, d: nat)
    requires Search(im, start, parent, dist, done, q, d) && q != []
    ensures var f := q[0];
      && f in parent && f !in done && f in Universe(start)
      && Tree(im, start, parent, dist) && Closed(im, parent, dist, done)
      && Members(parent, done + {f}, q[1..]) && Levels(dist, done + {f}, q[1..], dist(f))
  {
    hide Callees, Tree, Closed, Members, Levels, Universe;
    Dequeue(parent, dist, done, q, d);
    InUniverse(im, start, parent, dist, q[0]);
  }

  /** The known nodes in the order of their discovery. */
  ghost predicate Lists(parent: Parents, found: seq<int>) {
    Distinct(found) && forall x :: x in parent <==> x in found
  }

  lemma BeginList(im: Image, start: int, maxnodes: nat)
    ensures Lists(map[start := None], [start]) && KnownAfter(im, start, 0) == [start]
    ensures OnTheWay(im, start, maxnodes, 0)
  {
  }

  lemma ListOne(parent: Parents, found: seq<int>, c: int, f: int)
    requires Lists(parent, found)
    ensures c in parent <==> c in found
    ensures c !in parent ==> Lists(parent[c := Some(f)], found + [c])
  {
  }

  lemma DiscoverNone(found: seq<int>, cs: seq<int>)
    ensures Discover(found, cs[..0]) == found
  {
  }

  lemma KnownSize(parent: Parents, found: seq<int>)
    requires Lists(parent, found)
    ensures |parent| == |found| && Distinct(found) && forall x :: x in parent <==> x in found
  {
    DistinctSize(found, parent.Keys);
    assert |parent.Keys| == |parent|;
  }

  lemma KnownOneMore(im: Image, start: int, n: nat)
    requires n < |KnownAfter(im, start, n)|
    ensures KnownAfter(im, start, n + 1) == Discover(KnownAfter(im, start, n), Callees(im, KnownAfter(im, start, n)[n]))
  {
    hide Callees, Discover;
  }

  /** Parents lead from the start to every known node. */
  lemma {:induction false} TreePath(im: Image, start: int, parent: Parents, dist: int -> nat, t: int)
    returns (p: seq<int>)
    requires Tree(im, start, parent, dist) && t in parent
    ensures IsPath(im, p, start, t) && |p| == dist(t) + 1
    decreases dist(t)
  {
    hide Callees, InText;
    if t == start {
      p := [t];
    } else {
      p := TreePath(im, start, parent, dist, parent[t].value);
      p := p + [t];
    }
  }

  /** What a search knows is reachable, and nothing that it does not know is nearer. */
  lemma KnownMeans(im: Image, start: int, parent: Parents, dist: int -> nat, done: set<int>, q: seq<int>, d: nat,
                   found: seq<int>)
    requires Search(im, start, parent, dist, done, q, d) && Lists(parent, found)
    ensures forall x :: x in found ==> exists p :: IsPath(im, p, start, x)
    ensures forall t, p, x :: IsPath(im, p, start, t) && t !in found && x in found ==>
      exists p' :: IsPath(im, p', start, x) && |p'| <= |p|
    ensures q == [] ==> forall t, p :: IsPath(im, p, start, t) ==> t in found
  {
    hide Callees, Tree, Closed, Members, Levels, IsPath;
    forall x | x in found
      ensures exists p :: IsPath(im, p, start, x) && |p| == dist(x) + 1
    {
      var p := TreePath(im, start, parent, dist, x);
    }
    forall t, p | IsPath(im, p, start, t) && t !in found
      ensures q != [] && |p| - 1 > d
    {
      if q == [] || |p| - 1 <= d {
        NearKnown(im, start, parent, dist, done, q, d, p, t);
      }
    }
    forall t, p, x | IsPath(im, p, start, t) && t !in found && x in found
      ensures exists p' :: IsPath(im, p', start, x) && |p'| <= |p|
    {
      DepthBound(parent, dist, done, q, d, x);
      var p' := TreePath(im, start, parent, dist, x);
    }
  }

  lemma InUniverse(im: Image, start: int, parent: Parents, dist: int -> nat, f: int)
    requires Tree(im, start, parent, dist) && f in parent
    ensures f in Universe(start)
  {
    hide Callees;
  }

  /** An already known callee of the node being expanded is at most one level deeper. */
  lemma KnownDepth(im: Image, parent: Parents, dist: int -> nat, done: set<int>, q: seq<int>, f: int, c: int)
    requires Members(parent, done, q) && Levels(dist, done, q, dist(f))
    ensures c in parent ==> dist(c) <= dist(f) + 1
  {
  }

  lemma DoneKnown(parent: Parents, done: set<int>, q: seq<int>)
    requires Members(parent, done, q)
    ensures forall x :: x in done ==> x in parent
  {
  }
}
