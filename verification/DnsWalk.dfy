/**
 What the bounded traversal returns, on every resolver: how it relates to reachability
 in the graph of branch records, to a plain recursive depth-first search, and to the
 walk without limits.
 */
module DnsWalk {
  import opened Wrappers
  import opened DnsTree
  import opened Text

  // ---------------------------------------------------------------- reachability

  /** A path along branch records. */
  ghost predicate IsPath(dns: Dns, domain: string, p: seq<string>) {
    p != [] && forall i :: 0 <= i < |p| - 1 ==> p[i + 1] in Kids(dns, domain, p[i])
  }

  ghost predicate Reachable(dns: Dns, domain: string, root: string, hash: string) {
    exists p: seq<string> :: IsPath(dns, domain, p) && p[0] == root && p[|p| - 1] == hash
  }

  lemma {:induction false} KidIsReachable(dns: Dns, domain: string, root: string, hash: string, kid: string)
    requires Reachable(dns, domain, root, hash) && kid in Kids(dns, domain, hash)
    ensures Reachable(dns, domain, root, kid)
  {
    var p :| IsPath(dns, domain, p) && p[0] == root && p[|p| - 1] == hash;
    assert IsPath(dns, domain, p + [kid]);
  }

  /** A set of hashes that holds the root and all children of its members holds everything reachable. */
  lemma {:induction false} ClosedHoldsPath(dns: Dns, domain: string, s: seq<string>, p: seq<string>)
    requires forall h <- s :: forall k <- Kids(dns, domain, h) :: k in s
    requires IsPath(dns, domain, p) && p[0] in s
    ensures p[|p| - 1] in s
  {
    if |p| > 1 {
      ClosedHoldsPath(dns, domain, s, p[1..]);
    }
  }

  // ---------------------------------------------------------------- what every walk keeps

  function AllLeaves(dns: Dns, domain: string, order: seq<string>): seq<Multiaddr> {
    if order == [] then []
    else AllLeaves(dns, domain, order[..|order| - 1]) + Leaves(dns, domain, order[|order| - 1])
  }

  predicate NoDuplicates(order: seq<string>) {
    forall i, j :: 0 <= i < j < |order| ==> order[i] != order[j]
  }

  /** Where a hash may come from: it is the root, at the very start, or the child of one looked up before. */
  predicate Discovered(dns: Dns, domain: string, root: string, before: seq<string>, hash: string) {
    (before == [] && hash == root) || exists h <- before :: hash in Kids(dns, domain, h)
  }

  /** Everything waiting was announced by something looked up, and is reachable. */
  ghost predicate StackOk(dns: Dns, domain: string, root: string, stack: seq<string>, order: seq<string>) {
    forall h <- stack :: Reachable(dns, domain, root, h) && Discovered(dns, domain, root, order, h)
  }

  ghost predicate OrderOk(dns: Dns, domain: string, root: string, order: seq<string>) {
    && (forall h <- order :: Reachable(dns, domain, root, h))
    && (forall i :: 0 <= i < |order| ==> Discovered(dns, domain, root, order[..i], order[i]))
    && NoDuplicates(order)
  }

  ghost predicate WalkOk(dns: Dns, domain: string, root: string, flat: seq<Multiaddr>, w: Walk) {
    && StackOk(dns, domain, root, w.stack, w.order)
    && OrderOk(dns, domain, root, w.order)
    && (w.order == [] ==> |w.stack| <= 1)
    && w.addrs == flat + AllLeaves(dns, domain, w.order)
  }

  /** Nothing found so far was forgotten: the root and every child of a visited hash is visited or waiting. */
  ghost predicate NothingForgotten(dns: Dns, domain: string, root: string, w: Walk) {
    && (root in w.order || root in w.stack)
    && forall h <- w.order :: KidsKnown(dns, domain, h, w)
  }

  predicate KidsKnown(dns: Dns, domain: string, hash: string, w: Walk) {
    forall k <- Kids(dns, domain, hash) :: k in w.order || k in w.stack
  }

  lemma TopSplits(w: Walk)
    requires w.stack != []
    ensures w.stack == Pop(w).stack + [w.stack[|w.stack| - 1]]
    ensures forall h :: h in w.stack <==> h in Pop(w).stack || h == w.stack[|w.stack| - 1]
  {
  }

  lemma {:induction false} PopKeeps(dns: Dns, domain: string, root: string, flat: seq<Multiaddr>, w: Walk)
    requires w.stack != [] && WalkOk(dns, domain, root, flat, w)
    ensures WalkOk(dns, domain, root, flat, Pop(w))
  {
    TopSplits(w);
  }

  lemma PopForgetsNothing(dns: Dns, domain: string, root: string, w: Walk)
    requires w.stack != [] && w.stack[|w.stack| - 1] in w.order && NothingForgotten(dns, domain, root, w)
    ensures NothingForgotten(dns, domain, root, Pop(w))
  {
    TopSplits(w);
    forall h <- w.order
      ensures KidsKnown(dns, domain, h, Pop(w))
    {
      assert KidsKnown(dns, domain, h, w);
    }
  }

  lemma {:induction false} VisitKeepsOrder(dns: Dns, domain: string, root: string, order: seq<string>, top: string)
    requires OrderOk(dns, domain, root, order) && top !in order
    requires Reachable(dns, domain, root, top) && Discovered(dns, domain, root, order, top)
    ensures OrderOk(dns, domain, root, order + [top])
  {
    var more := order + [top];
    forall i | 0 <= i < |more|
      ensures Discovered(dns, domain, root, more[..i], more[i])
    {
      assert more[..i] == order[..i];
      if i == |order| {
        assert order[..i] == order;
      }
    }
  }

  lemma StillDiscovered(dns: Dns, domain: string, root: string, order: seq<string>, top: string, hash: string)
    requires order != [] && Discovered(dns, domain, root, order, hash)
    ensures Discovered(dns, domain, root, order + [top], hash)
  {
  }

  lemma VisitKeepsStack(dns: Dns, domain: string, root: string, rest: seq<string>, order: seq<string>, top: string)
    requires StackOk(dns, domain, root, rest, order) && Reachable(dns, domain, root, top)
    requires order == [] ==> rest == []
    ensures StackOk(dns, domain, root, rest + Kids(dns, domain, top), order + [top])
  {
    forall h <- rest + Kids(dns, domain, top)
      ensures Reachable(dns, domain, root, h) && Discovered(dns, domain, root, order + [top], h)
    {
      if h in Kids(dns, domain, top) {
        KidIsReachable(dns, domain, root, top, h);
        assert top in order + [top];
      } else {
        assert h in rest;
        StillDiscovered(dns, domain, root, order, top, h);
      }
    }
  }

  lemma {:induction false} VisitKeeps(dns: Dns, domain: string, root: string, flat: seq<Multiaddr>, w: Walk)
    requires w.stack != [] && WalkOk(dns, domain, root, flat, w) && w.stack[|w.stack| - 1] !in w.order
    ensures WalkOk(dns, domain, root, flat, Visit(dns, domain, w))
  {
    var top := w.stack[|w.stack| - 1];
    TopSplits(w);
    VisitKeepsOrder(dns, domain, root, w.order, top);
    VisitKeepsStack(dns, domain, root, Pop(w).stack, w.order, top);
    assert (w.order + [top])[..|w.order|] == w.order;
    Append(flat, AllLeaves(dns, domain, w.order), Leaves(dns, domain, top));
  }

  lemma VisitForgetsNothing(dns: Dns, domain: string, root: string, w: Walk)
    requires w.stack != [] && NothingForgotten(dns, domain, root, w)
    ensures NothingForgotten(dns, domain, root, Visit(dns, domain, w))
  {
    var top, v := w.stack[|w.stack| - 1], Visit(dns, domain, w);
    TopSplits(w);
    assert forall h :: h in w.order || h in w.stack ==> h in v.order || h in v.stack;
    forall h <- v.order
      ensures KidsKnown(dns, domain, h, v)
    {
      assert h in w.order ==> KidsKnown(dns, domain, h, w);
    }
  }

  /** What holds at the end of the walk, cut short or not. */
  lemma {:induction false} TraverseKeeps(dns: Dns, domain: string, root: string, flat: seq<Multiaddr>,
                                         w: Walk, maxLookups: nat, cutoff: nat)
    requires WalkOk(dns, domain, root, flat, w) && NothingForgotten(dns, domain, root, w)
    requires !w.cut && |w.order| <= maxLookups
    ensures var v := Traverse(dns, domain, w, maxLookups, cutoff);
            && WalkOk(dns, domain, root, flat, v)
            && |v.order| <= maxLookups
            && (!v.cut ==> v.stack == [] && NothingForgotten(dns, domain, root, v))
            && (v.cut ==> |v.order| == maxLookups || |v.addrs| >= cutoff)
    decreases maxLookups - |w.order|, |w.stack|
  {
    if w.stack != [] {
      PopKeeps(dns, domain, root, flat, w);
      TopSplits(w);
      if |w.order| >= maxLookups || |w.addrs| >= cutoff {
      } else if w.stack[|w.stack| - 1] in w.order {
        PopForgetsNothing(dns, domain, root, w);
        TraverseKeeps(dns, domain, root, flat, Pop(w), maxLookups, cutoff);
      } else {
        VisitKeeps(dns, domain, root, flat, w);
        VisitForgetsNothing(dns, domain, root, w);
        TraverseKeeps(dns, domain, root, flat, Visit(dns, domain, w), maxLookups, cutoff);
      }
    }
  }

  function Start(root: string, flat: seq<Multiaddr>): Walk {
    Walk([root], [], flat, false)
  }

  lemma StartOk(dns: Dns, domain: string, root: string, flat: seq<Multiaddr>)
    ensures WalkOk(dns, domain, root, flat, Start(root, flat))
    ensures NothingForgotten(dns, domain, root, Start(root, flat))
  {
  }

  /** The lookups missed nothing that can be reached. */
  ghost predicate Complete(dns: Dns, domain: string, root: string, order: seq<string>) {
    forall hash :: Reachable(dns, domain, root, hash) ==> hash in order
  }

  /**
   Soundness: whatever limit ends the walk, everything looked up is reachable from the root;
   and a walk that no limit ended looked up everything reachable, cycles included.
   `CompleteExactly` says for which zones nothing is missed.
   */
  lemma {:induction false} VisitedIsReachable(dns: Dns, domain: string, root: string, maxLookups: nat, cutoff: nat)
    requires RootOf(dns.txt(domain)) == Some(root)
    ensures var w := Resolve(dns, domain, maxLookups, cutoff);
            && (forall hash <- w.order :: Reachable(dns, domain, root, hash))
            && (!w.cut ==> Complete(dns, domain, root, w.order))
  {
    var flat := FlatOf(dns, dns.txt(domain));
    StartOk(dns, domain, root, flat);
    TraverseKeeps(dns, domain, root, flat, Start(root, flat), maxLookups, cutoff);
    var w := Resolve(dns, domain, maxLookups, cutoff);
    if !w.cut {
      assert forall h <- w.order :: KidsKnown(dns, domain, h, w);
      forall hash | Reachable(dns, domain, root, hash)
        ensures hash in w.order
      {
        var p :| IsPath(dns, domain, p) && p[0] == root && p[|p| - 1] == hash;
        ClosedHoldsPath(dns, domain, w.order, p);
      }
    }
  }

  /**
   Accounting: the addresses are the flat ones followed by the leaves of each hash looked
   up, each hash counted once and in the order of lookups; there are at most the allowed
   lookups; and each hash is the root or was announced by one looked up before it.
   */
  lemma {:induction false} EveryAddressAccounted(dns: Dns, domain: string, root: string, maxLookups: nat, cutoff: nat)
    requires RootOf(dns.txt(domain)) == Some(root)
    ensures var w := Resolve(dns, domain, maxLookups, cutoff);
            && w.addrs == FlatOf(dns, dns.txt(domain)) + AllLeaves(dns, domain, w.order)
            && NoDuplicates(w.order) && |w.order| <= maxLookups
            && (forall i :: 0 <= i < |w.order| ==> Discovered(dns, domain, root, w.order[..i], w.order[i]))
            && (w.cut ==> |w.order| == maxLookups || |w.addrs| >= cutoff)
  {
    var flat := FlatOf(dns, dns.txt(domain));
    StartOk(dns, domain, root, flat);
    TraverseKeeps(dns, domain, root, flat, Start(root, flat), maxLookups, cutoff);
  }

  // ---------------------------------------------------------------- how many addresses

  lemma {:induction false} TraverseBound(dns: Dns, domain: string, w: Walk, maxLookups: nat, cutoff: nat,
                                         limit: nat, largest: nat)
    requires |w.addrs| <= limit && (cutoff > 0 ==> cutoff - 1 + largest <= limit)
    requires forall hash <- Traverse(dns, domain, w, maxLookups, cutoff).order :: |Leaves(dns, domain, hash)| <= largest
    ensures |Traverse(dns, domain, w, maxLookups, cutoff).addrs| <= limit
    decreases maxLookups - |w.order|, |w.stack|
  {
    if w.stack == [] || |w.order| >= maxLookups || |w.addrs| >= cutoff {
    } else if w.stack[|w.stack| - 1] in w.order {
      TraverseBound(dns, domain, Pop(w), maxLookups, cutoff, limit, largest);
    } else {
      var v := Visit(dns, domain, w);
      TraverseGrows(dns, domain, v, maxLookups, cutoff);
      assert v.order[|w.order|] in v.order;
      TraverseBound(dns, domain, v, maxLookups, cutoff, limit, largest);
    }
  }

  lemma {:induction false} TraverseGrows(dns: Dns, domain: string, w: Walk, maxLookups: nat, cutoff: nat)
    ensures w.order <= Traverse(dns, domain, w, maxLookups, cutoff).order
    ensures w.addrs <= Traverse(dns, domain, w, maxLookups, cutoff).addrs
    decreases maxLookups - |w.order|, |w.stack|
  {
    if w.stack == [] || |w.order| >= maxLookups || |w.addrs| >= cutoff {
    } else if w.stack[|w.stack| - 1] in w.order {
      TraverseGrows(dns, domain, Pop(w), maxLookups, cutoff);
    } else {
      TraverseGrows(dns, domain, Visit(dns, domain, w), maxLookups, cutoff);
    }
  }

  /** The total stays below the cutoff plus one response, or is the flat addresses alone. */
  lemma AddressLimit(dns: Dns, domain: string, maxLookups: nat, cutoff: nat, largest: nat)
    requires cutoff > 0
    requires forall hash <- Resolve(dns, domain, maxLookups, cutoff).order :: |Leaves(dns, domain, hash)| <= largest
    ensures var flat := |FlatOf(dns, dns.txt(domain))|;
            var n := |Resolve(dns, domain, maxLookups, cutoff).addrs|;
            n <= if flat > cutoff - 1 + largest then flat else cutoff - 1 + largest
  {
    match RootOf(dns.txt(domain)) {
      case Some(root) =>
        var flat := FlatOf(dns, dns.txt(domain));
        var limit := if |flat| > cutoff - 1 + largest then |flat| else cutoff - 1 + largest;
        TraverseBound(dns, domain, Start(root, flat), maxLookups, cutoff, limit, largest);
      case None =>
    }
  }

  /** With the limits the program uses: twenty lookups, and forty-nine addresses plus one response. */
  lemma ProgramLimits(dns: Dns, domain: string, largest: nat)
    requires forall hash <- Resolve(dns, domain, MAX_LOOKUPS, ADDRESS_CUTOFF).order ::
               |Leaves(dns, domain, hash)| <= largest
    ensures var w := Resolve(dns, domain, MAX_LOOKUPS, ADDRESS_CUTOFF);
            var flat := |FlatOf(dns, dns.txt(domain))|;
            && |w.order| <= 20 && NoDuplicates(w.order)
            && (|w.addrs| <= flat || |w.addrs| <= 49 + largest)
  {
    AddressLimit(dns, domain, MAX_LOOKUPS, ADDRESS_CUTOFF, largest);
    match RootOf(dns.txt(domain)) {
      case Some(root) => EveryAddressAccounted(dns, domain, root, MAX_LOOKUPS, ADDRESS_CUTOFF);
      case None =>
    }
  }

  // ---------------------------------------------------------------- the walk without limits

  ghost predicate ClosedZone(dns: Dns, domain: string, zone: set<string>) {
    forall h <- zone, k <- Kids(dns, domain, h) :: k in zone
  }

  ghost function Unvisited(zone: set<string>, order: seq<string>): set<string> {
    set h | h in zone && h !in order
  }

  lemma VisitingShrinks(zone: set<string>, order: seq<string>, hash: string)
    requires hash in zone && hash !in order
    ensures |Unvisited(zone, order + [hash])| < |Unvisited(zone, order)|
  {
    assert Unvisited(zone, order + [hash]) == Unvisited(zone, order) - {hash};
  }

  /** The same walk with neither limit, over a finite zone. */
  ghost function TraverseAll(dns: Dns, domain: string, zone: set<string>, w: Walk): Walk
    requires ClosedZone(dns, domain, zone) && forall h <- w.stack :: h in zone
    decreases |Unvisited(zone, w.order)|, |w.stack|
  {
    if w.stack == [] then w
    else
      var top := w.stack[|w.stack| - 1];
      assert w.stack == w.stack[..|w.stack| - 1] + [top];
      if top in w.order then TraverseAll(dns, domain, zone, Pop(w))
      else
        VisitingShrinks(zone, w.order, top);
        TraverseAll(dns, domain, zone, Visit(dns, domain, w))
  }

  lemma {:induction false} TraverseAllGrows(dns: Dns, domain: string, zone: set<string>, w: Walk)
    requires ClosedZone(dns, domain, zone) && forall h <- w.stack :: h in zone
    ensures w.order <= TraverseAll(dns, domain, zone, w).order
    ensures w.addrs <= TraverseAll(dns, domain, zone, w).addrs
    decreases |Unvisited(zone, w.order)|, |w.stack|
  {
    if w.stack != [] {
      var top := w.stack[|w.stack| - 1];
      assert w.stack == w.stack[..|w.stack| - 1] + [top];
      if top in w.order {
        TraverseAllGrows(dns, domain, zone, Pop(w));
      } else {
        VisitingShrinks(zone, w.order, top);
        TraverseAllGrows(dns, domain, zone, Visit(dns, domain, w));
      }
    }
  }

  lemma {:induction false} LimitsTakeAPrefix(dns: Dns, domain: string, zone: set<string>, w: Walk,
                                             maxLookups: nat, cutoff: nat)
    requires ClosedZone(dns, domain, zone) && (forall h <- w.stack :: h in zone) && !w.cut
    ensures var limited := Traverse(dns, domain, w, maxLookups, cutoff);
            var all := TraverseAll(dns, domain, zone, w);
            && limited.addrs <= all.addrs && limited.order <= all.order
            && (!limited.cut ==> limited == all)
    decreases |Unvisited(zone, w.order)|, |w.stack|
  {
    if w.stack != [] {
      var top := w.stack[|w.stack| - 1];
      assert w.stack == w.stack[..|w.stack| - 1] + [top];
      if |w.order| >= maxLookups || |w.addrs| >= cutoff {
        TraverseAllGrows(dns, domain, zone, w);
      } else if top in w.order {
        LimitsTakeAPrefix(dns, domain, zone, Pop(w), maxLookups, cutoff);
      } else {
        VisitingShrinks(zone, w.order, top);
        LimitsTakeAPrefix(dns, domain, zone, Visit(dns, domain, w), maxLookups, cutoff);
      }
    }
  }

  // ---------------------------------------------------------------- depth-first search

  /** The reference: visit a hash, then its children from the last to the first, skipping what was seen. */
  ghost function DepthFirst(dns: Dns, domain: string, zone: set<string>, todo: seq<string>, seen: seq<string>)
    : (order: seq<string>)
    requires ClosedZone(dns, domain, zone) && forall h <- todo :: h in zone
    ensures seen <= order
    decreases |Unvisited(zone, seen)|, |todo|
  {
    if todo == [] then seen
    else
      var hash, rest := todo[0], todo[1..];
      if hash in seen then DepthFirst(dns, domain, zone, rest, seen)
      else
        VisitingShrinks(zone, seen, hash);
        var below := DepthFirst(dns, domain, zone, Reverse(Kids(dns, domain, hash)), seen + [hash]);
        assert Unvisited(zone, below) <= Unvisited(zone, seen + [hash]);
        Subset(Unvisited(zone, below), Unvisited(zone, seen + [hash]));
        DepthFirst(dns, domain, zone, rest, below)
  }

  lemma Subset(a: set<string>, b: set<string>)
    requires a <= b
    ensures |a| <= |b|
  {
    assert b == a + (b - a);
  }

  function Reverse(s: seq<string>): (r: seq<string>)
    ensures forall h :: h in r <==> h in s
  {
    if s == [] then []
    else
      assert s == s[..|s| - 1] + [s[|s| - 1]];
      [s[|s| - 1]] + Reverse(s[..|s| - 1])
  }

  lemma {:induction false} ReverseAppend(a: seq<string>, b: seq<string>)
    ensures Reverse(a + b) == Reverse(b) + Reverse(a)
  {
    if b == [] {
      assert a + b == a;
    } else {
      assert (a + b)[..|a + b| - 1] == a + b[..|b| - 1];
      ReverseAppend(a, b[..|b| - 1]);
    }
  }

  lemma {:induction false} DepthFirstAppend(dns: Dns, domain: string, zone: set<string>,
                                            a: seq<string>, b: seq<string>, seen: seq<string>)
    requires ClosedZone(dns, domain, zone) && forall h <- a + b :: h in zone
    requires (forall h <- a :: h in zone) && forall h <- b :: h in zone
    ensures DepthFirst(dns, domain, zone, a + b, seen)
            == DepthFirst(dns, domain, zone, b, DepthFirst(dns, domain, zone, a, seen))
    decreases |Unvisited(zone, seen)|, |a|
  {
    if a == [] {
      assert a + b == b;
    } else {
      var hash, rest := a[0], a[1..];
      assert (a + b)[1..] == rest + b;
      if hash in seen {
        DepthFirstAppend(dns, domain, zone, rest, b, seen);
      } else {
        VisitingShrinks(zone, seen, hash);
        var below := DepthFirst(dns, domain, zone, Reverse(Kids(dns, domain, hash)), seen + [hash]);
        Subset(Unvisited(zone, below), Unvisited(zone, seen + [hash]));
        DepthFirstAppend(dns, domain, zone, rest, b, below);
      }
    }
  }

  /** The loop with its explicit stack makes the lookups of the recursive search, in the same order. */
  lemma {:induction false} StackRefinesRecursion(dns: Dns, domain: string, zone: set<string>, w: Walk)
    requires ClosedZone(dns, domain, zone) && forall h <- w.stack :: h in zone
    ensures TraverseAll(dns, domain, zone, w).order == DepthFirst(dns, domain, zone, Reverse(w.stack), w.order)
    decreases |Unvisited(zone, w.order)|, |w.stack|
  {
    if w.stack != [] {
      var top, rest := w.stack[|w.stack| - 1], w.stack[..|w.stack| - 1];
      assert w.stack == rest + [top];
      assert Reverse(w.stack) == [top] + Reverse(rest);
      assert Reverse(w.stack)[1..] == Reverse(rest);
      if top in w.order {
        StackRefinesRecursion(dns, domain, zone, Pop(w));
      } else {
        var kids := Kids(dns, domain, top);
        VisitingShrinks(zone, w.order, top);
        StackRefinesRecursion(dns, domain, zone, Visit(dns, domain, w));
        ReverseAppend(rest, kids);
        DepthFirstAppend(dns, domain, zone, Reverse(kids), Reverse(rest), w.order + [top]);
      }
    }
  }

  /**
   The limited walk over a finite zone looks up a prefix of the depth-first order and returns
   a prefix of the addresses found in that order; all of both when no limit cut it.
   */
  lemma {:induction false} ResolveIsPrefixOfSearch(dns: Dns, domain: string, zone: set<string>, root: string,
                                                   maxLookups: nat, cutoff: nat)
    requires ClosedZone(dns, domain, zone) && root in zone && RootOf(dns.txt(domain)) == Some(root)
    ensures var w := Resolve(dns, domain, maxLookups, cutoff);
            var order := DepthFirst(dns, domain, zone, [root], []);
            var addrs := FlatOf(dns, dns.txt(domain)) + AllLeaves(dns, domain, order);
            && w.order <= order && w.addrs <= addrs
            && (!w.cut ==> w.order == order && w.addrs == addrs)
  {
    var flat := FlatOf(dns, dns.txt(domain));
    var start := Start(root, flat);
    LimitsTakeAPrefix(dns, domain, zone, start, maxLookups, cutoff);
    StackRefinesRecursion(dns, domain, zone, start);
    assert Reverse([root]) == [root];
    StartOk(dns, domain, root, flat);
    SearchKeeps(dns, domain, root, flat, zone, start);
  }

  lemma {:induction false} SearchKeeps(dns: Dns, domain: string, root: string, flat: seq<Multiaddr>,
                                       zone: set<string>, w: Walk)
    requires WalkOk(dns, domain, root, flat, w)
    requires ClosedZone(dns, domain, zone) && forall h <- w.stack :: h in zone
    ensures WalkOk(dns, domain, root, flat, TraverseAll(dns, domain, zone, w))
    decreases |Unvisited(zone, w.order)|, |w.stack|
  {
    if w.stack != [] {
      var top := w.stack[|w.stack| - 1];
      TopSplits(w);
      if top in w.order {
        PopKeeps(dns, domain, root, flat, w);
        SearchKeeps(dns, domain, root, flat, zone, Pop(w));
      } else {
        VisitKeeps(dns, domain, root, flat, w);
        VisitingShrinks(zone, w.order, top);
        SearchKeeps(dns, domain, root, flat, zone, Visit(dns, domain, w));
      }
    }
  }

  // ---------------------------------------------------------------- when the limits do no harm

  /** After these lookups one of the limits ends the walk. */
  predicate Hits(dns: Dns, domain: string, flat: seq<Multiaddr>, order: seq<string>, maxLookups: nat, cutoff: nat) {
    |order| >= maxLookups || |flat| + |AllLeaves(dns, domain, order)| >= cutoff
  }

  /** From the `from`-th on, each lookup of the search would start below both limits. */
  ghost predicate Fits(dns: Dns, domain: string, flat: seq<Multiaddr>, order: seq<string>, from: nat,
                       maxLookups: nat, cutoff: nat) {
    forall k :: from <= k < |order| ==> !Hits(dns, domain, flat, order[..k], maxLookups, cutoff)
  }

  lemma FitsFromNext(dns: Dns, domain: string, flat: seq<Multiaddr>, done: seq<string>, hash: string, all: seq<string>,
                     maxLookups: nat, cutoff: nat)
    requires done + [hash] <= all && !Hits(dns, domain, flat, done, maxLookups, cutoff)
    ensures Fits(dns, domain, flat, all, |done|, maxLookups, cutoff) <==>
            Fits(dns, domain, flat, all, |done| + 1, maxLookups, cutoff)
  {
    assert all[..|done|] == done;
  }

  lemma FitsAtLimit(dns: Dns, domain: string, flat: seq<Multiaddr>, done: seq<string>, all: seq<string>,
                    maxLookups: nat, cutoff: nat)
    requires done <= all && Hits(dns, domain, flat, done, maxLookups, cutoff)
    ensures Fits(dns, domain, flat, all, |done|, maxLookups, cutoff) <==> done == all
  {
    if |done| < |all| {
      assert all[..|done|] == done;
    }
  }

  /** From any state, the limits lose no lookup exactly when all remaining lookups of the search fit. */
  lemma {:induction false} AllLookupsMade(dns: Dns, domain: string, root: string, flat: seq<Multiaddr>,
                                          zone: set<string>, w: Walk, maxLookups: nat, cutoff: nat)
    requires WalkOk(dns, domain, root, flat, w)
    requires ClosedZone(dns, domain, zone) && forall h <- w.stack :: h in zone
    ensures var all := TraverseAll(dns, domain, zone, w).order;
            Traverse(dns, domain, w, maxLookups, cutoff).order == all
            <==> Fits(dns, domain, flat, all, |w.order|, maxLookups, cutoff)
    decreases |Unvisited(zone, w.order)|, |w.stack|
  {
    if w.stack != [] {
      var top, all := w.stack[|w.stack| - 1], TraverseAll(dns, domain, zone, w).order;
      TopSplits(w);
      assert |w.addrs| == |flat| + |AllLeaves(dns, domain, w.order)|;
      if Hits(dns, domain, flat, w.order, maxLookups, cutoff) {
        TraverseAllGrows(dns, domain, zone, w);
        FitsAtLimit(dns, domain, flat, w.order, all, maxLookups, cutoff);
      } else if top in w.order {
        PopKeeps(dns, domain, root, flat, w);
        AllLookupsMade(dns, domain, root, flat, zone, Pop(w), maxLookups, cutoff);
      } else {
        VisitKeeps(dns, domain, root, flat, w);
        VisitingShrinks(zone, w.order, top);
        AllLookupsMade(dns, domain, root, flat, zone, Visit(dns, domain, w), maxLookups, cutoff);
        TraverseAllGrows(dns, domain, zone, Visit(dns, domain, w));
        FitsFromNext(dns, domain, flat, w.order, top, all, maxLookups, cutoff);
      }
    }
  }

  /** The search looks up exactly the reachable hashes, each once. */
  lemma {:induction false} SearchIsComplete(dns: Dns, domain: string, zone: set<string>, root: string)
    requires ClosedZone(dns, domain, zone) && root in zone && RootOf(dns.txt(domain)) == Some(root)
    ensures var order := DepthFirst(dns, domain, zone, [root], []);
            && NoDuplicates(order)
            && forall hash :: hash in order <==> Reachable(dns, domain, root, hash)
  {
    var flat := FlatOf(dns, dns.txt(domain));
    var start := Start(root, flat);
    var all := TraverseAll(dns, domain, zone, start);
    StartOk(dns, domain, root, flat);
    SearchKeeps(dns, domain, root, flat, zone, start);
    StackRefinesRecursion(dns, domain, zone, start);
    assert Reverse([root]) == [root];
    var enough, room := |all.order| + 1, |all.addrs| + 1;
    LimitsTakeAPrefix(dns, domain, zone, start, enough, room);
    TraverseKeeps(dns, domain, root, flat, start, enough, room);
    VisitedIsReachable(dns, domain, root, enough, room);
  }

  lemma NextIsNew(part: seq<string>, order: seq<string>)
    requires part <= order && |part| < |order| && NoDuplicates(order)
    ensures order[|part|] !in part
  {
    assert forall i :: 0 <= i < |part| ==> part[i] == order[i];
  }

  lemma PrefixHoldsAll(part: seq<string>, order: seq<string>)
    requires part <= order && NoDuplicates(order) && forall h <- order :: h in part
    ensures part == order
  {
    if |part| < |order| {
      NextIsNew(part, order);
    }
  }

  /**
   The limits lose nothing exactly when every lookup of the depth-first search starts below
   both of them, that is, when fewer than `maxLookups` lookups and `cutoff` addresses come
   before it.  Then, and only then, every reachable hash is looked up, and every address is found.
   */
  lemma {:induction false} CompleteExactlyWithinLimits(dns: Dns, domain: string, zone: set<string>, root: string,
                                                       maxLookups: nat, cutoff: nat)
    requires ClosedZone(dns, domain, zone) && root in zone && RootOf(dns.txt(domain)) == Some(root)
    ensures var flat := FlatOf(dns, dns.txt(domain));
            var w := Resolve(dns, domain, maxLookups, cutoff);
            var order := DepthFirst(dns, domain, zone, [root], []);
            var fits := Fits(dns, domain, flat, order, 0, maxLookups, cutoff);
            && (Complete(dns, domain, root, w.order) <==> fits)
            && (w.order == order <==> fits)
            && (fits ==> w.addrs == flat + AllLeaves(dns, domain, order))
  {
    var flat := FlatOf(dns, dns.txt(domain));
    var start := Start(root, flat);
    var w := Resolve(dns, domain, maxLookups, cutoff);
    var order := DepthFirst(dns, domain, zone, [root], []);
    StartOk(dns, domain, root, flat);
    AllLookupsMade(dns, domain, root, flat, zone, start, maxLookups, cutoff);
    StackRefinesRecursion(dns, domain, zone, start);
    assert Reverse([root]) == [root];
    SearchIsComplete(dns, domain, zone, root);
    ResolveIsPrefixOfSearch(dns, domain, zone, root, maxLookups, cutoff);
    EveryAddressAccounted(dns, domain, root, maxLookups, cutoff);
    if Complete(dns, domain, root, w.order) {
      PrefixHoldsAll(w.order, order);
    }
  }

  /** A complete walk has itself shown the zone to be finite, so on an infinite tree none is complete. */
  lemma CompleteMeansFinite(dns: Dns, domain: string, root: string, maxLookups: nat, cutoff: nat)
    requires RootOf(dns.txt(domain)) == Some(root)
    requires Complete(dns, domain, root, Resolve(dns, domain, maxLookups, cutoff).order)
    ensures var zone := set h <- Resolve(dns, domain, maxLookups, cutoff).order;
            root in zone && ClosedZone(dns, domain, zone)
  {
    var order := Resolve(dns, domain, maxLookups, cutoff).order;
    VisitedIsReachable(dns, domain, root, maxLookups, cutoff);
    assert IsPath(dns, domain, [root]);
    forall h <- order, k <- Kids(dns, domain, h)
      ensures k in order
    {
      KidIsReachable(dns, domain, root, h, k);
    }
  }

  /** A finite zone that holds the tree, and whose search stays below both limits until its last lookup. */
  ghost predicate FitsZone(dns: Dns, domain: string, root: string, zone: set<string>, maxLookups: nat, cutoff: nat) {
    && root in zone && ClosedZone(dns, domain, zone)
    && Fits(dns, domain, FlatOf(dns, dns.txt(domain)), DepthFirst(dns, domain, zone, [root], []), 0, maxLookups, cutoff)
  }

  /** On every resolver, cyclic and infinite trees included: everything reachable is looked up exactly then. */
  lemma {:induction false} CompleteExactly(dns: Dns, domain: string, root: string, maxLookups: nat, cutoff: nat)
    requires RootOf(dns.txt(domain)) == Some(root)
    ensures Complete(dns, domain, root, Resolve(dns, domain, maxLookups, cutoff).order)
            <==> exists zone: set<string> :: FitsZone(dns, domain, root, zone, maxLookups, cutoff)
  {
    var order := Resolve(dns, domain, maxLookups, cutoff).order;
    if Complete(dns, domain, root, order) {
      CompleteMeansFinite(dns, domain, root, maxLookups, cutoff);
      var zone := set h <- order;
      CompleteExactlyWithinLimits(dns, domain, zone, root, maxLookups, cutoff);
      assert FitsZone(dns, domain, root, zone, maxLookups, cutoff);
    }
    if zone: set<string> :| FitsZone(dns, domain, root, zone, maxLookups, cutoff) {
      CompleteExactlyWithinLimits(dns, domain, zone, root, maxLookups, cutoff);
    }
  }

  /** With the program's limits: twenty lookups at most, each started with fewer than fifty addresses. */
  lemma {:induction false} ProgramIsComplete(dns: Dns, domain: string, zone: set<string>, root: string)
    requires ClosedZone(dns, domain, zone) && root in zone && RootOf(dns.txt(domain)) == Some(root)
    ensures var flat := FlatOf(dns, dns.txt(domain));
            var order := DepthFirst(dns, domain, zone, [root], []);
            Complete(dns, domain, root, Resolve(dns, domain, MAX_LOOKUPS, ADDRESS_CUTOFF).order) <==>
            && |order| <= 20
            && forall k :: 0 <= k < |order| ==> |flat| + |AllLeaves(dns, domain, order[..k])| < 50
  {
    CompleteExactlyWithinLimits(dns, domain, zone, root, MAX_LOOKUPS, ADDRESS_CUTOFF);
    var order := DepthFirst(dns, domain, zone, [root], []);
    if |order| > 20 {
      assert Hits(dns, domain, FlatOf(dns, dns.txt(domain)), order[..20], MAX_LOOKUPS, ADDRESS_CUTOFF);
    }
  }

  /** Enough flat addresses keep the walk from looking anything up, and it still ends with an empty stack. */
  lemma FlatAddressesCrowdOut(dns: Dns, domain: string, root: string, maxLookups: nat, cutoff: nat)
    requires RootOf(dns.txt(domain)) == Some(root) && |FlatOf(dns, dns.txt(domain))| >= cutoff
    ensures var w := Resolve(dns, domain, maxLookups, cutoff);
            && w == Walk([], [], FlatOf(dns, dns.txt(domain)), true)
            && Reachable(dns, domain, root, root) && !Complete(dns, domain, root, w.order)
  {
    assert IsPath(dns, domain, [root]);
  }

  /** Fifty flat addresses and a root record at the apex, nothing below. */
  function CrowdedTxt(name: string): seq<string> {
    if name == "kin" then seq(50, i => "/ip4/") + [RenderRoot("r")] else []
  }

  function CrowdedZone(): Dns {
    Dns(CrowdedTxt, txt => Some(Multiaddr([txt])))
  }

  lemma {:induction false} FlatRecordsCount(dns: Dns, n: nat)
    requires forall txt :: dns.parse(txt).Some?
    ensures |FlatOf(dns, seq(n, i => "/ip4/"))| == n
  {
    if n > 0 {
      var txts := seq(n, i => "/ip4/");
      assert txts[..n - 1] == seq(n - 1, i => "/ip4/");
      FlatRecordsCount(dns, n - 1);
      assert StartsWith("/ip4/", "/ip4/");
      assert FlatAddress(dns, txts[n - 1]).Some?;
    }
  }

  /** An input on which the program misses a reachable hash and leaves no trace of it on its stack. */
  lemma EmptyStackIsNotComplete()
    ensures var w := Resolve(CrowdedZone(), "kin", MAX_LOOKUPS, ADDRESS_CUTOFF);
            && RootOf(CrowdedZone().txt("kin")) == Some("r")
            && w.stack == [] && w.order == [] && |w.addrs| == 50
            && !Complete(CrowdedZone(), "kin", "r", w.order)
  {
    var dns, flat := CrowdedZone(), seq(50, i => "/ip4/");
    var txts := dns.txt("kin");
    var last := RenderRoot("r");
    assert txts == flat + [last];
    assert txts[..|txts| - 1] == flat && txts[|txts| - 1] == last;
    assert HasNoSpace("r");
    RootRoundTrip("r");
    assert StartsWith(last, ROOT_PREFIX);
    FlatRecordsCount(dns, 50);
    assert FlatOf(dns, txts) == FlatOf(dns, flat);
    FlatAddressesCrowdOut(dns, "kin", "r", MAX_LOOKUPS, ADDRESS_CUTOFF);
  }
}
