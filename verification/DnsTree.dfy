/**
 The `kintree` discovery protocol (`resolve_dns_tree`): the grammar of its TXT records
 and the bounded traversal of an untrusted, possibly cyclic or infinite tree.
 */
module DnsTree {
  import opened Wrappers
  import opened Text

  datatype Multiaddr = Multiaddr(components: seq<string>)

  /**
   The outside world: the TXT character strings (section 3.3.14 of RFC 1035) of a name,
   in order, none when the lookup fails; and the parser of multiaddresses.
   */
  datatype Dns = Dns(txt: string -> seq<string>, parse: string -> Option<Multiaddr>)

  const ROOT_PREFIX := "kintree-root:v1"
  const BRANCH_PREFIX := "kintree-branch:"
  const LEAF_PREFIX := "kintree-leaf:"
  const HASH_MARK := " e="

  const MAX_LOOKUPS: nat := 20
  const ADDRESS_CUTOFF: nat := 50

  // ---------------------------------------------------------------- grammar

  /** The hash of a root record: the first word after the mark, or all of it if it has no word. */
  function RootHash(txt: string): Option<string> {
    if !StartsWith(txt, ROOT_PREFIX) then None
    else
      var (found, part) := SecondPart(txt, HASH_MARK);
      if !found then None
      else
        var word := FirstWord(part);
        Some(if word == "" then part else word)
  }

  /** A flat address at the root; root records are never read as addresses. */
  function FlatAddress(dns: Dns, txt: string): Option<Multiaddr> {
    if !StartsWith(txt, ROOT_PREFIX) && (StartsWith(txt, "/ip4/") || StartsWith(txt, "/ip6/"))
    then dns.parse(txt) else None
  }

  function NonEmpty(parts: seq<string>): (r: seq<string>)
    ensures forall p :: p in r <==> p in parts && p != ""
  {
    if parts == [] then []
    else (if parts[0] == "" then [] else [parts[0]]) + NonEmpty(parts[1..])
  }

  function Branches(txt: string): seq<string> {
    if StartsWith(txt, BRANCH_PREFIX) then NonEmpty(Split(TrimStart(txt, BRANCH_PREFIX), ',')) else []
  }

  function Leaf(dns: Dns, txt: string): Option<Multiaddr> {
    if !StartsWith(txt, BRANCH_PREFIX) && StartsWith(txt, LEAF_PREFIX)
    then dns.parse(TrimStart(txt, LEAF_PREFIX)) else None
  }

  // ---------------------------------------------------------------- one response

  function ToSeq<T>(o: Option<T>): seq<T> {
    match o case Some(x) => [x] case None => []
  }

  /** The last root record that carries a hash wins. */
  function RootOf(txts: seq<string>): Option<string> {
    if txts == [] then None
    else
      var last := RootHash(txts[|txts| - 1]);
      if last.Some? then last else RootOf(txts[..|txts| - 1])
  }

  function FlatOf(dns: Dns, txts: seq<string>): seq<Multiaddr> {
    if txts == [] then []
    else FlatOf(dns, txts[..|txts| - 1]) + ToSeq(FlatAddress(dns, txts[|txts| - 1]))
  }

  function BranchesOf(txts: seq<string>): seq<string> {
    if txts == [] then []
    else BranchesOf(txts[..|txts| - 1]) + Branches(txts[|txts| - 1])
  }

  function LeavesOf(dns: Dns, txts: seq<string>): seq<Multiaddr> {
    if txts == [] then []
    else LeavesOf(dns, txts[..|txts| - 1]) + ToSeq(Leaf(dns, txts[|txts| - 1]))
  }

  /** The answer for a hash below a domain. */
  function Answer(dns: Dns, domain: string, hash: string): seq<string> {
    dns.txt(hash + "." + domain)
  }

  function Kids(dns: Dns, domain: string, hash: string): seq<string> {
    BranchesOf(Answer(dns, domain, hash))
  }

  function Leaves(dns: Dns, domain: string, hash: string): seq<Multiaddr> {
    LeavesOf(dns, Answer(dns, domain, hash))
  }

  // ---------------------------------------------------------------- the traversal as a function

  /** Hashes still to visit (last first), hashes looked up in order, addresses found, and whether a limit cut it. */
  datatype Walk = Walk(stack: seq<string>, order: seq<string>, addrs: seq<Multiaddr>, cut: bool)

  function Visit(dns: Dns, domain: string, w: Walk): Walk
    requires w.stack != []
  {
    var hash, rest := w.stack[|w.stack| - 1], w.stack[..|w.stack| - 1];
    Walk(rest + Kids(dns, domain, hash), w.order + [hash], w.addrs + Leaves(dns, domain, hash), w.cut)
  }

  function Pop(w: Walk): Walk
    requires w.stack != []
  {
    w.(stack := w.stack[..|w.stack| - 1])
  }

  /**
   The bounded walk.  It is total for every resolver: a visit uses up one lookup, and
   dropping a hash seen before shortens the stack.
   */
  function Traverse(dns: Dns, domain: string, w: Walk, maxLookups: nat, cutoff: nat): Walk
    decreases maxLookups - |w.order|, |w.stack|
  {
    if w.stack == [] then w
    else if |w.order| >= maxLookups || |w.addrs| >= cutoff then Pop(w).(cut := true)
    else if w.stack[|w.stack| - 1] in w.order then Traverse(dns, domain, Pop(w), maxLookups, cutoff)
    else Traverse(dns, domain, Visit(dns, domain, w), maxLookups, cutoff)
  }

  /** The walk that `resolve_dns_tree` makes; without a root record only the flat addresses count. */
  function Resolve(dns: Dns, domain: string, maxLookups: nat, cutoff: nat): Walk {
    var flat := FlatOf(dns, dns.txt(domain));
    match RootOf(dns.txt(domain))
    case Some(hash) => Traverse(dns, domain, Walk([hash], [], flat, false), maxLookups, cutoff)
    case None => Walk([], [], flat, false)
  }

  // ---------------------------------------------------------------- the loops

  /** The scan of the root records. */
  method ReadRoot(dns: Dns, txts: seq<string>) returns (rootHash: Option<string>, addrs: seq<Multiaddr>)
    ensures rootHash == RootOf(txts) && addrs == FlatOf(dns, txts)
  {
    rootHash, addrs := None, [];
    for i := 0 to |txts|
      invariant rootHash == RootOf(txts[..i]) && addrs == FlatOf(dns, txts[..i])
    {
      assert txts[..i + 1][..i] == txts[..i];
      var txt := txts[i];
      if StartsWith(txt, ROOT_PREFIX) {
        var (found, part) := SecondPart(txt, HASH_MARK);
        if found {
          var word := FirstWord(part);
          rootHash := Some(if word == "" then part else word);
        }
      } else if StartsWith(txt, "/ip4/") || StartsWith(txt, "/ip6/") {
        var parsed := dns.parse(txt);
        if parsed.Some? {
          addrs := addrs + [parsed.value];
        }
      }
    }
    assert txts[..|txts|] == txts;
  }

  lemma Append<T>(a: seq<T>, b: seq<T>, c: seq<T>)
    ensures a + b + c == a + (b + c)
  {
  }

  method PushNonEmpty(stack: seq<string>, parts: seq<string>) returns (stack': seq<string>)
    ensures stack' == stack + NonEmpty(parts)
  {
    stack' := stack;
    for j := 0 to |parts|
      invariant stack' == stack + NonEmpty(parts[..j])
    {
      NonEmptySnoc(parts[..j], parts[j]);
      assert parts[..j + 1] == parts[..j] + [parts[j]];
      if parts[j] != "" {
        stack' := stack' + [parts[j]];
      }
    }
    assert parts[..|parts|] == parts;
  }

  /** One record of a branch response: children go on the stack, a leaf to the addresses. */
  method ReadRecord(dns: Dns, txt: string, stack: seq<string>, addrs: seq<Multiaddr>)
    returns (stack': seq<string>, addrs': seq<Multiaddr>)
    ensures stack' == stack + Branches(txt) && addrs' == addrs + ToSeq(Leaf(dns, txt))
  {
    stack', addrs' := stack, addrs;
    if StartsWith(txt, BRANCH_PREFIX) {
      stack' := PushNonEmpty(stack', Split(TrimStart(txt, BRANCH_PREFIX), ','));
    } else if StartsWith(txt, LEAF_PREFIX) {
      var parsed := dns.parse(TrimStart(txt, LEAF_PREFIX));
      if parsed.Some? {
        addrs' := addrs' + [parsed.value];
      }
    }
  }

  method ReadBranch(dns: Dns, txts: seq<string>, stack: seq<string>, addrs: seq<Multiaddr>)
    returns (stack': seq<string>, addrs': seq<Multiaddr>)
    ensures stack' == stack + BranchesOf(txts) && addrs' == addrs + LeavesOf(dns, txts)
  {
    stack', addrs' := stack, addrs;
    for i := 0 to |txts|
      invariant stack' == stack + BranchesOf(txts[..i]) && addrs' == addrs + LeavesOf(dns, txts[..i])
    {
      assert txts[..i + 1][..i] == txts[..i];
      Append(stack, BranchesOf(txts[..i]), Branches(txts[i]));
      Append(addrs, LeavesOf(dns, txts[..i]), ToSeq(Leaf(dns, txts[i])));
      stack', addrs' := ReadRecord(dns, txts[i], stack', addrs');
    }
    assert txts[..|txts|] == txts;
  }

  lemma {:induction false} NonEmptySnoc(parts: seq<string>, part: string)
    ensures NonEmpty(parts + [part]) == NonEmpty(parts) + if part == "" then [] else [part]
  {
    if parts != [] {
      assert (parts + [part])[1..] == parts[1..] + [part];
      NonEmptySnoc(parts[1..], part);
    }
  }

  /** `resolve_dns_tree`, with both limits as parameters. */
  method ResolveWithin(dns: Dns, domain: string, maxLookups: nat, cutoff: nat) returns (addrs: seq<Multiaddr>)
    ensures addrs == Resolve(dns, domain, maxLookups, cutoff).addrs
  {
    var rootHash;
    rootHash, addrs := ReadRoot(dns, dns.txt(domain));
    if rootHash.Some? {
      var branchesToVisit := [rootHash.value];
      var visited: set<string> := {};
      var lookups := 0;
      ghost var order: seq<string> := [];
      while branchesToVisit != []
        invariant lookups == |order| && lookups <= maxLookups
        invariant forall h :: h in visited <==> h in order
        invariant Resolve(dns, domain, maxLookups, cutoff)
                  == Traverse(dns, domain, Walk(branchesToVisit, order, addrs, false), maxLookups, cutoff)
        decreases maxLookups - lookups, |branchesToVisit|
      {
        var hash := branchesToVisit[|branchesToVisit| - 1];
        branchesToVisit := branchesToVisit[..|branchesToVisit| - 1];
        if lookups >= maxLookups || |addrs| >= cutoff {
          break;
        }
        if hash in visited {
          continue;
        }
        visited := visited + {hash};
        lookups := lookups + 1;
        order := order + [hash];
        branchesToVisit, addrs := ReadBranch(dns, Answer(dns, domain, hash), branchesToVisit, addrs);
      }
    }
  }

  method ResolveDnsTree(dns: Dns, domain: string) returns (addrs: seq<Multiaddr>)
    ensures addrs == Resolve(dns, domain, MAX_LOOKUPS, ADDRESS_CUTOFF).addrs
  {
    addrs := ResolveWithin(dns, domain, MAX_LOOKUPS, ADDRESS_CUTOFF);
  }

  // ---------------------------------------------------------------- round trips of the grammar

  function RenderBranches(hashes: seq<string>): string {
    BRANCH_PREFIX + Join(hashes, ',')
  }

  function RenderRoot(hash: string): string {
    ROOT_PREFIX + HASH_MARK + hash
  }

  lemma {:induction false} NonEmptyKeepsAll(parts: seq<string>)
    requires forall p <- parts :: p != ""
    ensures NonEmpty(parts) == parts
  {
    if parts != [] {
      assert parts[0] in parts && forall p <- parts[1..] :: p in parts;
      NonEmptyKeepsAll(parts[1..]);
    }
  }

  lemma JoinCons(head: string, rest: seq<string>)
    ensures Join([head] + rest, ',') == if rest == [] then head else head + "," + Join(rest, ',')
  {
  }

  lemma {:induction false} NonEmptyShortens(parts: seq<string>)
    ensures |Join(NonEmpty(parts), ',')| <= |Join(parts, ',')|
  {
    if parts != [] {
      var head, rest := parts[0], parts[1..];
      assert parts == [head] + rest;
      NonEmptyShortens(rest);
      JoinCons(head, rest);
      JoinCons(head, NonEmpty(rest));
      assert [] + NonEmpty(rest) == NonEmpty(rest);
    }
  }

  lemma CommaEndsPrefix(s: string, k: nat)
    requires k < |s| && k < |BRANCH_PREFIX| && s[k] == ','
    ensures !StartsWith(s, BRANCH_PREFIX)
  {
  }

  /** The first hash alone decides whether the joined list starts with the branch prefix. */
  lemma PrefixSitsInFirstHash(hashes: seq<string>)
    requires hashes != []
    ensures StartsWith(Join(hashes, ','), BRANCH_PREFIX) <==> StartsWith(hashes[0], BRANCH_PREFIX)
  {
    var s, n := Join(hashes, ','), |hashes[0]|;
    JoinCons(hashes[0], hashes[1..]);
    assert hashes == [hashes[0]] + hashes[1..];
    if |hashes| > 1 && n < |BRANCH_PREFIX| {
      assert s[n] == ',';
      CommaEndsPrefix(s, n);
    }
    assert n >= |BRANCH_PREFIX| ==> s[..|BRANCH_PREFIX|] == hashes[0][..|BRANCH_PREFIX|];
  }

  /** Reading a rendered record is reading the joined list once its own leading prefixes are gone. */
  lemma BranchesOfRendered(hashes: seq<string>)
    ensures Branches(RenderBranches(hashes)) == NonEmpty(Split(TrimStart(Join(hashes, ','), BRANCH_PREFIX), ','))
  {
  }

  predicate Proper(hashes: seq<string>) {
    forall h <- hashes :: h != "" && Lacks(h, ',')
  }

  lemma ReadHashesAreProper(txt: string)
    ensures Proper(Branches(txt))
  {
  }

  lemma RepeatedPrefixIsLost(hashes: seq<string>)
    requires hashes != [] && StartsWith(hashes[0], BRANCH_PREFIX)
    ensures Branches(RenderBranches(hashes)) != hashes
  {
    var body := Join(hashes, ',');
    BranchesOfRendered(hashes);
    PrefixSitsInFirstHash(hashes);
    var left := TrimStart(body, BRANCH_PREFIX);
    assert left == TrimStart(body[|BRANCH_PREFIX|..], BRANCH_PREFIX);
    NonEmptyShortens(Split(left, ','));
  }

  lemma ProperHashesSurvive(hashes: seq<string>)
    requires Proper(hashes) && (hashes != [] ==> !StartsWith(hashes[0], BRANCH_PREFIX))
    ensures Branches(RenderBranches(hashes)) == hashes
  {
    BranchesOfRendered(hashes);
    if hashes == [] {
      SplitSingle("", ',');
    } else {
      PrefixSitsInFirstHash(hashes);
      SplitJoin(hashes, ',');
      NonEmptyKeepsAll(hashes);
    }
  }

  /** A branch record reads back as the hashes it was made from exactly when they are proper hashes. */
  lemma BranchRoundTrip(hashes: seq<string>)
    ensures Branches(RenderBranches(hashes)) == hashes <==>
            Proper(hashes) && (hashes != [] ==> !StartsWith(hashes[0], BRANCH_PREFIX))
  {
    ReadHashesAreProper(RenderBranches(hashes));
    if hashes != [] && StartsWith(hashes[0], BRANCH_PREFIX) {
      RepeatedPrefixIsLost(hashes);
    } else if Proper(hashes) {
      ProperHashesSurvive(hashes);
    }
  }

  lemma MarkFollowsRoot(s: string, tail: string)
    requires s == RenderRoot(tail)
    ensures SecondPart(s, HASH_MARK)
            == (true, if Find(tail, HASH_MARK) == -1 then tail else tail[..Find(tail, HASH_MARK)])
  {
    var n := |ROOT_PREFIX|;
    assert At(s, HASH_MARK, n);
    assert forall j :: 0 <= j < n ==> s[j] == ROOT_PREFIX[j] && s[j] != ' ';
    forall j | At(s, HASH_MARK, j)
      ensures j >= n
    {
      assert s[j] == HASH_MARK[0];
    }
    assert s[n + |HASH_MARK|..] == tail;
  }

  /** The mark brings both a space and a letter, so it occurs neither in a word nor in white space. */
  lemma MarkIsMixed(hash: string)
    requires Find(hash, HASH_MARK) != -1
    ensures !HasNoSpace(hash) && !AllSpace(hash)
  {
    var j := Find(hash, HASH_MARK);
    assert hash[j] == HASH_MARK[0] && hash[j + 1] == HASH_MARK[1];
  }

  /** A root record reads back as its hash exactly when the hash is one word, or has no word at all. */
  lemma RootRoundTrip(hash: string)
    ensures RootHash(RenderRoot(hash)) == Some(hash) <==> HasNoSpace(hash) || AllSpace(hash)
  {
    var s := RenderRoot(hash);
    MarkFollowsRoot(s, hash);
    assert s[..|ROOT_PREFIX|] == ROOT_PREFIX;
    if Find(hash, HASH_MARK) != -1 {
      MarkIsMixed(hash);
    }
  }
}
