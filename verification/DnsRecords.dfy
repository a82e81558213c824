/**
 The records of the `kintree` protocol as they are written: what each kind of record
 means, in the literal text of the protocol, and what a whole small tree resolves to.
 */
module DnsRecords {
  import opened Wrappers
  import opened Text
  import opened DnsTree

  // ---------------------------------------------------------------- leaves and branches

  /** A leaf record adds the address behind its prefix, however often the prefix is repeated. */
  lemma {:induction false} LeafRoundTrip(dns: Dns, copies: nat, t: string)
    requires !StartsWith(t, "kintree-leaf:")
    ensures Leaf(dns, "kintree-leaf:" + (Repeat("kintree-leaf:", copies) + t)) == dns.parse(t)
    ensures Branches("kintree-leaf:" + (Repeat("kintree-leaf:", copies) + t)) == []
  {
    var txt := "kintree-leaf:" + (Repeat("kintree-leaf:", copies) + t);
    RepeatFront("kintree-leaf:", copies);
    assert txt == Repeat("kintree-leaf:", copies + 1) + t;
    TrimsRepeated("kintree-leaf:", copies + 1, t);
    assert txt[..13] == "kintree-leaf:";
    assert txt[8] == 'l';
  }

  /** A branch record adds its hashes in order, if they are proper ones, and no address. */
  lemma {:induction false} BranchRecord(dns: Dns, hashes: seq<string>)
    requires hashes != [] && !StartsWith(hashes[0], "kintree-branch:")
    requires forall h <- hashes :: h != "" && ',' !in h
    ensures Branches("kintree-branch:" + Join(hashes, ',')) == hashes
    ensures Leaf(dns, "kintree-branch:" + Join(hashes, ',')) == None
  {
    BranchRoundTrip(hashes);
    assert ("kintree-branch:" + Join(hashes, ','))[..15] == "kintree-branch:";
  }

  /** Any other record adds nothing. */
  lemma OtherRecord(dns: Dns, txt: string)
    requires !StartsWith(txt, "kintree-branch:") && !StartsWith(txt, "kintree-leaf:")
    ensures Branches(txt) == [] && Leaf(dns, txt) == None
  {
  }

  // ---------------------------------------------------------------- root records

  /** The hash is the first word behind the mark; what follows it and what stands before the mark does not matter. */
  lemma {:induction false} RootRecord(before: string, word: string, after: string)
    requires Lacks(before, '=') && word != "" && HasNoSpace(word)
    requires after == "" || IsWhitespace(after[0])
    ensures RootHash("kintree-root:v1" + before + " e=" + word + after) == Some(word)
  {
    var start := "kintree-root:v1" + before;
    var tail := word + after;
    var txt := start + " e=" + tail;
    assert txt == "kintree-root:v1" + before + " e=" + word + after;
    assert txt[..15] == "kintree-root:v1";
    MarkIsFirst(start, tail);
    var part := SecondPart(txt, " e=").1;
    assert part == if Find(tail, " e=") == -1 then tail else tail[..Find(tail, " e=")];
    WordBeforeMark(word, after);
    FirstWordOf(word, part[|word|..]);
    assert part == word + part[|word|..];
  }

  /** White space are the 25 characters that Unicode gives the property `White_Space`. */
  lemma WhiteSpaceCharacters(c: char)
    ensures IsWhitespace(c) <==> c as int in [
              9, 10, 11, 12, 13, 32, 133, 160, 5760, 8192, 8193, 8194, 8195, 8196, 8197, 8198, 8199, 8200,
              8201, 8202, 8232, 8233, 8239, 8287, 12288]
  {
  }

  lemma {:induction false} MarkIsFirst(start: string, tail: string)
    requires Lacks(start, '=')
    ensures SecondPart(start + " e=" + tail, " e=")
            == (true, if Find(tail, " e=") == -1 then tail else tail[..Find(tail, " e=")])
  {
    var s, n := start + " e=" + tail, |start|;
    assert At(s, " e=", n);
    assert forall m :: 0 <= m < n ==> s[m] == start[m] && s[m] != '=';
    assert s[n] == ' ' && s[n + 1] == 'e';
    forall j | At(s, " e=", j)
      ensures j >= n
    {
      assert s[j + 2] == " e="[2];
    }
    assert s[n + 3..] == tail;
  }

  /** A later mark comes behind the word. */
  lemma {:induction false} WordBeforeMark(word: string, after: string)
    requires HasNoSpace(word) && (after == "" || IsWhitespace(after[0]))
    ensures var part := if Find(word + after, " e=") == -1 then word + after
                        else (word + after)[..Find(word + after, " e=")];
            |word| <= |part| && part[..|word|] == word && (|word| < |part| ==> IsWhitespace(part[|word|]))
  {
    var tail := word + after;
    assert forall m :: 0 <= m < |word| ==> tail[m] == word[m] && tail[m] != ' ';
    forall k | At(tail, " e=", k)
      ensures k >= |word|
    {
      assert tail[k] == " e="[0];
    }
    assert tail[..|word|] == word;
  }

  lemma {:induction false} FirstWordOf(word: string, rest: string)
    requires word != "" && HasNoSpace(word) && (rest == "" || IsWhitespace(rest[0]))
    ensures FirstWord(word + rest) == word
  {
    WordOf(word, rest);
  }

  lemma {:induction false} WordOf(word: string, rest: string)
    requires HasNoSpace(word) && (rest == "" || IsWhitespace(rest[0]))
    ensures Word(word + rest) == word
  {
    if word != "" {
      assert (word + rest)[1..] == word[1..] + rest;
      WordOf(word[1..], rest);
    } else {
      assert word + rest == rest;
    }
  }

  /** A record without the prefix or without the mark carries no hash. */
  lemma RootRecordOrNot(txt: string)
    ensures RootHash(txt).Some? <==> StartsWith(txt, "kintree-root:v1") && exists j :: At(txt, " e=", j)
  {
    assert Find(txt, " e=") >= 0 ==> At(txt, " e=", Find(txt, " e="));
  }

  lemma {:induction false} RootOfSnoc(txts: seq<string>, last: string)
    ensures RootOf(txts + [last]) == if RootHash(last).Some? then RootHash(last) else RootOf(txts)
  {
    assert (txts + [last])[..|txts|] == txts;
  }

  /** Of several root records that carry a hash, the last one counts. */
  lemma {:induction false} LastRootCounts(before: seq<string>, root: string, after: seq<string>)
    requires RootHash(root).Some? && forall txt <- after :: RootHash(txt).None?
    ensures RootOf(before + [root] + after) == RootHash(root)
  {
    if after == [] {
      RootOfSnoc(before, root);
      assert before + [root] + after == before + [root];
    } else {
      var rest, last := after[..|after| - 1], after[|after| - 1];
      assert before + [root] + after == (before + [root] + rest) + [last];
      RootOfSnoc(before + [root] + rest, last);
      LastRootCounts(before, root, rest);
    }
  }

  /** A record that begins like an address adds what it parses to, whole; no other adds an address at the root. */
  lemma FlatRecord(dns: Dns, txt: string)
    ensures StartsWith(txt, "/ip4/") || StartsWith(txt, "/ip6/") ==>
              FlatAddress(dns, txt) == dns.parse(txt) && RootHash(txt) == None
    ensures !StartsWith(txt, "/ip4/") && !StartsWith(txt, "/ip6/") ==> FlatAddress(dns, txt) == None
  {
    assert StartsWith(txt, "kintree-root:v1") ==> txt[0] == 'k';
    assert StartsWith(txt, "/ip4/") || StartsWith(txt, "/ip6/") ==> txt[0] == '/';
  }

  // ---------------------------------------------------------------- whole responses

  /** The addresses that these texts parse to, in order. */
  function Parsed(dns: Dns, ts: seq<string>): seq<Multiaddr> {
    if ts == [] then [] else Parsed(dns, ts[..|ts| - 1]) + ToSeq(dns.parse(ts[|ts| - 1]))
  }

  function LeafRecords(ts: seq<string>): (txts: seq<string>)
    ensures |txts| == |ts|
  {
    if ts == [] then [] else LeafRecords(ts[..|ts| - 1]) + ["kintree-leaf:" + ts[|ts| - 1]]
  }

  ghost predicate BareAddresses(ts: seq<string>) {
    forall t <- ts :: !StartsWith(t, "kintree-leaf:")
  }

  lemma {:induction false} LeafResponse(dns: Dns, ts: seq<string>)
    requires BareAddresses(ts)
    ensures LeavesOf(dns, LeafRecords(ts)) == Parsed(dns, ts) && BranchesOf(LeafRecords(ts)) == []
  {
    if ts != [] {
      var front, last := ts[..|ts| - 1], ts[|ts| - 1];
      assert last in ts && forall t <- front :: t in ts;
      LeafResponse(dns, front);
      LeafRoundTrip(dns, 0, last);
      assert Repeat("kintree-leaf:", 0) + last == last;
      var txts := LeafRecords(ts);
      assert txts[..|txts| - 1] == LeafRecords(front) && txts[|txts| - 1] == "kintree-leaf:" + last;
    }
  }

  /** Flat records at the root give their addresses in order. */
  lemma {:induction false} FlatResponse(dns: Dns, txts: seq<string>)
    requires forall txt <- txts :: StartsWith(txt, "/ip4/") || StartsWith(txt, "/ip6/")
    ensures FlatOf(dns, txts) == Parsed(dns, txts) && RootOf(txts) == None
  {
    if txts != [] {
      assert txts[|txts| - 1] in txts && forall txt <- txts[..|txts| - 1] :: txt in txts;
      FlatResponse(dns, txts[..|txts| - 1]);
      FlatRecord(dns, txts[|txts| - 1]);
    }
  }

  // ---------------------------------------------------------------- a whole tree

  /** A root that leads to a branch with two children, each of which has leaves. */
  ghost predicate TwoLevelTree(dns: Dns, domain: string, r: string, x: string, y: string,
                               flat: seq<string>, ts: seq<string>, us: seq<string>) {
    && r != "" && HasNoSpace(r) && r != x && r != y && x != y
    && x != "" && ',' !in x && !StartsWith(x, "kintree-branch:") && y != "" && ',' !in y
    && (forall txt <- flat :: StartsWith(txt, "/ip4/") || StartsWith(txt, "/ip6/"))
    && BareAddresses(ts) && BareAddresses(us)
    && dns.txt(domain) == flat + ["kintree-root:v1 e=" + r]
    && dns.txt(r + "." + domain) == ["kintree-branch:" + x + "," + y]
    && dns.txt(x + "." + domain) == LeafRecords(ts)
    && dns.txt(y + "." + domain) == LeafRecords(us)
  }

  lemma {:induction false} ApexOfTree(dns: Dns, domain: string, r: string, flat: seq<string>)
    requires r != "" && HasNoSpace(r) && dns.txt(domain) == flat + ["kintree-root:v1 e=" + r]
    requires forall txt <- flat :: StartsWith(txt, "/ip4/") || StartsWith(txt, "/ip6/")
    ensures RootOf(dns.txt(domain)) == Some(r) && FlatOf(dns, dns.txt(domain)) == Parsed(dns, flat)
  {
    var txts, last := dns.txt(domain), "kintree-root:v1 e=" + r;
    assert last == "kintree-root:v1" + "" + " e=" + r + "";
    RootRecord("", r, "");
    assert txts[|txts| - 1] == last && txts[..|txts| - 1] == flat;
    FlatResponse(dns, flat);
    assert last[0] == 'k';
    FlatRecord(dns, last);
  }

  lemma {:induction false} BranchOfTree(dns: Dns, domain: string, r: string, x: string, y: string)
    requires x != "" && ',' !in x && !StartsWith(x, "kintree-branch:") && y != "" && ',' !in y
    requires dns.txt(r + "." + domain) == ["kintree-branch:" + x + "," + y]
    ensures Kids(dns, domain, r) == [x, y] && Leaves(dns, domain, r) == []
  {
    var txt := "kintree-branch:" + x + "," + y;
    assert Join([x, y], ',') == x + "," + y;
    assert txt == "kintree-branch:" + Join([x, y], ',');
    BranchRecord(dns, [x, y]);
    assert [txt][..0] == [] && [txt][0] == txt;
    assert BranchesOf([txt]) == BranchesOf([]) + Branches(txt);
    assert LeavesOf(dns, [txt]) == LeavesOf(dns, []) + ToSeq(Leaf(dns, txt));
  }

  /**
   The walk of a two-level tree, with the program's limits: the flat addresses, then the leaves
   below the last child and then those below the first, if the limit of fifty is not reached before.
   */
  lemma {:induction false} TwoLevelTreeResolves(dns: Dns, domain: string, r: string, x: string, y: string,
                                                flat: seq<string>, ts: seq<string>, us: seq<string>)
    requires TwoLevelTree(dns, domain, r, x, y, flat, ts, us)
    requires |Parsed(dns, flat)| + |Parsed(dns, us)| < 50
    ensures var w := Resolve(dns, domain, MAX_LOOKUPS, ADDRESS_CUTOFF);
            w.order == [r, y, x] && w.addrs == Parsed(dns, flat) + Parsed(dns, us) + Parsed(dns, ts)
  {
    ApexOfTree(dns, domain, r, flat);
    BranchOfTree(dns, domain, r, x, y);
    LeafResponse(dns, ts);
    LeafResponse(dns, us);
    ThreeLookups(dns, domain, r, x, y);
  }

  /** Below the limits, a hash not seen before is looked up. */
  lemma {:induction false} NextLookup(dns: Dns, domain: string, rest: seq<string>, hash: string,
                                      order: seq<string>, addrs: seq<Multiaddr>)
    requires hash !in order && |order| < 20 && |addrs| < 50
    ensures Traverse(dns, domain, Walk(rest + [hash], order, addrs, false), MAX_LOOKUPS, ADDRESS_CUTOFF)
            == Traverse(dns, domain, Walk(rest + Kids(dns, domain, hash), order + [hash],
                                          addrs + Leaves(dns, domain, hash), false), MAX_LOOKUPS, ADDRESS_CUTOFF)
  {
    assert (rest + [hash])[..|rest + [hash]| - 1] == rest;
  }

  lemma {:induction false} LastLookup(dns: Dns, domain: string, x: string, order: seq<string>, addrs: seq<Multiaddr>)
    requires x !in order && |order| < 20 && |addrs| < 50 && Kids(dns, domain, x) == []
    ensures Traverse(dns, domain, Walk([x], order, addrs, false), MAX_LOOKUPS, ADDRESS_CUTOFF)
            == Walk([], order + [x], addrs + Leaves(dns, domain, x), false)
  {
    NextLookup(dns, domain, [], x, order, addrs);
    assert [] + [x] == [x];
  }

  lemma {:induction false} LastTwoLookups(dns: Dns, domain: string, x: string, y: string,
                                          order: seq<string>, addrs: seq<Multiaddr>)
    requires y !in order && x !in order + [y] && |order| < 19
    requires |addrs| + |Leaves(dns, domain, y)| < 50
    requires Kids(dns, domain, x) == [] && Kids(dns, domain, y) == []
    ensures Traverse(dns, domain, Walk([x, y], order, addrs, false), MAX_LOOKUPS, ADDRESS_CUTOFF)
            == Walk([], order + [y] + [x], addrs + Leaves(dns, domain, y) + Leaves(dns, domain, x), false)
  {
    NextLookup(dns, domain, [x], y, order, addrs);
    assert [x] + [y] == [x, y] && [x] + [] == [x];
    LastLookup(dns, domain, x, order + [y], addrs + Leaves(dns, domain, y));
  }

  /** A root with two children that have none takes three lookups. */
  lemma {:induction false} ThreeLookups(dns: Dns, domain: string, r: string, x: string, y: string)
    requires RootOf(dns.txt(domain)) == Some(r) && r != x && r != y && x != y
    requires Kids(dns, domain, r) == [x, y] && Leaves(dns, domain, r) == []
    requires Kids(dns, domain, x) == [] && Kids(dns, domain, y) == []
    requires |FlatOf(dns, dns.txt(domain))| + |Leaves(dns, domain, y)| < 50
    ensures Resolve(dns, domain, MAX_LOOKUPS, ADDRESS_CUTOFF)
            == Walk([], [r, y, x],
                    FlatOf(dns, dns.txt(domain)) + Leaves(dns, domain, y) + Leaves(dns, domain, x), false)
  {
    var f := FlatOf(dns, dns.txt(domain));
    NextLookup(dns, domain, [], r, [], f);
    assert [] + [r] == [r] && [] + [x, y] == [x, y] && f + [] == f;
    LastTwoLookups(dns, domain, x, y, [r], f);
    assert [r] + [y] + [x] == [r, y, x];
  }
}
