/**
 From a Host header to a TLD, a base domain and a subdomain (`handle_proxy_request` and
 `extract_base_domain_and_subdomain`), and which registry keys a header can reach.
 */
module HostNames {
  import opened Wrappers
  import opened Text
  import Registry

  // ---------------------------------------------------------------- the header

  /** The text that `HeaderValue::to_str` admits. */
  predicate HeaderText(s: string) {
    forall i :: 0 <= i < |s| ==> s[i] == '\t' || ' ' <= s[i] <= '~'
  }

  /** The host without its port, lower-cased, and its TLD with the dot; `None` stands for an invalid request. */
  function HostAndTld(header: Option<string>): Option<(string, string)> {
    if header.None? || !HeaderText(header.value) then None
    else
      var full := Lower(Split(header.value, ':')[0]);
      var i := RFind(full, '.');
      if i == -1 then None else Some((full, full[i..]))
  }

  /** The handler's TLD is always a dot and the last label of the host. */
  lemma {:induction false} TldIsLastLabel(header: Option<string>)
    requires HostAndTld(header).Some?
    ensures var (full, tld) := HostAndTld(header).value;
            && tld != "" && tld[0] == '.' && Lacks(tld[1..], '.')
            && EndsWith(full, tld) && Lower(full) == full && Lacks(full, ':')
  {
    var (full, tld) := HostAndTld(header).value;
    var host := Split(header.value, ':')[0];
    assert host in Split(header.value, ':');
    LowerKeepsLacking(host, ':');
    LowerIsStable(host);
    var i := RFind(full, '.');
    assert tld[1..] == full[i + 1..];
    assert full[|full| - |tld|..] == tld;
  }

  /** Some Host header makes the handler ask the registry for the key. */
  ghost predicate CanBeLookedUp(key: string) {
    exists header :: HostAndTld(header).Some? && HostAndTld(header).value.1 == key
  }

  /** Header text in lower case without dots and colons. */
  predicate Plain(name: string) {
    HeaderText(name) && Lower(name) == name && Lacks(name, '.') && Lacks(name, ':')
  }

  /**
   A TLD is looked up for some Host header exactly when its name is header text in lower
   case without dots and colons: other registry keys can never be hit.
   */
  lemma {:induction false} KeyIsReachable(name: string)
    ensures CanBeLookedUp("." + name) <==> Plain(name)
  {
    if header :| HostAndTld(header).Some? && HostAndTld(header).value.1 == "." + name {
      ReachedKeyIsPlain(header, name);
    }
    if Plain(name) {
      PlainKeyIsReached(name);
    }
  }

  lemma {:induction false} ReachedKeyIsPlain(header: Option<string>, name: string)
    requires HostAndTld(header).Some? && HostAndTld(header).value.1 == "." + name
    ensures Plain(name)
  {
    TldIsLastLabel(header);
    var (full, tld) := HostAndTld(header).value;
    HostIsHeaderText(header.value);
    assert tld[1..] == name;
    TailOfSuffix(full, tld);
    SuffixIsPlain(Split(header.value, ':')[0], full, name);
  }

  lemma TailOfSuffix(s: string, p: string)
    requires EndsWith(s, p) && p != ""
    ensures EndsWith(s, p[1..])
  {
  }

  lemma {:induction false} SuffixIsPlain(host: string, full: string, name: string)
    requires HeaderText(host) && full == Lower(host) && Lower(full) == full && Lacks(full, ':') && EndsWith(full, name)
    ensures HeaderText(name) && Lower(name) == name && Lacks(name, ':')
  {
    var n := |full| - |name|;
    LowerIsHeaderText(host);
    LowerOfSuffix(full, n);
    assert full == full[..n] + name;
  }

  lemma LowerIsHeaderText(s: string)
    requires HeaderText(s)
    ensures HeaderText(Lower(s))
  {
  }

  lemma HostIsHeaderText(s: string)
    requires HeaderText(s)
    ensures HeaderText(Split(s, ':')[0])
  {
  }

  lemma PlainKeyIsReached(name: string)
    requires Plain(name)
    ensures HostAndTld(Some("a." + name)) == Some(("a." + name, "." + name))
  {
    var host := "a." + name;
    SplitSingle(host, ':');
    assert Lower(host) == host;
    assert host[1..] == "." + name && host[2..] == name;
    RFindIs(host, '.', 1);
  }

  /** Which of the keys that a load produces can ever be returned to the handler. */
  lemma {:induction false} RegistryKeyIsReachable(g: Registry.AtlasConfig, entries: seq<Registry.DirEntry>, key: string)
    requires key in Registry.Load(g, entries)
    ensures key != ""
    ensures CanBeLookedUp(key) <==> Plain(key[1..])
  {
    Registry.KeysAreClean(g, entries, key);
    assert key == "." + key[1..];
    KeyIsReachable(key[1..]);
  }

  /** An input: the file of a capitalised TLD is loaded under a key that no request can hit. */
  lemma CapitalTldIsLoadedInVain(id: string)
    ensures var file := Registry.DirEntry("kin.json", Some(Registry.NetworkConfig(id, "Kin", [], None, None)));
            "." + "Kin" in Registry.Load(Registry.AtlasConfig([], []), [file])
    ensures !CanBeLookedUp("." + "Kin")
  {
    var file := Registry.DirEntry("kin.json", Some(Registry.NetworkConfig(id, "Kin", [], None, None)));
    RFindIs("kin.json", '.', 3);
    assert "kin.json"[4..] == "json";
    Registry.JsonFileClaims(file);
    Registry.FirstClaimWins(Registry.AtlasConfig([], []), [file], "." + "Kin", 0);
    assert Lower("Kin")[0] == 'k';
    KeyIsReachable("Kin");
  }

  // ---------------------------------------------------------------- extraction

  function Extract(fullDomain: string, cleanTld: string): Option<(string, string)> {
    var parts := Split(TrimEnd(fullDomain, cleanTld), '.');
    if parts[0] == "" then None
    else
      var registeredName := parts[|parts| - 1];
      Some((registeredName + cleanTld,
            if |parts| > 1 then Join(parts[..|parts| - 1], '.') else "@"))
  }

  /** The text before the last label and that label; the base domain is the label with the TLD. */
  ghost predicate Divides(stripped: string, name: string, sub: string) {
    || (stripped == name && sub == "@")
    || stripped == sub + "." + name
  }

  /**
   Extraction is canonical.  The host is the stripped prefix and as many copies of the TLD
   as possible; there is no result exactly when the prefix is empty or begins with a dot;
   and a result names the last label of the prefix and everything before it.
   */
  lemma {:induction false} ExtractionIsCanonical(full: string, tld: string)
    requires tld != ""
    ensures var p := TrimEnd(full, tld);
            && full == p + Repeat(tld, Copies(full, tld))
            && (forall q, k: nat :: full == q + Repeat(tld, k) ==> k <= Copies(full, tld))
            && (Extract(full, tld).None? <==> p == "" || p[0] == '.')
            && (Extract(full, tld).Some? ==>
                  exists name :: Lacks(name, '.') && Extract(full, tld).value.0 == name + tld
                                 && Divides(p, name, Extract(full, tld).value.1))
  {
    var p := TrimEnd(full, tld);
    forall q, k: nat | full == q + Repeat(tld, k)
      ensures k <= Copies(full, tld)
    {
      TrimEndIsMaximal(full, tld, q, k);
    }
    SplitFirstEmpty(p, '.');
    if Extract(full, tld).Some? {
      var parts := Split(p, '.');
      var name := parts[|parts| - 1];
      assert name in parts;
      if |parts| > 1 {
        SplitUnlast(p, '.');
      }
      assert Divides(p, name, Extract(full, tld).value.1);
    }
  }

  /** A label does not end with a TLD, since that begins with a dot. */
  lemma LabelKeepsItsEnd(name: string, t: string)
    requires Lacks(name, '.')
    ensures TrimEnd(name, "." + t) == name
  {
    var k := |name| - 1 - |t|;
    assert k >= 0 ==> name[k..][0] == name[k] && name[k] in name;
  }

  lemma TrimOnce(s: string, tld: string)
    requires tld != ""
    ensures TrimEnd(s + tld, tld) == TrimEnd(s, tld)
  {
  }

  /** Extracting from a base domain again gives that base domain, unless its name is empty. */
  lemma ReExtraction(name: string, t: string)
    requires Lacks(name, '.')
    ensures Extract(name + "." + t, "." + t) == if name == "" then None else Some((name + "." + t, "@"))
  {
    var tld := "." + t;
    assert name + "." + t == name + tld;
    TrimOnce(name, tld);
    LabelKeepsItsEnd(name, t);
    SplitSingle(name, '.');
  }

  lemma LastLabelDecides(sub: string, name: string, t: string)
    requires Lacks(name, '.') && Lacks(t, '.') && EndsWith(sub + "." + name, "." + t)
    ensures name == t
  {
    var s := sub + "." + name;
    var front := s[..|s| - 1 - |t|];
    assert s == front + "." + t;
    SplitLast(sub, name, '.');
    SplitLast(front, t, '.');
    assert (Split(sub, '.') + [name])[|Split(s, '.')| - 1] == (Split(front, '.') + [t])[|Split(s, '.')| - 1];
  }

  /** The host made of a subdomain, a name and a TLD label. */
  function Joined(sub: string, name: string, t: string): string {
    sub + "." + name + ("." + t)
  }

  /** A domain whose last label differs from the TLD's is stripped exactly once. */
  lemma StripsOnce(sub: string, name: string, t: string)
    requires Lacks(name, '.') && Lacks(t, '.') && name != t
    ensures TrimEnd(Joined(sub, name, t), "." + t) == sub + "." + name
  {
    var s, tld := sub + "." + name, "." + t;
    TrimOnce(s, tld);
    if EndsWith(s, tld) {
      LastLabelDecides(sub, name, t);
    }
  }

  /** The result for a host that is a subdomain, a name and a TLD other than the name. */
  lemma ExtractFromParts(sub: string, name: string, t: string)
    requires Lacks(name, '.') && Lacks(t, '.') && name != t
    ensures Extract(Joined(sub, name, t), "." + t)
            == if sub == "" || sub[0] == '.' then None else Some((name + "." + t, sub))
  {
    StripsOnce(sub, name, t);
    SplitLast(sub, name, '.');
    SplitFirstEmpty(sub, '.');
    var parts := Split(sub, '.');
    assert (parts + [name])[..|parts|] == parts;
    assert name + ("." + t) == name + "." + t;
  }

  /** When the name equals the TLD's label, both copies are stripped and the subdomain is read as the whole. */
  lemma ExtractFromDoubled(sub: string, t: string)
    requires Lacks(t, '.')
    ensures Extract(Joined(sub, t, t), "." + t) == Extract(sub, "." + t)
  {
    var tld := "." + t;
    TrimOnce(sub + tld, tld);
    TrimOnce(sub, tld);
    assert sub + "." + t == sub + tld;
  }

  /** What is extracted from a text never has that whole text as its subdomain, except for the lone "@". */
  lemma SubdomainIsShorter(s: string, tld: string)
    requires tld != "" && Extract(s, tld).Some? && Extract(s, tld).value.1 == s
    ensures s == "@"
  {
    var p := TrimEnd(s, tld);
    if |Split(p, '.')| > 1 {
      SplitUnlast(p, '.');
    }
  }

  /** A text that is empty or begins with a dot yields nothing. */
  lemma NoLeadingDot(s: string, tld: string)
    requires s == "" || s[0] == '.'
    ensures Extract(s, tld).None?
  {
  }

  lemma LoneAt(t: string)
    requires Lacks(t, '.')
    ensures Extract("@", "." + t) == Some(("@" + "." + t, "@"))
    ensures "@" + "." + t == t + "." + t <==> t == "@"
  {
    LabelKeepsItsEnd("@", t);
    SplitSingle("@", '.');
    assert "@" + ("." + t) == "@" + "." + t;
    if "@" + "." + t == t + "." + t {
      assert |"@" + "." + t| == |t + "." + t|;
      assert ("@" + "." + t)[0] == (t + "." + t)[0];
    }
  }

  /** A proper subdomain, and a name other than the TLD's label or the lone "@" three times over. */
  predicate ReadsBack(sub: string, name: string, t: string) {
    sub != "" && sub[0] != '.' && (name != t || (t == "@" && sub == "@"))
  }

  /**
   Extraction inverts joining exactly when the subdomain is a proper one and the name differs
   from the TLD's label; the one exception is a host made of three "@" labels.
   */
  lemma ExtractionInvertsJoining(sub: string, name: string, t: string)
    requires Lacks(name, '.') && Lacks(t, '.')
    ensures Extract(Joined(sub, name, t), "." + t) == Some((name + "." + t, sub)) <==> ReadsBack(sub, name, t)
  {
    if name != t {
      ExtractFromParts(sub, name, t);
    } else {
      ExtractFromDoubled(sub, t);
      if sub == "" || sub[0] == '.' {
        NoLeadingDot(sub, "." + t);
      } else if sub == "@" {
        LoneAt(t);
      } else if Extract(sub, "." + t).Some? && Extract(sub, "." + t).value.1 == sub {
        SubdomainIsShorter(sub, "." + t);
      }
    }
  }

  lemma {:induction false} LastDot(front: string, t: string)
    requires Lacks(t, '.')
    ensures RFind(front + ("." + t), '.') == |front| && (front + ("." + t))[|front|..] == "." + t
  {
    var full := front + ("." + t);
    assert full[|front| + 1..] == t;
    RFindIs(full, '.', |front|);
  }

  lemma {:induction false} CutAt(header: string, full: string, i: nat)
    requires HeaderText(header) && Lower(Split(header, ':')[0]) == full && RFind(full, '.') == i
    ensures HostAndTld(Some(header)).Some?
    ensures HostAndTld(Some(header)).value.0 == full && HostAndTld(Some(header)).value.1 == full[i..]
  {
  }

  /**
   From the raw header to the names used in the DHT: whatever its case and port, a host
   `sub.name.t` is looked up as `name.t` with subdomain `sub` exactly under the condition above.
   */
  lemma {:induction false} HeaderNamesItsDomain(header: string, sub: string, name: string, t: string)
    requires HeaderText(header) && Lower(Split(header, ':')[0]) == Joined(sub, name, t)
    requires Lacks(name, '.') && Lacks(t, '.')
    ensures HostAndTld(Some(header)).Some?
    ensures HostAndTld(Some(header)).value.0 == Joined(sub, name, t) && HostAndTld(Some(header)).value.1 == "." + t
    ensures Extract(Joined(sub, name, t), "." + t) == Some((name + "." + t, sub)) <==> ReadsBack(sub, name, t)
  {
    LastDot(sub + "." + name, t);
    CutAt(header, Joined(sub, name, t), |sub + "." + name|);
    ExtractionInvertsJoining(sub, name, t);
  }

  lemma {:induction false} ExtractApex(name: string, t: string)
    requires Lacks(name, '.') && name != ""
    ensures Extract(name + ("." + t), "." + t) == Some((name + ("." + t), "@"))
  {
    TrimOnce(name, "." + t);
    LabelKeepsItsEnd(name, t);
    SplitSingle(name, '.');
  }

  /** A host of two labels is itself the base domain. */
  lemma {:induction false} HeaderNamesApex(header: string, name: string, t: string)
    requires HeaderText(header) && Lower(Split(header, ':')[0]) == name + ("." + t)
    requires Lacks(name, '.') && Lacks(t, '.') && name != ""
    ensures HostAndTld(Some(header)).Some?
    ensures HostAndTld(Some(header)).value.0 == name + ("." + t) && HostAndTld(Some(header)).value.1 == "." + t
    ensures Extract(name + ("." + t), "." + t) == Some((name + ("." + t), "@"))
  {
    LastDot(name, t);
    CutAt(header, name + ("." + t), |name|);
    ExtractApex(name, t);
  }

  predicate Printable(c: char) {
    c as int == 9 || 32 <= c as int <= 126
  }

  lemma {:induction false} TextIsPrintable(s: string)
    ensures HeaderText(s) <==> forall c <- s :: Printable(c)
  {
    if forall c <- s :: Printable(c) {
      forall i | 0 <= i < |s|
        ensures s[i] == '\t' || ' ' <= s[i] <= '~'
      {
        assert Printable(s[i]);
      }
    }
  }

  /** A missing header, one with a control or non-ASCII character, and a host without a dot name nothing. */
  lemma {:induction false} NoHost(header: Option<string>)
    ensures HostAndTld(header).None? <==>
            || header.None?
            || (exists c <- header.value :: !Printable(c))
            || '.' !in Split(header.value, ':')[0]
  {
    if header.Some? {
      TextIsPrintable(header.value);
      DotSurvives(Split(header.value, ':')[0]);
    }
  }

  lemma {:induction false} DotSurvives(s: string)
    ensures '.' in Lower(s) <==> '.' in s
  {
    forall i | 0 <= i < |s|
      ensures Lower(s)[i] == '.' <==> s[i] == '.'
    {
      LowerCharIsAscii(s[i]);
    }
  }

  /** The law that the tests assert for every name and TLD fails for `a.t.t`. */
  lemma DoubledTldIsMisread()
    ensures Extract("a.kin.kin", ".kin") == Some(("a.kin", "@"))
  {
    assert "a.kin.kin" == Joined("a", "kin", "kin");
    assert ".kin" == "." + "kin";
    ExtractFromDoubled("a", "kin");
    LabelKeepsItsEnd("a", "kin");
    SplitSingle("a", '.');
    assert "a" + ".kin" == "a.kin";
  }
}
