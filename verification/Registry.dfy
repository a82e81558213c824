/** The registry of networks by TLD (`TldRegistry`), loaded from a directory of files. */
module Registry {
  import opened Wrappers
  import opened Text

  datatype NetworkConfig = NetworkConfig(
    networkId: string,
    tld: string,
    bootstrapNodes: seq<string>,
    seedDomain: Option<string>,
    ipfsGateway: Option<string>)

  datatype AtlasConfig = AtlasConfig(whitelist: seq<string>, blacklist: seq<string>)

  /** A directory entry, and what reading and parsing its file yields. */
  datatype DirEntry = DirEntry(fileName: string, config: Option<NetworkConfig>)

  /** The networks directory: absent, present but unlistable, or listed in some order. */
  datatype Directory = Missing | Unlistable | Listed(entries: seq<DirEntry>)

  /** `Path::extension` is the given one: what follows the last dot, unless that dot begins the name. */
  predicate HasExtension(fileName: string, extension: string) {
    var i := RFind(fileName, '.');
    i > 0 && fileName[i + 1..] == extension
  }

  function TldName(config: NetworkConfig): string {
    TrimStart(config.tld, ".")
  }

  function CleanTld(config: NetworkConfig): string {
    "." + TldName(config)
  }

  predicate IsNetworkFile(e: DirEntry) {
    HasExtension(e.fileName, "json") && e.config.Some?
  }

  predicate Excluded(g: AtlasConfig, tldName: string) {
    (g.whitelist != [] && tldName !in g.whitelist) || tldName in g.blacklist
  }

  /** The file is a readable network file that neither list excludes. */
  predicate Admits(g: AtlasConfig, e: DirEntry) {
    IsNetworkFile(e) && !Excluded(g, TldName(e.config.value))
  }

  predicate Claims(g: AtlasConfig, e: DirEntry, key: string) {
    Admits(g, e) && CleanTld(e.config.value) == key
  }

  /** An admitted file is added under its key unless the key is taken. */
  function Added(networks: map<string, NetworkConfig>, g: AtlasConfig, e: DirEntry): map<string, NetworkConfig> {
    if Admits(g, e) && CleanTld(e.config.value) !in networks
    then networks[CleanTld(e.config.value) := e.config.value]
    else networks
  }

  function Load(g: AtlasConfig, entries: seq<DirEntry>): map<string, NetworkConfig> {
    if entries == [] then map[]
    else Added(Load(g, entries[..|entries| - 1]), g, entries[|entries| - 1])
  }

  class TldRegistry {
    var networks: map<string, NetworkConfig>

    constructor ()
      ensures networks == map[]
    {
      networks := map[];
    }

    /** A missing directory leaves the registry alone; an existing one replaces it, even by nothing. */
    method LoadFromDir(dir: Directory, g: AtlasConfig)
      modifies this
      ensures networks == match dir
                          case Missing => old(networks)
                          case Unlistable => map[]
                          case Listed(entries) => Load(g, entries)
    {
      if dir.Missing? {
        return;
      }
      networks := map[];
      if dir.Listed? {
        for i := 0 to |dir.entries|
          invariant networks == Load(g, dir.entries[..i])
        {
          assert dir.entries[..i + 1][..i] == dir.entries[..i];
          LoadEntry(dir.entries[i], g);
        }
        assert dir.entries[..|dir.entries|] == dir.entries;
      }
    }

    /** One turn of the loop over the directory. */
    method LoadEntry(entry: DirEntry, g: AtlasConfig)
      modifies this
      ensures networks == Added(old(networks), g, entry)
    {
      if IsNetworkFile(entry) {
        var config := entry.config.value;
        var cleanTld, tldName := CleanTld(config), TldName(config);
        var isWhitelisted := g.whitelist == [] || tldName in g.whitelist;
        var isBlacklisted := g.blacklist != [] && tldName in g.blacklist;
        if isWhitelisted && !isBlacklisted && cleanTld !in networks {
          networks := networks[cleanTld := config];
        }
      }
    }

    function GetConfig(tld: string): (config: Option<NetworkConfig>)
      reads this
      ensures config.Some? <==> tld in networks
      ensures config.Some? ==> config.value == networks[tld]
    {
      if tld in networks then Some(networks[tld]) else None
    }
  }

  ghost predicate FirstClaim(g: AtlasConfig, entries: seq<DirEntry>, key: string, i: nat)
    requires i < |entries|
  {
    Claims(g, entries[i], key) && forall j :: 0 <= j < i ==> !Claims(g, entries[j], key)
  }

  /** What the last file adds: its key, if it claims one that is not there yet. */
  lemma LoadNext(g: AtlasConfig, front: seq<DirEntry>, last: DirEntry, key: string)
    ensures var before, after := Load(g, front), Load(g, front + [last]);
            && (key in after <==> key in before || Claims(g, last, key))
            && (key in before ==> after[key] == before[key])
            && (key !in before && Claims(g, last, key) ==> after[key] == last.config.value)
  {
  }

  /** A key is present exactly when some admitted file claims it. */
  lemma {:induction false} LoadedWhenClaimed(g: AtlasConfig, entries: seq<DirEntry>, key: string)
    ensures key in Load(g, entries) <==> exists e <- entries :: Claims(g, e, key)
  {
    if entries != [] {
      var last, front := entries[|entries| - 1], entries[..|entries| - 1];
      assert entries == front + [last] && last in entries;
      LoadedWhenClaimed(g, front, key);
      LoadNext(g, front, last, key);
      if e :| e in front && Claims(g, e, key) {
        assert e in entries;
      }
    }
  }

  /** Later files never replace a key. */
  lemma {:induction false} KeyIsKept(g: AtlasConfig, entries: seq<DirEntry>, key: string, n: nat)
    requires n <= |entries| && key in Load(g, entries[..n])
    ensures key in Load(g, entries) && Load(g, entries)[key] == Load(g, entries[..n])[key]
    decreases |entries| - n
  {
    if n == |entries| {
      assert entries[..n] == entries;
    } else {
      assert entries[..n + 1] == entries[..n] + [entries[n]];
      LoadNext(g, entries[..n], entries[n], key);
      KeyIsKept(g, entries, key, n + 1);
    }
  }

  /** The load is a filtered fold in which the first file that claims a key wins. */
  lemma FirstClaimWins(g: AtlasConfig, entries: seq<DirEntry>, key: string, i: nat)
    requires i < |entries| && FirstClaim(g, entries, key, i)
    ensures key in Load(g, entries) && Load(g, entries)[key] == entries[i].config.value
  {
    var before := entries[..i];
    assert entries[..i + 1] == before + [entries[i]];
    LoadedWhenClaimed(g, before, key);
    assert forall e <- before :: !Claims(g, e, key);
    LoadNext(g, before, entries[i], key);
    KeyIsKept(g, entries, key, i + 1);
  }

  lemma {:induction false} LeastClaim(g: AtlasConfig, entries: seq<DirEntry>, key: string, n: nat) returns (i: nat)
    requires n < |entries| && Claims(g, entries[n], key)
    ensures i <= n && FirstClaim(g, entries, key, i)
  {
    if j: nat :| j < n && Claims(g, entries[j], key) {
      i := LeastClaim(g, entries, key, j);
    } else {
      i := n;
    }
  }

  lemma SomeFirstClaim(g: AtlasConfig, entries: seq<DirEntry>, key: string) returns (i: nat)
    requires key in Load(g, entries)
    ensures i < |entries| && FirstClaim(g, entries, key, i)
    ensures Load(g, entries)[key] == entries[i].config.value
  {
    LoadedWhenClaimed(g, entries, key);
    var e :| e in entries && Claims(g, e, key);
    var n :| 0 <= n < |entries| && entries[n] == e;
    i := LeastClaim(g, entries, key, n);
    FirstClaimWins(g, entries, key, i);
  }

  /** Every key is one dot and a name that does not begin with a dot. */
  lemma KeysAreClean(g: AtlasConfig, entries: seq<DirEntry>, key: string)
    requires key in Load(g, entries)
    ensures key != "" && key[0] == '.' && !StartsWith(key[1..], ".")
  {
  }

  // ---------------------------------------------------------------- does the order of files matter?

  /** Two admitted files that claim the same key hold the same configuration. */
  predicate Consistent(g: AtlasConfig, entries: seq<DirEntry>) {
    forall a <- entries, b <- entries ::
      Admits(g, a) && Admits(g, b) && CleanTld(a.config.value) == CleanTld(b.config.value) ==> a.config == b.config
  }

  ghost predicate OrderIndependent(g: AtlasConfig, entries: seq<DirEntry>) {
    forall other: seq<DirEntry> :: multiset(other) == multiset(entries) ==> Load(g, other) == Load(g, entries)
  }

  lemma {:induction false} ConsistentLoadsAgree(g: AtlasConfig, a: seq<DirEntry>, b: seq<DirEntry>)
    requires Consistent(g, a) && multiset(a) == multiset(b)
    ensures Load(g, a) == Load(g, b)
  {
    assert SameFiles(a, b) by {
      assert forall e :: e in a <==> e in multiset(a);
      assert forall e :: e in b <==> e in multiset(b);
    }
    forall key
      ensures key in Load(g, a) <==> key in Load(g, b)
      ensures key in Load(g, a) ==> Load(g, a)[key] == Load(g, b)[key]
    {
      LoadsAgreeAt(g, a, b, key);
    }
  }

  ghost predicate SameFiles(a: seq<DirEntry>, b: seq<DirEntry>) {
    forall e :: e in a <==> e in b
  }

  lemma {:induction false} LoadsAgreeAt(g: AtlasConfig, a: seq<DirEntry>, b: seq<DirEntry>, key: string)
    requires Consistent(g, a) && SameFiles(a, b)
    ensures key in Load(g, a) <==> key in Load(g, b)
    ensures key in Load(g, a) ==> Load(g, a)[key] == Load(g, b)[key]
  {
    LoadedWhenClaimed(g, a, key);
    LoadedWhenClaimed(g, b, key);
    if key in Load(g, a) {
      var i := SomeFirstClaim(g, a, key);
      var j := SomeFirstClaim(g, b, key);
      assert a[i] in a && b[j] in b;
    }
  }

  /** The same files with one of them moved to the front. */
  function Moved(entries: seq<DirEntry>, i: nat): (moved: seq<DirEntry>)
    requires i < |entries|
    ensures multiset(moved) == multiset(entries)
  {
    assert entries == entries[..i] + [entries[i]] + entries[i + 1..];
    [entries[i]] + entries[..i] + entries[i + 1..]
  }

  lemma FrontClaimWins(g: AtlasConfig, entries: seq<DirEntry>, i: nat, key: string)
    requires i < |entries| && Claims(g, entries[i], key)
    ensures key in Load(g, Moved(entries, i)) && Load(g, Moved(entries, i))[key] == entries[i].config.value
  {
    var moved := Moved(entries, i);
    assert moved[0] == entries[i];
    FirstClaimWins(g, moved, key, 0);
  }

  /** With either of two conflicting files moved to the front, the two loads differ. */
  lemma ConflictShows(g: AtlasConfig, entries: seq<DirEntry>, i: nat, j: nat)
    requires i < |entries| && j < |entries| && Admits(g, entries[i]) && Admits(g, entries[j])
    requires CleanTld(entries[i].config.value) == CleanTld(entries[j].config.value)
    requires entries[i].config != entries[j].config
    ensures !OrderIndependent(g, entries)
  {
    var key := CleanTld(entries[i].config.value);
    var a, b := Moved(entries, i), Moved(entries, j);
    FrontClaimWins(g, entries, i, key);
    FrontClaimWins(g, entries, j, key);
    assert Load(g, a)[key] != Load(g, b)[key];
  }

  /** The load gives the same registry in every directory order exactly for consistent files. */
  lemma OrderMattersOnlyForConflicts(g: AtlasConfig, entries: seq<DirEntry>)
    ensures OrderIndependent(g, entries) <==> Consistent(g, entries)
  {
    if Consistent(g, entries) {
      forall other: seq<DirEntry> | multiset(other) == multiset(entries)
        ensures Load(g, other) == Load(g, entries)
      {
        ConsistentLoadsAgree(g, entries, other);
      }
    } else {
      var a, b :| a in entries && b in entries && Admits(g, a) && Admits(g, b)
                  && CleanTld(a.config.value) == CleanTld(b.config.value) && a.config != b.config;
      var i :| 0 <= i < |entries| && entries[i] == a;
      var j :| 0 <= j < |entries| && entries[j] == b;
      ConflictShows(g, entries, i, j);
    }
  }

  /** Without lists to exclude it, a network file claims its TLD. */
  lemma JsonFileClaims(e: DirEntry)
    requires HasExtension(e.fileName, "json") && e.config.Some?
    requires e.config.value.tld != "" && e.config.value.tld[0] != '.'
    ensures Claims(AtlasConfig([], []), e, "." + e.config.value.tld)
  {
    NothingToTrim(e.config.value.tld);
  }

  /** A network file in its simplest form. */
  function KinFile(fileName: string, id: string): DirEntry {
    DirEntry(fileName, Some(NetworkConfig(id, "kin", [], None, None)))
  }

  lemma KinFileClaims(letter: char, id: string)
    requires letter != '.'
    ensures Claims(AtlasConfig([], []), KinFile([letter] + ".json", id), "." + "kin")
  {
    var fileName := [letter] + ".json";
    assert fileName[2..] == "json";
    RFindIs(fileName, '.', 1);
    JsonFileClaims(KinFile(fileName, id));
  }

  lemma FirstFileWins(g: AtlasConfig, a: DirEntry, b: DirEntry, key: string)
    requires Claims(g, a, key)
    ensures key in Load(g, [a, b]) && Load(g, [a, b])[key] == a.config.value
  {
    FirstClaimWins(g, [a, b], key, 0);
  }

  /** An input: of two files for one TLD, whichever the directory lists first is in force. */
  lemma DirectoryOrderDecides(one: string, two: string)
    requires one != two
    ensures var a, b := KinFile("a" + ".json", one), KinFile("b" + ".json", two);
            var g, key := AtlasConfig([], []), "." + "kin";
            && key in Load(g, [a, b]) && Load(g, [a, b])[key].networkId == one
            && key in Load(g, [b, a]) && Load(g, [b, a])[key].networkId == two
            && !OrderIndependent(g, [a, b])
  {
    var a, b := KinFile("a" + ".json", one), KinFile("b" + ".json", two);
    var g, key := AtlasConfig([], []), "." + "kin";
    KinFileClaims('a', one);
    KinFileClaims('b', two);
    FirstFileWins(g, a, b, key);
    FirstFileWins(g, b, a, key);
    assert multiset([b, a]) == multiset([a, b]);
  }

  // ---------------------------------------------------------------- what is loaded, in terms of the files

  /** The configuration's TLD is this name behind any number of dots. */
  ghost predicate IsNamed(config: NetworkConfig, name: string) {
    (name == "" || name[0] != '.') && exists dots: nat :: config.tld == Repeat(".", dots) + name
  }

  /** A file called something ".json", with a configuration, whose TLD is allowed and not forbidden. */
  ghost predicate MayLoad(g: AtlasConfig, e: DirEntry, key: string) {
    && (exists stem: string :: stem != "" && e.fileName == stem + ".json")
    && e.config.Some?
    && exists name: string ::
         && IsNamed(e.config.value, name) && key == "." + name
         && (g.whitelist == [] || name in g.whitelist) && name !in g.blacklist
  }

  lemma {:induction false} JsonNameHasExtension(stem: string)
    requires stem != ""
    ensures HasExtension(stem + ".json", "json")
  {
    var fileName := stem + ".json";
    assert fileName[|stem| + 1..] == "json";
    RFindIs(fileName, '.', |stem|);
  }

  lemma {:induction false} JsonNames(fileName: string)
    ensures HasExtension(fileName, "json") <==> exists stem: string :: stem != "" && fileName == stem + ".json"
  {
    if HasExtension(fileName, "json") {
      var i := RFind(fileName, '.');
      assert fileName == fileName[..i] + ("." + fileName[i + 1..]);
      assert fileName == fileName[..i] + ".json";
    } else {
      forall stem: string | stem != ""
        ensures fileName != stem + ".json"
      {
        JsonNameHasExtension(stem);
      }
    }
  }

  lemma DotFirst(s: string)
    ensures StartsWith(s, ".") <==> s != "" && s[0] == '.'
  {
  }

  lemma {:induction false} NameBehindDots(config: NetworkConfig, name: string)
    ensures IsNamed(config, name) <==> TldName(config) == name
  {
    DotFirst(name);
    if TldName(config) == name {
      assert config.tld == Repeat(".", TrimmedCopies(config.tld, ".")) + name;
    } else {
      forall n: nat | !StartsWith(name, ".")
        ensures config.tld != Repeat(".", n) + name
      {
        TrimsRepeated(".", n, name);
      }
    }
  }

  lemma MayLoadIsClaim(g: AtlasConfig, e: DirEntry, key: string)
    ensures MayLoad(g, e, key) <==> Claims(g, e, key)
  {
    JsonNames(e.fileName);
    if e.config.Some? {
      NameBehindDots(e.config.value, TldName(e.config.value));
      if MayLoad(g, e, key) {
        var name :| IsNamed(e.config.value, name) && key == "." + name
                    && (g.whitelist == [] || name in g.whitelist) && name !in g.blacklist;
        NameBehindDots(e.config.value, name);
      }
    }
  }

  /** A key is loaded exactly if some file may be loaded under it: a network file whose name the lists admit. */
  lemma {:induction false} LoadedExactly(g: AtlasConfig, entries: seq<DirEntry>, key: string)
    ensures key in Load(g, entries) <==> exists e <- entries :: MayLoad(g, e, key)
  {
    LoadedWhenClaimed(g, entries, key);
    forall e <- entries
      ensures MayLoad(g, e, key) <==> Claims(g, e, key)
    {
      MayLoadIsClaim(g, e, key);
    }
  }

  /** And the first such file in directory order provides the configuration. */
  lemma {:induction false} LoadedFrom(g: AtlasConfig, entries: seq<DirEntry>, key: string, i: nat)
    requires i < |entries| && MayLoad(g, entries[i], key)
    requires forall j :: 0 <= j < i ==> !MayLoad(g, entries[j], key)
    ensures key in Load(g, entries) && Load(g, entries)[key] == entries[i].config.value
  {
    forall j | 0 <= j <= i
      ensures MayLoad(g, entries[j], key) <==> Claims(g, entries[j], key)
    {
      MayLoadIsClaim(g, entries[j], key);
    }
    FirstClaimWins(g, entries, key, i);
  }

  /** A forbidden name is never loaded, nor, with a list of allowed names, one that is not on it. */
  lemma {:induction false} ExcludedIsNeverLoaded(g: AtlasConfig, entries: seq<DirEntry>, name: string)
    requires name in g.blacklist || (g.whitelist != [] && name !in g.whitelist)
    ensures "." + name !in Load(g, entries)
  {
    LoadedExactly(g, entries, "." + name);
    forall other: string
      ensures "." + name == "." + other ==> name == other
    {
      assert ("." + name)[1..] == name && ("." + other)[1..] == other;
    }
  }
}
