/**
 The background updater (`start_auto_updater`, `fetch_and_update`): a loop that fetches
 signed network files, writes the verified ones, hot-reloads the registry after a
 successful sync and backs off after a failed one.
 */
module Updater {
  import opened Wrappers
  import opened Text
  import opened Network
  import opened Registry

  const HOUR: nat := 60 * 60
  const DAY: nat := 24 * 60 * 60

  datatype Item = Item(name: string, itemType: string, downloadUrl: Option<string>)

  /** One HTTP fetch: not sent at all, refused, cut off, or complete. */
  datatype Fetch = NotSent | BadStatus | BadBody | Fetched(body: Bytes)

  /** A write replaces the file, fails before touching it, or fails after its first `kept` bytes. */
  datatype Write = Written | Untouched | Torn(kept: nat)

  /** What a torn write leaves in the file. */
  function Residue(body: Bytes, kept: nat): (residue: Bytes)
    ensures residue <= body
  {
    if kept < |body| then body[..kept] else body
  }

  /**
   What one sync meets, item by item; no listing stands for any error before the first item.
   Joining an item's name to the directory leads to a file, and two names may lead to one file.
   */
  datatype Remote = Remote(
    listing: Option<seq<Item>>,
    download: nat -> Fetch,
    signature: nat -> Fetch,
    write: nat -> Write,
    place: string -> string)

  /** The configured key: how a signature body is decoded, and what it verifies. */
  datatype Key = Key(decode: Bytes -> Option<Bytes>, verify: (Bytes, Bytes) -> bool)

  /** The contents of each file. */
  type Disk = map<string, Bytes>

  function FileOf(remote: Remote, items: seq<Item>, i: nat): string
    requires i < |items|
  {
    remote.place(items[i].name)
  }

  // ---------------------------------------------------------------- one item

  /** What becomes of one item of the listing. */
  datatype Verdict = Skip | Abort | Accept(body: Bytes)

  predicate Eligible(item: Item) {
    item.itemType == "file" && EndsWith(item.name, ".json") && item.downloadUrl.Some?
  }

  function Judge(key: Key, item: Item, file: Fetch, signature: Fetch): Verdict {
    if !Eligible(item) then Skip
    else match file
      case NotSent => Skip
      case BadStatus => Abort
      case BadBody => Abort
      case Fetched(body) =>
        match signature
        case NotSent => Skip
        case BadStatus => Abort
        case BadBody => Abort
        case Fetched(hex) =>
          var decoded := key.decode(hex);
          if decoded.Some? && key.verify(body, decoded.value) then Accept(body) else Skip
  }

  function VerdictAt(key: Key, remote: Remote, items: seq<Item>, i: nat): Verdict
    requires i < |items|
  {
    Judge(key, items[i], remote.download(i), remote.signature(i))
  }

  // ---------------------------------------------------------------- one sync

  /** The directory, the number of files written, and whether an error ended the sync. */
  datatype Sync = Sync(disk: Disk, count: nat, failed: bool)

  function SyncStep(key: Key, remote: Remote, items: seq<Item>, i: nat, s: Sync): Sync
    requires i < |items|
  {
    if s.failed then s
    else match VerdictAt(key, remote, items, i)
      case Skip => s
      case Abort => s.(failed := true)
      case Accept(body) =>
        match remote.write(i)
        case Written => Sync(s.disk[FileOf(remote, items, i) := body], s.count + 1, false)
        case Untouched => s.(failed := true)
        case Torn(kept) => s.(disk := s.disk[FileOf(remote, items, i) := Residue(body, kept)], failed := true)
  }

  function SyncItems(key: Key, remote: Remote, items: seq<Item>, n: nat, disk: Disk): Sync
    requires n <= |items|
  {
    if n == 0 then Sync(disk, 0, false)
    else SyncStep(key, remote, items, n - 1, SyncItems(key, remote, items, n - 1, disk))
  }

  function RunSync(key: Key, remote: Remote, disk: Disk): Sync {
    match remote.listing
    case None => Sync(disk, 0, true)
    case Some(items) => SyncItems(key, remote, items, |items|, disk)
  }

  predicate Fails(key: Key, remote: Remote, items: seq<Item>, j: nat)
    requires j < |items|
  {
    var v := VerdictAt(key, remote, items, j);
    v.Abort? || (v.Accept? && !remote.write(j).Written?)
  }

  /** No item before `i` failed, so the sync gets there. */
  predicate Reached(key: Key, remote: Remote, items: seq<Item>, i: nat)
    requires i < |items|
  {
    forall j :: 0 <= j < i ==> !Fails(key, remote, items, j)
  }

  /** The item at `i` was verified and written. */
  predicate WroteAt(key: Key, remote: Remote, items: seq<Item>, i: nat)
    requires i < |items|
  {
    Reached(key, remote, items, i) && VerdictAt(key, remote, items, i).Accept? && remote.write(i).Written?
  }

  /** The item at `i` was verified, and writing it failed half-way. */
  predicate TornAt(key: Key, remote: Remote, items: seq<Item>, i: nat)
    requires i < |items|
  {
    Reached(key, remote, items, i) && VerdictAt(key, remote, items, i).Accept? && remote.write(i).Torn?
  }

  function ResidueAt(key: Key, remote: Remote, items: seq<Item>, i: nat): Bytes
    requires i < |items| && TornAt(key, remote, items, i)
  {
    Residue(VerdictAt(key, remote, items, i).body, remote.write(i).kept)
  }

  /** The number of items among the first `n` that were verified and written. */
  function WritesAmong(key: Key, remote: Remote, items: seq<Item>, n: nat): nat
    requires n <= |items|
  {
    if n == 0 then 0
    else WritesAmong(key, remote, items, n - 1) + if WroteAt(key, remote, items, n - 1) then 1 else 0
  }

  /** What one item does to the sync: it may end it, or add one write, which replaces one file. */
  lemma StepEffect(key: Key, remote: Remote, items: seq<Item>, i: nat, s: Sync)
    requires i < |items| && !s.failed
    ensures var t := SyncStep(key, remote, items, i, s);
            var v, file := VerdictAt(key, remote, items, i), FileOf(remote, items, i);
            && (t.failed <==> Fails(key, remote, items, i))
            && (v.Accept? && remote.write(i).Written? ==> t.count == s.count + 1 && t.disk == s.disk[file := v.body])
            && (!(v.Accept? && remote.write(i).Written?) ==> t.count == s.count)
            && t.disk - {file} == s.disk - {file}
  {
  }

  /** A sync fails exactly when some item fails. */
  lemma {:induction false} FailsWithAnItem(key: Key, remote: Remote, items: seq<Item>, n: nat, disk: Disk)
    requires n <= |items|
    ensures SyncItems(key, remote, items, n, disk).failed <==> exists j :: 0 <= j < n && Fails(key, remote, items, j)
  {
    if n > 0 {
      FailsWithAnItem(key, remote, items, n - 1, disk);
      var s := SyncItems(key, remote, items, n - 1, disk);
      if !s.failed {
        StepEffect(key, remote, items, n - 1, s);
        assert SyncItems(key, remote, items, n, disk).failed <==> Fails(key, remote, items, n - 1);
      }
    }
  }

  lemma WroteWhileGood(key: Key, remote: Remote, items: seq<Item>, i: nat, disk: Disk)
    requires i < |items|
    ensures WroteAt(key, remote, items, i) <==>
            && !SyncItems(key, remote, items, i, disk).failed
            && VerdictAt(key, remote, items, i).Accept? && remote.write(i).Written?
  {
    FailsWithAnItem(key, remote, items, i, disk);
  }

  /** The count is the number of writes made. */
  lemma {:induction false} CountIsWrites(key: Key, remote: Remote, items: seq<Item>, n: nat, disk: Disk)
    requires n <= |items|
    ensures SyncItems(key, remote, items, n, disk).count == WritesAmong(key, remote, items, n)
  {
    if n > 0 {
      CountIsWrites(key, remote, items, n - 1, disk);
      WroteWhileGood(key, remote, items, n - 1, disk);
    }
  }

  /** A file written by a sync holds the verified body, unless a later item leads to the same file. */
  lemma {:induction false} WrittenFileHolds(key: Key, remote: Remote, items: seq<Item>, n: nat, disk: Disk, i: nat)
    requires i < n <= |items| && WroteAt(key, remote, items, i)
    requires forall j :: i < j < n ==> FileOf(remote, items, j) != FileOf(remote, items, i)
    ensures Holds(SyncItems(key, remote, items, n, disk).disk, FileOf(remote, items, i),
                  VerdictAt(key, remote, items, i).body)
  {
    var s, t := SyncItems(key, remote, items, n - 1, disk), SyncItems(key, remote, items, n, disk);
    var file := FileOf(remote, items, i);
    if i < n - 1 {
      WrittenFileHolds(key, remote, items, n - 1, disk, i);
      if !s.failed {
        StepEffect(key, remote, items, n - 1, s);
        assert file in s.disk - {FileOf(remote, items, n - 1)};
        assert (t.disk - {FileOf(remote, items, n - 1)})[file] == (s.disk - {FileOf(remote, items, n - 1)})[file];
      }
    } else {
      FailsWithAnItem(key, remote, items, n - 1, disk);
      StepEffect(key, remote, items, n - 1, s);
    }
  }

  /** The sync downloaded these bytes for an item that leads to the file, and their downloaded signature verified. */
  ghost predicate AcceptedAs(key: Key, remote: Remote, items: seq<Item>, file: string, body: Bytes) {
    exists i :: 0 <= i < |items| && AcceptedAt(key, remote, items, i, file, body)
  }

  predicate AcceptedAt(key: Key, remote: Remote, items: seq<Item>, i: nat, file: string, body: Bytes)
    requires i < |items|
  {
    && FileOf(remote, items, i) == file
    && Reached(key, remote, items, i) && VerdictAt(key, remote, items, i) == Accept(body)
  }

  /** A torn write of an item that leads to the file left these bytes. */
  ghost predicate TornAs(key: Key, remote: Remote, items: seq<Item>, file: string, bytes: Bytes) {
    exists i :: 0 <= i < |items| && TornAt(key, remote, items, i)
                && FileOf(remote, items, i) == file && ResidueAt(key, remote, items, i) == bytes
  }

  predicate Holds(disk: Disk, file: string, bytes: Bytes) {
    file in disk && disk[file] == bytes
  }

  lemma ReachedWhileGood(key: Key, remote: Remote, items: seq<Item>, i: nat, disk: Disk)
    requires i < |items| && !SyncItems(key, remote, items, i, disk).failed
    ensures Reached(key, remote, items, i)
  {
    FailsWithAnItem(key, remote, items, i, disk);
  }

  /** Bytes that a file may hold after one sync. */
  ghost predicate OldOrAccepted(key: Key, remote: Remote, items: seq<Item>, disk: Disk, file: string, bytes: Bytes) {
    Holds(disk, file, bytes) || AcceptedAs(key, remote, items, file, bytes)
  }

  /** Only a write to the file itself changed it: it holds what stood there, or what the write put there. */
  ghost predicate Explained(key: Key, remote: Remote, items: seq<Item>, before: Disk, after: Disk, file: string) {
    && (file in before ==> file in after)
    && (file in after ==>
          || OldOrAccepted(key, remote, items, before, file, after[file])
          || TornAs(key, remote, items, file, after[file]))
  }

  lemma StepProvenance(key: Key, remote: Remote, items: seq<Item>, i: nat, s: Sync, file: string)
    requires i < |items| && (s.failed || Reached(key, remote, items, i))
    ensures Explained(key, remote, items, s.disk, SyncStep(key, remote, items, i, s).disk, file)
  {
    var after := SyncStep(key, remote, items, i, s).disk;
    if !s.failed && FileOf(remote, items, i) == file {
      match VerdictAt(key, remote, items, i) {
        case Accept(body) =>
          if remote.write(i).Written? {
            assert AcceptedAt(key, remote, items, i, file, body);
          } else if remote.write(i).Torn? {
            assert TornAt(key, remote, items, i);
          }
        case _ =>
      }
    }
  }

  lemma ExplainedTwice(key: Key, remote: Remote, items: seq<Item>, a: Disk, b: Disk, c: Disk, file: string)
    requires Explained(key, remote, items, a, b, file) && Explained(key, remote, items, b, c, file)
    ensures Explained(key, remote, items, a, c, file)
  {
  }

  /** Each file that a sync leaves holds its old bytes, bytes accepted for it, or a torn part of such. */
  lemma {:induction false} SyncProvenance(key: Key, remote: Remote, items: seq<Item>, n: nat, disk: Disk, file: string)
    requires n <= |items|
    ensures Explained(key, remote, items, disk, SyncItems(key, remote, items, n, disk).disk, file)
  {
    if n > 0 {
      var s := SyncItems(key, remote, items, n - 1, disk);
      if !s.failed {
        ReachedWhileGood(key, remote, items, n - 1, disk);
      }
      SyncProvenance(key, remote, items, n - 1, disk, file);
      StepProvenance(key, remote, items, n - 1, s, file);
      ExplainedTwice(key, remote, items, disk, s.disk, SyncStep(key, remote, items, n - 1, s).disk, file);
    }
  }

  /** A torn write ends the sync, so what it left is still there at the end. */
  lemma TornFileStays(key: Key, remote: Remote, items: seq<Item>, i: nat, disk: Disk)
    requires i < |items| && TornAt(key, remote, items, i)
    ensures Holds(SyncItems(key, remote, items, |items|, disk).disk,
                  FileOf(remote, items, i), ResidueAt(key, remote, items, i))
  {
    FailsWithAnItem(key, remote, items, i, disk);
    FailureIsFinal(key, remote, items, i + 1, disk);
  }

  ghost predicate SyncIsSafe(key: Key, remote: Remote, items: seq<Item>, disk: Disk) {
    var after := SyncItems(key, remote, items, |items|, disk).disk;
    forall file <- after :: OldOrAccepted(key, remote, items, disk, file, after[file])
  }

  /**
   One sync, exactly: every file holds its old bytes or bytes accepted for it if and
   only if that is true of what each torn write left.
   */
  lemma {:induction false} SyncIsSafeExactly(key: Key, remote: Remote, items: seq<Item>, disk: Disk)
    ensures SyncIsSafe(key, remote, items, disk) <==>
            forall i :: 0 <= i < |items| && TornAt(key, remote, items, i) ==>
              OldOrAccepted(key, remote, items, disk, FileOf(remote, items, i), ResidueAt(key, remote, items, i))
  {
    var after := SyncItems(key, remote, items, |items|, disk).disk;
    if SyncIsSafe(key, remote, items, disk) {
      forall i | 0 <= i < |items| && TornAt(key, remote, items, i)
        ensures OldOrAccepted(key, remote, items, disk, FileOf(remote, items, i), ResidueAt(key, remote, items, i))
      {
        TornFileStays(key, remote, items, i, disk);
      }
    }
    if forall i :: 0 <= i < |items| && TornAt(key, remote, items, i) ==>
         OldOrAccepted(key, remote, items, disk, FileOf(remote, items, i), ResidueAt(key, remote, items, i)) {
      forall file <- after
        ensures OldOrAccepted(key, remote, items, disk, file, after[file])
      {
        SyncProvenance(key, remote, items, |items|, disk, file);
      }
    }
  }

  // ---------------------------------------------------------------- the whole loop

  /** What a reload meets at the networks path: no directory, one that cannot be listed, or files in some order. */
  datatype Reload = NoDirectory | NotListable | Files(files: seq<string>)

  /** One round of the loop: a sync, and what a reload after it would meet. */
  datatype Round = Round(remote: Remote, reload: Reload)

  datatype World = World(disk: Disk, networks: map<string, NetworkConfig>, failDelay: nat, sleeps: seq<nat>)

  /** Reading and parsing a file, and the filter lists of the configuration. */
  datatype Setup = Setup(g: AtlasConfig, key: Key, parse: Bytes -> Option<NetworkConfig>)

  function Entries(setup: Setup, disk: Disk, files: seq<string>): (entries: seq<DirEntry>)
    ensures |entries| == |files|
  {
    if files == [] then []
    else
      var file := files[|files| - 1];
      Entries(setup, disk, files[..|files| - 1])
      + [DirEntry(file, if file in disk then setup.parse(disk[file]) else None)]
  }

  function DirectoryOf(setup: Setup, disk: Disk, reload: Reload): Directory {
    match reload
    case NoDirectory => Missing
    case NotListable => Unlistable
    case Files(files) => Listed(Entries(setup, disk, files))
  }

  /** What a reload that finds a directory puts into memory. */
  function Reloaded(setup: Setup, disk: Disk, reload: Reload): map<string, NetworkConfig>
    requires !reload.NoDirectory?
  {
    match reload
    case NotListable => map[]
    case Files(files) => Load(setup.g, Entries(setup, disk, files))
  }

  function Min(a: nat, b: nat): nat {
    if a < b then a else b
  }

  function Succeeds(setup: Setup, w: World, r: Round): bool {
    !RunSync(setup.key, r.remote, w.disk).failed
  }

  function After(setup: Setup, w: World, r: Round): World {
    var s := RunSync(setup.key, r.remote, w.disk);
    if s.failed then
      World(s.disk, w.networks, Min(w.failDelay * 2, DAY), w.sleeps + [w.failDelay])
    else
      World(s.disk, if r.reload.NoDirectory? then w.networks else Reloaded(setup, s.disk, r.reload),
            HOUR, w.sleeps + [DAY])
  }

  function AfterAll(setup: Setup, w: World, rounds: seq<Round>): World {
    if rounds == [] then w
    else After(setup, AfterAll(setup, w, rounds[..|rounds| - 1]), rounds[|rounds| - 1])
  }

  class AutoUpdater {
    const registry: TldRegistry
    var disk: Disk
    var failDelay: nat
    var sleeps: seq<nat>

    ghost function State(): World
      reads this, registry
    {
      World(disk, registry.networks, failDelay, sleeps)
    }

    /** The loop starts with the shortest delay. */
    constructor (registry: TldRegistry, disk: Disk)
      ensures this.registry == registry
      ensures State() == World(disk, registry.networks, HOUR, [])
    {
      this.registry, this.disk := registry, disk;
      failDelay, sleeps := HOUR, [];
    }

    /** Downloads one item and its signature, and verifies it. */
    method Download(key: Key, item: Item, file: Fetch, signature: Fetch) returns (verdict: Verdict)
      ensures verdict == Judge(key, item, file, signature)
    {
      if item.itemType != "file" || !EndsWith(item.name, ".json") || item.downloadUrl.None? {
        return Skip;
      }
      if file.NotSent? {
        return Skip;
      }
      if !file.Fetched? {
        return Abort;
      }
      if signature.NotSent? {
        return Skip;
      }
      if !signature.Fetched? {
        return Abort;
      }
      var decoded := key.decode(signature.body);
      if decoded.None? || !key.verify(file.body, decoded.value) {
        return Skip;
      }
      verdict := Accept(file.body);
    }

    /** Handles item by item; an error returns at once and keeps what was written. */
    method FetchAndUpdate(key: Key, remote: Remote) returns (result: Option<nat>)
      modifies this`disk
      ensures var s := RunSync(key, remote, old(disk));
              disk == s.disk && result == if s.failed then None else Some(s.count)
    {
      if remote.listing.None? {
        return None;
      }
      var items := remote.listing.value;
      var count := 0;
      for i := 0 to |items|
        invariant Sync(disk, count, false) == SyncItems(key, remote, items, i, old(disk))
      {
        var verdict := Download(key, items[i], remote.download(i), remote.signature(i));
        if verdict.Skip? {
          continue;
        }
        var written := false;
        if verdict.Accept? {
          written := WriteFile(FileOf(remote, items, i), verdict.body, remote.write(i));
        }
        if !written {
          FailureIsFinal(key, remote, items, i + 1, old(disk));
          return None;
        }
        count := count + 1;
      }
      result := Some(count);
    }

    /** `std::fs::write`. */
    method WriteFile(file: string, body: Bytes, outcome: Write) returns (ok: bool)
      modifies this`disk
      ensures ok == outcome.Written?
      ensures disk == match outcome
                      case Written => old(disk)[file := body]
                      case Untouched => old(disk)
                      case Torn(kept) => old(disk)[file := Residue(body, kept)]
    {
      match outcome {
        case Written => disk := disk[file := body];
        case Untouched =>
        case Torn(kept) => disk := disk[file := Residue(body, kept)];
      }
      ok := outcome.Written?;
    }

    /** One round of the endless loop, up to its sleep. */
    method PerformRound(setup: Setup, round: Round)
      modifies this, registry
      ensures State() == After(setup, old(State()), round)
    {
      var result := FetchAndUpdate(setup.key, round.remote);
      var sleep;
      match result {
        case Some(count) =>
          registry.LoadFromDir(DirectoryOf(setup, disk, round.reload), setup.g);
          failDelay := HOUR;
          sleep := DAY;
        case None =>
          sleep := failDelay;
          failDelay := Min(failDelay * 2, DAY);
      }
      sleeps := sleeps + [sleep];
    }

    /** Any finite part of the loop. */
    method Run(setup: Setup, rounds: seq<Round>)
      modifies this, registry
      ensures State() == AfterAll(setup, old(State()), rounds)
    {
      for i := 0 to |rounds|
        invariant State() == AfterAll(setup, old(State()), rounds[..i])
      {
        assert rounds[..i + 1][..i] == rounds[..i];
        PerformRound(setup, rounds[i]);
      }
      assert rounds[..|rounds|] == rounds;
    }
  }

  lemma {:induction false} FailureIsFinal(key: Key, remote: Remote, items: seq<Item>, n: nat, disk: Disk)
    requires n <= |items| && SyncItems(key, remote, items, n, disk).failed
    ensures SyncItems(key, remote, items, |items|, disk) == SyncItems(key, remote, items, n, disk)
    decreases |items| - n
  {
    if n < |items| {
      FailureIsFinal(key, remote, items, n + 1, disk);
    }
  }

  // ---------------------------------------------------------------- safety over whole runs

  /** Some round downloaded these bytes for an item that leads to the file, and their downloaded signature verified. */
  ghost predicate AcceptedInRun(key: Key, rounds: seq<Round>, file: string, body: Bytes) {
    exists r <- rounds :: r.remote.listing.Some? && AcceptedAs(key, r.remote, r.remote.listing.value, file, body)
  }

  ghost predicate TornInRound(key: Key, r: Round, file: string, bytes: Bytes) {
    r.remote.listing.Some? && TornAs(key, r.remote, r.remote.listing.value, file, bytes)
  }

  /** The file may hold the bytes: it did at first, or the run accepted them for it. */
  ghost predicate Legitimate(setup: Setup, w: World, rounds: seq<Round>, file: string, bytes: Bytes) {
    Holds(w.disk, file, bytes) || AcceptedInRun(setup.key, rounds, file, bytes)
  }

  ghost predicate DirectoryIsSafe(setup: Setup, w: World, rounds: seq<Round>) {
    var disk := AfterAll(setup, w, rounds).disk;
    forall file <- disk :: Legitimate(setup, w, rounds, file, disk[file])
  }

  lemma RoundProvenance(setup: Setup, w: World, r: Round, file: string)
    requires file in After(setup, w, r).disk
    ensures var bytes := After(setup, w, r).disk[file];
            || Legitimate(setup, w, [r], file, bytes)
            || TornInRound(setup.key, r, file, bytes)
  {
    assert r in [r];
    if r.remote.listing.Some? {
      SyncProvenance(setup.key, r.remote, r.remote.listing.value, |r.remote.listing.value|, w.disk, file);
    }
  }

  lemma LegitimateStays(setup: Setup, w: World, rounds: seq<Round>, more: seq<Round>, file: string, bytes: Bytes)
    requires Legitimate(setup, w, rounds, file, bytes) && forall r <- rounds :: r in more
    ensures Legitimate(setup, w, more, file, bytes)
  {
  }

  /** After any run, each file holds its first bytes, bytes accepted for it, or what a torn write left of such. */
  lemma {:induction false} RunProvenance(setup: Setup, w: World, rounds: seq<Round>, file: string)
    requires file in AfterAll(setup, w, rounds).disk
    ensures var bytes := AfterAll(setup, w, rounds).disk[file];
            || Legitimate(setup, w, rounds, file, bytes)
            || exists k :: 0 <= k < |rounds| && TornInRound(setup.key, rounds[k], file, bytes)
  {
    if rounds != [] {
      var n := |rounds| - 1;
      var front, r := rounds[..n], rounds[n];
      var before, bytes := AfterAll(setup, w, front), AfterAll(setup, w, rounds).disk[file];
      assert forall k :: 0 <= k < n ==> front[k] == rounds[k];
      RoundProvenance(setup, before, r, file);
      if Holds(before.disk, file, bytes) {
        RunProvenance(setup, w, front, file);
        if Legitimate(setup, w, front, file, bytes) {
          LegitimateStays(setup, w, front, rounds, file, bytes);
        }
      }
    }
  }

  /** What the torn write of a round left is legitimate by itself. */
  ghost predicate TornIsHarmless(setup: Setup, w: World, rounds: seq<Round>, k: nat)
    requires k < |rounds|
  {
    forall file, bytes :: TornInRound(setup.key, rounds[k], file, bytes) ==>
      Legitimate(setup, w, rounds[..k + 1], file, bytes)
  }

  lemma TornStandsAfterRound(setup: Setup, w: World, rounds: seq<Round>, k: nat, file: string, bytes: Bytes)
    requires k < |rounds| && TornInRound(setup.key, rounds[k], file, bytes)
    ensures Holds(AfterAll(setup, w, rounds[..k + 1]).disk, file, bytes)
  {
    var r := rounds[k];
    var items := r.remote.listing.value;
    var i :| 0 <= i < |items| && TornAt(setup.key, r.remote, items, i)
             && FileOf(r.remote, items, i) == file && ResidueAt(setup.key, r.remote, items, i) == bytes;
    assert rounds[..k + 1][..k] == rounds[..k];
    TornFileStays(setup.key, r.remote, items, i, AfterAll(setup, w, rounds[..k]).disk);
  }

  lemma HarmlessMeansSafe(setup: Setup, w: World, rounds: seq<Round>, n: nat)
    requires n <= |rounds| && forall k :: 0 <= k < |rounds| ==> TornIsHarmless(setup, w, rounds, k)
    ensures DirectoryIsSafe(setup, w, rounds[..n])
  {
    var part := rounds[..n];
    var disk := AfterAll(setup, w, part).disk;
    forall file <- disk
      ensures Legitimate(setup, w, part, file, disk[file])
    {
      RunProvenance(setup, w, part, file);
      if k :| 0 <= k < |part| && TornInRound(setup.key, part[k], file, disk[file]) {
        assert part[k] == rounds[k] && TornIsHarmless(setup, w, rounds, k);
        LegitimateStays(setup, w, rounds[..k + 1], part, file, disk[file]);
      }
    }
  }

  /**
   Exactly when the directory is safe after every round of a run: each torn write leaves
   bytes that the file held at first or that the run has accepted for it by then.
   */
  lemma {:induction false} RunIsSafeExactly(setup: Setup, w: World, rounds: seq<Round>)
    ensures (forall n :: 0 <= n <= |rounds| ==> DirectoryIsSafe(setup, w, rounds[..n])) <==>
            (forall k :: 0 <= k < |rounds| ==> TornIsHarmless(setup, w, rounds, k))
  {
    if forall k :: 0 <= k < |rounds| ==> TornIsHarmless(setup, w, rounds, k) {
      forall n | 0 <= n <= |rounds|
        ensures DirectoryIsSafe(setup, w, rounds[..n])
      {
        HarmlessMeansSafe(setup, w, rounds, n);
      }
    }
    if forall n :: 0 <= n <= |rounds| ==> DirectoryIsSafe(setup, w, rounds[..n]) {
      forall k, file, bytes | 0 <= k < |rounds| && TornInRound(setup.key, rounds[k], file, bytes)
        ensures Legitimate(setup, w, rounds[..k + 1], file, bytes)
      {
        TornStandsAfterRound(setup, w, rounds, k, file, bytes);
        assert DirectoryIsSafe(setup, w, rounds[..k + 1]);
      }
    }
  }

  /** Writes are atomic: a failed one leaves the file as it was. */
  ghost predicate AtomicWrites(rounds: seq<Round>) {
    forall r <- rounds :: forall i: nat :: !r.remote.write(i).Torn?
  }

  /** With atomic writes nothing but accepted bytes ever replaces or joins the initial files. */
  lemma {:induction false} OnlyVerifiedFilesAppear(setup: Setup, w: World, rounds: seq<Round>)
    requires AtomicWrites(rounds)
    ensures DirectoryIsSafe(setup, w, rounds)
  {
    assert forall k :: 0 <= k < |rounds| ==> TornIsHarmless(setup, w, rounds, k);
    HarmlessMeansSafe(setup, w, rounds, |rounds|);
    assert rounds[..|rounds|] == rounds;
  }

  /**
   Without atomic writes it fails: from a correctly signed file, a torn write leaves a part
   for which no signature exists, in place of whatever stood there.
   */
  lemma {:induction false} TornWriteIsUnsafe(setup: Setup, w: World, name: string, place: string -> string,
                                             body: Bytes, hex: Bytes, kept: nat) returns (round: Round)
    requires EndsWith(name, ".json")
    requires setup.key.decode(hex).Some? && setup.key.verify(body, setup.key.decode(hex).value)
    requires kept < |body| && forall signature :: !setup.key.verify(body[..kept], signature)
    requires !Holds(w.disk, place(name), body[..kept])
    ensures After(setup, w, round).disk == w.disk[place(name) := body[..kept]]
    ensures AfterAll(setup, w, [round]) == After(setup, w, round)
    ensures !Legitimate(setup, w, [round], place(name), body[..kept])
    ensures !DirectoryIsSafe(setup, w, [round])
  {
    var items := [Item(name, "file", Some(""))];
    var remote := Remote(Some(items), _ => Fetched(body), _ => Fetched(hex), _ => Torn(kept), place);
    round := Round(remote, NoDirectory);
    assert [round][..0] == [];
    assert VerdictAt(setup.key, remote, items, 0) == Accept(body);
    assert SyncItems(setup.key, remote, items, 0, w.disk) == Sync(w.disk, 0, false);
    assert Holds(AfterAll(setup, w, [round]).disk, place(name), body[..kept]);
  }

  /** The round replaces the registry in memory: its sync succeeds and the networks path is a directory. */
  predicate Replaces(setup: Setup, w: World, r: Round) {
    Succeeds(setup, w, r) && !r.reload.NoDirectory?
  }

  /** The last round of a run that replaced the registry, or -1. */
  function LastReload(setup: Setup, w: World, rounds: seq<Round>): (k: int)
    ensures -1 <= k < |rounds|
    ensures k >= 0 ==> !rounds[k].reload.NoDirectory?
  {
    if rounds == [] then -1
    else
      var n := |rounds| - 1;
      if Replaces(setup, AfterAll(setup, w, rounds[..n]), rounds[n]) then n
      else LastReload(setup, w, rounds[..n])
  }

  /** A load of the directory as it stood after round `k`; without such a round, the initial registry. */
  function LoadAfter(setup: Setup, w: World, rounds: seq<Round>, k: int): map<string, NetworkConfig>
    requires -1 <= k < |rounds| && (k >= 0 ==> !rounds[k].reload.NoDirectory?)
  {
    if k == -1 then w.networks
    else Reloaded(setup, AfterAll(setup, w, rounds[..k + 1]).disk, rounds[k].reload)
  }

  lemma LoadBeforeLastRound(setup: Setup, w: World, rounds: seq<Round>, k: int)
    requires -1 <= k < |rounds| - 1 && (k >= 0 ==> !rounds[k].reload.NoDirectory?)
    ensures LoadAfter(setup, w, rounds, k) == LoadAfter(setup, w, rounds[..|rounds| - 1], k)
  {
    assert k >= 0 ==> rounds[..|rounds| - 1][..k + 1] == rounds[..k + 1];
  }

  lemma RoundAndRegistry(setup: Setup, w: World, r: Round)
    ensures After(setup, w, r).networks ==
            if Replaces(setup, w, r) then Reloaded(setup, After(setup, w, r).disk, r.reload) else w.networks
  {
  }

  /**
   The registry in memory is always a load of the directory as the last sync left it that
   succeeded and found one, or the initial registry: nothing that a failed sync wrote shows in it.
   */
  lemma {:induction false} RegistryIsLastGoodLoad(setup: Setup, w: World, rounds: seq<Round>)
    ensures AfterAll(setup, w, rounds).networks == LoadAfter(setup, w, rounds, LastReload(setup, w, rounds))
  {
    if rounds != [] {
      var n := |rounds| - 1;
      RoundAndRegistry(setup, AfterAll(setup, w, rounds[..n]), rounds[n]);
      if LastReload(setup, w, rounds) == n {
        assert rounds[..n + 1] == rounds;
      } else {
        RegistryIsLastGoodLoad(setup, w, rounds[..n]);
        LoadBeforeLastRound(setup, w, rounds, LastReload(setup, w, rounds));
      }
    }
  }

  // ---------------------------------------------------------------- what the signatures are worth

  /**
   The item at `i` is a network file that leads to this file; its body was downloaded, and so
   was a signature that decodes and verifies for that body under the configured key.
   */
  ghost predicate Signed(key: Key, remote: Remote, items: seq<Item>, i: nat, file: string, body: Bytes) {
    && i < |items| && items[i].itemType == "file" && EndsWith(items[i].name, ".json") && items[i].downloadUrl.Some?
    && remote.place(items[i].name) == file
    && remote.download(i) == Fetched(body)
    && exists hex, signature ::
         remote.signature(i) == Fetched(hex) && key.decode(hex) == Some(signature) && key.verify(body, signature)
  }

  predicate Broken(f: Fetch) {
    f == BadStatus || f == BadBody
  }

  /** The item at `i` ends the sync: a download of its is refused or cut off, or the write of its signed body fails. */
  ghost predicate Stops(key: Key, remote: Remote, items: seq<Item>, i: nat) {
    && i < |items| && items[i].itemType == "file" && EndsWith(items[i].name, ".json") && items[i].downloadUrl.Some?
    && (|| Broken(remote.download(i))
        || (remote.download(i).Fetched? && Broken(remote.signature(i)))
        || (remote.write(i) != Written && exists file, body :: Signed(key, remote, items, i, file, body)))
  }

  /** The signed body of the item at `i` was written, nothing before it having ended the sync. */
  ghost predicate Puts(key: Key, remote: Remote, items: seq<Item>, i: nat, file: string, body: Bytes) {
    && Signed(key, remote, items, i, file, body) && remote.write(i) == Written
    && forall j :: 0 <= j < i ==> !Stops(key, remote, items, j)
  }

  lemma AcceptedIsSigned(key: Key, remote: Remote, items: seq<Item>, i: nat, file: string, body: Bytes)
    requires i < |items|
    ensures Signed(key, remote, items, i, file, body) <==>
            FileOf(remote, items, i) == file && VerdictAt(key, remote, items, i) == Accept(body)
  {
  }

  lemma FailureIsStop(key: Key, remote: Remote, items: seq<Item>, i: nat)
    requires i < |items|
    ensures Stops(key, remote, items, i) <==> Fails(key, remote, items, i)
  {
    var v := VerdictAt(key, remote, items, i);
    if v.Accept? {
      AcceptedIsSigned(key, remote, items, i, FileOf(remote, items, i), v.body);
    }
    if file, body :| Signed(key, remote, items, i, file, body) {
      AcceptedIsSigned(key, remote, items, i, file, body);
    }
  }

  lemma WriteIsPut(key: Key, remote: Remote, items: seq<Item>, i: nat, file: string, body: Bytes)
    requires i < |items|
    ensures Puts(key, remote, items, i, file, body) <==>
            && WroteAt(key, remote, items, i) && FileOf(remote, items, i) == file
            && VerdictAt(key, remote, items, i).body == body
  {
    AcceptedIsSigned(key, remote, items, i, file, body);
    forall j | 0 <= j < i
      ensures Stops(key, remote, items, j) <==> Fails(key, remote, items, j)
    {
      FailureIsStop(key, remote, items, j);
    }
  }

  /** A sync fails exactly when there is no listing or some item ends it. */
  lemma {:induction false} SyncFailsExactly(key: Key, remote: Remote, disk: Disk)
    ensures RunSync(key, remote, disk).failed <==>
            remote.listing.None? || exists j: nat :: Stops(key, remote, remote.listing.value, j)
  {
    if remote.listing.Some? {
      var items := remote.listing.value;
      FailsWithAnItem(key, remote, items, |items|, disk);
      forall j | 0 <= j < |items|
        ensures Stops(key, remote, items, j) <==> Fails(key, remote, items, j)
      {
        FailureIsStop(key, remote, items, j);
      }
    }
  }

  /** What a write of the body leaves, if it leaves anything: all of it, or only its first bytes. */
  predicate LeftBy(write: Write, body: Bytes, bytes: Bytes) {
    || (write == Written && bytes == body)
    || (write.Torn? && bytes <= body && |bytes| == Min(write.kept, |body|))
  }

  /** The item at `i` leaves these bytes in the file, nothing before it having ended the sync. */
  ghost predicate Leaves(key: Key, remote: Remote, items: seq<Item>, i: nat, file: string, bytes: Bytes) {
    && (forall j :: 0 <= j < i ==> !Stops(key, remote, items, j))
    && exists body :: Signed(key, remote, items, i, file, body) && LeftBy(remote.write(i), body, bytes)
  }

  ghost predicate Touches(key: Key, remote: Remote, items: seq<Item>, i: nat, file: string) {
    exists bytes :: Leaves(key, remote, items, i, file, bytes)
  }

  /** The last item before `n` to touch the file left these bytes, or none touched it and it holds them from before. */
  ghost predicate LastLeft(key: Key, remote: Remote, items: seq<Item>, n: nat, disk: Disk, file: string, bytes: Bytes) {
    if exists i: nat :: i < n && Touches(key, remote, items, i, file)
    then exists i: nat :: i < n && Leaves(key, remote, items, i, file, bytes)
                          && forall j :: i < j < n ==> !Touches(key, remote, items, j, file)
    else Holds(disk, file, bytes)
  }

  lemma NoStopMeansReached(key: Key, remote: Remote, items: seq<Item>, i: nat, disk: Disk)
    requires i < |items|
    ensures (forall j :: 0 <= j < i ==> !Stops(key, remote, items, j))
            <==> !SyncItems(key, remote, items, i, disk).failed
  {
    FailsWithAnItem(key, remote, items, i, disk);
    forall j | 0 <= j < i
      ensures Stops(key, remote, items, j) <==> Fails(key, remote, items, j)
    {
      FailureIsStop(key, remote, items, j);
    }
  }

  lemma ItemLeaves(key: Key, remote: Remote, items: seq<Item>, i: nat, disk: Disk, file: string, bytes: Bytes)
    requires i < |items| && Leaves(key, remote, items, i, file, bytes)
    ensures Holds(SyncItems(key, remote, items, i + 1, disk).disk, file, bytes)
  {
    NoStopMeansReached(key, remote, items, i, disk);
    var body :| Signed(key, remote, items, i, file, body) && LeftBy(remote.write(i), body, bytes);
    AcceptedIsSigned(key, remote, items, i, file, body);
    assert remote.write(i).Torn? ==> bytes == Residue(body, remote.write(i).kept);
  }

  lemma TouchedFile(key: Key, remote: Remote, items: seq<Item>, i: nat, disk: Disk, file: string, bytes: Bytes)
    requires i < |items| && Touches(key, remote, items, i, file)
    ensures Holds(SyncItems(key, remote, items, i + 1, disk).disk, file, bytes) <==>
            Leaves(key, remote, items, i, file, bytes)
  {
    var left :| Leaves(key, remote, items, i, file, left);
    ItemLeaves(key, remote, items, i, disk, file, left);
    if Leaves(key, remote, items, i, file, bytes) {
      ItemLeaves(key, remote, items, i, disk, file, bytes);
    }
  }

  lemma UntouchedFile(key: Key, remote: Remote, items: seq<Item>, i: nat, disk: Disk, file: string, bytes: Bytes)
    requires i < |items| && !Touches(key, remote, items, i, file)
    ensures Holds(SyncItems(key, remote, items, i + 1, disk).disk, file, bytes) <==>
            Holds(SyncItems(key, remote, items, i, disk).disk, file, bytes)
  {
    var s, v := SyncItems(key, remote, items, i, disk), VerdictAt(key, remote, items, i);
    if !s.failed && v.Accept? && FileOf(remote, items, i) == file && !remote.write(i).Untouched? {
      NoStopMeansReached(key, remote, items, i, disk);
      AcceptedIsSigned(key, remote, items, i, file, v.body);
      var left := if remote.write(i).Written? then v.body else Residue(v.body, remote.write(i).kept);
      assert LeftBy(remote.write(i), v.body, left);
      assert Leaves(key, remote, items, i, file, left);
    }
  }

  lemma LastOneTouches(key: Key, remote: Remote, items: seq<Item>, n: nat, disk: Disk, file: string, bytes: Bytes)
    requires n > 0 && Touches(key, remote, items, n - 1, file)
    ensures LastLeft(key, remote, items, n, disk, file, bytes) <==> Leaves(key, remote, items, n - 1, file, bytes)
  {
  }

  lemma LastOneDoesNot(key: Key, remote: Remote, items: seq<Item>, n: nat, disk: Disk, file: string, bytes: Bytes)
    requires n > 0 && !Touches(key, remote, items, n - 1, file)
    ensures LastLeft(key, remote, items, n, disk, file, bytes) <==>
            LastLeft(key, remote, items, n - 1, disk, file, bytes)
  {
  }

  ghost predicate Agrees(key: Key, remote: Remote, items: seq<Item>, n: nat, disk: Disk, file: string, bytes: Bytes)
    requires n <= |items|
  {
    Holds(SyncItems(key, remote, items, n, disk).disk, file, bytes) <==>
    LastLeft(key, remote, items, n, disk, file, bytes)
  }

  lemma AgreesAtFirst(key: Key, remote: Remote, items: seq<Item>, disk: Disk, file: string, bytes: Bytes)
    ensures Agrees(key, remote, items, 0, disk, file, bytes)
  {
  }

  lemma AgreesWhenTouched(key: Key, remote: Remote, items: seq<Item>, i: nat, disk: Disk, file: string, bytes: Bytes)
    requires i < |items| && Touches(key, remote, items, i, file)
    ensures Agrees(key, remote, items, i + 1, disk, file, bytes)
  {
    LastOneTouches(key, remote, items, i + 1, disk, file, bytes);
    TouchedFile(key, remote, items, i, disk, file, bytes);
  }

  lemma AgreesWhenNot(key: Key, remote: Remote, items: seq<Item>, i: nat, disk: Disk, file: string, bytes: Bytes)
    requires i < |items| && !Touches(key, remote, items, i, file)
    requires Agrees(key, remote, items, i, disk, file, bytes)
    ensures Agrees(key, remote, items, i + 1, disk, file, bytes)
  {
    LastOneDoesNot(key, remote, items, i + 1, disk, file, bytes);
    UntouchedFile(key, remote, items, i, disk, file, bytes);
  }

  lemma {:induction false} AgreesAlways(key: Key, remote: Remote, items: seq<Item>, n: nat, disk: Disk,
                                        file: string, bytes: Bytes)
    requires n <= |items|
    ensures Agrees(key, remote, items, n, disk, file, bytes)
  {
    if n == 0 {
      AgreesAtFirst(key, remote, items, disk, file, bytes);
    } else if Touches(key, remote, items, n - 1, file) {
      AgreesWhenTouched(key, remote, items, n - 1, disk, file, bytes);
    } else {
      AgreesAlways(key, remote, items, n - 1, disk, file, bytes);
      AgreesWhenNot(key, remote, items, n - 1, disk, file, bytes);
    }
  }

  /**
   Exactly what a sync leaves: a file holds what the last item to touch it left, the whole of a
   signed body or, after a torn write, its first bytes; and its old contents if none touched it.
   Without a listing nothing changes.
   */
  lemma {:induction false} SyncLeavesExactly(key: Key, remote: Remote, disk: Disk, file: string, bytes: Bytes)
    ensures var items := if remote.listing.Some? then remote.listing.value else [];
            Holds(RunSync(key, remote, disk).disk, file, bytes) <==>
            LastLeft(key, remote, items, |items|, disk, file, bytes)
  {
    match remote.listing {
      case Some(items) => AgreesAlways(key, remote, items, |items|, disk, file, bytes);
      case None => AgreesAlways(key, remote, [], 0, disk, file, bytes);
    }
  }

  /** Some round downloaded the body for an item that leads to the file, with a signature of it that verifies. */
  ghost predicate SignedInRun(key: Key, rounds: seq<Round>, file: string, body: Bytes) {
    exists r <- rounds, i: nat ::
      r.remote.listing.Some? && Signed(key, r.remote, r.remote.listing.value, i, file, body)
  }

  /** Over a run with atomic writes, a file that changed or appeared holds a body downloaded with its signature. */
  lemma {:induction false} ChangedFilesAreSigned(setup: Setup, w: World, rounds: seq<Round>, file: string)
    requires AtomicWrites(rounds) && file in AfterAll(setup, w, rounds).disk
    ensures var body := AfterAll(setup, w, rounds).disk[file];
            Holds(w.disk, file, body) || SignedInRun(setup.key, rounds, file, body)
  {
    OnlyVerifiedFilesAppear(setup, w, rounds);
    var body := AfterAll(setup, w, rounds).disk[file];
    if !Holds(w.disk, file, body) {
      AcceptedWasSigned(setup.key, rounds, file, body);
    }
  }

  lemma AcceptedWasSigned(key: Key, rounds: seq<Round>, file: string, body: Bytes)
    requires AcceptedInRun(key, rounds, file, body)
    ensures SignedInRun(key, rounds, file, body)
  {
    var r :| r in rounds && r.remote.listing.Some? && AcceptedAs(key, r.remote, r.remote.listing.value, file, body);
    var i :| 0 <= i < |r.remote.listing.value| && AcceptedAt(key, r.remote, r.remote.listing.value, i, file, body);
    AcceptedIsSigned(key, r.remote, r.remote.listing.value, i, file, body);
  }

  /** A signed item is written, unless something ends the sync before it, and stands until it is overwritten. */
  lemma {:induction false} SignedItemIsWritten(setup: Setup, w: World, r: Round, i: nat, file: string, body: Bytes)
    requires r.remote.listing.Some? && Puts(setup.key, r.remote, r.remote.listing.value, i, file, body)
    requires forall j :: i < j < |r.remote.listing.value| ==> r.remote.place(r.remote.listing.value[j].name) != file
    ensures Holds(After(setup, w, r).disk, file, body)
  {
    var items := r.remote.listing.value;
    WriteIsPut(setup.key, r.remote, items, i, file, body);
    WrittenFileHolds(setup.key, r.remote, items, |items|, w.disk, i);
  }

  /** A body for which no signature verifies never gets into a file, whatever the listing and the downloads are. */
  lemma {:induction false} ForgedBodyIsNeverWritten(setup: Setup, w: World, rounds: seq<Round>,
                                                    file: string, body: Bytes)
    requires AtomicWrites(rounds) && !Holds(w.disk, file, body)
    requires forall signature :: !setup.key.verify(body, signature)
    ensures !Holds(AfterAll(setup, w, rounds).disk, file, body)
  {
    if Holds(AfterAll(setup, w, rounds).disk, file, body) {
      ChangedFilesAreSigned(setup, w, rounds, file);
    }
  }

  // ---------------------------------------------------------------- what a reload sees

  lemma {:induction false} EntriesSeeFiles(setup: Setup, disk: Disk, files: seq<string>, i: nat)
    requires i < |files|
    ensures Entries(setup, disk, files)[i]
            == DirEntry(files[i], if files[i] in disk then setup.parse(disk[files[i]]) else None)
  {
    if i < |files| - 1 {
      EntriesSeeFiles(setup, disk, files[..|files| - 1], i);
    }
  }

  /** A reload loads a key exactly if some listed file on the disk may be loaded under it, as it parses. */
  lemma {:induction false} ReloadSeesFiles(setup: Setup, disk: Disk, files: seq<string>, key: string)
    ensures key in Reloaded(setup, disk, Files(files)) <==>
            exists file <- files :: file in disk && MayLoad(setup.g, DirEntry(file, setup.parse(disk[file])), key)
  {
    var entries := Entries(setup, disk, files);
    LoadedExactly(setup.g, entries, key);
    forall i | 0 <= i < |files|
      ensures entries[i] == DirEntry(files[i], if files[i] in disk then setup.parse(disk[files[i]]) else None)
    {
      EntriesSeeFiles(setup, disk, files, i);
    }
    if file :| file in files && file in disk && MayLoad(setup.g, DirEntry(file, setup.parse(disk[file])), key) {
      var i :| 0 <= i < |files| && files[i] == file;
      assert entries[i] in entries;
    }
  }

  // ---------------------------------------------------------------- backoff

  function Pow2(n: nat): nat {
    if n == 0 then 1 else 2 * Pow2(n - 1)
  }

  /** Consecutive failures at the end of a run. */
  function Failures(setup: Setup, w: World, rounds: seq<Round>): nat {
    if rounds == [] then 0
    else
      var n := |rounds| - 1;
      if Succeeds(setup, AfterAll(setup, w, rounds[..n]), rounds[n]) then 0
      else Failures(setup, w, rounds[..n]) + 1
  }

  lemma {:induction false} DelayClosedForm(setup: Setup, w: World, rounds: seq<Round>)
    requires w.failDelay == HOUR
    ensures AfterAll(setup, w, rounds).failDelay == Min(HOUR * Pow2(Failures(setup, w, rounds)), DAY)
  {
    if rounds != [] {
      DelayClosedForm(setup, w, rounds[..|rounds| - 1]);
    }
  }

  lemma {:induction false} SleepsAreKept(setup: Setup, w: World, rounds: seq<Round>, k: nat)
    requires k <= |rounds|
    ensures |AfterAll(setup, w, rounds).sleeps| == |w.sleeps| + |rounds|
    ensures AfterAll(setup, w, rounds[..k]).sleeps <= AfterAll(setup, w, rounds).sleeps
  {
    if rounds == [] {
      assert rounds[..k] == rounds;
    } else {
      var front := rounds[..|rounds| - 1];
      if k == |rounds| {
        assert rounds[..k] == rounds;
        SleepsAreKept(setup, w, front, k - 1);
      } else {
        assert rounds[..k] == front[..k];
        SleepsAreKept(setup, w, front, k);
      }
    }
  }

  /**
   Along any run from the start, the sleep after round `k` is a day if the round succeeded,
   and otherwise an hour doubled once for each failure directly before it, at most a day.
   Every gap lies between an hour and a day, and doubling never exceeds two days.
   */
  lemma BackoffClosedForm(setup: Setup, w: World, rounds: seq<Round>, k: nat)
    requires w.failDelay == HOUR && w.sleeps == [] && k < |rounds|
    ensures var run := AfterAll(setup, w, rounds);
            var before := AfterAll(setup, w, rounds[..k]);
            && |run.sleeps| == |rounds|
            && run.sleeps[k] == (if Succeeds(setup, before, rounds[k]) then DAY
                                 else Min(HOUR * Pow2(Failures(setup, w, rounds[..k])), DAY))
            && HOUR <= run.sleeps[k] <= DAY && before.failDelay * 2 <= 2 * DAY
  {
    var upTo := rounds[..k + 1];
    assert upTo[..k] == rounds[..k];
    DelayClosedForm(setup, w, rounds[..k]);
    SleepsAreKept(setup, w, rounds, k + 1);
    SleepsAreKept(setup, w, rounds[..k], 0);
    Pow2IsPositive(Failures(setup, w, rounds[..k]));
    assert AfterAll(setup, w, upTo).sleeps[k] == AfterAll(setup, w, rounds).sleeps[k];
  }

  /** In seconds: a success sleeps a day, the first failures sleep 1, 2, 4, 8 and 16 hours, and all later ones a day. */
  lemma {:induction false} BackoffInSeconds(setup: Setup, w: World, rounds: seq<Round>, k: nat)
    requires w.failDelay == 3_600 && w.sleeps == [] && k < |rounds|
    ensures var run, before := AfterAll(setup, w, rounds), AfterAll(setup, w, rounds[..k]);
            var n := Failures(setup, w, rounds[..k]);
            && |run.sleeps| == |rounds|
            && (Succeeds(setup, before, rounds[k]) ==> run.sleeps[k] == 86_400)
            && (!Succeeds(setup, before, rounds[k]) ==>
                  run.sleeps[k] == if n >= 5 then 86_400 else [3_600, 7_200, 14_400, 28_800, 57_600][n])
  {
    BackoffClosedForm(setup, w, rounds, k);
    var n := Failures(setup, w, rounds[..k]);
    if n >= 5 {
      Pow2AtLeast(n);
    } else {
      assert Pow2(0) == 1 && Pow2(1) == 2 && Pow2(2) == 4 && Pow2(3) == 8 && Pow2(4) == 16;
    }
  }

  lemma {:induction false} Pow2AtLeast(n: nat)
    requires n >= 5
    ensures Pow2(n) >= 32
  {
    if n > 5 {
      Pow2AtLeast(n - 1);
    } else {
      assert Pow2(3) == 8 && Pow2(5) == 32;
    }
  }

  lemma {:induction false} Pow2IsPositive(n: nat)
    ensures Pow2(n) >= 1
  {
    if n > 0 {
      Pow2IsPositive(n - 1);
    }
  }
}
