/** What the upload check promises: the order in which its checks fire, that
    the first violation decides the batch, what an accepted file is stored
    under, and what every key of an accepted map satisfies. */
module UploadProperties {
  import opened Common
  import opened Upload

  // ---------------------------------------------------------------------------
  // Splitting a scan: later files (entries) are only looked at when the earlier
  // ones did not abort, and they start from the map the earlier ones built.

  lemma {:induction false} ScanFilesSplit(files: seq<UploadedFile>, k: nat, options: Options)
    requires k <= |files|
    ensures ScanFiles(files, options) ==
              match ScanFiles(files[..k], options)
              case Err(f) => Err(f)
              case Ok(mid) => ScanFiles(files[k..], mid)
  {
    if k == 0 {
      assert files[..0] == [] && files[0..] == files;
    } else {
      assert files[..k][0] == files[0] && files[..k][1..] == files[1..][..k - 1];
      match FileStep(files[0], options)
      case Err(f) =>
      case Ok(next) =>
        ScanFilesSplit(files[1..], k - 1, next);
        assert files[1..][k - 1..] == files[k..];
    }
  }

  lemma {:induction false} ScanEntriesSplit(entries: seq<ZipEntry>, j: nat, options: Options)
    requires j <= |entries|
    ensures ScanEntries(entries, options) ==
              match ScanEntries(entries[..j], options)
              case Err(f) => Err(f)
              case Ok(mid) => ScanEntries(entries[j..], mid)
  {
    if j == 0 {
      assert entries[..0] == [] && entries[0..] == entries;
    } else {
      assert entries[..j][0] == entries[0] && entries[..j][1..] == entries[1..][..j - 1];
      match EntryStep(entries[0], options)
      case Err(f) =>
      case Ok(next) =>
        ScanEntriesSplit(entries[1..], j - 1, next);
        assert entries[1..][j - 1..] == entries[j..];
    }
  }

  /** The scan reaches file `k` holding the map `prefix`. */
  ghost predicate ReachesFile(files: seq<UploadedFile>, k: nat, prefix: Options)
  {
    k < |files| && ScanFiles(files[..k], map[]) == Ok(prefix)
  }

  /** File `k`, reached with `prefix`, aborts with `f`: that decides the batch,
      and nothing after file `k` is looked at. */
  lemma AbortDecides(files: seq<UploadedFile>, k: nat, prefix: Options, f: Failure)
    requires ReachesFile(files, k, prefix)
    requires FileStep(files[k], prefix) == Err(f)
    ensures Ingest(files) == Rejected(f)
    ensures Ingest(files[..k + 1]) == Rejected(f)
  {
    ScanFilesSplit(files, k, map[]);
    ScanFilesSplit(files[..k + 1], k, map[]);
    assert files[..k + 1][..k] == files[..k];
    assert files[..k + 1][k..] == [files[k]];
    assert files[k..][0] == files[k];
  }

  /** A file that the scan reaches and that passes the per-file checks without
      aborting hands the scan of the rest the map it produced. */
  lemma ContinueAfter(files: seq<UploadedFile>, k: nat, prefix: Options, next: Options)
    requires ReachesFile(files, k, prefix)
    requires FileStep(files[k], prefix) == Ok(next)
    ensures ScanFiles(files[..k + 1], map[]) == Ok(next)
    ensures ScanFiles(files, map[]) == ScanFiles(files[k + 1..], next)
  {
    ScanFilesSplit(files, k + 1, map[]);
    ScanFilesSplit(files[..k + 1], k, map[]);
    assert files[..k + 1][..k] == files[..k];
    assert files[..k + 1][k..] == [files[k]];
  }

  // ---------------------------------------------------------------------------
  // Top-level files: the order of the checks.

  lemma EmptyNameNotBanned()
    ensures !BannedFile("")
  {
  }

  lemma ZipNotBanned(name: string)
    requires EndsWith(name, ".zip")
    ensures !BannedFile(name) && AllowedOptions(name)
  {
    EndsWithAnyIff(name, AllowedExtensions);
    EndsWithAnyIff(name, BannedExtensions);
    assert EndsWith(name, AllowedExtensions[4]);
    assert name[|name| - 1] == 'p';
    forall i | 0 <= i < |BannedExtensions|
      ensures !EndsWith(name, BannedExtensions[i])
    {
      var x := BannedExtensions[i];
      assert x != [] && x[|x| - 1] != 'p';
      SuffixEndsAlike(name, x);
    }
  }

  /** A string ends with the same character as any non-empty suffix of it. */
  lemma SuffixEndsAlike(s: string, x: string)
    requires x != []
    ensures EndsWith(s, x) ==> s[|s| - 1] == x[|x| - 1]
  {
    if EndsWith(s, x) {
      assert s[|s| - |x|..][|x| - 1] == x[|x| - 1];
    }
  }

  lemma AllowedIsLong(s: string)
    requires AllowedOptions(s)
    ensures |s| >= 4
  {
    EndsWithAnyIff(s, AllowedExtensions);
    var i :| 0 <= i < |AllowedExtensions| && EndsWith(s, AllowedExtensions[i]);
  }

  lemma AllowedNotArchipelago(s: string)
    requires AllowedOptions(s)
    ensures !EndsWith(s, ".archipelago")
  {
    EndsWithAnyIff(s, AllowedExtensions);
    var i :| 0 <= i < |AllowedExtensions| && EndsWith(s, AllowedExtensions[i]);
    assert s[|s| - 1] == AllowedExtensions[i][|AllowedExtensions[i]| - 1];
  }

  /** Every banned extension is at most four characters long. */
  lemma BannedShort(s: string) returns (x: string)
    requires BannedFile(s)
    ensures x in BannedExtensions && |x| <= 4 && EndsWith(s, x)
  {
    EndsWithAnyIff(s, BannedExtensions);
    var i :| 0 <= i < |BannedExtensions| && EndsWith(s, BannedExtensions[i]);
    x := BannedExtensions[i];
  }

  lemma BannedBy(s: string, x: string)
    requires x in BannedExtensions && EndsWith(s, x)
    ensures BannedFile(s)
  {
    EndsWithAnyIff(s, BannedExtensions);
    var i :| 0 <= i < |BannedExtensions| && BannedExtensions[i] == x;
  }

  /** A banned name wins over every later check, even when the name is already
      a key, and nothing after it is looked at. */
  lemma BannedFileRejected(files: seq<UploadedFile>, k: nat, prefix: Options)
    requires ReachesFile(files, k, prefix)
    requires BannedFile(files[k].filename)
    ensures Ingest(files) == Rejected(RomFile)
    ensures Ingest(files[..k + 1]) == Rejected(RomFile)
    ensures MessageOf(RomFile) == Plain(RomWarning)
  {
    AbortDecides(files, k, prefix, RomFile);
  }

  /** An empty file name (a file picker left unset) is refused with exactly
      "No selected file.". */
  lemma EmptyNameRejected(files: seq<UploadedFile>, k: nat, prefix: Options)
    requires ReachesFile(files, k, prefix)
    requires files[k].filename == ""
    ensures Ingest(files) == Rejected(NoSelectedFile)
    ensures MessageOf(Ingest(files).failure) == Plain("No selected file.")
  {
    EmptyNameNotBanned();
    AbortDecides(files, k, prefix, NoSelectedFile);
  }

  /** A name already in the map is refused with a message that names it. */
  lemma DuplicateRejected(files: seq<UploadedFile>, k: nat, prefix: Options)
    requires ReachesFile(files, k, prefix)
    requires !BannedFile(files[k].filename) && files[k].filename in prefix
    ensures Ingest(files) == Rejected(ConflictingFiles(files[k].filename))
    ensures Contains(MessageOf(Ingest(files).failure).text, files[k].filename)
  {
    assert files[k].filename != "" by {
      ScanFilesWellFormed(files[..k], map[]);
    }
    AbortDecides(files, k, prefix, ConflictingFiles(files[k].filename));
    MessageNamesFile(ConflictingFiles(files[k].filename));
  }

  /** A `.zip` upload that fails the validity probe is refused with a message
      that names it, before any of its entries is looked at. */
  lemma InvalidZipRejected(files: seq<UploadedFile>, k: nat, prefix: Options)
    requires ReachesFile(files, k, prefix)
    requires EndsWith(files[k].filename, ".zip") && files[k].filename !in prefix
    requires !files[k].zipValid
    ensures Ingest(files) == Rejected(InvalidZip(files[k].filename))
    ensures Contains(MessageOf(Ingest(files).failure).text, files[k].filename)
  {
    ZipNotBanned(files[k].filename);
    AbortDecides(files, k, prefix, InvalidZip(files[k].filename));
    MessageNamesFile(InvalidZip(files[k].filename));
  }

  /** An allowed file that is not an archive is stored under its own name with
      exactly the bytes uploaded. */
  lemma PlainFileStored(files: seq<UploadedFile>, k: nat, prefix: Options)
    requires ReachesFile(files, k, prefix)
    requires files[k].filename != "" && files[k].filename !in prefix
    requires AllowedOptions(files[k].filename) && !BannedFile(files[k].filename)
    requires !EndsWith(files[k].filename, ".zip")
    ensures ScanFiles(files[..k + 1], map[]) == Ok(prefix[files[k].filename := files[k].body])
  {
    ContinueAfter(files, k, prefix, prefix[files[k].filename := files[k].body]);
  }

  /** A file whose extension is neither allowed nor banned is passed over
      without an error and adds nothing. */
  lemma UnrecognisedFileSkipped(files: seq<UploadedFile>, k: nat, prefix: Options)
    requires ReachesFile(files, k, prefix)
    requires files[k].filename != "" && files[k].filename !in prefix
    requires !AllowedOptions(files[k].filename) && !BannedFile(files[k].filename)
    ensures ScanFiles(files[..k + 1], map[]) == Ok(prefix)
    ensures ScanFiles(files, map[]) == ScanFiles(files[k + 1..], prefix)
  {
    ContinueAfter(files, k, prefix, prefix);
  }

  /** A batch in which every file is passed over (the empty batch among them)
      is refused for containing no valid file. */
  lemma {:induction false} NothingAcceptedRejected(files: seq<UploadedFile>)
    requires forall i :: 0 <= i < |files| ==>
               files[i].filename != "" && !AllowedOptions(files[i].filename) && !BannedFile(files[i].filename)
    ensures Ingest(files) == Rejected(NoValidFiles)
    ensures MessageOf(Ingest(files).failure).text ==
              "Did not find any valid files to process. Accepted formats: ('.yaml', '.json', '.yml', '.txt', '.zip')"
  {
    SkippedFilesKeepMap(files, map[]);
  }

  lemma {:induction false} SkippedFilesKeepMap(files: seq<UploadedFile>, options: Options)
    requires forall i :: 0 <= i < |files| ==>
               files[i].filename != "" && !AllowedOptions(files[i].filename) && !BannedFile(files[i].filename)
    requires forall k :: k in options ==> AllowedOptions(k)
    ensures ScanFiles(files, options) == Ok(options)
  {
    if files != [] {
      assert files[0].filename !in options;
      SkippedFilesKeepMap(files[1..], options);
    }
  }

  // ---------------------------------------------------------------------------
  // Archive entries: the order of the checks on an entry's base name.

  /** The scan reaches entry `j` of the valid archive uploaded as file `k`,
      holding the map `current`. */
  ghost predicate ReachesEntry(files: seq<UploadedFile>, k: nat, j: nat, current: Options)
  {
    exists prefix :: ReachesFile(files, k, prefix) && ReachesEntryFrom(files[k], prefix, j, current)
  }

  ghost predicate ReachesEntryFrom(f: UploadedFile, prefix: Options, j: nat, current: Options)
  {
    && f.filename !in prefix
    && EndsWith(f.filename, ".zip")
    && f.zipValid
    && j < |f.entries|
    && ScanEntries(f.entries[..j], prefix) == Ok(current)
  }

  /** An entry that aborts decides the batch. */
  lemma EntryAbortDecides(files: seq<UploadedFile>, k: nat, j: nat, current: Options, f: Failure)
    requires ReachesEntry(files, k, j, current)
    requires EntryStep(files[k].entries[j], current) == Err(f)
    ensures Ingest(files) == Rejected(f)
  {
    var prefix :| ReachesFile(files, k, prefix) && ReachesEntryFrom(files[k], prefix, j, current);
    var entries := files[k].entries;
    ZipNotBanned(files[k].filename);
    ScanEntriesSplit(entries, j, prefix);
    assert entries[j..][0] == entries[j];
    AbortDecides(files, k, prefix, f);
  }

  /** An entry whose base name ends with `.archipelago` refuses the batch with
      the one message marked as markup. */
  lemma ArchipelagoEntryRejected(files: seq<UploadedFile>, k: nat, j: nat, current: Options)
    requires ReachesEntry(files, k, j, current)
    requires EndsWith(Basename(files[k].entries[j].storedName), ".archipelago")
    ensures Ingest(files) == Rejected(ArchipelagoInZip)
    ensures MessageOf(Ingest(files).failure).Markup?
  {
    EntryAbortDecides(files, k, j, current, ArchipelagoInZip);
  }

  /** An archive inside the archive is refused, even though `.zip` is an
      allowed extension. */
  lemma NestedZipEntryRejected(files: seq<UploadedFile>, k: nat, j: nat, current: Options)
    requires ReachesEntry(files, k, j, current)
    requires EndsWith(Basename(files[k].entries[j].storedName), ".zip")
    ensures Ingest(files) == Rejected(NestedZip)
    ensures MessageOf(Ingest(files).failure).Plain?
  {
    EntryAbortDecides(files, k, j, current, NestedZip);
  }

  /** An entry with a banned base name gets the same ROM warning as a
      top-level ROM. */
  lemma RomEntryRejected(files: seq<UploadedFile>, k: nat, j: nat, current: Options)
    requires ReachesEntry(files, k, j, current)
    requires !EndsWith(Basename(files[k].entries[j].storedName), ".archipelago")
    requires BannedFile(Basename(files[k].entries[j].storedName))
    ensures Ingest(files) == Rejected(RomFile)
  {
    var base := Basename(files[k].entries[j].storedName);
    assert !EndsWith(base, ".zip") by {
      if EndsWith(base, ".zip") {
        ZipNotBanned(base);
      }
    }
    EntryAbortDecides(files, k, j, current, RomFile);
  }

  /** An allowed entry whose base name is not a dot-file is stored under the
      full name it has in the archive, folders included, not its base name. */
  lemma EntryStoredUnderFullName(f: UploadedFile, prefix: Options, j: nat, current: Options)
    requires ReachesEntryFrom(f, prefix, j, current)
    requires !EndsWith(Basename(f.entries[j].storedName), ".zip")
    requires !BannedFile(Basename(f.entries[j].storedName))
    requires !StartsWith(Basename(f.entries[j].storedName), ".")
    requires AllowedOptions(Basename(f.entries[j].storedName))
    ensures ScanEntries(f.entries[..j + 1], prefix) == Ok(current[f.entries[j].storedName := f.entries[j].content])
  {
    var e := f.entries[j];
    var base := Basename(e.storedName);
    AllowedNotArchipelago(base);
    assert EntryStep(e, current) == Ok(current[e.storedName := e.content]);
    ScanEntriesExtend(f.entries, j, prefix, current);
  }

  /** A dot-file entry, or an entry with an unrecognised extension, is passed
      over without an error. */
  lemma EntrySkipped(f: UploadedFile, prefix: Options, j: nat, current: Options)
    requires ReachesEntryFrom(f, prefix, j, current)
    requires !EndsWith(Basename(f.entries[j].storedName), ".archipelago")
    requires !EndsWith(Basename(f.entries[j].storedName), ".zip")
    requires !BannedFile(Basename(f.entries[j].storedName))
    requires StartsWith(Basename(f.entries[j].storedName), ".") || !AllowedOptions(Basename(f.entries[j].storedName))
    ensures ScanEntries(f.entries[..j + 1], prefix) == Ok(current)
  {
    assert EntryStep(f.entries[j], current) == Ok(current);
    ScanEntriesExtend(f.entries, j, prefix, current);
  }

  /** Scanning one entry further is one more step. */
  lemma ScanEntriesExtend(entries: seq<ZipEntry>, j: nat, prefix: Options, current: Options)
    requires j < |entries| && ScanEntries(entries[..j], prefix) == Ok(current)
    ensures ScanEntries(entries[..j + 1], prefix) == EntryStep(entries[j], current)
  {
    ScanEntriesSplit(entries[..j + 1], j, prefix);
    assert entries[..j + 1][..j] == entries[..j];
    assert entries[..j + 1][j..] == [entries[j]];
    assert [entries[j]][1..] == [];
  }

  // ---------------------------------------------------------------------------
  // What holds of every accepted map.

  /** Every key is a non-empty name with an allowed and no banned extension. */
  ghost predicate WellFormedKeys(options: Options)
  {
    forall key :: key in options ==> key != "" && AllowedOptions(key) && !BannedFile(key)
  }

  lemma {:induction false} SuffixOfSuffix(s: string, b: string, x: string)
    requires EndsWith(s, b) && EndsWith(b, x)
    ensures EndsWith(s, x)
  {
    assert s[|s| - |x|..] == s[|s| - |b|..][|b| - |x|..];
  }

  lemma {:induction false} ShortSuffixShared(s: string, b: string, x: string)
    requires EndsWith(s, b) && EndsWith(s, x) && |x| <= |b|
    ensures EndsWith(b, x)
  {
    assert b[|b| - |x|..] == s[|s| - |b|..][|b| - |x|..];
  }

  /** An archive entry's full stored name passes the extension checks exactly
      as its base name does: its base name is a suffix of it, at least as long
      as every banned extension. */
  lemma StoredNameInheritsChecks(stored: string)
    requires AllowedOptions(Basename(stored)) && !BannedFile(Basename(stored))
    ensures stored != "" && AllowedOptions(stored) && !BannedFile(stored)
  {
    var base := Basename(stored);
    EndsWithAnyIff(base, AllowedExtensions);
    EndsWithAnyIff(stored, AllowedExtensions);
    var i :| 0 <= i < |AllowedExtensions| && EndsWith(base, AllowedExtensions[i]);
    SuffixOfSuffix(stored, base, AllowedExtensions[i]);
    AllowedIsLong(base);
    if BannedFile(stored) {
      var x := BannedShort(stored);
      ShortSuffixShared(stored, base, x);
      BannedBy(base, x);
    }
  }

  lemma {:induction false} ScanEntriesWellFormed(entries: seq<ZipEntry>, options: Options)
    requires WellFormedKeys(options)
    ensures ScanEntries(entries, options).Ok? ==> WellFormedKeys(ScanEntries(entries, options).value)
  {
    if entries != [] && EntryStep(entries[0], options).Ok? {
      EntryStepWellFormed(entries[0], options);
      ScanEntriesWellFormed(entries[1..], EntryStep(entries[0], options).value);
    }
  }

  /** A stored entry's key passes the checks a top-level name must pass. */
  lemma EntryStepWellFormed(e: ZipEntry, options: Options)
    requires WellFormedKeys(options)
    ensures EntryStep(e, options).Ok? ==> WellFormedKeys(EntryStep(e, options).value)
  {
    var base := Basename(e.storedName);
    var r := EntryStep(e, options);
    if r.Ok? && !StartsWith(base, ".") && AllowedOptions(base) && !BannedFile(base) {
      StoredNameInheritsChecks(e.storedName);
      var next := options[e.storedName := e.content];
      AllowedNotArchipelago(base);
      assert !EndsWith(base, ".zip");
      assert r.value == next;
      forall key | key in next
        ensures key != "" && AllowedOptions(key) && !BannedFile(key)
      {
        if key != e.storedName {
          assert key in options;
        }
      }
    }
  }

  lemma {:induction false} ScanFilesWellFormed(files: seq<UploadedFile>, options: Options)
    requires WellFormedKeys(options)
    ensures ScanFiles(files, options).Ok? ==> WellFormedKeys(ScanFiles(files, options).value)
  {
    if files != [] {
      var f := files[0];
      if FileStep(f, options).Ok? {
        if AllowedOptions(f.filename) && EndsWith(f.filename, ".zip") && f.zipValid && f.filename !in options {
          ScanEntriesWellFormed(f.entries, options);
        }
        ScanFilesWellFormed(files[1..], FileStep(f, options).value);
      }
    }
  }

  /** Every key of an accepted map passes the allow check and fails the ban
      check, and an accepted map is never empty. */
  lemma AcceptedKeysWellFormed(files: seq<UploadedFile>)
    ensures Ingest(files).Accepted? ==> WellFormedKeys(Ingest(files).options) && Ingest(files).options != map[]
  {
    ScanFilesWellFormed(files, map[]);
  }

  /** Every name that some file or archive entry of the batch carries. */
  function NamesIn(files: seq<UploadedFile>): (names: set<string>)
    ensures forall i :: 0 <= i < |files| ==> files[i].filename in names
  {
    if files == [] then {}
    else {files[0].filename} + (set e | e in files[0].entries :: e.storedName) + NamesIn(files[1..])
  }

  /** The scan never removes a key and adds only names from the batch. */
  lemma {:induction false} ScanFilesKeys(files: seq<UploadedFile>, options: Options)
    ensures ScanFiles(files, options).Ok? ==>
              options.Keys <= ScanFiles(files, options).value.Keys <= options.Keys + NamesIn(files)
  {
    if files != [] {
      var f := files[0];
      if FileStep(f, options).Ok? {
        var next := FileStep(f, options).value;
        assert options.Keys <= next.Keys <= options.Keys + NamesIn(files) by {
          if AllowedOptions(f.filename) && EndsWith(f.filename, ".zip") && f.zipValid && f.filename !in options {
            ScanEntriesKeys(f.entries, options);
          }
        }
        ScanFilesKeys(files[1..], next);
      }
    }
  }

  lemma {:induction false} ScanEntriesKeys(entries: seq<ZipEntry>, options: Options)
    ensures ScanEntries(entries, options).Ok? ==>
              options.Keys <= ScanEntries(entries, options).value.Keys
                           <= options.Keys + (set e | e in entries :: e.storedName)
  {
    if entries != [] {
      if EntryStep(entries[0], options).Ok? {
        var next := EntryStep(entries[0], options).value;
        ScanEntriesKeys(entries[1..], next);
        assert forall e :: e in entries[1..] ==> e in entries;
      }
    }
  }

  /** An accepted batch held no banned and no unnamed top-level file: any of
      them would have aborted it. */
  lemma {:induction false} ScanFilesClean(files: seq<UploadedFile>, options: Options)
    ensures ScanFiles(files, options).Ok? ==>
              forall i :: 0 <= i < |files| ==> !BannedFile(files[i].filename) && files[i].filename != ""
  {
    if files != [] && FileStep(files[0], options).Ok? {
      ScanFilesClean(files[1..], FileStep(files[0], options).value);
      assert forall i :: 1 <= i < |files| ==> files[i] == files[1..][i - 1];
    }
  }

  lemma AcceptedBatchIsClean(files: seq<UploadedFile>)
    ensures Ingest(files).Accepted? ==>
              forall i :: 0 <= i < |files| ==> !BannedFile(files[i].filename) && files[i].filename != ""
    ensures Ingest(files).Accepted? ==> Ingest(files).options.Keys <= NamesIn(files)
  {
    ScanFilesClean(files, map[]);
    ScanFilesKeys(files, map[]);
  }

  // ---------------------------------------------------------------------------
  // Round trip for a plain file.

  /** Some archive entry of some upload in `files` is stored as `key`. */
  ghost predicate EntryNamed(files: seq<UploadedFile>, key: string)
  {
    exists i, j :: 0 <= i < |files| && 0 <= j < |files[i].entries| && files[i].entries[j].storedName == key
  }

  lemma {:induction false} ScanEntriesKeepsValue(entries: seq<ZipEntry>, options: Options, key: string)
    requires key in options
    requires forall j :: 0 <= j < |entries| ==> entries[j].storedName != key
    ensures ScanEntries(entries, options).Ok? ==>
              key in ScanEntries(entries, options).value && ScanEntries(entries, options).value[key] == options[key]
  {
    if entries != [] && EntryStep(entries[0], options).Ok? {
      ScanEntriesKeepsValue(entries[1..], EntryStep(entries[0], options).value, key);
    }
  }

  lemma {:induction false} ScanFilesKeepsValue(files: seq<UploadedFile>, options: Options, key: string)
    requires key in options && !EntryNamed(files, key)
    ensures ScanFiles(files, options).Ok? ==>
              key in ScanFiles(files, options).value && ScanFiles(files, options).value[key] == options[key]
  {
    if files != [] && FileStep(files[0], options).Ok? {
      var f := files[0];
      if AllowedOptions(f.filename) && EndsWith(f.filename, ".zip") && f.zipValid && f.filename !in options {
        assert forall j :: 0 <= j < |f.entries| ==> f.entries[j].storedName != key;
        ScanEntriesKeepsValue(f.entries, options, key);
      }
      assert !EntryNamed(files[1..], key);
      ScanFilesKeepsValue(files[1..], FileStep(f, options).value, key);
    }
  }

  /** An allowed non-archive file comes back from an accepted batch under its
      own name with exactly its bytes, unless an archive entry later in the
      batch is stored under the same name (entries are not checked for
      conflicts, so such an entry replaces it). */
  lemma PlainFileRoundTrip(files: seq<UploadedFile>, k: nat, prefix: Options)
    requires ReachesFile(files, k, prefix)
    requires files[k].filename != "" && files[k].filename !in prefix
    requires AllowedOptions(files[k].filename) && !BannedFile(files[k].filename)
    requires !EndsWith(files[k].filename, ".zip")
    requires !EntryNamed(files[k + 1..], files[k].filename)
    ensures Ingest(files).Accepted? ==>
              files[k].filename in Ingest(files).options && Ingest(files).options[files[k].filename] == files[k].body
  {
    var name := files[k].filename;
    var next := prefix[name := files[k].body];
    ContinueAfter(files, k, prefix, next);
    ScanFilesKeepsValue(files[k + 1..], next, name);
  }

  /** The conflict check covers top-level names only: an archive entry stored
      under the name of an earlier file replaces that file's bytes instead of
      being refused as a conflict. */
  lemma ZipEntryReplacesEarlierFile(name: string, archiveName: string, earlier: seq<byte>, later: seq<byte>)
    requires name != "" && '/' !in name && !StartsWith(name, ".")
    requires AllowedOptions(name) && !BannedFile(name) && !EndsWith(name, ".zip")
    requires EndsWith(archiveName, ".zip") && archiveName != name
    ensures
      var first := UploadedFile(name, earlier, false, []);
      var archive := UploadedFile(archiveName, [], true, [ZipEntry(name, later)]);
      Ingest([first, archive]) == Accepted(map[name := later])
  {
    var first := UploadedFile(name, earlier, false, []);
    var archive := UploadedFile(archiveName, [], true, [ZipEntry(name, later)]);
    var m1 := map[name := earlier];
    var m2 := map[name := later];
    assert FileStep(first, map[]) == Ok(m1);
    assert EntryStep(archive.entries[0], m1) == Ok(m2) by {
      BasenameWithoutSlash(name);
      AllowedNotArchipelago(name);
      assert archive.entries[0].storedName == name;
      assert m1[name := later] == m2;
    }
    assert ScanEntries(archive.entries, m1) == Ok(m2) by {
      assert archive.entries[1..] == [];
    }
    assert FileStep(archive, m1) == Ok(m2) by {
      ZipNotBanned(archiveName);
    }
    assert ScanFiles([archive], m1) == Ok(m2) by {
      assert [archive][1..] == [];
    }
    assert ScanFiles([first, archive], map[]) == Ok(m2) by {
      assert [first, archive][1..] == [archive];
    }
    assert name in m2;
  }

  lemma {:induction false} BasenameWithoutSlash(path: string)
    requires '/' !in path
    ensures Basename(path) == path
    decreases |path|
  {
    if path != [] {
      var init := path[..|path| - 1];
      forall k | 0 <= k < |init|
        ensures init[k] != '/'
      {
        assert init[k] == path[k] && path[k] in path;
      }
      BasenameWithoutSlash(init);
      assert init + [path[|path| - 1]] == path;
    }
  }
}
