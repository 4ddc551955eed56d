/** Upload ingestion: the web host's check of a batch of uploaded option files
    (`get_yaml_data_isolated` with `allowed_options` and `banned_file`).

    A batch is scanned file by file; each file runs through a fixed sequence of
    checks where the first match wins, a `.zip` upload has each of its entries
    checked in turn, and the first violation aborts the whole batch with one
    message. Otherwise the result is the map from file names to bytes that the
    scan built, provided it is not empty. */
module Upload {
  import opened Common

  /** One member of a `.zip` archive as the zip library lists it: the name it
      is stored under (which may include folders) and the bytes it holds. */
  datatype ZipEntry = ZipEntry(storedName: string, content: seq<byte>)

  /** One uploaded file: its name and its bytes. For a `.zip` upload,
      `zipValid` is the archive-validity probe's answer about `body` and
      `entries` is the archive's member list; other files ignore both. */
  datatype UploadedFile = UploadedFile(filename: string, body: seq<byte>, zipValid: bool, entries: seq<ZipEntry>)

  /** The reasons a batch is refused. */
  datatype Failure =
    | RomFile
    | NoSelectedFile
    | ConflictingFiles(name: string)
    | InvalidZip(name: string)
    | ArchipelagoInZip
    | NestedZip
    | NoValidFiles

  /** The text shown to the user; `Markup` is the one message that is marked
      safe to render as HTML because it embeds a link. */
  datatype Message = Plain(text: string) | Markup(text: string)

  /** Accepted file names and their bytes. */
  type Options = map<string, seq<byte>>

  /** Either the options map or the one failure, never both. */
  datatype Outcome = Accepted(options: Options) | Rejected(failure: Failure)

  const AllowedExtensions: seq<string> := [".yaml", ".json", ".yml", ".txt", ".zip"]
  const BannedExtensions: seq<string> := [".sfc", ".z64", ".n64", ".nes", ".smc", ".sms", ".gb", ".gbc", ".gba"]

  const RomWarning: string :=
    "Uploaded data contained a rom file, which is likely to contain copyrighted material. Your file was deleted."

  /** `s.endswith(suffixes)` for a tuple of suffixes. */
  function EndsWithAny(s: string, suffixes: seq<string>): bool
  {
    if suffixes == [] then false
    else EndsWith(s, suffixes[0]) || EndsWithAny(s, suffixes[1..])
  }

  /** `EndsWithAny` holds exactly when one of the suffixes ends `s`. */
  lemma {:induction false} EndsWithAnyIff(s: string, suffixes: seq<string>)
    ensures EndsWithAny(s, suffixes) <==> exists i :: 0 <= i < |suffixes| && EndsWith(s, suffixes[i])
  {
    if suffixes != [] {
      EndsWithAnyIff(s, suffixes[1..]);
      if exists i :: 0 <= i < |suffixes| && EndsWith(s, suffixes[i]) {
        var i :| 0 <= i < |suffixes| && EndsWith(s, suffixes[i]);
        if i > 0 {
          assert suffixes[1..][i - 1] == suffixes[i];
        }
      }
      if EndsWithAny(s, suffixes[1..]) {
        var i :| 0 <= i < |suffixes[1..]| && EndsWith(s, suffixes[1..][i]);
        assert suffixes[i + 1] == suffixes[1..][i];
      }
    }
  }

  predicate AllowedOptions(filename: string)
  {
    EndsWithAny(filename, AllowedExtensions)
  }

  predicate BannedFile(filename: string)
  {
    EndsWithAny(filename, BannedExtensions)
  }

  /** The last component of a `/`-separated path, as `os.path.basename` gives
      it: the longest suffix without a `/`. */
  function Basename(path: string): (b: string)
    ensures '/' !in b
    ensures EndsWith(path, b)
    ensures |b| < |path| ==> path[|path| - |b| - 1] == '/'
  {
    if path == [] || path[|path| - 1] == '/' then []
    else
      var b := Basename(path[..|path| - 1]) + [path[|path| - 1]];
      assert path[|path| - |b|..] == path[..|path| - 1][|path| - |b|..] + [path[|path| - 1]];
      b
  }

  /** A name written between two pieces of text occurs in the result. */
  lemma NamedIn(before: string, name: string, after: string)
    ensures Contains(before + name + after, name)
  {
    var text := before + name + after;
    assert text[|before|..|before| + |name|] == name;
    assert OccursAt(text, name, |before|);
  }

  /** The message the user sees for each failure: only the one that embeds a
      link is marked safe to render as HTML. */
  function MessageOf(f: Failure): (m: Message)
    ensures m.Markup? <==> f.ArchipelagoInZip?
  {
    if f.ArchipelagoInZip? then Markup(MessageText(f)) else Plain(MessageText(f))
  }

  /** The words of each failure's message. */
  function MessageText(f: Failure): string
  {
    match f
    case RomFile => RomWarning
    case NoSelectedFile => "No selected file."
    case ConflictingFiles(name) => "Conflicting files named " + name + " submitted."
    case InvalidZip(name) => "Uploaded file " + name + " is not a valid .zip file and cannot be opened."
    case ArchipelagoInZip =>
      "Error: Your .zip file contains an .archipelago file. Did you mean to <a href=\"/uploads\">host a game</a>?"
    case NestedZip => "Nested .zip files inside a .zip are not supported."
    case NoValidFiles =>
      "Did not find any valid files to process. Accepted formats: ('.yaml', '.json', '.yml', '.txt', '.zip')"
  }

  /** The messages about one file name it. */
  lemma MessageNamesFile(f: Failure)
    requires f.ConflictingFiles? || f.InvalidZip?
    ensures Contains(MessageOf(f).text, f.name)
  {
    match f
    case ConflictingFiles(name) => NamedIn("Conflicting files named ", name, " submitted.");
    case InvalidZip(name) => NamedIn("Uploaded file ", name, " is not a valid .zip file and cannot be opened.");
  }

  // ---------------------------------------------------------------------------
  // The scan as functions: one step per archive entry and per uploaded file.

  /** One archive entry, judged by its base name; first match wins. */
  function EntryStep(e: ZipEntry, options: Options): (r: Result<Options, Failure>)
    ensures r.Ok? ==> r.value == options || r.value == options[e.storedName := e.content]
  {
    var base := Basename(e.storedName);
    if EndsWith(base, ".archipelago") then Err(ArchipelagoInZip)
    else if EndsWith(base, ".zip") then Err(NestedZip)
    else if BannedFile(base) then Err(RomFile)
    else if !StartsWith(base, ".") && AllowedOptions(base) then Ok(options[e.storedName := e.content])
    else Ok(options)
  }

  function ScanEntries(entries: seq<ZipEntry>, options: Options): Result<Options, Failure>
  {
    if entries == [] then Ok(options)
    else
      match EntryStep(entries[0], options)
      case Err(f) => Err(f)
      case Ok(next) => ScanEntries(entries[1..], next)
  }

  /** One uploaded file; first match wins. */
  function FileStep(f: UploadedFile, options: Options): Result<Options, Failure>
  {
    if BannedFile(f.filename) then Err(RomFile)
    else if f.filename == "" then Err(NoSelectedFile)
    else if f.filename in options then Err(ConflictingFiles(f.filename))
    else if AllowedOptions(f.filename) then
      if EndsWith(f.filename, ".zip") then
        if !f.zipValid then Err(InvalidZip(f.filename))
        else ScanEntries(f.entries, options)
      else Ok(options[f.filename := f.body])
    else Ok(options)
  }

  function ScanFiles(files: seq<UploadedFile>, options: Options): Result<Options, Failure>
  {
    if files == [] then Ok(options)
    else
      match FileStep(files[0], options)
      case Err(f) => Err(f)
      case Ok(next) => ScanFiles(files[1..], next)
  }

  /** The outcome of a whole batch. */
  function Ingest(files: seq<UploadedFile>): Outcome
  {
    match ScanFiles(files, map[])
    case Err(f) => Rejected(f)
    case Ok(options) => if options == map[] then Rejected(NoValidFiles) else Accepted(options)
  }

  // ---------------------------------------------------------------------------
  // The routine itself: a scan that fills the map in place and returns on the
  // first violation.

  method GetYamlData(files: seq<UploadedFile>) returns (outcome: Outcome)
    ensures outcome == Ingest(files)
  {
    var options: Options := map[];
    var i := 0;
    while i < |files|
      invariant 0 <= i <= |files|
      invariant ScanFiles(files, map[]) == ScanFiles(files[i..], options)
    {
      var uploaded := files[i];
      assert files[i..][0] == uploaded && files[i..][1..] == files[i + 1..];
      if BannedFile(uploaded.filename) {
        return Rejected(RomFile);
      } else if uploaded.filename == "" {
        return Rejected(NoSelectedFile);
      } else if uploaded.filename in options {
        return Rejected(ConflictingFiles(uploaded.filename));
      } else if AllowedOptions(uploaded.filename) {
        if EndsWith(uploaded.filename, ".zip") {
          if !uploaded.zipValid {
            return Rejected(InvalidZip(uploaded.filename));
          }
          ghost var before := options;
          var entries := uploaded.entries;
          var j := 0;
          while j < |entries|
            invariant 0 <= j <= |entries|
            invariant ScanEntries(entries, before) == ScanEntries(entries[j..], options)
          {
            var entry := entries[j];
            assert entries[j..][0] == entry && entries[j..][1..] == entries[j + 1..];
            var base := Basename(entry.storedName);
            if EndsWith(base, ".archipelago") {
              return Rejected(ArchipelagoInZip);
            } else if EndsWith(base, ".zip") {
              return Rejected(NestedZip);
            } else if BannedFile(base) {
              return Rejected(RomFile);
            } else if !StartsWith(base, ".") && AllowedOptions(base) {
              options := options[entry.storedName := entry.content];
            }
            j := j + 1;
          }
        } else {
          options := options[uploaded.filename := uploaded.body];
        }
      }
      i := i + 1;
    }
    if options == map[] {
      return Rejected(NoValidFiles);
    }
    return Accepted(options);
  }
}
