/** The ticket requestor (save_blobs.py): reads a saved config document back
    and builds one `tsschecker` argument list per restore mode. File existence
    is given as booleans; running the tool is left to the caller. */
module Requestor {
  import opened Text
  import opened Paths

  // ---------------------------------------------------------------------------
  // extract(contents, key): re.search(r"\*\*KEY:\*\*\s*`(.*?)`", contents)

  /** The literal text `**<key>:**` the pattern starts with. */
  function Label(key: string): string {
    "**" + key + ":**"
  }

  /** `(.*?)` followed by a backtick: the shortest run of characters other than
      a newline that ends just before a backtick; `None` when a newline (or the
      end of the text) comes first. */
  function LazyValue(s: string): (r: Option<string>)
    ensures r.Some? ==> |r.value| < |s| && r.value == s[..|r.value|] && s[|r.value|] == '`'
    ensures r.Some? ==> '`' !in r.value && '\n' !in r.value
    ensures r.None? ==> forall k :: 0 <= k < |s| && s[k] == '`' ==> '\n' in s[..k]
  {
    if s == [] then None
    else if s[0] == '`' then Some("")
    else if s[0] == '\n' then None
    else
      var rest := LazyValue(s[1..]);
      assert forall k :: 1 <= k <= |s| ==> s[..k] == [s[0]] + s[1..][..k - 1];
      if rest.Some? then Some([s[0]] + rest.value) else None
  }

  /** The pattern matched at the very start of `s`: the label, any whitespace,
      then a backtick-delimited value on the same line. */
  function MatchAt(s: string, key: string): (r: Option<string>)
    ensures r.Some? ==> Label(key) <= s
    ensures r.Some? ==> '`' !in r.value && '\n' !in r.value
  {
    var l := Label(key);
    if l <= s then
      var t := TrimStart(s[|l|..]);
      if t != [] && t[0] == '`' then LazyValue(t[1..]) else None
    else None
  }

  /** `extract(contents, key)`: the value of the leftmost match, or `None`. */
  function Extract(contents: string, key: string): (r: Option<string>)
    ensures r.Some? ==> '`' !in r.value && '\n' !in r.value
    decreases |contents|
  {
    var m := MatchAt(contents, key);
    if m.Some? || contents == [] then m else Extract(contents[1..], key)
  }

  /** The pattern matches at none of the positions `0 .. j - 1` of `s`. */
  ghost predicate NoMatchBefore(s: string, key: string, j: int)
    requires j <= |s| + 1
  {
    forall k :: 0 <= k < j ==> MatchAt(s[k..], key).None?
  }

  /** Positions of `s[1..]` are positions of `s`, shifted by one. */
  lemma NoMatchShift(s: string, key: string, j: int)
    requires s != [] && 0 <= j <= |s|
    requires MatchAt(s, key).None? && NoMatchBefore(s[1..], key, j)
    ensures NoMatchBefore(s, key, j + 1)
  {
    forall k | 0 < k < j + 1 ensures MatchAt(s[k..], key).None? {
      assert s[k..] == s[1..][k - 1..];
    }
  }

  /** `Extract` fails exactly when the pattern matches at no position of `s`. */
  lemma {:induction false} ExtractNoneIffNoMatch(s: string, key: string)
    ensures Extract(s, key).None? <==> NoMatchBefore(s, key, |s| + 1)
    decreases |s|
  {
    if MatchAt(s, key).None? && s != [] {
      ExtractNoneIffNoMatch(s[1..], key);
      if Extract(s, key).None? {
        NoMatchShift(s, key, |s| - 1 + 1);
      } else {
        assert !NoMatchBefore(s[1..], key, |s|);
        var k :| 0 <= k < |s| && MatchAt(s[1..][k..], key).Some?;
        assert s[1..][k..] == s[k + 1..];
      }
    } else {
      assert s[0..] == s;
    }
  }

  /** The position `Extract` stops at: the pattern matches there with the value
      `Extract` returns, and at no earlier position. */
  lemma {:induction false} LeftmostPosition(s: string, key: string) returns (j: nat)
    requires Extract(s, key).Some?
    ensures j <= |s| && MatchAt(s[j..], key) == Extract(s, key) && NoMatchBefore(s, key, j)
    decreases |s|
  {
    if MatchAt(s, key).None? && s != [] {
      var i := LeftmostPosition(s[1..], key);
      assert s[1..][i..] == s[i + 1..];
      NoMatchShift(s, key, i);
      j := i + 1;
    } else {
      assert s[0..] == s;
      j := 0;
    }
  }

  /** A successful `Extract` returns the match at the first position where the
      pattern matches. */
  lemma ExtractIsLeftmostMatch(s: string, key: string)
    requires Extract(s, key).Some?
    ensures exists j :: 0 <= j <= |s| && MatchAt(s[j..], key) == Extract(s, key) && NoMatchBefore(s, key, j)
  {
    var j := LeftmostPosition(s, key);
  }

  // ---------------------------------------------------------------------------
  // The fields main reads

  /** The values `main` extracts from the document (`None` where `extract` found nothing). */
  datatype BlobFields = BlobFields(
    device: Option<string>, ecid: Option<string>, iosVersion: Option<string>, restoreType: Option<string>,
    apnonce: Option<string>, generator: Option<string>,
    cryptexNonce: Option<string>, cryptexSeed: Option<string>,
    cellular: Option<string>, bbsnum: Option<string>)

  /** No match of the pattern for `key` starts anywhere in `contents`. */
  ghost predicate Absent(contents: string, key: string) {
    NoMatchBefore(contents, key, |contents| + 1)
  }

  /** The ten `extract` calls of `main`; whatever is found stops short of a
      backtick and of the end of its line. */
  function ReadFields(contents: string): (r: BlobFields)
    ensures r.device.Some? ==> '`' !in r.device.value && '\n' !in r.device.value
    ensures r.ecid.Some? ==> '`' !in r.ecid.value && '\n' !in r.ecid.value
    ensures r.iosVersion.Some? ==> '`' !in r.iosVersion.value && '\n' !in r.iosVersion.value
    ensures r.restoreType.Some? ==> '`' !in r.restoreType.value && '\n' !in r.restoreType.value
    ensures r.apnonce.Some? ==> '`' !in r.apnonce.value && '\n' !in r.apnonce.value
    ensures r.generator.Some? ==> '`' !in r.generator.value && '\n' !in r.generator.value
    ensures r.cryptexNonce.Some? ==> '`' !in r.cryptexNonce.value && '\n' !in r.cryptexNonce.value
    ensures r.cryptexSeed.Some? ==> '`' !in r.cryptexSeed.value && '\n' !in r.cryptexSeed.value
    ensures r.cellular.Some? ==> '`' !in r.cellular.value && '\n' !in r.cellular.value
    ensures r.bbsnum.Some? ==> '`' !in r.bbsnum.value && '\n' !in r.bbsnum.value
  {
    BlobFields(
      Extract(contents, "Device ID"), Extract(contents, "ECID"), Extract(contents, "iOS Version"),
      Extract(contents, "Restore Type"), Extract(contents, "APNonce"), Extract(contents, "Generator"),
      Extract(contents, "Entangled Cryptex1 Nonce"), Extract(contents, "Cryptex1 Seed"),
      Extract(contents, "Cellular"), Extract(contents, "Baseband SNUM"))
  }

  /** A field read from a document is `None` exactly when its pattern matches
      nowhere in the document. */
  lemma ReadFieldsMissing(contents: string)
    ensures var r := ReadFields(contents);
      && (r.device.None? <==> Absent(contents, "Device ID"))
      && (r.ecid.None? <==> Absent(contents, "ECID"))
      && (r.iosVersion.None? <==> Absent(contents, "iOS Version"))
      && (r.restoreType.None? <==> Absent(contents, "Restore Type"))
      && (r.apnonce.None? <==> Absent(contents, "APNonce"))
      && (r.generator.None? <==> Absent(contents, "Generator"))
      && (r.cryptexNonce.None? <==> Absent(contents, "Entangled Cryptex1 Nonce"))
      && (r.cryptexSeed.None? <==> Absent(contents, "Cryptex1 Seed"))
      && (r.cellular.None? <==> Absent(contents, "Cellular"))
      && (r.bbsnum.None? <==> Absent(contents, "Baseband SNUM"))
  {
    ExtractNoneIffNoMatch(contents, "Device ID");
    ExtractNoneIffNoMatch(contents, "ECID");
    ExtractNoneIffNoMatch(contents, "iOS Version");
    ExtractNoneIffNoMatch(contents, "Restore Type");
    ExtractNoneIffNoMatch(contents, "APNonce");
    ExtractNoneIffNoMatch(contents, "Generator");
    ExtractNoneIffNoMatch(contents, "Entangled Cryptex1 Nonce");
    ExtractNoneIffNoMatch(contents, "Cryptex1 Seed");
    ExtractNoneIffNoMatch(contents, "Cellular");
    ExtractNoneIffNoMatch(contents, "Baseband SNUM");
  }

  /** `f"{ios_version}"`: the version, or "None" when `extract` found none. */
  function VersionText(v: Option<string>): string {
    match v
    case Some(s) => s
    case None => "None"
  }

  /** A found version is written as it is; the text "None" stands either for
      a missing version or for a version that is literally "None". */
  lemma VersionTextShowsVersion(v: Option<string>)
    ensures v.Some? ==> VersionText(v) == v.value
    ensures VersionText(v) == "None" <==> v.None? || v.value == "None"
  {
  }

  /** The fields passed as arguments to every `tsschecker` call. */
  predicate HasArguments(f: BlobFields) {
    f.device.Some? && f.ecid.Some? && f.apnonce.Some? && f.generator.Some?
    && f.cryptexSeed.Some? && f.cryptexNonce.Some?
  }

  /** The call for `mode` holds only strings, so `subprocess.run` accepts it.
      Update and erase also pass the version; every other mode only formats
      it into the output directory, where a missing version reads "None". */
  predicate CanCall(f: BlobFields, mode: string) {
    HasArguments(f) && (mode in {"update", "erase"} ==> f.iosVersion.Some?)
  }

  /** Every mode of `ms` that is not skipped can be called. */
  predicate CallsPossible(f: BlobFields, manifestExists: bool, ms: seq<string>) {
    forall i :: 0 <= i < |ms| && !Skipped(ms[i], manifestExists) ==> CanCall(f, ms[i])
  }

  // ---------------------------------------------------------------------------
  // Command assembly

  /** The restore modes to run: `all` is update, erase, then OTA; any other
      restore type is run on its own. An absent restore type runs as the mode
      the f-string renders as "None", which matches no mode branch. */
  function Modes(restoreType: Option<string>): (r: seq<string>)
    ensures restoreType == Some("all") ==> r == ["update", "erase", "ota"]
    ensures restoreType.Some? && restoreType.value != "all" ==> r == [restoreType.value]
    ensures restoreType.None? ==> r == ["None"]
    ensures forall i, j :: 0 <= i < j < |r| ==> r[i] != r[j]
  {
    match restoreType
    case None => ["None"]
    case Some(t) => if t == "all" then ["update", "erase", "ota"] else [t]
  }

  /** The restore types whose modes include update or erase. */
  predicate NeedsVersion(restoreType: Option<string>) {
    restoreType in {Some("all"), Some("update"), Some("erase")}
  }

  /** `main` makes no call (OTA alone with the manifest missing), or the
      argument fields are present, with the version present when update or
      erase runs. */
  predicate Runnable(f: BlobFields, manifestExists: bool) {
    (f.restoreType == Some("ota") && !manifestExists)
    || (HasArguments(f) && (NeedsVersion(f.restoreType) ==> f.iosVersion.Some?))
  }

  /** A config is runnable exactly when every call `main` makes for it can be
      made; Python fails inside `subprocess.run` on a call holding a missing
      field. */
  lemma RunnableIff(f: BlobFields, manifestExists: bool)
    ensures Runnable(f, manifestExists) <==> CallsPossible(f, manifestExists, Modes(f.restoreType))
  {
    var ms := Modes(f.restoreType);
    if f.restoreType == Some("all") {
      assert ms[0] == "update" && !Skipped(ms[0], manifestExists);
    } else if f.restoreType.Some? {
      assert ms[0] == f.restoreType.value;
    } else {
      assert ms[0] == "None" && !Skipped(ms[0], manifestExists);
    }
  }

  /** `<folder>/shsh/<ios_version>-<mode>`: a directory of `<folder>/shsh`. */
  function OutDir(folder: string, iosVersion: string, mode: string): (r: string)
    ensures '/' !in iosVersion + "-" + mode ==> Dirname(r) == Join(folder, "shsh")
  {
    var root := Join(folder, "shsh");
    var base := iosVersion + "-" + mode;
    assert root != "" && root[|root| - 1] == 'h';
    if '/' !in base then DirnameOfJoin(root, base); Join(root, base)
    else Join(root, base)
  }

  /** Different modes of one config never share an output directory. */
  lemma OutDirInjective(folder: string, iosVersion: string, m1: string, m2: string)
    requires OutDir(folder, iosVersion, m1) == OutDir(folder, iosVersion, m2)
    ensures m1 == m2
  {
    var root := Join(folder, "shsh");
    var b1, b2 := iosVersion + "-" + m1, iosVersion + "-" + m2;
    assert b1[0] == b2[0] by {
      if iosVersion == "" { assert b1[0] == '-' == b2[0]; } else { assert b1[0] == iosVersion[0] == b2[0]; }
    }
    var p := if b1[0] == '/' then "" else if root == "" || root[|root| - 1] == '/' then root else root + "/";
    assert Join(root, b1) == p + b1 && Join(root, b2) == p + b2;
    assert b1 == (p + b1)[|p|..] && b2 == (p + b2)[|p|..];
    assert m1 == b1[|iosVersion| + 1..] && m2 == b2[|iosVersion| + 1..];
  }

  /** `<folder>/BuildManifest.plist`: a file of the device folder. */
  function ManifestFile(folder: string): (r: string)
    ensures folder != "" && folder[|folder| - 1] != '/' ==> Dirname(r) == folder
  {
    if folder != "" && folder[|folder| - 1] != '/' then
      DirnameOfJoin(folder, "BuildManifest.plist"); Join(folder, "BuildManifest.plist")
    else Join(folder, "BuildManifest.plist")
  }

  /** The mode-specific arguments: manifest and `-o` for OTA, the version and
      `-u` or `-E` for update and erase, nothing for any other mode. */
  function ModeFlags(mode: string, iosVersion: string, manifest: string): (r: seq<string>)
    ensures r == [] <==> mode !in {"ota", "update", "erase"}
    ensures r != [] ==> |r| == 3
    ensures mode == "ota" ==> r[..2] == ["-m", manifest] && r[2] == "-o"
    ensures mode in {"update", "erase"} ==> r[..2] == ["-i", iosVersion]
    ensures mode == "update" ==> r[2] == "-u"
    ensures mode == "erase" ==> r[2] == "-E"
  {
    if mode == "ota" then ["-m", manifest, "-o"]
    else if mode == "update" then ["-i", iosVersion, "-u"]
    else if mode == "erase" then ["-i", iosVersion, "-E"]
    else []
  }

  /** `cellular and cellular.lower() in ("no", "false", "n")`: a stored answer
      spelling no, false or n in any case. */
  predicate CellularSaysNo(cellular: Option<string>)
    ensures CellularSaysNo(cellular) ==>
      cellular.Some? && |cellular.value| in {1, 2, 5} && cellular.value[0] in "nNfF"
  {
    cellular.Some? && cellular.value != "" && Lower(cellular.value) in {"no", "false", "n"}
  }

  /** `-b` for a non-cellular device, otherwise `-c <bbsnum>` when a real SNUM
      is stored, otherwise nothing. */
  function BasebandFlags(cellular: Option<string>, bbsnum: Option<string>): (r: seq<string>)
    ensures r == [] || r == ["-b"] || (|r| == 2 && r[0] == "-c")
    ensures r == ["-b"] <==> CellularSaysNo(cellular)
    ensures |r| == 2 <==> !CellularSaysNo(cellular) && bbsnum.Some? && bbsnum.value !in {"", "N/A"}
    ensures |r| == 2 ==> bbsnum.Some? && r == ["-c", bbsnum.value]
  {
    if CellularSaysNo(cellular) then ["-b"]
    else if bbsnum.Some? && bbsnum.value != "" && bbsnum.value != "N/A" then ["-c", bbsnum.value]
    else []
  }

  /** The arguments every call starts with, up to and including `--save-path`. */
  function Prefix(f: BlobFields): (r: seq<string>)
    requires HasArguments(f)
    ensures |r| == 15 && r[0] == "tsschecker" && r[14] == "--save-path"
    ensures r[2] == f.device.value && r[5] == f.ecid.value && r[7] == f.generator.value
    ensures r[9] == f.apnonce.value && r[11] == f.cryptexSeed.value && r[13] == f.cryptexNonce.value
  {
    ["tsschecker", "-d", f.device.value, "-s", "-e", f.ecid.value, "-g", f.generator.value,
     "--apnonce", f.apnonce.value, "-x", f.cryptexSeed.value, "-t", f.cryptexNonce.value, "--save-path"]
  }

  /** The full argument list for one mode. */
  function Invocation(f: BlobFields, folder: string, mode: string): (r: seq<string>)
    requires CanCall(f, mode)
    ensures 16 <= |r| <= 21 && r[0] == "tsschecker" && r[15] == OutDir(folder, VersionText(f.iosVersion), mode)
  {
    var v := VersionText(f.iosVersion);
    var head := Prefix(f) + [OutDir(folder, v, mode)];
    assert head[0] == "tsschecker" && head[15] == OutDir(folder, v, mode);
    head + ModeFlags(mode, v, ManifestFile(folder)) + BasebandFlags(f.cellular, f.bbsnum)
  }

  /** OTA is skipped, with a warning, when the manifest file is missing. */
  predicate Skipped(mode: string, manifestExists: bool)
    ensures Skipped(mode, manifestExists) ==> mode == "ota"
    ensures mode == "ota" ==> (Skipped(mode, manifestExists) <==> !manifestExists)
  {
    mode == "ota" && !manifestExists
  }

  /** The calls made for the modes `ms`, in order: one per mode that is not
      skipped. */
  function CommandsFor(f: BlobFields, folder: string, manifestExists: bool, ms: seq<string>): (r: seq<seq<string>>)
    requires CallsPossible(f, manifestExists, ms)
    ensures |r| <= |ms|
    ensures (forall i :: 0 <= i < |ms| ==> !Skipped(ms[i], manifestExists)) ==> |r| == |ms|
  {
    if ms == [] then []
    else
      var init, last := ms[..|ms| - 1], ms[|ms| - 1];
      assert forall i :: 0 <= i < |init| ==> init[i] == ms[i];
      CommandsFor(f, folder, manifestExists, init)
      + (if Skipped(last, manifestExists) then [] else [Invocation(f, folder, last)])
  }

  /** The calls `main` makes for a config: with the manifest present, one per
      mode. */
  function Commands(f: BlobFields, folder: string, manifestExists: bool): (r: seq<seq<string>>)
    requires Runnable(f, manifestExists)
    ensures |r| <= |Modes(f.restoreType)|
    ensures manifestExists ==> |r| == |Modes(f.restoreType)|
  {
    RunnableIff(f, manifestExists);
    CommandsFor(f, folder, manifestExists, Modes(f.restoreType))
  }

  /** One iteration of `main`'s loop, for a mode that is not skipped: the
      fifteen fixed arguments, the mode's flags, then the baseband flags. */
  method BuildCall(f: BlobFields, deviceFolder: string, mode: string) returns (cmd: seq<string>)
    requires CanCall(f, mode)
    ensures cmd == Invocation(f, deviceFolder, mode)
  {
    var manifestFile := Join(deviceFolder, "BuildManifest.plist");
    var version := VersionText(f.iosVersion);
    var outdir := Join(Join(deviceFolder, "shsh"), version + "-" + mode);
    cmd := ["tsschecker", "-d", f.device.value, "-s", "-e", f.ecid.value, "-g", f.generator.value,
            "--apnonce", f.apnonce.value, "-x", f.cryptexSeed.value, "-t", f.cryptexNonce.value,
            "--save-path", outdir];
    assert cmd == Prefix(f) + [OutDir(deviceFolder, version, mode)];
    if mode == "ota" {
      cmd := cmd + ["-m", manifestFile, "-o"];
    } else if mode == "update" {
      cmd := cmd + ["-i", f.iosVersion.value, "-u"];
    } else if mode == "erase" {
      cmd := cmd + ["-i", f.iosVersion.value, "-E"];
    }
    assert cmd == Prefix(f) + [OutDir(deviceFolder, version, mode)]
                  + ModeFlags(mode, version, ManifestFile(deviceFolder));
    if f.cellular.Some? && f.cellular.value != "" && Lower(f.cellular.value) in {"no", "false", "n"} {
      cmd := cmd + ["-b"];
    } else if f.bbsnum.Some? && f.bbsnum.value != "" && f.bbsnum.value != "N/A" {
      cmd := cmd + ["-c", f.bbsnum.value];
    }
  }

  /** The loop of `main`: one `tsschecker` argument list per mode, built the
      way `main` builds it, with OTA skipped when the manifest is missing. */
  method BuildRuns(f: BlobFields, deviceFolder: string, manifestExists: bool) returns (runs: seq<seq<string>>)
    requires Runnable(f, manifestExists)
    ensures runs == Commands(f, deviceFolder, manifestExists)
  {
    var modes := Modes(f.restoreType);
    RunnableIff(f, manifestExists);

    runs := [];
    for i := 0 to |modes|
      invariant runs == CommandsFor(f, deviceFolder, manifestExists, modes[..i])
    {
      var mode := modes[i];
      var done := modes[..i + 1];
      assert done[..i] == modes[..i] && done[i] == mode;
      assert CallsPossible(f, manifestExists, done);
      if mode == "ota" && !manifestExists {
        continue;
      }
      assert CanCall(f, mode);
      var cmd := BuildCall(f, deviceFolder, mode);
      runs := runs + [cmd];
    }
    assert modes[..|modes|] == modes;
  }

  /** `main` of the requestor: `cfgInput` is the line typed at the prompt,
      `configExists` and `manifestExists` what `os.path.exists` reports, and
      `contents` the text of the config file; the result lists the argument
      lists handed to `tsschecker`, in order. */
  method SaveBlobs(cfgInput: string, configExists: bool, contents: string, manifestExists: bool)
    returns (runs: seq<seq<string>>)
    requires Strip(cfgInput) != "" && configExists ==> Runnable(ReadFields(contents), manifestExists)
    ensures Strip(cfgInput) == "" || !configExists ==> runs == []
    ensures Strip(cfgInput) != "" && configExists ==>
      runs == Commands(ReadFields(contents), Dirname(Strip(cfgInput)), manifestExists)
  {
    var cfgPath := Strip(cfgInput);
    if cfgPath == "" || !configExists {
      return [];
    }
    var deviceFolder := Dirname(cfgPath);
    var fields := ReadFields(contents);
    runs := BuildRuns(fields, deviceFolder, manifestExists);
  }

  // ---------------------------------------------------------------------------
  // Properties of the calls

  /** Whatever the mode, a call starts with the same arguments; only the
      directory after `--save-path` and the trailing flags depend on the mode. */
  lemma SamePrefixForEveryMode(f: BlobFields, folder: string, m1: string, m2: string)
    requires CanCall(f, m1) && CanCall(f, m2)
    ensures Invocation(f, folder, m1)[..15] == Invocation(f, folder, m2)[..15] == Prefix(f)
    ensures Invocation(f, folder, m1)[0] == "tsschecker" && Invocation(f, folder, m1)[14] == "--save-path"
    ensures Invocation(f, folder, m1)[15] == OutDir(folder, VersionText(f.iosVersion), m1)
  {
  }

  /** What follows the output directory: the manifest and `-o` for OTA, the
      version and `-u` or `-E` for update and erase, nothing for any other
      mode; the baseband flags come last in every case. */
  lemma ModeSuffixes(f: BlobFields, folder: string, mode: string)
    requires CanCall(f, mode)
    ensures mode == "ota" ==>
      Invocation(f, folder, mode)[16..] == ["-m", ManifestFile(folder), "-o"] + BasebandFlags(f.cellular, f.bbsnum)
    ensures mode == "update" ==>
      Invocation(f, folder, mode)[16..] == ["-i", f.iosVersion.value, "-u"] + BasebandFlags(f.cellular, f.bbsnum)
    ensures mode == "erase" ==>
      Invocation(f, folder, mode)[16..] == ["-i", f.iosVersion.value, "-E"] + BasebandFlags(f.cellular, f.bbsnum)
    ensures mode !in {"ota", "update", "erase"} ==>
      Invocation(f, folder, mode)[16..] == BasebandFlags(f.cellular, f.bbsnum)
  {
    var v := VersionText(f.iosVersion);
    var head := Prefix(f) + [OutDir(folder, v, mode)];
    DropHead(head, ModeFlags(mode, v, ManifestFile(folder)), BasebandFlags(f.cellular, f.bbsnum));
  }

  /** A config without an iOS version still runs every mode other than update
      and erase; its output directory then carries the text `None`. */
  lemma MissingVersionOutDir(f: BlobFields, folder: string, mode: string)
    requires HasArguments(f) && f.iosVersion.None? && mode !in {"update", "erase"}
    ensures CanCall(f, mode)
    ensures Invocation(f, folder, mode)[15] == OutDir(folder, "None", mode)
  {
  }

  /** Dropping the first part of a three-part concatenation leaves the other two. */
  lemma DropHead<T>(a: seq<T>, b: seq<T>, c: seq<T>)
    ensures (a + b + c)[|a|..] == b + c
  {
  }

  /** `all` runs update, erase and OTA in that order; OTA drops out when the
      manifest is missing and the other two still run. */
  lemma AllModesCommands(f: BlobFields, folder: string, manifestExists: bool)
    requires Runnable(f, manifestExists) && f.restoreType == Some("all")
    ensures Commands(f, folder, manifestExists) ==
      [Invocation(f, folder, "update"), Invocation(f, folder, "erase")]
      + (if manifestExists then [Invocation(f, folder, "ota")] else [])
  {
    var ms := Modes(f.restoreType);
    assert ms == ["update", "erase", "ota"];
    assert ms[..2] == ["update", "erase"];
    assert ms[..2][..1] == ["update"];
    assert ["update"][..0] == [];
    assert !Skipped("update", manifestExists) && !Skipped("erase", manifestExists);
    assert CommandsFor(f, folder, manifestExists, ["update"]) == [Invocation(f, folder, "update")];
    assert CommandsFor(f, folder, manifestExists, ["update", "erase"])
        == [Invocation(f, folder, "update"), Invocation(f, folder, "erase")];
  }

  /** Any other restore type gives exactly one call, or none for OTA without a manifest. */
  lemma SingleModeCommands(f: BlobFields, folder: string, manifestExists: bool)
    requires Runnable(f, manifestExists) && f.restoreType.Some? && f.restoreType.value != "all"
    ensures var m := f.restoreType.value;
      Commands(f, folder, manifestExists) ==
        if Skipped(m, manifestExists) then [] else [Invocation(f, folder, m)]
  {
    var m := f.restoreType.value;
    var ms := Modes(f.restoreType);
    assert ms == [m];
    assert ms[..0] == [];
    assert CommandsFor(f, folder, manifestExists, ms)
        == CommandsFor(f, folder, manifestExists, ms[..0])
           + (if Skipped(m, manifestExists) then [] else [Invocation(f, folder, m)]);
  }

  /** The three calls of `all` save to three different directories. */
  lemma AllModesDistinctDirs(folder: string, iosVersion: string)
    ensures OutDir(folder, iosVersion, "update") != OutDir(folder, iosVersion, "erase")
    ensures OutDir(folder, iosVersion, "erase") != OutDir(folder, iosVersion, "ota")
    ensures OutDir(folder, iosVersion, "update") != OutDir(folder, iosVersion, "ota")
  {
    var v := iosVersion;
    if OutDir(folder, v, "update") == OutDir(folder, v, "erase") { OutDirInjective(folder, v, "update", "erase"); }
    if OutDir(folder, v, "erase") == OutDir(folder, v, "ota") { OutDirInjective(folder, v, "erase", "ota"); }
    if OutDir(folder, v, "update") == OutDir(folder, v, "ota") { OutDirInjective(folder, v, "update", "ota"); }
  }
}
