/** The config collector (collect_blob_config.py): the console answers are
    given as a sequence of lines, the manifest download as its outcome, and the
    result is the path and text of the document `main` writes. */
module Collector {
  import opened Text
  import opened Paths

  // ---------------------------------------------------------------------------
  // Console prompts

  /** Whether `ask` returns the stripped answer `v` rather than prompting again. */
  predicate Accepts(v: string, optional: bool)
    ensures optional ==> Accepts(v, optional)
    ensures !optional ==> (Accepts(v, optional) <==> v != "")
  {
    v != "" || optional
  }

  /** Every answer in `answers[from..to]` was refused by `ask`. */
  ghost predicate AllRefused(answers: seq<string>, from: nat, to: nat, optional: bool)
    requires from <= to <= |answers|
  {
    forall k {:trigger Strip(answers[k])} :: from <= k < to ==> !Accepts(Strip(answers[k]), optional)
  }

  /** A refused answer in front of a refused run extends it by one. */
  lemma RefusedOneLess(answers: seq<string>, from: nat, to: nat, optional: bool)
    requires from < to <= |answers|
    requires !Accepts(Strip(answers[from]), optional) && AllRefused(answers, from + 1, to, optional)
    ensures AllRefused(answers, from, to, optional)
  {
    forall k | from <= k < to
      ensures !Accepts(Strip(answers[k]), optional)
    {
      if k == from {
      } else {
        assert AllRefused(answers, from + 1, to, optional);
      }
    }
  }

  /** What `ask(prompt, optional)` makes of the answers from position `pos` on:
      the first answer it accepts, stripped, and the position after it; `None`
      when the answers run out, where `input` raises `EOFError`. */
  function Asked(answers: seq<string>, pos: nat, optional: bool): (r: (Option<string>, nat))
    requires pos <= |answers|
    ensures pos <= r.1 <= |answers|
    ensures r.0.Some? ==> pos < r.1 && Accepts(r.0.value, optional) && Stripped(r.0.value)
    ensures r.0.None? ==> r.1 == |answers|
    decreases |answers| - pos
  {
    if pos == |answers| then (None, pos)
    else if Accepts(Strip(answers[pos]), optional) then (Some(Strip(answers[pos])), pos + 1)
    else Asked(answers, pos + 1, optional)
  }

  /** `Asked` is the first accepted answer: the answer just before the
      position it returns, stripped; every answer it passes over was refused,
      and when it finds none, every remaining answer was refused. */
  lemma {:induction false} AskedIsFirstAccepted(answers: seq<string>, pos: nat, optional: bool)
    requires pos <= |answers|
    ensures var r := Asked(answers, pos, optional);
      r.0.Some? ==> r.0.value == Strip(answers[r.1 - 1])
    ensures var r := Asked(answers, pos, optional);
      AllRefused(answers, pos, if r.0.Some? then r.1 - 1 else |answers|, optional)
    decreases |answers| - pos
  {
    if pos < |answers| && !Accepts(Strip(answers[pos]), optional) {
      AskedIsFirstAccepted(answers, pos + 1, optional);
      var r := Asked(answers, pos + 1, optional);
      RefusedOneLess(answers, pos, if r.0.Some? then r.1 - 1 else |answers|, optional);
    }
  }

  /** An answer that is already stripped and acceptable is taken as it is. */
  lemma AskedTyped(answers: seq<string>, pos: nat, optional: bool)
    requires pos < |answers| && Stripped(answers[pos]) && Accepts(answers[pos], optional)
    ensures Asked(answers, pos, optional) == (Some(answers[pos]), pos + 1)
  {
    StripUnchanged(answers[pos]);
  }

  /** `ask(prompt, optional)`: reads answers from position `pos` on, stripping
      each, until one is accepted. */
  method Ask(answers: seq<string>, pos: nat, optional: bool) returns (r: Option<string>, next: nat)
    requires pos <= |answers|
    ensures (r, next) == Asked(answers, pos, optional)
  {
    next := pos;
    while next < |answers|
      invariant pos <= next <= |answers|
      invariant Asked(answers, next, optional) == Asked(answers, pos, optional)
    {
      var v := Strip(answers[next]);
      if Accepts(v, optional) {
        return Some(v), next + 1;
      }
      next := next + 1;
    }
    return None, next;
  }

  /** `yesno(prompt, default)` applied to the one answer it reads. */
  function Yesno(answer: string, default: bool): (r: bool)
    ensures Strip(answer) == "" ==> r == default
    ensures Strip(answer) != "" ==> (r <==> Strip(answer)[0] in {'y', 'Y'})
  {
    var v := Lower(Strip(answer));
    if v == "" then default else "y" <= v
  }

  /** Surrounding whitespace never changes a yes/no answer. */
  lemma YesnoIgnoresSpace(answer: string, default: bool)
    ensures Yesno(Strip(answer), default) == Yesno(answer, default)
  {
    StripIdempotent(answer);
  }

  // ---------------------------------------------------------------------------
  // iOS major version

  /** `version.split(".")[0]`: the text before the first `.`. */
  function BeforeDot(s: string): (r: string)
    ensures r <= s && '.' !in r
    ensures |r| < |s| ==> s[|r|] == '.'
  {
    if s == [] || s[0] == '.' then [] else [s[0]] + BeforeDot(s[1..])
  }

  predicate IsDigit(c: char) {
    '0' <= c <= '9'
  }

  predicate IsDigits(s: string) {
    s != [] && forall i :: 0 <= i < |s| ==> IsDigit(s[i])
  }

  /** The value of a string of decimal digits. */
  function DigitsValue(s: string): nat
    requires forall i :: 0 <= i < |s| ==> IsDigit(s[i])
  {
    if s == [] then 0
    else
      assert IsDigit(s[|s| - 1]);
      DigitsValue(s[..|s| - 1]) * 10 + (s[|s| - 1] as int - '0' as int)
  }

  /** The decimal text of `n`, without leading zeros. */
  function Decimal(n: nat): (r: string)
    ensures IsDigits(r)
  {
    if n < 10 then [('0' as int + n) as char]
    else Decimal(n / 10) + [('0' as int + n % 10) as char]
  }

  lemma {:induction false} DigitsValueOfDecimal(n: nat)
    ensures DigitsValue(Decimal(n)) == n
  {
    if n >= 10 {
      var s := Decimal(n);
      assert s[..|s| - 1] == Decimal(n / 10);
      DigitsValueOfDecimal(n / 10);
    }
  }

  /** CPython's limit on the digits `int()` converts from a decimal string
      (`sys.int_info.default_max_str_digits`); longer strings raise `ValueError`. */
  const MaxStrDigits: nat := 4300

  /** `ios_major(version)`: the integer before the first `.`, or `None` when
      that text is not a number (restricted here to ASCII digits) or has more
      digits than `int()` converts. */
  function IosMajor(version: string): (r: Option<nat>)
    ensures r.Some? <==> IsDigits(BeforeDot(version)) && |BeforeDot(version)| <= MaxStrDigits
  {
    var head := BeforeDot(version);
    if IsDigits(head) && |head| <= MaxStrDigits then Some(DigitsValue(head)) else None
  }

  /** A version written as a number, optionally followed by `.` and more, has
      that number as its major version, unless the number is too long for `int()`. */
  lemma IosMajorOfDecimal(n: nat, rest: string)
    requires rest == [] || rest[0] == '.'
    ensures IosMajor(Decimal(n) + rest) == if |Decimal(n)| <= MaxStrDigits then Some(n) else None
  {
    var v := Decimal(n) + rest;
    assert BeforeDot(v) == Decimal(n) by {
      BeforeDotOfDigits(Decimal(n), rest);
    }
    DigitsValueOfDecimal(n);
  }

  lemma {:induction false} BeforeDotOfDigits(d: string, rest: string)
    requires '.' !in d
    requires rest == [] || rest[0] == '.'
    ensures BeforeDot(d + rest) == d
  {
    if d != [] {
      assert (d + rest)[1..] == d[1..] + rest;
      BeforeDotOfDigits(d[1..], rest);
    }
  }

  // ---------------------------------------------------------------------------
  // Decision rules

  /** The four restore types the menu offers. */
  datatype RestoreType = Ota | Update | Erase | All {
    /** The name `main` writes into the document. */
    function Name(): string {
      match this
      case Ota => "ota"
      case Update => "update"
      case Erase => "erase"
      case All => "all"
    }
  }

  /** The restore-type menu `rtmap`: four one-character choices, each naming a
      different restore type, every type on the menu once. */
  function RestoreMenu(): (m: map<string, RestoreType>)
    ensures m.Keys == {"1", "2", "3", "4"}
    ensures m.Values == {Ota, Update, Erase, All}
    ensures forall k :: k in m ==> |k| == 1
    ensures forall k, k' :: k in m && k' in m && m[k] == m[k'] ==> k == k'
  {
    map["1" := Ota, "2" := Update, "3" := Erase, "4" := All]
  }

  /** `rtmap[choice]`; `None` is the `KeyError` an unknown choice raises. The
      lookup is written character by character; `RestoreChoiceIsMenuLookup`
      shows it is the lookup in `RestoreMenu()`. */
  function RestoreChoice(choice: string): (r: Option<RestoreType>)
    ensures r.Some? ==> |choice| == 1
  {
    if |choice| != 1 then None
    else if choice[0] == '1' then Some(Ota)
    else if choice[0] == '2' then Some(Update)
    else if choice[0] == '3' then Some(Erase)
    else if choice[0] == '4' then Some(All)
    else None
  }

  lemma RestoreChoiceIsMenuLookup(choice: string)
    ensures RestoreChoice(choice) == if choice in RestoreMenu() then Some(RestoreMenu()[choice]) else None
  {
    if |choice| == 1 {
      assert choice == [choice[0]];
    }
  }

  /** The menu: 1 is OTA, 2 Update, 3 Erase, 4 all three; nothing else is a choice. */
  lemma RestoreMenuChoices(choice: string)
    ensures RestoreChoice(choice) == Some(Ota) <==> choice == "1"
    ensures RestoreChoice(choice) == Some(Update) <==> choice == "2"
    ensures RestoreChoice(choice) == Some(Erase) <==> choice == "3"
    ensures RestoreChoice(choice) == Some(All) <==> choice == "4"
    ensures RestoreChoice(choice).None? <==> choice !in {"1", "2", "3", "4"}
  {
    RestoreChoiceIsMenuLookup(choice);
  }

  /** Distinct restore types are written under distinct names. */
  lemma RestoreNamesDistinct(a: RestoreType, b: RestoreType)
    requires a.Name() == b.Name()
    ensures a == b
  {
  }

  /** The restore types that need an OTA URL and a downloaded manifest
      (`restore_type in ("ota", "all")`). */
  predicate OtaRequested(restoreType: RestoreType)
    ensures OtaRequested(restoreType) <==> restoreType.Name() in {"ota", "all"}
  {
    restoreType == Ota || restoreType == All
  }

  /** `major and major >= 16`: cryptex fields are asked for iOS 16 and later only
      (`major` is falsy when it is `None` or 0). */
  predicate CryptexRequested(major: Option<nat>)
    ensures CryptexRequested(major) <==> major.Some? && major.value >= 16
  {
    major.Some? && major.value != 0 && major.value >= 16
  }

  /** Cryptex prompts follow the major version exactly: asked for 16 and up,
      never below. */
  lemma CryptexRequestedIff(n: nat, rest: string)
    requires rest == [] || rest[0] == '.'
    ensures CryptexRequested(IosMajor(Decimal(n) + rest)) <==> n >= 16 && |Decimal(n)| <= MaxStrDigits
  {
    IosMajorOfDecimal(n, rest);
  }

  // ---------------------------------------------------------------------------
  // Names

  /** The nickname typed by the user with each space turned into `-`. */
  function Nickname(answer: string): (r: string)
    ensures |r| == |answer| && ' ' !in r
    ensures forall i :: 0 <= i < |r| ==> r[i] == (if answer[i] == ' ' then '-' else answer[i])
  {
    ReplaceChar(answer, ' ', '-')
  }

  /** The ECID with every `:` removed. */
  function SafeEcid(ecid: string): (r: string)
    ensures ':' !in r
    ensures forall c :: c != ':' ==> multiset(r)[c] == multiset(ecid)[c]
  {
    RemoveCharKeepsCounts(ecid, ':');
    RemoveChar(ecid, ':')
  }

  lemma SafeEcidIdempotent(ecid: string)
    ensures SafeEcid(SafeEcid(ecid)) == SafeEcid(ecid)
  {
  }

  /** The ECID is sanitised piece by piece: the kept characters stay in order. */
  lemma SafeEcidKeepsOrder(a: string, b: string)
    ensures SafeEcid(a + b) == SafeEcid(a) + SafeEcid(b)
  {
    RemoveCharOfConcat(a, b, ':');
  }

  /** The build ID when one was given, otherwise the iOS version. */
  function Suffix(buildId: string, iosVersion: string): (r: string)
    ensures buildId != "" ==> r == buildId
    ensures buildId == "" ==> r == iosVersion
  {
    if buildId != "" then buildId else iosVersion
  }

  /** `{device}-{safe_ecid}-{suffix}.mkdn`: named after the device, with the
      Markdown extension. */
  function Filename(device: string, ecid: string, buildId: string, iosVersion: string): (r: string)
    ensures |r| >= |device| + 7 && device + "-" <= r && r[|r| - 5..] == ".mkdn"
  {
    var r := device + "-" + SafeEcid(ecid) + "-" + Suffix(buildId, iosVersion) + ".mkdn";
    assert r[..|device| + 1] == device + "-";
    r
  }

  /** Two configs of the same device and ECID get the same file name only when
      their build ID or version suffix is the same: one file per firmware. */
  lemma FilenameSeparatesFirmware(device: string, ecid: string, b1: string, v1: string, b2: string, v2: string)
    requires Filename(device, ecid, b1, v1) == Filename(device, ecid, b2, v2)
    ensures Suffix(b1, v1) == Suffix(b2, v2)
  {
    var p := device + "-" + SafeEcid(ecid) + "-";
    var s1, s2 := Suffix(b1, v1), Suffix(b2, v2);
    assert Filename(device, ecid, b1, v1) == p + s1 + ".mkdn";
    assert Filename(device, ecid, b2, v2) == p + s2 + ".mkdn";
    assert |s1| == |s2|;
    assert s1 == (p + s1 + ".mkdn")[|p|..|p| + |s1|];
    assert s2 == (p + s2 + ".mkdn")[|p|..|p| + |s2|];
  }

  /** The directory all of a device's files live in: `blobs/<nickname>`, a
      directory of `blobs` when the nickname is a plain name. */
  function DeviceDir(nickname: string): (r: string)
    ensures nickname == "" || nickname[0] != '/' ==> r == "blobs/" + nickname
    ensures '/' !in nickname ==> Dirname(r) == "blobs"
  {
    if '/' !in nickname then DirnameOfJoin("blobs", nickname); Join("blobs", nickname)
    else Join("blobs", nickname)
  }

  /** The argument list `download_buildmanifest` hands to `pzb`: fetch the
      build manifest from the archive at `url`. */
  function PzbCommand(url: string): (r: seq<string>)
    ensures |r| == 4 && r[..2] == ["pzb", "-g"] && r[3] == url
  {
    ["pzb", "-g", "AssetData/boot/BuildManifest.plist", url]
  }

  // ---------------------------------------------------------------------------
  // The document

  /** The values `main` collects, one per line of the document. */
  datatype Config = Config(
    device: string, ecid: string, iosVersion: string, buildId: string,
    restoreType: RestoreType, otaUrl: string,
    apnonce: string, generator: string, cryptexSeed: string, cryptexNonce: string,
    cellular: bool, bbsnum: string)

  /** How an f-string renders a Python `bool`. */
  function PyBool(b: bool): (r: string)
    ensures r in {"True", "False"} && (r == "True" <==> b)
  {
    if b then "True" else "False"
  }

  /** One field of the document: `- **<name>:** `<value>`` on a line of its own. */
  function Line(name: string, value: string): (r: string)
    ensures |r| == |name| + |value| + 11 && r[|r| - 1] == '\n'
    ensures '\n' !in name && '\n' !in value ==> forall k :: 0 <= k < |r| - 1 ==> r[k] != '\n'
  {
    var r := "- **" + name + ":** `" + value + "`\n";
    assert forall k :: 0 <= k < |r| - 1 ==>
      r[k] in "- **:*` " || (4 <= k < 4 + |name| && r[k] == name[k - 4])
      || (9 + |name| <= k < 9 + |name| + |value| && r[k] == value[k - 9 - |name|]);
    r
  }

  /** The labels of the document, in the order the template writes them. */
  const Labels: seq<string> := [
    "Device ID", "ECID", "iOS Version", "Build ID",
    "Restore Type", "OTA URL",
    "APNonce", "Generator", "Cryptex1 Seed", "Entangled Cryptex1 Nonce",
    "Cellular", "Baseband SNUM"]

  /** No label is written twice. */
  lemma LabelsDistinct()
    ensures forall i, j :: 0 <= i < j < |Labels| ==> Labels[i] != Labels[j]
  {
  }

  /** The (label, value) pairs of the document, in template order. */
  function Entries(c: Config): (r: seq<(string, string)>)
    ensures |r| == |Labels|
    ensures forall i :: 0 <= i < |r| ==> r[i].0 == Labels[i]
  {
    [("Device ID", c.device), ("ECID", c.ecid), ("iOS Version", c.iosVersion), ("Build ID", c.buildId),
     ("Restore Type", c.restoreType.Name()), ("OTA URL", c.otaUrl),
     ("APNonce", c.apnonce), ("Generator", c.generator),
     ("Cryptex1 Seed", c.cryptexSeed), ("Entangled Cryptex1 Nonce", c.cryptexNonce),
     ("Cellular", PyBool(c.cellular)), ("Baseband SNUM", c.bbsnum)]
  }

  /** The fixed text the template puts before its `i`-th field line. */
  function HeadingBefore(i: nat): (r: string)
    ensures r == "" <==> i !in {0, 4, 6, 10}
    ensures r != "" ==> r[0] == '\n' || r[0] == '#'
    ensures r != "" ==> r[|r| - 1] == '\n'
  {
    if i == 0 then "# SHSH Blob Configuration\n\n## Device\n"
    else if i == 4 then "\n## Restore\n"
    else if i == 6 then "\n## Security\n"
    else if i == 10 then "\n## Baseband\n"
    else ""
  }

  /** The document text from the `i`-th field line on. */
  function Body(es: seq<(string, string)>, i: nat): (r: string)
    ensures i >= |es| <==> r == ""
    ensures r != "" ==> r[|r| - 1] == '\n'
    decreases |es| - i
  {
    if i >= |es| then "" else HeadingBefore(i) + Line(es[i].0, es[i].1) + Body(es, i + 1)
  }

  /** The text of the config document. */
  function Render(c: Config): (r: string)
    ensures r != "" && r[|r| - 1] == '\n'
  {
    Body(Entries(c), 0)
  }

  // ---------------------------------------------------------------------------
  // main

  datatype CollectError =
    | EndOfInput                            // input() raised EOFError
    | InvalidRestoreChoice(choice: string)  // rtmap[...] raised KeyError
    | ManifestDownloadFailed                // pzb failed or left no BuildManifest.plist

  /** The answers of the device section. */
  datatype DeviceAnswers = DeviceAnswers(nickname: string, device: string, ecid: string,
                                         iosVersion: string, buildId: string)

  /** The answers of the restore section, and the `pzb` call made for it. */
  datatype RestoreAnswers = RestoreAnswers(restoreType: RestoreType, otaUrl: string,
                                           download: Option<seq<string>>)

  /** The answers of the security and baseband sections. */
  datatype SecurityAnswers = SecurityAnswers(apnonce: string, generator: string,
                                             cryptexSeed: string, cryptexNonce: string,
                                             cellular: bool, bbsnum: string)

  /** The device section: nickname (spaces turned into `-`), device identifier,
      ECID and iOS version, each a required `ask`, then the optional build ID;
      the second component is where the next prompt starts reading. */
  function DeviceStep(answers: seq<string>, pos: nat): (r: (Result<DeviceAnswers, CollectError>, nat))
    requires pos <= |answers|
    ensures pos <= r.1 <= |answers|
    ensures r.0.Err? ==> r.0.error == EndOfInput && r.1 == |answers|
    ensures r.0.Ok? ==> var d := r.0.value;
      && d.nickname != "" && ' ' !in d.nickname
      && d.device != "" && d.ecid != "" && d.iosVersion != ""
      && Stripped(d.device) && Stripped(d.ecid) && Stripped(d.iosVersion) && Stripped(d.buildId)
  {
    var (nickname, p1) := Asked(answers, pos, false);
    if nickname.None? then (Err(EndOfInput), p1) else
    var (device, p2) := Asked(answers, p1, false);
    if device.None? then (Err(EndOfInput), p2) else
    var (ecid, p3) := Asked(answers, p2, false);
    if ecid.None? then (Err(EndOfInput), p3) else
    var (iosVersion, p4) := Asked(answers, p3, false);
    if iosVersion.None? then (Err(EndOfInput), p4) else
    var (buildId, p5) := Asked(answers, p4, true);
    if buildId.None? then (Err(EndOfInput), p5) else
    (Ok(DeviceAnswers(Nickname(nickname.value), device.value, ecid.value, iosVersion.value, buildId.value)), p5)
  }

  /** The device step of `main`. */
  method AskDevice(answers: seq<string>, pos: nat) returns (r: Result<DeviceAnswers, CollectError>, next: nat)
    requires pos <= |answers|
    ensures (r, next) == DeviceStep(answers, pos)
  {
    var a;
    a, next := Ask(answers, pos, false);
    if a.None? { return Err(EndOfInput), next; }
    var nickname := Nickname(a.value);
    a, next := Ask(answers, next, false);
    if a.None? { return Err(EndOfInput), next; }
    var device := a.value;
    a, next := Ask(answers, next, false);
    if a.None? { return Err(EndOfInput), next; }
    var ecid := a.value;
    a, next := Ask(answers, next, false);
    if a.None? { return Err(EndOfInput), next; }
    var iosVersion := a.value;
    a, next := Ask(answers, next, true);
    if a.None? { return Err(EndOfInput), next; }
    return Ok(DeviceAnswers(nickname, device, ecid, iosVersion, a.value)), next;
  }

  /** The OTA rule: for `ota` and `all` the URL is asked for and the manifest
      download runs (its outcome is `downloadOk`); otherwise the URL stays empty,
      nothing is downloaded and no answer is read. */
  function OtaStep(answers: seq<string>, pos: nat, restoreType: RestoreType, downloadOk: bool)
    : (r: (Result<(string, Option<seq<string>>), CollectError>, nat))
    requires pos <= |answers|
    ensures pos <= r.1 <= |answers|
    ensures !OtaRequested(restoreType) ==> r == (Ok(("", None)), pos)
    ensures r.0.Ok? && OtaRequested(restoreType) ==>
      r.0.value.0 != "" && Stripped(r.0.value.0) && r.0.value.1 == Some(PzbCommand(r.0.value.0)) && downloadOk
    ensures r.0.Err? ==> OtaRequested(restoreType)
    ensures r.0.Err? ==> (r.0.error == EndOfInput && r.1 == |answers|) || (r.0.error == ManifestDownloadFailed && !downloadOk)
  {
    if !OtaRequested(restoreType) then (Ok(("", None)), pos)
    else
      var (otaUrl, p) := Asked(answers, pos, false);
      if otaUrl.None? then (Err(EndOfInput), p)
      else if !downloadOk then (Err(ManifestDownloadFailed), p)
      else (Ok((otaUrl.value, Some(PzbCommand(otaUrl.value)))), p)
  }

  /** The OTA step of `main`. */
  method AskOta(answers: seq<string>, pos: nat, restoreType: RestoreType, downloadOk: bool)
    returns (r: Result<(string, Option<seq<string>>), CollectError>, next: nat)
    requires pos <= |answers|
    ensures (r, next) == OtaStep(answers, pos, restoreType, downloadOk)
  {
    next := pos;
    if !OtaRequested(restoreType) {
      return Ok(("", None)), next;
    }
    var a;
    a, next := Ask(answers, next, false);
    if a.None? { return Err(EndOfInput), next; }
    var otaUrl := a.value;
    if !downloadOk { return Err(ManifestDownloadFailed), next; }
    return Ok((otaUrl, Some(PzbCommand(otaUrl)))), next;
  }

  /** The restore section: the menu choice, looked up in `rtmap`, then the OTA rule. */
  function RestoreStep(answers: seq<string>, pos: nat, downloadOk: bool): (r: (Result<RestoreAnswers, CollectError>, nat))
    requires pos <= |answers|
    ensures pos <= r.1 <= |answers|
    ensures r.0.Ok? ==> var choice := Asked(answers, pos, false).0;
      choice.Some? && RestoreChoice(choice.value) == Some(r.0.value.restoreType)
    ensures r.0.Ok? ==> var t := r.0.value;
      && (t.otaUrl != "" <==> OtaRequested(t.restoreType))
      && (t.download.Some? <==> OtaRequested(t.restoreType))
      && (t.download.Some? ==> t.download.value == PzbCommand(t.otaUrl))
      && Stripped(t.otaUrl)
      && (OtaRequested(t.restoreType) ==> downloadOk)
    ensures r.0.Err? ==> (r.0.error == EndOfInput && r.1 == |answers|) || (r.0.error == ManifestDownloadFailed && !downloadOk)
                         || (r.0.error.InvalidRestoreChoice? && r.0.error.choice != "" && RestoreChoice(r.0.error.choice).None?)
  {
    var (choice, p1) := Asked(answers, pos, false);
    if choice.None? then (Err(EndOfInput), p1) else
    match RestoreChoice(choice.value)
    case None => (Err(InvalidRestoreChoice(choice.value)), p1)
    case Some(restoreType) =>
      var (ota, p2) := OtaStep(answers, p1, restoreType, downloadOk);
      if ota.Err? then (Err(ota.error), p2) else (Ok(RestoreAnswers(restoreType, ota.value.0, ota.value.1)), p2)
  }

  /** The restore step of `main`. */
  method AskRestore(answers: seq<string>, pos: nat, downloadOk: bool)
    returns (r: Result<RestoreAnswers, CollectError>, next: nat)
    requires pos <= |answers|
    ensures (r, next) == RestoreStep(answers, pos, downloadOk)
  {
    var a;
    a, next := Ask(answers, pos, false);
    if a.None? { return Err(EndOfInput), next; }
    var choice := RestoreChoice(a.value);
    if choice.None? { return Err(InvalidRestoreChoice(a.value)), next; }
    var ota;
    ota, next := AskOta(answers, next, choice.value, downloadOk);
    if ota.Err? { return Err(ota.error), next; }
    return Ok(RestoreAnswers(choice.value, ota.value.0, ota.value.1)), next;
  }

  /** The cryptex rule: seed then nonce when `CryptexRequested(major)`; otherwise
      both stay empty and no answer is read. */
  function CryptexStep(answers: seq<string>, pos: nat, major: Option<nat>): (r: (Result<(string, string), CollectError>, nat))
    requires pos <= |answers|
    ensures pos <= r.1 <= |answers|
    ensures !CryptexRequested(major) ==> r == (Ok(("", "")), pos)
    ensures r.0.Ok? && CryptexRequested(major) ==>
      r.0.value.0 != "" && r.0.value.1 != "" && Stripped(r.0.value.0) && Stripped(r.0.value.1)
    ensures r.0.Err? ==> r.0.error == EndOfInput && r.1 == |answers| && CryptexRequested(major)
  {
    if !CryptexRequested(major) then (Ok(("", "")), pos)
    else
      var (seed, p1) := Asked(answers, pos, false);
      if seed.None? then (Err(EndOfInput), p1) else
      var (nonce, p2) := Asked(answers, p1, false);
      if nonce.None? then (Err(EndOfInput), p2) else
      (Ok((seed.value, nonce.value)), p2)
  }

  /** The cryptex step of `main`. */
  method AskCryptex(answers: seq<string>, pos: nat, major: Option<nat>)
    returns (r: Result<(string, string), CollectError>, next: nat)
    requires pos <= |answers|
    ensures (r, next) == CryptexStep(answers, pos, major)
  {
    next := pos;
    if !CryptexRequested(major) {
      return Ok(("", "")), next;
    }
    var a;
    a, next := Ask(answers, next, false);
    if a.None? { return Err(EndOfInput), next; }
    var seed := a.value;
    a, next := Ask(answers, next, false);
    if a.None? { return Err(EndOfInput), next; }
    return Ok((seed, a.value)), next;
  }

  /** The baseband rule: one yes/no answer (default no), then the SNUM when the
      device is cellular; "N/A" otherwise. */
  function BasebandStep(answers: seq<string>, pos: nat): (r: (Result<(bool, string), CollectError>, nat))
    requires pos <= |answers|
    ensures pos <= r.1 <= |answers|
    ensures r.0.Ok? ==> pos < r.1 && r.0.value.0 == Yesno(answers[pos], false)
    ensures r.0.Ok? && r.0.value.0 ==> r.0.value.1 != "" && Stripped(r.0.value.1)
    ensures r.0.Ok? && !r.0.value.0 ==> r.0.value.1 == "N/A" && r.1 == pos + 1
    ensures r.0.Err? ==> r.0.error == EndOfInput && r.1 == |answers|
  {
    if pos == |answers| then (Err(EndOfInput), pos)
    else if !Yesno(answers[pos], false) then (Ok((false, "N/A")), pos + 1)
    else
      var (bbsnum, p) := Asked(answers, pos + 1, false);
      if bbsnum.None? then (Err(EndOfInput), p) else (Ok((true, bbsnum.value)), p)
  }

  /** The baseband step of `main`. */
  method AskBaseband(answers: seq<string>, pos: nat) returns (r: Result<(bool, string), CollectError>, next: nat)
    requires pos <= |answers|
    ensures (r, next) == BasebandStep(answers, pos)
  {
    next := pos;
    if next == |answers| { return Err(EndOfInput), next; }
    var cellular := Yesno(answers[next], false);
    next := next + 1;
    if !cellular {
      return Ok((false, "N/A")), next;
    }
    var a;
    a, next := Ask(answers, next, false);
    if a.None? { return Err(EndOfInput), next; }
    return Ok((true, a.value)), next;
  }

  /** The security section (APNonce, generator, the cryptex rule) and the
      baseband section. */
  function SecurityStep(answers: seq<string>, pos: nat, major: Option<nat>): (r: (Result<SecurityAnswers, CollectError>, nat))
    requires pos <= |answers|
    ensures pos <= r.1 <= |answers|
    ensures r.0.Err? ==> r.0.error == EndOfInput && r.1 == |answers|
    ensures r.0.Ok? ==> var s := r.0.value;
      && s.apnonce != "" && s.generator != "" && Stripped(s.apnonce) && Stripped(s.generator)
      && (if CryptexRequested(major)
          then s.cryptexSeed != "" && s.cryptexNonce != "" && Stripped(s.cryptexSeed) && Stripped(s.cryptexNonce)
          else s.cryptexSeed == "" && s.cryptexNonce == "")
      && (if s.cellular then s.bbsnum != "" && Stripped(s.bbsnum) else s.bbsnum == "N/A")
  {
    var (apnonce, p1) := Asked(answers, pos, false);
    if apnonce.None? then (Err(EndOfInput), p1) else
    var (generator, p2) := Asked(answers, p1, false);
    if generator.None? then (Err(EndOfInput), p2) else
    var (cryptex, p3) := CryptexStep(answers, p2, major);
    if cryptex.Err? then (Err(cryptex.error), p3) else
    var (baseband, p4) := BasebandStep(answers, p3);
    if baseband.Err? then (Err(baseband.error), p4) else
    (Ok(SecurityAnswers(apnonce.value, generator.value, cryptex.value.0, cryptex.value.1,
                        baseband.value.0, baseband.value.1)), p4)
  }

  /** The security and baseband steps of `main`. */
  method AskSecurity(answers: seq<string>, pos: nat, major: Option<nat>)
    returns (r: Result<SecurityAnswers, CollectError>, next: nat)
    requires pos <= |answers|
    ensures (r, next) == SecurityStep(answers, pos, major)
  {
    var a;
    a, next := Ask(answers, pos, false);
    if a.None? { return Err(EndOfInput), next; }
    var apnonce := a.value;
    a, next := Ask(answers, next, false);
    if a.None? { return Err(EndOfInput), next; }
    var generator := a.value;
    var cryptex;
    cryptex, next := AskCryptex(answers, next, major);
    if cryptex.Err? { return Err(cryptex.error), next; }
    var baseband;
    baseband, next := AskBaseband(answers, next);
    if baseband.Err? { return Err(baseband.error), next; }
    return Ok(SecurityAnswers(apnonce, generator, cryptex.value.0, cryptex.value.1,
                              baseband.value.0, baseband.value.1)), next;
  }

  /** The configs `main` can write: every required answer non-empty, every
      answer stripped, and the OTA, cryptex and baseband rules respected. */
  predicate Collectable(c: Config) {
    && c.device != "" && c.ecid != "" && c.iosVersion != "" && c.apnonce != "" && c.generator != ""
    && Stripped(c.device) && Stripped(c.ecid) && Stripped(c.iosVersion) && Stripped(c.buildId)
    && Stripped(c.apnonce) && Stripped(c.generator)
    && (if OtaRequested(c.restoreType) then c.otaUrl != "" && Stripped(c.otaUrl) else c.otaUrl == "")
    && (if CryptexRequested(IosMajor(c.iosVersion))
        then c.cryptexSeed != "" && c.cryptexNonce != "" && Stripped(c.cryptexSeed) && Stripped(c.cryptexNonce)
        else c.cryptexSeed == "" && c.cryptexNonce == "")
    && (if c.cellular then c.bbsnum != "" && Stripped(c.bbsnum) else c.bbsnum == "N/A")
  }

  /** What a successful run leaves behind: the document at `path`, and the
      `pzb` call made when an OTA manifest was needed. */
  datatype Saved = Saved(nickname: string, path: string, config: Config, document: string,
                         download: Option<seq<string>>)

  /** The whole dialogue of `main` over the console answers, with the outcome
      of the manifest download. */
  function Dialogue(answers: seq<string>, downloadOk: bool): (r: Result<Saved, CollectError>)
    ensures r.Ok? ==> var s := r.value; var c := s.config;
      && Collectable(c)
      && s.document == Render(c)
      && s.nickname != "" && ' ' !in s.nickname
      && s.path == Join(DeviceDir(s.nickname), Filename(c.device, c.ecid, c.buildId, c.iosVersion))
      && (s.download.Some? <==> OtaRequested(c.restoreType))
      && (s.download.Some? ==> s.download.value == PzbCommand(c.otaUrl))
    ensures r.Ok? && !downloadOk ==> !OtaRequested(r.value.config.restoreType)
    ensures r == Err(ManifestDownloadFailed) ==> !downloadOk
    ensures r.Err? && r.error.InvalidRestoreChoice? ==> r.error.choice != "" && RestoreChoice(r.error.choice).None?
  {
    var (device, p1) := DeviceStep(answers, 0);
    if device.Err? then Err(device.error) else
    var d := device.value;
    var (restore, p2) := RestoreStep(answers, p1, downloadOk);
    if restore.Err? then Err(restore.error) else
    var t := restore.value;
    var security := SecurityStep(answers, p2, IosMajor(d.iosVersion)).0;
    if security.Err? then Err(security.error) else
    var s := security.value;
    var c := Config(d.device, d.ecid, d.iosVersion, d.buildId, t.restoreType, t.otaUrl,
                    s.apnonce, s.generator, s.cryptexSeed, s.cryptexNonce, s.cellular, s.bbsnum);
    Ok(Saved(d.nickname, Join(DeviceDir(d.nickname), Filename(c.device, c.ecid, c.buildId, c.iosVersion)),
             c, Render(c), t.download))
  }

  /** `main` of the collector, with the console answers and the outcome of the
      manifest download as inputs. */
  method Collect(answers: seq<string>, downloadOk: bool) returns (r: Result<Saved, CollectError>)
    ensures r == Dialogue(answers, downloadOk)
  {
    var pos := 0;
    var device;
    device, pos := AskDevice(answers, pos);
    if device.Err? { return Err(device.error); }
    var d := device.value;

    var major := IosMajor(d.iosVersion);
    var deviceDir := DeviceDir(d.nickname);

    var restore;
    restore, pos := AskRestore(answers, pos, downloadOk);
    if restore.Err? { return Err(restore.error); }
    var t := restore.value;

    var security;
    security, pos := AskSecurity(answers, pos, major);
    if security.Err? { return Err(security.error); }
    var s := security.value;

    var config := Config(d.device, d.ecid, d.iosVersion, d.buildId, t.restoreType, t.otaUrl,
                         s.apnonce, s.generator, s.cryptexSeed, s.cryptexNonce, s.cellular, s.bbsnum);
    var path := Join(deviceDir, Filename(d.device, d.ecid, d.buildId, d.iosVersion));
    return Ok(Saved(d.nickname, path, config, Render(config), t.download));
  }

  // ---------------------------------------------------------------------------
  // Typing a config in

  /** The menu key of a restore type. */
  function MenuKey(t: RestoreType): (r: string)
    ensures RestoreChoice(r) == Some(t)
    ensures r != "" && Stripped(r)
  {
    match t
    case Ota => "1"
    case Update => "2"
    case Erase => "3"
    case All => "4"
  }

  /** What the user types in the device section: one line per prompt. */
  function DeviceLines(nickname: string, c: Config): seq<string> {
    [nickname, c.device, c.ecid, c.iosVersion, c.buildId]
  }

  /** What the user types in the restore section. */
  function RestoreLines(c: Config): seq<string> {
    [MenuKey(c.restoreType)] + (if OtaRequested(c.restoreType) then [c.otaUrl] else [])
  }

  function CryptexLines(c: Config): seq<string> {
    if CryptexRequested(IosMajor(c.iosVersion)) then [c.cryptexSeed, c.cryptexNonce] else []
  }

  /** `cellular` is the answer typed at the yes/no prompt. */
  function BasebandLines(c: Config, cellular: string): seq<string> {
    [cellular] + (if c.cellular then [c.bbsnum] else [])
  }

  /** What the user types in the security and baseband sections. */
  function SecurityLines(c: Config, cellular: string): seq<string> {
    [c.apnonce, c.generator] + CryptexLines(c) + BasebandLines(c, cellular)
  }

  /** The answers that produce `c` without any retry: one line per prompt
      `main` asks, in the order it asks them, with `cellular` typed at the
      yes/no prompt. */
  function TypedAnswers(nickname: string, c: Config, cellular: string): seq<string> {
    DeviceLines(nickname, c) + RestoreLines(c) + SecurityLines(c, cellular)
  }

  /** The lines `l` are typed from position `p` of `a` on. */
  ghost predicate LinesAt(a: seq<string>, p: nat, l: seq<string>) {
    p + |l| <= |a| && forall i :: 0 <= i < |l| ==> a[p + i] == l[i]
  }

  lemma LinesAtSplit(a: seq<string>, p: nat, l1: seq<string>, l2: seq<string>)
    requires LinesAt(a, p, l1 + l2)
    ensures LinesAt(a, p, l1) && LinesAt(a, p + |l1|, l2)
  {
    forall i | 0 <= i < |l1| ensures a[p + i] == l1[i] {
      assert (l1 + l2)[i] == l1[i];
    }
    forall i | 0 <= i < |l2| ensures a[p + |l1| + i] == l2[i] {
      assert (l1 + l2)[|l1| + i] == l2[i];
    }
  }

  lemma DeviceStepTyped(a: seq<string>, p: nat, nickname: string, c: Config)
    requires nickname != "" && Stripped(nickname) && Collectable(c)
    requires LinesAt(a, p, DeviceLines(nickname, c))
    ensures DeviceStep(a, p) == (Ok(DeviceAnswers(Nickname(nickname), c.device, c.ecid, c.iosVersion, c.buildId)), p + 5)
  {
    var l := DeviceLines(nickname, c);
    assert a[p] == l[0] && a[p + 1] == l[1] && a[p + 2] == l[2] && a[p + 3] == l[3] && a[p + 4] == l[4];
    AskedTyped(a, p, false);
    AskedTyped(a, p + 1, false);
    AskedTyped(a, p + 2, false);
    AskedTyped(a, p + 3, false);
    AskedTyped(a, p + 4, true);
  }

  lemma RestoreStepTyped(a: seq<string>, p: nat, c: Config, downloadOk: bool)
    requires Collectable(c)
    requires LinesAt(a, p, RestoreLines(c))
    ensures RestoreStep(a, p, downloadOk) ==
      if !OtaRequested(c.restoreType) then (Ok(RestoreAnswers(c.restoreType, "", None)), p + 1)
      else if downloadOk then (Ok(RestoreAnswers(c.restoreType, c.otaUrl, Some(PzbCommand(c.otaUrl)))), p + 2)
      else (Err(ManifestDownloadFailed), p + 2)
  {
    var l := RestoreLines(c);
    assert a[p] == l[0] == MenuKey(c.restoreType);
    AskedTyped(a, p, false);
    if OtaRequested(c.restoreType) {
      assert a[p + 1] == l[1] == c.otaUrl;
      AskedTyped(a, p + 1, false);
    }
  }

  lemma CryptexStepTyped(a: seq<string>, p: nat, c: Config)
    requires Collectable(c)
    requires LinesAt(a, p, CryptexLines(c))
    ensures CryptexStep(a, p, IosMajor(c.iosVersion)) == (Ok((c.cryptexSeed, c.cryptexNonce)), p + |CryptexLines(c)|)
  {
    if CryptexRequested(IosMajor(c.iosVersion)) {
      var l := CryptexLines(c);
      assert a[p] == l[0] == c.cryptexSeed && a[p + 1] == l[1] == c.cryptexNonce;
      AskedTyped(a, p, false);
      AskedTyped(a, p + 1, false);
    }
  }

  /** A stripped non-empty answer is yes exactly when it starts with `y` or `Y`. */
  lemma YesnoOfStripped(s: string, default: bool)
    requires Stripped(s) && s != []
    ensures Yesno(s, default) <==> s[0] in {'y', 'Y'}
  {
    StripUnchanged(s);
  }

  lemma BasebandStepTyped(a: seq<string>, p: nat, c: Config, cellular: string)
    requires Collectable(c) && Yesno(cellular, false) == c.cellular
    requires LinesAt(a, p, BasebandLines(c, cellular))
    ensures BasebandStep(a, p) == (Ok((c.cellular, c.bbsnum)), p + |BasebandLines(c, cellular)|)
  {
    var l := BasebandLines(c, cellular);
    assert a[p] == l[0] == cellular;
    if c.cellular {
      assert a[p + 1] == l[1] == c.bbsnum;
      AskedTyped(a, p + 1, false);
    }
  }

  lemma SecurityStepTyped(a: seq<string>, p: nat, c: Config, cellular: string)
    requires Collectable(c) && Yesno(cellular, false) == c.cellular
    requires LinesAt(a, p, SecurityLines(c, cellular))
    ensures SecurityStep(a, p, IosMajor(c.iosVersion))
         == (Ok(SecurityAnswers(c.apnonce, c.generator, c.cryptexSeed, c.cryptexNonce, c.cellular, c.bbsnum)),
             p + |SecurityLines(c, cellular)|)
  {
    var head := [c.apnonce, c.generator];
    LinesAtSplit(a, p, head + CryptexLines(c), BasebandLines(c, cellular));
    LinesAtSplit(a, p, head, CryptexLines(c));
    assert a[p] == head[0] && a[p + 1] == head[1];
    AskedTyped(a, p, false);
    AskedTyped(a, p + 1, false);
    CryptexStepTyped(a, p + 2, c);
    BasebandStepTyped(a, p + 2 + |CryptexLines(c)|, c, cellular);
  }

  /** The device section reads the first five typed lines. */
  lemma DeviceSectionTyped(a: seq<string>, nickname: string, c: Config, cellular: string)
    requires nickname != "" && Stripped(nickname) && Collectable(c)
    requires LinesAt(a, 0, TypedAnswers(nickname, c, cellular))
    ensures DeviceStep(a, 0) == (Ok(DeviceAnswers(Nickname(nickname), c.device, c.ecid, c.iosVersion, c.buildId)), 5)
  {
    var dl, rl, sl := DeviceLines(nickname, c), RestoreLines(c), SecurityLines(c, cellular);
    LinesAtSplit(a, 0, dl + rl, sl);
    LinesAtSplit(a, 0, dl, rl);
    DeviceStepTyped(a, 0, nickname, c);
  }

  /** The restore section reads the typed menu key and URL. */
  lemma RestoreSectionTyped(a: seq<string>, nickname: string, c: Config, cellular: string, downloadOk: bool)
    requires Collectable(c)
    requires LinesAt(a, 0, TypedAnswers(nickname, c, cellular))
    ensures RestoreStep(a, 5, downloadOk) ==
      if !OtaRequested(c.restoreType) then (Ok(RestoreAnswers(c.restoreType, "", None)), 6)
      else if downloadOk then (Ok(RestoreAnswers(c.restoreType, c.otaUrl, Some(PzbCommand(c.otaUrl)))), 7)
      else (Err(ManifestDownloadFailed), 7)
  {
    var dl, rl, sl := DeviceLines(nickname, c), RestoreLines(c), SecurityLines(c, cellular);
    LinesAtSplit(a, 0, dl + rl, sl);
    LinesAtSplit(a, 0, dl, rl);
    RestoreStepTyped(a, 5, c, downloadOk);
  }

  /** The security section reads the rest of the typed lines, from `p` on. */
  lemma SecuritySectionTyped(a: seq<string>, p: nat, nickname: string, c: Config, cellular: string)
    requires Collectable(c) && Yesno(cellular, false) == c.cellular
    requires LinesAt(a, 0, TypedAnswers(nickname, c, cellular))
    requires p == if OtaRequested(c.restoreType) then 7 else 6
    ensures SecurityStep(a, p, IosMajor(c.iosVersion))
         == (Ok(SecurityAnswers(c.apnonce, c.generator, c.cryptexSeed, c.cryptexNonce, c.cellular, c.bbsnum)),
             p + |SecurityLines(c, cellular)|)
  {
    var dl, rl, sl := DeviceLines(nickname, c), RestoreLines(c), SecurityLines(c, cellular);
    LinesAtSplit(a, 0, dl + rl, sl);
    assert |dl + rl| == p;
    assert LinesAt(a, p, sl);
    SecurityStepTyped(a, p, c, cellular);
  }

  /** The configs `main` saves when the answers start with the typed lines of `c`. */
  lemma DialogueTyped(a: seq<string>, nickname: string, c: Config, cellular: string, downloadOk: bool)
    requires nickname != "" && Stripped(nickname) && Collectable(c) && Yesno(cellular, false) == c.cellular
    requires LinesAt(a, 0, TypedAnswers(nickname, c, cellular))
    ensures Dialogue(a, downloadOk) ==
      if OtaRequested(c.restoreType) && !downloadOk then Err(ManifestDownloadFailed)
      else
        var n := Nickname(nickname);
        Ok(Saved(n, Join(DeviceDir(n), Filename(c.device, c.ecid, c.buildId, c.iosVersion)), c, Render(c),
                 if OtaRequested(c.restoreType) then Some(PzbCommand(c.otaUrl)) else None))
  {
    DeviceSectionTyped(a, nickname, c, cellular);
    RestoreSectionTyped(a, nickname, c, cellular, downloadOk);
    if !OtaRequested(c.restoreType) || downloadOk {
      SecuritySectionTyped(a, if OtaRequested(c.restoreType) then 7 else 6, nickname, c, cellular);
      assert Config(c.device, c.ecid, c.iosVersion, c.buildId, c.restoreType, c.otaUrl,
                    c.apnonce, c.generator, c.cryptexSeed, c.cryptexNonce, c.cellular, c.bbsnum) == c;
    }
  }

  /** Typing the values of a config `main` can write, one line per prompt
      (and at the yes/no prompt any answer `yesno` reads as `c.cellular`),
      makes `main` save exactly that config under the typed nickname, unless
      the manifest download it needs fails; answers after the last prompt are
      never read. */
  lemma TypedAnswersCollected(nickname: string, c: Config, cellular: string, downloadOk: bool, extra: seq<string>)
    requires nickname != "" && Stripped(nickname) && Collectable(c) && Yesno(cellular, false) == c.cellular
    ensures Dialogue(TypedAnswers(nickname, c, cellular) + extra, downloadOk) ==
      if OtaRequested(c.restoreType) && !downloadOk then Err(ManifestDownloadFailed)
      else
        var n := Nickname(nickname);
        Ok(Saved(n, Join(DeviceDir(n), Filename(c.device, c.ecid, c.buildId, c.iosVersion)), c, Render(c),
                 if OtaRequested(c.restoreType) then Some(PzbCommand(c.otaUrl)) else None))
  {
    var typed := TypedAnswers(nickname, c, cellular);
    var a := typed + extra;
    assert LinesAt(a, 0, typed) by {
      forall i | 0 <= i < |typed| ensures a[0 + i] == typed[i] {
        assert a[i] == typed[i];
      }
    }
    DialogueTyped(a, nickname, c, cellular, downloadOk);
  }
}
