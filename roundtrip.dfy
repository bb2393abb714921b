/** The two scripts together: a document written by the collector is read back
    by the requestor's `extract`, field by field, and the calls it then makes
    follow from the answers given to the collector. */
module RoundTrip {
  import opened Text
  import opened Paths
  import opened Collector
  import opened Requestor

  // ---------------------------------------------------------------------------
  // What a field value and a label must avoid

  /** A value `extract` gives back unchanged: no backtick (it would end the
      match early), no newline (`.` does not match it), no carriage return
      (reading the file in text mode turns it into a newline) and no `*` (which
      could start a false label). */
  predicate Clean(v: string) {
    '`' !in v && '\n' !in v && '\r' !in v && '*' !in v
  }

  /** A label the pattern cannot confuse with another one: non-empty, no `:`
      or `*`, and not starting with a space. */
  predicate WellFormedLabel(l: string) {
    l != [] && ':' !in l && '*' !in l && l[0] != ' '
  }

  /** Every text field the collector writes is clean. */
  predicate CleanConfig(c: Config) {
    Clean(c.device) && Clean(c.ecid) && Clean(c.iosVersion) && Clean(c.buildId)
    && Clean(c.otaUrl) && Clean(c.apnonce) && Clean(c.generator)
    && Clean(c.cryptexSeed) && Clean(c.cryptexNonce) && Clean(c.bbsnum)
  }

  // ---------------------------------------------------------------------------
  // Where a match cannot start

  /** A match starts with `**`. */
  lemma NoMatchWithoutStars(s: string, key: string)
    requires |s| < 2 || s[0] != '*' || s[1] != '*'
    ensures MatchAt(s, key).None?
  {
    var l := Label(key);
    assert l[0] == '*' && l[1] == '*';
  }

  /** After `**` a match needs the first character of the key, which is not a space. */
  lemma NoMatchBeforeSpace(s: string, key: string)
    requires WellFormedLabel(key)
    requires |s| >= 3 && s[2] == ' '
    ensures MatchAt(s, key).None?
  {
    var l := Label(key);
    assert l[2] == key[0];
  }

  /** Text in which no match starts can be skipped. */
  lemma {:induction false} SkipNoMatch(a: string, b: string, key: string)
    requires forall j :: 0 <= j < |a| ==> MatchAt((a + b)[j..], key).None?
    ensures Extract(a + b, key) == Extract(b, key)
    decreases |a|
  {
    if a == [] {
      assert a + b == b;
    } else {
      assert (a + b)[0..] == a + b;
      assert (a + b)[1..] == a[1..] + b;
      forall j | 0 <= j < |a[1..]|
        ensures MatchAt((a[1..] + b)[j..], key).None?
      {
        assert (a[1..] + b)[j..] == (a + b)[j + 1..];
      }
      SkipNoMatch(a[1..], b, key);
    }
  }

  /** Text without `*` can be skipped. */
  lemma SkipStarFree(a: string, b: string, key: string)
    requires '*' !in a
    ensures Extract(a + b, key) == Extract(b, key)
  {
    forall j | 0 <= j < |a|
      ensures MatchAt((a + b)[j..], key).None?
    {
      assert (a + b)[j..][0] == a[j];
      NoMatchWithoutStars((a + b)[j..], key);
    }
    SkipNoMatch(a, b, key);
  }

  /** The label `**n:**` does not start a match for a different key. */
  lemma OtherLabelIsNoPrefix(n: string, key: string, rest: string)
    requires WellFormedLabel(n) && WellFormedLabel(key) && n != key
    ensures !(Label(key) <= Label(n) + rest)
  {
    var s := Label(n) + rest;
    var l := Label(key);
    assert forall i :: 0 <= i < |n| ==> s[2 + i] == n[i];
    assert s[2 + |n|] == ':';
    assert forall i :: 0 <= i < |key| ==> l[2 + i] == key[i];
    assert l[2 + |key|] == ':';
    if |key| < |n| {
      assert s[2 + |key|] != l[2 + |key|];
    } else if |key| > |n| {
      assert s[2 + |n|] != l[2 + |n|];
    } else {
      var i :| 0 <= i < |n| && n[i] != key[i];
      assert s[2 + i] != l[2 + i];
    }
  }

  /** No match for another key starts inside `**n:**` when a space follows it. */
  lemma NoMatchInsideOtherLabel(n: string, key: string, rest: string, j: nat)
    requires WellFormedLabel(n) && WellFormedLabel(key) && n != key
    requires rest != [] && rest[0] == ' '
    requires j < |Label(n)|
    ensures MatchAt((Label(n) + rest)[j..], key).None?
  {
    var s := Label(n) + rest;
    var t := s[j..];
    assert |Label(n)| == |n| + 5;
    if j == 0 {
      assert t == s;
      OtherLabelIsNoPrefix(n, key, rest);
    } else if j == 1 {
      assert t[1] == n[0];
      NoMatchWithoutStars(t, key);
    } else if j < |n| + 3 {
      assert t[0] == if j < |n| + 2 then n[j - 2] else ':';
      NoMatchWithoutStars(t, key);
    } else if j == |n| + 3 {
      assert t[2] == rest[0];
      NoMatchBeforeSpace(t, key);
    } else {
      assert t[1] == rest[0];
      NoMatchWithoutStars(t, key);
    }
  }

  /** A line with a different label is skipped. */
  lemma SkipOtherLabel(n: string, key: string, rest: string)
    requires WellFormedLabel(n) && WellFormedLabel(key) && n != key
    requires rest != [] && rest[0] == ' '
    ensures Extract(Label(n) + rest, key) == Extract(rest, key)
  {
    forall j | 0 <= j < |Label(n)|
      ensures MatchAt((Label(n) + rest)[j..], key).None?
    {
      NoMatchInsideOtherLabel(n, key, rest, j);
    }
    SkipNoMatch(Label(n), rest, key);
  }

  // ---------------------------------------------------------------------------
  // Where the match is found

  /** `(.*?)` followed by a backtick captures exactly a clean value. */
  lemma {:induction false} LazyValueStops(v: string, rest: string)
    requires '`' !in v && '\n' !in v
    ensures LazyValue(v + "`" + rest) == Some(v)
  {
    var s := v + "`" + rest;
    if v != [] {
      assert s[0] == v[0];
      assert s[1..] == v[1..] + "`" + rest;
      LazyValueStops(v[1..], rest);
      assert [v[0]] + v[1..] == v;
    }
  }

  /** After the label, `\s*` takes the one space and the value opens with a backtick. */
  lemma SpaceThenBacktick(v: string, rest: string)
    ensures TrimStart(" `" + v + "`\n" + rest) == "`" + v + "`\n" + rest
  {
    var r := " `" + v + "`\n" + rest;
    assert r[0] == ' ' && r[1] == '`';
    assert r[1..] == "`" + v + "`\n" + rest;
    assert TrimStart(r[1..]) == r[1..];
  }

  /** The pattern matches at the start of the line carrying the key. */
  lemma MatchOwnLabelAt(n: string, v: string, rest: string)
    requires WellFormedLabel(n) && Clean(v)
    ensures MatchAt(Label(n) + (" `" + v + "`\n" + rest), n) == Some(v)
  {
    var r := " `" + v + "`\n" + rest;
    var s := Label(n) + r;
    assert Label(n) <= s;
    assert s[|Label(n)|..] == r;
    SpaceThenBacktick(v, rest);
    var t := "`" + v + "`\n" + rest;
    assert t[1..] == v + "`" + ("\n" + rest);
    LazyValueStops(v, "\n" + rest);
  }

  /** The line carrying the key yields its value. */
  lemma MatchOwnLabel(n: string, v: string, rest: string)
    requires WellFormedLabel(n) && Clean(v)
    ensures Extract(Label(n) + (" `" + v + "`\n" + rest), n) == Some(v)
  {
    MatchOwnLabelAt(n, v, rest);
  }

  // ---------------------------------------------------------------------------
  // The document

  /** The fixed headings contain no `*`. */
  lemma HeadingsStarFree(i: nat)
    ensures '*' !in HeadingBefore(i)
  {
  }

  /** A field line, split where the label starts and where it ends. */
  lemma LineParts(h: string, n: string, v: string, tail: string)
    ensures h + Line(n, v) + tail == (h + "- ") + (Label(n) + (" `" + v + "`\n" + tail))
  {
  }

  /** Search text that continues with the line of a key finds that line's value. */
  lemma LineWithOwnKey(h: string, n: string, v: string, tail: string)
    requires '*' !in h && WellFormedLabel(n) && Clean(v)
    ensures Extract(h + Line(n, v) + tail, n) == Some(v)
  {
    LineParts(h, n, v, tail);
    SkipStarFree(h + "- ", Label(n) + (" `" + v + "`\n" + tail), n);
    MatchOwnLabel(n, v, tail);
  }

  /** Search text that continues with the line of another key goes on after it. */
  lemma LineWithOtherKey(h: string, n: string, v: string, tail: string, key: string)
    requires '*' !in h && WellFormedLabel(n) && WellFormedLabel(key) && n != key && Clean(v)
    ensures Extract(h + Line(n, v) + tail, key) == Extract(tail, key)
  {
    var r := " `" + v + "`\n" + tail;
    LineParts(h, n, v, tail);
    SkipStarFree(h + "- ", Label(n) + r, key);
    SkipOtherLabel(n, key, r);
    assert r == (" `" + v + "`\n") + tail;
    SkipStarFree(" `" + v + "`\n", tail, key);
  }

  /** Searching the document from field `i` on finds the value of the first
      field from `i` on whose label is the key. */
  lemma {:induction false} ExtractBody(es: seq<(string, string)>, i: nat, k: nat)
    requires i <= k < |es|
    requires forall m :: i <= m <= k ==> WellFormedLabel(es[m].0) && Clean(es[m].1)
    requires forall m :: i <= m < k ==> es[m].0 != es[k].0
    ensures Extract(Body(es, i), es[k].0) == Some(es[k].1)
    decreases k - i
  {
    assert Body(es, i) == HeadingBefore(i) + Line(es[i].0, es[i].1) + Body(es, i + 1);
    HeadingsStarFree(i);
    if k == i {
      LineWithOwnKey(HeadingBefore(i), es[i].0, es[i].1, Body(es, i + 1));
    } else {
      LineWithOtherKey(HeadingBefore(i), es[i].0, es[i].1, Body(es, i + 1), es[k].0);
      ExtractBody(es, i + 1, k);
    }
  }

  lemma DeviceLabelsWellFormed()
    ensures WellFormedLabel("Device ID") && WellFormedLabel("ECID")
    ensures WellFormedLabel("iOS Version") && WellFormedLabel("Build ID")
  {
  }

  lemma RestoreLabelsWellFormed()
    ensures WellFormedLabel("Restore Type") && WellFormedLabel("OTA URL")
    ensures WellFormedLabel("APNonce") && WellFormedLabel("Generator")
  {
  }

  lemma CryptexLabelsWellFormed()
    ensures WellFormedLabel("Cryptex1 Seed")
    ensures WellFormedLabel("Entangled Cryptex1 Nonce")
  {
  }

  lemma BasebandLabelsWellFormed()
    ensures WellFormedLabel("Cellular") && WellFormedLabel("Baseband SNUM")
  {
  }

  /** Every label of the template is well formed. */
  lemma LabelsWellFormed()
    ensures forall m :: 0 <= m < |Labels| ==> WellFormedLabel(Labels[m])
  {
    DeviceLabelsWellFormed();
    RestoreLabelsWellFormed();
    CryptexLabelsWellFormed();
    BasebandLabelsWellFormed();
  }

  /** The name of a restore type is clean. */
  lemma RestoreNameClean(t: RestoreType)
    ensures Clean(t.Name())
  {
  }

  /** The lines of `es` carry the document's own labels, in order, with clean values. */
  ghost predicate DocumentEntries(es: seq<(string, string)>) {
    |es| == |Labels| && forall m :: 0 <= m < |es| ==> es[m].0 == Labels[m] && Clean(es[m].1)
  }

  /** Every line of such a body is found by its own label. */
  lemma ExtractEveryLine(es: seq<(string, string)>, k: nat)
    requires DocumentEntries(es) && k < |es|
    ensures Extract(Body(es, 0), Labels[k]) == Some(es[k].1)
  {
    DocumentLinesWellFormed(es, k);
    DocumentLabelsDistinct(es, k);
    ExtractBody(es, 0, k);
  }

  /** The lines of a readable document up to `k` have well-formed labels and clean values. */
  lemma DocumentLinesWellFormed(es: seq<(string, string)>, k: nat)
    requires DocumentEntries(es) && k < |es|
    ensures forall m :: 0 <= m <= k ==> WellFormedLabel(es[m].0) && Clean(es[m].1)
  {
    LabelsWellFormed();
  }

  /** No line of a readable document before `k` has the label of line `k`. */
  lemma DocumentLabelsDistinct(es: seq<(string, string)>, k: nat)
    requires DocumentEntries(es) && k < |es|
    ensures forall m :: 0 <= m < k ==> es[m].0 != es[k].0
  {
    LabelsDistinct();
  }

  /** The lines of a clean config are the lines of a readable document. */
  lemma EntriesClean(c: Config)
    requires CleanConfig(c)
    ensures DocumentEntries(Entries(c))
  {
    var es := Entries(c);
    RestoreNameClean(c.restoreType);
    assert Clean(PyBool(c.cellular));
    forall m | 0 <= m < |es|
      ensures Clean(es[m].1)
    {
      if m < 6 {
        assert es[..6] == [("Device ID", c.device), ("ECID", c.ecid), ("iOS Version", c.iosVersion),
                           ("Build ID", c.buildId), ("Restore Type", c.restoreType.Name()), ("OTA URL", c.otaUrl)];
        assert es[m] == es[..6][m];
      } else {
        assert es[6..] == [("APNonce", c.apnonce), ("Generator", c.generator),
                           ("Cryptex1 Seed", c.cryptexSeed), ("Entangled Cryptex1 Nonce", c.cryptexNonce),
                           ("Cellular", PyBool(c.cellular)), ("Baseband SNUM", c.bbsnum)];
        assert es[m] == es[6..][m - 6];
      }
    }
  }

  /** The round trip: every field of a clean config is read back from the
      document as written. */
  lemma RenderRoundTrip(c: Config, k: nat)
    requires CleanConfig(c) && k < |Labels|
    ensures Extract(Render(c), Labels[k]) == Some(Entries(c)[k].1)
  {
    EntriesClean(c);
    ExtractEveryLine(Entries(c), k);
  }

  /** The fields the requestor reads from a document the collector wrote. */
  function Written(c: Config): BlobFields {
    BlobFields(Some(c.device), Some(c.ecid), Some(c.iosVersion), Some(c.restoreType.Name()),
               Some(c.apnonce), Some(c.generator), Some(c.cryptexNonce), Some(c.cryptexSeed),
               Some(PyBool(c.cellular)), Some(c.bbsnum))
  }

  /** A document in which every label finds its own value gives those values
      to the fields the requestor reads. */
  lemma ReadDocument(d: string, es: seq<(string, string)>)
    requires |es| == |Labels|
    requires forall k :: 0 <= k < |Labels| ==> Extract(d, Labels[k]) == Some(es[k].1)
    ensures ReadFields(d) ==
      BlobFields(Some(es[0].1), Some(es[1].1), Some(es[2].1), Some(es[4].1), Some(es[6].1),
                 Some(es[7].1), Some(es[9].1), Some(es[8].1), Some(es[10].1), Some(es[11].1))
  {
    assert Extract(d, Labels[0]) == Some(es[0].1);
    assert Extract(d, Labels[1]) == Some(es[1].1);
    assert Extract(d, Labels[2]) == Some(es[2].1);
    assert Extract(d, Labels[4]) == Some(es[4].1);
    assert Extract(d, Labels[6]) == Some(es[6].1);
    assert Extract(d, Labels[7]) == Some(es[7].1);
    assert Extract(d, Labels[8]) == Some(es[8].1);
    assert Extract(d, Labels[9]) == Some(es[9].1);
    assert Extract(d, Labels[10]) == Some(es[10].1);
    assert Extract(d, Labels[11]) == Some(es[11].1);
  }

  /** Reading a written document gives back what was written, and every field
      a call needs is present. */
  lemma ReadRendered(c: Config)
    requires CleanConfig(c)
    ensures ReadFields(Render(c)) == Written(c)
    ensures HasArguments(ReadFields(Render(c))) && ReadFields(Render(c)).iosVersion.Some?
  {
    var es := Entries(c);
    forall k | 0 <= k < |Labels|
      ensures Extract(Render(c), Labels[k]) == Some(es[k].1)
    {
      RenderRoundTrip(c, k);
    }
    ReadDocument(Render(c), es);
  }

  /** The flags a written document asks for: `-b` when the device was not
      cellular, `-c <SNUM>` when it was and a SNUM was typed, nothing otherwise. */
  lemma WrittenBaseband(c: Config)
    ensures BasebandFlags(Written(c).cellular, Written(c).bbsnum) ==
      if !c.cellular then ["-b"]
      else if c.bbsnum == "" || c.bbsnum == "N/A" then []
      else ["-c", c.bbsnum]
  {
    if c.cellular {
      assert Lower("True") == "true";
      assert !CellularSaysNo(Some("True"));
    } else {
      assert Lower("False") == "false";
    }
  }

  /** The modes a written restore type expands to. */
  lemma WrittenModes(c: Config)
    ensures Modes(Written(c).restoreType) ==
      if c.restoreType == All then ["update", "erase", "ota"] else [c.restoreType.Name()]
  {
    if c.restoreType != All {
      assert c.restoreType.Name() != All.Name();
    }
  }

  /** The calls the requestor makes for a document the collector wrote: all
      three modes for `all` (OTA only with a manifest), otherwise the one mode
      that was chosen, with OTA dropped when the manifest is missing. */
  lemma RenderedCommands(c: Config, folder: string, manifestExists: bool)
    requires CleanConfig(c)
    ensures Runnable(ReadFields(Render(c)), manifestExists)
    ensures Commands(ReadFields(Render(c)), folder, manifestExists) ==
      var w := Written(c);
      if c.restoreType == All then
        [Invocation(w, folder, "update"), Invocation(w, folder, "erase")]
        + (if manifestExists then [Invocation(w, folder, "ota")] else [])
      else if c.restoreType == Ota && !manifestExists then []
      else [Invocation(w, folder, c.restoreType.Name())]
  {
    ReadRendered(c);
    var w := Written(c);
    RunnableIff(w, manifestExists);
    WrittenModes(c);
    if c.restoreType == All {
      AllModesCommands(w, folder, manifestExists);
    } else {
      assert w.restoreType.value != "all";
      SingleModeCommands(w, folder, manifestExists);
    }
  }

  /** The requestor works in the folder the collector saved the document in,
      as long as the nickname and the file name contain no `/`. */
  lemma SavedFolder(nickname: string, fileName: string)
    requires nickname != "" && '/' !in nickname && '/' !in fileName
    ensures Dirname(Join(DeviceDir(nickname), fileName)) == DeviceDir(nickname)
    ensures DeviceDir(nickname) == "blobs/" + nickname
  {
    var d := DeviceDir(nickname);
    assert nickname[0] != '/';
    assert d == "blobs/" + nickname;
    assert d[|d| - 1] == nickname[|nickname| - 1];
    DirnameOfJoin(d, fileName);
  }
}
