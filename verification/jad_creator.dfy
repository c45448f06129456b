/** The JAD descriptor builder: picks the manifest out of a JAR's member names, keeps the
    MIDlet name, version, vendor and Nokia category lines of the manifest, and assembles the
    descriptor text from them, the JAR's URL and its size. The archive and the file system are
    inputs: the member names, each member's decoded text and the file size are passed in. */
module JadCreator {
  import opened Wrappers
  import opened PyStrings

  // ---------------------------------------------------------------------------------------
  // File selection
  // ---------------------------------------------------------------------------------------

  /** `os.path.basename` for a POSIX path: what follows the last '/'. */
  function Basename(path: string): (r: string)
    ensures '/' !in r
    ensures EndsWith(path, r)
    ensures |r| < |path| ==> path[|path| - |r| - 1] == '/'
  {
    if path == [] || path[|path| - 1] == '/' then []
    else Basename(path[..|path| - 1]) + [path[|path| - 1]]
  }

  /** Why a descriptor is not built. */
  datatype JadError =
    | NameHasSpace      // the chosen file's base name contains a space
    | NotJar            // the chosen path does not end with ".jar"
    | ManifestNotFound  // no member name contains "MANIFEST.MF", or the manifest is empty

  /** The checks select_file makes on the chosen path, in its order: None when the path is
      accepted (an empty path, a cancelled dialog, is handled by the caller). */
  function CheckPath(path: string): (r: Option<JadError>)
    ensures r.None? <==> ' ' !in Basename(path) && EndsWith(path, ".jar")
    ensures r == Some(NameHasSpace) <==> ' ' in Basename(path)
  {
    if ' ' in Basename(path) then Some(NameHasSpace)
    else if !EndsWith(path, ".jar") then Some(NotJar)
    else None
  }

  // ---------------------------------------------------------------------------------------
  // Finding the manifest
  // ---------------------------------------------------------------------------------------

  /** `'MANIFEST.MF' in name.upper()`. */
  predicate IsManifestName(name: string) {
    Contains(Upper(name), "MANIFEST.MF")
  }

  /** The name search of extract_manifest: the first member name, in archive order, that names
      the manifest. */
  function FindManifest(names: seq<string>): (r: Option<string>)
    ensures r.None? <==> forall i | 0 <= i < |names| :: !IsManifestName(names[i])
    ensures r.Some? ==> exists i | 0 <= i < |names| ::
      names[i] == r.value && IsManifestName(names[i]) && forall j | 0 <= j < i :: !IsManifestName(names[j])
  {
    if names == [] then None
    else if IsManifestName(names[0]) then Some(names[0])
    else
      var r := FindManifest(names[1..]);
      assert forall i | 1 <= i < |names| :: names[i] == names[1..][i - 1];
      if r.Some? then
        ghost var i :| 0 <= i < |names[1..]| && names[1..][i] == r.value && IsManifestName(names[1..][i])
                        && forall j | 0 <= j < i :: !IsManifestName(names[1..][j]);
        assert names[i + 1] == r.value && forall j | 0 <= j < i + 1 :: !IsManifestName(names[j]);
        r
      else
        r
  }

  /** extract_manifest: the decoded text of the manifest member, looked up by its name in
      `contents`, or None when the archive has no manifest name. */
  function ExtractManifest(names: seq<string>, contents: map<string, string>): (r: Option<string>)
    requires forall i | 0 <= i < |names| :: names[i] in contents
    ensures r.Some? <==> FindManifest(names).Some?
    ensures r.Some? ==> r.value == contents[FindManifest(names).value]
  {
    match FindManifest(names)
    case None => None
    case Some(name) => Some(contents[name])
  }

  // ---------------------------------------------------------------------------------------
  // Reading the manifest
  // ---------------------------------------------------------------------------------------

  const NamePrefix: string := "MIDlet-Name:"
  const VersionPrefix: string := "MIDlet-Version:"
  const VendorPrefix: string := "MIDlet-Vendor:"
  const CategoryPrefix: string := "Nokia-MIDlet-Category:"

  /** The four prefixes, in the order their lines appear in the descriptor. */
  const Prefixes: seq<string> := [NamePrefix, VersionPrefix, VendorPrefix, CategoryPrefix]

  /** The `info` dict of create_jad_content: for each key, the kept manifest line if any. */
  datatype Info = Info(name: Option<string>, version: Option<string>, vendor: Option<string>, category: Option<string>)

  /** `f` applied to each of `lines`, built from the back. */
  function MapLines(f: string -> string, lines: seq<string>): (r: seq<string>)
    ensures |r| == |lines|
  {
    if lines == [] then []
    else MapLines(f, lines[..|lines| - 1]) + [f(lines[|lines| - 1])]
  }

  /** Line `i` of the mapped lines is `f` of line `i`. */
  lemma {:induction false} MapLinesAt(f: string -> string, lines: seq<string>, i: nat)
    requires i < |lines|
    ensures MapLines(f, lines)[i] == f(lines[i])
    decreases |lines|
  {
    var n := |lines| - 1;
    var front := lines[..n];
    if i < n {
      MapLinesAt(f, front, i);
      assert lines[i] == front[i];
    }
  }

  /** Mapping one more line appends its image. */
  lemma MapLinesSnoc(f: string -> string, lines: seq<string>, i: nat)
    requires i < |lines|
    ensures MapLines(f, lines[..i + 1]) == MapLines(f, lines[..i]) + [f(lines[i])]
  {
    assert lines[..i + 1][..i] == lines[..i];
  }

  /** Each line whitespace-stripped. */
  function Stripped(lines: seq<string>): (r: seq<string>)
    ensures |r| == |lines|
  {
    MapLines(Strip, lines)
  }

  /** The last of `lines` that starts with `prefix`. */
  function LastWith(lines: seq<string>, prefix: string): (r: Option<string>)
    ensures r.Some? ==> StartsWith(r.value, prefix)
    decreases |lines|
  {
    if lines == [] then None
    else if StartsWith(lines[|lines| - 1], prefix) then Some(lines[|lines| - 1])
    else LastWith(lines[..|lines| - 1], prefix)
  }

  /** LastWith keeps the line with the prefix that comes last, and finds nothing only when no
      line has the prefix. */
  lemma {:induction false} LastWithIsLast(lines: seq<string>, prefix: string)
    ensures LastWith(lines, prefix).None? <==> forall i | 0 <= i < |lines| :: !StartsWith(lines[i], prefix)
    ensures LastWith(lines, prefix).Some? ==> exists i | 0 <= i < |lines| ::
      lines[i] == LastWith(lines, prefix).value && forall j | i < j < |lines| :: !StartsWith(lines[j], prefix)
    decreases |lines|
  {
    if lines != [] {
      var n := |lines| - 1;
      var init := lines[..n];
      LastWithIsLast(init, prefix);
      assert forall i | 0 <= i < n :: init[i] == lines[i];
      if !StartsWith(lines[n], prefix) && LastWith(init, prefix).Some? {
        var i :| 0 <= i < |init| && init[i] == LastWith(init, prefix).value
                 && forall j | i < j < |init| :: !StartsWith(init[j], prefix);
        assert lines[i] == LastWith(lines, prefix).value;
      }
    }
  }

  /** What the manifest loop of create_jad_content collects from the stripped manifest lines:
      for each prefix, the last line that starts with it. */
  function InfoOf(stripped: seq<string>): Info {
    Info(LastWith(stripped, NamePrefix), LastWith(stripped, VersionPrefix),
         LastWith(stripped, VendorPrefix), LastWith(stripped, CategoryPrefix))
  }

  /** The manifest's lines as create_jad_content reads them: split at "\n", each stripped. */
  function ManifestLines(manifest: string): (r: seq<string>)
    ensures forall i | 0 <= i < |r| :: '\n' !in r[i]
  {
    var pieces := Split(manifest, '\n');
    var r := Stripped(pieces);
    assert forall i | 0 <= i < |r| :: '\n' !in r[i] by {
      forall i | 0 <= i < |r|
        ensures '\n' !in r[i]
      {
        MapLinesAt(Strip, pieces, i);
        StripInside(pieces[i]);
      }
    }
    r
  }

  /** No line starts with two of the four prefixes. */
  lemma PrefixesExclusive(line: string, p: nat, q: nat)
    requires p < 4 && q < 4 && p != q
    requires StartsWith(line, Prefixes[p])
    ensures !StartsWith(line, Prefixes[q])
  {
    var k := if p == 0 || q == 0 then 7 else if p == 3 || q == 3 then 0 else 9;
    assert Prefixes[p][k] != Prefixes[q][k];
    assert line[k] == Prefixes[p][k];
  }

  /** Adding one more manifest line to the scan keeps LastWith current. */
  lemma LastWithSnoc(lines: seq<string>, line: string, prefix: string)
    ensures LastWith(lines + [line], prefix) ==
      if StartsWith(line, prefix) then Some(line) else LastWith(lines, prefix)
  {
    assert (lines + [line])[..|lines|] == lines;
  }

  /** One pass of the manifest loop's if/elif chain over the stripped line `line`. */
  function InfoStep(info: Info, line: string): Info {
    if StartsWith(line, NamePrefix) then info.(name := Some(line))
    else if StartsWith(line, VersionPrefix) then info.(version := Some(line))
    else if StartsWith(line, VendorPrefix) then info.(vendor := Some(line))
    else if StartsWith(line, CategoryPrefix) then info.(category := Some(line))
    else info
  }

  /** The if/elif chain keeps InfoOf current: since no line starts with two of the prefixes,
      trying them in turn is the same as trying each on its own. */
  lemma InfoOfSnoc(seen: seq<string>, line: string)
    ensures InfoOf(seen + [line]) == InfoStep(InfoOf(seen), line)
  {
    LastWithSnoc(seen, line, NamePrefix);
    LastWithSnoc(seen, line, VersionPrefix);
    LastWithSnoc(seen, line, VendorPrefix);
    LastWithSnoc(seen, line, CategoryPrefix);
    if StartsWith(line, NamePrefix) {
      PrefixesExclusive(line, 0, 1);
      PrefixesExclusive(line, 0, 2);
      PrefixesExclusive(line, 0, 3);
    } else if StartsWith(line, VersionPrefix) {
      PrefixesExclusive(line, 1, 2);
      PrefixesExclusive(line, 1, 3);
    } else if StartsWith(line, VendorPrefix) {
      PrefixesExclusive(line, 2, 3);
    }
  }

  /** The manifest loop of create_jad_content: each stripped line is kept under the key of the
      prefix it starts with, a later line replacing an earlier one. */
  method ExtractInfo(lines: seq<string>) returns (info: Info)
    ensures info == InfoOf(Stripped(lines))
  {
    info := Info(None, None, None, None);
    for i := 0 to |lines|
      invariant info == InfoOf(Stripped(lines[..i]))
    {
      var line := Strip(lines[i]);
      MapLinesSnoc(Strip, lines, i);
      InfoOfSnoc(Stripped(lines[..i]), line);
      if StartsWith(line, NamePrefix) {
        info := info.(name := Some(line));
      } else if StartsWith(line, VersionPrefix) {
        info := info.(version := Some(line));
      } else if StartsWith(line, VendorPrefix) {
        info := info.(vendor := Some(line));
      } else if StartsWith(line, CategoryPrefix) {
        info := info.(category := Some(line));
      }
    }
    assert lines[..|lines|] == lines;
  }

  // ---------------------------------------------------------------------------------------
  // Building the descriptor
  // ---------------------------------------------------------------------------------------

  /** The URL on the first line: the stripped custom URL when it is switched on and not blank,
      otherwise the file name with every ".jar" removed, then ".jar". */
  function JarUrl(fileName: string, useCustomUrl: bool, customUrl: string): (r: string)
    ensures useCustomUrl && Strip(customUrl) != [] ==> r == Strip(customUrl)
    ensures !(useCustomUrl && Strip(customUrl) != []) ==> r == RemoveAll(fileName, ".jar") + ".jar"
    ensures !(useCustomUrl && Strip(customUrl) != []) ==> EndsWith(r, ".jar")
  {
    if useCustomUrl && Strip(customUrl) != [] then Strip(customUrl)
    else RemoveAll(fileName, ".jar") + ".jar"
  }

  /** A file name whose only ".jar" is its extension is its own URL. */
  lemma JarUrlPlainName(stem: string, useCustomUrl: bool, customUrl: string)
    requires !(useCustomUrl && Strip(customUrl) != []) && NoEarlyMatch(stem, ".jar")
    ensures JarUrl(stem + ".jar", useCustomUrl, customUrl) == stem + ".jar"
  {
    RemoveAllAfter(stem, ".jar", "");
    assert stem + ".jar" + "" == stem + ".jar";
  }

  /** Every ".jar" goes, not only the extension: with `u` = "x" and `w` = "file", "x.jarfile.jar"
      gives "xfile.jar"; with `w` empty, "a.jar.jar" gives "a.jar". */
  lemma JarUrlRemovesEveryJar(u: string, w: string, useCustomUrl: bool, customUrl: string)
    requires !(useCustomUrl && Strip(customUrl) != [])
    requires NoEarlyMatch(u, ".jar") && NoEarlyMatch(w, ".jar")
    ensures JarUrl(u + ".jar" + w + ".jar", useCustomUrl, customUrl) == u + w + ".jar"
  {
    var p := ".jar";
    RemoveAllAfter(w, p, "");
    assert w + p + "" == w + p;
    RemoveAllAfter(u, p, w + p);
    assert u + p + (w + p) == u + p + w + p;
  }

  /** One line when the key is present, none otherwise. */
  function Present(line: Option<string>): (r: seq<string>)
    ensures |r| <= 1
  {
    if line.Some? then [line.value] else []
  }

  /** The lines of the descriptor, in the order create_jad_content appends them: the URL line,
      the size line, then what its manifest loop collected, key by key. */
  function JadLines(url: string, fileSize: nat, info: Info): (r: seq<string>)
    ensures 2 <= |r| <= 6
  {
    ["MIDlet-Jar-URL: " + url, "MIDlet-Jar-Size: " + Decimal(fileSize)]
    + Present(info.name) + Present(info.version) + Present(info.vendor) + Present(info.category)
  }

  /** The descriptor text create_jad_content builds for the JAR `fileName` of `fileSize` bytes:
      the lines joined by "\n". */
  function JadContent(fileName: string, fileSize: nat, manifest: string, useCustomUrl: bool, customUrl: string): string {
    Join(JadLines(JarUrl(fileName, useCustomUrl, customUrl), fileSize, InfoOf(ManifestLines(manifest))), "\n")
  }

  /** Which of the four prefixes a line starts with (4 for none). */
  function PrefixRank(line: string): (p: nat)
    ensures p <= 4
    ensures p < 4 ==> StartsWith(line, Prefixes[p])
  {
    if StartsWith(line, NamePrefix) then 0
    else if StartsWith(line, VersionPrefix) then 1
    else if StartsWith(line, VendorPrefix) then 2
    else if StartsWith(line, CategoryPrefix) then 3
    else 4
  }

  lemma RankOf(line: string, p: nat)
    requires p < 4 && StartsWith(line, Prefixes[p])
    ensures PrefixRank(line) == p
  {
    if PrefixRank(line) != p {
      PrefixesExclusive(line, p, PrefixRank(line));
    }
  }

  /** The present entries of `opts`, in order. */
  function Somes(opts: seq<Option<string>>): (r: seq<string>)
    ensures |r| <= |opts|
  {
    if opts == [] then [] else Present(opts[0]) + Somes(opts[1..])
  }

  /** Every present entry of `opts` comes out, and only those. */
  lemma {:induction false} SomesMembers(opts: seq<Option<string>>)
    ensures forall k | 0 <= k < |Somes(opts)| :: Some(Somes(opts)[k]) in opts
    ensures forall p | 0 <= p < |opts| :: opts[p].Some? ==> opts[p].value in Somes(opts)
    decreases |opts|
  {
    if opts != [] {
      var tail := opts[1..];
      SomesMembers(tail);
      var r := Somes(opts);
      var t := Somes(tail);
      assert r == Present(opts[0]) + t;
      forall k | 0 <= k < |r|
        ensures Some(r[k]) in opts
      {
        if k >= |Present(opts[0])| {
          assert r[k] == t[k - |Present(opts[0])|];
          assert Some(r[k]) in tail;
        }
      }
      forall p | 0 <= p < |opts| && opts[p].Some?
        ensures opts[p].value in r
      {
        if p > 0 {
          assert opts[p] == tail[p - 1];
          assert opts[p].value in t;
        }
      }
    }
  }

  /** When the present entries at positions base, base + 1, ... have those ranks, the present
      entries come out with strictly increasing rank, each within the ranks of the positions. */
  lemma {:induction false} SomesInOrder(opts: seq<Option<string>>, base: nat, rank: string -> nat)
    requires forall p | 0 <= p < |opts| :: opts[p].Some? ==> rank(opts[p].value) == base + p
    ensures forall k | 0 <= k < |Somes(opts)| :: base <= rank(Somes(opts)[k]) < base + |opts|
    ensures forall k, l | 0 <= k < l < |Somes(opts)| :: rank(Somes(opts)[k]) < rank(Somes(opts)[l])
    decreases |opts|
  {
    if opts != [] {
      var tail := opts[1..];
      assert forall p | 1 <= p < |opts| :: opts[p] == tail[p - 1];
      SomesInOrder(tail, base + 1, rank);
      var r := Somes(opts);
      var t := Somes(tail);
      assert r == Present(opts[0]) + t;
      if opts[0].Some? {
        assert forall k | 1 <= k < |r| :: r[k] == t[k - 1];
      }
    }
  }

  /** The present entries of four, as create_jad_content's four `if` statements append them. */
  lemma SomesOfFour(a: Option<string>, b: Option<string>, c: Option<string>, d: Option<string>)
    ensures Somes([a, b, c, d]) == Present(a) + Present(b) + Present(c) + Present(d)
  {
    assert [d][1..] == [];
    assert Somes([d]) == Present(d);
    assert [c, d][1..] == [d];
    assert Somes([c, d]) == Present(c) + Present(d);
    assert [b, c, d][1..] == [c, d];
    assert Somes([b, c, d]) == Present(b) + (Present(c) + Present(d));
    assert [a, b, c, d][1..] == [b, c, d];
  }

  lemma AfterTwo<T>(x: T, y: T, a: seq<T>, b: seq<T>, c: seq<T>, d: seq<T>)
    ensures ([x, y] + a + b + c + d)[2..] == a + b + c + d
  {
    assert [x, y] + a + b + c + d == [x, y] + (a + b + c + d);
  }

  /** The four entries of `info`, in descriptor order. */
  function Kept(info: Info): (r: seq<Option<string>>)
    ensures |r| == 4
  {
    [info.name, info.version, info.vendor, info.category]
  }

  /** Every present entry of `info` starts with the prefix of its own key. */
  predicate Ranked(info: Info) {
    forall p | 0 <= p < 4 :: Kept(info)[p].Some? ==> PrefixRank(Kept(info)[p].value) == p
  }

  /** After two lines come the present entries of `info`, in key order, whatever ranks the keys. */
  lemma InfoLinesInOrder(x: string, y: string, info: Info, rank: string -> nat)
    requires forall p | 0 <= p < 4 :: Kept(info)[p].Some? ==> rank(Kept(info)[p].value) == p
    ensures var r := [x, y] + Present(info.name) + Present(info.version) + Present(info.vendor) + Present(info.category);
      && (forall k | 2 <= k < |r| :: rank(r[k]) < 4 && Kept(info)[rank(r[k])] == Some(r[k]))
      && (forall k, l | 2 <= k < l < |r| :: rank(r[k]) < rank(r[l]))
      && (forall p | 0 <= p < 4 :: Kept(info)[p].Some? ==> Kept(info)[p].value in r[2..])
  {
    var opts := Kept(info);
    SomesInOrder(opts, 0, rank);
    SomesMembers(opts);
    var extra := Somes(opts);
    var r := [x, y] + Present(info.name) + Present(info.version) + Present(info.vendor) + Present(info.category);
    assert r[2..] == extra by {
      SomesOfFour(opts[0], opts[1], opts[2], opts[3]);
      AfterTwo(x, y, Present(opts[0]), Present(opts[1]), Present(opts[2]), Present(opts[3]));
    }
    forall k | 2 <= k < |r|
      ensures rank(r[k]) < 4 && opts[rank(r[k])] == Some(r[k])
    {
      assert r[k] == extra[k - 2];
      var p :| 0 <= p < 4 && opts[p] == Some(r[k]);
    }
    forall k, l | 2 <= k < l < |r|
      ensures rank(r[k]) < rank(r[l])
    {
      assert r[k] == extra[k - 2] && r[l] == extra[l - 2];
    }
  }

  /** What the manifest loop collects: for each prefix, the last stripped line starting with it;
      so each present entry has the rank of its key. */
  lemma KeptOfLines(lines: seq<string>)
    ensures forall p | 0 <= p < 4 :: Kept(InfoOf(lines))[p] == LastWith(lines, Prefixes[p])
    ensures Ranked(InfoOf(lines))
  {
    var opts := Kept(InfoOf(lines));
    forall p | 0 <= p < 4 && opts[p].Some?
      ensures PrefixRank(opts[p].value) == p
    {
      RankOf(opts[p].value, p);
    }
  }

  /** The descriptor's lines, from the stripped manifest lines: the URL line, the size line, then
      for each of the four prefixes in order, and only for those some line starts with, the last
      such line. */
  lemma JadLinesSpec(url: string, fileSize: nat, lines: seq<string>)
    ensures var r := JadLines(url, fileSize, InfoOf(lines));
      && r[0] == "MIDlet-Jar-URL: " + url
      && r[1] == "MIDlet-Jar-Size: " + Decimal(fileSize)
      && (forall k | 2 <= k < |r| :: PrefixRank(r[k]) < 4
            && Some(r[k]) == LastWith(lines, Prefixes[PrefixRank(r[k])]))
      && (forall k, l | 2 <= k < l < |r| :: PrefixRank(r[k]) < PrefixRank(r[l]))
      && (forall p | 0 <= p < 4 :: LastWith(lines, Prefixes[p]).Some? ==>
            LastWith(lines, Prefixes[p]).value in r[2..])
  {
    KeptOfLines(lines);
    InfoLinesInOrder("MIDlet-Jar-URL: " + url, "MIDlet-Jar-Size: " + Decimal(fileSize), InfoOf(lines), PrefixRank);
  }

  /** Every character of the stripped text is a character of the text. */
  lemma StripInside(s: string)
    ensures forall c | c in Strip(s) :: c in s
  {
    var l := LStrip(s);
    assert forall c | c in RStrip(l) :: c in l;
    assert forall c | c in l :: c in s;
  }

  /** Removing a pattern adds no character. */
  lemma {:induction false} RemoveAllInside(s: string, pattern: string)
    requires pattern != []
    ensures forall c | c in RemoveAll(s, pattern) :: c in s
    decreases |s|
  {
    if |s| < |pattern| {
    } else if s[..|pattern|] == pattern {
      RemoveAllInside(s[|pattern|..], pattern);
    } else {
      RemoveAllInside(s[1..], pattern);
    }
  }

  /** When the manifest lines hold no "\n", only the URL line can, and every line after the
      first two is non-empty. */
  lemma JadLinesNoNewline(url: string, fileSize: nat, lines: seq<string>)
    requires forall i | 0 <= i < |lines| :: '\n' !in lines[i]
    ensures var r := JadLines(url, fileSize, InfoOf(lines));
      forall k | 1 <= k < |r| :: r[k] != [] && '\n' !in r[k]
    ensures '\n' !in url ==> '\n' !in JadLines(url, fileSize, InfoOf(lines))[0]
  {
    var r := JadLines(url, fileSize, InfoOf(lines));
    JadLinesSpec(url, fileSize, lines);
    forall k | 2 <= k < |r|
      ensures r[k] != [] && '\n' !in r[k]
    {
      LastWithIsLast(lines, Prefixes[PrefixRank(r[k])]);
    }
    var d := Decimal(fileSize);
    assert '\n' !in r[1] by {
      assert forall i | 0 <= i < |r[1]| :: r[1][i] == ("MIDlet-Jar-Size: " + d)[i];
    }
    if '\n' !in url {
      assert forall i | 0 <= i < |r[0]| :: r[0][i] == ("MIDlet-Jar-URL: " + url)[i];
    }
  }

  /** The URL holds a "\n" only if the custom URL or the file name does. */
  lemma JarUrlNoNewline(fileName: string, useCustomUrl: bool, customUrl: string)
    requires '\n' !in customUrl && '\n' !in fileName
    ensures '\n' !in JarUrl(fileName, useCustomUrl, customUrl)
  {
    if useCustomUrl && Strip(customUrl) != [] {
      StripInside(customUrl);
    } else {
      RemoveAllInside(fileName, ".jar");
    }
  }

  /** Joined, the descriptor lines built from lines without "\n" do not end with a "\n". */
  lemma JoinedLinesEnd(url: string, fileSize: nat, lines: seq<string>)
    requires forall i | 0 <= i < |lines| :: '\n' !in lines[i]
    ensures var c := Join(JadLines(url, fileSize, InfoOf(lines)), "\n");
      c != [] && c[|c| - 1] != '\n'
  {
    var r := JadLines(url, fileSize, InfoOf(lines));
    JadLinesNoNewline(url, fileSize, lines);
    JoinEndsWithLast(r, "\n");
    var c := Join(r, "\n");
    var last := r[|r| - 1];
    assert c[|c| - 1] == last[|last| - 1];
  }

  /** The descriptor text does not end with a "\n". */
  lemma JadContentEnd(fileName: string, fileSize: nat, manifest: string, useCustomUrl: bool, customUrl: string)
    ensures var c := JadContent(fileName, fileSize, manifest, useCustomUrl, customUrl);
      c != [] && c[|c| - 1] != '\n'
  {
    JoinedLinesEnd(JarUrl(fileName, useCustomUrl, customUrl), fileSize, ManifestLines(manifest));
  }

  /** Joined, the descriptor lines built from a URL and lines without "\n" split back into
      themselves. */
  lemma JoinedLinesSplit(url: string, fileSize: nat, lines: seq<string>)
    requires '\n' !in url
    requires forall i | 0 <= i < |lines| :: '\n' !in lines[i]
    ensures var r := JadLines(url, fileSize, InfoOf(lines));
      Split(Join(r, "\n"), '\n') == r
  {
    var r := JadLines(url, fileSize, InfoOf(lines));
    JadLinesNoNewline(url, fileSize, lines);
    assert forall i | 0 <= i < |r| :: '\n' !in r[i];
    SplitOfJoin(r, '\n');
  }

  /** When the custom URL and the file name hold no "\n", the descriptor text splits at its
      "\n"s into exactly its lines. */
  lemma JadContentSplit(fileName: string, fileSize: nat, manifest: string, useCustomUrl: bool, customUrl: string)
    requires '\n' !in customUrl && '\n' !in fileName
    ensures Split(JadContent(fileName, fileSize, manifest, useCustomUrl, customUrl), '\n') ==
      JadLines(JarUrl(fileName, useCustomUrl, customUrl), fileSize, InfoOf(ManifestLines(manifest)))
  {
    JarUrlNoNewline(fileName, useCustomUrl, customUrl);
    JoinedLinesSplit(JarUrl(fileName, useCustomUrl, customUrl), fileSize, ManifestLines(manifest));
  }

  /** The lines of the descriptor in the order create_jad_content appends them. */
  method BuildJadLines(url: string, fileSize: nat, info: Info) returns (lines: seq<string>)
    ensures lines == JadLines(url, fileSize, info)
  {
    lines := ["MIDlet-Jar-URL: " + url];
    lines := lines + ["MIDlet-Jar-Size: " + Decimal(fileSize)];
    lines := AppendIfPresent(lines, info.name);
    lines := AppendIfPresent(lines, info.version);
    lines := AppendIfPresent(lines, info.vendor);
    lines := AppendIfPresent(lines, info.category);
  }

  /** create_jad_content's body, with the custom-URL settings passed in. */
  method BuildJadContent(fileName: string, fileSize: nat, manifest: string, useCustomUrl: bool, customUrl: string)
    returns (content: string)
    ensures content == JadContent(fileName, fileSize, manifest, useCustomUrl, customUrl)
  {
    var url: string;
    if useCustomUrl && Strip(customUrl) != [] {
      url := Strip(customUrl);
    } else {
      url := RemoveAll(fileName, ".jar") + ".jar";
    }
    var info := ExtractInfo(Split(manifest, '\n'));
    assert url == JarUrl(fileName, useCustomUrl, customUrl);
    assert ManifestLines(manifest) == Stripped(Split(manifest, '\n'));
    var jadLines := BuildJadLines(url, fileSize, info);
    content := Join(jadLines, "\n");
  }

  /** `if key in info: jad_lines.append(info[key])`. */
  method AppendIfPresent(lines: seq<string>, entry: Option<string>) returns (r: seq<string>)
    ensures r == lines + Present(entry)
  {
    r := lines;
    if entry.Some? {
      r := r + [entry.value];
    }
  }

  // ---------------------------------------------------------------------------------------
  // The application
  // ---------------------------------------------------------------------------------------

  /** The state of the JAD creator window that its operations read and write: the chosen JAR,
      the built descriptor and the custom-URL switch and text. */
  class JadCreatorApp {
    var jarFilePath: Option<string>
    var jadContent: string
    var useCustomUrl: bool
    var customUrl: string

    constructor ()
      ensures jarFilePath == None && jadContent == "" && !useCustomUrl && customUrl == ""
    {
      jarFilePath := None;
      jadContent := "";
      useCustomUrl := false;
      customUrl := "";
    }

    /** create_jad_content: builds the descriptor of the JAR `fileName` of `fileSize` bytes
        from its manifest text. */
    method CreateJadContent(fileName: string, fileSize: nat, manifest: string)
      modifies this
      ensures jadContent == JadContent(fileName, fileSize, manifest, useCustomUrl, customUrl)
      ensures jarFilePath == old(jarFilePath) && useCustomUrl == old(useCustomUrl) && customUrl == old(customUrl)
    {
      jadContent := BuildJadContent(fileName, fileSize, manifest, useCustomUrl, customUrl);
    }

    /** process_jar_file for the chosen JAR, given its size and its members' names and decoded
        texts: builds the descriptor, or reports that the manifest is missing or empty and
        leaves the descriptor as it was. */
    method ProcessJarFile(fileSize: nat, names: seq<string>, contents: map<string, string>)
      returns (err: Option<JadError>)
      requires jarFilePath.Some?
      requires forall i | 0 <= i < |names| :: names[i] in contents
      modifies this
      ensures jarFilePath == old(jarFilePath) && useCustomUrl == old(useCustomUrl) && customUrl == old(customUrl)
      ensures err.None? <==> ExtractManifest(names, contents).Some? && ExtractManifest(names, contents).value != ""
      ensures err.Some? ==> err.value == ManifestNotFound && jadContent == old(jadContent)
      ensures err.None? ==>
        ExtractManifest(names, contents).Some? &&
        jadContent == JadContent(Basename(jarFilePath.value), fileSize, ExtractManifest(names, contents).value, useCustomUrl, customUrl)
    {
      var fileName := Basename(jarFilePath.value);
      var manifest := ExtractManifest(names, contents);
      if manifest.None? || manifest.value == "" {
        return Some(ManifestNotFound);
      }
      CreateJadContent(fileName, fileSize, manifest.value);
      return None;
    }

    /** select_file with the chosen path: an empty path (a cancelled dialog) does nothing; a path
        that fails the checks is refused and changes nothing; otherwise it becomes the chosen
        JAR and is processed. */
    method SelectFile(path: string, fileSize: nat, names: seq<string>, contents: map<string, string>)
      returns (err: Option<JadError>)
      requires forall i | 0 <= i < |names| :: names[i] in contents
      modifies this
      ensures useCustomUrl == old(useCustomUrl) && customUrl == old(customUrl)
      ensures path == [] ==> err.None? && jarFilePath == old(jarFilePath) && jadContent == old(jadContent)
      ensures path != [] && CheckPath(path).Some? ==>
        err == CheckPath(path) && jarFilePath == old(jarFilePath) && jadContent == old(jadContent)
      ensures path != [] && CheckPath(path).None? ==> jarFilePath == Some(path)
      ensures path != [] && CheckPath(path).None? && err.None? ==>
        ExtractManifest(names, contents).Some? &&
        jadContent == JadContent(Basename(path), fileSize, ExtractManifest(names, contents).value, useCustomUrl, customUrl)
      ensures path != [] && CheckPath(path).None? && err.Some? ==> err == Some(ManifestNotFound) && jadContent == old(jadContent)
    {
      if path == [] {
        return None;
      }
      err := CheckPath(path);
      if err.Some? {
        return;
      }
      jarFilePath := Some(path);
      err := ProcessJarFile(fileSize, names, contents);
    }

    /** regenerate_jad: rebuilds the descriptor of the chosen JAR, if there is one. */
    method RegenerateJad(fileSize: nat, names: seq<string>, contents: map<string, string>)
      returns (err: Option<JadError>)
      requires forall i | 0 <= i < |names| :: names[i] in contents
      modifies this
      ensures jarFilePath == old(jarFilePath) && useCustomUrl == old(useCustomUrl) && customUrl == old(customUrl)
      ensures jarFilePath.None? ==> err.None? && jadContent == old(jadContent)
      ensures jarFilePath.Some? && err.None? ==>
        ExtractManifest(names, contents).Some? &&
        jadContent == JadContent(Basename(jarFilePath.value), fileSize, ExtractManifest(names, contents).value, useCustomUrl, customUrl)
      ensures err.Some? ==> jadContent == old(jadContent)
    {
      err := None;
      if jarFilePath.Some? {
        err := ProcessJarFile(fileSize, names, contents);
      }
    }
  }
}
