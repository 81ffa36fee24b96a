/** The AsciiDoc and A2X pseudo-builders: option validation, the extra
    dependencies (configuration files and a2x resources) and the files removed
    with an a2x target on clean. */
module PseudoBuilders {
  import opened Strings
  import opened Paths
  import opened ConstructionEnv
  import opened Builders

  // ---------------------------------------------------------------------------
  // Valid values of the backend, format and doctype construction variables
  // ---------------------------------------------------------------------------

  const AD_VALID_BACKENDS: set<string> := {
    "docbook45", "docbook", "xhtml11", "html", "html4", "html5", "slidy", "wordpress", "latex"
  }

  const A2X_VALID_FORMATS: set<string> := {
    "chunked", "docbook", "dvi", "epub", "htmlhelp", "manpage", "pdf", "ps", "tex", "text", "xhtml"
  }

  const VALID_DOCTYPES: set<string> := {"article", "manpage", "book"}

  /** The checks `asciidoc_builder` makes before it runs the builder, in order:
      the backend, then the doctype, then `book` only with a docbook backend. */
  function AdValidate(env: Env): (r: Outcome)
    ensures r == Pass <==>
      && env.adBackend in AD_VALID_BACKENDS
      && env.adDoctype in VALID_DOCTYPES
      && (env.adDoctype == "book" ==> Contains(env.adBackend, "docbook"))
    ensures env.adBackend !in AD_VALID_BACKENDS ==> r == Fail(InvalidAdBackend(env.adBackend))
    ensures env.adBackend in AD_VALID_BACKENDS && env.adDoctype !in VALID_DOCTYPES ==>
      r == Fail(InvalidAdDoctype(env.adDoctype))
    ensures (env.adBackend in AD_VALID_BACKENDS && env.adDoctype == "book" &&
             !Contains(env.adBackend, "docbook")) ==> r == Fail(BookNeedsDocbook)
  {
    if env.adBackend !in AD_VALID_BACKENDS then Fail(InvalidAdBackend(env.adBackend))
    else if env.adDoctype !in VALID_DOCTYPES then Fail(InvalidAdDoctype(env.adDoctype))
    else if env.adDoctype == "book" && !Contains(env.adBackend, "docbook") then Fail(BookNeedsDocbook)
    else Pass
  }

  /** The checks `a2x_builder` makes before it runs the builder, in order: the
      format, then the doctype, then the `manpage` format only with the `manpage` doctype. */
  function A2xValidate(env: Env): (r: Outcome)
    ensures r == Pass <==>
      && env.a2xFormat in A2X_VALID_FORMATS
      && env.a2xDoctype in VALID_DOCTYPES
      && (env.a2xFormat == "manpage" ==> env.a2xDoctype == "manpage")
    ensures env.a2xFormat !in A2X_VALID_FORMATS ==> r == Fail(InvalidA2xFormat(env.a2xFormat))
    ensures env.a2xFormat in A2X_VALID_FORMATS && env.a2xDoctype !in VALID_DOCTYPES ==>
      r == Fail(InvalidA2xDoctype(env.a2xDoctype))
    ensures (env.a2xFormat == "manpage" && env.a2xDoctype in VALID_DOCTYPES &&
             env.a2xDoctype != "manpage") ==> r == Fail(ManpageNeedsManpageDoctype(env.a2xDoctype))
  {
    if env.a2xFormat !in A2X_VALID_FORMATS then Fail(InvalidA2xFormat(env.a2xFormat))
    else if env.a2xDoctype !in VALID_DOCTYPES then Fail(InvalidA2xDoctype(env.a2xDoctype))
    else if env.a2xFormat == "manpage" && env.a2xDoctype != "manpage" then
      Fail(ManpageNeedsManpageDoctype(env.a2xDoctype))
    else Pass
  }

  lemma {:induction false} NoLetterNoSubstring(s: string, sub: string, ch: char)
    requires ch in sub && ch !in s
    ensures !Contains(s, sub)
  {
  }

  /** Of the valid backends, exactly `docbook` and `docbook45` contain "docbook",
      so they are the two that accept the `book` doctype. */
  lemma AdBookBackends(env: Env)
    requires env.adBackend in AD_VALID_BACKENDS && env.adDoctype == "book"
    ensures AdValidate(env) == Pass <==> env.adBackend in {"docbook", "docbook45"}
    ensures AdValidate(env) != Pass ==> AdValidate(env) == Fail(BookNeedsDocbook)
  {
    var b := env.adBackend;
    if b in {"docbook", "docbook45"} {
      assert StartsWith(b[0..], "docbook");
    } else {
      NoLetterNoSubstring(b, "docbook", 'k');
    }
  }

  /** Once validation passes, the suffix lookup of the builder cannot fail: the
      suffix tables are keyed by exactly the valid values. */
  lemma SuffixTablesCoverValidValues(env: Env, sources: seq<string>)
    ensures AD_BACKEND_SUFFIX_MAP.Keys == AD_VALID_BACKENDS
    ensures A2X_BACKEND_SUFFIX_MAP.Keys == A2X_VALID_FORMATS
    ensures AdValidate(env) == Pass ==> GenAdSuffix(env, sources).Some?
    ensures A2xValidate(env) == Pass ==> GenA2xSuffix(env, sources).Some?
  {
  }

  /** The suffix values: docbook backends give `.xml`, `latex` gives `.tex`, the
      other backends `.html`; the a2x `manpage` format adds no suffix and `xhtml` gives `.html`. */
  lemma SuffixValues(env: Env, sources: seq<string>)
    ensures env.adBackend in AD_VALID_BACKENDS ==>
      GenAdSuffix(env, sources) == Some(
        if env.adBackend in {"docbook", "docbook45"} then ".xml"
        else if env.adBackend == "latex" then ".tex"
        else ".html")
    ensures env.a2xFormat == "manpage" ==> GenA2xSuffix(env, sources) == Some("")
    ensures env.a2xFormat == "xhtml" ==> GenA2xSuffix(env, sources) == Some(".html")
    ensures env.a2xFormat == "epub" ==> GenA2xSuffix(env, sources) == Some(".epub")
  {
  }

  // ---------------------------------------------------------------------------
  // Configuration-file candidates
  // ---------------------------------------------------------------------------

  /** The document's base name without its extension. */
  function Stem(src: string): string {
    Splitext(Basename(src)).0
  }

  /** The stem is the base name without its SCons extension, and so free of
      separators. */
  lemma StemSpec(src: string)
    ensures SEP !in Stem(src)
    ensures Stem(src) + Splitext(Basename(src)).1 == Basename(src)
  {
    var b := Basename(src);
    BasenameSpec(src);
    SplitextSpec(b);
    var st := Stem(src);
    forall j | 0 <= j < |st| ensures st[j] != SEP {
      assert st[j] == (st + Splitext(b).1)[j];
    }
  }

  /** The naming rule manual pages rely on: only the last suffix that is not
      all digits is dropped, so `d/myprog.1.txt` has the stem `myprog.1`. */
  lemma StemExample(src: string)
    requires src == "d/myprog.1.txt"
    ensures Stem(src) == "myprog.1"
  {
    var head, root, ext := "d/", "myprog.1", ".txt";
    assert src == head + (root + ext);
    assert SEP !in root + ext;
    DirnameOfChild(head, root + ext);
    assert ext[1..] == "txt" && ext[1] == 't' && 't' !in "0123456789.";
    SplitextOfExtension(root, ext);
  }

  /** The AsciiDoc naming convention for configuration files. */
  function AdConfNames(backend: string, doctype: string, stem: string): seq<string> {
    [ "asciidoc.conf",
      backend + ".conf",
      backend + "-" + doctype + ".conf",
      stem + ".conf",
      stem + "-" + backend + ".conf" ]
  }

  /** The a2x naming convention, spelled as the source spells it. */
  function A2xConfNames(doctype: string, stem: string): seq<string> {
    [ "asciidoc.conf",
      "docbook.conf",
      "docbook-" + doctype + ".conf",
      stem + ".conf",
      stem + "-docbook.conf" ]
  }

  /** Each name joined to the directory `d` as the source writes it,
      `os.sep.join([d, c])`. */
  function InDir(d: string, names: seq<string>): (r: seq<string>)
    ensures |r| == |names|
    ensures forall k :: 0 <= k < |names| ==> r[k] == SepJoin(d, names[k])
  {
    seq(|names|, k requires 0 <= k < |names| => SepJoin(d, names[k]))
  }

  /** Each name joined to `d` with `os.path.join`, the corrected join. */
  function InDirJoined(d: string, names: seq<string>): (r: seq<string>)
    ensures |r| == |names|
    ensures forall k :: 0 <= k < |names| ==> r[k] == JoinPath(d, names[k])
  {
    seq(|names|, k requires 0 <= k < |names| => JoinPath(d, names[k]))
  }

  /** The candidates of `ad_add_extra_deps`: the five conventional names in the
      source's directory, then AD_CONFFILES. */
  function AdConfCandidates(env: Env, src: string): seq<string> {
    InDir(Dirname(src), AdConfNames(env.adBackend, env.adDoctype, Stem(src))) + env.adConfFiles
  }

  /** The same candidates with the corrected join. */
  function AdConfCandidatesJoined(env: Env, src: string): seq<string> {
    InDirJoined(Dirname(src), AdConfNames(env.adBackend, env.adDoctype, Stem(src))) + env.adConfFiles
  }

  /** The candidates of `a2x_add_extra_deps`: the five conventional names in the
      source's directory, then A2X_CONFFILE. */
  function A2xConfCandidates(env: Env, src: string): seq<string> {
    InDir(Dirname(src), A2xConfNames(env.a2xDoctype, Stem(src))) + [env.a2xConfFile]
  }

  /** The same candidates with the corrected join. */
  function A2xConfCandidatesJoined(env: Env, src: string): seq<string> {
    InDirJoined(Dirname(src), A2xConfNames(env.a2xDoctype, Stem(src))) + [env.a2xConfFile]
  }

  /** The a2x candidates follow the AsciiDoc scheme with `docbook` as the backend. */
  lemma A2xNamesAreDocbookNames(doctype: string, stem: string)
    ensures A2xConfNames(doctype, stem) == AdConfNames("docbook", doctype, stem)
  {
    assert "docbook" + ".conf" == "docbook.conf";
    assert "docbook" + "-" == "docbook-";
    assert "-" + "docbook" + ".conf" == "-docbook.conf";
    assert stem + "-" + "docbook" + ".conf" == stem + ("-" + "docbook" + ".conf");
  }

  /** The directory `os.sep.join([d, c])` puts a name in: `d` itself, except that
      an empty or root `d` gains a separator. */
  function SepJoinDir(d: string): string {
    if AllSeps(d) then d + [SEP] else d
  }

  /** Names joined to the source's directory as written keep their names and
      lie in `SepJoinDir` of that directory; with the corrected join they lie in
      the directory itself. */
  lemma InDirOfSource(src: string, names: seq<string>)
    requires forall k :: 0 <= k < |names| ==> names[k] != "" && SEP !in names[k]
    ensures forall k :: 0 <= k < |names| ==>
      && Dirname(InDir(Dirname(src), names)[k]) == SepJoinDir(Dirname(src))
      && Basename(InDir(Dirname(src), names)[k]) == names[k]
    ensures forall k :: 0 <= k < |names| ==>
      && Dirname(InDirJoined(Dirname(src), names)[k]) == Dirname(src)
      && Basename(InDirJoined(Dirname(src), names)[k]) == names[k]
  {
    forall k | 0 <= k < |names|
      ensures Dirname(SepJoin(Dirname(src), names[k])) == SepJoinDir(Dirname(src))
      ensures Basename(SepJoin(Dirname(src), names[k])) == names[k]
      ensures Dirname(JoinPath(Dirname(src), names[k])) == Dirname(src)
      ensures Basename(JoinPath(Dirname(src), names[k])) == names[k]
    {
      SepJoinInDir(src, names[k]);
      JoinPathStaysInDir(src, names[k]);
    }
  }

  /** The five AsciiDoc names are nonempty and free of separators. */
  lemma AdConfNamesPlain(env: Env, src: string)
    requires SEP !in env.adBackend && SEP !in env.adDoctype
    ensures var names := AdConfNames(env.adBackend, env.adDoctype, Stem(src));
      forall k :: 0 <= k < |names| ==> names[k] != "" && SEP !in names[k]
  {
    StemSpec(src);
  }

  /** The five a2x names are nonempty and free of separators. */
  lemma A2xConfNamesPlain(env: Env, src: string)
    requires SEP !in env.a2xDoctype
    ensures var names := A2xConfNames(env.a2xDoctype, Stem(src));
      forall k :: 0 <= k < |names| ==> names[k] != "" && SEP !in names[k]
  {
    StemSpec(src);
  }

  /** The AsciiDoc candidates as the source computes them: the five conventional
      names, each with its name in the source's directory, except that for a
      source in the current directory (or the root) the join adds a separator
      and moves them to the root; then AD_CONFFILES unchanged. */
  lemma AdConfCandidatesInSourceDir(env: Env, src: string)
    requires SEP !in env.adBackend && SEP !in env.adDoctype
    ensures var r := AdConfCandidates(env, src);
      && |r| == 5 + |env.adConfFiles|
      && r[5..] == env.adConfFiles
      && forall k :: 0 <= k < 5 ==>
           Dirname(r[k]) == SepJoinDir(Dirname(src)) &&
           Basename(r[k]) == AdConfNames(env.adBackend, env.adDoctype, Stem(src))[k]
  {
    var names := AdConfNames(env.adBackend, env.adDoctype, Stem(src));
    AdConfNamesPlain(env, src);
    InDirOfSource(src, names);
  }

  /** With the corrected join every conventional candidate lies in the source's
      own directory and carries its conventional name. */
  lemma AdConfCandidatesJoinedInSourceDir(env: Env, src: string)
    requires SEP !in env.adBackend && SEP !in env.adDoctype
    ensures var r := AdConfCandidatesJoined(env, src);
      && |r| == 5 + |env.adConfFiles|
      && r[5..] == env.adConfFiles
      && forall k :: 0 <= k < 5 ==>
           Dirname(r[k]) == Dirname(src) &&
           Basename(r[k]) == AdConfNames(env.adBackend, env.adDoctype, Stem(src))[k]
  {
    var names := AdConfNames(env.adBackend, env.adDoctype, Stem(src));
    AdConfNamesPlain(env, src);
    InDirOfSource(src, names);
  }

  /** The a2x candidates as the source computes them, with A2X_CONFFILE last. */
  lemma A2xConfCandidatesInSourceDir(env: Env, src: string)
    requires SEP !in env.a2xDoctype
    ensures var r := A2xConfCandidates(env, src);
      && |r| == 6 && r[5] == env.a2xConfFile
      && forall k :: 0 <= k < 5 ==>
           Dirname(r[k]) == SepJoinDir(Dirname(src)) &&
           Basename(r[k]) == A2xConfNames(env.a2xDoctype, Stem(src))[k]
  {
    var names := A2xConfNames(env.a2xDoctype, Stem(src));
    A2xConfNamesPlain(env, src);
    InDirOfSource(src, names);
  }

  /** With the corrected join the a2x candidates lie in the source's own directory. */
  lemma A2xConfCandidatesJoinedInSourceDir(env: Env, src: string)
    requires SEP !in env.a2xDoctype
    ensures var r := A2xConfCandidatesJoined(env, src);
      && |r| == 6 && r[5] == env.a2xConfFile
      && forall k :: 0 <= k < 5 ==>
           Dirname(r[k]) == Dirname(src) &&
           Basename(r[k]) == A2xConfNames(env.a2xDoctype, Stem(src))[k]
  {
    var names := A2xConfNames(env.a2xDoctype, Stem(src));
    A2xConfNamesPlain(env, src);
    InDirOfSource(src, names);
  }

  /** For a source with a directory part other than the root, the join as
      written and the corrected join give the same candidates. */
  lemma AdCandidatesAsWrittenAgree(env: Env, src: string)
    requires SEP !in env.adBackend
    requires Dirname(src) != "" && !AllSeps(Dirname(src))
    ensures AdConfCandidates(env, src) == AdConfCandidatesJoined(env, src)
  {
    var d := Dirname(src);
    StemSpec(src);
    DirnameSpec(src);
    assert !EndsWith(d, [SEP]);
    AdNamesRelative(env.adBackend, env.adDoctype, Stem(src));
    JoinsAgree(d, AdConfNames(env.adBackend, env.adDoctype, Stem(src)));
  }

  /** No conventional AsciiDoc name starts with a separator. */
  lemma AdNamesRelative(backend: string, doctype: string, stem: string)
    requires SEP !in backend && SEP !in stem
    ensures forall k :: 0 <= k < 5 ==> !StartsWith(AdConfNames(backend, doctype, stem)[k], [SEP])
  {
    var names := AdConfNames(backend, doctype, stem);
    forall k | 0 <= k < 5 ensures !StartsWith(names[k], [SEP]) {
      assert names[k][0] in names[k];
    }
  }

  /** Both joins agree on relative names and a directory that is not empty and
      does not end in a separator. */
  lemma JoinsAgree(d: string, names: seq<string>)
    requires d != "" && !EndsWith(d, [SEP])
    requires forall k :: 0 <= k < |names| ==> !StartsWith(names[k], [SEP])
    ensures InDir(d, names) == InDirJoined(d, names)
  {
  }

  /** For a source in the current directory the join as written names the first
      AsciiDoc candidate in the file-system root, where the corrected join keeps
      it beside the source. */
  lemma AdCandidatesAsWrittenAtRoot(env: Env, src: string)
    requires SEP !in src
    ensures AdConfCandidates(env, src)[0] == "/asciidoc.conf"
    ensures AdConfCandidatesJoined(env, src)[0] == "asciidoc.conf"
  {
    DirnameSpec(src);
    var names := AdConfNames(env.adBackend, env.adDoctype, Stem(src));
    FirstNameInRoot(names);
    FirstNameJoinedInCurrentDir(names);
  }

  /** The same for the first a2x candidate. */
  lemma A2xCandidatesAsWrittenAtRoot(env: Env, src: string)
    requires SEP !in src
    ensures A2xConfCandidates(env, src)[0] == "/asciidoc.conf"
    ensures A2xConfCandidatesJoined(env, src)[0] == "asciidoc.conf"
  {
    DirnameSpec(src);
    var names := A2xConfNames(env.a2xDoctype, Stem(src));
    FirstNameInRoot(names);
    FirstNameJoinedInCurrentDir(names);
  }

  lemma FirstNameInRoot(names: seq<string>)
    requires |names| > 0 && names[0] == "asciidoc.conf"
    ensures InDir("", names)[0] == "/asciidoc.conf"
  {
  }

  lemma FirstNameJoinedInCurrentDir(names: seq<string>)
    requires |names| > 0 && names[0] == "asciidoc.conf"
    ensures InDirJoined("", names)[0] == "asciidoc.conf"
  {
    JoinPathSpec("", names[0]);
  }

  /** The candidates that are regular files, in candidate order. */
  function ExistingFiles(cands: seq<string>, fs: FileSystem): (r: seq<string>)
    ensures |r| <= |cands|
    decreases |cands|
  {
    if cands == [] then []
    else
      var last := cands[|cands| - 1];
      ExistingFiles(cands[..|cands| - 1], fs) + (if fs.IsFile(last) then [last] else [])
  }

  /** A path is kept exactly when it is a candidate and a regular file. */
  lemma {:induction false} ExistingFilesSpec(cands: seq<string>, fs: FileSystem, x: string)
    ensures x in ExistingFiles(cands, fs) <==> x in cands && fs.IsFile(x)
    decreases |cands|
  {
    if cands != [] {
      var last := cands[|cands| - 1];
      assert cands == cands[..|cands| - 1] + [last];
      ExistingFilesSpec(cands[..|cands| - 1], fs, x);
    }
  }

  /** The loop `for c in conf_files: if os.path.isfile(c): env.Depends(target, c)`:
      the paths it makes the target depend on. */
  method KeepExisting(cands: seq<string>, fs: FileSystem) returns (deps: seq<string>)
    ensures deps == ExistingFiles(cands, fs)
  {
    deps := [];
    var i := 0;
    while i < |cands|
      invariant i <= |cands|
      invariant deps == ExistingFiles(cands[..i], fs)
    {
      var c := cands[i];
      assert cands[..i + 1][..i] == cands[..i];
      if fs.IsFile(c) {
        deps := deps + [c];
      }
      i := i + 1;
    }
    assert cands[..i] == cands;
  }

  /** `ad_add_extra_deps`: the configuration files the target depends on. */
  method AdAddExtraDeps(env: Env, src: string, fs: FileSystem) returns (deps: seq<string>)
    ensures deps == AdExtraDeps(env, src, fs)
  {
    deps := KeepExisting(AdConfCandidates(env, src), fs);
  }

  // ---------------------------------------------------------------------------
  // Resource specs
  // ---------------------------------------------------------------------------

  /** The lookup of a resource spec, trying the spec's path as given and then
      `alt`. A spec `<file>=<destination>` must name a regular file,
      `.<ext>=<mimetype>` never names one, a bare spec may name a file or a
      directory, and a spec with two or more `=` names nothing. */
  function ResEntryWith(line: string, alt: string, fs: FileSystem): (r: seq<string>)
    ensures |r| <= 1
  {
    var parts := Split(line, '=');
    var res := parts[0];
    if |parts| == 2 then
      if StartsWith(res, ".") then []
      else if fs.IsFile(res) then [res]
      else if fs.IsFile(alt) then [alt]
      else []
    else if |parts| == 1 then
      if fs.Exists(res) then [res]
      else if fs.Exists(alt) then [alt]
      else []
    else []
  }

  /** `get_res_entry`: the resource a spec names, if it exists, looked up as
      given and then joined to the source directory `dir` as the source joins
      it, `os.sep.join([dir, res])`. */
  function GetResEntry(line: string, dir: string, fs: FileSystem): (r: seq<string>)
    ensures |r| <= 1
  {
    ResEntryWith(line, SepJoin(dir, Split(line, '=')[0]), fs)
  }

  /** `get_res_entry` with the corrected join, `os.path.join(dir, res)`. */
  function GetResEntryJoined(line: string, dir: string, fs: FileSystem): (r: seq<string>)
    ensures |r| <= 1
  {
    ResEntryWith(line, JoinPath(dir, Split(line, '=')[0]), fs)
  }

  /** What a spec yields, by the number of `=` in it: a bare spec is looked up as
      a file or directory, first as given and then in `dir`; a spec with one `=`
      must name a regular file and must not start with a dot; a spec with two or
      more `=` yields nothing. Whatever it yields exists. */
  lemma GetResEntrySpec(line: string, dir: string, fs: FileSystem)
    ensures var r := GetResEntry(line, dir, fs);
      var parts := Split(line, '=');
      var res := parts[0];
      var alt := SepJoin(dir, res);
      && (r != [] ==> r[0] == res || r[0] == alt)
      && ('=' !in line ==> (r != [] <==> fs.Exists(res) || fs.Exists(alt)))
      && ('=' !in line && fs.Exists(res) ==> r == [res])
      && (multiset(line)['='] == 1 ==>
            (r != [] <==> !StartsWith(res, ".") && (fs.IsFile(res) || fs.IsFile(alt))))
      && (multiset(line)['='] == 1 && !StartsWith(res, ".") && fs.IsFile(res) ==> r == [res])
      && (multiset(line)['='] >= 2 ==> r == [])
      && (forall p :: p in r ==> fs.Exists(p))
  {
    SplitSpec(line, '=');
    assert '=' !in line ==> multiset(line)['='] == 0;
  }

  /** The three forms of a spec. A mimetype mapping `.<ext>=<mimetype>` names
      nothing, a `<file>=<destination>` spec whose file is not a regular file
      (a directory, say), neither as given nor in `dir`, names nothing, and a
      bare spec naming an existing path names that path as given. */
  lemma ResEntryForms(res: string, dst: string, dir: string, fs: FileSystem)
    requires '=' !in res && '=' !in dst
    ensures StartsWith(res, ".") ==> GetResEntry(res + "=" + dst, dir, fs) == []
    ensures !fs.IsFile(res) && !fs.IsFile(SepJoin(dir, res)) ==> GetResEntry(res + "=" + dst, dir, fs) == []
    ensures fs.Exists(res) ==> GetResEntry(res, dir, fs) == [res]
  {
    SplitAfterPiece(res, dst, '=');
    SplitNoSep(dst, '=');
    SplitNoSep(res, '=');
  }

  /** For a source in the current directory a bare resource name missing there
      is looked up in the file-system root as written, while the corrected
      join looks nowhere else. */
  lemma GetResEntryAtRoot(res: string, fs: FileSystem)
    requires '=' !in res
    ensures GetResEntry(res, "", fs) ==
      if fs.Exists(res) then [res] else if fs.Exists([SEP] + res) then [[SEP] + res] else []
    ensures GetResEntryJoined(res, "", fs) == if fs.Exists(res) then [res] else []
  {
    SplitNoSep(res, '=');
    assert SepJoin("", res) == [SEP] + res;
    JoinPathSpec("", res);
  }

  /** With the corrected join, a bare separator-free name is found as given or
      beside the source, under its own name. */
  lemma GetResEntryJoinedBeside(res: string, src: string, fs: FileSystem)
    requires res != "" && '=' !in res && SEP !in res
    ensures var r := GetResEntryJoined(res, Dirname(src), fs);
      r != [] ==> r[0] == res || (Dirname(r[0]) == Dirname(src) && Basename(r[0]) == res)
  {
    var d := Dirname(src);
    var alt := JoinPath(d, res);
    SplitNoSep(res, '=');
    assert GetResEntryJoined(res, d, fs) == ResEntryWith(res, alt, fs);
    assert ResEntryWith(res, alt, fs) == if fs.Exists(res) then [res] else if fs.Exists(alt) then [alt] else [];
    JoinPathStaysInDir(src, res);
  }

  /** The resources `a2x_add_extra_deps` adds for a list of specs, in order. */
  function ResourceDeps(entries: seq<string>, dir: string, fs: FileSystem): (r: seq<string>)
    ensures |r| <= |entries|
    decreases |entries|
  {
    if entries == [] then []
    else ResourceDeps(entries[..|entries| - 1], dir, fs) + GetResEntry(entries[|entries| - 1], dir, fs)
  }

  /** Every resource dependency exists. */
  lemma {:induction false} ResourceDepsExist(entries: seq<string>, dir: string, fs: FileSystem, p: string)
    requires p in ResourceDeps(entries, dir, fs)
    ensures fs.Exists(p)
    decreases |entries|
  {
    if entries != [] {
      var head := ResourceDeps(entries[..|entries| - 1], dir, fs);
      if p in head {
        ResourceDepsExist(entries[..|entries| - 1], dir, fs, p);
      }
    }
  }

  /** The loop over manifest lines or A2X_RESOURCES: `env.Depends(target, resource)`
      for every spec that names an existing resource. */
  method CollectResources(entries: seq<string>, dir: string, fs: FileSystem) returns (deps: seq<string>)
    ensures deps == ResourceDeps(entries, dir, fs)
  {
    deps := [];
    var i := 0;
    while i < |entries|
      invariant i <= |entries|
      invariant deps == ResourceDeps(entries[..i], dir, fs)
    {
      assert entries[..i + 1][..i] == entries[..i];
      var resource := GetResEntry(entries[i], dir, fs);
      if resource != [] {
        deps := deps + resource;
      }
      i := i + 1;
    }
    assert entries[..i] == entries;
  }

  /** What `a2x_add_extra_deps` makes a target depend on: the existing
      configuration files, then the resources of the manifest's lines (read as
      they are, line terminators included), then those of A2X_RESOURCES. A named
      manifest that cannot be read is an error. */
  function A2xExtraDeps(env: Env, src: string, fs: FileSystem, manifest: Option<seq<string>>): (r: Result<seq<string>>)
    ensures r.Err? <==> env.a2xResourceManifest != "" && manifest.None?
    ensures r.Err? ==> r.error == ManifestUnreadable(env.a2xResourceManifest)
  {
    var d := Dirname(src);
    if env.a2xResourceManifest != "" && manifest.None? then Err(ManifestUnreadable(env.a2xResourceManifest))
    else
      var fromManifest := if env.a2xResourceManifest != "" then ResourceDeps(manifest.value, d, fs) else [];
      Ok(ExistingFiles(A2xConfCandidates(env, src), fs) + fromManifest + ResourceDeps(env.a2xResources, d, fs))
  }

  /** Only paths that exist become dependencies of an a2x target. */
  lemma A2xExtraDepsExist(env: Env, src: string, fs: FileSystem, manifest: Option<seq<string>>, p: string)
    requires A2xExtraDeps(env, src, fs, manifest).Ok?
    requires p in A2xExtraDeps(env, src, fs, manifest).value
    ensures fs.Exists(p)
  {
    var d := Dirname(src);
    var conf := ExistingFiles(A2xConfCandidates(env, src), fs);
    if p in conf {
      ExistingFilesSpec(A2xConfCandidates(env, src), fs, p);
    } else if env.a2xResourceManifest != "" && p in ResourceDeps(manifest.value, d, fs) {
      ResourceDepsExist(manifest.value, d, fs, p);
    } else {
      ResourceDepsExist(env.a2xResources, d, fs, p);
    }
  }

  /** `a2x_add_extra_deps`; `manifest` is the list of lines of the file named by
      A2X_RESOURCEMANIFEST, or None when it cannot be opened. */
  method A2xAddExtraDeps(env: Env, src: string, fs: FileSystem, manifest: Option<seq<string>>)
    returns (r: Result<seq<string>>)
    ensures r == A2xExtraDeps(env, src, fs, manifest)
  {
    var d := Dirname(src);
    var conf := KeepExisting(A2xConfCandidates(env, src), fs);
    var fromManifest: seq<string> := [];
    if env.a2xResourceManifest != "" {
      if manifest.None? {
        return Err(ManifestUnreadable(env.a2xResourceManifest));
      }
      fromManifest := CollectResources(manifest.value, d, fs);
    }
    var fromOption := CollectResources(env.a2xResources, d, fs);
    r := Ok(conf + fromManifest + fromOption);
  }

  // ---------------------------------------------------------------------------
  // The pseudo-builders
  // ---------------------------------------------------------------------------

  datatype AdRegistration = AdRegistration(targets: seq<string>, deps: seq<Dep>)

  /** What `ad_add_extra_deps` makes a target depend on: the candidates that are
      regular files, in candidate order. */
  function AdExtraDeps(env: Env, src: string, fs: FileSystem): seq<string> {
    ExistingFiles(AdConfCandidates(env, src), fs)
  }

  /** The dependencies registered for the first `n` pairs: target `targets[k]`
      on each path of `lists[k]`, pair by pair. */
  function PairDeps(targets: seq<string>, lists: seq<seq<string>>, n: nat): seq<Dep>
    requires n <= |targets| && n <= |lists|
  {
    if n == 0 then [] else PairDeps(targets, lists, n - 1) + DepsOn(targets[n - 1], lists[n - 1])
  }

  /** Registering the dependencies of one more pair extends the registrations. */
  lemma PairDepsAppend(targets: seq<string>, lists: seq<seq<string>>, n: nat, deps: seq<Dep>, more: seq<string>)
    requires n < |targets| && n < |lists|
    requires deps == PairDeps(targets, lists, n) && more == lists[n]
    ensures deps + DepsOn(targets[n], more) == PairDeps(targets, lists, n + 1)
  {
  }

  /** A registration of `PairDeps` ties one of the first `n` targets to one of the
      paths listed for it. */
  lemma {:induction false} PairDepsSound(targets: seq<string>, lists: seq<seq<string>>, n: nat, dep: Dep)
    requires n <= |targets| && n <= |lists|
    requires dep in PairDeps(targets, lists, n)
    ensures exists k :: 0 <= k < n && dep.target == targets[k] && dep.prerequisite in lists[k]
  {
    var head := PairDeps(targets, lists, n - 1);
    if dep in head {
      PairDepsSound(targets, lists, n - 1, dep);
      var k :| 0 <= k < n - 1 && dep.target == targets[k] && dep.prerequisite in lists[k];
      assert 0 <= k < n;
    } else {
      var ps := lists[n - 1];
      var j :| 0 <= j < |ps| && DepsOn(targets[n - 1], ps)[j] == dep;
      assert dep.prerequisite in lists[n - 1];
    }
  }

  /** Each path listed for one of the first `n` targets is registered for it. */
  lemma {:induction false} PairDepsComplete(targets: seq<string>, lists: seq<seq<string>>, n: nat, k: nat, p: string)
    requires n <= |targets| && n <= |lists| && k < n && p in lists[k]
    ensures Dep(targets[k], p) in PairDeps(targets, lists, n)
  {
    if k == n - 1 {
      var j :| 0 <= j < |lists[k]| && lists[k][j] == p;
      assert DepsOn(targets[k], lists[k])[j] == Dep(targets[k], p);
    } else {
      PairDepsComplete(targets, lists, n - 1, k, p);
    }
  }

  /** `PairDeps` registers target `t` on `p` exactly when `t` is one of the first
      `n` targets and `p` is listed for it. */
  lemma PairDepsMember(targets: seq<string>, lists: seq<seq<string>>, n: nat, t: string, p: string)
    requires n <= |targets| && n <= |lists|
    ensures Dep(t, p) in PairDeps(targets, lists, n) <==>
      exists k :: 0 <= k < n && t == targets[k] && p in lists[k]
  {
    if Dep(t, p) in PairDeps(targets, lists, n) {
      PairDepsSound(targets, lists, n, Dep(t, p));
    }
    if exists k :: 0 <= k < n && t == targets[k] && p in lists[k] {
      var k :| 0 <= k < n && t == targets[k] && p in lists[k];
      PairDepsComplete(targets, lists, n, k, p);
    }
  }

  /** `PairDeps` reads only the first `n` targets. */
  lemma {:induction false} PairDepsPrefix(t1: seq<string>, t2: seq<string>, lists: seq<seq<string>>, n: nat)
    requires n <= |t1| && n <= |t2| && n <= |lists|
    requires forall k :: 0 <= k < n ==> t1[k] == t2[k]
    ensures PairDeps(t1, lists, n) == PairDeps(t2, lists, n)
  {
    if n > 0 {
      PairDepsPrefix(t1, t2, lists, n - 1);
      assert t1[n - 1] == t2[n - 1];
    }
  }

  /** The AsciiDoc extra dependencies of each source, in source order. */
  function AdExtraDepsAll(env: Env, sources: seq<string>, fs: FileSystem): (r: seq<seq<string>>)
    ensures |r| == |sources|
  {
    seq(|sources|, k requires 0 <= k < |sources| => AdExtraDeps(env, sources[k], fs))
  }

  function Min(a: nat, b: nat): nat {
    if a <= b then a else b
  }

  /** What `asciidoc_builder` registers for the builder's targets `r`, or the
      validation error it raises first. */
  function AsciidocBuilderSpec(env: Env, r: seq<string>, sources: seq<string>, fs: FileSystem): Result<AdRegistration> {
    match AdValidate(env)
    case Fail(e) => Err(e)
    case Pass => Ok(AdRegistration(r, PairDeps(r, AdExtraDepsAll(env, sources, fs), Min(|r|, |sources|))))
  }

  /** `asciidoc_builder` makes target `t` depend on `p` exactly when `t` is the
      target of one of the `izip` pairs and `p` is one of that pair's source's
      configuration candidates that is a regular file. */
  lemma AsciidocDepsAreFiles(env: Env, r: seq<string>, sources: seq<string>, fs: FileSystem, t: string, p: string)
    requires AsciidocBuilderSpec(env, r, sources, fs).Ok?
    ensures Dep(t, p) in AsciidocBuilderSpec(env, r, sources, fs).value.deps <==>
      exists k :: 0 <= k < Min(|r|, |sources|) && t == r[k] && p in AdConfCandidates(env, sources[k]) && fs.IsFile(p)
  {
    var lists := AdExtraDepsAll(env, sources, fs);
    var n := Min(|r|, |sources|);
    PairDepsMember(r, lists, n, t, p);
    if Dep(t, p) in AsciidocBuilderSpec(env, r, sources, fs).value.deps {
      var k :| 0 <= k < n && t == r[k] && p in lists[k];
      ExistingFilesSpec(AdConfCandidates(env, sources[k]), fs, p);
    }
    if exists k :: 0 <= k < n && t == r[k] && p in AdConfCandidates(env, sources[k]) && fs.IsFile(p) {
      var k :| 0 <= k < n && t == r[k] && p in AdConfCandidates(env, sources[k]) && fs.IsFile(p);
      ExistingFilesSpec(AdConfCandidates(env, sources[k]), fs, p);
      assert p in lists[k];
    }
  }

  /** `lists` holds the AsciiDoc extra dependencies of each source. */
  predicate AdListsFor(env: Env, sources: seq<string>, fs: FileSystem, lists: seq<seq<string>>) {
    && |lists| == |sources|
    && forall k {:trigger AdExtraDeps(env, sources[k], fs)} :: 0 <= k < |sources| ==>
         lists[k] == AdExtraDeps(env, sources[k], fs)
  }

  lemma AdExtraDepsAllFor(env: Env, sources: seq<string>, fs: FileSystem)
    ensures AdListsFor(env, sources, fs, AdExtraDepsAll(env, sources, fs))
  {
  }

  /** The `izip` loop of `asciidoc_builder`. */
  method AdRegisterPairs(env: Env, r: seq<string>, sources: seq<string>, fs: FileSystem,
                         ghost lists: seq<seq<string>>)
    returns (deps: seq<Dep>)
    requires AdListsFor(env, sources, fs, lists)
    ensures deps == PairDeps(r, lists, Min(|r|, |sources|))
  {
    deps := [];
    var i := 0;
    while i < |r| && i < |sources|
      invariant i <= |r| && i <= |sources|
      invariant deps == PairDeps(r, lists, i)
    {
      var more := AdAddExtraDeps(env, sources[i], fs);
      PairDepsAppend(r, lists, i, deps, more);
      deps := deps + DepsOn(r[i], more);
      i := i + 1;
    }
  }

  /** `asciidoc_builder`: validate, then add the configuration-file dependencies
      of each target, pairing targets with sources as `izip` does. */
  method AsciidocBuilder(env: Env, r: seq<string>, sources: seq<string>, fs: FileSystem)
    returns (res: Result<AdRegistration>)
    ensures res == AsciidocBuilderSpec(env, r, sources, fs)
  {
    var v := AdValidate(env);
    if v.Fail? {
      return Err(v.error);
    }
    ghost var lists := AdExtraDepsAll(env, sources, fs);
    AdExtraDepsAllFor(env, sources, fs);
    var deps := AdRegisterPairs(env, r, sources, fs, lists);
    res := Ok(AdRegistration(r, deps));
  }

  /** The stylesheet an xhtml conversion writes beside the target, joined as
      the source joins it, `os.sep.join([fpath, 'docbook-xsl.css'])`. */
  function CssFile(t: string): string {
    SepJoin(Dirname(t), "docbook-xsl.css")
  }

  /** The stylesheet path with the corrected join. */
  function CssFileJoined(t: string): string {
    JoinPath(Dirname(t), "docbook-xsl.css")
  }

  /** As written, the stylesheet lies in the target's directory, but in the
      root for a target in the current directory (or the root). */
  lemma CssFileBesideTarget(t: string)
    ensures Dirname(CssFile(t)) == SepJoinDir(Dirname(t))
    ensures Basename(CssFile(t)) == "docbook-xsl.css"
  {
    SepJoinInDir(t, "docbook-xsl.css");
  }

  /** With the corrected join the stylesheet lies in the target's own directory. */
  lemma CssFileJoinedBesideTarget(t: string)
    ensures Dirname(CssFileJoined(t)) == Dirname(t)
    ensures Basename(CssFileJoined(t)) == "docbook-xsl.css"
  {
    JoinPathStaysInDir(t, "docbook-xsl.css");
  }

  /** For a target in the current directory the stylesheet is `/docbook-xsl.css`
      as written, and `docbook-xsl.css` with the corrected join. */
  lemma CssFileAtRoot(t: string)
    requires SEP !in t
    ensures CssFile(t) == "/docbook-xsl.css"
    ensures CssFileJoined(t) == "docbook-xsl.css"
  {
    CssFileInCurrentDir(t);
    CssFileJoinedInCurrentDir(t);
  }

  lemma CssFileInCurrentDir(t: string)
    requires SEP !in t
    ensures CssFile(t) == "/docbook-xsl.css"
  {
    DirnameSpec(t);
  }

  lemma CssFileJoinedInCurrentDir(t: string)
    requires SEP !in t
    ensures CssFileJoined(t) == "docbook-xsl.css"
  {
    DirnameSpec(t);
    JoinPathSpec("", "docbook-xsl.css");
  }

  /** The files `a2x_builder` removes together with target `t` on clean. */
  function CleanupFiles(env: Env, t: string, glob: string -> seq<string>): (r: seq<string>)
    ensures |r| >= 1 && r[0] == t
    ensures env.a2xKeepArtifacts ==> |r| >= 2 && r[1] == Splitext(t).0 + ".xml"
    ensures env.a2xFormat in {"docbook", "dvi", "manpage", "pdf", "ps", "tex"} ==>
      r == if env.a2xKeepArtifacts then [t, Splitext(t).0 + ".xml"] else [t]
    ensures env.a2xFormat in {"epub", "htmlhelp", "text"} && !env.a2xKeepArtifacts ==> r == [t]
    ensures env.a2xFormat == "xhtml" ==> r[|r| - 1] == CssFile(t)
  {
    var fmt := env.a2xFormat;
    var keep := env.a2xKeepArtifacts;
    var base := Splitext(t).0;
    var start := if keep then [t, base + ".xml"] else [t];
    start +
      if fmt == "chunked" then glob(SepJoin(t, "*"))
      else if fmt == "epub" && keep then [base + ".epub.d"] + glob(SepJoin(base + ".epub.d", "*"))
      else if fmt == "htmlhelp" && keep then
        [base + ".hhc", base + ".htmlhelp"] + glob(SepJoin(base + ".htmlhelp", "*"))
      else if fmt == "text" && keep then [t + ".html"]
      else if fmt == "xhtml" then [CssFile(t)]
      else []
  }

  /** What each format adds after the target and its kept `.xml` artifact, and
      nothing else: the directory listing of a chunked target, the epub work
      directory and its listing, the htmlhelp project, contents file and listing,
      the html rendering of a text target, and the stylesheet of an xhtml target. */
  lemma CleanupFormatExtras(env: Env, t: string, glob: string -> seq<string>)
    ensures var base, keep := Splitext(t).0, env.a2xKeepArtifacts;
      var start := if keep then [t, base + ".xml"] else [t];
      var r := CleanupFiles(env, t, glob);
      && (env.a2xFormat == "chunked" ==> r == start + glob(t + "/*"))
      && (env.a2xFormat == "epub" && keep ==> r == start + [base + ".epub.d"] + glob(base + ".epub.d/*"))
      && (env.a2xFormat == "htmlhelp" && keep ==>
            r == start + [base + ".hhc", base + ".htmlhelp"] + glob(base + ".htmlhelp/*"))
      && (env.a2xFormat == "text" && keep ==> r == start + [t + ".html"])
      && (env.a2xFormat == "xhtml" ==> r == start + [CssFile(t)])
  {
    var base := Splitext(t).0;
    assert SepJoin(t, "*") == t + "/*";
    assert SepJoin(base + ".epub.d", "*") == base + ".epub.d/*";
    assert SepJoin(base + ".htmlhelp", "*") == base + ".htmlhelp/*";
    var start := if env.a2xKeepArtifacts then [t, base + ".xml"] else [t];
    assert start + [base + ".epub.d"] + glob(base + ".epub.d/*")
        == start + ([base + ".epub.d"] + glob(base + ".epub.d/*"));
    assert start + [base + ".hhc", base + ".htmlhelp"] + glob(base + ".htmlhelp/*")
        == start + ([base + ".hhc", base + ".htmlhelp"] + glob(base + ".htmlhelp/*"));
  }

  datatype A2xRegistration = A2xRegistration(targets: seq<string>, deps: seq<Dep>, cleans: seq<CleanEntry>)

  /** The css file appended to the target list for an xhtml target. */
  function CssFor(env: Env, t: string): seq<string> {
    if env.a2xFormat == "xhtml" then [CssFile(t)] else []
  }

  /** The a2x extra dependencies of each source, in source order. */
  function A2xExtraDepsAll(env: Env, sources: seq<string>, fs: FileSystem, manifest: Option<seq<string>>)
    : (r: seq<Result<seq<string>>>)
    ensures |r| == |sources|
  {
    seq(|sources|, k requires 0 <= k < |sources| => A2xExtraDeps(env, sources[k], fs, manifest))
  }

  /** `lists` holds the a2x extra dependencies of each source. */
  predicate A2xListsFor(env: Env, sources: seq<string>, fs: FileSystem, manifest: Option<seq<string>>,
                        lists: seq<Result<seq<string>>>) {
    && |lists| == |sources|
    && forall k {:trigger A2xExtraDeps(env, sources[k], fs, manifest)} :: 0 <= k < |sources| ==>
         lists[k] == A2xExtraDeps(env, sources[k], fs, manifest)
  }

  lemma A2xExtraDepsAllFor(env: Env, sources: seq<string>, fs: FileSystem, manifest: Option<seq<string>>)
    ensures A2xListsFor(env, sources, fs, manifest, A2xExtraDepsAll(env, sources, fs, manifest))
  {
  }

  /** `CleanupFiles` as a function of the target. */
  function CleanupOf(env: Env, glob: string -> seq<string>): string -> seq<string> {
    t => CleanupFiles(env, t, glob)
  }

  /** `CssFor` as a function of the target. */
  function CssOf(env: Env): string -> seq<string> {
    t => CssFor(env, t)
  }

  /** The loop of `a2x_builder` from pair `i` on, with what it has registered so
      far: it walks `izip(r, source)` while `r` grows, and stops at `docbook`;
      `lists[i]` is what `a2x_add_extra_deps` yields for the `i`-th source,
      `cleanup(t)` the files removed with target `t`, `css(t)` what it appends to
      the targets. The first `n0` targets are the builder's nodes; a later one
      is a string appended by the loop, which has no `path`: reaching it fails
      once its extra dependencies are looked up. */
  function A2xLoop(env: Env, lists: seq<Result<seq<string>>>, cleanup: string -> seq<string>,
                   css: string -> seq<string>, n0: nat, i: nat, acc: A2xRegistration): Result<A2xRegistration>
    decreases |lists| - i
  {
    if i >= |acc.targets| || i >= |lists| || env.a2xFormat == "docbook" then Ok(acc)
    else
      var t := acc.targets[i];
      match lists[i]
      case Err(e) => Err(e)
      case Ok(ps) =>
        if i >= n0 then Err(TargetNotANode(t))
        else
          A2xLoop(env, lists, cleanup, css, n0, i + 1,
            A2xRegistration(acc.targets + css(t), acc.deps + DepsOn(t, ps),
                            acc.cleans + [CleanEntry(t, cleanup(t))]))
  }

  /** What `a2x_builder` registers for the builder's targets `r`, or the error it raises. */
  function A2xBuilderSpec(env: Env, r: seq<string>, sources: seq<string>, fs: FileSystem,
                          manifest: Option<seq<string>>, glob: string -> seq<string>): Result<A2xRegistration> {
    match A2xValidate(env)
    case Fail(e) => Err(e)
    case Pass => A2xLoop(env, A2xExtraDepsAll(env, sources, fs, manifest), CleanupOf(env, glob), CssOf(env), |r|, 0, A2xRegistration(r, [], []))
  }

  /** The cleanup list of target `t`, built as `a2x_builder` builds it, and the
      stylesheet it appends to the targets for xhtml. */
  method A2xCleanup(env: Env, t: string, glob: string -> seq<string>)
    returns (cleanupFiles: seq<string>, css: seq<string>)
    ensures cleanupFiles == CleanupFiles(env, t, glob)
    ensures css == CssFor(env, t)
  {
    var keep := env.a2xKeepArtifacts;
    var fmt := env.a2xFormat;
    var fbasename := Splitext(t).0;
    cleanupFiles := if keep then [t, fbasename + ".xml"] else [t];
    css := [];
    if fmt == "chunked" {
      cleanupFiles := cleanupFiles + glob(SepJoin(t, "*"));
    } else if fmt == "epub" && keep {
      var epubDir := fbasename + ".epub.d";
      cleanupFiles := cleanupFiles + [epubDir];
      cleanupFiles := cleanupFiles + glob(SepJoin(epubDir, "*"));
    } else if fmt == "htmlhelp" && keep {
      var htmlDir := fbasename + ".htmlhelp";
      cleanupFiles := cleanupFiles + [fbasename + ".hhc"];
      cleanupFiles := cleanupFiles + [htmlDir];
      cleanupFiles := cleanupFiles + glob(SepJoin(htmlDir, "*"));
    } else if fmt == "text" && keep {
      cleanupFiles := cleanupFiles + [t + ".html"];
    } else if fmt == "xhtml" {
      var cssFile := SepJoin(Dirname(t), "docbook-xsl.css");
      cleanupFiles := cleanupFiles + [cssFile];
      css := [cssFile];
    }
  }

  /** The `izip` loop of `a2x_builder`; the targets grow by the xhtml
      stylesheets, and reaching one of them fails at `t.path`. */
  method A2xRegisterPairs(env: Env, r0: seq<string>, sources: seq<string>, fs: FileSystem,
                          manifest: Option<seq<string>>, glob: string -> seq<string>,
                          ghost lists: seq<Result<seq<string>>>)
    returns (res: Result<A2xRegistration>)
    requires A2xListsFor(env, sources, fs, manifest, lists)
    ensures res == A2xLoop(env, lists, CleanupOf(env, glob), CssOf(env), |r0|, 0, A2xRegistration(r0, [], []))
  {
    ghost var init := A2xRegistration(r0, [], []);
    var r := r0;
    var deps: seq<Dep> := [];
    var cleans: seq<CleanEntry> := [];
    var i := 0;
    while i < |r| && i < |sources|
      invariant i <= |sources|
      invariant A2xLoop(env, lists, CleanupOf(env, glob), CssOf(env), |r0|, i, A2xRegistration(r, deps, cleans))
             == A2xLoop(env, lists, CleanupOf(env, glob), CssOf(env), |r0|, 0, init)
      decreases |sources| - i
    {
      if env.a2xFormat == "docbook" {
        break;
      }
      var t, s := r[i], sources[i];
      var more := A2xAddExtraDeps(env, s, fs, manifest);
      if more.Err? {
        return Err(more.error);
      }
      if i >= |r0| {
        return Err(TargetNotANode(t));
      }
      deps := deps + DepsOn(t, more.value);
      var cleanupFiles, css := A2xCleanup(env, t, glob);
      r := r + css;
      cleans := cleans + [CleanEntry(t, cleanupFiles)];
      i := i + 1;
    }
    res := Ok(A2xRegistration(r, deps, cleans));
  }

  /** `a2x_builder`: validate, then for each target/source pair add the extra
      dependencies and register the files to clean; an xhtml target's stylesheet
      is appended to the returned targets. */
  method A2xBuilder(env: Env, r0: seq<string>, sources: seq<string>, fs: FileSystem,
                    manifest: Option<seq<string>>, glob: string -> seq<string>)
    returns (res: Result<A2xRegistration>)
    ensures res == A2xBuilderSpec(env, r0, sources, fs, manifest, glob)
  {
    var v := A2xValidate(env);
    if v.Fail? {
      return Err(v.error);
    }
    ghost var lists := A2xExtraDepsAll(env, sources, fs, manifest);
    A2xExtraDepsAllFor(env, sources, fs, manifest);
    res := A2xRegisterPairs(env, r0, sources, fs, manifest, glob, lists);
  }

  // ---------------------------------------------------------------------------
  // What the a2x loop registers
  // ---------------------------------------------------------------------------

  /** The invariant of the a2x loop over its registrations: each of the pairs
      handled so far gave its target a clean entry with that target's cleanup
      list, and the targets are the `n0` the builder returned followed, when the
      loop `grows` them, by what each handled target appended, in turn. */
  predicate A2xCleansShaped(cleanup: string -> seq<string>, css: string -> seq<string>, grows: bool,
                            n0: nat, reg: A2xRegistration) {
    && |reg.cleans| <= |reg.targets|
    && (forall k :: 0 <= k < |reg.cleans| ==>
          reg.cleans[k] == CleanEntry(reg.targets[k], cleanup(reg.targets[k])))
    && (grows ==>
          && |reg.targets| == n0 + |reg.cleans|
          && forall j :: n0 <= j < |reg.targets| ==> css(reg.targets[j - n0]) == [reg.targets[j]])
    && (!grows ==> |reg.targets| == n0)
  }

  /** One handled pair keeps the invariant of the a2x loop. */
  lemma A2xShapedStep(cleanup: string -> seq<string>, css: string -> seq<string>, grows: bool, n0: nat,
                      acc: A2xRegistration, t: string, ps: seq<string>)
    requires forall t :: |css(t)| == if grows then 1 else 0
    requires A2xCleansShaped(cleanup, css, grows, n0, acc)
    requires |acc.cleans| < |acc.targets| && t == acc.targets[|acc.cleans|]
    ensures A2xCleansShaped(cleanup, css, grows, n0,
      A2xRegistration(acc.targets + css(t), acc.deps + DepsOn(t, ps), acc.cleans + [CleanEntry(t, cleanup(t))]))
  {
    var next := A2xRegistration(acc.targets + css(t), acc.deps + DepsOn(t, ps),
                                acc.cleans + [CleanEntry(t, cleanup(t))]);
    assert |css(t)| == if grows then 1 else 0;
    forall k | 0 <= k < |next.cleans|
      ensures next.cleans[k] == CleanEntry(next.targets[k], cleanup(next.targets[k]))
    {
      assert next.targets[k] == acc.targets[k];
    }
    if grows {
      forall j | n0 <= j < |next.targets| ensures css(next.targets[j - n0]) == [next.targets[j]] {
        assert next.targets[j - n0] == acc.targets[j - n0];
        if j < |acc.targets| {
          assert next.targets[j] == acc.targets[j];
        } else {
          assert css(t) == [next.targets[j]];
        }
      }
    }
  }

  /** The a2x loop from pair `i` on keeps that invariant and the targets it
      started with, and when it succeeds it has handled as many pairs as the
      shorter of the builder's `n0` targets and the sources. A target appends
      one path (xhtml) or none. */
  lemma {:induction false} A2xLoopShape(env: Env, lists: seq<Result<seq<string>>>, cleanup: string -> seq<string>,
                                        css: string -> seq<string>, grows: bool, n0: nat, i: nat, acc: A2xRegistration)
    requires env.a2xFormat != "docbook"
    requires forall t :: |css(t)| == if grows then 1 else 0
    requires i == |acc.cleans| && i <= |lists| && i <= n0
    requires A2xCleansShaped(cleanup, css, grows, n0, acc)
    ensures var res := A2xLoop(env, lists, cleanup, css, n0, i, acc);
      res.Ok? ==>
        && A2xCleansShaped(cleanup, css, grows, n0, res.value)
        && acc.targets <= res.value.targets
        && |res.value.cleans| == Min(n0, |lists|)
    decreases |lists| - i
  {
    if i < |acc.targets| && i < |lists| {
      var t := acc.targets[i];
      match lists[i]
      case Err(_) =>
      case Ok(ps) =>
        if i < n0 {
          var next := A2xRegistration(acc.targets + css(t), acc.deps + DepsOn(t, ps),
                                      acc.cleans + [CleanEntry(t, cleanup(t))]);
          A2xShapedStep(cleanup, css, grows, n0, acc, t, ps);
          A2xLoopShape(env, lists, cleanup, css, grows, n0, i + 1, next);
          assert A2xLoop(env, lists, cleanup, css, n0, i, acc) == A2xLoop(env, lists, cleanup, css, n0, i + 1, next);
        }
    }
  }

  /** A docbook conversion registers nothing: the loop breaks on its first pair. */
  lemma A2xDocbookRegistersNothing(env: Env, r: seq<string>, sources: seq<string>, fs: FileSystem,
                                   manifest: Option<seq<string>>, glob: string -> seq<string>)
    requires A2xValidate(env) == Pass && env.a2xFormat == "docbook"
    ensures A2xBuilderSpec(env, r, sources, fs, manifest, glob) == Ok(A2xRegistration(r, [], []))
  {
  }

  /** What `a2x_builder` registers when it succeeds, for any format but docbook:
      one clean entry per pair of `izip` over the builder's targets and the
      sources, holding that target's cleanup list; the builder's targets
      unchanged, except that xhtml appends the stylesheet of each handled
      target, in order. */
  lemma A2xBuilderCleans(env: Env, r: seq<string>, sources: seq<string>, fs: FileSystem,
                         manifest: Option<seq<string>>, glob: string -> seq<string>)
    requires A2xBuilderSpec(env, r, sources, fs, manifest, glob).Ok? && env.a2xFormat != "docbook"
    ensures var reg := A2xBuilderSpec(env, r, sources, fs, manifest, glob).value;
      && r <= reg.targets
      && |reg.cleans| == Min(|r|, |sources|)
      && (forall k :: 0 <= k < |reg.cleans| ==>
            reg.cleans[k] == CleanEntry(r[k], CleanupFiles(env, r[k], glob)))
      && (env.a2xFormat != "xhtml" ==> reg.targets == r)
      && (env.a2xFormat == "xhtml" ==>
            && |reg.targets| == |r| + |reg.cleans|
            && forall j :: |r| <= j < |reg.targets| ==> reg.targets[j] == CssFile(r[j - |r|]))
  {
    var grows := env.a2xFormat == "xhtml";
    var reg := A2xBuilderSpec(env, r, sources, fs, manifest, glob).value;
    A2xLoopShape(env, A2xExtraDepsAll(env, sources, fs, manifest), CleanupOf(env, glob), CssOf(env),
                 grows, |r|, 0, A2xRegistration(r, [], []));
    assert r <= reg.targets;
    forall k | 0 <= k < |reg.cleans| ensures reg.cleans[k] == CleanEntry(r[k], CleanupFiles(env, r[k], glob)) {
      assert reg.targets[k] == r[k];
    }
    if grows {
      forall j | |r| <= j < |reg.targets| ensures reg.targets[j] == CssFile(r[j - |r|]) {
        assert CssOf(env)(reg.targets[j - |r|]) == [reg.targets[j]];
        assert reg.targets[j - |r|] == r[j - |r|];
      }
    } else {
      assert |reg.targets| == |r|;
    }
  }

  /** The path lists of the extra-dependency lookups, with a failed lookup as
      the empty list. */
  function OkValues(lists: seq<Result<seq<string>>>): seq<seq<string>> {
    seq(|lists|, k requires 0 <= k < |lists| => if lists[k].Ok? then lists[k].value else [])
  }

  /** What the a2x loop registers: when it succeeds, every handled pair's
      target on each of that pair's extra dependencies, pair by pair, which are
      the first `Min(n0, |lists|)` pairs unless the format is docbook, where the
      loop breaks at once. */
  lemma A2xLoopDeps(env: Env, lists: seq<Result<seq<string>>>, cleanup: string -> seq<string>,
                    css: string -> seq<string>, n0: nat, i: nat, acc: A2xRegistration)
    requires i <= n0 && n0 <= |acc.targets| && i <= |lists|
    requires acc.deps == PairDeps(acc.targets, OkValues(lists), i)
    ensures var res := A2xLoop(env, lists, cleanup, css, n0, i, acc);
      res.Ok? ==>
        res.value.deps == PairDeps(acc.targets, OkValues(lists),
                                   if env.a2xFormat == "docbook" then i else Min(n0, |lists|))
  {
    if env.a2xFormat == "docbook" {
      A2xLoopStops(env, lists, cleanup, css, n0, i, acc);
    } else {
      A2xLoopDepsFrom(env, lists, OkValues(lists), cleanup, css, n0, Min(n0, |lists|), i, acc);
    }
  }

  /** The induction behind `A2xLoopDeps` for a format that is not docbook, with
      `vals[k]` the paths of every successful lookup `lists[k]`: from pair `i`
      on, the loop registers the pairs up to `m`. */
  lemma {:induction false} A2xLoopDepsFrom(env: Env, lists: seq<Result<seq<string>>>, vals: seq<seq<string>>,
                                           cleanup: string -> seq<string>, css: string -> seq<string>,
                                           n0: nat, m: nat, i: nat, acc: A2xRegistration)
    requires env.a2xFormat != "docbook"
    requires i <= n0 && n0 <= |acc.targets| && i <= |lists| && |vals| == |lists| && m == Min(n0, |lists|)
    requires forall k :: 0 <= k < |lists| && lists[k].Ok? ==> vals[k] == lists[k].value
    requires acc.deps == PairDeps(acc.targets, vals, i)
    ensures var res := A2xLoop(env, lists, cleanup, css, n0, i, acc);
      res.Ok? ==> res.value.deps == PairDeps(acc.targets, vals, m)
    decreases |lists| - i
  {
    if i >= |acc.targets| || i >= |lists| || lists[i].Err? || i >= n0 {
      A2xLoopStops(env, lists, cleanup, css, n0, i, acc);
    } else {
      var t := acc.targets[i];
      var ps := lists[i].value;
      var next := A2xRegistration(acc.targets + css(t), acc.deps + DepsOn(t, ps),
                                  acc.cleans + [CleanEntry(t, cleanup(t))]);
      A2xLoopStep(env, lists, cleanup, css, n0, i, acc);
      PairDepsGrow(acc.targets, css(t), vals, i, m, acc.deps, ps);
      A2xLoopDepsFrom(env, lists, vals, cleanup, css, n0, m, i + 1, next);
    }
  }

  /** A pass of the a2x loop that stops or fails registers nothing more. */
  lemma A2xLoopStops(env: Env, lists: seq<Result<seq<string>>>, cleanup: string -> seq<string>,
                     css: string -> seq<string>, n0: nat, i: nat, acc: A2xRegistration)
    requires i <= n0 && n0 <= |acc.targets| && i <= |lists|
    requires i >= |acc.targets| || i >= |lists| || env.a2xFormat == "docbook" || lists[i].Err? || i >= n0
    ensures var res := A2xLoop(env, lists, cleanup, css, n0, i, acc);
      res.Ok? ==> res.value == acc && (env.a2xFormat != "docbook" ==> Min(n0, |lists|) == i)
  {
  }

  /** One pass of the a2x loop that neither stops nor fails. */
  lemma A2xLoopStep(env: Env, lists: seq<Result<seq<string>>>, cleanup: string -> seq<string>,
                    css: string -> seq<string>, n0: nat, i: nat, acc: A2xRegistration)
    requires i < |acc.targets| && i < |lists| && i < n0
    requires env.a2xFormat != "docbook" && lists[i].Ok?
    ensures var t := acc.targets[i];
      A2xLoop(env, lists, cleanup, css, n0, i, acc) ==
      A2xLoop(env, lists, cleanup, css, n0, i + 1,
              A2xRegistration(acc.targets + css(t), acc.deps + DepsOn(t, lists[i].value),
                              acc.cleans + [CleanEntry(t, cleanup(t))]))
  {
  }

  /** Registering pair `i` while the targets grow at the end keeps the
      registrations of the first `i + 1` pairs, and of the first `m`. */
  lemma PairDepsGrow(targets: seq<string>, more: seq<string>, vals: seq<seq<string>>, i: nat, m: nat,
                     deps: seq<Dep>, ps: seq<string>)
    requires i < |targets| && i < |vals| && m <= |targets| && m <= |vals|
    requires deps == PairDeps(targets, vals, i) && vals[i] == ps
    ensures deps + DepsOn(targets[i], ps) == PairDeps(targets + more, vals, i + 1)
    ensures PairDeps(targets, vals, m) == PairDeps(targets + more, vals, m)
  {
    var grown := targets + more;
    assert forall k :: 0 <= k < |targets| ==> targets[k] == grown[k];
    PairDepsPrefix(targets, grown, vals, i);
    PairDepsPrefix(targets, grown, vals, m);
    PairDepsAppend(grown, vals, i, deps, ps);
  }

  /** When `a2x_builder` succeeds, it makes target `t` depend on `p` exactly
      when the format is not docbook, `t` is the target of one of the `izip`
      pairs over the builder's targets, and `p` is one of that pair's source's
      extra dependencies; every such `p` exists. */
  lemma A2xDepsExist(env: Env, r: seq<string>, sources: seq<string>, fs: FileSystem,
                     manifest: Option<seq<string>>, glob: string -> seq<string>, t: string, p: string)
    requires A2xBuilderSpec(env, r, sources, fs, manifest, glob).Ok?
    ensures var reg := A2xBuilderSpec(env, r, sources, fs, manifest, glob).value;
      && (Dep(t, p) in reg.deps <==>
            env.a2xFormat != "docbook" &&
            exists k :: 0 <= k < Min(|r|, |sources|) && t == r[k] &&
              A2xExtraDeps(env, sources[k], fs, manifest).Ok? &&
              p in A2xExtraDeps(env, sources[k], fs, manifest).value)
      && (Dep(t, p) in reg.deps ==> fs.Exists(p))
  {
    var lists := A2xExtraDepsAll(env, sources, fs, manifest);
    var vals := OkValues(lists);
    var n := if env.a2xFormat == "docbook" then 0 else Min(|r|, |sources|);
    A2xLoopDeps(env, lists, CleanupOf(env, glob), CssOf(env), |r|, 0, A2xRegistration(r, [], []));
    PairDepsMember(r, vals, n, t, p);
    var reg := A2xBuilderSpec(env, r, sources, fs, manifest, glob).value;
    assert reg.deps == PairDeps(r, vals, n);
    if Dep(t, p) in reg.deps {
      var k :| 0 <= k < n && t == r[k] && p in vals[k];
      assert lists[k] == A2xExtraDeps(env, sources[k], fs, manifest);
      A2xExtraDepsExist(env, sources[k], fs, manifest, p);
    }
    if env.a2xFormat != "docbook" &&
       exists k :: 0 <= k < Min(|r|, |sources|) && t == r[k] &&
         A2xExtraDeps(env, sources[k], fs, manifest).Ok? &&
         p in A2xExtraDeps(env, sources[k], fs, manifest).value {
      var k :| 0 <= k < Min(|r|, |sources|) && t == r[k] &&
        A2xExtraDeps(env, sources[k], fs, manifest).Ok? &&
        p in A2xExtraDeps(env, sources[k], fs, manifest).value;
      assert lists[k] == A2xExtraDeps(env, sources[k], fs, manifest);
      assert p in vals[k];
    }
  }

  /** When no extra-dependency lookup fails and the loop cannot reach an
      appended target (nothing is appended, or there are no more sources than
      builder targets), the a2x loop succeeds. */
  lemma {:induction false} A2xLoopOk(env: Env, lists: seq<Result<seq<string>>>, cleanup: string -> seq<string>,
                                     css: string -> seq<string>, grows: bool, n0: nat, i: nat, acc: A2xRegistration)
    requires forall k :: i <= k < |lists| ==> lists[k].Ok?
    requires forall t :: |css(t)| == if grows then 1 else 0
    requires i == |acc.cleans| && i <= n0
    requires A2xCleansShaped(cleanup, css, grows, n0, acc)
    requires !grows || |lists| <= n0
    ensures A2xLoop(env, lists, cleanup, css, n0, i, acc).Ok?
    decreases |lists| - i
  {
    if i < |acc.targets| && i < |lists| && env.a2xFormat != "docbook" {
      var t := acc.targets[i];
      var ps := lists[i].value;
      assert i < n0;
      var next := A2xRegistration(acc.targets + css(t), acc.deps + DepsOn(t, ps),
                                  acc.cleans + [CleanEntry(t, cleanup(t))]);
      A2xShapedStep(cleanup, css, grows, n0, acc, t, ps);
      A2xLoopOk(env, lists, cleanup, css, grows, n0, i + 1, next);
    }
  }

  /** When every target appends one path and there are more sources than the
      builder's `n0` targets, the loop reaches the path the first target
      appended and fails there, unless an extra-dependency lookup fails first. */
  lemma {:induction false} A2xLoopReachesAppended(env: Env, lists: seq<Result<seq<string>>>,
                                                  cleanup: string -> seq<string>, css: string -> seq<string>,
                                                  n0: nat, i: nat, acc: A2xRegistration)
    requires env.a2xFormat != "docbook"
    requires forall k :: i <= k < |lists| ==> lists[k].Ok?
    requires forall t :: |css(t)| == 1
    requires i == |acc.cleans| && i <= n0 && 0 < n0 < |lists|
    requires A2xCleansShaped(cleanup, css, true, n0, acc) && |acc.targets| > 0
    ensures A2xLoop(env, lists, cleanup, css, n0, i, acc) == Err(TargetNotANode(css(acc.targets[0])[0]))
    decreases |lists| - i
  {
    var t := acc.targets[i];
    var ps := lists[i].value;
    if i == n0 {
      assert css(acc.targets[0]) == [acc.targets[n0]];
    } else {
      var next := A2xRegistration(acc.targets + css(t), acc.deps + DepsOn(t, ps),
                                  acc.cleans + [CleanEntry(t, cleanup(t))]);
      A2xShapedStep(cleanup, css, true, n0, acc, t, ps);
      A2xLoopReachesAppended(env, lists, cleanup, css, n0, i + 1, next);
      assert next.targets[0] == acc.targets[0];
    }
  }

  /** After validation, `a2x_builder` fails exactly when it handles a pair and
      either the named resource manifest cannot be read (the first failure) or
      an xhtml conversion has more sources than the builder returned targets,
      so that the loop reaches the stylesheet appended for the first target. */
  lemma A2xBuilderErrors(env: Env, r: seq<string>, sources: seq<string>, fs: FileSystem,
                         manifest: Option<seq<string>>, glob: string -> seq<string>)
    requires A2xValidate(env) == Pass
    ensures var res := A2xBuilderSpec(env, r, sources, fs, manifest, glob);
      var unreadable := env.a2xResourceManifest != "" && manifest.None?;
      && (res.Err? <==>
            env.a2xFormat != "docbook" && |r| > 0 && |sources| > 0 &&
            (unreadable || (env.a2xFormat == "xhtml" && |r| < |sources|)))
      && (res.Err? && unreadable ==> res.error == ManifestUnreadable(env.a2xResourceManifest))
      && (res.Err? && !unreadable ==> res.error == TargetNotANode(CssFile(r[0])))
  {
    var lists := A2xExtraDepsAll(env, sources, fs, manifest);
    var grows := env.a2xFormat == "xhtml";
    var init := A2xRegistration(r, [], []);
    if env.a2xFormat != "docbook" && |r| > 0 && |sources| > 0 {
      if env.a2xResourceManifest != "" && manifest.None? {
        assert lists[0].Err?;
      } else {
        forall k | 0 <= k < |lists| ensures lists[k].Ok? {
          assert lists[k] == A2xExtraDeps(env, sources[k], fs, manifest);
        }
        if grows && |r| < |sources| {
          A2xLoopReachesAppended(env, lists, CleanupOf(env, glob), CssOf(env), |r|, 0, init);
        } else {
          A2xLoopOk(env, lists, CleanupOf(env, glob), CssOf(env), grows, |r|, 0, init);
        }
      }
    }
  }
}
