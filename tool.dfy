/** The tool module: the command-line fragments that go into the build signature
    of the `asciidoc` and `a2x` commands, and the defaults `generate` installs. */
module Tool {
  import opened Strings
  import opened ConstructionEnv
  import opened Builders
  import opened PseudoBuilders

  // ---------------------------------------------------------------------------
  // Option strings: `' '.join(flag + " " + open + x + close for x in xs)`
  // ---------------------------------------------------------------------------

  /** One option per element: the flag, a space and the element wrapped verbatim,
      without escaping. */
  function Items(flag: string, open: string, close: string, xs: seq<string>): (r: seq<string>)
    ensures |r| == |xs|
    ensures forall k :: 0 <= k < |xs| ==> r[k] == flag + " " + open + xs[k] + close
  {
    seq(|xs|, k requires 0 <= k < |xs| => flag + " " + open + xs[k] + close)
  }

  /** The options joined by single spaces. */
  function OptionString(flag: string, open: string, close: string, xs: seq<string>): string {
    JoinWith(Items(flag, open, close, xs), ' ')
  }

  /** The words a shell would see: the flag, then the wrapped element, per element. */
  function Words(flag: string, open: string, close: string, xs: seq<string>): seq<string>
    decreases |xs|
  {
    if |xs| == 0 then [] else [flag, open + xs[0] + close] + Words(flag, open, close, xs[1..])
  }

  /** Two words per element, in list order. */
  lemma {:induction false} WordsSpec(flag: string, open: string, close: string, xs: seq<string>)
    ensures var w := Words(flag, open, close, xs);
      && |w| == 2 * |xs|
      && forall k :: 0 <= k < |xs| ==> w[2 * k] == flag && w[2 * k + 1] == open + xs[k] + close
    decreases |xs|
  {
    if |xs| > 0 {
      WordsSpec(flag, open, close, xs[1..]);
      var w := Words(flag, open, close, xs);
      var rest := Words(flag, open, close, xs[1..]);
      forall k | 1 <= k < |xs|
        ensures w[2 * k] == flag && w[2 * k + 1] == open + xs[k] + close
      {
        assert w[2 * k] == rest[2 * (k - 1)];
        assert w[2 * k + 1] == rest[2 * (k - 1) + 1];
        assert xs[1..][k - 1] == xs[k];
      }
    }
  }

  /** Joining the options is joining their words. */
  lemma {:induction false} OptionStringWords(flag: string, open: string, close: string, xs: seq<string>)
    ensures OptionString(flag, open, close, xs) == JoinWith(Words(flag, open, close, xs), ' ')
    decreases |xs|
  {
    if |xs| > 0 {
      var items := Items(flag, open, close, xs);
      var w := open + xs[0] + close;
      var rest := Words(flag, open, close, xs[1..]);
      assert items[0] == flag + [' '] + w;
      assert JoinWith([w] + rest, ' ') == if |rest| == 0 then w else w + [' '] + JoinWith(rest, ' ') by {
        assert ([w] + rest)[1..] == rest;
      }
      assert Words(flag, open, close, xs)[1..] == [w] + rest;
      if |xs| > 1 {
        OptionStringWords(flag, open, close, xs[1..]);
        assert items[1..] == Items(flag, open, close, xs[1..]);
        WordsSpec(flag, open, close, xs[1..]);
      } else {
        assert rest == [];
      }
    }
  }

  /** The round trip of the signature fragment: when neither the flag, the
      wrapping nor any element holds a space, splitting the string at spaces gives
      back each flag followed by its wrapped element. */
  lemma OptionStringSplit(flag: string, open: string, close: string, xs: seq<string>)
    requires |xs| > 0
    requires ' ' !in flag && ' ' !in open && ' ' !in close
    requires forall k :: 0 <= k < |xs| ==> ' ' !in xs[k]
    ensures Split(OptionString(flag, open, close, xs), ' ') == Words(flag, open, close, xs)
  {
    var w := Words(flag, open, close, xs);
    OptionStringWords(flag, open, close, xs);
    WordsSpec(flag, open, close, xs);
    forall i | 0 <= i < |w| ensures ' ' !in w[i] {
      var k := i / 2;
      if i % 2 == 0 {
        assert i == 2 * k;
      } else {
        assert i == 2 * k + 1;
        assert w[i] == open + xs[k] + close;
      }
    }
    SplitJoin(w, ' ');
  }

  /** No elements give the empty string; otherwise the string is not empty. */
  lemma OptionStringEmpty(flag: string, open: string, close: string, xs: seq<string>)
    ensures OptionString(flag, open, close, xs) == "" <==> |xs| == 0
  {
    if |xs| > 0 {
      OptionStringWords(flag, open, close, xs);
      var rest := Words(flag, open, close, xs);
      assert |JoinWith(rest, ' ')| > 0 by {
        WordsSpec(flag, open, close, xs);
        assert rest[0] == flag && |rest| >= 2;
      }
    }
  }

  /** The options of two lists are the options of each, separated by one space. */
  lemma OptionStringAppend(flag: string, open: string, close: string, xs: seq<string>, ys: seq<string>)
    requires |xs| > 0 && |ys| > 0
    ensures OptionString(flag, open, close, xs + ys)
      == OptionString(flag, open, close, xs) + " " + OptionString(flag, open, close, ys)
  {
    var a := Items(flag, open, close, xs);
    var b := Items(flag, open, close, ys);
    assert Items(flag, open, close, xs + ys) == a + b;
    JoinAppend(a, b, ' ');
  }

  lemma {:induction false} JoinAppend(a: seq<string>, b: seq<string>, sep: char)
    requires |a| > 0 && |b| > 0
    ensures JoinWith(a + b, sep) == JoinWith(a, sep) + [sep] + JoinWith(b, sep)
    decreases |a|
  {
    if |a| > 1 {
      JoinAppend(a[1..], b, sep);
      assert (a + b)[1..] == a[1..] + b;
    } else {
      assert (a + b)[1..] == b;
    }
  }

  // ---------------------------------------------------------------------------
  // The six signature generators
  // ---------------------------------------------------------------------------

  /** `_gen_ad_conf_str`: `-f c` per configuration file. */
  function GenAdConfStr(env: Env): (r: string)
    ensures r == "" <==> |env.adConfFiles| == 0
  {
    OptionStringEmpty("-f", "", "", env.adConfFiles);
    OptionString("-f", "", "", env.adConfFiles)
  }

  /** `_gen_ad_attr_str`: `-a "a"` per attribute. */
  function GenAdAttrStr(env: Env): (r: string)
    ensures r == "" <==> |env.adAttributes| == 0
  {
    OptionStringEmpty("-a", "\"", "\"", env.adAttributes);
    OptionString("-a", "\"", "\"", env.adAttributes)
  }

  /** `_gen_a2x_conf_str`: `--conf-file=f`, or nothing when no file is set. */
  function GenA2xConfStr(env: Env): (r: string)
    ensures r == "" <==> env.a2xConfFile == ""
    ensures r != "" ==> StartsWith(r, "--conf-file=") && r[|"--conf-file="|..] == env.a2xConfFile
  {
    if env.a2xConfFile != "" then "--conf-file=" + env.a2xConfFile else ""
  }

  /** `_gen_a2x_attr_str`: `-a "a"` per attribute. */
  function GenA2xAttrStr(env: Env): (r: string)
    ensures r == "" <==> |env.a2xAttributes| == 0
  {
    OptionStringEmpty("-a", "\"", "\"", env.a2xAttributes);
    OptionString("-a", "\"", "\"", env.a2xAttributes)
  }

  /** `_gen_a2x_res_str`: `-r "r"` per resource. */
  function GenA2xResStr(env: Env): (r: string)
    ensures r == "" <==> |env.a2xResources| == 0
  {
    OptionStringEmpty("-r", "\"", "\"", env.a2xResources);
    OptionString("-r", "\"", "\"", env.a2xResources)
  }

  /** `_gen_a2x_resman_str`: `-m path`, or nothing when no manifest is set. */
  function GenA2xResmanStr(env: Env): (r: string)
    ensures r == "" <==> env.a2xResourceManifest == ""
    ensures r != "" ==> StartsWith(r, "-m ") && r[|"-m "|..] == env.a2xResourceManifest
  {
    if env.a2xResourceManifest != "" then "-m " + env.a2xResourceManifest else ""
  }

  /** Each configuration file reaches the command line as `-f` and the file, in order. */
  lemma AdConfStrWords(env: Env)
    requires |env.adConfFiles| > 0
    requires forall k :: 0 <= k < |env.adConfFiles| ==> ' ' !in env.adConfFiles[k]
    ensures var w := Split(GenAdConfStr(env), ' ');
      && |w| == 2 * |env.adConfFiles|
      && forall k :: 0 <= k < |env.adConfFiles| ==> w[2 * k] == "-f" && w[2 * k + 1] == env.adConfFiles[k]
  {
    var xs := env.adConfFiles;
    OptionStringSplit("-f", "", "", xs);
    WordsSpec("-f", "", "", xs);
    forall k | 0 <= k < |xs| ensures "" + xs[k] + "" == xs[k] {
    }
  }

  /** Each AsciiDoc attribute reaches the command line as `-a` and the attribute
      in double quotes, in order. */
  lemma AdAttrStrWords(env: Env)
    requires |env.adAttributes| > 0
    requires forall k :: 0 <= k < |env.adAttributes| ==> ' ' !in env.adAttributes[k]
    ensures var w := Split(GenAdAttrStr(env), ' ');
      && |w| == 2 * |env.adAttributes|
      && forall k :: 0 <= k < |env.adAttributes| ==>
           w[2 * k] == "-a" && w[2 * k + 1] == "\"" + env.adAttributes[k] + "\""
  {
    OptionStringSplit("-a", "\"", "\"", env.adAttributes);
    WordsSpec("-a", "\"", "\"", env.adAttributes);
  }

  /** Each a2x attribute reaches the command line as `-a` and the attribute in
      double quotes, in order. */
  lemma A2xAttrStrWords(env: Env)
    requires |env.a2xAttributes| > 0
    requires forall k :: 0 <= k < |env.a2xAttributes| ==> ' ' !in env.a2xAttributes[k]
    ensures var w := Split(GenA2xAttrStr(env), ' ');
      && |w| == 2 * |env.a2xAttributes|
      && forall k :: 0 <= k < |env.a2xAttributes| ==>
           w[2 * k] == "-a" && w[2 * k + 1] == "\"" + env.a2xAttributes[k] + "\""
  {
    OptionStringSplit("-a", "\"", "\"", env.a2xAttributes);
    WordsSpec("-a", "\"", "\"", env.a2xAttributes);
  }

  /** Each resource reaches the command line as `-r` and the resource in double
      quotes, in order. */
  lemma A2xResStrWords(env: Env)
    requires |env.a2xResources| > 0
    requires forall k :: 0 <= k < |env.a2xResources| ==> ' ' !in env.a2xResources[k]
    ensures var w := Split(GenA2xResStr(env), ' ');
      && |w| == 2 * |env.a2xResources|
      && forall k :: 0 <= k < |env.a2xResources| ==>
           w[2 * k] == "-r" && w[2 * k + 1] == "\"" + env.a2xResources[k] + "\""
  {
    OptionStringSplit("-r", "\"", "\"", env.a2xResources);
    WordsSpec("-r", "\"", "\"", env.a2xResources);
  }

  /** A single element is wrapped verbatim, spaces and quotes included. */
  lemma OptionStringSingle(flag: string, open: string, close: string, x: string)
    ensures OptionString(flag, open, close, [x]) == flag + " " + open + x + close
  {
  }

  // ---------------------------------------------------------------------------
  // The defaults of `generate`
  // ---------------------------------------------------------------------------

  /** The construction variables `generate` sets, matching the defaults of
      asciidoc(1) and a2x(1). */
  const DEFAULTS: Env := Env(
    adBackend := "html",
    adDoctype := "article",
    adConfFiles := [],
    adAttributes := [],
    a2xFormat := "pdf",
    a2xDoctype := "article",
    a2xConfFile := "",
    a2xAttributes := [],
    a2xResources := [],
    a2xResourceManifest := "",
    a2xKeepArtifacts := true
  )

  /** The defaults pass both pseudo-builders' checks. */
  lemma DefaultsAreValid()
    ensures AdValidate(DEFAULTS) == Pass
    ensures A2xValidate(DEFAULTS) == Pass
  {
  }

  /** Under the defaults every signature fragment is empty. */
  lemma DefaultsGiveEmptyOptions()
    ensures GenAdConfStr(DEFAULTS) == "" && GenAdAttrStr(DEFAULTS) == ""
    ensures GenA2xConfStr(DEFAULTS) == "" && GenA2xAttrStr(DEFAULTS) == ""
    ensures GenA2xResStr(DEFAULTS) == "" && GenA2xResmanStr(DEFAULTS) == ""
  {
  }

  /** Under the defaults the targets get the `.html` and `.pdf` suffixes. */
  lemma DefaultSuffixes(sources: seq<string>)
    ensures GenAdSuffix(DEFAULTS, sources) == Some(".html")
    ensures GenA2xSuffix(DEFAULTS, sources) == Some(".pdf")
  {
  }
}
