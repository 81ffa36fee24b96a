/** The source scanner and the target-suffix tables of the AsciiDoc and A2X builders. */
module Builders {
  import opened Strings
  import opened Paths
  import opened ConstructionEnv

  // ---------------------------------------------------------------------------
  // The document scanner: `re.findall` of the two directive patterns
  //   include1{0,1}:{1,2}(.+?)\[     and     image:{1,2}(.+?)\[
  // ---------------------------------------------------------------------------

  datatype Directive = Include | Image

  /** A successful match at the start of a text: the captured path and the number
      of characters the whole match consumed (the closing `[` included). */
  datatype Found = Found(target: string, len: nat)

  function Keyword(d: Directive): string {
    match d
    case Include => "include"
    case Image => "image"
  }

  /** The directive heads the pattern accepts before the captured path. */
  function Heads(d: Directive): set<string> {
    match d
    case Include => {"include:", "include::", "include1:", "include1::"}
    case Image => {"image:", "image::"}
  }

  /** What a capture can be: non-empty, no line break (`.` does not match one),
      and no `[` after its first character (the lazy `+?` stops at the first `[`
      it can end on). */
  predicate GoodTarget(c: string) {
    |c| >= 1 && '\n' !in c && forall k :: 1 <= k < |c| ==> c[k] != '['
  }

  function OrElse(a: Option<Found>, b: Option<Found>): Option<Found> {
    if a.Some? then a else b
  }

  /** The lazy loop of `(.+?)\[` once `m` characters are captured: end on a `[`
      if one is here, otherwise take one more non-newline character. */
  function BracketFrom(u: string, m: nat): (r: Option<nat>)
    ensures r.Some? ==> m <= r.value < |u| && u[r.value] == '['
    decreases |u| - m
  {
    if m >= |u| then None
    else if u[m] == '[' then Some(m)
    else if u[m] == '\n' then None
    else BracketFrom(u, m + 1)
  }

  /** `(.+?)\[` at the start of `u`: the index of the closing `[`. */
  function LazyBracket(u: string): (r: Option<nat>)
    ensures r.Some? ==> 1 <= r.value < |u|
  {
    if |u| == 0 || u[0] == '\n' then None else BracketFrom(u, 1)
  }

  /** `(.+?)\[` at position `j` of `s`. */
  function CaptureAt(s: string, j: nat): (r: Option<Found>)
    requires j <= |s|
    ensures r.Some? ==> j < r.value.len <= |s|
  {
    match LazyBracket(s[j..])
    case None => None
    case Some(e) => Some(Found(s[j..j + e], j + e + 1))
  }

  /** `:{1,2}(.+?)\[` at position `p`: greedy, so two colons are tried before one. */
  function ColonsCapture(s: string, p: nat): (r: Option<Found>)
    requires p <= |s|
    ensures r.Some? ==> p < r.value.len <= |s|
  {
    if p + 1 < |s| && s[p] == ':' && s[p + 1] == ':' then
      OrElse(CaptureAt(s, p + 2), CaptureAt(s, p + 1))
    else if p < |s| && s[p] == ':' then CaptureAt(s, p + 1)
    else None
  }

  /** One directive pattern tried at the start of `s`, with the regular
      expression's backtracking order (`1{0,1}` greedy first). */
  function MatchAt(d: Directive, s: string): (r: Option<Found>)
    ensures r.Some? ==> 1 <= r.value.len <= |s|
  {
    match d
    case Include =>
      if StartsWith(s, "include") then
        OrElse(if 7 < |s| && s[7] == '1' then ColonsCapture(s, 8) else None, ColonsCapture(s, 7))
      else None
    case Image =>
      if StartsWith(s, "image") then ColonsCapture(s, 5) else None
  }

  /** `re.findall`: the captures of the non-overlapping matches, left to right,
      resuming after each match and one character further after each failure. */
  function FindAll(d: Directive, s: string): (r: seq<string>)
    decreases |s|
  {
    if |s| == 0 then []
    else
      match MatchAt(d, s)
      case Some(f) => [f.target] + FindAll(d, s[f.len..])
      case None => FindAll(d, s[1..])
  }

  /** `ad_src_scanner_func`: nothing for a node that is not a regular file;
      otherwise all include targets of its contents followed by all image targets. */
  function AdSrcScannerFunc(path: string, fs: FileSystem): seq<string> {
    if !fs.IsFile(path) then []
    else
      var txt := fs.files[path];
      FindAll(Include, txt) + FindAll(Image, txt)
  }

  /** `ad_scan_check`: only `.txt` nodes are scanned. */
  predicate AdScanCheck(path: string) {
    EndsWith(path, ".txt")
  }

  // ---------------------------------------------------------------------------
  // What the scanner finds
  // ---------------------------------------------------------------------------

  /** The lazy capture ends exactly at the first `[` from `m` on, provided no
      line break comes before it. */
  lemma {:induction false} BracketFromSpec(u: string, m: nat, e: nat)
    ensures BracketFrom(u, m) == Some(e) <==>
      (m <= e < |u| && u[e] == '[' && forall k :: m <= k < e ==> u[k] != '[' && u[k] != '\n')
    decreases |u| - m
  {
    if m < |u| && u[m] != '[' && u[m] != '\n' {
      BracketFromSpec(u, m + 1, e);
    }
  }

  /** Every capture is a good target, and the consumed text is the capture and its `[`. */
  lemma CaptureAtSound(s: string, j: nat)
    requires j <= |s| && CaptureAt(s, j).Some?
    ensures GoodTarget(CaptureAt(s, j).value.target)
    ensures s[j..CaptureAt(s, j).value.len] == CaptureAt(s, j).value.target + "["
  {
    var u := s[j..];
    var e := LazyBracket(u).value;
    BracketFromSpec(u, 1, e);
    var c := s[j..j + e];
    forall k | 0 <= k < |c| ensures c[k] != '\n' {
      assert c[k] == u[k];
    }
    assert s[j..j + e + 1] == c + "[";
  }

  /** A good target followed by `[` is captured whole, up to that `[`. */
  lemma CaptureAtComplete(s: string, j: nat, c: string)
    requires j <= |s| && GoodTarget(c)
    requires StartsWith(s[j..], c + "[")
    ensures CaptureAt(s, j) == Some(Found(c, j + |c| + 1))
  {
    var u := s[j..];
    assert u[..|c| + 1] == c + "[";
    forall k | 1 <= k < |c| ensures u[k] != '[' && u[k] != '\n' {
      assert u[k] == c[k];
    }
    assert u[0] == c[0];
    BracketFromSpec(u, 1, |c|);
    assert u[..|c|] == c;
    assert s[j..j + |c|] == u[..|c|];
  }

  /** Where `:{1,2}` at `p` hands over to the capture. */
  function ColonsEnd(s: string, p: nat): nat {
    if p + 1 < |s| && s[p] == ':' && s[p + 1] == ':' && CaptureAt(s, p + 2).Some? then p + 2 else p + 1
  }

  /** A successful `:{1,2}(.+?)\[` consumed one or two colons, then captured. */
  lemma ColonsCaptureSound(s: string, p: nat)
    requires p <= |s| && ColonsCapture(s, p).Some?
    ensures var j := ColonsEnd(s, p);
      && j <= |s| && CaptureAt(s, j) == ColonsCapture(s, p)
      && (s[p..j] == ":" || s[p..j] == "::")
  {
  }

  /** Every head the pattern can consume is one of `Heads`. */
  lemma HeadsForm(d: Directive, one: bool, colons: string)
    requires one ==> d == Include
    requires colons == ":" || colons == "::"
    ensures Keyword(d) + (if one then "1" else "") + colons in Heads(d)
  {
    match d
    case Include =>
      if one {
        if colons == ":" {
          assert "include" + "1" + ":" == "include1:";
        } else {
          assert "include" + "1" + "::" == "include1::";
        }
      } else {
        assert "include" + "" + ":" == "include:";
        assert "include" + "" + "::" == "include::";
      }
    case Image =>
      assert "image" + "" + ":" == "image:";
      assert "image" + "" + "::" == "image::";
  }

  /** A match consumes a directive head, a good target and the closing `[`. */
  lemma MatchAtSound(d: Directive, s: string)
    requires MatchAt(d, s).Some?
    ensures var f := MatchAt(d, s).value;
      && GoodTarget(f.target)
      && |f.target| + 1 <= f.len
      && s[..f.len - |f.target| - 1] in Heads(d)
      && s[f.len - |f.target| - 1..f.len] == f.target + "["
  {
    var f := MatchAt(d, s).value;
    var w := Keyword(d);
    var one := d == Include && 7 < |s| && s[7] == '1' && ColonsCapture(s, 8).Some?;
    var q := if one then 8 else |w|;
    var lead := if one then "1" else "";
    assert s[..q] == w + lead by {
      assert s[..|w|] == w;
      if one {
        assert s[..8] == s[..7] + [s[7]];
      }
    }
    assert ColonsCapture(s, q) == Some(f);
    ColonsCaptureSound(s, q);
    var j := ColonsEnd(s, q);
    HeadsForm(d, one, s[q..j]);
    assert s[..j] == s[..q] + s[q..j];
    CaptureAtSound(s, j);
    assert f.len - |f.target| - 1 == j;
  }

  /** `n` colons at `q`, then a good target and `[`: the colons are consumed and
      the target captured (one colon only when the target does not start with one). */
  lemma ColonsCaptureComplete(s: string, q: nat, n: nat, c: string)
    requires n == 1 || n == 2
    requires q + n <= |s| && forall k :: q <= k < q + n ==> s[k] == ':'
    requires GoodTarget(c) && StartsWith(s[q + n..], c + "[")
    requires n == 1 ==> c[0] != ':'
    ensures ColonsCapture(s, q) == Some(Found(c, q + n + |c| + 1))
  {
    CaptureAtComplete(s, q + n, c);
    assert s[q + n] == s[q + n..][..|c| + 1][0] == c[0];
  }

  /** The keyword, an optional `1` (include only), `n` colons at `q`, then a good
      target and `[`: the directive matches with exactly that target. */
  lemma MatchAtDirective(d: Directive, s: string, q: nat, n: nat, c: string)
    requires n == 1 || n == 2
    requires StartsWith(s, Keyword(d)) && q + n <= |s|
    requires q == |Keyword(d)| || (d == Include && q == 8 && s[7] == '1')
    requires forall k :: q <= k < q + n ==> s[k] == ':'
    requires GoodTarget(c) && StartsWith(s[q + n..], c + "[")
    requires n == 1 ==> c[0] != ':'
    ensures MatchAt(d, s) == Some(Found(c, q + n + |c| + 1))
  {
    ColonsCaptureComplete(s, q, n, c);
  }

  /** Colons ending a head: two when it ends in `::`, one otherwise. */
  function HeadColons(h: string): nat {
    if EndsWith(h, "::") then 2 else 1
  }

  /** The keyword, an optional `1` (include only), then `HeadColons(h)` colons. */
  predicate HeadShaped(d: Directive, h: string) {
    var w, n := Keyword(d), HeadColons(h);
    && |w| + n <= |h| && h[..|w|] == w
    && (|h| - n == |w| || (d == Include && |h| - n == 8 && h[7] == '1'))
    && forall k :: |h| - n <= k < |h| ==> h[k] == ':'
  }

  /** Every head is the keyword, an optional `1` and its colons. */
  lemma HeadShape(d: Directive, h: string)
    requires h in Heads(d)
    ensures HeadShaped(d, h)
  {
    if HeadColons(h) == 1 {
      OneColonHead(d, h);
    } else {
      TwoColonHead(d, h);
    }
  }

  // The two halves of `HeadShape`, by the number of colons.

  lemma OneColonHead(d: Directive, h: string)
    requires h in Heads(d) && !EndsWith(h, "::")
    ensures HeadShaped(d, h)
  {
  }

  lemma TwoColonHead(d: Directive, h: string)
    requires h in Heads(d) && EndsWith(h, "::")
    ensures HeadShaped(d, h)
  {
  }

  /** A text that starts with a head, then a good target and `[`, matches. */
  lemma MatchAtAfterHead(d: Directive, h: string, s: string, c: string)
    requires HeadShaped(d, h) && GoodTarget(c)
    requires HeadColons(h) == 1 ==> c[0] != ':'
    requires StartsWith(s, h) && StartsWith(s[|h|..], c + "[")
    ensures MatchAt(d, s) == Some(Found(c, |h| + |c| + 1))
  {
    var w := Keyword(d);
    var n := HeadColons(h);
    assert forall k :: 0 <= k < |h| ==> s[k] == h[k];
    assert StartsWith(s, w) by { assert s[..|w|] == h[..|w|]; }
    MatchAtDirective(d, s, |h| - n, n, c);
  }

  /** A directive head, then a good target and `[`, is matched with exactly that
      target, unless a single-colon head is followed by a further colon (which
      the greedy `:{1,2}` would take). */
  lemma MatchAtComplete(d: Directive, h: string, c: string, rest: string)
    requires h in Heads(d) && GoodTarget(c)
    requires !EndsWith(h, "::") ==> c[0] != ':'
    ensures MatchAt(d, h + c + "[" + rest) == Some(Found(c, |h| + |c| + 1))
  {
    var s := h + c + "[" + rest;
    assert s[..|h|] == h;
    assert s[|h|..] == c + "[" + rest;
    assert StartsWith(s[|h|..], c + "[") by {
      assert (c + "[" + rest)[..|c| + 1] == c + "[";
    }
    HeadShape(d, h);
    MatchAtAfterHead(d, h, s, c);
  }

  /** Every found path is a good target. */
  lemma {:induction false} FindAllGood(d: Directive, s: string)
    ensures forall k :: 0 <= k < |FindAll(d, s)| ==> GoodTarget(FindAll(d, s)[k])
    decreases |s|
  {
    if |s| > 0 {
      match MatchAt(d, s)
      case Some(f) =>
        MatchAtSound(d, s);
        FindAllGood(d, s[f.len..]);
      case None =>
        FindAllGood(d, s[1..]);
    }
  }

  /** A well-formed directive yields its target, and the scan goes on after its `[`. */
  lemma FindAllDirective(d: Directive, h: string, c: string, rest: string)
    requires h in Heads(d) && GoodTarget(c)
    requires !EndsWith(h, "::") ==> c[0] != ':'
    ensures FindAll(d, h + c + "[" + rest) == [c] + FindAll(d, rest)
  {
    var s := h + c + "[" + rest;
    MatchAtComplete(d, h, c, rest);
    assert s[|h| + |c| + 1..] == rest;
  }

  /** A text in which the directive keyword never occurs yields nothing. */
  lemma {:induction false} FindAllNoKeyword(d: Directive, s: string)
    requires forall k :: 0 <= k < |s| ==> !StartsWith(s[k..], Keyword(d))
    ensures FindAll(d, s) == []
    decreases |s|
  {
    if |s| > 0 {
      assert s[0..] == s;
      forall k | 0 <= k < |s[1..]| ensures !StartsWith(s[1..][k..], Keyword(d)) {
        assert s[1..][k..] == s[k + 1..];
      }
      FindAllNoKeyword(d, s[1..]);
    }
  }

  /** A text yields nothing exactly when the pattern matches at none of its
      positions; by `MatchAtSound` and `MatchAtComplete`, when no position
      holds a directive head followed by a good target and its `[`. */
  lemma {:induction false} FindAllEmpty(d: Directive, s: string)
    ensures FindAll(d, s) == [] <==> forall k :: 0 <= k < |s| ==> MatchAt(d, s[k..]).None?
    decreases |s|
  {
    if |s| > 0 {
      assert s[0..] == s;
      if MatchAt(d, s).None? {
        FindAllEmpty(d, s[1..]);
        forall k | 0 <= k < |s[1..]| ensures s[1..][k..] == s[k + 1..] {
        }
        if forall k :: 0 <= k < |s| ==> MatchAt(d, s[k..]).None? {
          forall k | 0 <= k < |s[1..]| ensures MatchAt(d, s[1..][k..]).None? {
            assert MatchAt(d, s[k + 1..]).None?;
          }
        } else {
          var k :| 0 <= k < |s| && MatchAt(d, s[k..]).Some?;
          assert MatchAt(d, s[1..][k - 1..]).Some?;
        }
      }
    }
  }

  /** In particular a text missing one letter of the keyword yields nothing. */
  lemma FindAllWithoutLetter(d: Directive, s: string, ch: char)
    requires ch in Keyword(d) && ch !in s
    ensures FindAll(d, s) == []
  {
    forall k | 0 <= k < |s| ensures !StartsWith(s[k..], Keyword(d)) {
    }
    FindAllNoKeyword(d, s);
  }

  // Matches never run past a line break, so text can be scanned line by line.

  lemma {:induction false} BracketFromLocal(u: string, t: string, m: nat)
    requires 1 <= m < |u| && u[|u| - 1] == '\n'
    ensures BracketFrom(u + t, m) == BracketFrom(u, m)
    ensures BracketFrom(u, m).Some? ==> BracketFrom(u, m).value < |u| - 1
    decreases |u| - m
  {
    assert (u + t)[m] == u[m];
    if u[m] != '[' && u[m] != '\n' {
      BracketFromLocal(u, t, m + 1);
    }
  }

  lemma CaptureAtLocal(u: string, t: string, j: nat)
    requires j < |u| && u[|u| - 1] == '\n'
    ensures CaptureAt(u + t, j) == CaptureAt(u, j)
    ensures CaptureAt(u, j).Some? ==> CaptureAt(u, j).value.len < |u|
  {
    var v := u[j..];
    assert (u + t)[j..] == v + t;
    assert v[|v| - 1] == '\n';
    assert (v + t)[0] == v[0];
    if |v| > 1 && v[0] != '\n' {
      BracketFromLocal(v, t, 1);
      if BracketFrom(v, 1).Some? {
        var e := BracketFrom(v, 1).value;
        assert (u + t)[j..j + e] == u[j..j + e];
      }
    }
  }

  lemma ColonsCaptureLocal(u: string, t: string, p: nat)
    requires p < |u| && u[|u| - 1] == '\n'
    ensures ColonsCapture(u + t, p) == ColonsCapture(u, p)
    ensures ColonsCapture(u, p).Some? ==> ColonsCapture(u, p).value.len < |u|
  {
    var s := u + t;
    assert s[p] == u[p];
    if u[p] == ':' {
      assert p + 1 < |u|;
      assert s[p + 1] == u[p + 1];
      CaptureAtLocal(u, t, p + 1);
      if u[p + 1] == ':' {
        CaptureAtLocal(u, t, p + 2);
      }
    }
  }

  lemma MatchAtLocal(d: Directive, u: string, t: string)
    requires |u| > 0 && u[|u| - 1] == '\n'
    ensures MatchAt(d, u + t) == MatchAt(d, u)
    ensures MatchAt(d, u).Some? ==> MatchAt(d, u).value.len < |u|
  {
    var s := u + t;
    var w := Keyword(d);
    assert StartsWith(s, w) <==> StartsWith(u, w) by {
      if |u| >= |w| {
        assert s[..|w|] == u[..|w|];
      } else {
        assert s[|u| - 1] == '\n';
        assert '\n' !in w;
      }
    }
    if StartsWith(u, w) {
      assert |w| < |u| by {
        assert u[|w| - 1] != '\n';
      }
      assert s[|w|] == u[|w|];
      ColonsCaptureLocal(u, t, |w|);
      if d == Include && u[7] == '1' {
        ColonsCaptureLocal(u, t, 8);
      }
    }
  }

  /** Scanning a run of whole lines and then the rest of the text finds the
      targets of the lines followed by those of the rest. */
  lemma {:induction false} FindAllLines(d: Directive, s: string, t: string)
    requires s == [] || s[|s| - 1] == '\n'
    ensures FindAll(d, s + t) == FindAll(d, s) + FindAll(d, t)
    decreases |s|
  {
    if s == [] {
      assert s + t == t;
    } else {
      MatchAtLocal(d, s, t);
      match MatchAt(d, s)
      case Some(f) =>
        assert (s + t)[f.len..] == s[f.len..] + t;
        FindAllLines(d, s[f.len..], t);
      case None =>
        assert (s + t)[1..] == s[1..] + t;
        FindAllLines(d, s[1..], t);
    }
  }

  /** `include::a.txt[]` yields `a.txt`, and so does the same directive
      followed by any text that cannot hold another include (`tail` is what
      follows the `[`: `"]"` for the directive alone, `"]\n"` for a line). */
  lemma IncludeExample(tail: string)
    requires 'c' !in tail
    ensures FindAll(Include, "include::a.txt[" + tail) == ["a.txt"]
  {
    var h, c := "include::", "a.txt";
    assert "include::a.txt[" + tail == h + c + "[" + tail;
    FindAllDirective(Include, h, c, tail);
    FindAllWithoutLetter(Include, tail, 'c');
  }

  /** An include directive is not an image directive. */
  lemma IncludeExampleHasNoImage(tail: string)
    requires 'm' !in tail
    ensures FindAll(Image, "include::a.txt[" + tail) == []
  {
    var txt := "include::a.txt[" + tail;
    forall j | 0 <= j < |txt| ensures txt[j] != 'm' {
      if j >= 15 {
        assert txt[j] == tail[j - 15];
      }
    }
    FindAllWithoutLetter(Image, txt, 'm');
  }

  /** `image::bar.png[alt]` yields `bar.png`, and so does the same directive
      followed by any text that cannot hold another image (`tail` is what
      follows the `[`). */
  lemma ImageExample(tail: string)
    requires 'g' !in tail
    ensures FindAll(Image, "image::bar.png[" + tail) == ["bar.png"]
  {
    var h, c := "image::", "bar.png";
    assert "image::bar.png[" + tail == h + c + "[" + tail;
    FindAllDirective(Image, h, c, tail);
    FindAllWithoutLetter(Image, tail, 'g');
  }

  /** An image directive is not an include directive. */
  lemma ImageExampleHasNoInclude(tail: string)
    requires 'c' !in tail
    ensures FindAll(Include, "image::bar.png[" + tail) == []
  {
    var txt := "image::bar.png[" + tail;
    forall j | 0 <= j < |txt| ensures txt[j] != 'c' {
      if j >= 15 {
        assert txt[j] == tail[j - 15];
      }
    }
    FindAllWithoutLetter(Include, txt, 'c');
  }

  /** Includes come before images whatever their place in the text, each group
      in document order, duplicates kept. */
  lemma ScannerOrderExample(fs: FileSystem, path: string, img: string, line: string)
    requires img == "image::bar.png[alt]\n" && line == "include::a.txt[]\n"
    requires fs.IsFile(path) && fs.files[path] == img + line + line
    ensures AdSrcScannerFunc(path, fs) == ["a.txt", "a.txt", "bar.png"]
  {
    assert fs.files[path] == img + (line + line);
    ScannerOrderIncludes(img, line);
    ScannerOrderImages(img, line);
  }

  lemma ScannerOrderIncludes(img: string, line: string)
    requires img == "image::bar.png[alt]\n" && line == "include::a.txt[]\n"
    ensures FindAll(Include, img + (line + line)) == ["a.txt", "a.txt"]
  {
    assert line == "include::a.txt[" + "]\n";
    assert img == "image::bar.png[" + "alt]\n";
    IncludeExample("]\n");
    ImageExampleHasNoInclude("alt]\n");
    FindAllLines(Include, line, line);
    FindAllLines(Include, img, line + line);
  }

  lemma ScannerOrderImages(img: string, line: string)
    requires img == "image::bar.png[alt]\n" && line == "include::a.txt[]\n"
    ensures FindAll(Image, img + (line + line)) == ["bar.png"]
  {
    assert line == "include::a.txt[" + "]\n";
    assert img == "image::bar.png[" + "alt]\n";
    IncludeExampleHasNoImage("]\n");
    ImageExample("alt]\n");
    FindAllLines(Image, line, line);
    FindAllLines(Image, img, line + line);
  }

  /** A node that is not a regular file is not scanned. */
  lemma ScannerSkipsNonFiles(path: string, fs: FileSystem)
    requires !fs.IsFile(path)
    ensures AdSrcScannerFunc(path, fs) == []
  {
  }

  /** The scan check accepts exactly the paths ending in `.txt`. */
  lemma AdScanCheckSpec(path: string, stem: string)
    ensures AdScanCheck(stem + ".txt")
    ensures AdScanCheck(path) ==> path == path[..|path| - 4] + ".txt"
  {
    assert (stem + ".txt")[|stem|..] == ".txt";
  }

  // ---------------------------------------------------------------------------
  // Target suffixes
  // ---------------------------------------------------------------------------

  const AD_BACKEND_SUFFIX_MAP: map<string, string> := map[
    "docbook45" := ".xml",
    "docbook" := ".xml",
    "xhtml11" := ".html",
    "html" := ".html",
    "html4" := ".html",
    "html5" := ".html",
    "slidy" := ".html",
    "wordpress" := ".html",
    "latex" := ".tex"
  ]

  const A2X_BACKEND_SUFFIX_MAP: map<string, string> := map[
    "chunked" := ".chunked",
    "docbook" := ".xml",
    "dvi" := ".dvi",
    "epub" := ".epub",
    "htmlhelp" := ".hhp",
    "manpage" := "",
    "pdf" := ".pdf",
    "ps" := ".ps",
    "tex" := ".tex",
    "text" := ".text",
    "xhtml" := ".html"
  ]

  /** `gen_ad_suffix`: the suffix of AD_BACKEND, or None where the dictionary
      lookup raises `KeyError`. The sources are not consulted. */
  function GenAdSuffix(env: Env, sources: seq<string>): (r: Option<string>)
    ensures r.Some? <==> env.adBackend in AD_BACKEND_SUFFIX_MAP
  {
    if env.adBackend in AD_BACKEND_SUFFIX_MAP then Some(AD_BACKEND_SUFFIX_MAP[env.adBackend]) else None
  }

  /** `gen_a2x_suffix`: the suffix of A2X_FORMAT, or None on `KeyError`. The
      sources are not consulted. */
  function GenA2xSuffix(env: Env, sources: seq<string>): (r: Option<string>)
    ensures r.Some? <==> env.a2xFormat in A2X_BACKEND_SUFFIX_MAP
  {
    if env.a2xFormat in A2X_BACKEND_SUFFIX_MAP then Some(A2X_BACKEND_SUFFIX_MAP[env.a2xFormat]) else None
  }
}
