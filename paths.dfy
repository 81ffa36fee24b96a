/** The file system as the tool observes it, and the POSIX path helpers it calls
    (`os.path.basename`, `os.path.dirname`, `os.sep.join`, `os.path.join` and
    SCons' `SCons.Util.splitext`). */
module Paths {
  import opened Strings

  /** `os.sep` on a POSIX host. */
  const SEP: char := '/'

  /** Regular files with their contents, and directories. A path can be looked up
      with `os.path.isfile` (a key of `files`) or `os.path.exists` (a file or a
      directory); the empty path names nothing, whatever the maps hold. */
  datatype FileSystem = FileSystem(files: map<string, string>, dirs: set<string>) {
    predicate IsFile(p: string) {
      p != "" && p in files
    }

    predicate Exists(p: string) {
      p != "" && (p in files || p in dirs)
    }
  }

  /** `p.rfind(c)`: the last index of `c` in `p`, or -1. */
  function RFind(p: string, c: char): (k: int)
    ensures -1 <= k < |p|
    ensures k >= 0 ==> p[k] == c
    ensures forall j :: k < j < |p| ==> p[j] != c
    decreases |p|
  {
    if |p| == 0 then -1
    else if p[|p| - 1] == c then |p| - 1
    else RFind(p[..|p| - 1], c)
  }

  /** `s.rstrip(c)` */
  function RStrip(s: string, c: char): string
    decreases |s|
  {
    if |s| > 0 && s[|s| - 1] == c then RStrip(s[..|s| - 1], c) else s
  }

  /** `rstrip` removes exactly the trailing run of `c`. */
  lemma {:induction false} RStripSpec(s: string, c: char)
    ensures var r := RStrip(s, c);
      && StartsWith(s, r)
      && (r == [] || r[|r| - 1] != c)
      && forall j :: |r| <= j < |s| ==> s[j] == c
    decreases |s|
  {
    if |s| > 0 && s[|s| - 1] == c {
      RStripSpec(s[..|s| - 1], c);
      var r := RStrip(s, c);
      assert s[..|s| - 1][..|r|] == s[..|r|];
    }
  }

  predicate AllSeps(s: string) {
    forall j :: 0 <= j < |s| ==> s[j] == SEP
  }

  /** `os.path.basename(p)` */
  function Basename(p: string): string {
    p[RFind(p, SEP) + 1..]
  }

  /** The base name is the longest separator-free tail of `p`: it is all of `p`
      or comes right after a separator. */
  lemma BasenameSpec(p: string)
    ensures SEP !in Basename(p)
    ensures EndsWith(p, Basename(p))
    ensures |Basename(p)| < |p| ==> p[|p| - |Basename(p)| - 1] == SEP
  {
    SepFreeTail(p, RFind(p, SEP) + 1);
  }

  /** The part of `p` from `i` on, where `i` is just past the last separator
      (or 0 when there is none), is free of separators and follows that
      separator. */
  lemma SepFreeTail(p: string, i: nat)
    requires i <= |p| && (i > 0 ==> p[i - 1] == SEP)
    requires forall j :: i <= j < |p| ==> p[j] != SEP
    ensures SEP !in p[i..]
    ensures EndsWith(p, p[i..])
    ensures |p[i..]| < |p| ==> p[|p| - |p[i..]| - 1] == SEP
  {
    var b := p[i..];
    forall j | 0 <= j < |b| ensures b[j] != SEP {
      assert b[j] == p[i + j];
    }
  }

  /** `os.path.dirname(p)`: everything up to the last separator, with trailing
      separators removed unless the head consists of separators only. */
  function Dirname(p: string): string {
    var head := p[..RFind(p, SEP) + 1];
    if head != "" && !AllSeps(head) then RStrip(head, SEP) else head
  }

  /** The directory name is a prefix of `p` shaped as a directory name, and it
      is empty exactly when `p` holds no separator. */
  lemma DirnameSpec(p: string)
    ensures StartsWith(p, Dirname(p))
    ensures DirShaped(Dirname(p))
    ensures Dirname(p) == "" <==> SEP !in p
  {
    var k := RFind(p, SEP);
    var head := p[..k + 1];
    var d := Dirname(p);
    if head == "" {
      assert SEP !in p;
    } else if AllSeps(head) {
      assert p[k] == SEP;
    } else {
      assert p[k] == head[|head| - 1];
      StripSepRun(head);
      assert p[..|d|] == head[..|d|];
    }
  }

  /** `p` is its directory name, then a run of separators, then its base name.
      The run is empty when the directory is the root (or empty), which keeps
      all its separators, and holds at least one separator otherwise. */
  lemma DirnameRun(p: string)
    ensures |Dirname(p)| + |Basename(p)| <= |p|
    ensures AllSeps(p[|Dirname(p)|..|p| - |Basename(p)|])
    ensures AllSeps(Dirname(p)) ==> |Dirname(p)| + |Basename(p)| == |p|
    ensures !AllSeps(Dirname(p)) ==> |Dirname(p)| + |Basename(p)| < |p|
  {
    var i: nat := RFind(p, SEP) + 1;
    var head, b := p[..i], p[i..];
    assert Basename(p) == b;
    assert p == head + b;
    if head != "" && !AllSeps(head) {
      assert head[|head| - 1] == SEP;
      StripSepRun(head);
      var d := RStrip(head, SEP);
      assert p[|d|..|p| - |b|] == head[|d|..];
    }
  }

  /** Stripping the trailing separators of a head that ends in one but is not all
      separators leaves a nonempty prefix, not ending in a separator, followed by
      a nonempty run of separators. */
  lemma StripSepRun(head: string)
    requires |head| > 0 && head[|head| - 1] == SEP && !AllSeps(head)
    ensures var d := RStrip(head, SEP);
      && 0 < |d| < |head| && head[..|d|] == d
      && d[|d| - 1] != SEP && !AllSeps(d)
      && AllSeps(head[|d|..])
  {
    RStripSpec(head, SEP);
    var d := RStrip(head, SEP);
    var mid := head[|d|..];
    forall j | 0 <= j < |mid| ensures mid[j] == SEP {
      assert mid[j] == head[|d| + j];
    }
  }

  /** A directory name as `Dirname` produces it: empty, the root (separators only),
      or a path that does not end in a separator. */
  predicate DirShaped(d: string) {
    d == "" || AllSeps(d) || d[|d| - 1] != SEP
  }

  /** True iff every character of `s` is a digit or a dot. */
  predicate OnlyDigitsAndDots(s: string) {
    forall j :: 0 <= j < |s| ==> s[j] in "0123456789."
  }

  /** `SCons.Util.splitext(p)`: a suffix counts as an extension only when its dot
      comes after the last separator and it holds a character other than a digit
      or a dot, so `prog.1` has no extension. Root and extension rebuild `p`. */
  function Splitext(p: string): (string, string) {
    var sep := RFind(p, SEP);
    var dot := RFind(p, '.');
    if dot > sep && !OnlyDigitsAndDots(p[dot..]) then (p[..dot], p[dot..])
    else (p, "")
  }

  /** Root and extension rebuild `p`; a nonempty extension starts at the last
      dot, lies after the last separator and is not made of digits and dots
      alone; and there is an extension whenever the last dot comes after the
      last separator with such a tail. */
  lemma SplitextSpec(p: string)
    ensures Splitext(p).0 + Splitext(p).1 == p
    ensures var e := Splitext(p).1;
      e == "" || (e[0] == '.' && '.' !in e[1..] && SEP !in e && !OnlyDigitsAndDots(e))
    ensures var sep, dot := RFind(p, SEP), RFind(p, '.');
      Splitext(p).1 != "" <==> dot > sep && !OnlyDigitsAndDots(p[dot..])
  {
    var sep := RFind(p, SEP);
    var dot := RFind(p, '.');
    if dot > sep && !OnlyDigitsAndDots(p[dot..]) {
      assert p[..dot] + p[dot..] == p;
      var e := p[dot..];
      assert e != "";
      forall j | 0 <= j < |e| ensures e[j] != SEP {
        assert e[j] == p[dot + j];
      }
      forall j | 1 <= j < |e| ensures e[j] != '.' {
        assert e[j] == p[dot + j];
      }
      assert e[1..] == p[dot + 1..];
      assert forall j :: 0 <= j < |e[1..]| ==> e[1..][j] == e[j + 1];
    }
  }

  /** A root followed by a proper extension (a dot, then no further dot or
      separator, and not digits and dots alone) splits into those two parts. */
  lemma SplitextOfExtension(root: string, ext: string)
    requires |ext| > 0 && ext[0] == '.' && '.' !in ext[1..] && SEP !in ext && !OnlyDigitsAndDots(ext)
    ensures Splitext(root + ext) == (root, ext)
  {
    var p := root + ext;
    assert p[|root|] == '.';
    forall j | |root| < j < |p| ensures p[j] != '.' {
      assert p[j] == ext[1..][j - |root| - 1];
    }
    RFindLast(p, '.', |root|);
    forall j | |root| <= j < |p| ensures p[j] != SEP {
      assert p[j] == ext[j - |root|];
    }
    assert RFind(p, SEP) < |root|;
    assert p[..|root|] == root && p[|root|..] == ext;
  }

  /** `os.sep.join([d, c])`, as the tool writes its path joins. */
  function SepJoin(d: string, c: string): (r: string)
    ensures |r| == |d| + 1 + |c| && r[|d|] == SEP
    ensures r[..|d|] == d && r[|d| + 1..] == c
  {
    d + [SEP] + c
  }

  /** `os.path.join(d, c)` (posixpath): an absolute `c` replaces `d`, and no
      separator is added after an empty `d` or one that already ends in it. */
  function JoinPath(d: string, c: string): string {
    if StartsWith(c, [SEP]) then c
    else if d == "" || EndsWith(d, [SEP]) then d + c
    else d + [SEP] + c
  }

  /** The joined path ends with `c`, and an empty directory leaves `c` as it is. */
  lemma JoinPathSpec(d: string, c: string)
    ensures EndsWith(JoinPath(d, c), c)
    ensures d == "" ==> JoinPath(d, c) == c
  {
  }

  /** The directory of `d + "/" + c`, for a separator-free `c`, is the head `d + "/"`
      with its trailing separators handled as `Dirname` does. */
  lemma DirnameOfChild(head: string, c: string)
    requires |head| > 0 && head[|head| - 1] == SEP && SEP !in c
    ensures Dirname(head + c) == if !AllSeps(head) then RStrip(head, SEP) else head
    ensures Basename(head + c) == c
  {
    var p := head + c;
    assert RFind(p, SEP) == |head| - 1 by {
      assert p[|head| - 1] == SEP;
      forall j | |head| - 1 < j < |p| ensures p[j] != SEP {
        assert p[j] == c[j - |head|];
      }
      RFindLast(p, SEP, |head| - 1);
    }
    assert p[..|head|] == head;
    assert p[|head|..] == c;
  }

  lemma {:induction false} RFindLast(p: string, c: char, k: nat)
    requires k < |p| && p[k] == c
    requires forall j :: k < j < |p| ==> p[j] != c
    ensures RFind(p, c) == k
    decreases |p|
  {
    if k < |p| - 1 {
      RFindLast(p[..|p| - 1], c, k);
    }
  }

  /** The intended property of the joins: a separator-free name joined to the
      directory of `src` lies in that directory and keeps its name. */
  lemma JoinPathStaysInDir(src: string, c: string)
    requires c != "" && SEP !in c
    ensures Dirname(JoinPath(Dirname(src), c)) == Dirname(src)
    ensures Basename(JoinPath(Dirname(src), c)) == c
  {
    DirnameSpec(src);
    JoinPathInShapedDir(Dirname(src), c);
  }

  /** A separator-free name joined to a directory-shaped `d` lies in `d`. */
  lemma JoinPathInShapedDir(d: string, c: string)
    requires DirShaped(d) && c != "" && SEP !in c
    ensures Dirname(JoinPath(d, c)) == d
    ensures Basename(JoinPath(d, c)) == c
  {
    if d == "" {
      JoinPathNoDir(c);
    } else if EndsWith(d, [SEP]) {
      JoinPathAfterSep(d, c);
    } else {
      JoinPathAddsSep(d, c);
    }
  }

  lemma JoinPathNoDir(c: string)
    requires c != "" && SEP !in c
    ensures JoinPath("", c) == c
    ensures Dirname(c) == "" && Basename(c) == c
  {
    assert !StartsWith(c, [SEP]) by { assert c[0] in c; }
    assert RFind(c, SEP) == -1;
  }

  lemma JoinPathAfterSep(d: string, c: string)
    requires DirShaped(d) && d != "" && EndsWith(d, [SEP]) && c != "" && SEP !in c
    ensures JoinPath(d, c) == d + c
    ensures Dirname(d + c) == d && Basename(d + c) == c
  {
    assert d[|d| - 1] == SEP by { assert d[|d| - 1..] == [SEP]; }
    assert !StartsWith(c, [SEP]) by { assert c[0] in c; }
    assert AllSeps(d);
    DirnameOfChild(d, c);
  }

  lemma JoinPathAddsSep(d: string, c: string)
    requires d != "" && !EndsWith(d, [SEP]) && c != "" && SEP !in c
    ensures JoinPath(d, c) == (d + [SEP]) + c
    ensures Dirname((d + [SEP]) + c) == d && Basename((d + [SEP]) + c) == c
  {
    assert !StartsWith(c, [SEP]) by { assert c[0] in c; }
    assert d[|d| - 1] != SEP by { assert d[|d| - 1..] == [d[|d| - 1]]; }
    DirnameOfChild(d + [SEP], c);
    assert !AllSeps(d + [SEP]) by { assert (d + [SEP])[|d| - 1] != SEP; }
    assert RStrip(d + [SEP], SEP) == RStrip(d, SEP) by { assert (d + [SEP])[..|d|] == d; }
    assert RStrip(d, SEP) == d;
  }

  /** The joins as written: a separator-free name joined to the directory of
      `src` keeps its name, and lies in that directory unless the directory
      is empty or the root, where the added separator starts a new root. */
  lemma SepJoinInDir(src: string, c: string)
    requires c != "" && SEP !in c
    ensures Basename(SepJoin(Dirname(src), c)) == c
    ensures Dirname(SepJoin(Dirname(src), c)) ==
      if AllSeps(Dirname(src)) then Dirname(src) + [SEP] else Dirname(src)
  {
    var d := Dirname(src);
    DirnameSpec(src);
    assert SepJoin(d, c) == (d + [SEP]) + c;
    DirnameOfChild(d + [SEP], c);
    if !AllSeps(d) {
      assert !AllSeps(d + [SEP]) by { assert (d + [SEP])[|d| - 1] != SEP; }
      var r := RStrip(d + [SEP], SEP);
      assert r == RStrip(d, SEP) by { assert (d + [SEP])[..|d|] == d; }
      assert RStrip(d, SEP) == d;
    } else {
      assert AllSeps(d + [SEP]);
    }
  }

  /** The joins as written: for a source in the current directory the directory
      part is empty, and `os.sep.join(["", c])` names `c` in the file-system root. */
  lemma SepJoinEmptyDirIsRoot(c: string)
    requires SEP !in c
    ensures SepJoin("", c) == [SEP] + c
    ensures Dirname(SepJoin("", c)) == [SEP] != Dirname(c)
  {
    DirnameOfChild([SEP], c);
    assert SepJoin("", c) == [SEP] + c;
    assert RFind(c, SEP) == -1;
  }
}
