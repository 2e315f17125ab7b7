/**
 * File-name handling of the converter: the POSIX `os.path` primitives the
 * script relies on (`split`, `basename`, `splitext`, `join`), the loop that
 * strips trailing extensions from an input name, and the output path the
 * driver builds from it.
 */
module PathNames {

  const Sep: char := '/'
  const ExtSep: char := '.'

  /** Directory into which every output file is written, whatever the input's directory. */
  const OutputDir: string := "/mnt/scratch/priesbr1/Processed_Files/"
  const OutputExt: string := ".hdf5"
  /** The one extension after which stripping stops. */
  const I3Ext: string := ".i3"

  predicate AllChar(s: string, c: char) {
    forall k :: 0 <= k < |s| ==> s[k] == c
  }

  predicate NoneChar(s: string, c: char) {
    forall k :: 0 <= k < |s| ==> s[k] != c
  }

  /** Index of the last occurrence of `c` in `s`, or -1 when there is none (`str.rfind`). */
  function RFind(s: string, c: char): (r: int)
    ensures -1 <= r < |s|
    ensures r >= 0 ==> s[r] == c
    ensures forall k :: r < k < |s| ==> s[k] != c
  {
    RFindBelow(s, c, |s|)
  }

  /** The last occurrence of `c` among the first `n` characters of `s`, or -1. */
  function RFindBelow(s: string, c: char, n: nat): (r: int)
    requires n <= |s|
    ensures -1 <= r < n
    ensures r >= 0 ==> s[r] == c
    ensures forall k :: r < k < n ==> s[k] != c
  {
    if n == 0 then -1
    else if s[n - 1] == c then n - 1
    else RFindBelow(s, c, n - 1)
  }

  /** `os.path.basename`: everything after the last separator. */
  function Basename(p: string): string {
    p[RFind(p, Sep) + 1..]
  }

  /** The base name is the longest separator-free suffix of the path. */
  lemma BasenameSuffix(p: string)
    ensures var b := Basename(p);
            NoneChar(b, Sep) && |b| <= |p| && b == p[|p| - |b|..] &&
            (|b| < |p| ==> p[|p| - |b| - 1] == Sep)
  {
  }

  lemma BasenameOfPlainName(p: string)
    requires NoneChar(p, Sep)
    ensures Basename(p) == p
  {
  }

  /** Removes every trailing separator (`str.rstrip('/')`). */
  function RStripSep(s: string): (r: string)
    ensures r <= s
    ensures |r| == 0 || r[|r| - 1] != Sep
    ensures forall k :: |r| <= k < |s| ==> s[k] == Sep
  {
    if |s| > 0 && s[|s| - 1] == Sep then RStripSep(s[..|s| - 1]) else s
  }

  /**
   * `os.path.split`: the tail is the base name; the head is what precedes
   * it, with trailing separators removed unless the head is only separators.
   */
  function Split(p: string): (string, string) {
    var i := RFind(p, Sep) + 1;
    var head := p[..i];
    if head != [] && !AllChar(head, Sep) then (RStripSep(head), p[i..]) else (head, p[i..])
  }

  /**
   * The tail of a split is the base name, and the path is the head, then
   * only separators, then the tail. The head keeps no trailing separator,
   * unless everything before the tail is separators: then the head is all
   * of it.
   */
  lemma SplitParts(p: string)
    ensures var (head, tail) := Split(p);
            tail == Basename(p) && head <= p && |head| + |tail| <= |p| &&
            AllChar(p[|head|..|p| - |tail|], Sep)
    ensures var (head, tail) := Split(p);
            AllChar(p[..|p| - |tail|], Sep) ==> head == p[..|p| - |tail|]
    ensures var (head, tail) := Split(p);
            !AllChar(p[..|p| - |tail|], Sep) ==> head != [] && head[|head| - 1] != Sep
  {
  }

  /**
   * `os.path.join` of two components: an absolute second part replaces the
   * first; otherwise the parts are joined, with one separator put between
   * them exactly when the first is non-empty and does not end in one.
   */
  function Join(a: string, b: string): (r: string)
    ensures |b| <= |r| && r[|r| - |b|..] == b
    ensures |b| > 0 && b[0] == Sep ==> r == b
    ensures (b == [] || b[0] != Sep) ==> a <= r && |a| + |b| <= |r| <= |a| + 1 + |b|
    ensures (b == [] || b[0] != Sep) ==> (|r| == |a| + 1 + |b| <==> a != [] && a[|a| - 1] != Sep)
    ensures |r| == |a| + 1 + |b| ==> r[|a|] == Sep
  {
    if |b| > 0 && b[0] == Sep then b
    else if a == [] || a[|a| - 1] == Sep then a + b
    else a + [Sep] + b
  }

  /** A non-empty extension: one dot followed by dot-free, separator-free text. */
  predicate IsExt(e: string) {
    && |e| > 0 && e[0] == ExtSep && NoneChar(e, Sep)
    && forall k :: 1 <= k < |e| ==> e[k] != ExtSep
  }

  /**
   * `os.path.splitext`: the extension runs from the last dot to the end,
   * provided that dot lies in the base name and something other than a
   * dot precedes it there (a leading-dot name such as ".bashrc" has none).
   */
  function SplitExt(p: string): (string, string) {
    var sepIndex := RFind(p, Sep);
    var dotIndex := RFind(p, ExtSep);
    if dotIndex > sepIndex && !AllChar(p[sepIndex + 1..dotIndex], ExtSep) then
      (p[..dotIndex], p[dotIndex..])
    else
      (p, [])
  }

  /**
   * Root and extension put back together give the path. An extension is
   * taken only when something other than a dot precedes it in the base
   * name, and then it runs from the last dot (it holds no other dot and no
   * separator). None is taken exactly when the base name has no dot, or
   * only dots before its last one.
   */
  lemma SplitExtParts(p: string)
    ensures var (root, ext) := SplitExt(p);
            root + ext == p && (ext == [] || IsExt(ext))
    ensures var (root, ext) := SplitExt(p);
            ext != [] ==> !AllChar(Basename(root), ExtSep)
    ensures var (root, ext) := SplitExt(p);
            var b := Basename(p);
            ext == [] ==> NoneChar(b, ExtSep) || AllChar(b[..RFind(b, ExtSep)], ExtSep)
  {
    var sepIndex := RFind(p, Sep);
    var dotIndex := RFind(p, ExtSep);
    var b := Basename(p);
    if dotIndex > sepIndex && !AllChar(p[sepIndex + 1..dotIndex], ExtSep) {
      SplitExtTaken(p, sepIndex, dotIndex);
    } else if dotIndex > sepIndex {
      SplitExtLeadingDots(p, b, sepIndex, dotIndex);
    } else {
      SplitExtNoDot(p, b, sepIndex, dotIndex);
    }
  }

  lemma SplitExtTaken(p: string, sepIndex: int, dotIndex: int)
    requires sepIndex == RFind(p, Sep) && dotIndex == RFind(p, ExtSep)
    requires dotIndex > sepIndex && !AllChar(p[sepIndex + 1..dotIndex], ExtSep)
    ensures SplitExt(p) == (p[..dotIndex], p[dotIndex..])
    ensures p[..dotIndex] + p[dotIndex..] == p && IsExt(p[dotIndex..])
    ensures !AllChar(Basename(p[..dotIndex]), ExtSep)
  {
    var root := p[..dotIndex];
    RFindAt(root, Sep, sepIndex);
    assert Basename(root) == p[sepIndex + 1..dotIndex];
  }

  lemma SplitExtLeadingDots(p: string, b: string, sepIndex: int, dotIndex: int)
    requires sepIndex == RFind(p, Sep) && dotIndex == RFind(p, ExtSep) && b == Basename(p)
    requires dotIndex > sepIndex && AllChar(p[sepIndex + 1..dotIndex], ExtSep)
    ensures SplitExt(p) == (p, [])
    ensures AllChar(b[..RFind(b, ExtSep)], ExtSep)
  {
    assert b == p[sepIndex + 1..];
    RFindAt(b, ExtSep, dotIndex - sepIndex - 1);
    assert b[..dotIndex - sepIndex - 1] == p[sepIndex + 1..dotIndex];
  }

  lemma SplitExtNoDot(p: string, b: string, sepIndex: int, dotIndex: int)
    requires sepIndex == RFind(p, Sep) && dotIndex == RFind(p, ExtSep) && b == Basename(p)
    requires dotIndex <= sepIndex
    ensures SplitExt(p) == (p, [])
    ensures NoneChar(b, ExtSep)
  {
    assert b == p[sepIndex + 1..];
    forall k | 0 <= k < |b| ensures b[k] != ExtSep {
      assert b[k] == p[sepIndex + 1 + k];
    }
  }

  /** One round of the loop in `strip_i3_ext`: `splitext(basename(name))`. */
  function Round(name: string): (string, string) {
    SplitExt(Basename(name))
  }

  /**
   * What the stripping loop needs of a round: on a separator-free name it
   * gives a separator-free root and an empty or genuine extension that
   * together make up the name.
   */
  predicate SplitOk(name: string, parts: (string, string)) {
    parts.0 + parts.1 == name && NoneChar(parts.0, Sep) && (parts.1 == [] || IsExt(parts.1))
  }

  ghost predicate SplitsOffExt(split: string -> (string, string)) {
    forall n :: NoneChar(n, Sep) ==> SplitOk(n, split(n))
  }

  /** On a separator-free name a round splits the name itself. */
  lemma RoundParts(name: string)
    requires NoneChar(name, Sep)
    ensures SplitOk(name, Round(name))
  {
    BasenameOfPlainName(name);
    SplitExtParts(name);
    var (root, ext) := Round(name);
    assert forall k :: 0 <= k < |root| ==> root[k] == name[k];
  }

  lemma RoundSplitsOffExt()
    ensures SplitsOffExt(Round)
  {
    forall n | NoneChar(n, Sep) ensures SplitOk(n, Round(n)) {
      RoundParts(n);
    }
  }

  /**
   * The loop of `strip_i3_ext` over a separator-free name, for any round
   * `split` that splits off extensions: it ends right after removing ".i3"
   * or when no extension is left, and otherwise goes on with the root.
   */
  function StripWith(split: string -> (string, string), name: string): string
    requires SplitsOffExt(split) && NoneChar(name, Sep)
    decreases |name|
  {
    var (root, ext) := split(name);
    if ext == [] || ext == I3Ext then root else StripWith(split, root)
  }

  /** The extensions the loop removes, in the order they appear in the name. */
  function RemovedWith(split: string -> (string, string), name: string): seq<string>
    requires SplitsOffExt(split) && NoneChar(name, Sep)
    decreases |name|
  {
    var (root, ext) := split(name);
    if ext == [] then []
    else if ext == I3Ext then [ext]
    else RemovedWith(split, root) + [ext]
  }

  /** The strings of `ss` one after another. */
  function Concat(ss: seq<string>): string {
    if ss == [] then [] else Concat(ss[..|ss| - 1]) + ss[|ss| - 1]
  }

  /** The loop leaves a separator-free name. */
  lemma {:induction false} StripWithPlain(split: string -> (string, string), name: string)
    requires SplitsOffExt(split) && NoneChar(name, Sep)
    ensures NoneChar(StripWith(split, name), Sep)
    decreases |name|
  {
    var (root, ext) := split(name);
    assert SplitOk(name, (root, ext));
    if ext != [] && ext != I3Ext {
      StripWithPlain(split, root);
    }
  }

  lemma Reassemble(name: string, root: string, ext: string, r: string, exts: seq<string>)
    requires name == root + ext && root == r + Concat(exts)
    ensures name == r + Concat(exts + [ext])
  {
    assert (exts + [ext])[..|exts|] == exts;
    assert (r + Concat(exts)) + ext == r + (Concat(exts) + ext);
  }

  /** The result of the loop followed by the removed extensions gives back the name. */
  lemma {:induction false} StripWithThenExts(split: string -> (string, string), name: string)
    requires SplitsOffExt(split) && NoneChar(name, Sep)
    ensures name == StripWith(split, name) + Concat(RemovedWith(split, name))
    decreases |name|
  {
    var (root, ext) := split(name);
    assert SplitOk(name, (root, ext));
    if ext == [] {
      assert RemovedWith(split, name) == [];
    } else if ext == I3Ext {
      assert RemovedWith(split, name) == [ext];
      assert Concat([ext]) == Concat([]) + ext;
    } else {
      StripWithThenExts(split, root);
      Reassemble(name, root, ext, StripWith(split, root), RemovedWith(split, root));
    }
  }

  /** Every piece the loop removes is a genuine extension. */
  lemma {:induction false} RemovedWithAreExts(split: string -> (string, string), name: string)
    requires SplitsOffExt(split) && NoneChar(name, Sep)
    ensures forall k :: 0 <= k < |RemovedWith(split, name)| ==> IsExt(RemovedWith(split, name)[k])
    decreases |name|
  {
    var (root, ext) := split(name);
    assert SplitOk(name, (root, ext));
    if ext != [] && ext != I3Ext {
      assert RemovedWith(split, name) == RemovedWith(split, root) + [ext];
      RemovedWithAreExts(split, root);
    }
  }

  /**
   * No removed extension but the last one removed (the first in the name)
   * is ".i3"; and if that one is not ".i3", the result has no extension left.
   */
  lemma {:induction false} StripWithStopsAtI3(split: string -> (string, string), name: string)
    requires SplitsOffExt(split) && NoneChar(name, Sep)
    ensures forall k :: 1 <= k < |RemovedWith(split, name)| ==> RemovedWith(split, name)[k] != I3Ext
    ensures RemovedWith(split, name) == [] || RemovedWith(split, name)[0] != I3Ext ==>
              split(StripWith(split, name)).1 == []
    decreases |name|
  {
    var (root, ext) := split(name);
    assert SplitOk(name, (root, ext));
    if ext == [] {
      assert root == name;
    } else if ext != I3Ext {
      var exts := RemovedWith(split, root);
      StripWithStopsAtI3(split, root);
      assert RemovedWith(split, name) == exts + [ext];
      if exts != [] {
        assert RemovedWith(split, name)[0] == exts[0];
      }
    }
  }

  /**
   * Each removed extension is exactly what the round splits off the name
   * built so far: the stripped name followed by the first `k + 1` removed
   * extensions splits into the stripped name followed by the first `k`,
   * and the `k`-th extension.
   */
  lemma {:induction false} RemovedWithRounds(split: string -> (string, string), name: string)
    requires SplitsOffExt(split) && NoneChar(name, Sep)
    ensures RoundsOf(split, StripWith(split, name), RemovedWith(split, name))
    decreases |name|
  {
    var (root, ext) := split(name);
    assert SplitOk(name, (root, ext));
    if ext == I3Ext {
      assert RemovedWith(split, name) == [] + [ext] && StripWith(split, name) == root;
      assert root + Concat([]) == root;
      RoundsOfSnoc(split, root, [], name, ext);
    } else if ext != [] {
      var r, exts := StripWith(split, root), RemovedWith(split, root);
      RemovedWithRounds(split, root);
      StripWithThenExts(split, root);
      assert root == r + Concat(exts);
      assert RemovedWith(split, name) == exts + [ext] && StripWith(split, name) == r;
      RoundsOfSnoc(split, r, exts, name, ext);
    }
  }

  /**
   * Each extension of `exts` is what `split` splits off `r` followed by
   * the extensions up to and including it, leaving `r` followed by those
   * before it.
   */
  ghost predicate RoundsOf(split: string -> (string, string), r: string, exts: seq<string>) {
    forall k {:trigger exts[k]} :: 0 <= k < |exts| ==>
      split(r + Concat(exts[..k + 1])) == (r + Concat(exts[..k]), exts[k])
  }

  lemma RoundsOfSnoc(split: string -> (string, string), r: string, exts: seq<string>, name: string, ext: string)
    requires RoundsOf(split, r, exts)
    requires split(name) == (r + Concat(exts), ext) && name == r + Concat(exts) + ext
    ensures RoundsOf(split, r, exts + [ext])
  {
    var all := exts + [ext];
    forall k | 0 <= k < |all|
      ensures split(r + Concat(all[..k + 1])) == (r + Concat(all[..k]), all[k])
    {
      if k < |exts| {
        var e := exts[k];
        RoundsOfEarlier(split, r, exts, ext, k);
      } else {
        RoundsOfLast(split, r, exts, name, ext);
      }
    }
  }

  lemma RoundsOfEarlier(split: string -> (string, string), r: string, exts: seq<string>, ext: string, k: nat)
    requires k < |exts| && split(r + Concat(exts[..k + 1])) == (r + Concat(exts[..k]), exts[k])
    ensures var all := exts + [ext];
      split(r + Concat(all[..k + 1])) == (r + Concat(all[..k]), all[k])
  {
    var all := exts + [ext];
    assert all[..k + 1] == exts[..k + 1] && all[..k] == exts[..k] && all[k] == exts[k];
  }

  lemma RoundsOfLast(split: string -> (string, string), r: string, exts: seq<string>, name: string, ext: string)
    requires split(name) == (r + Concat(exts), ext) && name == r + Concat(exts) + ext
    ensures var all, k := exts + [ext], |exts|;
      split(r + Concat(all[..k + 1])) == (r + Concat(all[..k]), all[k])
  {
    var all := exts + [ext];
    PrefixSlices(exts, ext);
    ConcatSnoc(exts, ext);
    AppendAssoc(r, Concat(exts), ext);
  }

  lemma PrefixSlices(exts: seq<string>, ext: string)
    ensures (exts + [ext])[..|exts| + 1] == exts + [ext] && (exts + [ext])[..|exts|] == exts
  {
  }

  lemma ConcatSnoc(exts: seq<string>, ext: string)
    ensures Concat(exts + [ext]) == Concat(exts) + ext
  {
    assert (exts + [ext])[..|exts|] == exts;
  }

  lemma AppendAssoc(a: string, b: string, c: string)
    ensures a + (b + c) == (a + b) + c
  {
  }

  /**
   * The name `strip_i3_ext` leaves of a separator-free name: trailing
   * extensions are removed one at a time until one equal to ".i3" has been
   * removed or no extension is left.
   */
  function StripName(name: string): string
    requires NoneChar(name, Sep)
  {
    RoundSplitsOffExt();
    StripWith(Round, name)
  }

  /** The extensions `StripName` removes, in the order they appear in the name. */
  function RemovedExts(name: string): seq<string>
    requires NoneChar(name, Sep)
  {
    RoundSplitsOffExt();
    RemovedWith(Round, name)
  }

  /**
   * What `strip_i3_ext` does, stated without the loop: the base name is the
   * stripped name followed by genuine extensions, the stripped name keeps
   * no separator, only the last extension removed can be ".i3", and when
   * it is not, no extension is left on the stripped name.
   */
  lemma StripNameRemoves(name: string)
    requires NoneChar(name, Sep)
    ensures NoneChar(StripName(name), Sep)
    ensures name == StripName(name) + Concat(RemovedExts(name))
    ensures forall k :: 0 <= k < |RemovedExts(name)| ==> IsExt(RemovedExts(name)[k])
    ensures forall k :: 1 <= k < |RemovedExts(name)| ==> RemovedExts(name)[k] != I3Ext
    ensures RemovedExts(name) == [] || RemovedExts(name)[0] != I3Ext ==>
              Round(StripName(name)).1 == []
    ensures forall k {:trigger RemovedExts(name)[k]} :: 0 <= k < |RemovedExts(name)| ==>
              Round(StripName(name) + Concat(RemovedExts(name)[..k + 1])) ==
              (StripName(name) + Concat(RemovedExts(name)[..k]), RemovedExts(name)[k])
  {
    RoundSplitsOffExt();
    RemovedWithRounds(Round, name);
    StripWithPlain(Round, name);
    StripWithThenExts(Round, name);
    RemovedWithAreExts(Round, name);
    StripWithStopsAtI3(Round, name);
  }

  lemma RFindAt(s: string, c: char, i: int)
    requires -1 <= i < |s| && (i >= 0 ==> s[i] == c)
    requires forall k :: i < k < |s| ==> s[k] != c
    ensures RFind(s, c) == i
  {
  }

  /**
   * A round on a separator-free name splits at its last dot when something
   * other than a dot precedes that dot: ".a.b" splits into ".a" and ".b".
   */
  lemma RoundAt(name: string, d: int)
    requires NoneChar(name, Sep) && 0 < d < |name| && !AllChar(name[..d], ExtSep)
    requires name[d] == ExtSep && forall k :: d < k < |name| ==> name[k] != ExtSep
    ensures Round(name) == (name[..d], name[d..])
  {
    BasenameOfPlainName(name);
    RFindAt(name, Sep, -1);
    RFindAt(name, ExtSep, d);
    assert name[0..d] == name[..d];
  }

  /** Appending a genuine extension to a plain root that starts with a non-dot is undone by one round. */
  lemma RoundAppended(root: string, ext: string)
    requires NoneChar(root, Sep) && |root| > 0 && root[0] != ExtSep && IsExt(ext)
    ensures NoneChar(root + ext, Sep)
    ensures Round(root + ext) == (root, ext)
  {
    var name := root + ext;
    assert name[..|root|] == root && name[|root|..] == ext;
    forall k | |root| < k < |name| ensures name[k] != ExtSep {
      assert name[k] == ext[k - |root|];
    }
    assert name[..|root|][0] != ExtSep;
    RoundAt(name, |root|);
  }

  /** A name holding no dot after its first character has no extension. */
  lemma RoundNone(name: string)
    requires |name| > 0 && NoneChar(name, Sep) && NoneChar(name[1..], ExtSep)
    ensures Round(name) == (name, [])
  {
    BasenameOfPlainName(name);
    RFindAt(name, Sep, -1);
    if |name| > 0 && name[0] == ExtSep {
      RFindAt(name, ExtSep, 0);
    } else {
      assert forall k :: 0 <= k < |name| ==> name[k] != ExtSep by {
        forall k | 0 < k < |name| ensures name[k] != ExtSep { assert name[1..][k - 1] == name[k]; }
      }
      RFindAt(name, ExtSep, -1);
    }
  }

  /** A plain stem: non-empty, with no dot and no separator. */
  predicate PlainStem(stem: string) {
    |stem| > 0 && NoneChar(stem, Sep) && NoneChar(stem, ExtSep)
  }

  /** A stem that is a file name on its own: non-empty, no separator, not starting with a dot. */
  predicate NameStem(stem: string) {
    |stem| > 0 && NoneChar(stem, Sep) && stem[0] != ExtSep
  }

  /**
   * A compressed ".i3" file loses both extensions, whatever dots its stem
   * holds: "x.i3.bz2" gives "x", and "run.014640.000001.i3.bz2" gives
   * "run.014640.000001".
   */
  lemma StripCompressedI3(stem: string, ext: string)
    requires NameStem(stem) && IsExt(ext) && ext != I3Ext
    ensures NoneChar(stem + I3Ext + ext, Sep)
    ensures StripName(stem + I3Ext + ext) == stem
  {
    RoundAppended(stem, I3Ext);
    RoundAppended(stem + I3Ext, ext);
    RoundSplitsOffExt();
    StripTwoRounds(Round, stem + I3Ext + ext, stem + I3Ext, ext, stem);
  }

  /** Two rounds: a non-".i3" extension is removed, then ".i3" is removed and the loop stops. */
  lemma StripTwoRounds(split: string -> (string, string), name: string, mid: string, ext: string, stem: string)
    requires SplitsOffExt(split) && NoneChar(name, Sep) && NoneChar(mid, Sep)
    requires split(name) == (mid, ext) && ext != [] && ext != I3Ext
    requires split(mid) == (stem, I3Ext)
    ensures StripWith(split, name) == stem
  {
  }

  /** Any other single extension is removed, and then stripping stops: "x.zst" gives "x". */
  lemma StripOtherExt(stem: string, ext: string)
    requires PlainStem(stem) && IsExt(ext) && ext != I3Ext
    ensures NoneChar(stem + ext, Sep)
    ensures StripName(stem + ext) == stem
  {
    RoundAppended(stem, ext);
    RoundNone(stem);
    RoundSplitsOffExt();
    StripRoundThenNone(Round, stem + ext, stem, ext);
  }

  /** Two rounds: a non-".i3" extension is removed, then none is left. */
  lemma StripRoundThenNone(split: string -> (string, string), name: string, stem: string, ext: string)
    requires SplitsOffExt(split) && NoneChar(name, Sep) && NoneChar(stem, Sep)
    requires split(name) == (stem, ext) && ext != [] && ext != I3Ext
    requires split(stem) == (stem, [])
    ensures StripWith(split, name) == stem
  {
  }

  /** Only one ".i3" is removed: "x.i3.i3" gives "x.i3", for any stem that is a file name. */
  lemma StripDoubleI3(stem: string)
    requires NameStem(stem)
    ensures NoneChar(stem + I3Ext + I3Ext, Sep)
    ensures StripName(stem + I3Ext + I3Ext) == stem + I3Ext
  {
    RoundAppended(stem + I3Ext, I3Ext);
    RoundSplitsOffExt();
  }

  /** A leading-dot name with no other dot keeps its whole name: ".bashrc" stays ".bashrc". */
  lemma StripHiddenName(stem: string)
    requires PlainStem(stem)
    ensures NoneChar([ExtSep] + stem, Sep)
    ensures StripName([ExtSep] + stem) == [ExtSep] + stem
  {
    var name := [ExtSep] + stem;
    assert name[1..] == stem;
    RoundNone(name);
    RoundSplitsOffExt();
  }

  /**
   * A leading dot starts no extension, but a later dot does: ".a.b" gives
   * ".a", and stripping stops there.
   */
  lemma StripHiddenNameExt(stem: string, ext: string)
    requires PlainStem(stem) && IsExt(ext) && ext != I3Ext
    ensures NoneChar([ExtSep] + stem + ext, Sep)
    ensures StripName([ExtSep] + stem + ext) == [ExtSep] + stem
  {
    var root := [ExtSep] + stem;
    var name := root + ext;
    assert root[1..] == stem;
    RoundNone(root);
    assert name[..|root|] == root && name[|root|..] == ext;
    assert name[..|root|][1] == stem[0];
    forall k | |root| < k < |name| ensures name[k] != ExtSep {
      assert name[k] == ext[k - |root|];
    }
    RoundAt(name, |root|);
    RoundSplitsOffExt();
    StripRoundThenNone(Round, name, root, ext);
  }

  /** A name of the kind the converter was run on keeps the dots of its stem. */
  lemma StripLevel5Name()
    ensures NoneChar("Level5p_IC86.2013_genie_numu.014640.000001.i3.bz2", Sep)
    ensures StripName("Level5p_IC86.2013_genie_numu.014640.000001.i3.bz2") ==
            "Level5p_IC86.2013_genie_numu.014640.000001"
  {
    var stem := "Level5p_IC86.2013_genie_numu.014640.000001";
    assert stem + I3Ext + ".bz2" == "Level5p_IC86.2013_genie_numu.014640.000001.i3.bz2";
    StripCompressedI3(stem, ".bz2");
  }

  /**
   * `strip_i3_ext`: splits off the directory, then repeatedly drops the
   * extension of the base name until ".i3" was dropped or none is left;
   * with `keepPath` the stem is rejoined under the original directory.
   */
  method StripI3Ext(filename: string, keepPath: bool) returns (r: string)
    ensures NoneChar(Split(filename).1, Sep)
    ensures !keepPath ==> r == StripName(Split(filename).1)
    ensures keepPath ==> r == Join(Split(filename).0, StripName(Split(filename).1))
  {
    SplitParts(filename);
    BasenameSuffix(filename);
    var path, name := Split(filename).0, Split(filename).1;
    RoundParts(name);
    var parts := Round(name);
    while parts.1 != [] && parts.1 != I3Ext
      invariant NoneChar(name, Sep)
      invariant parts == Round(name)
      invariant StripName(name) == StripName(Split(filename).1)
      decreases |name|
    {
      name := parts.0;
      RoundParts(name);
      parts := Round(name);
    }
    if keepPath {
      r := Join(path, parts.0);
    } else {
      r := parts.0;
    }
  }

  /** The output path the driver derives from an input path. */
  function OutputPath(input: string): string {
    BasenameSuffix(input);
    OutputDir + StripName(Basename(input)) + OutputExt
  }

  /**
   * Every output lands directly in the fixed output directory, ends with
   * ".hdf5", and its stem is a separator-free prefix of the input's base name.
   */
  lemma OutputPathShape(input: string)
    ensures NoneChar(Basename(input), Sep)
    ensures var stem := StripName(Basename(input));
            OutputPath(input) == OutputDir + stem + OutputExt &&
            NoneChar(stem, Sep) && stem <= Basename(input)
  {
    var b := Basename(input);
    BasenameSuffix(input);
    RoundSplitsOffExt();
    StripWithPlain(Round, b);
    StripWithThenExts(Round, b);
    PrefixOfConcat(StripName(b), Concat(RemovedExts(b)));
  }

  lemma PrefixOfConcat(a: string, b: string)
    ensures a <= a + b
  {
    assert (a + b)[..|a|] == a;
  }

  /**
   * The output path depends on the input's base name alone, so inputs with
   * the same base name in different directories share one output file.
   */
  lemma OutputPathSameBasename(a: string, b: string)
    requires Basename(a) == Basename(b)
    ensures OutputPath(a) == OutputPath(b)
  {
  }
}
