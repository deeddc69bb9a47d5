/**
 Destination keys of uploaded translations: `upload_pdf_to_s3` and
 `upload_markdown_to_s3` drop the original key's extension the way POSIX
 `os.path.splitext` does, then append `_<language>` (when a language is
 given) and their own extension.
 */
module OutputKeys {
  import opened Text

  /** `s.rfind(c)`: the index of the last `c` in `s`, or -1. */
  function RFind(s: string, c: char): (r: int)
    ensures -1 <= r < |s|
    ensures r >= 0 ==> s[r] == c
    ensures forall j :: r < j < |s| ==> s[j] != c
  {
    if s == [] then -1
    else if s[|s| - 1] == c then |s| - 1
    else RFind(s[..|s| - 1], c)
  }

  predicate AllDots(s: string) {
    forall i :: 0 <= i < |s| ==> s[i] == '.'
  }

  /** The scan of `posixpath._splitext` that skips the leading dots of the file
      name: is there a character other than `.` in `p[from..to]`? */
  function SkipsToNonDot(p: string, lo: nat, hi: nat): (b: bool)
    requires lo <= hi <= |p|
    ensures b <==> !AllDots(p[lo..hi])
    decreases hi - lo
  {
    if lo == hi then false
    else if p[lo] != '.' then
      assert p[lo..hi][0] == p[lo];
      true
    else
      var b := SkipsToNonDot(p, lo + 1, hi);
      assert p[lo..hi] == [p[lo]] + p[lo + 1..hi];
      b
  }

  /** The final path component starts after the last `/`. */
  function BaseStart(p: string): nat {
    RFind(p, '/') + 1
  }

  /** `p` has an extension: some `.` of its final component has a non-dot before it
      within that component. */
  ghost predicate HasExtension(p: string) {
    exists k :: BaseStart(p) <= k < |p| && p[k] == '.' && !AllDots(p[BaseStart(p)..k])
  }

  /** POSIX `os.path.splitext(p)`: the pair (root, extension), whose
      concatenation is `p`. */
  function SplitExt(p: string): (r: (string, string))
    ensures r.0 + r.1 == p
  {
    var sepIndex := RFind(p, '/');
    var dotIndex := RFind(p, '.');
    if dotIndex > sepIndex && SkipsToNonDot(p, sepIndex + 1, dotIndex) then
      assert p[..dotIndex] + p[dotIndex..] == p;
      (p[..dotIndex], p[dotIndex..])
    else (p, "")
  }

  /** What `splitext` promises: there is an extension exactly when a dot of the
      final component follows a non-dot of that component; the extension is then
      the final dot and what follows it, which holds no other dot and no `/`, and
      the root keeps the directory part and a non-dot file name. */
  lemma SplitExtSpec(p: string)
    ensures var r := SplitExt(p);
      && (r.1 != "" <==> HasExtension(p))
      && (r.1 != "" ==> r.1[0] == '.' && '.' !in r.1[1..] && '/' !in r.1)
      && (r.1 != "" ==> BaseStart(p) <= |r.0| && !AllDots(r.0[BaseStart(p)..]))
  {
    var sepIndex := RFind(p, '/');
    var dotIndex := RFind(p, '.');
    if dotIndex > sepIndex && SkipsToNonDot(p, sepIndex + 1, dotIndex) {
      assert p[dotIndex..][1..] == p[dotIndex + 1..];
      assert p[..dotIndex][BaseStart(p)..] == p[BaseStart(p)..dotIndex];
    } else {
      NoExtension(p);
    }
  }

  lemma NoExtension(p: string)
    requires !(RFind(p, '.') > RFind(p, '/') && SkipsToNonDot(p, RFind(p, '/') + 1, RFind(p, '.')))
    ensures !HasExtension(p)
  {
    var bs := BaseStart(p);
    var dotIndex := RFind(p, '.');
    forall k | bs <= k < |p| && p[k] == '.'
      ensures AllDots(p[bs..k])
    {
      AllDotsPrefix(p, bs, k, dotIndex);
    }
  }

  lemma AllDotsPrefix(p: string, lo: nat, k: nat, hi: nat)
    requires lo <= k <= hi <= |p| && AllDots(p[lo..hi])
    ensures AllDots(p[lo..k])
  {
    assert p[lo..k] == p[lo..hi][..k - lo];
  }

  /** The key a translation is stored under: the original key without its
      extension, `_<language>` when a language is given, then `ext`. */
  function DerivedKey(originalKey: string, language: string, ext: string): string {
    SplitExt(originalKey).0 + KeySuffix(language, ext)
  }

  /** What follows the root: `_<language>` when a language is given, then `ext`. */
  function KeySuffix(language: string, ext: string): string {
    if language != "" then "_" + language + ext else ext
  }

  /** The key `upload_pdf_to_s3` writes to. */
  function PdfKey(originalKey: string, language: string): string {
    DerivedKey(originalKey, language, ".pdf")
  }

  /** The key `upload_markdown_to_s3` writes to. */
  function MarkdownKey(originalKey: string, language: string): string {
    DerivedKey(originalKey, language, ".md")
  }

  /** The shape of a derived key: it keeps the directory part of the original,
      starts with the original minus its extension, and ends with `_<language>`
      plus the output extension (or just the extension when no language is given). */
  lemma DerivedKeyShape(originalKey: string, language: string, ext: string)
    ensures var key := DerivedKey(originalKey, language, ext);
      var root := SplitExt(originalKey).0;
      && StartsWith(key, originalKey[..BaseStart(originalKey)])
      && StartsWith(key, root)
      && EndsWith(key, ext)
      && (language != "" ==> key[|root|..] == "_" + language + ext)
      && (language == "" ==> key[|root|..] == ext)
  {
    var p := originalKey;
    var root := SplitExt(p).0;
    var tail := KeySuffix(language, ext);
    RootKeepsDirectory(p);
    assert p[..BaseStart(p)] == root[..BaseStart(p)];
    assert tail[|tail| - |ext|..] == ext;
    AppendShape(root, tail, ext, BaseStart(p));
  }

  /** The root of `splitext` is a prefix of the path that keeps its directory part. */
  lemma RootKeepsDirectory(p: string)
    ensures var root := SplitExt(p).0;
      BaseStart(p) <= |root| && root == p[..|root|]
  {
    SplitExtSpec(p);
    var r := SplitExt(p);
    assert p[..|r.0|] == (r.0 + r.1)[..|r.0|];
  }

  lemma AppendShape(root: string, tail: string, ext: string, b: nat)
    requires b <= |root| && EndsWith(tail, ext)
    ensures StartsWith(root + tail, root[..b])
    ensures StartsWith(root + tail, root)
    ensures EndsWith(root + tail, ext)
    ensures (root + tail)[|root|..] == tail
  {
    var key := root + tail;
    assert key[..b] == root[..b];
    assert key[..|root|] == root;
    assert key[|key| - |ext|..] == tail[|tail| - |ext|..];
  }

  /** The language can be read back from the key, so different non-empty languages
      never collide on the same original key. */
  lemma LanguageRecoverable(originalKey: string, language: string, ext: string)
    requires language != ""
    ensures var key := DerivedKey(originalKey, language, ext);
      var root := SplitExt(originalKey).0;
      key[|root| + 1..|key| - |ext|] == language
  {
    var root := SplitExt(originalKey).0;
    var tail := KeySuffix(language, ext);
    assert tail == "_" + language + ext;
    assert tail[1..|tail| - |ext|] == language;
    assert (root + tail)[|root| + 1..|root + tail| - |ext|] == tail[1..|tail| - |ext|];
  }

  lemma {:induction false} DistinctLanguagesDistinctKeys(originalKey: string, l1: string, l2: string, ext: string)
    requires l1 != "" && l2 != "" && l1 != l2
    ensures DerivedKey(originalKey, l1, ext) != DerivedKey(originalKey, l2, ext)
  {
    LanguageRecoverable(originalKey, l1, ext);
    LanguageRecoverable(originalKey, l2, ext);
  }

  lemma {:induction false} RFindAppendWithout(s: string, t: string, c: char)
    requires c !in t
    ensures RFind(s + t, c) == RFind(s, c)
    decreases |t|
  {
    if t != [] {
      var t' := t[..|t| - 1];
      assert (s + t)[..|s + t| - 1] == s + t';
      assert t' + [t[|t| - 1]] == t;
      RFindAppendWithout(s, t', c);
    } else {
      assert s + t == s;
    }
  }

  lemma RFindLast(s: string, c: char)
    ensures RFind(s + [c], c) == |s|
  {
  }

  /** A key built from a directory part, a file stem and an extension splits back
      into the directory plus stem, and the extension. */
  lemma SplitExtParts(dir: string, stem: string, ext: string)
    requires dir == [] || dir[|dir| - 1] == '/'
    requires '/' !in stem && !AllDots(stem)
    requires |ext| >= 1 && ext[0] == '.' && '/' !in ext[1..] && '.' !in ext[1..]
    ensures SplitExt(dir + stem + ext) == (dir + stem, ext)
  {
    var p := dir + stem + ext;
    var idx := |dir| + |stem|;
    RFindExtDot(dir + stem, ext);
    assert p == dir + (stem + ext);
    RFindDirSlash(dir, stem + ext);
    assert p[|dir|..idx] == stem;
    SplitExtAt(p, idx);
    assert p[..idx] == dir + stem;
    assert p[idx..] == ext;
  }

  /** With its last dot after its last slash and a non-dot between them, a path
      splits at that dot. */
  lemma SplitExtAt(p: string, d: int)
    requires RFind(p, '.') == d && RFind(p, '/') < d
    requires !AllDots(p[RFind(p, '/') + 1..d])
    ensures SplitExt(p) == (p[..d], p[d..])
  {
  }

  /** The last dot of a name followed by an extension is the extension's. */
  lemma RFindExtDot(base: string, ext: string)
    requires |ext| >= 1 && ext[0] == '.' && '.' !in ext[1..]
    ensures RFind(base + ext, '.') == |base|
  {
    assert base + ext == (base + ['.']) + ext[1..];
    RFindAppendWithout(base + ['.'], ext[1..], '.');
    RFindLast(base, '.');
  }

  /** The last slash of a directory part followed by a slash-free name is the
      directory's own, or none. */
  lemma RFindDirSlash(dir: string, name: string)
    requires dir == [] || dir[|dir| - 1] == '/'
    requires '/' !in name
    ensures RFind(dir + name, '/') == |dir| - 1
  {
    RFindAppendWithout(dir, name, '/');
    if dir != [] {
      assert dir == dir[..|dir| - 1] + ['/'];
      RFindLast(dir[..|dir| - 1], '/');
    }
  }

  /** A key whose file name has no dot has no extension. */
  lemma SplitExtNoDot(dir: string, name: string)
    requires dir == [] || dir[|dir| - 1] == '/'
    requires '/' !in name && '.' !in name
    ensures SplitExt(dir + name) == (dir + name, "")
  {
    var p := dir + name;
    RFindAppendWithout(dir, name, '.');
    RFindAppendWithout(dir, name, '/');
    if dir != [] {
      assert dir == dir[..|dir| - 1] + ['/'];
      RFindLast(dir[..|dir| - 1], '/');
    }
  }

  /** A hidden file name such as `.bashrc`: its only dot leads the name, so it
      has no extension. */
  lemma SplitExtHiddenFile(dir: string, name: string)
    requires dir == [] || dir[|dir| - 1] == '/'
    requires '/' !in name && '.' !in name
    ensures SplitExt(dir + "." + name) == (dir + "." + name, "")
  {
    var p := dir + "." + name;
    RFindAppendWithout(dir + ".", name, '.');
    RFindLast(dir, '.');
    assert '/' !in "." + name;
    assert p == dir + ("." + name);
    RFindAppendWithout(dir, "." + name, '/');
    if dir != [] {
      assert dir == dir[..|dir| - 1] + ['/'];
      RFindLast(dir[..|dir| - 1], '/');
    }
    assert RFind(p, '.') == RFind(p, '/') + 1;
  }

  /** The PDF key of `dir/stem.ext` for a language: `dir/stem_<language>.pdf`. */
  lemma PdfKeyOf(dir: string, stem: string, ext: string, language: string)
    requires dir == [] || dir[|dir| - 1] == '/'
    requires '/' !in stem && !AllDots(stem)
    requires |ext| >= 1 && ext[0] == '.' && '/' !in ext[1..] && '.' !in ext[1..]
    requires language != ""
    ensures PdfKey(dir + stem + ext, language) == dir + stem + "_" + language + ".pdf"
  {
    SplitExtParts(dir, stem, ext);
  }

  lemma PdfKeyExampleNoLanguage()
    ensures PdfKey("notes", "") == "notes.pdf"
  {
    SplitExtNoDot("", "notes");
    assert "" + "notes" == "notes";
  }
}
