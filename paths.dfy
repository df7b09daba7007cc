/** The two file-name conventions of the plugin: the file a partial reference
    names, and the JSON data file that sits next to an entry template. The
    path operations follow Node's POSIX `path` module on paths that are
    already normalised. */
module Paths {

  const Separator: char := '/'
  const TemplateExtension: string := ".hbs"
  const DataExtension: string := ".json"

  // ---------------------------------------------------------------------------
  // Partial paths: `{{> name}}` is looked up in the file `name.hbs`

  /** The file a partial reference names. */
  function PartialPath(name: string): (p: string)
  {
    name + TemplateExtension
  }

  predicate IsPartialPath(p: string)
  {
    |p| >= |TemplateExtension| && p[|p| - |TemplateExtension|..] == TemplateExtension
  }

  /** The partial name a template path belongs to. */
  function NameOf(p: string): (name: string)
    requires IsPartialPath(p)
  {
    p[..|p| - |TemplateExtension|]
  }

  lemma PartialPathRoundTrip(name: string)
    ensures IsPartialPath(PartialPath(name))
    ensures NameOf(PartialPath(name)) == name
  {
    assert PartialPath(name)[..|name|] == name;
  }

  lemma NameOfRoundTrip(p: string)
    requires IsPartialPath(p)
    ensures PartialPath(NameOf(p)) == p
  {
    assert NameOf(p) + p[|p| - |TemplateExtension|..] == p;
  }

  /** Under this model's `name + ".hbs"` rule, distinct partial names never
      share a file. */
  lemma PartialPathInjective(a: string, b: string)
    ensures PartialPath(a) == PartialPath(b) <==> a == b
  {
    if PartialPath(a) == PartialPath(b) {
      PartialPathRoundTrip(a);
      PartialPathRoundTrip(b);
    }
  }

  // ---------------------------------------------------------------------------
  // Splitting a path: path.dirname, path.basename, path.extname

  /** Index of the last occurrence of `c` among the first `n` characters of
      `s`, or -1. */
  function LastIndexBelow(s: string, c: char, n: nat): (k: int)
    requires n <= |s|
    ensures -1 <= k < n
    ensures 0 <= k ==> s[k] == c
    ensures forall j :: k < j < n ==> s[j] != c
  {
    if n == 0 then -1
    else if s[n - 1] == c then n - 1
    else LastIndexBelow(s, c, n - 1)
  }

  /** Index of the last occurrence of `c` in `s`, or -1. */
  function LastIndexOf(s: string, c: char): (k: int)
    ensures -1 <= k < |s|
    ensures 0 <= k ==> s[k] == c
    ensures forall j :: k < j < |s| ==> s[j] != c
  {
    LastIndexBelow(s, c, |s|)
  }

  /** The directory part of a path including its final separator ("" when
      the path has no separator): what `path.join(path.dirname(f), x)`
      puts in front of `x`. */
  function DirPrefix(file: string): (d: string)
    ensures d <= file
    ensures d == [] || d[|d| - 1] == Separator
  {
    file[..LastIndexOf(file, Separator) + 1]
  }

  /** `path.basename(file)`: the part after the last separator. */
  function BaseName(file: string): (b: string)
    ensures DirPrefix(file) + b == file
    ensures Separator !in b
  {
    var k := LastIndexOf(file, Separator);
    SplitAt(file, k + 1);
    AbsentAfter(file, Separator, k);
    file[k + 1..]
  }

  lemma SplitAt(s: string, n: nat)
    requires n <= |s|
    ensures s[..n] + s[n..] == s
  {
  }

  lemma AbsentAfter(s: string, c: char, k: int)
    requires -1 <= k < |s|
    requires forall j :: k < j < |s| ==> s[j] != c
    ensures c !in s[k + 1..]
  {
    var t := s[k + 1..];
    forall i | 0 <= i < |t| ensures t[i] != c {
      assert t[i] == s[k + 1 + i];
    }
  }

  /** `path.extname(base)` for a base name: from the last dot onwards, except
      that a base name without a dot, a base name whose only dot is its
      first character, and ".." have no extension. */
  function ExtName(base: string): (e: string)
  {
    var k := LastIndexOf(base, '.');
    if k <= 0 || base == ".." then "" else base[k..]
  }

  /** `path.basename(file, path.extname(file))` for a base name. */
  function Stem(base: string): (s: string)
  {
    base[..|base| - |ExtName(base)|]
  }

  /** The extension is a suffix of the base name; it is empty, or it starts
      with a dot and holds no other. */
  lemma ExtNameShape(base: string)
    ensures var e := ExtName(base);
            |e| <= |base| && base[|base| - |e|..] == e &&
            (e == [] || (e[0] == '.' && '.' !in e[1..]))
  {
    var k := LastIndexOf(base, '.');
    if 0 < k && base != ".." {
      AbsentAfter(base, '.', k);
      assert base[k..][1..] == base[k + 1..];
    }
  }

  /** The stem followed by the extension is the base name. */
  lemma StemAndExtName(base: string)
    ensures Stem(base) + ExtName(base) == base
  {
    ExtNameShape(base);
  }

  /** The data file of an entry template: same directory, same base name
      without its extension, followed by ".json". */
  function DataFile(file: string): (p: string)
  {
    DirPrefix(file) + Stem(BaseName(file)) + DataExtension
  }

  // ---------------------------------------------------------------------------
  // Properties of the data-file rule

  /** A path made of a directory prefix and a separator-free base name splits
      back into exactly those two parts. */
  lemma {:induction false} SplitJoin(dir: string, base: string)
    requires dir == [] || dir[|dir| - 1] == Separator
    requires Separator !in base
    ensures DirPrefix(dir + base) == dir
    ensures BaseName(dir + base) == base
  {
    var s := dir + base;
    var k := LastIndexOf(s, Separator);
    if dir != [] {
      assert s[|dir| - 1] == Separator;
    }
    assert k == |dir| - 1;
    assert s[..k + 1] == dir;
  }

  lemma AbsentFromPrefix(s: string, c: char, n: nat)
    requires n <= |s| && c !in s
    ensures c !in s[..n]
  {
    var t := s[..n];
    forall i | 0 <= i < |t| ensures t[i] != c {
      assert t[i] == s[i];
    }
  }

  lemma AbsentFromConcat(s: string, t: string, c: char)
    requires c !in s && c !in t
    ensures c !in s + t
  {
    var u := s + t;
    forall i | 0 <= i < |u| ensures u[i] != c {
      if i < |s| { assert u[i] == s[i]; } else { assert u[i] == t[i - |s|]; }
    }
  }

  lemma ConcatAssociates(a: string, b: string, c: string)
    ensures a + b + c == a + (b + c)
  {
  }

  lemma StemAbsent(base: string, c: char)
    requires c !in base
    ensures c !in Stem(base)
  {
    AbsentFromPrefix(base, c, |base| - |ExtName(base)|);
  }

  lemma ExtensionsHaveNoSeparator()
    ensures Separator !in DataExtension && Separator !in TemplateExtension
  {
  }

  /** The data file is the entry's directory prefix followed by a base name
      without separators. */
  lemma DataFileSplits(file: string)
    ensures DataFile(file) == DirPrefix(file) + (Stem(BaseName(file)) + DataExtension)
    ensures Separator !in Stem(BaseName(file)) + DataExtension
  {
    var stem := Stem(BaseName(file));
    StemAbsent(BaseName(file), Separator);
    ExtensionsHaveNoSeparator();
    AbsentFromConcat(stem, DataExtension, Separator);
    ConcatAssociates(DirPrefix(file), stem, DataExtension);
  }

  /** The data file lies in the entry's own directory, and its base name is
      the entry's base name with the extension replaced by ".json". */
  lemma DataFileSameDirectory(file: string)
    ensures DirPrefix(DataFile(file)) == DirPrefix(file)
    ensures BaseName(DataFile(file)) == Stem(BaseName(file)) + DataExtension
  {
    DataFileSplits(file);
    SplitJoin(DirPrefix(file), Stem(BaseName(file)) + DataExtension);
  }

  /** The last occurrence of `c` in `s + t` is the first character of `t`
      when `t` starts with `c` and holds no other. */
  lemma {:induction false} LastIndexAtSuffix(s: string, t: string, c: char)
    requires t != [] && t[0] == c && c !in t[1..]
    ensures LastIndexOf(s + t, c) == |s|
  {
    var u := s + t;
    var k := LastIndexOf(u, c);
    assert u[|s|] == c;
  }

  lemma TemplateSplits(dir: string, stem: string)
    requires dir == [] || dir[|dir| - 1] == Separator
    requires Separator !in stem
    ensures DirPrefix(dir + stem + TemplateExtension) == dir
    ensures BaseName(dir + stem + TemplateExtension) == stem + TemplateExtension
  {
    ExtensionsHaveNoSeparator();
    AbsentFromConcat(stem, TemplateExtension, Separator);
    ConcatAssociates(dir, stem, TemplateExtension);
    SplitJoin(dir, stem + TemplateExtension);
  }

  lemma TemplateStem(stem: string)
    requires stem != []
    ensures Stem(stem + TemplateExtension) == stem
  {
    var base := stem + TemplateExtension;
    LastIndexAtSuffix(stem, TemplateExtension, '.');
    assert base[|stem|..] == TemplateExtension;
    assert ExtName(base) == TemplateExtension;
  }

  /** A template `dir/stem.hbs` has the data file `dir/stem.json`. */
  lemma DataFileOfTemplate(dir: string, stem: string)
    requires dir == [] || dir[|dir| - 1] == Separator
    requires stem != [] && Separator !in stem
    ensures DataFile(dir + stem + TemplateExtension) == dir + stem + DataExtension
  {
    TemplateSplits(dir, stem);
    TemplateStem(stem);
  }

  /** A file without an extension gets ".json" appended. */
  lemma DataFileWithoutExtension(file: string)
    requires ExtName(BaseName(file)) == ""
    ensures DataFile(file) == file + DataExtension
  {
    assert Stem(BaseName(file)) == BaseName(file);
  }
}
