/** Names of new and backed up binaries (cmd/storagenode-updater/path.go). */
module BinaryPaths {
  import opened Sequences

  function Dir(path: string): string {
    path[..LastIndex(path, '/') + 1]
  }

  function Base(path: string): string {
    path[LastIndex(path, '/') + 1..]
  }

  /** Where the extension of a name begins: at its last dot, or at its end. */
  function ExtAt(base: string): (n: nat)
    ensures n <= |base|
    ensures n < |base| ==> base[n] == '.'
  {
    var n := LastIndex(base, '.');
    if n < 0 then |base| else n
  }

  function Stem(path: string): string {
    Base(path)[..ExtAt(Base(path))]
  }

  /** The extension, with its dot, of the last element of a path. */
  function Ext(path: string): string {
    Base(path)[ExtAt(Base(path))..]
  }

  function PrependExtension(path: string, ext: string): string {
    Dir(path) + (Stem(path) + ("." + ext + Ext(path)))
  }

  lemma BaseParts(path: string)
    ensures Base(path) == Stem(path) + Ext(path) && (Ext(path) == "" || Ext(path)[0] == '.')
  {
    var base := Base(path);
    assert base == base[..ExtAt(base)] + base[ExtAt(base)..];
  }

  lemma PathParts(path: string)
    ensures path == Dir(path) + (Stem(path) + Ext(path))
  {
    BaseParts(path);
  }

  /** The inserted extension stands in front of the original one: behind the last directory, and in front of the last
      dot of the name, or at its end when it has none. */
  ghost predicate HasInserted(path: string, ext: string, longer: string) {
    exists dir, name, tail :: InsertedAt(path, ext, longer, dir, name, tail)
  }

  predicate InsertedAt(path: string, ext: string, longer: string, dir: string, name: string, tail: string) {
    && path == dir + (name + tail) && longer == dir + (name + ("." + ext + tail))
    && (dir == "" || dir[|dir| - 1] == '/') && '/' !in name && '/' !in tail
    && if tail == "" then '.' !in name else tail[0] == '.' && '.' !in tail[1..]
  }

  /** Neither part of the name holds a slash, and the extension begins at the last dot. */
  lemma NameIsPlain(path: string)
    ensures '/' !in Stem(path) && '/' !in Ext(path)
    ensures if Ext(path) == "" then '.' !in Stem(path) else '.' !in Ext(path)[1..]
  {
    var base := Base(path);
    assert '/' !in base;
    assert forall c :: c in base[..ExtAt(base)] || c in base[ExtAt(base)..] ==> c in base;
    assert Ext(path) != "" ==> Ext(path)[1..] == base[ExtAt(base) + 1..];
    assert Ext(path) == "" ==> Stem(path) == base;
  }

  lemma ExtensionIsInserted(path: string, ext: string)
    ensures HasInserted(path, ext, PrependExtension(path, ext))
  {
    PathParts(path);
    BaseParts(path);
    NameIsPlain(path);
    assert InsertedAt(path, ext, PrependExtension(path, ext), Dir(path), Stem(path), Ext(path));
  }

  lemma ExtensionIsLonger(path: string, ext: string)
    ensures |PrependExtension(path, ext)| == |path| + 1 + |ext|
  {
    PathParts(path);
  }

  lemma SameHead(d: string, a: string, b: string)
    ensures d + a == d + b <==> a == b
  {
    assert (d + a)[|d|..] == a && (d + b)[|d|..] == b;
  }

  lemma SameTail(d: string, a: string, b: string)
    ensures a + d == b + d <==> a == b
  {
    assert (a + d)[..|a + d| - |d|] == a && (b + d)[..|b + d| - |d|] == b;
  }

  /** Different extensions give different paths. */
  lemma ExtensionMatters(path: string, e: string, e': string)
    ensures PrependExtension(path, e) == PrependExtension(path, e') <==> e == e'
  {
    SameHead(Dir(path), Stem(path) + ("." + e + Ext(path)), Stem(path) + ("." + e' + Ext(path)));
    SameHead(Stem(path), "." + e + Ext(path), "." + e' + Ext(path));
    SameTail(Ext(path), "." + e, "." + e');
    SameHead(".", e, e');
  }

  /** A name up to its first dot. */
  function Head(name: string): string {
    var n := FirstIndex(name, '.');
    if n < 0 then name else name[..n]
  }

  /** What follows a dot does not belong to the head. */
  lemma HeadStays(name: string, x: string)
    requires x == "" || x[0] == '.'
    ensures Head(name + x) == Head(name)
  {
    FirstIndexAppend(name, x, '.');
    if FirstIndex(name, '.') >= 0 {
      assert (name + x)[..FirstIndex(name, '.')] == name[..FirstIndex(name, '.')];
    } else if x == "" {
      assert name + x == name;
    } else {
      assert FirstIndex(x, '.') == 0;
      assert (name + x)[..|name|] == name;
    }
  }

  /** Two binaries of one directory whose names differ up to their first dots. */
  predicate DifferentNames(p: string, q: string) {
    Dir(p) == Dir(q) && Head(Base(p)) != Head(Base(q))
  }

  lemma HeadOfStem(path: string)
    ensures Head(Base(path)) == Head(Stem(path))
  {
    BaseParts(path);
    HeadStays(Stem(path), Ext(path));
  }

  /** Binaries of one directory whose names differ up to their first dots have disjoint paths. */
  lemma NamesKeepApart(p: string, q: string, e: string, e': string)
    requires DifferentNames(p, q)
    ensures PrependExtension(p, e) != PrependExtension(q, e') && PrependExtension(p, e) != q
  {
    PathParts(q);
    HeadOfStem(p);
    HeadOfStem(q);
    var x, y := "." + e + Ext(p), "." + e' + Ext(q);
    HeadStays(Stem(p), x);
    HeadStays(Stem(q), y);
    HeadStays(Stem(q), Ext(q));
    SameHead(Dir(p), Stem(p) + x, Stem(q) + y);
    SameHead(Dir(p), Stem(p) + x, Stem(q) + Ext(q));
  }

  predicate NoSlash(s: string) {
    forall i :: 0 <= i < |s| ==> s[i] != '/'
  }

  lemma NoSlashTogether(a: string, b: string)
    requires NoSlash(a) && NoSlash(b)
    ensures NoSlash(a + b)
  {
  }

  lemma NoSlashInName(base: string, at: nat, ext: string)
    requires NoSlash(base) && at <= |base| && NoSlash(ext)
    ensures NoSlash(base[..at] + ("." + ext + base[at..]))
  {
    assert NoSlash(base[..at]) && NoSlash(base[at..]) && NoSlash(".");
    NoSlashTogether(".", ext);
    NoSlashTogether("." + ext, base[at..]);
    NoSlashTogether(base[..at], "." + ext + base[at..]);
  }

  lemma DirOf(dir: string, name: string)
    requires NoSlash(name) && (dir == "" || dir[|dir| - 1] == '/')
    ensures Dir(dir + name) == dir
  {
    if dir == "" {
      assert dir + name == name;
    } else {
      var init := dir[..|dir| - 1];
      assert dir == init + ['/'];
      LastIndexBefore(init, name, '/');
    }
  }

  /** The directory of a path is what it is when an extension without slash is put in. */
  lemma DirStays(path: string, ext: string)
    requires '/' !in ext
    ensures Dir(PrependExtension(path, ext)) == Dir(path)
  {
    assert NoSlash(Base(path)) && NoSlash(ext);
    NoSlashInName(Base(path), ExtAt(Base(path)), ext);
    DirOf(Dir(path), Stem(path) + ("." + ext + Ext(path)));
  }

  /** Binaries of different directories have disjoint paths when the extensions have no slash. */
  lemma DirsKeepApart(p: string, q: string, e: string, e': string)
    requires Dir(p) != Dir(q) && '/' !in e && '/' !in e'
    ensures PrependExtension(p, e) != PrependExtension(q, e') && PrependExtension(p, e) != q
  {
    DirStays(p, e);
    DirStays(q, e');
  }
}
