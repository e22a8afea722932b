/**
 The file tree that the news server writes its articles to (ops/pkgs/nntpd/nntpd.go, writeArticle and loadSpool).
 A path is the list of its components from the root of the file system.
 */
module Spool {
  import opened Common
  import opened Text

  type Path = seq<string>

  /** The server's directory, and for each directory there is its plain files by name. */
  datatype Disk = Disk(spool: Path, dirs: map<Path, map<string, string>>)

  /** The longest name of a file. */
  const NAME_MAX := 255

  /** What can be the name of a single file or directory. */
  predicate IsName(c: string) {
    c != "" && c != "." && c != ".." && '/' !in c && '\0' !in c && |c| <= NAME_MAX
  }

  /** filepath.Join, one component at a time. */
  function Enter(at: Path, part: string): Path {
    if part == "" || part == "." then at
    else if part == ".." then if at == [] then [] else at[..|at| - 1]
    else at + [part]
  }

  function Walk(at: Path, parts: seq<string>): Path
    decreases parts
  {
    if parts == [] then at else Walk(Enter(at, parts[0]), parts[1..])
  }

  function PathOf(spool: Path, gname: string): Path {
    Walk(spool, Split(gname, '/'))
  }

  predicate IsFile(d: Disk, p: Path) {
    p != [] && p[..|p| - 1] in d.dirs && p[|p| - 1] in d.dirs[p[..|p| - 1]]
  }

  /** os.MkdirAll: the directories it makes before it fails, if it does, stay. */
  function MkdirAll(d: Disk, p: Path): (r: (Disk, bool))
    ensures r.0.spool == d.spool && (r.1 ==> p in r.0.dirs)
  {
    if p in d.dirs then (d, true)
    else if p == [] || IsFile(d, p) then (d, false)
    else
      var (parent, ok) := MkdirAll(d, p[..|p| - 1]);
      if ok && IsName(p[|p| - 1]) then (parent.(dirs := parent.dirs[p := map[]]), true) else (parent, false)
  }

  /** os.WriteFile, which fails on a directory. */
  function WriteFile(d: Disk, dir: Path, name: string, text: string): Disk
    requires dir in d.dirs
  {
    if dir + [name] in d.dirs then d else d.(dirs := d.dirs[dir := d.dirs[dir][name := text]])
  }

  /** writeArticle: failures are logged and passed over. */
  function Written(d: Disk, gname: string, num: nat, text: string): Disk {
    var dir := PathOf(d.spool, gname);
    var (made, ok) := MkdirAll(d, dir);
    if ok then WriteFile(made, dir, Itoa(num), text) else made
  }

  /** What loadSpool finds: a directory right below the spool. */
  predicate HasDir(d: Disk, name: string) {
    d.spool + [name] in d.dirs
  }

  /** The plain files in it. */
  function FilesIn(d: Disk, name: string): map<string, string> {
    if d.spool + [name] in d.dirs then d.dirs[d.spool + [name]] else map[]
  }

  /** The same directories are found, with the same files, but for `gname`, which has `files`. */
  ghost predicate FoundWith(d: Disk, d': Disk, gname: string, files: map<string, string>) {
    && (forall name :: HasDir(d', name) <==> name == gname || HasDir(d, name))
    && (forall name :: FilesIn(d', name) == if name == gname then files else FilesIn(d, name))
  }

  /** All components are names. */
  ghost predicate Named(p: Path) {
    forall k :: 0 <= k < |p| ==> IsName(p[k])
  }

  ghost predicate WellNamed(d: Disk) {
    forall p :: p in d.dirs ==> Named(p)
  }

  /** A spool with nothing in it but directories, one level deep. */
  ghost predicate Flat(d: Disk) {
    && WellNamed(d)
    && (forall k :: 0 <= k <= |d.spool| ==> d.spool[..k] in d.dirs)
    && d.spool in d.dirs && d.dirs[d.spool] == map[]
    && (forall p :: p in d.dirs && d.spool < p ==> |p| == |d.spool| + 1)
  }

  lemma NamePath(spool: Path, gname: string)
    requires IsName(gname)
    ensures PathOf(spool, gname) == spool + [gname]
  {
    SplitLast(gname, '/');
    assert [gname][1..] == [];
    assert Walk(spool, [gname]) == Walk(spool + [gname], []);
  }

  lemma SubPath(spool: Path, name: string, other: string)
    ensures spool + [name] == spool + [other] <==> name == other
    ensures (spool + [name])[..|spool|] == spool && spool < spool + [name]
  {
    assert (spool + [name])[|spool|] == name && (spool + [other])[|spool|] == other;
  }

  lemma MkdirFlat(d: Disk, gname: string)
    requires Flat(d) && IsName(gname)
    ensures var dir := d.spool + [gname];
            MkdirAll(d, dir) == (if dir in d.dirs then d else d.(dirs := d.dirs[dir := map[]]), true)
  {
    var dir := d.spool + [gname];
    SubPath(d.spool, gname, gname);
    assert dir[..|dir| - 1] == d.spool && dir[|dir| - 1] == gname;
    assert MkdirAll(d, d.spool) == (d, true);
  }

  lemma WrittenAt(d: Disk, gname: string, num: nat, text: string)
    requires Flat(d) && IsName(gname)
    ensures var dir := d.spool + [gname];
      Written(d, gname, num, text) == d.(dirs := d.dirs[dir := FilesIn(d, gname)[Itoa(num) := text]])
  {
    var dir := d.spool + [gname];
    NamePath(d.spool, gname);
    MkdirFlat(d, gname);
    assert d.spool < dir + [Itoa(num)];
    var made := MkdirAll(d, dir).0;
    assert dir + [Itoa(num)] !in made.dirs;
  }

  lemma FlatWith(d: Disk, d': Disk, gname: string, files: map<string, string>)
    requires Flat(d) && IsName(gname) && d' == d.(dirs := d.dirs[d.spool + [gname] := files])
    ensures Flat(d')
  {
    assert Named(d.spool) && Named(d.spool + [gname]);
    SubPath(d.spool, gname, gname);
    forall k | 0 <= k <= |d.spool| ensures d.spool[..k] in d'.dirs {
      assert d.spool[..k] in d.dirs;
    }
  }

  lemma DirsWith(d: Disk, d': Disk, gname: string, files: map<string, string>)
    requires d' == d.(dirs := d.dirs[d.spool + [gname] := files])
    ensures FoundWith(d, d', gname, files)
  {
    forall name
      ensures HasDir(d', name) <==> name == gname || HasDir(d, name)
      ensures FilesIn(d', name) == if name == gname then files else FilesIn(d, name)
    {
      SubPath(d.spool, gname, name);
    }
  }

  /** For such a name the article goes to the file it is meant for, and the spool stays flat. */
  lemma WrittenFlat(d: Disk, gname: string, num: nat, text: string)
    requires Flat(d) && IsName(gname)
    ensures var d' := Written(d, gname, num, text);
      Flat(d') && d'.spool == d.spool && FoundWith(d, d', gname, FilesIn(d, gname)[Itoa(num) := text])
  {
    WrittenAt(d, gname, num, text);
    var files := FilesIn(d, gname)[Itoa(num) := text];
    FlatWith(d, Written(d, gname, num, text), gname, files);
    DirsWith(d, Written(d, gname, num, text), gname, files);
  }

  // ---------- other names ----------

  lemma {:induction false} MkdirNamed(d: Disk, p: Path)
    requires WellNamed(d)
    ensures WellNamed(MkdirAll(d, p).0)
  {
    if p !in d.dirs && p != [] && !IsFile(d, p) {
      var init := p[..|p| - 1];
      MkdirNamed(d, init);
      if MkdirAll(d, init).1 && IsName(p[|p| - 1]) {
        assert Named(init);
        assert forall k :: 0 <= k < |init| ==> p[k] == init[k];
      }
    }
  }

  /** Whatever is written, no directory gets a name that is none. */
  lemma WrittenNamed(d: Disk, gname: string, num: nat, text: string)
    requires WellNamed(d)
    ensures WellNamed(Written(d, gname, num, text)) && Written(d, gname, num, text).spool == d.spool
  {
    MkdirNamed(d, PathOf(d.spool, gname));
  }

  lemma OnlyNamesListed(d: Disk, name: string)
    requires WellNamed(d) && HasDir(d, name)
    ensures IsName(name)
  {
    var p := d.spool + [name];
    assert Named(p) && p[|d.spool|] == name;
  }

  /** The directory has a file with this text. */
  predicate FileAt(d: Disk, p: Path, name: string, text: string) {
    p in d.dirs && name in d.dirs[p] && d.dirs[p][name] == text
  }

  lemma {:induction false} MkdirFiles(d: Disk, q: Path, p: Path, name: string, text: string)
    requires FileAt(MkdirAll(d, q).0, p, name, text)
    ensures FileAt(d, p, name, text)
  {
    if q !in d.dirs && q != [] && !IsFile(d, q) {
      if FileAt(MkdirAll(d, q[..|q| - 1]).0, p, name, text) {
        MkdirFiles(d, q[..|q| - 1], p, name, text);
      }
    }
  }

  /** Whatever is written, every file has the new text or is an old one. */
  lemma WrittenFiles(d: Disk, gname: string, num: nat, text: string, p: Path, name: string, x: string)
    requires FileAt(Written(d, gname, num, text), p, name, x)
    ensures x == text || FileAt(d, p, name, x)
  {
    var q := PathOf(d.spool, gname);
    if x != text {
      assert FileAt(MkdirAll(d, q).0, p, name, x);
      MkdirFiles(d, q, p, name, x);
    }
  }

  /**
   Where a group's directory is: right below the spool for a name, the spool itself for "." and the empty name, the
   directory above it for "..", and part by part for a name with slashes.
   */
  lemma PathMeaning(spool: Path, gname: string, rest: string)
    requires '/' !in gname
    ensures PathOf(spool, gname) == (if gname == "" || gname == "." then spool
                                     else if gname == ".." then (if spool == [] then [] else spool[..|spool| - 1])
                                     else spool + [gname])
    ensures PathOf(spool, gname + "/" + rest) == PathOf(PathOf(spool, gname), rest)
  {
    SplitLast(gname, '/');
    SplitCons(gname, rest, '/');
    assert [gname][1..] == [];
    assert ([gname] + Split(rest, '/'))[1..] == Split(rest, '/');
    assert Walk(spool, [gname]) == Walk(Enter(spool, gname), []);
  }

  lemma NestedPath(spool: Path, x: string, y: string)
    requires IsName(x) && IsName(y)
    ensures PathOf(spool, x + "/" + y) == spool + [x] + [y]
  {
    assert x + "/" + y == x + ['/'] + y;
    SplitCons(x, y, '/');
    SplitLast(y, '/');
    assert [x, y][1..] == [y] && [y][1..] == [];
    assert Walk(spool, [x, y]) == Walk(spool + [x], [y]);
    assert Walk(spool + [x], [y]) == Walk(spool + [x] + [y], []);
  }

  lemma MkdirNested(d: Disk, x: string, y: string, made: Disk)
    requires Flat(d) && IsName(x) && IsName(y) && d.spool + [x] !in d.dirs
    requires made == d.(dirs := d.dirs[d.spool + [x] := map[]])
    ensures var dir := d.spool + [x] + [y];
            MkdirAll(d, dir) == (made.(dirs := made.dirs[dir := map[]]), true)
  {
    var top, dir := d.spool + [x], d.spool + [x] + [y];
    MkdirFlat(d, x);
    assert dir[..|dir| - 1] == top && dir[|dir| - 1] == y;
    assert d.spool < dir;
    assert dir !in d.dirs;
  }

  /** An article for x/y goes one level deeper, and makes a directory x without files. */
  lemma WrittenNested(d: Disk, x: string, y: string, num: nat, text: string)
    requires Flat(d) && IsName(x) && IsName(y) && !HasDir(d, x)
    ensures FoundWith(d, Written(d, x + "/" + y, num, text), x, map[])
  {
    var dir := d.spool + [x] + [y];
    var made := d.(dirs := d.dirs[d.spool + [x] := map[]]);
    NestedPath(d.spool, x, y);
    MkdirNested(d, x, y, made);
    DirsWith(d, made, x, map[]);
    DeepWritten(made, dir, Itoa(num), text);
  }

  /** If y cannot be a name, nothing is written, but the directory x has been made. */
  lemma WrittenHalf(d: Disk, x: string, y: string, num: nat, text: string)
    requires Flat(d) && IsName(x) && !HasDir(d, x)
    requires '/' !in y && y != "" && y != "." && y != ".." && !IsName(y)
    ensures FoundWith(d, Written(d, x + "/" + y, num, text), x, map[])
  {
    var top, dir := d.spool + [x], d.spool + [x] + [y];
    PathMeaning(d.spool, x, y);
    PathMeaning(top, y, "");
    MkdirFlat(d, x);
    assert dir[..|dir| - 1] == top && dir[|dir| - 1] == y;
    assert dir !in d.dirs;
    DirsWith(d, d.(dirs := d.dirs[top := map[]]), x, map[]);
  }

  lemma DeepWritten(d: Disk, dir: Path, name: string, text: string)
    requires |dir| == |d.spool| + 2
    ensures SameFound(d, WriteFile(d.(dirs := d.dirs[dir := map[]]), dir, name, text))
  {
    var deep := d.(dirs := d.dirs[dir := map[]]);
    DeepUnseen(d, dir, map[]);
    DeepUnseen(deep, dir, deep.dirs[dir][name := text]);
  }

  ghost predicate SameFound(d: Disk, d': Disk) {
    forall name :: (HasDir(d', name) <==> HasDir(d, name)) && FilesIn(d', name) == FilesIn(d, name)
  }

  /** What is further down than one level is not found. */
  lemma DeepUnseen(d: Disk, dir: Path, files: map<string, string>)
    requires |dir| != |d.spool| + 1
    ensures SameFound(d, d.(dirs := d.dirs[dir := files]))
  {
    forall name ensures d.spool + [name] != dir {
      assert |d.spool + [name]| == |d.spool| + 1;
    }
  }

  lemma {:induction false} MkdirGrows(d: Disk, p: Path)
    ensures d.dirs.Keys <= MkdirAll(d, p).0.dirs.Keys
  {
    if p !in d.dirs && p != [] && !IsFile(d, p) {
      MkdirGrows(d, p[..|p| - 1]);
    }
  }

  /** No directory is lost. */
  lemma WrittenGrows(d: Disk, gname: string, num: nat, text: string, name: string)
    requires HasDir(d, name)
    ensures HasDir(Written(d, gname, num, text), name)
  {
    MkdirGrows(d, PathOf(d.spool, gname));
  }
}
