/** Path derivation for a site-specific browser (SSB): where its private
    directory, its icon and its launcher descriptor live.

    `PathUtils.join` is modelled as concatenation with a "/" separator, and
    the applications directory as the literal string the source uses. */
module Paths {

  type Path = string

  /** The per-user launcher directory, written with an unexpanded "~". */
  const ApplicationsDir: Path := "~/.local/share/applications"

  /** `q` lies strictly inside the directory `p`. */
  predicate Below(q: Path, p: Path) {
    p + "/" <= q
  }

  /** `q` is `p` itself or lies inside it: what a recursive removal of `p` reaches. */
  predicate Under(q: Path, p: Path) {
    q == p || Below(q, p)
  }

  /** The profile directory Firefox reports is always an absolute path. */
  predicate IsAbsolute(p: Path) {
    |p| > 0 && p[0] == '/'
  }

  /** `PathUtils.join(base, name)`: `name` as an entry directly inside `base`. */
  function Join(base: Path, name: string): (p: Path)
    ensures Below(p, base)
    ensures |p| == |base| + 1 + |name| && p[|base| + 1..] == name
  {
    base + "/" + name
  }

  /** The directory that holds every SSB's private directory. */
  function SsbRoot(profileDir: Path): (p: Path)
    ensures Below(p, profileDir)
  {
    Join(profileDir, "ssb")
  }

  /** `<profileDir>/ssb/<id>`, computed alike by install and uninstall. */
  function PrivateDir(profileDir: Path, id: string): (p: Path)
    ensures Below(p, SsbRoot(profileDir)) && Below(p, profileDir)
  {
    Join(SsbRoot(profileDir), id)
  }

  /** `<dir>/icon.png`. */
  function IconPath(dir: Path): (p: Path)
    ensures Below(p, dir) && p != dir
  {
    Join(dir, "icon.png")
  }

  /** The launcher's file name, `floorp-<name>-<id>.desktop`. */
  function LauncherName(name: string, id: string): (f: string)
    ensures "floorp-" <= f
    ensures |f| == 7 + |name| + 1 + |id| + 8 && f[|f| - 8..] == ".desktop"
  {
    "floorp-" + name + "-" + id + ".desktop"
  }

  /** The launcher descriptor's path, computed alike by install and uninstall. */
  function LauncherPath(name: string, id: string): (p: Path)
    ensures Below(p, ApplicationsDir)
    ensures p[|ApplicationsDir| + 1..] == LauncherName(name, id)
  {
    Join(ApplicationsDir, LauncherName(name, id))
  }

  /** Everything under a path shares its first character. */
  lemma UnderSameStart(q: Path, p: Path)
    requires |p| > 0 && Under(q, p)
    ensures |q| > 0 && q[0] == p[0]
  {
  }

  /** With an absolute profile directory, the launcher and the private
      directory (with the SSB root and the icon) live in disjoint subtrees,
      so removing one can never touch the other. */
  lemma ArtifactsApart(profileDir: Path, name: string, id: string, q: Path)
    requires IsAbsolute(profileDir)
    ensures var launcher, dir := LauncherPath(name, id), PrivateDir(profileDir, id);
      && !(Under(q, launcher) && Under(q, dir))
      && !Under(SsbRoot(profileDir), launcher) && !Under(launcher, SsbRoot(profileDir))
      && !Under(SsbRoot(profileDir), dir)
      && Under(IconPath(dir), dir) && !Under(IconPath(dir), launcher)
  {
    var launcher, dir := LauncherPath(name, id), PrivateDir(profileDir, id);
    var root, icon := SsbRoot(profileDir), IconPath(dir);
    assert launcher[0] == '~' by { assert launcher[..|ApplicationsDir|] == ApplicationsDir; }
    UnderSameStart(root, profileDir);
    UnderSameStart(dir, profileDir);
    UnderSameStart(icon, dir);
    if Under(q, launcher) && Under(q, dir) {
      UnderSameStart(q, launcher);
      UnderSameStart(q, dir);
    }
    if Under(root, launcher) { UnderSameStart(root, launcher); }
    if Under(launcher, root) { UnderSameStart(launcher, root); }
    if Under(icon, launcher) { UnderSameStart(icon, launcher); }
  }

  /** Distinct SSB ids under one profile get distinct private directories. */
  lemma PrivateDirInjective(profileDir: Path, id1: string, id2: string)
    requires PrivateDir(profileDir, id1) == PrivateDir(profileDir, id2)
    ensures id1 == id2
  {
  }

  /** For ids of one length, the launcher path determines both the name
      and the id. */
  lemma LauncherPathInjective(name1: string, id1: string, name2: string, id2: string)
    requires |id1| == |id2|
    requires LauncherPath(name1, id1) == LauncherPath(name2, id2)
    ensures name1 == name2 && id1 == id2
  {
    var p := LauncherPath(name1, id1);
    var k := |ApplicationsDir| + 1;
    var f := p[k..];
    assert f == LauncherName(name1, id1) == LauncherName(name2, id2);
    assert |name1| == |name2|;
    assert name1 == f[7..7 + |name1|] == name2;
    assert id1 == f[8 + |name1|..8 + |name1| + |id1|] == id2;
  }

  /** Without that length restriction the derivation is not injective: two
      different SSBs can share one launcher file. */
  lemma LauncherPathCollision()
    ensures LauncherPath("a-b", "c") == LauncherPath("a", "b-c")
  {
  }
}
