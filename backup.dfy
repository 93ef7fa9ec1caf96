/** Where the resizer keeps its local copy of an original: the directory an
    item sits in below the start folder, a file-system-safe form of the
    site and library names, the base directory they make, and the
    write-once save over an abstract file system. */
module Backup {
  import opened Wrappers
  import opened Bytes
  import opened Text
  import opened PosixPath

  /** The configuration constants the backup helpers read. */
  datatype BackupConfig = BackupConfig(
    root: string,            // BACKUP_ROOT
    siteName: string,        // SITE_NAME
    libraryName: string,     // LIBRARY_NAME
    startFolder: string,     // START_FOLDER
    siteRoot: bool,          // BACKUP_SITE_ROOT
    includeLibrary: bool,    // BACKUP_INCLUDE_LIBRARY
    preserveTree: bool,      // BACKUP_PRESERVE_TREE
    overwrite: bool)         // BACKUP_OVERWRITE

  predicate IsSlash(c: char) {
    c == '/'
  }

  /** Every character of `s` from `lo` to `hi - 1` is a `/`. */
  predicate SlashesBetween(s: string, lo: int, hi: int) {
    forall k :: 0 <= lo <= k < hi <= |s| ==> s[k] == '/'
  }

  /** The first two steps of `relative_dir_from_parent_path`: keep what
      follows the first `:/`, if there is one, then drop leading `/`s. */
  function DrivePathTail(parentPath: string): (r: string)
    ensures |r| <= |parentPath| && EndsWith(parentPath, r)
    ensures r == [] || r[0] != '/'
    ensures Find(parentPath, ":/") == -1 ==> SlashesBetween(parentPath, 0, |parentPath| - |r|)
    ensures Find(parentPath, ":/") != -1 ==>
      |r| <= |parentPath| - Find(parentPath, ":/") - 2 &&
      SlashesBetween(parentPath, Find(parentPath, ":/") + 2, |parentPath| - |r|)
  {
    var i := Find(parentPath, ":/");
    var lo := if i == -1 then 0 else i + 2;
    StripSlashesOfSuffix(parentPath, lo);
    StripLeft(parentPath[lo..], IsSlash)
  }

  /** Dropping the leading `/`s of the part of `s` from `lo` on leaves a
      suffix of `s`, and all that lies between `lo` and it is slashes. */
  lemma StripSlashesOfSuffix(s: string, lo: nat)
    requires lo <= |s|
    ensures var r := StripLeft(s[lo..], IsSlash);
      |r| <= |s| - lo && EndsWith(s, r) && SlashesBetween(s, lo, |s| - |r|)
  {
    StrippedIsSuffix(s, lo);
    StrippedSlashes(s, lo);
  }

  lemma StrippedIsSuffix(s: string, lo: nat)
    requires lo <= |s|
    ensures EndsWith(s, StripLeft(s[lo..], IsSlash))
  {
    var tail := s[lo..];
    var r := StripLeft(tail, IsSlash);
    assert s[|s| - |r|..] == tail[|tail| - |r|..];
  }

  lemma StrippedSlashes(s: string, lo: nat)
    requires lo <= |s|
    ensures SlashesBetween(s, lo, |s| - |StripLeft(s[lo..], IsSlash)|)
  {
    var tail := s[lo..];
    var r := StripLeft(tail, IsSlash);
    forall k | lo <= k < |s| - |r|
      ensures s[k] == '/'
    {
      assert s[k] == tail[k - lo];
    }
  }

  /** The last step of `relative_dir_from_parent_path`, for a path `p`
      and the start folder `sf` with its slashes stripped: the folder itself
      gives "", a path below it the part below it, anything else is kept. */
  function BelowStartFolder(p: string, sf: string): (r: string)
    ensures EndsWith(p, r)
  {
    if Lower(p) == Lower(sf) then []
    else if StartsWith(Lower(p), Lower(sf) + "/") then p[|sf| + 1..]
    else p
  }

  /** The prefix is matched without regard to letter case and the
      remainder keeps its own: `p` is the matched prefix, a `/` and the
      result. */
  lemma BelowStartFolderCases(p: string, sf: string)
    ensures Lower(p) == Lower(sf) ==> BelowStartFolder(p, sf) == []
    ensures Lower(p) != Lower(sf) && StartsWith(Lower(p), Lower(sf) + "/") ==>
      && p == p[..|sf|] + "/" + BelowStartFolder(p, sf)
      && Lower(p[..|sf|]) == Lower(sf)
    ensures Lower(p) != Lower(sf) && !StartsWith(Lower(p), Lower(sf) + "/") ==> BelowStartFolder(p, sf) == p
  {
    if Lower(p) != Lower(sf) && StartsWith(Lower(p), Lower(sf) + "/") {
      LowerSlice(p, 0, |sf|);
      assert Lower(p)[|sf|] == '/';
      assert p == p[..|sf|] + "/" + p[|sf| + 1..];
    }
  }

  /** `relative_dir_from_parent_path`: the directory of an item relative to
      `START_FOLDER` when the tree is preserved and a start folder is set. */
  function RelativeDir(cfg: BackupConfig, parentPath: string): (r: string)
    ensures parentPath == [] ==> r == []
    ensures parentPath != [] && !(cfg.preserveTree && cfg.startFolder != []) ==> r == DrivePathTail(parentPath)
    ensures parentPath != [] && cfg.preserveTree && cfg.startFolder != [] ==>
      r == BelowStartFolder(DrivePathTail(parentPath), Strip(cfg.startFolder, IsSlash))
    ensures EndsWith(parentPath, r)
  {
    if parentPath == [] then []
    else
      var p := DrivePathTail(parentPath);
      if cfg.preserveTree && cfg.startFolder != [] then BelowStartFolder(p, Strip(cfg.startFolder, IsSlash))
      else p
  }

  /** The position of the first `:/` in an example path. */
  lemma FindSeparator(pp: string, at: nat)
    requires OccursAt(pp, ":/", at)
    requires ':' !in pp[..at]
    ensures Find(pp, ":/") == at
  {
    NotInPrefix(pp, at, ':');
    var i := Find(pp, ":/");
    assert i != -1;
    assert pp[i..i + 2][0] == pp[i];
  }

  /** A path without `:` has no `:/`. */
  lemma NoSeparator(pp: string)
    requires ':' !in pp
    ensures Find(pp, ":/") == -1
  {
    forall j ensures !OccursAt(pp, ":/", j) {
      if 0 <= j && j + 2 <= |pp| {
        assert pp[j] in pp;
        assert pp[j..j + 2][0] == pp[j];
      }
    }
  }

  lemma NotInPrefix(s: string, at: nat, c: char)
    requires at <= |s| && c !in s[..at]
    ensures forall i :: 0 <= i < at ==> s[i] != c
  {
    forall i | 0 <= i < at ensures s[i] != c {
      assert s[..at][i] == s[i];
    }
  }

  lemma SeparatorExample(pp: string)
    requires pp == "/drives/d/root:/Foto\U{2019}s/2024/Events"
    ensures DrivePathTail(pp) == "Foto\U{2019}s/2024/Events"
  {
    assert pp[..14] == "/drives/d/root";
    assert pp[14..16] == ":/";
    FindSeparator(pp, 14);
    assert pp[16..] == "Foto\U{2019}s/2024/Events";
  }

  lemma StartFolderExample(p: string, sf: string)
    requires p == "Foto\U{2019}s/2024/Events" && sf == "Foto\U{2019}s"
    ensures BelowStartFolder(p, sf) == "2024/Events"
  {
    LowerSlice(p, 0, 7);
    assert p[..7] == "Foto\U{2019}s/";
    assert p[..6] == sf;
    assert Lower(p)[..7] == Lower(sf) + "/";
    assert p[7..] == "2024/Events";
  }

  lemma CaseExampleStrip(sf: string)
    requires sf == "/photos/"
    ensures Strip(sf, IsSlash) == "photos"
  {
    assert sf[1..] == "photos/";
    assert StripLeft(sf, IsSlash) == "photos/";
    var l := "photos/";
    assert l[..|l| - 1] == "photos";
    assert StripRight(l, IsSlash) == "photos";
  }

  lemma CaseExampleBelow(p: string, sf: string)
    requires p == "Photos/Trip" && sf == "photos"
    ensures BelowStartFolder(p, sf) == "Trip"
  {
    LowerSlice(p, 0, 7);
    assert p[..7] == "Photos/";
    assert p[..6] == "Photos";
    assert Lower(p)[..7] == Lower(sf) + "/";
    assert p[7..] == "Trip";
  }

  /** A start folder given in another letter case and with slashes around
      it still matches; the remainder keeps the letter case of the path. */
  lemma StartFolderCaseExample(cfg: BackupConfig, pp: string)
    requires cfg.preserveTree && cfg.startFolder == "/photos/" && pp == "Photos/Trip"
    ensures RelativeDir(cfg, pp) == "Trip"
  {
    NoSeparator(pp);
    assert pp[0] != '/';
    assert DrivePathTail(pp) == pp;
    CaseExampleStrip(cfg.startFolder);
    CaseExampleBelow(pp, Strip(cfg.startFolder, IsSlash));
  }

  /** The example of the docstring: with `START_FOLDER` `Foto’s`, the parent
      path `/drives/<id>/root:/Foto’s/2024/Events` gives `2024/Events`. */
  lemma RelativeDirExample(cfg: BackupConfig, pp: string)
    requires cfg.preserveTree && cfg.startFolder == "Foto\U{2019}s"
    requires pp == "/drives/d/root:/Foto\U{2019}s/2024/Events"
    ensures RelativeDir(cfg, pp) == "2024/Events"
  {
    SeparatorExample(pp);
    var sf := cfg.startFolder;
    assert sf[0] != '/' && sf[|sf| - 1] != '/';
    assert Strip(sf, IsSlash) == sf;
    StartFolderExample(DrivePathTail(pp), sf);
  }

  /** The characters `sanitize_fs` replaces: `\ / : " * ? < > |`. */
  predicate Forbidden(c: char) {
    c == '\\' || c == '/' || c == ':' || c == '"' || c == '*' || c == '?' || c == '<' || c == '>' || c == '|'
  }

  predicate NoForbidden(s: string) {
    forall i :: 0 <= i < |s| ==> !Forbidden(s[i])
  }

  predicate AllForbidden(s: string) {
    forall i :: 0 <= i < |s| ==> Forbidden(s[i])
  }

  /** `re.sub(r'[\\/:"*?<>|]+', "_", s)`, scanning left to right; `inRun`
      says the previous character was already part of a replaced run. */
  function Collapse(s: string, inRun: bool): (r: string)
    ensures NoForbidden(r)
    ensures |r| <= |s|
    decreases |s|
  {
    if s == [] then []
    else if Forbidden(s[0]) then (if inRun then [] else "_") + Collapse(s[1..], true)
    else [s[0]] + Collapse(s[1..], false)
  }

  /** Whether a scan that started in state `inRun` ends inside a run after `s`. */
  function EndsInRun(s: string, inRun: bool): bool {
    if s == [] then inRun else Forbidden(s[|s| - 1])
  }

  /** The scan over a concatenation continues where the first part left off. */
  lemma {:induction false} CollapseConcat(a: string, b: string, inRun: bool)
    ensures Collapse(a + b, inRun) == Collapse(a, inRun) + Collapse(b, EndsInRun(a, inRun))
    decreases |a|
  {
    if a != [] {
      ConcatTail(a, b);
      CollapseConcat(a[1..], b, Forbidden(a[0]));
      EndsInRunTail(a, inRun);
      CollapseHead(a, inRun);
      CollapseHead(a + b, inRun);
      var h, x, y := HeadOut(a[0], inRun), Collapse(a[1..], Forbidden(a[0])), Collapse(b, EndsInRun(a, inRun));
      assert h + (x + y) == (h + x) + y;
    } else {
      assert a + b == b;
    }
  }

  /** What `Collapse` emits for the first character of a non-empty `s`. */
  function HeadOut(c: char, inRun: bool): string {
    if Forbidden(c) then (if inRun then [] else "_") else [c]
  }

  lemma CollapseHead(s: string, inRun: bool)
    requires s != []
    ensures Collapse(s, inRun) == HeadOut(s[0], inRun) + Collapse(s[1..], Forbidden(s[0]))
  {
  }

  lemma EndsInRunTail(s: string, inRun: bool)
    requires s != []
    ensures EndsInRun(s[1..], Forbidden(s[0])) == EndsInRun(s, inRun)
  {
    assert s[1..] != [] ==> s[1..][|s[1..]| - 1] == s[|s| - 1];
  }

  /** A whole run of forbidden characters becomes one `_`. */
  lemma {:induction false} CollapseRun(run: string, inRun: bool)
    requires run != [] && AllForbidden(run)
    ensures Collapse(run, inRun) == if inRun then [] else "_"
    decreases |run|
  {
    if |run| > 1 {
      CollapseRun(run[1..], true);
    }
  }

  /** Text without forbidden characters is left alone. */
  lemma {:induction false} CollapseKeeps(s: string, inRun: bool)
    requires NoForbidden(s)
    ensures Collapse(s, inRun) == s
    decreases |s|
  {
    if s != [] {
      CollapseKeeps(s[1..], false);
    }
  }

  /** Each maximal run of forbidden characters between ordinary text
      becomes exactly one `_`. */
  lemma CollapseReplacesRun(a: string, run: string, b: string)
    requires run != [] && AllForbidden(run)
    requires a == [] || !Forbidden(a[|a| - 1])
    requires b == [] || !Forbidden(b[0])
    ensures Collapse(a + run + b, false) == Collapse(a, false) + "_" + Collapse(b, false)
  {
    CollapseConcat(a + run, b, false);
    CollapseConcat(a, run, false);
    CollapseRun(run, EndsInRun(a, false));
    assert EndsInRun(a + run, false);
    if b != [] {
      assert Collapse(b, true) == Collapse(b, false);
    }
  }

  predicate IsDot(c: char) {
    c == '.'
  }

  /** An infix of a string without forbidden characters has none either. */
  lemma InfixNoForbidden(s: string, t: string, k: int)
    requires NoForbidden(s) && OccursAt(s, t, k)
    ensures NoForbidden(t)
  {
    forall i | 0 <= i < |t| ensures !Forbidden(t[i]) {
      assert t[i] == s[k + i];
    }
  }

  /** Stripping keeps a string free of forbidden characters and never
      makes it longer. */
  lemma StripKeepsSafe(s: string, drop: char -> bool)
    requires NoForbidden(s)
    ensures NoForbidden(Strip(s, drop)) && |Strip(s, drop)| <= |s|
  {
    StripSpec(s, drop);
    var k :| StrippedAt(s, Strip(s, drop), k, drop);
    InfixNoForbidden(s, Strip(s, drop), k);
  }

  /** `sanitize_fs`: forbidden runs become `_`, then surrounding white space
      and then surrounding dots are stripped. */
  function SanitizeFs(name: string): (r: string)
    ensures name == [] ==> r == []
    ensures NoForbidden(r)
    ensures r == [] || (r[0] != '.' && r[|r| - 1] != '.')
    ensures |r| <= |name|
  {
    if name == [] then []
    else
      var safe := Collapse(name, false);
      StripKeepsSafe(safe, IsSpace);
      StripKeepsSafe(Strip(safe, IsSpace), IsDot);
      StripSpec(Strip(safe, IsSpace), IsDot);
      Strip(Strip(safe, IsSpace), IsDot)
  }

  /** A sanitized name is never a relative directory reference. */
  lemma SanitizeNotDotDirectory(name: string)
    ensures SanitizeFs(name) != "." && SanitizeFs(name) != ".."
  {
  }

  /** A name that is already safe, and has no white space or dot at either
      end, comes through unchanged. */
  lemma SanitizeKeepsSafeName(name: string)
    requires NoForbidden(name)
    requires name == [] || (!IsSpace(name[0]) && !IsSpace(name[|name| - 1]) && name[0] != '.' && name[|name| - 1] != '.')
    ensures SanitizeFs(name) == name
  {
    if name != [] {
      CollapseKeeps(name, false);
      StripUnchanged(name, IsSpace);
      StripUnchanged(name, IsDot);
    }
  }

  /** Sanitizing twice changes nothing more. */
  lemma SanitizeIdempotent(name: string)
    requires SanitizeFs(name) == [] || (!IsSpace(SanitizeFs(name)[0]) && !IsSpace(SanitizeFs(name)[|SanitizeFs(name)| - 1]))
    ensures SanitizeFs(SanitizeFs(name)) == SanitizeFs(name)
  {
    SanitizeKeepsSafeName(SanitizeFs(name));
  }

  /** The condition of `SanitizeIdempotent` is needed: the white space is
      stripped before the dots, so `". a"` sanitizes to `" a"`, which
      sanitizes further to `"a"`. */
  lemma SanitizeNotIdempotent()
    ensures SanitizeFs(". a") == " a"
    ensures SanitizeFs(" a") == "a"
    ensures SanitizeFs(SanitizeFs(". a")) != SanitizeFs(". a")
  {
    SanitizeDotSpace();
    SanitizeSpaceA();
  }

  lemma SanitizeDotSpace()
    ensures SanitizeFs(". a") == " a"
  {
    CollapseKeeps(". a", false);
    StripUnchanged(". a", IsSpace);
    StripDotOfDotSpace();
    SanitizeSteps(". a", ". a", ". a", " a");
  }

  lemma SanitizeSpaceA()
    ensures SanitizeFs(" a") == "a"
  {
    CollapseKeeps(" a", false);
    StripSpaceOfSpaceA();
    StripUnchanged("a", IsDot);
    SanitizeSteps(" a", " a", "a", "a");
  }

  /** `sanitize_fs` by its three stages. */
  lemma SanitizeSteps(name: string, safe: string, spaced: string, r: string)
    requires name != [] && Collapse(name, false) == safe
    requires Strip(safe, IsSpace) == spaced && Strip(spaced, IsDot) == r
    ensures SanitizeFs(name) == r
  {
  }

  lemma StripDotOfDotSpace()
    ensures Strip(". a", IsDot) == " a"
  {
    assert ". a"[1..] == " a";
    assert StripLeft(" a", IsDot) == " a";
    assert StripRight(" a", IsDot) == " a";
  }

  lemma StripSpaceOfSpaceA()
    ensures Strip(" a", IsSpace) == "a"
  {
    assert " a"[1..] == "a";
    assert StripLeft("a", IsSpace) == "a";
    assert StripRight("a", IsSpace) == "a";
  }

  /** The sub-directories of the backup base, in order. */
  function BaseParts(cfg: BackupConfig): (parts: seq<string>)
    ensures |parts| == (if cfg.siteRoot then 1 else 0) + (if cfg.includeLibrary then 1 else 0)
    ensures forall i :: 0 <= i < |parts| ==> NoForbidden(parts[i])
    ensures cfg.siteRoot ==> parts[0] == SanitizeFs(cfg.siteName)
    ensures cfg.includeLibrary ==> parts[|parts| - 1] == SanitizeFs(cfg.libraryName)
  {
    (if cfg.siteRoot then [SanitizeFs(cfg.siteName)] else []) +
    (if cfg.includeLibrary then [SanitizeFs(cfg.libraryName)] else [])
  }

  /** A string free of forbidden characters is not an absolute path. */
  lemma SafeIsRelative(s: string)
    requires NoForbidden(s)
    ensures !StartsWith(s, "/")
  {
    if s != [] {
      assert !Forbidden(s[0]);
    }
  }

  /** Joining parts that are free of `/` never discards what came before. */
  lemma {:induction false} JoinAllKeepsPrefix(first: string, rest: seq<string>)
    requires forall i :: 0 <= i < |rest| ==> NoForbidden(rest[i])
    ensures StartsWith(JoinAll(first, rest), first)
    decreases |rest|
  {
    if rest != [] {
      SafeIsRelative(rest[0]);
      var j := Join(first, rest[0]);
      TailNoForbidden(rest);
      JoinAllKeepsPrefix(j, rest[1..]);
      StartsWithTrans(JoinAll(j, rest[1..]), j, first);
    }
  }

  /** Joining parts that are free of `/` ends in the last part. */
  lemma {:induction false} JoinAllEndsInLast(first: string, rest: seq<string>)
    requires forall i :: 0 <= i < |rest| ==> NoForbidden(rest[i])
    ensures rest != [] ==> EndsWith(JoinAll(first, rest), rest[|rest| - 1])
    decreases |rest|, 1
  {
    if |rest| == 1 {
      JoinAllCons(first, rest);
      SafeIsRelative(rest[0]);
      JoinAllNone(Join(first, rest[0]), rest[1..]);
    } else if rest != [] {
      JoinAllLastOfTail(first, rest);
    }
  }

  /** The step of `JoinAllEndsInLast` for two or more parts. */
  lemma {:induction false} JoinAllLastOfTail(first: string, rest: seq<string>)
    requires |rest| >= 2
    requires forall i :: 0 <= i < |rest| ==> NoForbidden(rest[i])
    ensures EndsWith(JoinAll(first, rest), rest[|rest| - 1])
    decreases |rest|, 0
  {
    JoinAllCons(first, rest);
    TailNoForbidden(rest);
    JoinAllEndsInLast(Join(first, rest[0]), rest[1..]);
    assert rest[1..][|rest| - 2] == rest[|rest| - 1];
  }

  lemma JoinAllCons(first: string, rest: seq<string>)
    requires rest != []
    ensures JoinAll(first, rest) == JoinAll(Join(first, rest[0]), rest[1..])
  {
  }

  lemma JoinAllNone(first: string, rest: seq<string>)
    requires rest == []
    ensures JoinAll(first, rest) == first
  {
  }

  lemma TailNoForbidden(parts: seq<string>)
    requires parts != []
    requires forall i :: 0 <= i < |parts| ==> NoForbidden(parts[i])
    ensures forall i :: 0 <= i < |parts| - 1 ==> NoForbidden(parts[1..][i])
  {
    forall i | 0 <= i < |parts| - 1
      ensures NoForbidden(parts[1..][i])
    {
      assert parts[1..][i] == parts[i + 1];
    }
  }

  /** `compute_backup_base`: `BACKUP_ROOT`, then the sanitized site name
      when enabled, then the sanitized library name when enabled. */
  function ComputeBackupBase(cfg: BackupConfig): (base: string)
    ensures StartsWith(base, cfg.root)
    ensures !cfg.siteRoot && !cfg.includeLibrary ==> base == cfg.root
    ensures cfg.includeLibrary ==> EndsWith(base, SanitizeFs(cfg.libraryName))
    ensures cfg.siteRoot && !cfg.includeLibrary ==> EndsWith(base, SanitizeFs(cfg.siteName))
    ensures cfg.siteRoot && !cfg.includeLibrary ==> base == Join(cfg.root, SanitizeFs(cfg.siteName))
    ensures !cfg.siteRoot && cfg.includeLibrary ==> base == Join(cfg.root, SanitizeFs(cfg.libraryName))
    ensures cfg.siteRoot && cfg.includeLibrary ==>
      base == Join(Join(cfg.root, SanitizeFs(cfg.siteName)), SanitizeFs(cfg.libraryName))
  {
    JoinAllKeepsPrefix(cfg.root, BaseParts(cfg));
    JoinAllEndsInLast(cfg.root, BaseParts(cfg));
    BaseJoined(cfg);
    JoinAll(cfg.root, BaseParts(cfg))
  }

  /** The base in each configuration: the root joined with the sanitized
      site and then the sanitized library, each only when enabled. */
  lemma BaseJoined(cfg: BackupConfig)
    ensures cfg.siteRoot && !cfg.includeLibrary ==>
      JoinAll(cfg.root, BaseParts(cfg)) == Join(cfg.root, SanitizeFs(cfg.siteName))
    ensures !cfg.siteRoot && cfg.includeLibrary ==>
      JoinAll(cfg.root, BaseParts(cfg)) == Join(cfg.root, SanitizeFs(cfg.libraryName))
    ensures cfg.siteRoot && cfg.includeLibrary ==>
      JoinAll(cfg.root, BaseParts(cfg)) == Join(Join(cfg.root, SanitizeFs(cfg.siteName)), SanitizeFs(cfg.libraryName))
  {
    var site, lib := SanitizeFs(cfg.siteName), SanitizeFs(cfg.libraryName);
    if cfg.siteRoot && cfg.includeLibrary {
      assert BaseParts(cfg) == [site, lib];
      JoinAllTwo(cfg.root, site, lib);
    } else if cfg.siteRoot {
      assert BaseParts(cfg) == [site];
      JoinAllOne(cfg.root, site);
    } else if cfg.includeLibrary {
      assert BaseParts(cfg) == [lib];
      JoinAllOne(cfg.root, lib);
    }
  }

  lemma JoinAllOne(first: string, a: string)
    ensures JoinAll(first, [a]) == Join(first, a)
  {
    var none: seq<string> := [];
    assert [a][1..] == none;
  }

  lemma JoinAllTwo(first: string, a: string, b: string)
    ensures JoinAll(first, [a, b]) == Join(Join(first, a), b)
  {
    assert [a, b][1..] == [b];
    JoinAllOne(Join(first, a), b);
  }

  /** With the shipped settings (`f:/`, site sub-directory, no library
      sub-directory), the base is the root followed by the sanitized site
      name. */
  lemma DefaultBackupBase(cfg: BackupConfig)
    requires cfg.root == "f:/" && cfg.siteRoot && !cfg.includeLibrary
    ensures ComputeBackupBase(cfg) == "f:/" + SanitizeFs(cfg.siteName)
  {
    var s := SanitizeFs(cfg.siteName);
    SafeIsRelative(s);
    assert BaseParts(cfg) == [s];
    assert EndsWith(cfg.root, "/");
    assert Join(cfg.root, s) == cfg.root + s;
    var none: seq<string> := [];
    assert [s][1..] == none;
    assert JoinAll(cfg.root, [s]) == JoinAll(Join(cfg.root, s), none);
  }

  /** The path `save_local_backup` writes: `base/rel_dir/filename` when the
      tree is preserved, `base/filename` otherwise. */
  function BackupPath(cfg: BackupConfig, relDir: string, filename: string): (path: string)
    ensures !StartsWith(relDir, "/") && !StartsWith(filename, "/") ==> StartsWith(path, ComputeBackupBase(cfg))
    ensures !StartsWith(filename, "/") ==> EndsWith(path, filename)
  {
    var base := ComputeBackupBase(cfg);
    var fullDir := if cfg.preserveTree then Join(base, relDir) else base;
    Join(fullDir, filename)
  }

  /** The local file system: file contents by path. */
  type FileSystem = map<string, Bytes>

  datatype BackupError = WriteFailed(path: string)

  /** The effect of `save_local_backup` on the file system once the path is
      known. Without overwrite an existing file is left alone and `False`
      reported; otherwise the bytes are written (`failing` are the paths
      whose `open` fails), and `True` reported. */
  function Save(fs: FileSystem, failing: set<string>, path: string, content: Bytes, overwrite: bool)
    : (r: (FileSystem, Result<bool, BackupError>))
    ensures !overwrite && path in fs ==> r == (fs, Ok(false))
    ensures (overwrite || path !in fs) && path in failing ==> r == (fs, Err(WriteFailed(path)))
    ensures (overwrite || path !in fs) && path !in failing ==> r == (fs[path := content], Ok(true))
  {
    if !overwrite && path in fs then (fs, Ok(false))
    else if path in failing then (fs, Err(WriteFailed(path)))
    else (fs[path := content], Ok(true))
  }

  /** Without overwrite, saving the same path twice writes once: the second
      call reports `False` and changes nothing. */
  lemma SaveTwiceWritesOnce(fs: FileSystem, failing: set<string>, path: string, first: Bytes, second: Bytes)
    requires Save(fs, failing, path, first, false).1 == Ok(true)
    ensures Save(Save(fs, failing, path, first, false).0, failing, path, second, false)
      == (Save(fs, failing, path, first, false).0, Ok(false))
    ensures Save(fs, failing, path, first, false).0[path] == first
  {
  }

  /** No other path is created, removed or changed. */
  lemma SaveTouchesOnlyPath(fs: FileSystem, failing: set<string>, path: string, content: Bytes, overwrite: bool, other: string)
    requires other != path
    ensures other in Save(fs, failing, path, content, overwrite).0 <==> other in fs
    ensures other in fs ==> Save(fs, failing, path, content, overwrite).0[other] == fs[other]
  {
  }

  /** A save that reports `True` leaves exactly the new bytes at the path;
      whatever it reports, the file there afterwards is either the new bytes
      or what was there before. */
  lemma SaveOutcome(fs: FileSystem, failing: set<string>, path: string, content: Bytes, overwrite: bool)
    ensures Save(fs, failing, path, content, overwrite).1 == Ok(true) ==>
      Save(fs, failing, path, content, overwrite).0 == fs[path := content]
    ensures Save(fs, failing, path, content, overwrite).1 != Ok(true) ==>
      Save(fs, failing, path, content, overwrite).0 == fs
  {
  }

  /** The local disk that backups go to. */
  class BackupStore {
    var files: FileSystem
    const failing: set<string>

    constructor (files0: FileSystem, failing0: set<string>)
      ensures files == files0 && failing == failing0
    {
      files := files0;
      failing := failing0;
    }

    /** `save_local_backup(content_bytes, rel_dir, filename)`: returns
        whether it wrote and the full path, or the I/O failure. */
    method SaveLocalBackup(cfg: BackupConfig, content: Bytes, relDir: string, filename: string)
      returns (r: Result<(bool, string), BackupError>)
      modifies this
      ensures r.Ok? ==> r.value.1 == BackupPath(cfg, relDir, filename)
      ensures var (fs, res) := Save(old(files), failing, BackupPath(cfg, relDir, filename), content, cfg.overwrite);
        && files == fs
        && (res.Ok? ==> r == Ok((res.value, BackupPath(cfg, relDir, filename))))
        && (res.Err? ==> r == Err(res.error))
    {
      var base := ComputeBackupBase(cfg);
      var fullDir := if cfg.preserveTree then Join(base, relDir) else base;
      var fullPath := Join(fullDir, filename);
      if !cfg.overwrite && fullPath in files {
        return Ok((false, fullPath));
      }
      if fullPath in failing {
        return Err(WriteFailed(fullPath));
      }
      files := files[fullPath := content];
      return Ok((true, fullPath));
    }
  }
}
