/** The two `os.path` operations the resizer relies on, as `posixpath`
    defines them: `splitext` and `join`. */
module PosixPath {
  import opened Text

  /** Every character of `p` in positions `lo` to `hi - 1` is a `.`. */
  predicate DotsBetween(p: string, lo: int, hi: int) {
    forall k :: 0 <= lo <= k < hi <= |p| ==> p[k] == '.'
  }

  /** No `/` at or after position `j`. */
  predicate NoSlashFrom(p: string, j: int) {
    forall k :: 0 <= j <= k < |p| ==> p[k] != '/'
  }

  /** Independent description of "has an extension": some `.` follows a
      character that is neither `.` nor `/`, and no `/` comes after that
      character. Leading dots of the last path component never start an
      extension. */
  predicate HasExtension(p: string) {
    exists i, j :: 0 <= j < i < |p| && p[i] == '.' && p[j] != '.' && p[j] != '/' && NoSlashFrom(p, j)
  }

  /** A valid extension: empty, or a `.` followed by characters that are
      neither `.` nor `/`. */
  predicate ExtensionShape(e: string) {
    e == [] || (e[0] == '.' && forall k :: 0 < k < |e| ==> e[k] != '.' && e[k] != '/')
  }

  /** `os.path.splitext(p)`: the extension starts at the last `.` of the last
      path component, unless everything before that `.` in the component is
      dots. */
  function SplitExt(p: string): (r: (string, string))
    ensures r.0 + r.1 == p
    ensures ExtensionShape(r.1)
  {
    var sepIndex := RFindChar(p, '/');
    var dotIndex := RFindChar(p, '.');
    if dotIndex > sepIndex && !DotsBetween(p, sepIndex + 1, dotIndex) then
      TailShape(p, dotIndex, sepIndex);
      (p[..dotIndex], p[dotIndex..])
    else
      (p, [])
  }

  lemma TailShape(p: string, dotIndex: int, sepIndex: int)
    requires -1 <= sepIndex < dotIndex < |p| && p[dotIndex] == '.'
    requires forall j :: dotIndex < j < |p| ==> p[j] != '.'
    requires forall j :: sepIndex < j < |p| ==> p[j] != '/'
    ensures ExtensionShape(p[dotIndex..])
  {
    var e := p[dotIndex..];
    forall k | 0 < k < |e| ensures e[k] != '.' && e[k] != '/' {
      assert e[k] == p[dotIndex + k];
    }
  }

  /** `splitext` finds an extension exactly when the independent description
      says there is one. */
  lemma SplitExtFindsExtension(p: string)
    ensures SplitExt(p).1 != [] <==> HasExtension(p)
  {
    var sepIndex := RFindChar(p, '/');
    var dotIndex := RFindChar(p, '.');
    if dotIndex > sepIndex && !DotsBetween(p, sepIndex + 1, dotIndex) {
      var j :| sepIndex + 1 <= j < dotIndex && p[j] != '.';
      assert NoSlashFrom(p, j);
      assert HasExtension(p);
    }
  }

  /** A tag that is free of `.` and `/`. */
  predicate PlainTag(tag: string) {
    forall k :: 0 <= k < |tag| ==> tag[k] != '.' && tag[k] != '/'
  }

  /** Appending a plain tag to a name without an extension does not create one. */
  lemma NoExtensionAppend(p: string, tag: string)
    requires !HasExtension(p) && PlainTag(tag)
    ensures !HasExtension(p + tag)
  {
    var q := p + tag;
    if HasExtension(q) {
      var i, j :| 0 <= j < i < |q| && q[i] == '.' && q[j] != '.' && q[j] != '/' && NoSlashFrom(q, j);
      assert NoSlashFrom(p, j) by {
        forall k | j <= k < |p| ensures p[k] != '/' { assert q[k] == p[k]; }
      }
      assert false;
    }
  }

  /** Two non-empty extensions that are both suffixes of one string are the same. */
  lemma ExtensionSuffixUnique(q: string, e1: string, e2: string)
    requires e1 != [] && e2 != [] && ExtensionShape(e1) && ExtensionShape(e2)
    requires EndsWith(q, e1) && EndsWith(q, e2)
    ensures e1 == e2
  {
  }

  /** With a non-empty extension, a plain non-empty tag inserted before it
      becomes part of the base and the extension is kept. */
  lemma ExtensionInsert(b: string, tag: string, e: string)
    requires e != [] && ExtensionShape(e)
    requires tag != [] && PlainTag(tag)
    ensures SplitExt(b + tag + e) == (b + tag, e)
  {
    var q := b + tag + e;
    var pos := |b| + |tag|;
    assert q[pos] == e[0];
    assert NoSlashFrom(q, |b|) by {
      forall k | |b| <= k < |q| ensures q[k] != '/' {
        if k < pos { assert q[k] == tag[k - |b|]; } else { assert q[k] == e[k - pos]; }
      }
    }
    assert q[|b|] == tag[0];
    assert HasExtension(q);
    SplitExtFindsExtension(q);
    var r := SplitExt(q);
    assert q[|q| - |e|..] == e;
    assert q[|q| - |r.1|..] == r.1;
    ExtensionSuffixUnique(q, r.1, e);
  }

  /** Inserting a plain non-empty `tag` between the base and the extension
      keeps the extension: `splitext(base + tag + ext)` is `(base + tag, ext)`. */
  lemma SplitExtInsert(p: string, tag: string)
    requires tag != [] && PlainTag(tag)
    ensures SplitExt(SplitExt(p).0 + tag + SplitExt(p).1) == (SplitExt(p).0 + tag, SplitExt(p).1)
  {
    var r := SplitExt(p);
    if r.1 != [] {
      ExtensionInsert(r.0, tag, r.1);
    } else {
      SplitExtFindsExtension(p);
      NoExtensionAppend(p, tag);
      SplitExtFindsExtension(p + tag);
      assert r.0 + tag + r.1 == p + tag;
    }
  }

  /** `os.path.join(a, b)` with posix rules: an absolute `b` replaces `a`;
      otherwise a `/` is inserted unless `a` is empty or already ends in one. */
  function Join(a: string, b: string): (r: string)
    ensures StartsWith(b, "/") ==> r == b
    ensures !StartsWith(b, "/") ==> StartsWith(r, a) && EndsWith(r, b)
    ensures !StartsWith(b, "/") && (a == [] || EndsWith(a, "/")) ==> r == a + b
    ensures !StartsWith(b, "/") && a != [] && !EndsWith(a, "/") ==> r == a + "/" + b
  {
    if StartsWith(b, "/") then b
    else if a == [] || EndsWith(a, "/") then a + b
    else a + "/" + b
  }

  /** `os.path.join(*parts)`: joins left to right. */
  function JoinAll(first: string, rest: seq<string>): string
    decreases |rest|
  {
    if rest == [] then first else JoinAll(Join(first, rest[0]), rest[1..])
  }
}
