/** The mailbox discovery of the Dovecot-to-mbox converter: the order on
    names, `choose_best_name`, the grouping of user entries by the directory
    they resolve to, the list of unique mailboxes, and the output file name. */
module Mailboxes {
  import opened Text
  import opened PosixPath

  /** Python's `<=` on strings: code point by code point, and a proper
      prefix comes first. */
  predicate StrLe(a: string, b: string)
    decreases |a|
  {
    a == [] || (b != [] && (a[0] < b[0] || (a[0] == b[0] && StrLe(a[1..], b[1..]))))
  }

  lemma {:induction false} StrLeRefl(a: string)
    ensures StrLe(a, a)
    decreases |a|
  {
    if a != [] {
      StrLeRefl(a[1..]);
    }
  }

  lemma {:induction false} StrLeTotal(a: string, b: string)
    ensures StrLe(a, b) || StrLe(b, a)
    decreases |a|
  {
    if a != [] && b != [] && a[0] == b[0] {
      StrLeTotal(a[1..], b[1..]);
    }
  }

  lemma {:induction false} StrLeAntisym(a: string, b: string)
    requires StrLe(a, b) && StrLe(b, a)
    ensures a == b
    decreases |a|
  {
    if a != [] && b != [] {
      StrLeAntisym(a[1..], b[1..]);
      assert a == [a[0]] + a[1..] && b == [b[0]] + b[1..];
    }
  }

  lemma {:induction false} StrLeTrans(a: string, b: string, c: string)
    requires StrLe(a, b) && StrLe(b, c)
    ensures StrLe(a, c)
    decreases |a|
  {
    if a != [] && b != [] && c != [] && a[0] == b[0] && b[0] == c[0] {
      StrLeTrans(a[1..], b[1..], c[1..]);
    }
  }

  /** `m` is the first element of `sorted(names)`. */
  predicate IsLeast(m: string, names: set<string>) {
    m in names && forall n :: n in names ==> StrLe(m, n)
  }

  /** Every non-empty set of names has a least element. */
  lemma {:induction false} LeastExists(names: set<string>)
    requires names != {}
    ensures exists m :: IsLeast(m, names)
    decreases |names|
  {
    var x :| x in names;
    StrLeRefl(x);
    if names != {x} {
      var rest := names - {x};
      LeastExists(rest);
      var m :| IsLeast(m, rest);
      StrLeTotal(x, m);
      if StrLe(x, m) {
        forall n | n in names ensures StrLe(x, n) {
          if n != x {
            StrLeTrans(x, m, n);
          }
        }
        assert IsLeast(x, names);
      } else {
        assert IsLeast(m, names);
      }
    } else {
      assert IsLeast(x, names);
    }
  }

  /** The least element is unique. */
  lemma LeastUnique(names: set<string>)
    ensures forall m1, m2 :: IsLeast(m1, names) && IsLeast(m2, names) ==> m1 == m2
  {
    forall m1, m2 | IsLeast(m1, names) && IsLeast(m2, names) ensures m1 == m2 {
      StrLeAntisym(m1, m2);
    }
  }

  /** `sorted(names)[0]`. */
  function Least(names: set<string>): (m: string)
    requires names != {}
    ensures IsLeast(m, names)
  {
    LeastExists(names);
    LeastUnique(names);
    var m :| IsLeast(m, names);
    m
  }

  predicate HasDot(n: string) {
    '.' in n
  }

  /** The names that contain a `.`. */
  function Dotted(names: set<string>): (d: set<string>)
    ensures forall n :: n in d <==> n in names && HasDot(n)
  {
    set n | n in names && HasDot(n)
  }

  /** `choose_best_name`: the least dotted name when there is one, the
      least name otherwise. */
  function ChooseBestName(names: set<string>): (r: string)
    requires names != {}
    ensures r in names
    ensures Dotted(names) != {} ==> HasDot(r) && forall n :: n in names && HasDot(n) ==> StrLe(r, n)
    ensures Dotted(names) == {} ==> forall n :: n in names ==> StrLe(r, n)
  {
    var dotted := Dotted(names);
    if dotted != {} then Least(dotted) else Least(names)
  }

  /** An independent description of the best name: a member that contains
      a `.` if any member does, and that no member of the same kind
      precedes. */
  predicate IsBestName(m: string, names: set<string>) {
    && m in names
    && ((exists n :: n in names && HasDot(n)) ==> HasDot(m))
    && forall n :: n in names && HasDot(n) == HasDot(m) ==> StrLe(m, n)
  }

  /** `choose_best_name` picks exactly the best name. */
  lemma ChooseBestNameIsBest(names: set<string>, m: string)
    requires names != {}
    ensures m == ChooseBestName(names) <==> IsBestName(m, names)
  {
    var r := ChooseBestName(names);
    if Dotted(names) != {} {
      var d :| d in Dotted(names);
      assert IsBestName(r, names);
      if IsBestName(m, names) {
        assert HasDot(m);
        StrLeAntisym(m, r);
      }
    } else {
      assert IsBestName(r, names);
      if IsBestName(m, names) {
        StrLeAntisym(m, r);
      }
    }
  }

  /** Adding one name to a group either keeps its best name or makes the
      new name the best one. */
  lemma ChooseBestNameAdd(names: set<string>, x: string)
    requires names != {}
    ensures ChooseBestName(names + {x}) in {ChooseBestName(names), x}
  {
    var all := names + {x};
    var r := ChooseBestName(all);
    var old0 := ChooseBestName(names);
    if r != x {
      assert r in names;
      forall n | n in names && HasDot(n) == HasDot(r) ensures StrLe(r, n) {
        if Dotted(all) != {} {
          assert HasDot(r);
        }
      }
      assert IsBestName(r, names);
      ChooseBestNameIsBest(names, r);
    }
  }

  /** One entry of the users directory as `main` sees it: the entry's
      name, the directory it resolves to (`os.path.realpath`), whether that
      directory has a `cur` sub-directory, and `count_messages` of it. */
  datatype UserEntry = UserEntry(name: string, realPath: string, hasCur: bool, msgs: nat)

  /** A value of `grouped`: the user names that resolve to the path, and
      the message count recorded when the path was first met. */
  datatype Group = Group(names: set<string>, msgs: nat)

  /** An entry that is kept and resolves to `p`. */
  predicate KeptAt(e: UserEntry, p: string) {
    e.hasCur && e.realPath == p
  }

  /** Some of the first `n` entries is kept and resolves to `p`. */
  predicate SeenBefore(entries: seq<UserEntry>, n: nat, p: string)
    requires n <= |entries|
  {
    exists k :: 0 <= k < n && KeptAt(entries[k], p)
  }

  /** The names of the first `n` entries that are kept and resolve to `p`. */
  function NamesBefore(entries: seq<UserEntry>, n: nat, p: string): set<string>
    requires n <= |entries|
  {
    set k | 0 <= k < n && KeptAt(entries[k], p) :: entries[k].name
  }

  /** Entry `j` is the first kept entry that resolves to `p`. */
  predicate FirstAt(entries: seq<UserEntry>, j: int, p: string) {
    0 <= j < |entries| && KeptAt(entries[j], p) && forall k :: 0 <= k < j ==> !KeptAt(entries[k], p)
  }

  predicate Distinct(s: seq<string>) {
    forall i, j :: 0 <= i < j < |s| ==> s[i] != s[j]
  }

  /** The paths of `order` appear in the order in which the entries first
      met them. */
  predicate FirstSeenOrder(entries: seq<UserEntry>, order: seq<string>) {
    forall a, b, ja, jb :: 0 <= a < b < |order| && 0 <= ja < |entries| && 0 <= jb < |entries| && FirstAt(entries, ja, order[a]) && FirstAt(entries, jb, order[b]) ==> ja < jb
  }

  lemma NamesStep(entries: seq<UserEntry>, i: nat, p: string)
    requires i < |entries|
    ensures NamesBefore(entries, i + 1, p) ==
      NamesBefore(entries, i, p) + (if KeptAt(entries[i], p) then {entries[i].name} else {})
  {
  }

  /** What `grouped` and its insertion order hold after the first `n`
      entries: a group exactly for each path met with `cur`, holding all
      names that resolve there and the message count of the first of them,
      with the paths in the order they were first met. */
  ghost predicate GroupInv(entries: seq<UserEntry>, n: nat, grouped: map<string, Group>, order: seq<string>)
    requires n <= |entries|
  {
    && KeysSeen(entries, n, grouped)
    && NamesGathered(entries, n, grouped)
    && CountsFromFirst(entries, n, grouped)
    && KeysInOrder(grouped, order)
    && FirstSeenOrder(entries, order)
  }

  /** A group exactly for each path met with `cur` among the first `n`. */
  ghost predicate KeysSeen(entries: seq<UserEntry>, n: nat, grouped: map<string, Group>)
    requires n <= |entries|
  {
    forall p :: p in grouped <==> SeenBefore(entries, n, p)
  }

  /** Each group holds all the names among the first `n` that resolve to it. */
  ghost predicate NamesGathered(entries: seq<UserEntry>, n: nat, grouped: map<string, Group>)
    requires n <= |entries|
  {
    forall p :: p in grouped ==> grouped[p].names == NamesBefore(entries, n, p) && grouped[p].names != {}
  }

  /** Each group has the message count of the first entry that met it. */
  ghost predicate CountsFromFirst(entries: seq<UserEntry>, n: nat, grouped: map<string, Group>) {
    forall p :: p in grouped ==> exists j :: j < n && FirstAt(entries, j, p) && grouped[p].msgs == entries[j].msgs
  }

  /** `order` lists the keys of `grouped`, each once. */
  ghost predicate KeysInOrder(grouped: map<string, Group>, order: seq<string>) {
    Distinct(order) && forall p :: p in grouped <==> p in order
  }

  /** An entry without `cur` is passed over. */
  lemma SkipEntry(entries: seq<UserEntry>, i: nat, grouped: map<string, Group>, order: seq<string>)
    requires i < |entries| && !entries[i].hasCur && GroupInv(entries, i, grouped, order)
    ensures GroupInv(entries, i + 1, grouped, order)
  {
    forall p ensures NamesBefore(entries, i + 1, p) == NamesBefore(entries, i, p) {
      NamesStep(entries, i, p);
    }
    forall p ensures SeenBefore(entries, i + 1, p) == SeenBefore(entries, i, p) {
      if SeenBefore(entries, i + 1, p) {
        var k :| 0 <= k < i + 1 && KeptAt(entries[k], p);
        assert k < i;
      }
    }
  }

  /** The group of entry `i`'s path after its name is added. */
  function NameAdded(grouped: map<string, Group>, e: UserEntry): map<string, Group>
    requires e.realPath in grouped
  {
    grouped[e.realPath := grouped[e.realPath].(names := grouped[e.realPath].names + {e.name})]
  }

  /** An entry whose path already has a group adds its name to it. */
  lemma JoinEntry(entries: seq<UserEntry>, i: nat, grouped: map<string, Group>, order: seq<string>)
    requires i < |entries| && entries[i].hasCur && entries[i].realPath in grouped
    requires GroupInv(entries, i, grouped, order)
    ensures GroupInv(entries, i + 1, NameAdded(grouped, entries[i]), order)
  {
    JoinEntryKeys(entries, i, grouped);
    JoinEntryNames(entries, i, grouped);
    JoinEntryMsgs(entries, i, grouped);
    JoinEntryOrder(grouped, entries[i], order);
  }

  lemma JoinEntryKeys(entries: seq<UserEntry>, i: nat, grouped: map<string, Group>)
    requires i < |entries| && entries[i].hasCur && entries[i].realPath in grouped
    requires KeysSeen(entries, i, grouped)
    ensures KeysSeen(entries, i + 1, NameAdded(grouped, entries[i]))
  {
    forall p | SeenBefore(entries, i + 1, p) ensures SeenBefore(entries, i, p) || KeptAt(entries[i], p) {
      var k :| 0 <= k < i + 1 && KeptAt(entries[k], p);
    }
  }

  lemma JoinEntryNames(entries: seq<UserEntry>, i: nat, grouped: map<string, Group>)
    requires i < |entries| && entries[i].hasCur && entries[i].realPath in grouped
    requires NamesGathered(entries, i, grouped)
    ensures NamesGathered(entries, i + 1, NameAdded(grouped, entries[i]))
  {
    var g := NameAdded(grouped, entries[i]);
    forall p | p in g ensures g[p].names == NamesBefore(entries, i + 1, p) && g[p].names != {} {
      NamesStep(entries, i, p);
    }
  }

  lemma JoinEntryMsgs(entries: seq<UserEntry>, i: nat, grouped: map<string, Group>)
    requires i < |entries| && entries[i].hasCur && entries[i].realPath in grouped
    requires CountsFromFirst(entries, i, grouped)
    ensures CountsFromFirst(entries, i + 1, NameAdded(grouped, entries[i]))
  {
    var g := NameAdded(grouped, entries[i]);
    forall p | p in g ensures exists j :: j < i + 1 && FirstAt(entries, j, p) && g[p].msgs == entries[j].msgs {
      var j :| j < i && FirstAt(entries, j, p) && grouped[p].msgs == entries[j].msgs;
    }
  }

  lemma JoinEntryOrder(grouped: map<string, Group>, e: UserEntry, order: seq<string>)
    requires e.realPath in grouped && KeysInOrder(grouped, order)
    ensures KeysInOrder(NameAdded(grouped, e), order)
  {
    assert NameAdded(grouped, e).Keys == grouped.Keys;
  }

  /** The groups once entry `i`, whose path has no group yet, has started one. */
  function Started(grouped: map<string, Group>, e: UserEntry): map<string, Group> {
    grouped[e.realPath := Group({e.name}, e.msgs)]
  }

  /** A new empty group with the entry's name added is the started group. */
  lemma FreshThenAdded(grouped: map<string, Group>, e: UserEntry)
    ensures NameAdded(grouped[e.realPath := Group({}, e.msgs)], e) == Started(grouped, e)
  {
    assert Group({}, e.msgs).names + {e.name} == {e.name};
  }

  /** An entry whose path has no group yet starts one, placed last. */
  lemma NewEntry(entries: seq<UserEntry>, i: nat, grouped: map<string, Group>, order: seq<string>)
    requires i < |entries| && entries[i].hasCur && entries[i].realPath !in grouped
    requires GroupInv(entries, i, grouped, order)
    ensures GroupInv(entries, i + 1, Started(grouped, entries[i]), order + [entries[i].realPath])
  {
    NewEntryKeys(entries, i, grouped);
    NewEntryNames(entries, i, grouped);
    NewEntryMsgs(entries, i, grouped);
    NewEntryOrder(entries, i, grouped, order);
  }

  lemma NewEntryKeys(entries: seq<UserEntry>, i: nat, grouped: map<string, Group>)
    requires i < |entries| && entries[i].hasCur && entries[i].realPath !in grouped
    requires KeysSeen(entries, i, grouped)
    ensures KeysSeen(entries, i + 1, Started(grouped, entries[i]))
  {
    forall p | SeenBefore(entries, i + 1, p) ensures SeenBefore(entries, i, p) || KeptAt(entries[i], p) {
      var k :| 0 <= k < i + 1 && KeptAt(entries[k], p);
    }
    assert KeptAt(entries[i], entries[i].realPath);
  }

  lemma NewEntryNames(entries: seq<UserEntry>, i: nat, grouped: map<string, Group>)
    requires i < |entries| && entries[i].hasCur && entries[i].realPath !in grouped
    requires KeysSeen(entries, i, grouped) && NamesGathered(entries, i, grouped)
    ensures NamesGathered(entries, i + 1, Started(grouped, entries[i]))
  {
    var e := entries[i];
    var g := Started(grouped, e);
    assert NamesBefore(entries, i, e.realPath) == {};
    forall p | p in g ensures g[p].names == NamesBefore(entries, i + 1, p) && g[p].names != {} {
      NamesStep(entries, i, p);
    }
  }

  lemma NewEntryMsgs(entries: seq<UserEntry>, i: nat, grouped: map<string, Group>)
    requires i < |entries| && entries[i].hasCur && entries[i].realPath !in grouped
    requires KeysSeen(entries, i, grouped) && CountsFromFirst(entries, i, grouped)
    ensures CountsFromFirst(entries, i + 1, Started(grouped, entries[i]))
  {
    var e := entries[i];
    var g := Started(grouped, e);
    assert FirstAt(entries, i, e.realPath);
    forall p | p in g ensures exists j :: j < i + 1 && FirstAt(entries, j, p) && g[p].msgs == entries[j].msgs {
      if p != e.realPath {
        var j :| j < i && FirstAt(entries, j, p) && grouped[p].msgs == entries[j].msgs;
      }
    }
  }

  lemma NewEntryOrder(entries: seq<UserEntry>, i: nat, grouped: map<string, Group>, order: seq<string>)
    requires i < |entries| && entries[i].hasCur && entries[i].realPath !in grouped
    requires GroupInv(entries, i, grouped, order)
    ensures KeysInOrder(Started(grouped, entries[i]), order + [entries[i].realPath])
    ensures FirstSeenOrder(entries, order + [entries[i].realPath])
  {
    var e := entries[i];
    assert FirstAt(entries, i, e.realPath);
    forall q | q in grouped ensures exists j :: j < i && FirstAt(entries, j, q) {
      var j :| j < i && FirstAt(entries, j, q) && grouped[q].msgs == entries[j].msgs;
    }
    NewPathLast(entries, order, grouped, i, e.realPath);
    var o := order + [e.realPath];
    forall a, b | 0 <= a < b < |o| ensures o[a] != o[b] {
      if b == |order| {
        assert o[a] == order[a];
      } else {
        assert o[a] == order[a] && o[b] == order[b];
      }
    }
  }

  /** The grouping loop of `main`: `entries` is the users directory in
      `sorted(os.listdir(...))` order; `order` is the insertion order of
      the `grouped` dictionary. */
  method GroupMailboxes(entries: seq<UserEntry>) returns (grouped: map<string, Group>, order: seq<string>)
    ensures forall p :: p in grouped <==> SeenBefore(entries, |entries|, p)
    ensures forall p :: p in grouped ==> grouped[p].names == NamesBefore(entries, |entries|, p) && grouped[p].names != {}
    ensures forall p :: p in grouped ==> exists j :: FirstAt(entries, j, p) && grouped[p].msgs == entries[j].msgs
    ensures Distinct(order) && forall p :: p in grouped <==> p in order
    ensures FirstSeenOrder(entries, order)
  {
    grouped := map[];
    order := [];
    for i := 0 to |entries|
      invariant GroupInv(entries, i, grouped, order)
    {
      grouped, order := AddEntry(entries, i, grouped, order);
    }
  }

  /** One pass of the grouping loop: entry `i` without `cur` is passed
      over; otherwise its path gets a group if it has none yet, and the
      entry's name is added to the group. */
  method AddEntry(entries: seq<UserEntry>, i: nat, grouped0: map<string, Group>, order0: seq<string>)
    returns (grouped: map<string, Group>, order: seq<string>)
    requires i < |entries| && GroupInv(entries, i, grouped0, order0)
    ensures GroupInv(entries, i + 1, grouped, order)
  {
    grouped, order := grouped0, order0;
    var e := entries[i];
    if !e.hasCur {
      SkipEntry(entries, i, grouped, order);
      return;
    }
    if e.realPath !in grouped {
      NewEntry(entries, i, grouped, order);
      FreshThenAdded(grouped, e);
      grouped := grouped[e.realPath := Group({}, e.msgs)];
      order := order + [e.realPath];
    } else {
      JoinEntry(entries, i, grouped, order);
    }
    ghost var before := grouped;
    grouped := grouped[e.realPath := grouped[e.realPath].(names := grouped[e.realPath].names + {e.name})];
    assert grouped == NameAdded(before, e);
  }

  /** A path met for the first time at entry `i` comes after every path
      already in the order. */
  lemma NewPathLast(entries: seq<UserEntry>, order: seq<string>, grouped: map<string, Group>, i: nat, p: string)
    requires i < |entries| && FirstAt(entries, i, p) && p !in grouped
    requires forall q :: q in grouped <==> q in order
    requires forall q :: q in grouped ==> exists j :: j < i && FirstAt(entries, j, q)
    requires FirstSeenOrder(entries, order)
    ensures FirstSeenOrder(entries, order + [p])
  {
    var o := order + [p];
    forall a, b, ja, jb | 0 <= a < b < |o| && 0 <= ja < |entries| && 0 <= jb < |entries| && FirstAt(entries, ja, o[a]) && FirstAt(entries, jb, o[b]) ensures ja < jb {
      if b == |order| {
        assert o[b] == p;
        assert KeptAt(entries[jb], p) && KeptAt(entries[i], p);
        assert jb == i;
        assert o[a] in grouped;
        var j :| j < i && FirstAt(entries, j, o[a]);
        assert KeptAt(entries[ja], o[a]) && KeptAt(entries[j], o[a]);
        assert ja == j;
      } else {
        assert o[a] == order[a] && o[b] == order[b];
      }
    }
  }

  /** One line of `mailbox_info`: the chosen name, the real path and the
      message count. */
  datatype MailboxInfo = MailboxInfo(name: string, path: string, msgs: nat)

  /** The loop over `grouped.items()` that builds `mailbox_info`. */
  method CollectInfo(grouped: map<string, Group>, order: seq<string>) returns (info: seq<MailboxInfo>)
    requires forall p :: p in grouped <==> p in order
    requires forall p :: p in grouped ==> grouped[p].names != {}
    ensures |info| == |order|
    ensures forall i :: 0 <= i < |order| ==>
      info[i] == MailboxInfo(ChooseBestName(grouped[order[i]].names), order[i], grouped[order[i]].msgs)
  {
    info := [];
    for i := 0 to |order|
      invariant |info| == i
      invariant forall k :: 0 <= k < i ==>
        info[k] == MailboxInfo(ChooseBestName(grouped[order[k]].names), order[k], grouped[order[k]].msgs)
    {
      var path := order[i];
      var best := ChooseBestName(grouped[path].names);
      info := info + [MailboxInfo(best, path, grouped[path].msgs)];
    }
  }

  /** The count of a mailbox line is that of the first entry resolving to
      its path. */
  predicate CountOfFirst(entries: seq<UserEntry>, m: MailboxInfo) {
    exists j :: 0 <= j < |entries| && FirstAt(entries, j, m.path) && m.msgs == entries[j].msgs
  }

  /** The unique mailboxes `main` finds: one line per distinct real path
      that has `cur`, named by `choose_best_name` of the names resolving to
      it, with the count of the first of them. */
  method UniqueMailboxes(entries: seq<UserEntry>) returns (info: seq<MailboxInfo>)
    ensures forall p :: SeenBefore(entries, |entries|, p) <==> exists i :: 0 <= i < |info| && info[i].path == p
    ensures forall i, j :: 0 <= i < j < |info| ==> info[i].path != info[j].path
    ensures forall i :: 0 <= i < |info| ==>
      && NamesBefore(entries, |entries|, info[i].path) != {}
      && info[i].name == ChooseBestName(NamesBefore(entries, |entries|, info[i].path))
    ensures forall i :: 0 <= i < |info| ==> CountOfFirst(entries, info[i])
  {
    var grouped, order := GroupMailboxes(entries);
    info := CollectInfo(grouped, order);
    forall p | SeenBefore(entries, |entries|, p) ensures exists i :: 0 <= i < |info| && info[i].path == p {
      assert p in order;
      var i :| 0 <= i < |order| && order[i] == p;
      assert info[i].path == p;
    }
    forall i | 0 <= i < |info| ensures CountOfFirst(entries, info[i]) {
      assert order[i] in grouped;
      assert info[i].path == order[i] && info[i].msgs == grouped[order[i]].msgs;
      var j :| FirstAt(entries, j, order[i]) && grouped[order[i]].msgs == entries[j].msgs;
      assert FirstAt(entries, j, info[i].path) && info[i].msgs == entries[j].msgs;
    }
  }

  /** Every user whose directory has `cur` appears in the group of its own
      real path and in no other (user names in a directory are distinct). */
  lemma NameInOwnGroupOnly(entries: seq<UserEntry>, k: nat, q: string)
    requires forall i, j :: 0 <= i < j < |entries| ==> entries[i].name != entries[j].name
    requires k < |entries| && entries[k].hasCur
    ensures entries[k].name in NamesBefore(entries, |entries|, q) <==> q == entries[k].realPath
  {
    if entries[k].name in NamesBefore(entries, |entries|, q) {
      var i :| 0 <= i < |entries| && KeptAt(entries[i], q) && entries[i].name == entries[k].name;
      assert i == k;
    }
  }

  /** The file name of a mailbox's export: spaces become `_`, and `.mbox`
      is appended. */
  function MboxFileName(name: string): (f: string)
    ensures |f| == |name| + 5 && EndsWith(f, ".mbox")
    ensures ' ' !in f
    ensures forall i :: 0 <= i < |name| && name[i] != ' ' ==> f[i] == name[i]
    ensures forall i :: 0 <= i < |name| && name[i] == ' ' ==> f[i] == '_'
  {
    ReplaceChar(name, ' ', '_') + ".mbox"
  }

  /** The output file of a mailbox: `os.path.join(dest, file name)`. */
  function OutputFile(dest: string, name: string): (r: string)
    ensures EndsWith(r, MboxFileName(name))
    ensures name == [] || name[0] != '/' ==> StartsWith(r, dest)
  {
    var f := MboxFileName(name);
    assert (name == [] || name[0] != '/') ==> !StartsWith(f, "/") by {
      if name == [] || name[0] != '/' {
        assert f[0] != '/';
        assert f[..1][0] == f[0];
      }
    }
    Join(dest, f)
  }

  /** A space and an underscore give the same file, so two users named
      apart only by them share one output file. */
  lemma MboxFileNameMergesSpaces(name: string)
    ensures MboxFileName(ReplaceChar(name, ' ', '_')) == MboxFileName(name)
  {
  }

  /** The same holds for the whole output path. */
  lemma OutputFileMergesSpaces(dest: string, name: string)
    ensures OutputFile(dest, ReplaceChar(name, ' ', '_')) == OutputFile(dest, name)
  {
    MboxFileNameMergesSpaces(name);
  }

  /** Without underscores, distinct names give distinct files. */
  lemma MboxFileNameInjective(a: string, b: string)
    requires '_' !in a && '_' !in b
    requires MboxFileName(a) == MboxFileName(b)
    ensures a == b
  {
    assert |a| == |b|;
    forall i | 0 <= i < |a| ensures a[i] == b[i] {
      assert MboxFileName(a)[i] == MboxFileName(b)[i];
      assert a[i] in a && b[i] in b;
    }
  }
}
