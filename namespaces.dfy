/**
 * Namespace derivation for the admin search dictionary (`filterDirectories`):
 * every file found below the admin views directory becomes a logical namespace
 * such as "admin/manage/users", and only real admin pages are kept.
 */
module Namespaces {
  import opened Wrappers
  import opened Text

  /** The path matches `/^.*(admin.*?).tpl$/`: a line-free path ending in any character and
      `tpl`, with an `admin` that ends before that four-character suffix. */
  ghost predicate IsTemplatePath(dir: string) {
    && |dir| >= 4
    && EndsWith(dir, "tpl")
    && LineFree(dir[..|dir| - 3])
    && exists i: nat :: i + 5 <= |dir| - 4 && OccursAt(dir, "admin", i)
  }

  /** `i` is the last `admin` that ends before the four-character suffix: the position the
      greedy `^.*` leaves to the capture group. */
  ghost predicate IsLastAdmin(dir: string, i: nat)
    requires |dir| >= 4
  {
    && i + 5 <= |dir| - 4
    && OccursAt(dir, "admin", i)
    && forall j: nat | i < j && j + 5 <= |dir| - 4 :: !OccursAt(dir, "admin", j)
  }

  lemma LastAdminUnique(dir: string, i: nat, k: nat)
    requires |dir| >= 4 && IsLastAdmin(dir, i) && IsLastAdmin(dir, k)
    ensures i == k
  {
  }

  /** `dir.replace(/^.*(admin.*?).tpl$/, '$1')`. */
  function StripTemplate(dir: string): (r: string)
    ensures IsTemplatePath(dir) ==> exists i: nat :: IsLastAdmin(dir, i) && r == dir[i..|dir| - 4]
    ensures !IsTemplatePath(dir) ==> r == dir
  {
    if |dir| >= 4 && EndsWith(dir, "tpl") && LineFree(dir[..|dir| - 3]) then
      match LastIndexOf(dir, "admin", |dir| - 4)
      case Some(i) => assert IsLastAdmin(dir, i); dir[i..|dir| - 4]
      case None => dir
    else dir
  }

  /** `.split(path.sep).join('/')` applied to the stripped path. */
  function NormalizePath(dir: string, sep: char): (r: string)
    ensures r == ReplaceChar(StripTemplate(dir), sep, "/")
    ensures sep != '/' ==> sep !in r
  {
    var stripped := StripTemplate(dir);
    JoinSplit(stripped, sep, "/");
    ReplaceCharRemoves(stripped, sep, "/");
    Join(Split(stripped, sep), "/")
  }

  /** Where `path.sep` is `/`, the split and join give the stripped path back unchanged. */
  lemma {:induction false} NormalizeWithSlashSep(dir: string)
    ensures NormalizePath(dir, '/') == StripTemplate(dir)
  {
    SplitJoinRoundTrip(StripTemplate(dir), '/');
  }

  /** `/\/.*\//.test(d)`: two slashes with only line-free characters between them. */
  predicate HasTwoSlashes(d: string) {
    exists i, j | 0 <= i < j < |d| :: d[i] == '/' && d[j] == '/' && LineFree(d[i + 1..j])
  }

  /** `/manage\/(category|group|category-analytics)$/.test(d)`. */
  predicate IsExcludedManagePage(d: string) {
    EndsWith(d, "manage/category") || EndsWith(d, "manage/group") || EndsWith(d, "manage/category-analytics")
  }

  /** The filter of `filterDirectories`: no script, no partial, a sub-path, not an excluded page. */
  predicate IsPage(d: string)
    ensures IsPage(d) ==> Count(d, '/') >= 2 && !EndsWith(d, ".js") && !IsExcludedManagePage(d)
  {
    TwoSlashesCount(d);
    && !EndsWith(d, ".js")
    && !Includes(d, "/partials/")
    && HasTwoSlashes(d)
    && !IsExcludedManagePage(d)
  }

  /** `directories.map(...)`: entry k is the normalised path k. */
  function NormalizeAll(dirs: seq<string>, sep: char): (r: seq<string>)
    ensures |r| == |dirs|
    ensures forall k | 0 <= k < |dirs| :: r[k] == NormalizePath(dirs[k], sep)
  {
    if dirs == [] then [] else [NormalizePath(dirs[0], sep)] + NormalizeAll(dirs[1..], sep)
  }

  /** `.filter(...)` with the page predicate. */
  function KeepPages(ds: seq<string>): (r: seq<string>)
    ensures |r| <= |ds|
    ensures forall k | 0 <= k < |r| :: IsPage(r[k])
  {
    if ds == [] then [] else (if IsPage(ds[0]) then [ds[0]] else []) + KeepPages(ds[1..])
  }

  /** `filterDirectories(directories)`, with the platform separator `path.sep` as a parameter. */
  function FilterDirectories(dirs: seq<string>, sep: char): (r: seq<string>)
    ensures |r| <= |dirs|
    ensures forall k | 0 <= k < |r| :: IsPage(r[k])
  {
    KeepPages(NormalizeAll(dirs, sep))
  }

  /** The filter keeps the surviving entries in their original order. */
  lemma {:induction false} KeepPagesIsSubsequence(ds: seq<string>)
    ensures SubsequenceOf(KeepPages(ds), ds)
  {
    if ds != [] {
      KeepPagesIsSubsequence(ds[1..]);
      var rest := KeepPages(ds[1..]);
      if IsPage(ds[0]) {
        assert KeepPages(ds) == [ds[0]] + rest;
        assert ([ds[0]] + rest)[1..] == rest;
      } else {
        assert KeepPages(ds) == rest;
        SubsequenceSkip(rest, ds);
      }
    }
  }

  /** An entry survives the filter exactly when it is one of the inputs and a page. */
  lemma {:induction false} KeepPagesMembers(ds: seq<string>, d: string)
    ensures d in KeepPages(ds) <==> d in ds && IsPage(d)
  {
    if ds != [] {
      KeepPagesMembers(ds[1..], d);
      assert ds == [ds[0]] + ds[1..];
    }
  }

  /** The filter keeps every page as often as it occurs and drops every other entry. */
  lemma {:induction false} KeepPagesCounts(ds: seq<string>, d: string)
    ensures multiset(KeepPages(ds))[d] == if IsPage(d) then multiset(ds)[d] else 0
  {
    if ds != [] {
      KeepPagesCounts(ds[1..], d);
      assert ds == [ds[0]] + ds[1..];
      assert multiset(ds) == multiset([ds[0]]) + multiset(ds[1..]);
      var head := if IsPage(ds[0]) then [ds[0]] else [];
      assert KeepPages(ds) == head + KeepPages(ds[1..]);
      assert multiset(KeepPages(ds)) == multiset(head) + multiset(KeepPages(ds[1..]));
    }
  }

  /** `filterDirectories` is the normalised inputs, filtered, in order; a normalised input is in
      the output exactly when it passes the four filters. */
  lemma FilterDirectoriesSpec(dirs: seq<string>, sep: char, d: string)
    ensures SubsequenceOf(FilterDirectories(dirs, sep), NormalizeAll(dirs, sep))
    ensures d in FilterDirectories(dirs, sep) <==>
              IsPage(d) && exists k | 0 <= k < |dirs| :: d == NormalizePath(dirs[k], sep)
    ensures multiset(FilterDirectories(dirs, sep))[d] ==
              if IsPage(d) then multiset(NormalizeAll(dirs, sep))[d] else 0
  {
    KeepPagesIsSubsequence(NormalizeAll(dirs, sep));
    KeepPagesCounts(NormalizeAll(dirs, sep), d);
    KeepPagesMembers(NormalizeAll(dirs, sep), d);
    var ns := NormalizeAll(dirs, sep);
    if d in ns {
      var k :| 0 <= k < |ns| && ns[k] == d;
      assert d == NormalizePath(dirs[k], sep);
    }
  }

  /** A path that passes the sub-path filter has at least two slashes; on line-free text the
      converse holds as well. */
  lemma {:induction false} TwoSlashesCount(d: string)
    ensures HasTwoSlashes(d) ==> Count(d, '/') >= 2
    ensures LineFree(d) && Count(d, '/') >= 2 ==> HasTwoSlashes(d)
  {
    if HasTwoSlashes(d) {
      var i, j :| 0 <= i < j < |d| && d[i] == '/' && d[j] == '/' && LineFree(d[i + 1..j]);
      CountAtLeastTwo(d, i, j);
    }
    if LineFree(d) && Count(d, '/') >= 2 {
      var i, j := TwoPositions(d);
      assert LineFree(d[i + 1..j]);
    }
  }

  lemma {:induction false} CountAtLeastTwo(d: string, i: nat, j: nat)
    requires i < j < |d| && d[i] == '/' && d[j] == '/'
    ensures Count(d, '/') >= 2
  {
    if i == 0 {
      CountAtLeastOne(d[1..], j - 1);
    } else {
      CountAtLeastTwo(d[1..], i - 1, j - 1);
    }
  }

  lemma {:induction false} CountAtLeastOne(d: string, j: nat)
    requires j < |d| && d[j] == '/'
    ensures Count(d, '/') >= 1
  {
    if j > 0 {
      CountAtLeastOne(d[1..], j - 1);
    }
  }

  lemma {:induction false} TwoPositions(d: string) returns (i: nat, j: nat)
    requires Count(d, '/') >= 2
    ensures i < j < |d| && d[i] == '/' && d[j] == '/'
  {
    if d[0] == '/' {
      i := 0;
      j := OnePosition(d[1..]);
      j := j + 1;
    } else {
      i, j := TwoPositions(d[1..]);
      i, j := i + 1, j + 1;
    }
  }

  lemma {:induction false} OnePosition(d: string) returns (j: nat)
    requires Count(d, '/') >= 1
    ensures j < |d| && d[j] == '/'
  {
    if d[0] == '/' {
      j := 0;
    } else {
      j := OnePosition(d[1..]);
      j := j + 1;
    }
  }

  /** The page template `admin/manage/admins-mods.tpl` contains a later `admin` than the
      directory one, so the greedy cut yields "admins-mods", which has no slash and is dropped:
      that page never reaches the search dictionary. */
  lemma AdminsModsPageDropped(root: string)
    requires LineFree(root)
    ensures StripTemplate(root + "/admin/manage/admins-mods.tpl") == "admins-mods"
    ensures FilterDirectories([root + "/admin/manage/admins-mods.tpl"], '/') == []
  {
    AdminsModsStripped(root);
    AdminsModsNormalised(root);
    NoSlashIsNoPage("admins-mods");
    assert KeepPages(["admins-mods"]) == [] + KeepPages([]);
  }

  lemma AdminsModsNormalised(root: string)
    requires StripTemplate(root + AdminsModsTail) == "admins-mods"
    ensures NormalizeAll([root + AdminsModsTail], '/') == ["admins-mods"]
  {
    ReplaceCharSelf("admins-mods", '/');
    assert NormalizePath(root + AdminsModsTail, '/') == "admins-mods";
  }

  lemma AdminsModsStripped(root: string)
    requires LineFree(root)
    ensures StripTemplate(root + AdminsModsTail) == "admins-mods"
  {
    var dir := root + AdminsModsTail;
    AdminsModsLastAdmin(root);
    var k: nat :| IsLastAdmin(dir, k) && StripTemplate(dir) == dir[k..|dir| - 4];
    LastAdminUnique(dir, k, |root| + 14);
    AdminsModsTailFacts();
    assert dir[k..|dir| - 4] == AdminsModsTail[14..25];
  }

  lemma NoSlashIsNoPage(d: string)
    requires '/' !in d
    ensures !IsPage(d)
  {
  }

  /** The admins-mods page template below the views root. */
  const AdminsModsTail := "/admin/manage/admins-mods.tpl"

  lemma AdminsModsTailFacts()
    ensures |AdminsModsTail| == 29
    ensures AdminsModsTail[14..19] == "admin" && AdminsModsTail[14..25] == "admins-mods"
    ensures LineFree(AdminsModsTail[..26])
    ensures forall j | 14 < j <= 20 :: AdminsModsTail[j] != 'a'
  {
  }

  lemma AdminsModsLastAdmin(root: string)
    requires LineFree(root)
    ensures IsTemplatePath(root + AdminsModsTail)
    ensures IsLastAdmin(root + AdminsModsTail, |root| + 14)
  {
    var tail := AdminsModsTail;
    var dir := root + tail;
    var i := |root| + 14;
    AdminsModsTailFacts();
    assert dir[i..i + 5] == tail[14..19];
    assert OccursAt(dir, "admin", i);
    assert dir[..|dir| - 3] == root + tail[..26];
    LineFreeConcat(root, tail[..26]);
    assert dir[|dir| - 3..] == tail[26..] == "tpl";
    forall j: nat | i < j && j + 5 <= |dir| - 4
      ensures !OccursAt(dir, "admin", j)
    {
      assert dir[j] == tail[j - |root|];
      assert dir[j..j + 5][0] == dir[j];
    }
  }
}
