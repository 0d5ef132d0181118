/**
 * Page titles: `nsToTitle`, the title the raw-template fallback attaches, and the
 * bracketed menu-title template that `buildNamespace` hands to the translator.
 */
module Titles {
  import opened Wrappers
  import opened Text

  /** `toUpperCase` on one character, for ASCII letters. */
  function ToUpper(c: char): char {
    if 'a' <= c <= 'z' then (c as int - 32) as char else c
  }

  /** The class `[a-zA-Z> ]`. */
  predicate IsTitleChar(c: char) {
    'a' <= c <= 'z' || 'A' <= c <= 'Z' || c == '>' || c == ' '
  }

  /** `.replace(/[^a-zA-Z> ]/g, ' ')`. */
  function BlankOut(s: string): (r: string)
    ensures |r| == |s|
    ensures forall i | 0 <= i < |r| :: IsTitleChar(r[i])
    ensures forall i | 0 <= i < |r| :: IsTitleChar(s[i]) ==> r[i] == s[i]
    ensures forall i | 0 <= i < |r| :: !IsTitleChar(s[i]) ==> r[i] == ' '
  {
    if s == [] then [] else [if IsTitleChar(s[0]) then s[0] else ' '] + BlankOut(s[1..])
  }

  /** `s.replace(pat, '')` with a string pattern: only the first occurrence is removed. */
  function RemoveFirst(s: string, pat: string): (r: string)
    ensures (forall j: nat :: !OccursAt(s, pat, j)) ==> r == s
    ensures forall i: nat | OccursAt(s, pat, i) && (forall j: nat | j < i :: !OccursAt(s, pat, j)) ::
              r == s[..i] + s[i + |pat|..]
  {
    match IndexOf(s, pat, 0)
    case None => s
    case Some(i) => s[..i] + s[i + |pat|..]
  }

  /** `str[0].toUpperCase() + str.slice(1)`: an empty segment has no `str[0]`, and calling
      `toUpperCase` on `undefined` throws. */
  function Capitalize(seg: string): (r: Outcome<string>)
    ensures r.Ok? <==> seg != []
    ensures r.Ok? ==> |r.value| == |seg| && r.value[0] == ToUpper(seg[0]) && r.value[1..] == seg[1..]
  {
    if seg == [] then Failed else Ok([ToUpper(seg[0])] + seg[1..])
  }

  /** `.map(str => ...)` over the segments: the first empty segment throws. */
  function CapitalizeAll(segs: seq<string>): (r: Outcome<seq<string>>)
    ensures r.Ok? <==> AllNonEmpty(segs)
  {
    if segs == [] then Ok([])
    else match Capitalize(segs[0])
      case Failed => Failed
      case Ok(head) =>
        match CapitalizeAll(segs[1..])
        case Failed => Failed
        case Ok(tail) => Ok([head] + tail)
  }

  /** `nsToTitle(namespace)`. */
  function NsToTitle(ns: string): (r: Outcome<string>)
    ensures r.Ok? ==> forall i | 0 <= i < |r.value| :: IsTitleChar(r.value[i])
  {
    var rest := RemoveFirst(ns, "admin/");
    match CapitalizeAll(Split(rest, '/'))
    case Failed => Failed
    case Ok(caps) => Ok(BlankOut(Join(caps, " > ")))
  }

  // ---------------------------------------------------------------------------
  // When nsToTitle throws
  // ---------------------------------------------------------------------------

  /** Splitting on `c` leaves no empty piece: `s` is non-empty, neither starts nor ends with
      `c`, and has no two adjacent `c`. */
  predicate NoEmptyPiece(s: string, c: char) {
    && s != [] && s[0] != c && s[|s| - 1] != c
    && forall i | 0 <= i < |s| - 1 :: !(s[i] == c && s[i + 1] == c)
  }

  lemma SplitHead(s: string, c: char)
    requires s != [] && s[0] != c
    ensures Split(s, c)[0] != []
  {
  }

  predicate AllNonEmpty(parts: seq<string>) {
    forall k | 0 <= k < |parts| :: parts[k] != []
  }

  lemma AllNonEmptyCons(head: string, parts: seq<string>)
    ensures AllNonEmpty([head] + parts) <==> head != [] && AllNonEmpty(parts)
  {
    var all := [head] + parts;
    if head != [] && AllNonEmpty(parts) {
      forall k | 0 <= k < |all| ensures all[k] != [] {
        if k > 0 { assert all[k] == parts[k - 1]; }
      }
    }
    if AllNonEmpty(all) {
      assert all[0] == head;
      forall k | 0 <= k < |parts| ensures parts[k] != [] {
        assert parts[k] == all[k + 1];
      }
    }
  }

  lemma NoEmptyPieceStep(s: string, c: char)
    requires |s| >= 2 && s[0] != c && s[1] != c
    ensures NoEmptyPiece(s, c) <==> NoEmptyPiece(s[1..], c)
  {
    if NoEmptyPiece(s[1..], c) {
      forall i | 0 <= i < |s| - 1
        ensures !(s[i] == c && s[i + 1] == c)
      {
        if i > 0 { assert s[i] == s[1..][i - 1] && s[i + 1] == s[1..][i]; }
      }
    }
    if NoEmptyPiece(s, c) {
      forall i | 0 <= i < |s[1..]| - 1
        ensures !(s[1..][i] == c && s[1..][i + 1] == c)
      {
        assert s[1..][i] == s[i + 1] && s[1..][i + 1] == s[i + 2];
      }
    }
  }

  lemma NoEmptyPieceSkip(s: string, c: char)
    requires |s| >= 2 && s[0] != c && s[1] == c
    ensures NoEmptyPiece(s, c) <==> NoEmptyPiece(s[2..], c)
  {
    if NoEmptyPiece(s[2..], c) {
      forall i | 0 <= i < |s| - 1
        ensures !(s[i] == c && s[i + 1] == c)
      {
        if i > 1 { assert s[i] == s[2..][i - 2] && s[i + 1] == s[2..][i - 1]; }
      }
    }
    if NoEmptyPiece(s, c) {
      assert !(s[1] == c && s[2] == c);
      forall i | 0 <= i < |s[2..]| - 1
        ensures !(s[2..][i] == c && s[2..][i + 1] == c)
      {
        assert s[2..][i] == s[i + 2] && s[2..][i + 1] == s[i + 3];
      }
    }
  }

  lemma {:induction false} SplitEmptyPiece(s: string, c: char)
    ensures AllNonEmpty(Split(s, c)) <==> NoEmptyPiece(s, c)
    decreases |s|
  {
    if s == [] {
      assert Split(s, c)[0] == [];
    } else if s[0] == c {
      assert Split(s, c) == [[]] + Split(s[1..], c);
      assert Split(s, c)[0] == [];
    } else if |s| == 1 {
      assert s[1..] == [];
      var rest := Split(s[1..], c);
      assert rest == [[]];
      assert Split(s, c) == [[s[0]] + rest[0]] + rest[1..];
      assert [s[0]] + rest[0] == [s[0]];
      assert rest[1..] == [];
      assert NoEmptyPiece(s, c);
    } else {
      var rest := Split(s[1..], c);
      assert Split(s, c) == [[s[0]] + rest[0]] + rest[1..];
      AllNonEmptyCons([s[0]] + rest[0], rest[1..]);
      assert rest == [rest[0]] + rest[1..];
      AllNonEmptyCons(rest[0], rest[1..]);
      if s[1] != c {
        SplitEmptyPiece(s[1..], c);
        SplitHead(s[1..], c);
        NoEmptyPieceStep(s, c);
      } else {
        assert s[1..][1..] == s[2..];
        assert rest == [[]] + Split(s[2..], c);
        assert rest[1..] == Split(s[2..], c);
        SplitEmptyPiece(s[2..], c);
        NoEmptyPieceSkip(s, c);
      }
    }
  }

  /** `nsToTitle` throws exactly when the namespace, once its first `admin/` is removed, is
      empty, starts or ends with `/`, or holds `//`. */
  lemma NsToTitleFails(ns: string)
    ensures NsToTitle(ns).Failed? <==> !NoEmptyPiece(RemoveFirst(ns, "admin/"), '/')
  {
    SplitEmptyPiece(RemoveFirst(ns, "admin/"), '/');
  }

  // ---------------------------------------------------------------------------
  // What nsToTitle computes, character by character
  // ---------------------------------------------------------------------------

  /** `s` with the first character of every `/`-separated segment upper-cased. */
  function UpperHeads(s: string, atHead: bool): string {
    if s == [] then []
    else [if atHead then ToUpper(s[0]) else s[0]] + UpperHeads(s[1..], s[0] == '/')
  }

  function CapFirst(seg: string): string {
    if seg == [] then [] else [ToUpper(seg[0])] + seg[1..]
  }

  function CapFirstAll(segs: seq<string>): (r: seq<string>)
    ensures |r| == |segs|
  {
    if segs == [] then [] else [CapFirst(segs[0])] + CapFirstAll(segs[1..])
  }

  lemma {:induction false} CapitalizeAllIsCapFirst(segs: seq<string>)
    requires CapitalizeAll(segs).Ok?
    ensures CapitalizeAll(segs).value == CapFirstAll(segs)
  {
    if segs != [] {
      CapitalizeAllIsCapFirst(segs[1..]);
    }
  }

  lemma {:induction false} SplitUpperHeads(s: string, atHead: bool)
    ensures Split(UpperHeads(s, atHead), '/') ==
              [if atHead then CapFirst(Split(s, '/')[0]) else Split(s, '/')[0]]
              + CapFirstAll(Split(s, '/')[1..])
  {
    if s != [] {
      var h := if atHead then ToUpper(s[0]) else s[0];
      var p := Split(s[1..], '/');
      SplitUpperHeads(s[1..], s[0] == '/');
      assert UpperHeads(s, atHead) == [h] + UpperHeads(s[1..], s[0] == '/');
      assert ([h] + UpperHeads(s[1..], s[0] == '/'))[1..] == UpperHeads(s[1..], s[0] == '/');
      if s[0] == '/' {
        assert h == '/';
        assert Split(s, '/') == [[]] + p;
        assert ([[]] + p)[1..] == p;
        assert p == [p[0]] + p[1..];
      } else {
        assert h != '/';
        assert Split(s, '/') == [[s[0]] + p[0]] + p[1..];
        assert ([[s[0]] + p[0]] + p[1..])[1..] == p[1..];
      }
    }
  }

  /** The title is the namespace without its first `admin/`, with the first letter of every
      segment upper-cased, every `/` written as ` > ` and every character outside
      `[a-zA-Z> ]` replaced by a space. */
  lemma NsToTitleShape(ns: string)
    requires NsToTitle(ns).Ok?
    ensures NsToTitle(ns).value == BlankOut(ReplaceChar(UpperHeads(RemoveFirst(ns, "admin/"), true), '/', " > "))
  {
    var rest := RemoveFirst(ns, "admin/");
    var segs := Split(rest, '/');
    CapitalizeAllIsCapFirst(segs);
    SplitUpperHeads(rest, true);
    assert segs == [segs[0]] + segs[1..];
    assert CapFirstAll(segs) == [CapFirst(segs[0])] + CapFirstAll(segs[1..]);
    JoinSplit(UpperHeads(rest, true), '/', " > ");
  }

  // ---------------------------------------------------------------------------
  // The menu title template of buildNamespace
  // ---------------------------------------------------------------------------

  /** `ns.match(/admin\/(.+?)\/(.+?)$/)` tried at position `p`: `admin/`, a lazy non-empty
      first group ending at the first `/` that leaves a non-empty second group, and a second
      group running to the end; both groups line-free. */
  function MenuMatchAt(s: string, p: nat): (r: Option<(string, string)>)
    ensures r.Some? ==> OccursAt(s, "admin/", p) && s[p + 6..] == r.value.0 + "/" + r.value.1
    ensures r.Some? ==> r.value.0 != [] && r.value.1 != [] && LineFree(r.value.0) && LineFree(r.value.1)
    ensures r.Some? ==> '/' !in r.value.0[1..]
    ensures r.None? ==> !OccursAt(s, "admin/", p) || !LineFree(s[p + 6..])
                        || forall j | p + 7 <= j < |s| - 1 :: s[j] != '/'
  {
    if OccursAt(s, "admin/", p) && LineFree(s[p + 6..]) then
      match IndexOf(s, "/", p + 7)
      case Some(j) =>
        if j < |s| - 1 then
          assert s[j] == '/' by { assert s[j..j + 1] == "/"; }
          assert forall k | p + 7 <= k < j :: s[k] != '/' by {
            forall k | p + 7 <= k < j ensures s[k] != '/' {
              assert !OccursAt(s, "/", k);
              assert s[k..k + 1] == [s[k]];
            }
          }
          assert s[p + 6..] == s[p + 6..j] + "/" + s[j + 1..];
          LineFreeConcat(s[p + 6..j], "/" + s[j + 1..]);
          LineFreeConcat("/", s[j + 1..]);
          Some((s[p + 6..j], s[j + 1..]))
        else
          assert forall k | p + 7 <= k < |s| - 1 :: s[k] != '/' by {
            forall k | p + 7 <= k < |s| - 1 ensures s[k] != '/' {
              assert !OccursAt(s, "/", k);
              assert s[k..k + 1] == [s[k]];
            }
          }
          None
      case None =>
        assert forall k | p + 7 <= k < |s| - 1 :: s[k] != '/' by {
          forall k | p + 7 <= k < |s| - 1 ensures s[k] != '/' {
            assert !OccursAt(s, "/", k);
            assert s[k..k + 1] == [s[k]];
          }
        }
        None
    else None
  }

  /** The leftmost position at or after `p` where the menu pattern matches. */
  function MenuMatchFrom(s: string, p: nat): (r: Option<(string, string)>)
    decreases |s| - p
    ensures r.Some? ==> exists q: nat | p <= q ::
              MenuMatchAt(s, q) == r && forall q': nat | p <= q' < q :: MenuMatchAt(s, q').None?
    ensures r.None? ==> forall q: nat | p <= q :: MenuMatchAt(s, q).None?
  {
    if p >= |s| then
      assert forall q: nat | p <= q :: MenuMatchAt(s, q).None? by {
        forall q: nat | p <= q ensures MenuMatchAt(s, q).None? {
          assert !OccursAt(s, "admin/", q);
        }
      }
      None
    else match MenuMatchAt(s, p)
      case Some(g) => Some(g)
      case None => MenuMatchFrom(s, p + 1)
  }

  /** `ns.match(/admin\/(.+?)\/(.+?)$/)`: the two groups of the leftmost match, if any. */
  function MenuMatch(ns: string): (r: Option<(string, string)>)
    ensures r.Some? ==> r.value.0 != [] && r.value.1 != [] && LineFree(r.value.0) && LineFree(r.value.1)
    ensures r.Some? ==> EndsWith(ns, "admin/" + r.value.0 + "/" + r.value.1)
    ensures r.Some? ==> '/' !in r.value.0[1..]
    ensures r.Some? ==> exists p: nat ::
              MenuMatchAt(ns, p) == r && forall q: nat | q < p :: MenuMatchAt(ns, q).None?
    ensures r.None? ==> forall p: nat | OccursAt(ns, "admin/", p) && LineFree(ns[p + 6..]) ::
                          forall j | p + 7 <= j < |ns| - 1 :: ns[j] != '/'
  {
    var r := MenuMatchFrom(ns, 0);
    if r.Some? then
      var q: nat :| MenuMatchAt(ns, q) == r && forall q': nat | q' < q :: MenuMatchAt(ns, q').None?;
      MatchedSuffix(ns, q);
      r
    else
      assert forall p: nat | OccursAt(ns, "admin/", p) && LineFree(ns[p + 6..]) ::
               forall j | p + 7 <= j < |ns| - 1 :: ns[j] != '/' by {
        forall p: nat | OccursAt(ns, "admin/", p) && LineFree(ns[p + 6..])
          ensures forall j | p + 7 <= j < |ns| - 1 :: ns[j] != '/'
        {
          assert MenuMatchAt(ns, p).None?;
        }
      }
      r
  }

  lemma MatchedSuffix(ns: string, q: nat)
    requires MenuMatchAt(ns, q).Some?
    ensures EndsWith(ns, "admin/" + MenuMatchAt(ns, q).value.0 + "/" + MenuMatchAt(ns, q).value.1)
  {
    var g := MenuMatchAt(ns, q).value;
    assert ns[q..] == ns[q..q + 6] + ns[q + 6..];
    assert ns[q..] == "admin/" + g.0 + "/" + g.1;
  }

  /** The section key of the menu title: `development` pages sit under `advanced`. */
  function SectionKey(section: string): (r: string)
    ensures r != "development"
    ensures r == section <==> section != "development"
  {
    if section == "development" then "advanced" else section
  }

  /** The title text built from the two groups of the match: the section entry, then the page
      entry when the second group is non-empty. */
  function MenuTitleTemplate(section: string, page: string): (r: string)
    ensures var head := "[[admin/menu:section-" + SectionKey(section) + "]]";
            |head| <= |r| && r[..|head|] == head && (page == [] ==> r == head)
    ensures page != [] ==> EndsWith(r, "[[admin/menu:" + section + "/" + page + "]]")
  {
    var head := "[[admin/menu:section-" + SectionKey(section) + "]]";
    if page != [] then
      var entry := "[[admin/menu:" + section + "/" + page + "]]";
      ConcatSplits(head, " > " + entry);
      ConcatSplits(" > ", entry);
      head + (" > " + entry)
    else head
  }

  lemma ConcatSplits(a: string, b: string)
    ensures (a + b)[..|a|] == a && (a + b)[|a|..] == b
  {
  }

  /** The template `buildNamespace` translates: empty exactly when the namespace does not match,
      and otherwise led by the section entry of the first group. */
  function TitleTemplate(ns: string): (r: string)
    ensures r == "" <==> MenuMatch(ns).None?
    ensures MenuMatch(ns).Some? ==>
              var head := "[[admin/menu:section-" + SectionKey(MenuMatch(ns).value.0) + "]]";
              |head| <= |r| && r[..|head|] == head
  {
    match MenuMatch(ns)
    case None => ""
    case Some((section, page)) => MenuTitleTemplate(section, page)
  }

  /** For a namespace `admin/X/Y` with a slash-free X, the template names the section of X
      (`advanced` for `development`) and the page X/Y with the original X. */
  lemma TitleTemplateOfPage(section: string, page: string)
    requires section != [] && '/' !in section && LineFree(section)
    requires page != [] && LineFree(page)
    ensures MenuMatch("admin/" + section + "/" + page) == Some((section, page))
    ensures TitleTemplate("admin/" + section + "/" + page) ==
              "[[admin/menu:section-" + SectionKey(section) + "]] > [[admin/menu:" + section + "/" + page + "]]"
  {
    var ns := "admin/" + section + "/" + page;
    PageMatchesAtStart(section, page);
    assert MenuMatchFrom(ns, 0) == Some((section, page));
    assert MenuMatch(ns) == Some((section, page));
    MenuTemplateText(section, page);
  }

  lemma MenuTemplateText(section: string, page: string)
    requires page != []
    ensures MenuTitleTemplate(section, page) ==
              "[[admin/menu:section-" + SectionKey(section) + "]] > [[admin/menu:" + section + "/" + page + "]]"
  {
    MenuLiteralJoin();
    Regroup("[[admin/menu:section-", SectionKey(section), "]]", " > ", "[[admin/menu:", section, "/", page, "]]");
  }

  lemma Regroup(l: string, k: string, m1: string, m2: string, m3: string,
                s: string, sl: string, p: string, e: string)
    ensures l + k + m1 + (m2 + (m3 + s + sl + p + e)) == l + k + (m1 + m2 + m3) + s + sl + p + e
  {
  }

  lemma MenuLiteralJoin()
    ensures "]]" + " > " + "[[admin/menu:" == "]] > [[admin/menu:"
  {
  }

  lemma PageMatchesAtStart(section: string, page: string)
    requires section != [] && '/' !in section && LineFree(section)
    requires page != [] && LineFree(page)
    ensures MenuMatchAt("admin/" + section + "/" + page, 0) == Some((section, page))
  {
    var ns := "admin/" + section + "/" + page;
    var j := 6 + |section|;
    assert OccursAt(ns, "admin/", 0);
    assert ns[6..] == section + "/" + page;
    LineFreeConcat(section, "/" + page);
    LineFreeConcat("/", page);
    assert ns[j..j + 1] == "/";
    assert OccursAt(ns, "/", j);
    forall k: nat | 7 <= k < j
      ensures !OccursAt(ns, "/", k)
    {
      assert ns[k] == section[k - 6];
      assert ns[k..k + 1] == [ns[k]];
    }
    assert IndexOf(ns, "/", 7) == Some(j);
    assert ns[6..j] == section;
    assert ns[j + 1..] == page;
  }

  /** A namespace where no `admin/` is followed by a line-free rest holding a slash after its
      first character and before its last one, such as `admin/dashboard` or `admin/x/`, gets
      the empty template. */
  lemma TitleTemplateNoMatch(ns: string)
    requires forall p: nat | OccursAt(ns, "admin/", p) && LineFree(ns[p + 6..]) ::
               forall j | p + 7 <= j < |ns| - 1 :: ns[j] != '/'
    ensures MenuMatch(ns).None?
    ensures TitleTemplate(ns) == ""
  {
    forall p: nat
      ensures MenuMatchAt(ns, p).None?
    {
      if MenuMatchAt(ns, p).Some? {
        var j := MatchSlash(ns, p);
        assert false;
      }
    }
  }

  /** A match at `p` has a line-free rest after `admin/` with a slash after its first character
      and before the last character of the namespace. */
  lemma MatchSlash(ns: string, p: nat) returns (j: nat)
    requires MenuMatchAt(ns, p).Some?
    ensures OccursAt(ns, "admin/", p) && LineFree(ns[p + 6..])
    ensures p + 7 <= j < |ns| - 1 && ns[j] == '/'
  {
    var g := MenuMatchAt(ns, p).value;
    j := p + 6 + |g.0|;
    assert ns[p + 6..] == g.0 + "/" + g.1;
    LineFreeConcat(g.0, "/" + g.1);
    LineFreeConcat("/", g.1);
    assert ns[j] == ns[p + 6..][|g.0|];
  }

  /** The lazy first group stops at the first slash: in `admin/a/admin/b/c` the groups are `a`
      and `admin/b/c`. */
  lemma NestedAdminMatchesFirst()
    ensures MenuMatch("admin/a/admin/b/c") == Some(("a", "admin/b/c"))
  {
    assert "admin/" + "a" + "/" + "admin/b/c" == "admin/a/admin/b/c";
    assert LineFree("admin/b/c");
    TitleTemplateOfPage("a", "admin/b/c");
  }
}
