/**
 * `simplify`: the three global regex replacements that turn sanitised template
 * text into search text. Each pass is modelled as the left-to-right scan the
 * regex engine performs: try a match at the current position, replace it and
 * continue after it, or keep one character and move on.
 */
module Simplifier {
  import opened Wrappers
  import opened Text

  predicate IsBlank(c: char) { c == ' ' || c == '\t' }
  predicate IsNewline(c: char) { c == '\n' || c == '\r' }
  /** The class `[ \t\n\r]`. */
  predicate IsSpace(c: char) { IsBlank(c) || IsNewline(c) }

  /** No `{` is followed, anywhere later, by a `}`: no mustache is left. */
  ghost predicate NoMustache(s: string) {
    forall i, j | 0 <= i < j < |s| :: !(s[i] == '{' && s[j] == '}')
  }

  /** Whitespace as the search box wants it: no tab, no carriage return, no two adjacent
      spaces, no two adjacent newlines and no space beside a newline. */
  ghost predicate Simplified(s: string) {
    && (forall i | 0 <= i < |s| :: s[i] != '\t' && s[i] != '\r')
    && (forall i | 0 <= i < |s| - 1 ::
          !(s[i] == ' ' && s[i + 1] == ' ') && !(s[i] == '\n' && s[i + 1] == '\n')
          && !(s[i] == ' ' && s[i + 1] == '\n') && !(s[i] == '\n' && s[i + 1] == ' '))
  }

  // ---------------------------------------------------------------------------
  // Pass 1: .replace(/(?:\{{1,2}[^}]*?\}{1,2})/g, '')
  // ---------------------------------------------------------------------------

  /** The first `}` at or after `from`. */
  function FirstClose(s: string, from: nat): (r: Option<nat>)
    decreases |s| - from
    ensures r.Some? ==> from <= r.value < |s| && s[r.value] == '}'
    ensures r.Some? ==> forall j | from <= j < r.value :: s[j] != '}'
    ensures r.None? ==> forall j | from <= j < |s| :: s[j] != '}'
  {
    if from >= |s| then None
    else if s[from] == '}' then Some(from)
    else FirstClose(s, from + 1)
  }

  /** A match starts at a `{` that has a `}` somewhere after it: the lazy `[^}]*?` stops at
      the first `}`, and the greedy `\}{1,2}` takes a second `}` when one follows. */
  function StripMustaches(s: string): (r: string)
    decreases |s|
    ensures |r| <= |s|
    ensures forall c | c in r :: c in s
    ensures NoMustache(r)
  {
    if s == [] then []
    else if s[0] == '{' && FirstClose(s, 1).Some? then
      var q := FirstClose(s, 1).value;
      var e := if q + 1 < |s| && s[q + 1] == '}' then q + 2 else q + 1;
      StripMustaches(s[e..])
    else
      var rest := StripMustaches(s[1..]);
      NoMustacheCons(s[0], rest);
      [s[0]] + rest
  }

  lemma NoMustacheCons(x: char, r: string)
    requires NoMustache(r)
    requires x == '{' ==> '}' !in r
    ensures NoMustache([x] + r)
  {
    var s := [x] + r;
    forall i, j | 0 <= i < j < |s|
      ensures !(s[i] == '{' && s[j] == '}')
    {
      if i == 0 {
        assert s[j] == r[j - 1];
      } else {
        assert s[i] == r[i - 1] && s[j] == r[j - 1];
      }
    }
  }

  lemma NoMustacheTail(s: string, k: nat)
    requires NoMustache(s) && k <= |s|
    ensures NoMustache(s[k..])
  {
    var t := s[k..];
    forall i, j | 0 <= i < j < |t|
      ensures !(t[i] == '{' && t[j] == '}')
    {
      assert t[i] == s[k + i] && t[j] == s[k + j];
    }
  }

  /** Text without mustaches loses nothing in the first pass. */
  lemma {:induction false} StripMustachesKeeps(s: string)
    requires NoMustache(s)
    ensures StripMustaches(s) == s
  {
    if s != [] {
      NoMustacheTail(s, 1);
      StripMustachesKeeps(s[1..]);
      if s[0] == '{' {
        forall j | 1 <= j < |s|
          ensures s[j] != '}'
        {
          assert !(s[0] == '{' && s[j] == '}');
        }
      }
    }
  }

  // ---------------------------------------------------------------------------
  // Pass 2: .replace(/(?:[ \t]*[\n\r]+[ \t]*)+/g, '\n')
  // ---------------------------------------------------------------------------

  /** Length of the run of `[ \t\n\r]` that starts `s`. */
  function SpaceRun(s: string): (k: nat)
    ensures k <= |s|
    ensures forall i | 0 <= i < k :: IsSpace(s[i])
    ensures k < |s| ==> !IsSpace(s[k])
  {
    if s == [] || !IsSpace(s[0]) then 0 else 1 + SpaceRun(s[1..])
  }

  predicate HasNewline(s: string) {
    exists i | 0 <= i < |s| :: IsNewline(s[i])
  }

  /** At a position whose whitespace run holds a line break, the repeated group matches that
      whole run; at any other position there is no match and one character is kept. */
  function CollapseNewlines(s: string): (r: string)
    decreases |s|
    ensures |r| <= |s|
    ensures forall c | c in r :: c in s || c == '\n'
  {
    if s == [] then []
    else
      var k := SpaceRun(s);
      if HasNewline(s[..k]) then
        var rest := CollapseNewlines(s[k..]);
        assert forall c | c in rest :: c in s || c == '\n' by {
          forall c | c in rest ensures c in s || c == '\n' {
            if c in s[k..] {
              var i :| 0 <= i < |s[k..]| && s[k..][i] == c;
              assert s[k + i] == c;
            }
          }
        }
        "\n" + rest
      else
        var rest := CollapseNewlines(s[1..]);
        assert forall c | c in rest :: c in s || c == '\n' by {
          forall c | c in rest ensures c in s || c == '\n' {
            if c in s[1..] {
              var i :| 0 <= i < |s[1..]| && s[1..][i] == c;
              assert s[1 + i] == c;
            }
          }
        }
        [s[0]] + rest
  }

  /** The shape of text after the second pass. */
  ghost predicate Collapsed(s: string) {
    && (forall i | 0 <= i < |s| :: s[i] != '\r')
    && (forall i | 0 <= i < |s| - 1 :: (s[i] == '\n' ==> !IsSpace(s[i + 1])) && (IsBlank(s[i]) ==> s[i + 1] != '\n'))
  }

  lemma CollapsedCons(x: char, r: string)
    requires Collapsed(r) && x != '\r'
    requires x == '\n' && r != [] ==> !IsSpace(r[0])
    requires IsBlank(x) && r != [] ==> r[0] != '\n'
    ensures Collapsed([x] + r)
  {
    var s := [x] + r;
    forall i | 1 <= i < |s| - 1
      ensures (s[i] == '\n' ==> !IsSpace(s[i + 1])) && (IsBlank(s[i]) ==> s[i + 1] != '\n')
    {
      assert s[i] == r[i - 1] && s[i + 1] == r[i];
    }
  }

  lemma CollapsedTail(s: string, k: nat)
    requires Collapsed(s) && k <= |s|
    ensures Collapsed(s[k..])
  {
    var t := s[k..];
    forall i | 0 <= i < |t| - 1
      ensures (t[i] == '\n' ==> !IsSpace(t[i + 1])) && (IsBlank(t[i]) ==> t[i + 1] != '\n')
    {
      assert t[i] == s[k + i] && t[i + 1] == s[k + i + 1];
    }
  }

  /** A position with no line break in its whitespace run is copied to the output. */
  lemma CollapseHead(s: string)
    requires s != [] && !HasNewline(s[..SpaceRun(s)])
    ensures CollapseNewlines(s) != [] && CollapseNewlines(s)[0] == s[0]
  {
  }

  lemma SpaceRunTail(s: string)
    requires s != [] && IsSpace(s[0])
    ensures SpaceRun(s[1..]) == SpaceRun(s) - 1
    ensures s[1..][..SpaceRun(s[1..])] == s[1..SpaceRun(s)]
  {
  }

  /** After the second pass: no carriage return, a newline is never followed by whitespace,
      and a blank is never followed by a newline. */
  lemma {:induction false} CollapseNewlinesCollapsed(s: string)
    ensures Collapsed(CollapseNewlines(s))
  {
    if s != [] {
      var k := SpaceRun(s);
      if HasNewline(s[..k]) {
        var rest := CollapseNewlines(s[k..]);
        CollapseNewlinesCollapsed(s[k..]);
        if k < |s| {
          assert s[k..][..SpaceRun(s[k..])] == [];
          CollapseHead(s[k..]);
        }
        CollapsedCons('\n', rest);
      } else {
        var rest := CollapseNewlines(s[1..]);
        CollapseNewlinesCollapsed(s[1..]);
        if IsSpace(s[0]) {
          assert !IsNewline(s[0]) by { assert s[..k][0] == s[0]; }
          if |s| > 1 {
            SpaceRunTail(s);
            CollapseHead(s[1..]);
            assert rest[0] == s[1];
            if 1 < k {
              assert s[..k][1] == s[1];
            }
          }
        }
        CollapsedCons(s[0], rest);
      }
    }
  }

  // ---------------------------------------------------------------------------
  // Pass 3: .replace(/[\t ]+/g, ' ')
  // ---------------------------------------------------------------------------

  /** Length of the run of blanks that starts `s`. */
  function BlankRun(s: string): (k: nat)
    ensures 0 < |s| && IsBlank(s[0]) ==> 0 < k
    ensures k <= |s|
    ensures forall i | 0 <= i < k :: IsBlank(s[i])
    ensures k < |s| ==> !IsBlank(s[k])
  {
    if s == [] || !IsBlank(s[0]) then 0 else 1 + BlankRun(s[1..])
  }

  /** Every run of blanks becomes one space. */
  function SqueezeBlanks(s: string): (r: string)
    decreases |s|
    ensures |r| <= |s|
    ensures forall c | c in r :: c in s || c == ' '
  {
    if s == [] then []
    else if IsBlank(s[0]) then
      var k := BlankRun(s);
      var rest := SqueezeBlanks(s[k..]);
      assert forall c | c in rest :: c in s || c == ' ' by {
        forall c | c in rest ensures c in s || c == ' ' {
          if c in s[k..] {
            var i :| 0 <= i < |s[k..]| && s[k..][i] == c;
            assert s[k + i] == c;
          }
        }
      }
      " " + rest
    else
      var rest := SqueezeBlanks(s[1..]);
      assert forall c | c in rest :: c in s || c == ' ' by {
        forall c | c in rest ensures c in s || c == ' ' {
          if c in s[1..] {
            var i :| 0 <= i < |s[1..]| && s[1..][i] == c;
            assert s[1 + i] == c;
          }
        }
      }
      [s[0]] + rest
  }

  lemma SimplifiedCons(x: char, r: string)
    requires Simplified(r) && x != '\t' && x != '\r'
    requires r != [] ==> !(x == ' ' && r[0] == ' ') && !(x == '\n' && r[0] == '\n')
    requires r != [] ==> !(x == ' ' && r[0] == '\n') && !(x == '\n' && r[0] == ' ')
    ensures Simplified([x] + r)
  {
    var s := [x] + r;
    forall i | 1 <= i < |s| - 1
      ensures !(s[i] == ' ' && s[i + 1] == ' ') && !(s[i] == '\n' && s[i + 1] == '\n')
      ensures !(s[i] == ' ' && s[i + 1] == '\n') && !(s[i] == '\n' && s[i + 1] == ' ')
    {
      assert s[i] == r[i - 1] && s[i + 1] == r[i];
    }
  }

  /** Squeezing the blanks of collapsed text leaves it simplified. */
  lemma {:induction false} SqueezeBlanksSimplified(s: string)
    requires Collapsed(s)
    ensures Simplified(SqueezeBlanks(s))
  {
    if s != [] {
      if IsBlank(s[0]) {
        var k := BlankRun(s);
        var rest := SqueezeBlanks(s[k..]);
        CollapsedTail(s, k);
        SqueezeBlanksSimplified(s[k..]);
        if k < |s| {
          assert !(IsBlank(s[k - 1]) && s[k] == '\n');
        }
        SimplifiedCons(' ', rest);
      } else {
        var rest := SqueezeBlanks(s[1..]);
        CollapsedTail(s, 1);
        SqueezeBlanksSimplified(s[1..]);
        if s[0] == '\n' && |s| > 1 {
          assert !IsSpace(s[1]);
        }
        SimplifiedCons(s[0], rest);
      }
    }
  }

  // ---------------------------------------------------------------------------
  // The three passes together
  // ---------------------------------------------------------------------------

  lemma {:induction false} CollapseKeepsNoMustache(s: string)
    requires NoMustache(s)
    ensures NoMustache(CollapseNewlines(s))
  {
    if s != [] {
      var k := SpaceRun(s);
      if HasNewline(s[..k]) {
        NoMustacheTail(s, k);
        CollapseKeepsNoMustache(s[k..]);
        NoMustacheCons('\n', CollapseNewlines(s[k..]));
      } else {
        NoMustacheTail(s, 1);
        CollapseKeepsNoMustache(s[1..]);
        var rest := CollapseNewlines(s[1..]);
        NoMustacheCons(s[0], rest);
      }
    }
  }

  lemma {:induction false} SqueezeKeepsNoMustache(s: string)
    requires NoMustache(s)
    ensures NoMustache(SqueezeBlanks(s))
  {
    if s != [] {
      if IsBlank(s[0]) {
        var k := BlankRun(s);
        NoMustacheTail(s, k);
        SqueezeKeepsNoMustache(s[k..]);
        NoMustacheCons(' ', SqueezeBlanks(s[k..]));
      } else {
        NoMustacheTail(s, 1);
        SqueezeKeepsNoMustache(s[1..]);
        var rest := SqueezeBlanks(s[1..]);
        NoMustacheCons(s[0], rest);
      }
    }
  }

  /** `simplify(translations)`: no mustache is left, the whitespace is simplified, and the text
      never grows, since every replacement puts at most one character for a non-empty match. */
  function Simplify(s: string): (r: string)
    ensures Simplified(r) && NoMustache(r)
    ensures |r| <= |s|
  {
    var stripped := StripMustaches(s);
    var collapsed := CollapseNewlines(stripped);
    CollapseNewlinesCollapsed(stripped);
    CollapseKeepsNoMustache(stripped);
    SqueezeBlanksSimplified(collapsed);
    SqueezeKeepsNoMustache(collapsed);
    SqueezeBlanks(collapsed)
  }

  /** Simplified text passes the second pass unchanged. */
  lemma {:induction false} CollapseNewlinesKeeps(s: string)
    requires Simplified(s)
    ensures CollapseNewlines(s) == s
  {
    if s != [] {
      SimplifiedTail(s, 1);
      CollapseNewlinesKeeps(s[1..]);
      if s[0] == '\n' {
        assert |s| > 1 ==> !IsSpace(s[1]);
        assert SpaceRun(s) == 1;
        assert s[..1][0] == '\n';
      } else if s[0] == ' ' {
        assert |s| > 1 ==> !IsSpace(s[1]);
        assert SpaceRun(s) == 1;
      } else {
        assert SpaceRun(s) == 0;
      }
    }
  }

  /** Simplified text passes the third pass unchanged. */
  lemma {:induction false} SqueezeBlanksKeeps(s: string)
    requires Simplified(s)
    ensures SqueezeBlanks(s) == s
  {
    if s != [] {
      SimplifiedTail(s, 1);
      SqueezeBlanksKeeps(s[1..]);
      if s[0] == ' ' {
        assert |s| > 1 ==> !IsBlank(s[1]);
        assert BlankRun(s) == 1;
      }
    }
  }

  lemma SimplifiedTail(s: string, k: nat)
    requires Simplified(s) && k <= |s|
    ensures Simplified(s[k..])
  {
    var t := s[k..];
    forall i | 0 <= i < |t| - 1
      ensures !(t[i] == ' ' && t[i + 1] == ' ') && !(t[i] == '\n' && t[i + 1] == '\n')
      ensures !(t[i] == ' ' && t[i + 1] == '\n') && !(t[i] == '\n' && t[i + 1] == ' ')
    {
      assert t[i] == s[k + i] && t[i + 1] == s[k + i + 1];
    }
  }

  /** `simplify` is idempotent: its output is a fixed point. */
  lemma SimplifyIdempotent(s: string)
    ensures Simplify(Simplify(s)) == Simplify(s)
  {
    var t := Simplify(s);
    StripMustachesKeeps(t);
    CollapseNewlinesKeeps(t);
    SqueezeBlanksKeeps(t);
  }
}
