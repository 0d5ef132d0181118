/**
 * String helpers for the admin search module: endsWith, includes, and split and
 * join with a one-character separator, which it calls; IndexOf, which stands for
 * the string-pattern `replace('admin/', '')`; LastIndexOf, which stands for the
 * greedy `^.*` in front of the capture of `/^.*(admin.*?).tpl$/`; and the line
 * terminators a regex `.` refuses.
 * Strings are `seq<char>`, one element per Unicode scalar value; JavaScript counts
 * UTF-16 code units, so the two differ on characters outside the Basic
 * Multilingual Plane, which JavaScript holds as two units.
 */
module Text {
  import opened Wrappers

  /** The characters a JavaScript regex `.` does not match (without the `s` flag). */
  predicate IsLineTerminator(c: char) {
    c == '\n' || c == '\r' || c == '\U{2028}' || c == '\U{2029}'
  }

  /** Every character of `s` is matched by a regex `.`. */
  predicate LineFree(s: string) {
    forall i | 0 <= i < |s| :: !IsLineTerminator(s[i])
  }

  lemma LineFreeConcat(a: string, b: string)
    ensures LineFree(a + b) <==> LineFree(a) && LineFree(b)
  {
    if LineFree(a + b) {
      forall k | 0 <= k < |a| ensures !IsLineTerminator(a[k]) {
        assert a[k] == (a + b)[k];
      }
      forall k | 0 <= k < |b| ensures !IsLineTerminator(b[k]) {
        assert b[k] == (a + b)[|a| + k];
      }
    }
    if LineFree(a) && LineFree(b) {
      forall k | 0 <= k < |a + b| ensures !IsLineTerminator((a + b)[k]) {
        if k < |a| { assert (a + b)[k] == a[k]; } else { assert (a + b)[k] == b[k - |a|]; }
      }
    }
  }

  predicate OccursAt(s: string, pat: string, i: nat) {
    i + |pat| <= |s| && s[i..i + |pat|] == pat
  }

  predicate EndsWith(s: string, suffix: string) {
    |suffix| <= |s| && s[|s| - |suffix|..] == suffix
  }

  /** `s.indexOf(pat, from)`: the first occurrence of `pat` at or after `from`. */
  function IndexOf(s: string, pat: string, from: nat): (r: Option<nat>)
    decreases |s| - from
    ensures r.Some? ==> from <= r.value && OccursAt(s, pat, r.value)
    ensures r.Some? ==> forall j: nat | from <= j < r.value :: !OccursAt(s, pat, j)
    ensures r.None? ==> forall j: nat | from <= j :: !OccursAt(s, pat, j)
  {
    if from + |pat| > |s| then None
    else if OccursAt(s, pat, from) then Some(from)
    else IndexOf(s, pat, from + 1)
  }

  /** `s.includes(pat)`. */
  predicate Includes(s: string, pat: string) {
    IndexOf(s, pat, 0).Some?
  }

  /** The last occurrence of `pat` that ends at or before `hi`. */
  function LastIndexOf(s: string, pat: string, hi: nat): (r: Option<nat>)
    requires hi <= |s|
    ensures r.Some? ==> r.value + |pat| <= hi && OccursAt(s, pat, r.value)
    ensures r.Some? ==> forall j: nat | r.value < j && j + |pat| <= hi :: !OccursAt(s, pat, j)
    ensures r.None? ==> forall j: nat | j + |pat| <= hi :: !OccursAt(s, pat, j)
  {
    if hi < |pat| then None
    else if OccursAt(s, pat, hi - |pat|) then Some(hi - |pat|)
    else LastIndexOf(s, pat, hi - 1)
  }

  /** Number of occurrences of the character `c` in `s`. */
  function Count(s: string, c: char): nat {
    if s == [] then 0 else (if s[0] == c then 1 else 0) + Count(s[1..], c)
  }

  /** `s.split(c)` for a one-character separator: the pieces between separators, in order. */
  function Split(s: string, c: char): (parts: seq<string>)
    ensures |parts| == Count(s, c) + 1
    ensures forall k | 0 <= k < |parts| :: c !in parts[k]
  {
    if s == [] then [[]]
    else
      var rest := Split(s[1..], c);
      if s[0] == c then [[]] + rest else [[s[0]] + rest[0]] + rest[1..]
  }

  /** `parts.join(sep)`. */
  function Join(parts: seq<string>, sep: string): string {
    if |parts| == 0 then []
    else if |parts| == 1 then parts[0]
    else parts[0] + sep + Join(parts[1..], sep)
  }

  /** `s` with every occurrence of the character `c` replaced by the string `rep`. */
  function ReplaceChar(s: string, c: char, rep: string): (r: string)
    ensures |r| == |s| + (|rep| - 1) * Count(s, c)
  {
    if s == [] then [] else (if s[0] == c then rep else [s[0]]) + ReplaceChar(s[1..], c, rep)
  }

  /** No `c` is left once each is replaced by a string without `c`. */
  lemma {:induction false} ReplaceCharRemoves(s: string, c: char, rep: string)
    ensures c !in rep ==> c !in ReplaceChar(s, c, rep)
  {
    if s != [] {
      ReplaceCharRemoves(s[1..], c, rep);
    }
  }

  /** Splitting on `c` and joining with `sep` replaces each `c` by `sep`. */
  lemma {:induction false} JoinSplit(s: string, c: char, sep: string)
    ensures Join(Split(s, c), sep) == ReplaceChar(s, c, sep)
  {
    if s != [] {
      JoinSplit(s[1..], c, sep);
      var rest := Split(s[1..], c);
      var tail := ReplaceChar(s[1..], c, sep);
      assert Join(rest, sep) == tail;
      if s[0] == c {
        var parts := [[]] + rest;
        assert Split(s, c) == parts;
        assert parts[1..] == rest;
        assert Join(parts, sep) == [] + sep + Join(rest, sep);
        assert ReplaceChar(s, c, sep) == sep + tail;
      } else {
        var parts := [[s[0]] + rest[0]] + rest[1..];
        assert Split(s, c) == parts;
        assert ReplaceChar(s, c, sep) == [s[0]] + tail;
        if |rest| == 1 {
          assert Join(parts, sep) == [s[0]] + rest[0];
          assert Join(rest, sep) == rest[0];
        } else {
          assert parts[1..] == rest[1..];
          assert Join(parts, sep) == ([s[0]] + rest[0]) + sep + Join(rest[1..], sep);
          assert Join(rest, sep) == rest[0] + sep + Join(rest[1..], sep);
          assert ([s[0]] + rest[0]) + sep + Join(rest[1..], sep) == [s[0]] + (rest[0] + sep + Join(rest[1..], sep));
        }
      }
    }
  }

  /** Replacing a character by itself changes nothing. */
  lemma {:induction false} ReplaceCharSelf(s: string, c: char)
    ensures ReplaceChar(s, c, [c]) == s
  {
    if s != [] {
      ReplaceCharSelf(s[1..], c);
      assert s == [s[0]] + s[1..];
    }
  }

  /** `s.split(c).join(c)` gives `s` back. */
  lemma SplitJoinRoundTrip(s: string, c: char)
    ensures Join(Split(s, c), [c]) == s
  {
    JoinSplit(s, c, [c]);
    ReplaceCharSelf(s, c);
  }

  /** `a` is `b` with some elements left out, the others in their original order. */
  ghost predicate SubsequenceOf<T>(a: seq<T>, b: seq<T>)
    decreases |b|
  {
    if a == [] then true
    else if b == [] then false
    else (a[0] == b[0] && SubsequenceOf(a[1..], b[1..])) || SubsequenceOf(a, b[1..])
  }

  lemma {:induction false} SubsequenceSkip<T>(a: seq<T>, b: seq<T>)
    requires b != [] && SubsequenceOf(a, b[1..])
    ensures SubsequenceOf(a, b)
  {
  }
}
