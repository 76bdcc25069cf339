/** The three functions of Go's `strings` package the core relies on:
    TrimSpace, Contains and Split (on a one-character separator). Go strings
    are byte sequences decoded as UTF-8 where it matters; here a string is a
    sequence of characters. */
module Strings {

  /** Go's unicode.IsSpace: the Latin-1 spaces and the other characters with
      the Unicode White_Space property. */
  predicate IsSpace(c: char) {
    c == '\t' || c == '\n' || c == '\U{0B}' || c == '\U{0C}' || c == '\r' || c == ' '
    || c == '\U{85}' || c == '\U{A0}' || c == '\U{1680}'
    || ('\U{2000}' <= c <= '\U{200A}')
    || c == '\U{2028}' || c == '\U{2029}' || c == '\U{202F}' || c == '\U{205F}' || c == '\U{3000}'
  }

  /** Neither the first nor the last character is white space. */
  predicate NoOuterSpace(s: string) {
    s == [] || (!IsSpace(s[0]) && !IsSpace(s[|s| - 1]))
  }

  /** The first index at or after `i` that is not white space (|s| if
      there is none): the forward scan of TrimSpace. */
  function SkipSpace(s: string, i: nat): (j: nat)
    requires i <= |s|
    ensures i <= j <= |s|
    ensures forall k :: i <= k < j ==> IsSpace(s[k])
    ensures j < |s| ==> !IsSpace(s[j])
    decreases |s| - i
  {
    if i < |s| && IsSpace(s[i]) then SkipSpace(s, i + 1) else i
  }

  /** The backward scan of TrimSpace from `j` down to `lo`: the least
      `k` such that s[k..j] is all white space. */
  function SkipSpaceBack(s: string, lo: nat, j: nat): (k: nat)
    requires lo <= j <= |s|
    ensures lo <= k <= j
    ensures forall m :: k <= m < j ==> IsSpace(s[m])
    ensures lo < k ==> !IsSpace(s[k - 1])
    decreases j
  {
    if lo < j && IsSpace(s[j - 1]) then SkipSpaceBack(s, lo, j - 1) else j
  }

  /** Where the slice kept by TrimSpace starts. */
  function TrimStart(s: string): (start: nat)
    ensures start <= |s|
  {
    SkipSpace(s, 0)
  }

  /** Where the slice kept by TrimSpace stops. */
  function TrimStop(s: string): (stop: nat)
    ensures TrimStart(s) <= stop <= |s|
  {
    SkipSpaceBack(s, TrimStart(s), |s|)
  }

  /** strings.TrimSpace: s[start:stop], with everything before `start` and
      from `stop` on white space, and no white space at either end of what
      is kept. */
  function TrimSpace(s: string): (r: string)
    ensures r == s[TrimStart(s)..TrimStop(s)]
    ensures forall k :: 0 <= k < TrimStart(s) ==> IsSpace(s[k])
    ensures forall k :: TrimStop(s) <= k < |s| ==> IsSpace(s[k])
    ensures NoOuterSpace(r)
  {
    s[TrimStart(s)..TrimStop(s)]
  }

  /** Trimming a string that already has no white space at its ends
      changes nothing; in particular TrimSpace is idempotent. */
  lemma TrimSpaceFixed(s: string)
    requires NoOuterSpace(s)
    ensures TrimSpace(s) == s
  {
    assert TrimStart(s) == 0;
    assert TrimStop(s) == |s|;
  }

  lemma TrimSpaceIdempotent(s: string)
    ensures TrimSpace(TrimSpace(s)) == TrimSpace(s)
  {
    TrimSpaceFixed(TrimSpace(s));
  }

  /** Trimming keeps exactly the part between surrounding white space. */
  lemma TrimSpacePadded(before: string, s: string, after: string)
    requires s != [] && NoOuterSpace(s)
    requires forall k :: 0 <= k < |before| ==> IsSpace(before[k])
    requires forall k :: 0 <= k < |after| ==> IsSpace(after[k])
    ensures TrimSpace(before + s + after) == s
  {
    var t := before + s + after;
    assert t[|before|] == s[0] && t[|before| + |s| - 1] == s[|s| - 1];
    assert forall k :: 0 <= k < |before| ==> t[k] == before[k];
    assert TrimStart(t) == |before|;
    assert forall k :: |before| + |s| <= k < |t| ==> t[k] == after[k - |before| - |s|];
    assert TrimStop(t) == |before| + |s|;
    assert t[|before|..|before| + |s|] == s;
  }

  /** `sub` occurs in `s` starting at index `i`. */
  predicate OccursAt(sub: string, s: string, i: int) {
    0 <= i && i + |sub| <= |s| && s[i..i + |sub|] == sub
  }

  ghost predicate IsSubstring(sub: string, s: string) {
    exists i :: OccursAt(sub, s, i)
  }

  /** strings.Contains(s, sub). */
  function Contains(s: string, sub: string): (r: bool)
    ensures r <==> IsSubstring(sub, s)
    decreases |s|
  {
    if |sub| > |s| then
      false
    else if s[..|sub|] == sub then
      assert OccursAt(sub, s, 0);
      true
    else
      var rest := Contains(s[1..], sub);
      assert rest ==> IsSubstring(sub, s) by {
        if rest {
          var i :| OccursAt(sub, s[1..], i);
          assert s[1..][i..i + |sub|] == s[i + 1..i + 1 + |sub|];
          assert OccursAt(sub, s, i + 1);
        }
      }
      assert IsSubstring(sub, s) ==> rest by {
        if IsSubstring(sub, s) {
          var i :| OccursAt(sub, s, i);
          assert i != 0;
          assert s[1..][i - 1..i - 1 + |sub|] == s[i..i + |sub|];
          assert OccursAt(sub, s[1..], i - 1);
        }
      }
      rest
  }

  /** A string free of white space, found in `s`, lies wholly inside the
      part of `s` that TrimSpace keeps, so trimming never changes whether it
      occurs. */
  lemma TrimSpaceKeepsSubstring(sub: string, s: string)
    requires sub != [] && forall k :: 0 <= k < |sub| ==> !IsSpace(sub[k])
    ensures IsSubstring(sub, TrimSpace(s)) <==> IsSubstring(sub, s)
  {
    SliceKeepsSubstring(sub, s, TrimStart(s), TrimStop(s));
  }

  lemma SliceKeepsSubstring(sub: string, s: string, a: nat, b: nat)
    requires sub != [] && forall k :: 0 <= k < |sub| ==> !IsSpace(sub[k])
    requires a <= b <= |s|
    requires forall k :: 0 <= k < a ==> IsSpace(s[k])
    requires forall k :: b <= k < |s| ==> IsSpace(s[k])
    ensures IsSubstring(sub, s[a..b]) <==> IsSubstring(sub, s)
  {
    var r := s[a..b];
    if IsSubstring(sub, r) {
      var i :| OccursAt(sub, r, i);
      var inR, inS := r[i..i + |sub|], s[a + i..a + i + |sub|];
      assert forall k :: 0 <= k < |sub| ==> inR[k] == inS[k];
      assert inS == inR;
      assert OccursAt(sub, s, a + i);
    }
    if IsSubstring(sub, s) {
      var i :| OccursAt(sub, s, i);
      assert s[i] == sub[0] && s[i + |sub| - 1] == sub[|sub| - 1];
      assert a <= i && i + |sub| <= b;
      var inR, inS := r[i - a..i - a + |sub|], s[i..i + |sub|];
      assert forall k :: 0 <= k < |sub| ==> inR[k] == inS[k];
      assert inR == inS;
      assert OccursAt(sub, r, i - a);
    }
  }

  /** Rejoins pieces with the separator between them (strings.Join). */
  function Join(parts: seq<string>, sep: char): (r: string)
    requires |parts| >= 1
  {
    if |parts| == 1 then parts[0] else parts[0] + [sep] + Join(parts[1..], sep)
  }

  /** strings.Split(s, sep) for a one-character separator: the pieces between
      the separators, always at least one, none holding the separator, and
      joining them back gives `s`. */
  function Split(s: string, sep: char): (parts: seq<string>)
    ensures |parts| >= 1
    ensures forall k :: 0 <= k < |parts| ==> sep !in parts[k]
    ensures Join(parts, sep) == s
    decreases |s|
  {
    if s == [] then
      [[]]
    else
      var rest := Split(s[1..], sep);
      if s[0] == sep then
        var parts := [[]] + rest;
        assert parts[1..] == rest;
        parts
      else
        var parts := [[s[0]] + rest[0]] + rest[1..];
        assert |rest| > 1 ==> parts[1..] == rest[1..];
        parts
  }

  /** The other direction of the round trip: pieces free of the separator
      come back unchanged from splitting their join. */
  lemma {:induction false} SplitJoin(parts: seq<string>, sep: char)
    requires |parts| >= 1
    requires forall k :: 0 <= k < |parts| ==> sep !in parts[k]
    ensures Split(Join(parts, sep), sep) == parts
    decreases |parts|, |parts[0]|
  {
    if |parts| == 1 {
      SplitNoSeparator(parts[0], sep);
    } else if parts[0] == [] {
      var tail := Join(parts[1..], sep);
      assert Join(parts, sep) == [sep] + tail;
      SplitJoin(parts[1..], sep);
      SplitAtSeparator(tail, sep);
      assert [[]] + parts[1..] == parts;
    } else {
      var c := parts[0][0];
      var shorter := [parts[0][1..]] + parts[1..];
      assert shorter[1..] == parts[1..];
      assert Join(parts, sep) == [c] + Join(shorter, sep);
      SplitJoin(shorter, sep);
      SplitAtOther(c, Join(shorter, sep), sep);
      assert [c] + parts[0][1..] == parts[0];
      assert [[c] + parts[0][1..]] + parts[1..] == parts;
    }
  }

  /** Splitting a string that starts with the separator gives an empty
      first piece, then the pieces of the rest. */
  lemma SplitAtSeparator(t: string, sep: char)
    ensures Split([sep] + t, sep) == [[]] + Split(t, sep)
  {
    assert ([sep] + t)[1..] == t;
  }

  /** Splitting a string that starts with another character puts that
      character in front of the first piece of the rest. */
  lemma SplitAtOther(c: char, t: string, sep: char)
    requires c != sep
    ensures Split([c] + t, sep) == [[c] + Split(t, sep)[0]] + Split(t, sep)[1..]
  {
    assert ([c] + t)[1..] == t;
  }

  /** A string without the separator splits into itself alone. */
  lemma {:induction false} SplitNoSeparator(s: string, sep: char)
    requires sep !in s
    ensures Split(s, sep) == [s]
    decreases |s|
  {
    if s != [] {
      assert sep !in s[1..];
      SplitNoSeparator(s[1..], sep);
    }
  }

  /** The last piece of a join is a suffix free of the separator, and it is
      either the whole string or preceded by the separator. */
  lemma {:induction false} JoinLast(parts: seq<string>, sep: char)
    requires |parts| >= 1
    requires sep !in parts[|parts| - 1]
    ensures var s, x := Join(parts, sep), parts[|parts| - 1];
      |x| <= |s| && s[|s| - |x|..] == x && (|x| < |s| ==> s[|s| - |x| - 1] == sep)
    decreases |parts|
  {
    if |parts| > 1 {
      JoinLast(parts[1..], sep);
    }
  }
}
