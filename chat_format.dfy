/** The templating of the warning text (`formatChatMessage`): every `&` becomes
    the section sign that Minecraft clients read as a colour escape, then every
    `%player%` becomes the player's name. Both patterns are plain text without
    regular-expression metacharacters, so `String.replaceAll` acts here as a
    literal, left-to-right, non-overlapping replacement. */
module ChatFormat {

  /** The section sign U+00A7 (`(char) 167`). */
  const SectionSign: char := 167 as char

  /** The colour-escape marker written in configuration files. */
  const Ampersand: char := '&'

  /** The placeholder for the player's name. */
  const PlayerToken: string := "%player%"

  predicate StartsWith(s: string, pat: string) {
    |pat| <= |s| && s[..|pat|] == pat
  }

  /** `pat` occurs somewhere in `s`. */
  predicate Contains(s: string, pat: string) {
    exists k :: 0 <= k <= |s| - |pat| && StartsWith(s[k..], pat)
  }

  /** Scanning from the left, replace each occurrence of `pat` that does not
      overlap an earlier replaced one by `rep`. */
  function ReplaceAll(s: string, pat: string, rep: string): string
    requires pat != []
    decreases |s|
  {
    if s == [] then []
    else if StartsWith(s, pat) then rep + ReplaceAll(s[|pat|..], pat, rep)
    else [s[0]] + ReplaceAll(s[1..], pat, rep)
  }

  /** The pieces of `s` between the occurrences of `pat` that `ReplaceAll` replaces. */
  function Split(s: string, pat: string): (parts: seq<string>)
    requires pat != []
    ensures |parts| >= 1
    decreases |s|
  {
    if s == [] then [[]]
    else if StartsWith(s, pat) then [[]] + Split(s[|pat|..], pat)
    else
      var t := Split(s[1..], pat);
      [[s[0]] + t[0]] + t[1..]
  }

  /** The pieces glued together with `sep` between neighbours. */
  function Join(parts: seq<string>, sep: string): string
    decreases |parts|
  {
    if |parts| == 0 then []
    else if |parts| == 1 then parts[0]
    else parts[0] + sep + Join(parts[1..], sep)
  }

  /** `formatChatMessage(str, p)`: the colour-converted template, with its
      pieces between name placeholders glued back together by the name. */
  function FormatChatMessage(str: string, name: string): (r: string)
    ensures var coloured := ReplaceAll(str, [Ampersand], [SectionSign]);
      r == Join(Split(coloured, PlayerToken), name)
  {
    var coloured := ReplaceAll(str, [Ampersand], [SectionSign]);
    ReplaceAllJoinsPieces(coloured, PlayerToken, name);
    ReplaceAll(coloured, PlayerToken, name)
  }

  /** The colour-marker pass changes every `&` into the section sign and
      nothing else: same length, every other character in place. */
  lemma {:induction false} ColourMarkersReplaced(s: string)
    ensures |ReplaceAll(s, [Ampersand], [SectionSign])| == |s|
    ensures forall i :: 0 <= i < |s| ==>
      ReplaceAll(s, [Ampersand], [SectionSign])[i] == if s[i] == Ampersand then SectionSign else s[i]
    decreases |s|
  {
    if s != [] {
      ColourMarkersReplaced(s[1..]);
      var r := ReplaceAll(s, [Ampersand], [SectionSign]);
      var r' := ReplaceAll(s[1..], [Ampersand], [SectionSign]);
      assert r == [if s[0] == Ampersand then SectionSign else s[0]] + r';
    }
  }

  /** Gluing the pieces back together with the pattern gives the original text. */
  lemma {:induction false} JoinSplit(s: string, pat: string)
    requires pat != []
    ensures Join(Split(s, pat), pat) == s
    decreases |s|
  {
    if s == [] {
    } else if StartsWith(s, pat) {
      JoinSplit(s[|pat|..], pat);
      assert s == pat + s[|pat|..];
    } else {
      var t := Split(s[1..], pat);
      JoinSplit(s[1..], pat);
      JoinConsFirst(s[0], t, pat);
      assert s == [s[0]] + s[1..];
    }
  }

  /** Replacing equals gluing the same pieces with the replacement instead. */
  lemma {:induction false} ReplaceAllJoinsPieces(s: string, pat: string, rep: string)
    requires pat != []
    ensures ReplaceAll(s, pat, rep) == Join(Split(s, pat), rep)
    decreases |s|
  {
    if s == [] {
    } else if StartsWith(s, pat) {
      ReplaceAllJoinsPieces(s[|pat|..], pat, rep);
    } else {
      ReplaceAllJoinsPieces(s[1..], pat, rep);
      JoinConsFirst(s[0], Split(s[1..], pat), rep);
    }
  }

  /** Prepending a character to the first piece prepends it to the whole. */
  lemma JoinConsFirst(c: char, t: seq<string>, sep: string)
    requires |t| >= 1
    ensures Join([[c] + t[0]] + t[1..], sep) == [c] + Join(t, sep)
  {
    var u := [[c] + t[0]] + t[1..];
    if |t| >= 2 {
      assert u[1..] == t[1..];
    }
  }

  /** The first piece is a prefix of the text. */
  lemma {:induction false} FirstPieceIsPrefix(s: string, pat: string)
    requires pat != []
    ensures |Split(s, pat)[0]| <= |s| && s[..|Split(s, pat)[0]|] == Split(s, pat)[0]
    decreases |s|
  {
    if s != [] && !StartsWith(s, pat) {
      FirstPieceIsPrefix(s[1..], pat);
    }
  }

  /** No occurrence of the pattern starts inside the first piece. */
  lemma {:induction false} NoOccurrenceBeforeFirstCut(s: string, pat: string)
    requires pat != []
    ensures forall k :: 0 <= k < |Split(s, pat)[0]| <= |s| ==> !StartsWith(s[k..], pat)
    decreases |s|
  {
    if s != [] && !StartsWith(s, pat) {
      var t := Split(s[1..], pat);
      NoOccurrenceBeforeFirstCut(s[1..], pat);
      FirstPieceIsPrefix(s[1..], pat);
      assert Split(s, pat)[0] == [s[0]] + t[0];
      forall k | 1 <= k < |t[0]| + 1
        ensures !StartsWith(s[k..], pat)
      {
        assert s[k..] == s[1..][k - 1..];
      }
    }
  }

  /** Without a cut, the first piece is the whole text. */
  lemma {:induction false} UncutTextIsOnePiece(s: string, pat: string)
    requires pat != []
    requires |Split(s, pat)| == 1
    ensures Split(s, pat)[0] == s
    decreases |s|
  {
    if s != [] {
      assert !StartsWith(s, pat);
      UncutTextIsOnePiece(s[1..], pat);
      assert s == [s[0]] + s[1..];
    }
  }

  /** After the first piece, when there is a cut, comes the pattern and then
      the split of what follows it. */
  lemma {:induction false} WhatFollowsFirstCut(s: string, pat: string)
    requires pat != []
    requires |Split(s, pat)| > 1
    ensures var parts := Split(s, pat); var n := |parts[0]|;
      && n + |pat| <= |s|
      && s[n..n + |pat|] == pat
      && parts[1..] == Split(s[n + |pat|..], pat)
    decreases |s|
  {
    var parts := Split(s, pat);
    if StartsWith(s, pat) {
      assert parts[0] == [];
      assert parts[1..] == Split(s[|pat|..], pat);
    } else {
      var rest := s[1..];
      var t := Split(rest, pat);
      assert parts == [[s[0]] + t[0]] + t[1..];
      assert |t| > 1;
      WhatFollowsFirstCut(rest, pat);
      var n' := |t[0]|;
      assert rest[n'..n' + |pat|] == pat;
      assert s[n' + 1..n' + 1 + |pat|] == rest[n'..n' + |pat|];
      assert s[n' + 1 + |pat|..] == rest[n' + |pat|..];
      assert parts[1..] == t[1..];
    }
  }

  /** The first cut falls at the leftmost occurrence: no occurrence starts
      inside the first piece, and when there is a cut the pattern follows the
      first piece and the remaining pieces are the split of what comes after it. */
  lemma {:induction false} FirstCutIsLeftmost(s: string, pat: string)
    requires pat != []
    ensures var parts := Split(s, pat); var n := |parts[0]|;
      && n <= |s| && s[..n] == parts[0]
      && (forall k :: 0 <= k < n ==> !StartsWith(s[k..], pat))
      && (|parts| == 1 ==> n == |s|)
      && (|parts| > 1 ==> StartsWith(s[n..], pat) && parts[1..] == Split(s[n + |pat|..], pat))
  {
    var parts := Split(s, pat);
    var n := |parts[0]|;
    FirstPieceIsPrefix(s, pat);
    NoOccurrenceBeforeFirstCut(s, pat);
    if |parts| == 1 {
      UncutTextIsOnePiece(s, pat);
    } else {
      WhatFollowsFirstCut(s, pat);
      assert s[n..][..|pat|] == s[n..n + |pat|];
    }
  }

  /** No piece contains the whole pattern. An occurrence that overlaps one
      already cut is not cut itself: only its tail remains, in the next piece. */
  lemma {:induction false} PiecesAvoidPattern(s: string, pat: string)
    requires pat != []
    ensures forall i :: 0 <= i < |Split(s, pat)| ==> !Contains(Split(s, pat)[i], pat)
    decreases |s|
  {
    var parts := Split(s, pat);
    if s == [] {
    } else if StartsWith(s, pat) {
      PiecesAvoidPattern(s[|pat|..], pat);
      assert parts[1..] == Split(s[|pat|..], pat);
    } else {
      var t := Split(s[1..], pat);
      PiecesAvoidPattern(s[1..], pat);
      FirstPieceIsPrefix(s[1..], pat);
      var head := [s[0]] + t[0];
      assert parts[0] == head && parts[1..] == t[1..];
      forall k | 0 <= k <= |head| - |pat|
        ensures !StartsWith(head[k..], pat)
      {
        if k == 0 {
          assert head[..|pat|] == s[..|pat|];
        } else {
          assert head[k..] == t[0][k - 1..];
        }
      }
    }
  }

  /** A text without the pattern is left as it is. */
  lemma {:induction false} ReplaceAllWithoutPattern(s: string, pat: string, rep: string)
    requires pat != []
    requires !Contains(s, pat)
    ensures ReplaceAll(s, pat, rep) == s
    decreases |s|
  {
    if s != [] {
      assert s[0..] == s;
      assert !StartsWith(s, pat);
      forall k | 0 <= k <= |s[1..]| - |pat|
        ensures !StartsWith(s[1..][k..], pat)
      {
        assert s[1..][k..] == s[k + 1..];
      }
      ReplaceAllWithoutPattern(s[1..], pat, rep);
    }
  }

  /** What `formatChatMessage` produces: the template, with colour markers
      turned into section signs, cut at its name placeholders into pieces that
      hold no placeholder, and glued back with the player's name. Each cut is
      at the leftmost placeholder not overlapping an earlier cut, and gluing the
      same pieces with the placeholder gives the colour-converted template
      back, so no other character changes. */
  lemma FormatChatMessageMeaning(str: string, name: string)
    ensures var coloured := ReplaceAll(str, [Ampersand], [SectionSign]);
      var parts := Split(coloured, PlayerToken);
      && FormatChatMessage(str, name) == Join(parts, name)
      && Join(parts, PlayerToken) == coloured
      && (forall i :: 0 <= i < |parts| ==> !Contains(parts[i], PlayerToken))
      && (forall k :: 0 <= k < |parts[0]| ==> !StartsWith(coloured[k..], PlayerToken))
      && (|parts| > 1 ==>
            && StartsWith(coloured[|parts[0]|..], PlayerToken)
            && parts[1..] == Split(coloured[|parts[0]| + |PlayerToken|..], PlayerToken))
  {
    var coloured := ReplaceAll(str, [Ampersand], [SectionSign]);
    ReplaceAllJoinsPieces(coloured, PlayerToken, name);
    JoinSplit(coloured, PlayerToken);
    PiecesAvoidPattern(coloured, PlayerToken);
    FirstCutIsLeftmost(coloured, PlayerToken);
  }

  /** A template with neither a colour marker nor a name placeholder is sent as written. */
  lemma PlainTemplateUnchanged(str: string, name: string)
    requires Ampersand !in str
    requires !Contains(str, PlayerToken)
    ensures FormatChatMessage(str, name) == str
  {
    forall k | 0 <= k <= |str| - 1
      ensures !StartsWith(str[k..], [Ampersand])
    {
      assert str[k..][..1] == [str[k]];
    }
    ReplaceAllWithoutPattern(str, [Ampersand], [SectionSign]);
    ReplaceAllWithoutPattern(str, PlayerToken, name);
  }

  /** Overlapping placeholders are replaced from the left: in `%player%player%`
      only the first `%player%` is replaced, and the tail `player%` is kept. */
  lemma OverlappingPlaceholder(name: string)
    ensures FormatChatMessage(PlayerToken + "player%", name) == name + "player%"
  {
    var tail := "player%";
    var s := PlayerToken + tail;
    ColourMarkersReplaced(s);
    assert ReplaceAll(s, [Ampersand], [SectionSign]) == s;
    assert StartsWith(s, PlayerToken);
    assert s[|PlayerToken|..] == tail;
    ReplaceAllWithoutPattern(tail, PlayerToken, name);
    assert ReplaceAll(s, PlayerToken, name) == name + ReplaceAll(tail, PlayerToken, name);
  }
}
