/** JavaScript string operations the scaffolding tools rely on: prefix and
    suffix tests, `String.prototype.replaceAll` with a literal pattern and
    the `$` patterns of its replacement, `split`/`join`, and the
    first-character case changes. Strings are sequences of characters; case
    mapping is ASCII only. */
module Text {

  predicate StartsWith(s: string, p: string) {
    |p| <= |s| && s[..|p|] == p
  }

  predicate EndsWith(s: string, p: string) {
    |p| <= |s| && s[|s| - |p|..] == p
  }

  /** `p` occurs in `s` starting at index `i`. */
  predicate OccursAt(s: string, p: string, i: int) {
    0 <= i && i + |p| <= |s| && s[i..i + |p|] == p
  }

  /** `s.includes(p)` */
  predicate Contains(s: string, p: string) {
    exists i :: 0 <= i <= |s| - |p| && OccursAt(s, p, i)
  }

  /** The characters a regular expression's `.` does not match. */
  predicate IsLineTerminator(c: char) {
    c == '\n' || c == '\r' || c == ' ' || c == ' '
  }

  predicate NoLineTerminator(s: string) {
    forall i :: 0 <= i < |s| ==> !IsLineTerminator(s[i])
  }

  /** The characters that may follow `$` in a replacement pattern when
      there are no capture groups. */
  predicate IsDollarPattern(c: char) {
    c == '$' || c == '&' || c == '`' || c == '\''
  }

  /** What `$c` stands for at a match of `p` between `before` and
      `after`: a dollar sign, the match, the text before it, or the text
      after it. */
  function DollarPattern(c: char, before: string, p: string, after: string): string
    requires IsDollarPattern(c)
  {
    match c
    case '$' => "$"
    case '&' => p
    case '`' => before
    case _ => after
  }

  /** The replacement text for one match of `p` between `before` and
      `after`, as `replaceAll` computes it from `r` (GetSubstitution of
      ECMAScript with no capture groups): `$$`, `$&`, `` $` `` and `$'` are
      expanded; any other `$`, including `$1` and `$<`, stays as written. */
  function Substitute(r: string, before: string, p: string, after: string): string
    decreases |r|
  {
    if r == [] then []
    else if r[0] == '$' && |r| >= 2 && IsDollarPattern(r[1]) then
      DollarPattern(r[1], before, p, after) + Substitute(r[2..], before, p, after)
    else [r[0]] + Substitute(r[1..], before, p, after)
  }

  /** `s.replaceAll(p, r)` for a non-empty literal pattern: occurrences are
      found left to right and do not overlap, and each becomes the
      substitution of `r` for it. */
  function ReplaceAll(s: string, p: string, r: string): string
    requires p != []
  {
    ReplaceWith([], s, p, (before: string, after: string) => Substitute(r, before, p, after))
  }

  /** The scan of `replaceAll` over the rest `s` of a text whose first part
      `pre` has been scanned already: each occurrence of `p` becomes
      `sub(before, after)`, where `before` and `after` are the text before
      and after it. */
  function ReplaceWith(pre: string, s: string, p: string, sub: (string, string) -> string): string
    requires p != []
    decreases |s|
  {
    if |s| < |p| then s
    else if s[..|p|] == p then sub(pre, s[|p|..]) + ReplaceWith(pre + p, s[|p|..], p, sub)
    else [s[0]] + ReplaceWith(pre + [s[0]], s[1..], p, sub)
  }

  /** A replacement without a dollar sign is inserted as written. */
  lemma {:induction false} SubstitutePlain(r: string, before: string, p: string, after: string)
    requires '$' !in r
    ensures Substitute(r, before, p, after) == r
    decreases |r|
  {
    if r != [] {
      assert r[0] != '$';
      SubstitutePlain(r[1..], before, p, after);
      assert r == [r[0]] + r[1..];
    }
  }

  /** `s.split(p)` for a non-empty literal pattern. */
  function Split(s: string, p: string): (parts: seq<string>)
    requires p != []
    ensures |parts| >= 1
    decreases |s|
  {
    if |s| < |p| then [s]
    else if s[..|p|] == p then [[]] + Split(s[|p|..], p)
    else
      var rest := Split(s[1..], p);
      [[s[0]] + rest[0]] + rest[1..]
  }

  /** `parts.join(sep)` */
  function Join(parts: seq<string>, sep: string): string {
    if parts == [] then []
    else if |parts| == 1 then parts[0]
    else parts[0] + sep + Join(parts[1..], sep)
  }

  lemma JoinPrependChar(c: char, parts: seq<string>, sep: string)
    requires |parts| >= 1
    ensures Join([[c] + parts[0]] + parts[1..], sep) == [c] + Join(parts, sep)
  {
    var q := [[c] + parts[0]] + parts[1..];
    if |parts| > 1 {
      assert q[1..] == parts[1..];
    }
  }

  /** With a replacement free of `$`, replaceAll is split followed by
      join: the text between occurrences is kept and every occurrence
      becomes the replacement. */
  lemma ReplaceAllIsSplitJoin(s: string, p: string, r: string)
    requires p != [] && '$' !in r
    ensures ReplaceAll(s, p, r) == Join(Split(s, p), r)
  {
    var sub := (before: string, after: string) => Substitute(r, before, p, after);
    forall before, after ensures sub(before, after) == r {
      SubstitutePlain(r, before, p, after);
    }
    ReplaceWithIsSplitJoin([], s, p, sub, r);
  }

  lemma {:induction false} ReplaceWithIsSplitJoin(pre: string, s: string, p: string,
                                                  sub: (string, string) -> string, r: string)
    requires p != []
    requires forall before, after :: sub(before, after) == r
    ensures ReplaceWith(pre, s, p, sub) == Join(Split(s, p), r)
    decreases |s|
  {
    if |s| < |p| {
    } else if s[..|p|] == p {
      ReplaceWithIsSplitJoin(pre + p, s[|p|..], p, sub, r);
      JoinAfterEmpty(Split(s[|p|..], p), r);
    } else {
      ReplaceWithIsSplitJoin(pre + [s[0]], s[1..], p, sub, r);
      JoinPrependChar(s[0], Split(s[1..], p), r);
    }
  }

  /** Joining the pieces of a split with the pattern gives the text back. */
  lemma {:induction false} SplitJoinRoundTrip(s: string, p: string)
    requires p != []
    ensures Join(Split(s, p), p) == s
    decreases |s|
  {
    if |s| < |p| {
    } else if s[..|p|] == p {
      var rest := Split(s[|p|..], p);
      SplitJoinRoundTrip(s[|p|..], p);
      JoinAfterEmpty(rest, p);
      assert s == p + s[|p|..];
    } else {
      SplitJoinRoundTrip(s[1..], p);
      JoinPrependChar(s[0], Split(s[1..], p), p);
      assert s == [s[0]] + s[1..];
    }
  }

  /** An empty first piece contributes only the separator. */
  lemma JoinAfterEmpty(rest: seq<string>, sep: string)
    requires |rest| >= 1
    ensures Join([[]] + rest, sep) == sep + Join(rest, sep)
  {
    assert ([[]] + rest)[1..] == rest;
  }

  /** The first piece of a split is a prefix of the text. */
  lemma {:induction false} SplitHeadIsPrefix(s: string, p: string)
    requires p != []
    ensures |Split(s, p)[0]| <= |s| && s[..|Split(s, p)[0]|] == Split(s, p)[0]
    decreases |s|
  {
    if |s| < |p| {
    } else if s[..|p|] == p {
    } else {
      var t := s[1..];
      SplitHeadIsPrefix(t, p);
      var h := Split(t, p)[0];
      assert Split(s, p)[0] == [s[0]] + h;
      assert t[..|h|] == h;
      forall i | 0 <= i <= |h| ensures s[i] == ([s[0]] + h)[i] {
        if i > 0 {
          assert s[i] == t[i - 1] == h[i - 1];
        }
      }
      assert s[..|h| + 1] == [s[0]] + h;
    }
  }

  /** No piece of a split contains the pattern: every occurrence was cut. */
  lemma {:induction false} SplitPiecesAvoidPattern(s: string, p: string)
    requires p != []
    ensures forall i :: 0 <= i < |Split(s, p)| ==> !Contains(Split(s, p)[i], p)
    decreases |s|
  {
    var parts := Split(s, p);
    if |s| < |p| {
      assert parts == [s];
    } else if s[..|p|] == p {
      SplitPiecesAvoidPattern(s[|p|..], p);
      var rest := Split(s[|p|..], p);
      assert parts == [[]] + rest;
      forall i | 0 <= i < |parts| ensures !Contains(parts[i], p) {
        if i > 0 {
          assert parts[i] == rest[i - 1];
        }
      }
    } else {
      SplitPiecesAvoidPattern(s[1..], p);
      SplitHeadIsPrefix(s[1..], p);
      var rest := Split(s[1..], p);
      assert parts == [[s[0]] + rest[0]] + rest[1..];
      HeadAvoidsPattern(s, p, rest[0]);
      forall i | 0 <= i < |parts| ensures !Contains(parts[i], p) {
        if i > 0 {
          assert parts[i] == rest[i];
        }
      }
    }
  }

  /** A first piece that extends, by the text's first character, a prefix
      of the rest free of the pattern is free of it too, when no occurrence
      starts the text. */
  lemma HeadAvoidsPattern(s: string, p: string, h: string)
    requires p != [] && |p| <= |s| && s[..|p|] != p
    requires |h| <= |s| - 1 && s[1..][..|h|] == h && !Contains(h, p)
    ensures !Contains([s[0]] + h, p)
  {
    var head := [s[0]] + h;
    assert s[..|head|] == head;
    forall j | 0 <= j <= |head| - |p| ensures !OccursAt(head, p, j) {
      if j == 0 {
        assert head[..|p|] == s[..|p|];
      } else {
        assert head[j..j + |p|] == h[j - 1..j - 1 + |p|];
        assert !OccursAt(h, p, j - 1);
      }
    }
  }

  /** Splitting on a one-character separator: the first piece is the text
      before the first separator. */
  lemma {:induction false} SplitFirstPiece(a: string, c: char, b: string)
    requires c !in a
    ensures Split(a + [c] + b, [c])[0] == a
    decreases |a|
  {
    var s := a + [c] + b;
    if a == [] {
      assert s[..1] == [c];
    } else {
      assert s[..1] == [a[0]];
      assert s[1..] == a[1..] + [c] + b;
      SplitFirstPiece(a[1..], c, b);
      assert [a[0]] + a[1..] == a;
    }
  }

  /** Text holding the separator splits into at least two pieces. */
  lemma {:induction false} SplitAtPresentChar(s: string, c: char)
    requires c in s
    ensures |Split(s, [c])| >= 2
    decreases |s|
  {
    if s[..1] != [c] {
      assert s[0] != c;
      assert c in s[1..];
      SplitAtPresentChar(s[1..], c);
    }
  }

  /** Splitting text at its first separator. */
  lemma {:induction false} SplitAtFirst(a: string, c: char, b: string)
    requires c !in a
    ensures Split(a + [c] + b, [c]) == [a] + Split(b, [c])
    decreases |a|
  {
    var s := a + [c] + b;
    if a == [] {
      assert s[..1] == [c];
      assert s[1..] == b;
    } else {
      assert s[..1] == [a[0]];
      assert s[1..] == a[1..] + [c] + b;
      SplitAtFirst(a[1..], c, b);
      assert [a[0]] + a[1..] == a;
    }
  }

  /** Text holding the separator exactly once splits into two parts. */
  lemma SplitOnce(a: string, c: char, b: string)
    requires c !in a && c !in b
    ensures Split(a + [c] + b, [c]) == [a, b]
  {
    SplitAtFirst(a, c, b);
    SplitWithoutSeparator(b, c);
  }

  /** Text without the separator splits into a single piece. */
  lemma {:induction false} SplitWithoutSeparator(a: string, c: char)
    requires c !in a
    ensures Split(a, [c]) == [a]
    decreases |a|
  {
    if a != [] {
      assert a[..1] == [a[0]];
      SplitWithoutSeparator(a[1..], c);
      assert [a[0]] + a[1..] == a;
    }
  }

  /** Replacements whose substitution is always the match itself: the
      pattern when it has no `$`, and `$&`. */
  predicate EchoesMatch(r: string, p: string) {
    (r == p && '$' !in p) || r == "$&"
  }

  lemma SubstituteEcho(r: string, before: string, p: string, after: string)
    requires EchoesMatch(r, p)
    ensures Substitute(r, before, p, after) == p
  {
    if r == "$&" {
      assert r[2..] == [];
    } else {
      SubstitutePlain(r, before, p, after);
    }
  }

  /** The text is given back when every substitution is the match itself. */
  lemma {:induction false} ReplaceWithIdentity(pre: string, s: string, p: string, sub: (string, string) -> string)
    requires p != []
    requires forall before, after :: sub(before, after) == p
    ensures ReplaceWith(pre, s, p, sub) == s
    decreases |s|
  {
    if |s| < |p| {
    } else if s[..|p|] == p {
      ReplaceWithIdentity(pre + p, s[|p|..], p, sub);
      assert s == p + s[|p|..];
    } else {
      ReplaceWithIdentity(pre + [s[0]], s[1..], p, sub);
      assert s == [s[0]] + s[1..];
    }
  }

  /** Replacements whose substitution is always the match itself give the
      text back. */
  lemma ReplaceAllEchoing(s: string, p: string, r: string)
    requires p != [] && EchoesMatch(r, p)
    ensures ReplaceAll(s, p, r) == s
  {
    var sub := (before: string, after: string) => Substitute(r, before, p, after);
    forall before, after ensures sub(before, after) == p {
      SubstituteEcho(r, before, p, after);
    }
    ReplaceWithIdentity([], s, p, sub);
  }

  /** Replacing a pattern free of `$` by itself leaves the text unchanged. */
  lemma ReplaceAllWithItself(s: string, p: string)
    requires p != [] && '$' !in p
    ensures ReplaceAll(s, p, p) == s
  {
    ReplaceAllEchoing(s, p, p);
  }

  /** A replacement of `$&` puts every match back, whatever the pattern:
      the text is unchanged. */
  lemma ReplaceAllWithMatch(s: string, p: string)
    requires p != []
    ensures ReplaceAll(s, p, "$&") == s
  {
    ReplaceAllEchoing(s, p, "$&");
  }

  /** Replacing one character by one character is a character-wise map;
      a lone `$` has nothing to expand. */
  lemma ReplaceAllChar(s: string, a: char, b: char)
    ensures |ReplaceAll(s, [a], [b])| == |s|
    ensures forall i :: 0 <= i < |s| ==> ReplaceAll(s, [a], [b])[i] == (if s[i] == a then b else s[i])
  {
    var sub := (before: string, after: string) => Substitute([b], before, [a], after);
    forall before, after ensures sub(before, after) == [b] {
      assert Substitute([b], before, [a], after) == [b] + Substitute([], before, [a], after);
    }
    ReplaceWithChar([], s, a, b, sub);
  }

  lemma {:induction false} ReplaceWithChar(pre: string, s: string, a: char, b: char, sub: (string, string) -> string)
    requires forall before, after :: sub(before, after) == [b]
    ensures |ReplaceWith(pre, s, [a], sub)| == |s|
    ensures forall i :: 0 <= i < |s| ==> ReplaceWith(pre, s, [a], sub)[i] == (if s[i] == a then b else s[i])
    decreases |s|
  {
    if s != [] {
      ReplaceWithChar(pre + [s[0]], s[1..], a, b, sub);
      var tail := ReplaceWith(pre + [s[0]], s[1..], [a], sub);
      if s[..1] == [a] {
        assert ReplaceWith(pre, s, [a], sub) == [b] + tail;
      } else {
        assert s[0] != a;
        assert ReplaceWith(pre, s, [a], sub) == [s[0]] + tail;
      }
    }
  }

  /** Text without the pattern is left as it is, whatever the replacement. */
  lemma ReplaceAllAbsent(s: string, p: string, r: string)
    requires p != [] && !Contains(s, p)
    ensures ReplaceAll(s, p, r) == s
  {
    ReplaceWithAbsent([], s, p, (before: string, after: string) => Substitute(r, before, p, after));
  }

  lemma {:induction false} ReplaceWithAbsent(pre: string, s: string, p: string, sub: (string, string) -> string)
    requires p != [] && !Contains(s, p)
    ensures ReplaceWith(pre, s, p, sub) == s
    decreases |s|
  {
    if |s| >= |p| {
      assert !OccursAt(s, p, 0);
      var u := s[1..];
      assert !Contains(u, p) by {
        forall j | 0 <= j <= |u| - |p| ensures !OccursAt(u, p, j) {
          assert u[j..j + |p|] == s[j + 1..j + 1 + |p|];
          assert !OccursAt(s, p, j + 1);
        }
      }
      ReplaceWithAbsent(pre + [s[0]], u, p, sub);
      assert s == [s[0]] + u;
    }
  }

  /** Joining pieces that avoid the pattern cannot create an occurrence when
      the separator is non-empty, its first character is not in the pattern,
      and the pattern's first character is not in the separator. */
  lemma {:induction false} JoinAvoidsPattern(parts: seq<string>, sep: string, p: string)
    requires p != [] && sep != []
    requires sep[0] !in p && p[0] !in sep
    requires forall i :: 0 <= i < |parts| ==> !Contains(parts[i], p)
    ensures !Contains(Join(parts, sep), p)
    decreases |parts|
  {
    if |parts| > 1 {
      var a := parts[0];
      var rest := Join(parts[1..], sep);
      JoinAvoidsPattern(parts[1..], sep, p);
      var s := a + sep + rest;
      assert Join(parts, sep) == s;
      assert !Contains(a, p);
      forall i | 0 <= i <= |s| - |p| ensures !OccursAt(s, p, i) {
        NotAcrossSeparator(a, sep, rest, p, i);
      }
    }
  }

  /** No occurrence of the pattern starts at `i` in `a + sep + rest` when
      neither piece holds one and the separator cannot begin or end one. */
  lemma NotAcrossSeparator(a: string, sep: string, rest: string, p: string, i: nat)
    requires p != [] && sep != []
    requires sep[0] !in p && p[0] !in sep
    requires !Contains(a, p) && !Contains(rest, p)
    requires i + |p| <= |a| + |sep| + |rest|
    ensures !OccursAt(a + sep + rest, p, i)
  {
    var s := a + sep + rest;
    var w := s[i..i + |p|];
    if i + |p| <= |a| {
      assert w == a[i..i + |p|];
      assert !OccursAt(a, p, i);
    } else if i <= |a| {
      assert s[|a|] == sep[0];
      assert w[|a| - i] == s[|a|];
      assert p[|a| - i] in p;
    } else if i < |a| + |sep| {
      assert w[0] == sep[i - |a|];
      assert sep[i - |a|] in sep;
    } else {
      var j := i - |a| - |sep|;
      assert w == rest[j..j + |p|];
      assert !OccursAt(rest, p, j);
    }
  }

  /** After replaceAll, the pattern no longer occurs, provided the
      replacement is non-empty, free of `$`, does not start with a character
      of the pattern, and does not contain the pattern's first character. */
  lemma ReplaceAllRemovesPattern(s: string, p: string, r: string)
    requires p != [] && r != [] && '$' !in r
    requires r[0] !in p && p[0] !in r
    ensures !Contains(ReplaceAll(s, p, r), p)
  {
    ReplaceAllIsSplitJoin(s, p, r);
    SplitPiecesAvoidPattern(s, p);
    JoinAvoidsPattern(Split(s, p), r, p);
  }

  /** `c.toUpperCase()` for a single character, ASCII letters only. */
  function ToUpper(c: char): char {
    if 'a' <= c <= 'z' then (c as int - 32) as char else c
  }

  /** `c.toLowerCase()` for a single character, ASCII letters only. */
  function ToLower(c: char): char {
    if 'A' <= c <= 'Z' then (c as int + 32) as char else c
  }

  /** `s.charAt(0).toUpperCase() + s.slice(1)` */
  function UpperFirst(s: string): string {
    if s == [] then [] else [ToUpper(s[0])] + s[1..]
  }

  /** `s.charAt(0).toLowerCase() + s.slice(1)` */
  function LowerFirst(s: string): string {
    if s == [] then [] else [ToLower(s[0])] + s[1..]
  }

  /** Lower-casing the first character forgets any earlier upper-casing of it. */
  lemma LowerFirstAfterUpperFirst(s: string)
    ensures LowerFirst(UpperFirst(s)) == LowerFirst(s)
  {
    if s != [] {
      var c := s[0];
      assert ToLower(ToUpper(c)) == ToLower(c);
      assert UpperFirst(s)[1..] == s[1..];
    }
  }
}
