/**
 * The Python string operations the metadata code relies on, over `seq<char>`:
 * `strip()`, `lower()`, `split(sep)`, `sep.join(...)`, `startswith`, `replace`,
 * `split()[0]`, and the comma-separated tag parsing built from them.
 * Whitespace is the fixed set of ASCII characters `str.isspace` accepts;
 * lower-casing is ASCII only.
 */
module Text {

  /** `c.isspace()` for ASCII: tab, line feed, vertical tab, form feed, carriage
      return, the four information separators and space. */
  predicate IsSpace(c: char) {
    ('\t' <= c <= '\r') || ((28 as char) <= c <= ' ')
  }

  /** Neither end of `s` is whitespace. */
  predicate IsTrimmed(s: string) {
    s == [] || (!IsSpace(s[0]) && !IsSpace(s[|s| - 1]))
  }

  predicate AllSpace(s: string) {
    forall i :: 0 <= i < |s| ==> IsSpace(s[i])
  }

  /** `r` occurs in `s` at index `k`, and every character of `s` around it is whitespace. */
  predicate StretchAt(s: string, k: int, r: string) {
    && 0 <= k <= |s| - |r|
    && s[k..][..|r|] == r
    && (forall i :: 0 <= i < |s| && (i < k || k + |r| <= i) ==> IsSpace(s[i]))
  }

  /** `s.lstrip()` */
  function TrimStart(s: string): (r: string)
    ensures |r| <= |s| && r == s[|s| - |r|..]
    ensures r == [] || !IsSpace(r[0])
    ensures forall i :: 0 <= i < |s| - |r| ==> IsSpace(s[i])
  {
    if s != [] && IsSpace(s[0]) then TrimStart(s[1..]) else s
  }

  /** `s.rstrip()` */
  function TrimEnd(s: string): (r: string)
    ensures |r| <= |s| && r == s[..|r|]
    ensures r == [] || !IsSpace(r[|r| - 1])
    ensures forall i :: |r| <= i < |s| ==> IsSpace(s[i])
  {
    if s != [] && IsSpace(s[|s| - 1]) then TrimEnd(s[..|s| - 1]) else s
  }

  /** `s.strip()`: the result has no whitespace at either end, is empty exactly when
      `s` is all whitespace, keeps a trimmed `s` as it is, and holds only characters of `s`.
      `StripMeans` places it in `s`. */
  function Strip(s: string): (r: string)
    ensures IsTrimmed(r)
    ensures r == [] <==> AllSpace(s)
    ensures IsTrimmed(s) ==> r == s
    ensures forall x :: x in r ==> x in s
  {
    var t := TrimStart(s);
    var r := TrimEnd(t);
    assert r != [] ==> r[0] == t[0];
    assert AllSpace(s) ==> t == [] by {
      if t != [] {
        assert s[|s| - |t|] == t[0];
      }
    }
    assert forall x :: x in r ==> x in t;
    r
  }

  /** `s.strip()` is the stretch of `s` between a run of leading and a run of trailing
      whitespace: with its trimmed ends, this says it removes whitespace at the ends only. */
  lemma StripMeans(s: string)
    ensures exists k :: StretchAt(s, k, Strip(s))
  {
    var t := TrimStart(s);
    StripStretch(s, t, TrimEnd(t));
    assert StretchAt(s, |s| - |t|, Strip(s));
  }

  lemma StripStretch(s: string, t: string, r: string)
    requires t == TrimStart(s) && r == TrimEnd(t)
    ensures StretchAt(s, |s| - |t|, r)
  {
    var k := |s| - |t|;
    assert t == s[k..];
    assert forall j :: |r| <= j < |t| ==> IsSpace(t[j]);
    assert forall j :: 0 <= j < k ==> IsSpace(s[j]);
    SpaceAround(s, k, t, |r|);
  }

  /** Whitespace before index `k` of `s` and after the first `n` characters of `t == s[k..]`
      is whitespace outside `s[k..k + n]`. */
  lemma SpaceAround(s: string, k: int, t: string, n: int)
    requires 0 <= k <= |s| && t == s[k..] && 0 <= n <= |t|
    requires forall j :: n <= j < |t| ==> IsSpace(t[j])
    requires forall j :: 0 <= j < k ==> IsSpace(s[j])
    ensures forall i :: 0 <= i < |s| && (i < k || k + n <= i) ==> IsSpace(s[i])
  {
    forall i | 0 <= i < |s| && (i < k || k + n <= i)
      ensures IsSpace(s[i])
    {
      if k + n <= i {
        assert s[i] == t[i - k];
      }
    }
  }

  /** Trailing whitespace is what `rstrip` removes. */
  lemma {:induction false} TrimEndSpaces(a: string, b: string)
    requires AllSpace(b)
    ensures TrimEnd(a + b) == TrimEnd(a)
    decreases |b|
  {
    if b == [] {
      assert a + b == a;
    } else {
      var b0 := b[..|b| - 1];
      assert (a + b)[..|a + b| - 1] == a + b0;
      TrimEndSpaces(a, b0);
    }
  }

  /** Stripping keeps every character that is not whitespace. */
  lemma StripKeepsNonSpace(s: string, c: char)
    ensures c in s && !IsSpace(c) ==> c in Strip(s)
  {
    if c in s && !IsSpace(c) {
      var i :| 0 <= i < |s| && s[i] == c;
      var t := TrimStart(s);
      var r := TrimEnd(t);
      StripStretch(s, t, r);
      InStretch(s, |s| - |t|, r, i);
      assert r == Strip(s);
    }
  }

  /** A character of `s` that is not whitespace lies in a stretch of `s` with only
      whitespace around it. */
  lemma InStretch(s: string, k: int, r: string, i: int)
    requires StretchAt(s, k, r) && 0 <= i < |s| && !IsSpace(s[i])
    ensures s[i] in r
  {
    assert k <= i < k + |r|;
    assert r[i - k] == s[k..][..|r|][i - k];
  }

  /** Stripping ignores one more leading space. */
  lemma StripSpacePrefix(s: string)
    ensures Strip(" " + s) == Strip(s)
  {
    assert (" " + s)[1..] == s;
  }

  lemma StripIdempotent(s: string)
    ensures Strip(Strip(s)) == Strip(s)
  {
  }

  /** Stripping never yields a single space. */
  lemma StripNotSpace(s: string)
    ensures Strip(s) != " "
  {
  }

  function LowerChar(c: char): char {
    if 'A' <= c <= 'Z' then (c as int + 32) as char else c
  }

  /** `s.lower()` on ASCII letters. */
  function Lower(s: string): (r: string)
    ensures |r| == |s|
    ensures forall i :: 0 <= i < |s| ==> r[i] == LowerChar(s[i])
    ensures IsLowerAscii(r)
    ensures IsTrimmed(s) ==> IsTrimmed(r)
  {
    seq(|s|, i requires 0 <= i < |s| => LowerChar(s[i]))
  }

  predicate IsLowerAscii(s: string) {
    forall i :: 0 <= i < |s| ==> !('A' <= s[i] <= 'Z')
  }

  lemma LowerOfLower(s: string)
    requires IsLowerAscii(s)
    ensures Lower(s) == s
  {
  }

  /** `s.startswith(p)` */
  predicate StartsWith(s: string, p: string) {
    |p| <= |s| && s[..|p|] == p
  }

  /** `s.endswith(p)` */
  predicate EndsWith(s: string, p: string) {
    |p| <= |s| && s[|s| - |p|..] == p
  }

  /** `s.replace(a, b)` for single characters. */
  function Replace(s: string, a: char, b: char): (r: string)
    ensures |r| == |s|
    ensures forall i :: 0 <= i < |s| ==> r[i] == (if s[i] == a then b else s[i])
  {
    if s == [] then [] else [if s[0] == a then b else s[0]] + Replace(s[1..], a, b)
  }

  /** Replacing `a` by `b` and then `b` by `a` restores a string that had no `b`. */
  lemma ReplaceBack(s: string, a: char, b: char)
    requires b !in s
    ensures Replace(Replace(s, a, b), b, a) == s
  {
    var r := Replace(Replace(s, a, b), b, a);
    assert forall i :: 0 <= i < |s| ==> r[i] == s[i];
  }

  /** The index of the first `c` in `s` (`s.index(c)`). */
  function IndexOf(s: string, c: char): (r: nat)
    requires c in s
    ensures r < |s| && s[r] == c && c !in s[..r]
  {
    if s[0] == c then 0 else
      assert c in s[1..] by { var i :| 0 <= i < |s| && s[i] == c; assert s[1..][i - 1] == c; }
      var k := IndexOf(s[1..], c);
      assert s[..k + 1] == [s[0]] + s[1..][..k];
      k + 1
  }

  /** `s.split(c, 1)` when `c` occurs in `s`: the text before the first `c` and the text after it. */
  function SplitOnce(s: string, c: char): (r: (string, string))
    requires c in s
    ensures s == r.0 + [c] + r.1
    ensures c !in r.0
  {
    var i := IndexOf(s, c);
    assert s == s[..i] + [c] + s[i + 1..];
    (s[..i], s[i + 1..])
  }

  /** The split at the first `c` is the one before which no `c` occurs. */
  lemma SplitOnceAt(a: string, c: char, b: string)
    requires c !in a
    ensures SplitOnce(a + [c] + b, c) == (a, b)
  {
    var s := a + [c] + b;
    var r := SplitOnce(s, c);
    assert forall i :: 0 <= i < |a| ==> s[i] == a[i];
    assert forall i :: 0 <= i < |r.0| ==> s[i] == r.0[i];
    assert s[|a|] == c && s[|r.0|] == c;
    assert r.0 == s[..|a|] == a;
    assert r.1 == s[|a| + 1..] == b;
  }

  /** `s.split(c)`: the pieces between occurrences of `c`; never empty, no piece holds `c`. */
  function Split(s: string, c: char): (r: seq<string>)
    ensures |r| >= 1
    ensures forall i :: 0 <= i < |r| ==> c !in r[i]
  {
    if s == [] then [""]
    else
      var rest := Split(s[1..], c);
      if s[0] == c then [""] + rest
      else [[s[0]] + rest[0]] + rest[1..]
  }

  /** `sep.join(parts)` */
  function Join(parts: seq<string>, sep: string): string {
    if parts == [] then ""
    else if |parts| == 1 then parts[0]
    else parts[0] + sep + Join(parts[1..], sep)
  }

  /** Joining the pieces of a split with the separator gives the string back. */
  lemma {:induction false} JoinSplit(s: string, c: char)
    ensures Join(Split(s, c), [c]) == s
  {
    if s != [] {
      JoinSplit(s[1..], c);
      var rest := Split(s[1..], c);
      if s[0] == c {
        assert Split(s, c) == [""] + rest;
        assert Join(Split(s, c), [c]) == "" + [c] + Join(rest, [c]);
      } else {
        var r := [[s[0]] + rest[0]] + rest[1..];
        assert Split(s, c) == r;
        if |rest| == 1 {
          assert Join(r, [c]) == [s[0]] + rest[0];
        } else {
          assert r[1..] == rest[1..];
          assert Join(rest, [c]) == rest[0] + [c] + Join(rest[1..], [c]);
          assert Join(r, [c]) == [s[0]] + rest[0] + [c] + Join(rest[1..], [c]);
        }
        assert s == [s[0]] + s[1..];
      }
    }
  }

  /** A string without the separator is one piece. */
  lemma {:induction false} SplitNoSep(s: string, c: char)
    requires c !in s
    ensures Split(s, c) == [s]
  {
    if s != [] {
      SplitNoSep(s[1..], c);
      assert s == [s[0]] + s[1..];
    }
  }

  /** Splitting `p + c + q` with `p` free of `c` gives `p` and then the pieces of `q`. */
  lemma {:induction false} SplitAfterPiece(p: string, c: char, q: string)
    requires c !in p
    ensures Split(p + [c] + q, c) == [p] + Split(q, c)
  {
    if p == [] {
      assert ([c] + q)[1..] == q;
    } else {
      SplitAfterPiece(p[1..], c, q);
      assert (p + [c] + q)[1..] == p[1..] + [c] + q;
      assert [p[0]] + p[1..] == p;
    }
  }

  /** Splitting the join of separator-free pieces gives the pieces back. */
  lemma {:induction false} SplitJoin(parts: seq<string>, c: char)
    requires |parts| >= 1
    requires forall i :: 0 <= i < |parts| ==> c !in parts[i]
    ensures Split(Join(parts, [c]), c) == parts
  {
    if |parts| == 1 {
      SplitNoSep(parts[0], c);
    } else {
      SplitJoin(parts[1..], c);
      SplitAfterPiece(parts[0], c, Join(parts[1..], [c]));
      assert parts == [parts[0]] + parts[1..];
    }
  }

  /** A well-formed tag: non-empty, trimmed, and free of the `,` separator. */
  predicate IsTag(t: string) {
    t != [] && IsTrimmed(t) && ',' !in t
  }

  /** `[t.strip() for t in pieces if t.strip()]` */
  function StripPieces(pieces: seq<string>): (r: seq<string>)
    ensures |r| <= |pieces|
  {
    if pieces == [] then []
    else
      var t := Strip(pieces[0]);
      (if t == [] then [] else [t]) + StripPieces(pieces[1..])
  }

  /** Stripping comma-free pieces and dropping the empty ones leaves only well-formed tags. */
  lemma {:induction false} StripPiecesTags(pieces: seq<string>)
    requires forall i :: 0 <= i < |pieces| ==> ',' !in pieces[i]
    ensures forall i :: 0 <= i < |StripPieces(pieces)| ==> IsTag(StripPieces(pieces)[i])
  {
    if pieces != [] {
      StripPiecesTags(pieces[1..]);
      var t := Strip(pieces[0]);
      assert ',' !in t;
    }
  }

  /** Tag parsing: split on `,`, strip each piece, drop the empty ones. Every tag is well
      formed, and a text without a comma is the one tag it strips to, if any. */
  function ParseTags(s: string): (r: seq<string>)
    ensures forall i :: 0 <= i < |r| ==> IsTag(r[i])
    ensures ',' !in s ==> r == (if Strip(s) == "" then [] else [Strip(s)])
  {
    StripPiecesTags(Split(s, ','));
    StripPiecesNoComma(s);
    StripPieces(Split(s, ','))
  }

  lemma StripPiecesNoComma(s: string)
    ensures ',' !in s ==> StripPieces(Split(s, ',')) == (if Strip(s) == "" then [] else [Strip(s)])
  {
    if ',' !in s {
      SplitNoSep(s, ',');
    }
  }

  /** The text before the first comma contributes its stripped tag, if any, ahead of the
      tags of the rest. */
  lemma ParseTagsComma(a: string, b: string)
    requires ',' !in a
    ensures ParseTags(a + "," + b) == ParseTags(a) + ParseTags(b)
  {
    SplitAfterPiece(a, ',', b);
    StripPiecesPrepend(a, Split(b, ','));
    StripPiecesNoComma(a);
  }

  lemma StripPiecesPrepend(a: string, pieces: seq<string>)
    ensures StripPieces([a] + pieces) == StripPieces([a]) + StripPieces(pieces)
  {
    assert ([a] + pieces)[1..] == pieces;
    assert [a][1..] == [];
  }

  /** Tag rendering: `", ".join(tags)`. */
  function JoinTags(tags: seq<string>): string {
    Join(tags, ", ")
  }

  /** Well-formed tags join to a trimmed text, empty only for no tags, with no line feed
      when no tag has one. */
  lemma {:induction false} JoinTagsShape(tags: seq<string>)
    requires forall i :: 0 <= i < |tags| ==> IsTag(tags[i])
    ensures IsTrimmed(JoinTags(tags))
    ensures JoinTags(tags) == [] <==> tags == []
    ensures (forall i :: 0 <= i < |tags| ==> '\n' !in tags[i]) ==> '\n' !in JoinTags(tags)
    decreases |tags|
  {
    if |tags| > 1 {
      var t, rest := tags[0], tags[1..];
      assert IsTag(t);
      JoinTagsShape(rest);
      var j := JoinTags(rest);
      assert JoinTags(tags) == t + ", " + j;
      assert (forall i :: 0 <= i < |tags| ==> '\n' !in tags[i]) ==> '\n' !in t && '\n' !in j by {
        if forall i :: 0 <= i < |tags| ==> '\n' !in tags[i] {
          assert tags[0] == t;
          assert forall i :: 0 <= i < |rest| ==> rest[i] == tags[i + 1];
        }
      }
    } else if |tags| == 1 {
      assert IsTag(tags[0]);
    }
  }

  /** A leading space joins the first piece of a split. */
  lemma SplitAfterSpace(x: string)
    ensures Split(" " + x, ',') == [" " + Split(x, ',')[0]] + Split(x, ',')[1..]
  {
    assert (" " + x)[1..] == x;
  }

  /** A leading space changes no tag. */
  lemma ParseTagsSpace(x: string)
    ensures ParseTags(" " + x) == ParseTags(x)
  {
    var px := Split(x, ',');
    SplitAfterSpace(x);
    StripSpacePrefix(px[0]);
    var sx := [" " + px[0]] + px[1..];
    assert StripPieces(sx) == StripPieces(px) by {
      assert sx[1..] == px[1..];
      assert px == [px[0]] + px[1..];
    }
  }

  /** A well-formed tag followed by `", "` parses as that tag and then the rest. */
  lemma ParseTagsAfter(t: string, x: string)
    requires IsTag(t)
    ensures ParseTags(t + ", " + x) == [t] + ParseTags(x)
  {
    assert t + ", " + x == t + "," + (" " + x);
    ParseTagsComma(t, " " + x);
    ParseTagsSpace(x);
  }

  /** Parsing rendered well-formed tags gives the same tags, in order. */
  lemma {:induction false} ParseJoinTags(tags: seq<string>)
    requires forall i :: 0 <= i < |tags| ==> IsTag(tags[i])
    ensures ParseTags(JoinTags(tags)) == tags
  {
    if tags == [] {
      assert JoinTags(tags) == "";
    } else if |tags| == 1 {
      assert IsTag(tags[0]);
      assert JoinTags(tags) == tags[0];
    } else {
      var t, rest := tags[0], tags[1..];
      assert IsTag(t);
      ParseJoinTags(rest);
      assert JoinTags(tags) == t + ", " + JoinTags(rest);
      ParseTagsAfter(t, JoinTags(rest));
      assert tags == [t] + rest;
    }
  }

  /** `s.split()[0]`: the first run of non-whitespace characters. It holds no whitespace,
      comes after whitespace only and ends at whitespace or at the end of `s`; it is empty
      exactly when `s` is all whitespace. */
  function FirstWord(s: string): (r: string)
    ensures forall i :: 0 <= i < |r| ==> !IsSpace(r[i])
    ensures exists k :: WordAt(s, k, r)
    ensures r == [] <==> AllSpace(s)
  {
    var t := TrimStart(s);
    var r := TakeWord(t);
    assert WordAt(s, |s| - |t|, r) by {
      var k := |s| - |t|;
      assert t == s[k..];
      assert |r| < |t| ==> s[k + |r|] == t[|r|];
    }
    assert AllSpace(s) ==> t == [] by {
      if t != [] {
        assert s[|s| - |t|] == t[0];
      }
    }
    r
  }

  /** `r` starts at index `k` of `s`, after whitespace only, and is followed by whitespace
      or by the end of `s`. */
  predicate WordAt(s: string, k: int, r: string) {
    && 0 <= k <= |s| - |r|
    && (forall i :: 0 <= i < k ==> IsSpace(s[i]))
    && s[k..][..|r|] == r
    && (k + |r| == |s| || IsSpace(s[k + |r|]))
  }

  function TakeWord(s: string): (r: string)
    ensures |r| <= |s| && r == s[..|r|]
    ensures forall i :: 0 <= i < |r| ==> !IsSpace(r[i])
    ensures |r| < |s| ==> IsSpace(s[|r|])
  {
    if s == [] || IsSpace(s[0]) then [] else [s[0]] + TakeWord(s[1..])
  }

  /** A word followed by whitespace or nothing: its first word is the word. */
  lemma FirstWordOf(w: string, rest: string)
    requires w != [] && forall i :: 0 <= i < |w| ==> !IsSpace(w[i])
    requires rest == [] || IsSpace(rest[0])
    ensures FirstWord(w + rest) == w
  {
    assert (w + rest)[0] == w[0];
    TakeWordOf(w, rest);
  }

  lemma {:induction false} TakeWordOf(w: string, rest: string)
    requires forall i :: 0 <= i < |w| ==> !IsSpace(w[i])
    requires rest == [] || IsSpace(rest[0])
    ensures TakeWord(w + rest) == w
  {
    if w == [] {
      assert w + rest == rest;
    } else {
      TakeWordOf(w[1..], rest);
      assert (w + rest)[1..] == w[1..] + rest;
      assert w == [w[0]] + w[1..];
    }
  }

  /** Python's string order (`<` on `str`): lexicographic on code points, a proper prefix first. */
  predicate Less(a: string, b: string) {
    if a == [] then b != []
    else if b == [] then false
    else a[0] < b[0] || (a[0] == b[0] && Less(a[1..], b[1..]))
  }

  lemma {:induction false} LessIrreflexive(a: string)
    ensures !Less(a, a)
  {
    if a != [] { LessIrreflexive(a[1..]); }
  }

  lemma {:induction false} LessTransitive(a: string, b: string, c: string)
    requires Less(a, b) && Less(b, c)
    ensures Less(a, c)
  {
    if a != [] && b != [] && c != [] && a[0] == b[0] == c[0] {
      LessTransitive(a[1..], b[1..], c[1..]);
    }
  }

  lemma {:induction false} LessTotal(a: string, b: string)
    ensures a == b || Less(a, b) || Less(b, a)
  {
    if a != [] && b != [] && a[0] == b[0] {
      LessTotal(a[1..], b[1..]);
      if a[1..] == b[1..] {
        assert a == [a[0]] + a[1..] && b == [b[0]] + b[1..];
      }
    }
  }
}
