/**
 * The seed list: the text of usernames.txt is split on "\n", each piece is
 * trimmed with JavaScript's String.prototype.trim, and empty pieces are dropped.
 */
module Usernames {
  import opened Wrappers
  import opened Sequences

  /**
   * The code points String.prototype.trim removes: the ECMAScript WhiteSpace
   * characters (tab, vertical tab, form feed, space, no-break space, the byte
   * order mark and the Unicode "Zs" space separators) and the LineTerminator
   * characters (line feed, carriage return, line and paragraph separators).
   */
  predicate IsJsSpace(c: char)
    ensures c == ' ' || c == '\t' || c == '\n' || c == '\r' ==> IsJsSpace(c)
    ensures ('a' <= c <= 'z' || 'A' <= c <= 'Z' || '0' <= c <= '9' || c == '_' || c == '.') ==> !IsJsSpace(c)
    ensures IsJsSpace(c) ==> (c as int) < 0x1_0000
  {
    var n := c as int;
    (0x09 <= n <= 0x0D) || n == 0x20 || n == 0xA0 || n == 0x1680 || (0x2000 <= n <= 0x200A)
    || n == 0x2028 || n == 0x2029 || n == 0x202F || n == 0x205F || n == 0x3000 || n == 0xFEFF
  }

  predicate AllSpace(s: string) {
    forall i | 0 <= i < |s| :: IsJsSpace(s[i])
  }

  /** No whitespace at either end. */
  predicate Trimmed(s: string) {
    s == [] || (!IsJsSpace(s[0]) && !IsJsSpace(s[|s| - 1]))
  }

  /** `r` is what is left of `s` after removing whitespace from both ends: an independent description of trim. */
  ghost predicate IsTrimOf(r: string, s: string) {
    exists i, j | 0 <= i <= j <= |s| :: r == s[i..j] && AllSpace(s[..i]) && AllSpace(s[j..]) && Trimmed(r)
  }

  function TrimStart(s: string): (r: string)
    ensures |r| <= |s|
  {
    if s != [] && IsJsSpace(s[0]) then TrimStart(s[1..]) else s
  }

  function TrimEnd(s: string): (r: string)
    ensures |r| <= |s|
  {
    if s != [] && IsJsSpace(s[|s| - 1]) then TrimEnd(s[..|s| - 1]) else s
  }

  /** String.prototype.trim. */
  function Trim(s: string): (r: string)
    ensures |r| <= |s| && Trimmed(r)
  {
    TrimStartSpec(s);
    TrimEndSpec(TrimStart(s));
    assert TrimEnd(TrimStart(s)) != [] ==> TrimEnd(TrimStart(s))[0] == TrimStart(s)[0];
    TrimEnd(TrimStart(s))
  }

  /** TrimStart removes whitespace from the front, and only that: what is left is a suffix not starting with whitespace. */
  lemma {:induction false} TrimStartSpec(s: string)
    ensures TrimStart(s) == s[|s| - |TrimStart(s)|..]
    ensures AllSpace(s[..|s| - |TrimStart(s)|])
    ensures TrimStart(s) == [] || !IsJsSpace(TrimStart(s)[0])
  {
    if s != [] && IsJsSpace(s[0]) {
      var r := TrimStart(s[1..]);
      TrimStartSpec(s[1..]);
      assert s[..|s| - |r|] == [s[0]] + s[1..][..|s[1..]| - |r|];
      assert s[1..][|s[1..]| - |r|..] == s[|s| - |r|..];
    } else {
      assert s[..0] == [];
    }
  }

  /** TrimEnd removes whitespace from the back, and only that: what is left is a prefix not ending with whitespace. */
  lemma {:induction false} TrimEndSpec(s: string)
    ensures TrimEnd(s) == s[..|TrimEnd(s)|]
    ensures AllSpace(s[|TrimEnd(s)|..])
    ensures TrimEnd(s) == [] || !IsJsSpace(TrimEnd(s)[|TrimEnd(s)| - 1])
  {
    if s != [] && IsJsSpace(s[|s| - 1]) {
      var p := s[..|s| - 1];
      var r := TrimEnd(p);
      TrimEndSpec(p);
      assert s[|r|..] == p[|r|..] + [s[|s| - 1]];
      assert p[..|r|] == s[..|r|];
    } else {
      assert s[|s|..] == [];
    }
  }

  /** Trim meets the independent description IsTrimOf. */
  lemma TrimIsTrimOf(s: string)
    ensures IsTrimOf(Trim(s), s)
  {
    var t := TrimStart(s);
    var r := TrimEnd(t);
    TrimStartSpec(s);
    TrimEndSpec(t);
    var i := |s| - |t|;
    assert r == s[i..i + |r|];
    assert s[i + |r|..] == t[|r|..];
    assert r != [] ==> r[0] == t[0];
    assert Trimmed(r);
  }

  /** Whitespace up to position i and a non-space character at i: trimming the start removes exactly the first i characters. */
  lemma {:induction false} TrimStartAt(s: string, i: nat)
    requires i <= |s| && AllSpace(s[..i]) && (i == |s| || !IsJsSpace(s[i]))
    ensures TrimStart(s) == s[i..]
  {
    if i > 0 {
      assert s[..i][0] == s[0];
      assert s[1..][..i - 1] == s[..i][1..];
      assert i < |s| ==> s[1..][i - 1] == s[i];
      TrimStartAt(s[1..], i - 1);
      assert s[1..][i - 1..] == s[i..];
    }
  }

  /** Whitespace from position j on and a non-space character before it: trimming the end keeps exactly the first j characters. */
  lemma {:induction false} TrimEndAt(s: string, j: nat)
    requires j <= |s| && AllSpace(s[j..]) && (j == 0 || !IsJsSpace(s[j - 1]))
    ensures TrimEnd(s) == s[..j]
  {
    if j < |s| {
      assert s[j..][|s| - 1 - j] == s[|s| - 1];
      var p := s[..|s| - 1];
      assert p[j..] == s[j..][..|s| - 1 - j];
      assert j > 0 ==> p[j - 1] == s[j - 1];
      TrimEndAt(p, j);
      assert p[..j] == s[..j];
    } else {
      assert s[..j] == s;
    }
  }

  /** A string made only of whitespace trims to the empty string. */
  lemma TrimAllSpace(s: string)
    requires AllSpace(s)
    ensures Trim(s) == []
  {
    assert s[..|s|] == s;
    TrimStartAt(s, |s|);
  }

  /** A non-empty piece s[i..j] with a non-space character at each end and whitespace around it is the trim of s. */
  lemma TrimInner(s: string, i: nat, j: nat)
    requires i < j <= |s| && AllSpace(s[..i]) && AllSpace(s[j..])
    requires !IsJsSpace(s[i]) && !IsJsSpace(s[j - 1])
    ensures Trim(s) == s[i..j]
  {
    TrimStartAt(s, i);
    var t := s[i..];
    assert t[j - i..] == s[j..];
    assert t[j - i - 1] == s[j - 1];
    TrimEndAt(t, j - i);
    assert t[..j - i] == s[i..j];
  }

  /** Whitespace before and after position i: all whitespace. */
  lemma AllSpaceJoin(s: string, i: nat)
    requires i <= |s| && AllSpace(s[..i]) && AllSpace(s[i..])
    ensures AllSpace(s)
  {
    forall k | 0 <= k < |s| ensures IsJsSpace(s[k]) {
      if k < i { assert s[..i][k] == s[k]; } else { assert s[i..][k - i] == s[k]; }
    }
  }

  /** A piece s[i..j] with whitespace around it and none at its own ends is the trim of s. */
  lemma TrimOfAt(s: string, i: nat, j: nat)
    requires i <= j <= |s| && AllSpace(s[..i]) && AllSpace(s[j..]) && Trimmed(s[i..j])
    ensures Trim(s) == s[i..j]
  {
    if i == j {
      AllSpaceJoin(s, i);
      TrimAllSpace(s);
    } else {
      assert s[i] == s[i..j][0] && s[j - 1] == s[i..j][j - i - 1];
      TrimInner(s, i, j);
    }
  }

  /** The description is exact: whatever satisfies IsTrimOf is the trim. */
  lemma TrimOfIsTrim(s: string, a: string)
    requires IsTrimOf(a, s)
    ensures a == Trim(s)
  {
    var i, j :| 0 <= i <= j <= |s| && a == s[i..j] && AllSpace(s[..i]) && AllSpace(s[j..]) && Trimmed(a);
    TrimOfAt(s, i, j);
  }

  /** Trimming has exactly one possible outcome. */
  lemma TrimOfUnique(s: string, a: string, b: string)
    requires IsTrimOf(a, s) && IsTrimOf(b, s)
    ensures a == b
  {
    TrimOfIsTrim(s, a);
    TrimOfIsTrim(s, b);
  }

  /** A string without whitespace at its ends is its own trim. */
  lemma TrimOfTrimmed(t: string)
    requires Trimmed(t)
    ensures Trim(t) == t
  {
    if t == [] {
      TrimAllSpace(t);
    } else {
      assert t[..0] == [] && t[|t|..] == [] && t[0..|t|] == t;
      TrimInner(t, 0, |t|);
    }
  }

  /** Trimming twice is trimming once. */
  lemma TrimIdempotent(s: string)
    ensures Trim(Trim(s)) == Trim(s)
  {
    TrimOfTrimmed(Trim(s));
  }

  /** A carriage return left at the end of a line of a CRLF file is removed with the rest of the trailing whitespace. */
  lemma TrimDropsCarriageReturn(u: string)
    requires Trimmed(u)
    ensures Trim(u + "\r") == u
  {
    var s := u + "\r";
    assert s[|u|..] == "\r";
    if u == [] {
      TrimAllSpace(s);
    } else {
      assert s[..0] == [] && s[0..|u|] == u && s[0] == u[0] && s[|u| - 1] == u[|u| - 1];
      TrimInner(s, 0, |u|);
    }
  }

  /** Trim returns a piece of its argument, so a character absent from the argument is absent from the trim. */
  lemma TrimKeepsAbsent(s: string, c: char)
    requires c !in s
    ensures c !in Trim(s)
  {
    var t := TrimStart(s);
    var r := TrimEnd(t);
    TrimStartSpec(s);
    TrimEndSpec(t);
    var i := |s| - |t|;
    assert forall k | 0 <= k < |r| :: r[k] == s[i + k];
  }

  /** JavaScript's `split("\n")`: the pieces between newline characters, always at least one. */
  function SplitLines(s: string): (r: seq<string>)
    ensures |r| >= 1
  {
    if s == [] then [[]]
    else
      var rest := SplitLines(s[1..]);
      if s[0] == '\n' then [[]] + rest
      else [[s[0]] + rest[0]] + rest[1..]
  }

  /** The inverse of SplitLines: the pieces with a newline between each two. */
  function JoinLines(pieces: seq<string>): string
    requires |pieces| >= 1
  {
    if |pieces| == 1 then pieces[0] else pieces[0] + "\n" + JoinLines(pieces[1..])
  }

  predicate NoNewline(s: string) {
    '\n' !in s
  }

  /** No piece of a split contains a newline. */
  lemma {:induction false} SplitLinesNoNewline(s: string)
    ensures forall k | 0 <= k < |SplitLines(s)| :: NoNewline(SplitLines(s)[k])
  {
    if s != [] {
      SplitLinesNoNewline(s[1..]);
    }
  }

  /** Joining the pieces of a split gives back the text. */
  lemma {:induction false} JoinSplitLines(s: string)
    ensures JoinLines(SplitLines(s)) == s
  {
    if s != [] {
      var rest := SplitLines(s[1..]);
      JoinSplitLines(s[1..]);
      if s[0] == '\n' {
        assert SplitLines(s)[1..] == rest;
      } else if |rest| > 1 {
        assert SplitLines(s)[1..] == rest[1..];
        assert JoinLines(rest) == rest[0] + "\n" + JoinLines(rest[1..]);
      }
    }
  }

  /** Splitting text that starts with a newline-free piece keeps that piece at the front of the first line. */
  lemma {:induction false} SplitLinesPrefix(a: string, t: string)
    requires NoNewline(a)
    ensures SplitLines(a + t) == [a + SplitLines(t)[0]] + SplitLines(t)[1..]
  {
    if a != [] {
      assert (a + t)[1..] == a[1..] + t;
      SplitLinesPrefix(a[1..], t);
      assert [a[0]] + (a[1..] + SplitLines(t)[0]) == a + SplitLines(t)[0];
    } else {
      assert a + t == t;
      assert a + SplitLines(t)[0] == SplitLines(t)[0];
      assert SplitLines(t) == [SplitLines(t)[0]] + SplitLines(t)[1..];
    }
  }

  /** Splitting a join of newline-free pieces gives back the pieces. */
  lemma {:induction false} SplitJoinLines(pieces: seq<string>)
    requires |pieces| >= 1
    requires forall k | 0 <= k < |pieces| :: NoNewline(pieces[k])
    ensures SplitLines(JoinLines(pieces)) == pieces
  {
    if |pieces| == 1 {
      SplitLinesPrefix(pieces[0], []);
      assert pieces[0] + [] == pieces[0];
    } else {
      var rest := JoinLines(pieces[1..]);
      SplitJoinLines(pieces[1..]);
      assert pieces[0] + "\n" + rest == pieces[0] + ("\n" + rest);
      SplitLinesPrefix(pieces[0], "\n" + rest);
      assert ("\n" + rest)[1..] == rest;
      assert pieces[0] + [] == pieces[0];
    }
  }

  /** Splitting at a newline splits the text into the splits of both sides. */
  lemma {:induction false} SplitLinesConcat(a: string, b: string)
    ensures SplitLines(a + "\n" + b) == SplitLines(a) + SplitLines(b)
  {
    if a == [] {
      assert a + "\n" + b == "\n" + b;
      assert ("\n" + b)[1..] == b;
    } else {
      assert (a + "\n" + b)[1..] == a[1..] + "\n" + b;
      SplitLinesConcat(a[1..], b);
    }
  }

  /** There is one more line than there are newline characters. */
  lemma {:induction false} SplitLinesCount(s: string)
    ensures |SplitLines(s)| == multiset(s)['\n'] + 1
  {
    if s != [] {
      SplitLinesCount(s[1..]);
      assert s == [s[0]] + s[1..];
      assert multiset(s) == multiset([s[0]]) + multiset(s[1..]);
    }
  }

  /** `.map(u => u.trim())` */
  function TrimAll(lines: seq<string>): (r: seq<string>)
    ensures |r| == |lines|
    ensures forall k | 0 <= k < |r| :: r[k] == Trim(lines[k])
    ensures forall k | 0 <= k < |r| :: Trimmed(r[k]) && |r[k]| <= |lines[k]|
  {
    seq(|lines|, k requires 0 <= k < |lines| => Trim(lines[k]))
  }

  /** JavaScript truthiness of a string, as used by `.filter(Boolean)`: only the empty string is falsy. */
  function Truthy(s: string): (r: Option<string>)
    ensures r.Some? <==> s != []
    ensures r.Some? ==> r.value == s
  {
    if s == [] then None else Some(s)
  }

  /** `.filter(Boolean)` */
  function DropEmpty(xs: seq<string>): (r: seq<string>)
    ensures forall k | 0 <= k < |r| :: r[k] != []
  {
    FilterMapAll(xs, Truthy, s => s != []);
    FilterMap(xs, Truthy)
  }

  /** `.filter(Boolean)` of nothing is nothing. */
  lemma DropEmptyNil()
    ensures DropEmpty([]) == []
  {
  }

  /** `.filter(Boolean)` keeps a string exactly when it is non-empty, after the strings kept before it. */
  lemma DropEmptySnoc(xs: seq<string>, s: string)
    ensures DropEmpty(xs + [s]) == DropEmpty(xs) + (if s == [] then [] else [s])
  {
    FilterMapAppend(xs, [s], Truthy);
    assert [s][1..] == [];
  }

  /** A string survives `.filter(Boolean)` exactly when it is non-empty and among the inputs. */
  lemma DropEmptyMember(xs: seq<string>, s: string)
    ensures s in DropEmpty(xs) <==> s != [] && s in xs
  {
    FilterMapMember(xs, Truthy, s);
    if s != [] && s in xs {
      var i :| 0 <= i < |xs| && xs[i] == s;
      assert Truthy(xs[i]) == Some(s);
    }
  }

  /** The trimmed, non-empty form of one line, or None when nothing is left of it. */
  function UsernameOf(line: string): (r: Option<string>)
    ensures r.None? <==> Trim(line) == []
    ensures r.Some? ==> r.value == Trim(line) && r.value != [] && Trimmed(r.value)
  {
    Truthy(Trim(line))
  }

  /** The username list read from the seed file (index.js, lines 102-106). */
  function ParseUsernames(text: string): (r: seq<string>)
    ensures forall k | 0 <= k < |r| :: r[k] != [] && Trimmed(r[k]) && NoNewline(r[k])
    ensures |r| <= multiset(text)['\n'] + 1
  {
    var lines := SplitLines(text);
    ParseAsOneStep(lines);
    SplitLinesCount(text);
    SplitLinesNoNewline(text);
    forall k | 0 <= k < |lines| ensures UsernameOf(lines[k]).Some? ==> ValidUsername(UsernameOf(lines[k]).value) {
      TrimKeepsAbsent(lines[k], '\n');
    }
    FilterMapAll(lines, UsernameOf, ValidUsername);
    DropEmpty(TrimAll(lines))
  }

  predicate ValidUsername(u: string) {
    u != [] && Trimmed(u) && NoNewline(u)
  }

  /** Trimming every line and then dropping the empty ones is the same as keeping each line's non-empty trim. */
  lemma {:induction false} ParseAsOneStep(lines: seq<string>)
    ensures DropEmpty(TrimAll(lines)) == FilterMap(lines, UsernameOf)
  {
    if lines != [] {
      var trimmed := TrimAll(lines);
      ParseAsOneStep(lines[1..]);
      assert trimmed[1..] == TrimAll(lines[1..]);
      calc {
        DropEmpty(trimmed);
        FilterMap(trimmed, Truthy);
        Kept(Truthy(trimmed[0])) + FilterMap(trimmed[1..], Truthy);
        { assert Truthy(trimmed[0]) == UsernameOf(lines[0]); }
        Kept(UsernameOf(lines[0])) + FilterMap(lines[1..], UsernameOf);
        FilterMap(lines, UsernameOf);
      }
    }
  }

  /** The parse in one pass: each line's non-empty trim, in line order. */
  lemma ParseUsernamesIsFilterMap(text: string)
    ensures ParseUsernames(text) == FilterMap(SplitLines(text), UsernameOf)
  {
    ParseAsOneStep(SplitLines(text));
  }

  /** A username is parsed exactly when it is the non-empty trim of some line. */
  lemma ParseUsernamesMember(text: string, u: string)
    ensures u in ParseUsernames(text) <==>
      u != [] && exists k | 0 <= k < |SplitLines(text)| :: Trim(SplitLines(text)[k]) == u
  {
    var lines := SplitLines(text);
    ParseUsernamesIsFilterMap(text);
    FilterMapMember(lines, UsernameOf, u);
    assert forall k | 0 <= k < |lines| :: UsernameOf(lines[k]) == Some(u) <==> (u != [] && Trim(lines[k]) == u);
  }

  /**
   * Parsing keeps the order of the lines: the k-th username is the trim of line
   * idx[k] of the split, and every later username comes from a later line.
   */
  lemma ParseUsernamesOrder(text: string, k: nat)
    requires k < |ParseUsernames(text)|
    ensures |KeptIndices(SplitLines(text), UsernameOf)| == |ParseUsernames(text)|
    ensures KeptIndices(SplitLines(text), UsernameOf)[k] < |SplitLines(text)|
    ensures Trim(SplitLines(text)[KeptIndices(SplitLines(text), UsernameOf)[k]]) == ParseUsernames(text)[k]
    ensures forall l | k < l < |ParseUsernames(text)| ::
      KeptIndices(SplitLines(text), UsernameOf)[k] < KeptIndices(SplitLines(text), UsernameOf)[l]
  {
    var lines := SplitLines(text);
    ParseUsernamesIsFilterMap(text);
    KeptIndicesValues(lines, UsernameOf, k);
    KeptIndicesIncreasing(lines, UsernameOf);
  }

  /** No non-blank line is lost: its position is among the kept ones. */
  lemma ParseUsernamesComplete(text: string, i: nat)
    requires i < |SplitLines(text)| && Trim(SplitLines(text)[i]) != []
    ensures i in KeptIndices(SplitLines(text), UsernameOf)
  {
    KeptIndicesComplete(SplitLines(text), UsernameOf, i);
  }

  /** The usernames of two blocks of lines joined by a newline are those of the first block followed by those of the second. */
  lemma ParseUsernamesConcat(a: string, b: string)
    ensures ParseUsernames(a + "\n" + b) == ParseUsernames(a) + ParseUsernames(b)
  {
    SplitLinesConcat(a, b);
    ParseAsOneStep(SplitLines(a + "\n" + b));
    ParseAsOneStep(SplitLines(a));
    ParseAsOneStep(SplitLines(b));
    FilterMapAppend(SplitLines(a), SplitLines(b), UsernameOf);
  }

  /** A CRLF line "alice\r" yields the username "alice". */
  lemma ParseCrlfLine(u: string)
    requires u != [] && Trimmed(u) && NoNewline(u)
    ensures ParseUsernames(u + "\r") == [u]
  {
    var line := u + "\r";
    SplitJoinLines([line]);
    TrimDropsCarriageReturn(u);
    ParseAsOneStep([line]);
  }
}
