/** The string primitives the pages rely on: JavaScript's `trim`, an ASCII
    `toLowerCase`, `startsWith`, `Array.prototype.join` and `split` on one
    character. Strings are sequences of Unicode scalar values. */
module Text {

  /** The code points JavaScript's `String.prototype.trim` removes: the
      WhiteSpace and LineTerminator productions of ECMA-262 (sections 12.2
      and 12.3), with the Unicode `Zs` category written out. */
  predicate IsSpace(c: char) {
    || c == '\t' || c == '\n' || c == '\U{0B}' || c == '\U{0C}' || c == '\r'
    || c == ' ' || c == '\U{A0}' || c == '\U{1680}'
    || ('\U{2000}' <= c <= '\U{200A}')
    || c == '\U{2028}' || c == '\U{2029}' || c == '\U{202F}' || c == '\U{205F}'
    || c == '\U{3000}' || c == '\U{FEFF}'
  }

  /** A string made of whitespace only (the empty string included). */
  predicate Blank(s: string) {
    forall i :: 0 <= i < |s| ==> IsSpace(s[i])
  }

  /** A string with no whitespace at either end. */
  predicate Trimmed(s: string) {
    s == [] || (!IsSpace(s[0]) && !IsSpace(s[|s| - 1]))
  }

  /** Drops leading whitespace: what is removed is all whitespace, and what
      is left starts with a non-space. */
  function TrimStart(s: string): (r: string)
    ensures |r| <= |s| && r == s[|s| - |r|..]
    ensures forall i :: 0 <= i < |s| - |r| ==> IsSpace(s[i])
    ensures r != [] ==> !IsSpace(r[0])
  {
    if |s| > 0 && IsSpace(s[0]) then TrimStart(s[1..]) else s
  }

  /** Drops trailing whitespace: what is removed is all whitespace, and
      what is left ends with a non-space. */
  function TrimEnd(s: string): (r: string)
    ensures |r| <= |s| && r == s[..|r|]
    ensures forall i :: |r| <= i < |s| ==> IsSpace(s[i])
    ensures r != [] ==> !IsSpace(r[|r| - 1])
  {
    if |s| > 0 && IsSpace(s[|s| - 1]) then TrimEnd(s[..|s| - 1]) else s
  }

  /** JavaScript's `s.trim()`. TrimKeepsMiddle and TrimDropsOnlyBlanks
      below state exactly what it keeps and what it drops. */
  function Trim(s: string): (r: string)
    ensures Trimmed(r)
    ensures r == [] <==> Blank(s)
  {
    TrimIsTrimmed(s);
    TrimEmptyIffBlank(s);
    TrimEnd(TrimStart(s))
  }

  /** Trimming keeps the middle of the input: with `a` the length of the
      leading whitespace, the trim is `s[a..]` cut short, character by
      character. */
  lemma TrimKeepsMiddle(s: string)
    ensures |Trim(s)| <= |TrimStart(s)|
    ensures forall i :: 0 <= i < |Trim(s)| ==> Trim(s)[i] == s[|s| - |TrimStart(s)| + i]
  {
    var t := TrimStart(s);
    var r := TrimEnd(t);
    assert Trim(s) == r;
    MiddlePointwise(s, t, r);
  }

  /** What trimming removes is whitespace, at the start and at the end.
      With TrimKeepsMiddle and `Trimmed(Trim(s))` this pins the result
      down completely. */
  lemma TrimDropsOnlyBlanks(s: string)
    ensures |Trim(s)| <= |TrimStart(s)|
    ensures forall i :: 0 <= i < |s| - |TrimStart(s)| ==> IsSpace(s[i])
    ensures forall i :: |s| - |TrimStart(s)| + |Trim(s)| <= i < |s| ==> IsSpace(s[i])
  {
    var t := TrimStart(s);
    var r := TrimEnd(t);
    assert Trim(s) == r;
    TrimTailBlank(s, t, r);
  }

  lemma MiddlePointwise(s: string, t: string, r: string)
    requires |t| <= |s| && t == s[|s| - |t|..]
    requires |r| <= |t| && r == t[..|r|]
    ensures forall i :: 0 <= i < |r| ==> r[i] == s[|s| - |t| + i]
  {
  }

  lemma TrimTailBlank(s: string, t: string, r: string)
    requires |t| <= |s| && t == s[|s| - |t|..]
    requires |r| <= |t| && forall i :: |r| <= i < |t| ==> IsSpace(t[i])
    ensures forall i :: |s| - |t| + |r| <= i < |s| ==> IsSpace(s[i])
  {
    var a := |s| - |t|;
    forall i | a + |r| <= i < |s|
      ensures IsSpace(s[i])
    {
      assert s[i] == t[i - a];
    }
  }

  /** The trim has no whitespace at either end. */
  lemma TrimIsTrimmed(s: string)
    ensures Trimmed(TrimEnd(TrimStart(s)))
  {
    var t := TrimStart(s);
    var r := TrimEnd(t);
    assert r != [] ==> r[0] == t[0];
  }

  /** Trimming leaves nothing exactly when the input is all whitespace. */
  lemma TrimEmptyIffBlank(s: string)
    ensures TrimEnd(TrimStart(s)) == [] <==> Blank(s)
  {
    var t := TrimStart(s);
    var r := TrimEnd(t);
    if t != [] {
      assert t[0] == s[|s| - |t|];
    }
  }

  /** Trimming does nothing to a string that is already trimmed. */
  lemma {:induction false} TrimOfTrimmed(s: string)
    requires Trimmed(s)
    ensures Trim(s) == s
  {
    assert TrimStart(s) == s;
    assert TrimEnd(s) == s;
  }

  /** Trimming twice is trimming once. */
  lemma TrimIdempotent(s: string)
    ensures Trim(Trim(s)) == Trim(s)
  {
    TrimOfTrimmed(Trim(s));
  }

  /** ASCII `toLowerCase` of one character. */
  function LowerChar(c: char): char {
    if 'A' <= c <= 'Z' then (c as int + 32) as char else c
  }

  /** ASCII `toLowerCase` of a string. */
  function ToLower(s: string): (r: string)
    ensures |r| == |s|
    ensures forall i :: 0 <= i < |s| ==> r[i] == LowerChar(s[i])
  {
    seq(|s|, i requires 0 <= i < |s| => LowerChar(s[i]))
  }

  /** Lower-casing twice is lower-casing once. */
  lemma ToLowerIdempotent(s: string)
    ensures ToLower(ToLower(s)) == ToLower(s)
  {
    forall i | 0 <= i < |s|
      ensures ToLower(ToLower(s))[i] == ToLower(s)[i]
    {
      var c := s[i];
      assert ToLower(s)[i] == LowerChar(c);
      if 'A' <= c <= 'Z' {
        assert 'a' <= LowerChar(c) <= 'z';
      }
    }
  }

  /** Lower-casing leaves whitespace and non-whitespace as they are. */
  lemma LowerCharKeepsSpace(c: char)
    ensures IsSpace(LowerChar(c)) <==> IsSpace(c)
  {
    if 'A' <= c <= 'Z' {
      assert 'a' <= LowerChar(c) <= 'z';
    }
  }

  lemma {:induction false} TrimStartLower(s: string)
    ensures TrimStart(ToLower(s)) == ToLower(TrimStart(s))
    decreases |s|
  {
    if |s| > 0 {
      LowerCharKeepsSpace(s[0]);
      assert ToLower(s)[0] == LowerChar(s[0]);
      if IsSpace(s[0]) {
        assert ToLower(s)[1..] == ToLower(s[1..]);
        TrimStartLower(s[1..]);
      }
    }
  }

  lemma {:induction false} TrimEndLower(s: string)
    ensures TrimEnd(ToLower(s)) == ToLower(TrimEnd(s))
    decreases |s|
  {
    if |s| > 0 {
      LowerCharKeepsSpace(s[|s| - 1]);
      assert ToLower(s)[|s| - 1] == LowerChar(s[|s| - 1]);
      if IsSpace(s[|s| - 1]) {
        assert ToLower(s)[..|s| - 1] == ToLower(s[..|s| - 1]);
        TrimEndLower(s[..|s| - 1]);
      }
    }
  }

  /** Trimming and ASCII lower-casing commute. */
  lemma TrimLower(s: string)
    ensures Trim(ToLower(s)) == ToLower(Trim(s))
  {
    TrimStartLower(s);
    TrimEndLower(TrimStart(s));
  }

  /** Trimming the start first does not change the trim. */
  lemma TrimAfterTrimStart(s: string)
    ensures Trim(TrimStart(s)) == Trim(s)
  {
    var t := TrimStart(s);
    assert TrimStart(t) == t;
  }

  /** `s.startsWith(p)`. */
  predicate StartsWith(s: string, p: string) {
    |p| <= |s| && s[..|p|] == p
  }

  /** `parts.join(sep)`: the empty list joins to "", one part to itself. */
  function Join(parts: seq<string>, sep: string): string {
    if |parts| == 0 then ""
    else if |parts| == 1 then parts[0]
    else parts[0] + sep + Join(parts[1..], sep)
  }

  /** A join whose last part is non-empty ends with that part's last
      character, whatever comes before. */
  lemma {:induction false} JoinEndsWithLast(parts: seq<string>, sep: string)
    requires |parts| >= 1 && parts[|parts| - 1] != ""
    ensures var j := Join(parts, sep);
      j != "" && j[|j| - 1] == parts[|parts| - 1][|parts[|parts| - 1]| - 1]
  {
    if |parts| > 1 {
      JoinEndsWithLast(parts[1..], sep);
    }
  }

  /** A join whose first and last parts are non-empty starts with the first
      part's first character and ends with the last part's last character;
      the parts in between may be empty. */
  lemma JoinEnds(parts: seq<string>, sep: string)
    requires |parts| >= 1 && parts[0] != "" && parts[|parts| - 1] != ""
    ensures var j := Join(parts, sep);
      j != "" && j[0] == parts[0][0] && j[|j| - 1] == parts[|parts| - 1][|parts[|parts| - 1]| - 1]
  {
    JoinEndsWithLast(parts, sep);
  }

  /** Joining parts whose first and last are non-empty and trimmed gives a
      non-empty trimmed string, whatever the separator and whatever lies
      between. */
  lemma JoinOfTrimmed(parts: seq<string>, sep: string)
    requires |parts| >= 1
    requires parts[0] != "" && Trimmed(parts[0])
    requires parts[|parts| - 1] != "" && Trimmed(parts[|parts| - 1])
    ensures Join(parts, sep) != "" && Trimmed(Join(parts, sep))
  {
    JoinEnds(parts, sep);
  }

  /** A concatenation is blank exactly when both halves are. */
  lemma BlankConcat(a: string, b: string)
    ensures Blank(a + b) <==> Blank(a) && Blank(b)
  {
    var ab := a + b;
    assert forall i :: 0 <= i < |a| ==> ab[i] == a[i];
    assert forall i :: 0 <= i < |b| ==> ab[|a| + i] == b[i];
    if Blank(a) && Blank(b) {
      forall i | 0 <= i < |ab|
        ensures IsSpace(ab[i])
      {
        if i >= |a| {
          assert ab[i] == b[i - |a|];
        }
      }
    }
  }

  /** Joining with a blank separator is blank exactly when every part is. */
  lemma {:induction false} BlankJoin(parts: seq<string>, sep: string)
    requires Blank(sep)
    ensures Blank(Join(parts, sep)) <==> forall k :: 0 <= k < |parts| ==> Blank(parts[k])
  {
    if |parts| > 1 {
      BlankJoin(parts[1..], sep);
      BlankConcat(parts[0] + sep, Join(parts[1..], sep));
      BlankConcat(parts[0], sep);
      if forall k :: 1 <= k < |parts| ==> Blank(parts[k]) {
        assert forall k :: 0 <= k < |parts[1..]| ==> Blank(parts[1..][k]);
      }
    }
  }

  /** A trimmed string is blank only when it is empty. */
  lemma BlankTrimmed(t: string)
    requires Trimmed(t)
    ensures Blank(t) <==> t == ""
  {
  }

  /** A character found neither in the separator nor in any part is not in
      the join. */
  lemma {:induction false} JoinExcludes(parts: seq<string>, sep: string, c: char)
    requires c !in sep
    requires forall k :: 0 <= k < |parts| ==> c !in parts[k]
    ensures c !in Join(parts, sep)
  {
    if |parts| > 1 {
      JoinExcludes(parts[1..], sep, c);
    }
  }

  /** Joining non-empty parts free of `c` with `c` never puts two `c` side
      by side: the result has no empty piece between separators. */
  lemma {:induction false} JoinNoDoubleSeparator(parts: seq<string>, c: char)
    requires forall k :: 0 <= k < |parts| ==> parts[k] != "" && c !in parts[k]
    ensures var j := Join(parts, [c]);
      forall i :: 0 <= i < |j| - 1 ==> !(j[i] == c && j[i + 1] == c)
  {
    if |parts| > 1 {
      var rest := Join(parts[1..], [c]);
      JoinNoDoubleSeparator(parts[1..], c);
      JoinEnds(parts[1..], [c]);
      var j := Join(parts, [c]);
      var n := |parts[0]|;
      assert j == parts[0] + [c] + rest;
      forall i | 0 <= i < |j| - 1
        ensures !(j[i] == c && j[i + 1] == c)
      {
        if i < n {
          assert j[i] == parts[0][i];
        } else if i > n {
          assert j[i] == rest[i - n - 1] && j[i + 1] == rest[i - n];
        } else {
          assert j[i + 1] == rest[0];
        }
      }
    }
  }

  /** `s.split(c)` for one separator character: always at least one piece,
      and no piece contains the separator. */
  function Split(s: string, c: char): (r: seq<string>)
    ensures |r| >= 1
    ensures forall k :: 0 <= k < |r| ==> c !in r[k]
  {
    if |s| == 0 then [""]
    else
      var rest := Split(s[1..], c);
      if s[0] == c then [""] + rest
      else [[s[0]] + rest[0]] + rest[1..]
  }

  /** A string free of the separator splits into itself. */
  lemma {:induction false} SplitWithout(s: string, c: char)
    requires c !in s
    ensures Split(s, c) == [s]
  {
    if |s| > 0 {
      SplitWithout(s[1..], c);
      assert [s[0]] + s[1..] == s;
    }
  }

  /** Splitting `a + [c] + b` at `c`, where `a` is free of `c`, yields `a`
      followed by the pieces of `b`. */
  lemma {:induction false} SplitAtFirst(a: string, c: char, b: string)
    requires c !in a
    ensures Split(a + [c] + b, c) == [a] + Split(b, c)
  {
    if |a| == 0 {
      assert a + [c] + b == [c] + b;
      assert ([c] + b)[1..] == b;
    } else {
      var s := a + [c] + b;
      assert s[1..] == a[1..] + [c] + b;
      SplitAtFirst(a[1..], c, b);
      assert [a[0]] + a[1..] == a;
    }
  }

  /** Joining with a one-character separator and splitting at it again
      gives back the pieces, as long as no piece holds the separator. */
  lemma {:induction false} SplitJoin(parts: seq<string>, c: char)
    requires |parts| >= 1
    requires forall k :: 0 <= k < |parts| ==> c !in parts[k]
    ensures Split(Join(parts, [c]), c) == parts
  {
    if |parts| == 1 {
      SplitWithout(parts[0], c);
    } else {
      SplitJoin(parts[1..], c);
      SplitAtFirst(parts[0], c, Join(parts[1..], [c]));
      assert [parts[0]] + parts[1..] == parts;
    }
  }
}
