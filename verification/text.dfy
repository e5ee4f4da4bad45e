/** Trimming, cutting and joining text; letters and blanks are those of ASCII. */
module Text {
  predicate IsBlank(c: char) {
    c == ' ' || '\t' <= c <= '\r'
  }

  function Lower(c: char): char {
    if 'A' <= c <= 'Z' then (c as int + 32) as char else c
  }

  function Upper(c: char): char {
    if 'a' <= c <= 'z' then (c as int - 32) as char else c
  }

  function Mapped(s: string, f: char -> char): string {
    seq(|s|, i requires 0 <= i < |s| => f(s[i]))
  }

  function TrimLeft(s: string): string {
    if s != "" && IsBlank(s[0]) then TrimLeft(s[1..]) else s
  }

  function TrimRight(s: string): string {
    if s != "" && IsBlank(s[|s| - 1]) then TrimRight(s[..|s| - 1]) else s
  }

  /** What precedes the first `c`, or everything. */
  function Before(s: string, c: char): string {
    if s == "" || s[0] == c then "" else [s[0]] + Before(s[1..], c)
  }

  predicate StartsWith(s: string, p: string) {
    |p| <= |s| && s[..|p|] == p
  }

  function Trim(s: string): string {
    TrimRight(TrimLeft(s))
  }

  /** What follows the first `c`, or nothing. */
  function After(s: string, c: char): string {
    if s == "" then "" else if s[0] == c then s[1..] else After(s[1..], c)
  }

  lemma {:induction false} AfterShorter(s: string, c: char)
    requires c in s
    ensures |After(s, c)| < |s|
  {
    if s[0] != c {
      AfterShorter(s[1..], c);
    }
  }

  /** What precedes the first `c`, `c`, and what follows it. */
  lemma {:induction false} CutAt(s: string, c: char)
    ensures c in s ==> s == Before(s, c) + [c] + After(s, c)
  {
    if c in s && s[0] != c {
      CutAt(s[1..], c);
      assert s == [s[0]] + s[1..];
    } else if c in s {
      assert s == [c] + s[1..];
    }
  }

  lemma {:induction false} BeforeKeeps(s: string, c: char)
    ensures c !in Before(s, c) && |Before(s, c)| <= |s| && Before(s, c) == s[..|Before(s, c)|]
    ensures c !in s ==> Before(s, c) == s
  {
    if s != "" && s[0] != c {
      BeforeKeeps(s[1..], c);
      assert s == [s[0]] + s[1..];
    }
  }

  lemma {:induction false} TrimLeftKeeps(s: string)
    ensures var r := TrimLeft(s);
            && |r| <= |s| && r == s[|s| - |r|..] && (r != "" ==> !IsBlank(r[0]))
  {
    if s != "" && IsBlank(s[0]) {
      TrimLeftKeeps(s[1..]);
    }
  }

  lemma {:induction false} TrimRightKeeps(s: string)
    ensures var r := TrimRight(s);
            && |r| <= |s| && r == s[..|r|] && (r != "" ==> !IsBlank(r[|r| - 1]))
            && (s != "" && !IsBlank(s[|s| - 1]) ==> r == s)
            && (s != "" && !IsBlank(s[0]) ==> r != "" && r[0] == s[0])
  {
    if s != "" && IsBlank(s[|s| - 1]) {
      TrimRightKeeps(s[..|s| - 1]);
    }
  }

  lemma LowerTwice(s: string)
    ensures Mapped(Mapped(s, Lower), Lower) == Mapped(s, Lower)
    ensures forall i :: 0 <= i < |s| ==> IsBlank(Mapped(s, Lower)[i]) == IsBlank(s[i])
  {
    forall i | 0 <= i < |s|
      ensures Mapped(Mapped(s, Lower), Lower)[i] == Mapped(s, Lower)[i]
      ensures IsBlank(Mapped(s, Lower)[i]) == IsBlank(s[i])
    {
      LowerChar(s[i]);
    }
  }

  lemma LowerChar(c: char)
    ensures Lower(Lower(c)) == Lower(c) && IsBlank(Lower(c)) == IsBlank(c)
  {
    if 'A' <= c <= 'Z' {
      var d := (c as int + 32) as char;
      assert 'a' <= d <= 'z';
    }
  }

  lemma UpperTwice(s: string)
    ensures Mapped(Mapped(s, Upper), Upper) == Mapped(s, Upper)
  {
    forall i | 0 <= i < |s| ensures Upper(Upper(s[i])) == Upper(s[i]) {
      if 'a' <= s[i] <= 'z' {
        var d := (s[i] as int - 32) as char;
        assert 'A' <= d <= 'Z';
      }
    }
  }

  lemma TrimPlain(s: string)
    requires s == "" || (!IsBlank(s[0]) && !IsBlank(s[|s| - 1]))
    ensures Trim(s) == s
  {}

  lemma {:induction false} SplitAtFirst(a: string, c: char, b: string)
    requires c !in a
    ensures Before(a + [c] + b, c) == a && After(a + [c] + b, c) == b
  {
    var s := a + [c] + b;
    if a == "" {
      assert s == [c] + b;
    } else {
      assert s[0] == a[0] && s[1..] == a[1..] + [c] + b && a == [a[0]] + a[1..];
      SplitAtFirst(a[1..], c, b);
    }
  }

  /** Text up to the first separator can be read back. */
  lemma SplitOnce(p: string, q: string, p': string, q': string, sep: char)
    requires sep !in p && sep !in p' && p + [sep] + q == p' + [sep] + q'
    ensures p == p' && q == q'
  {
    var x := p + [sep] + q;
    assert x[|p|] == sep && x[|p'|] == sep;
    assert forall i :: 0 <= i < |p| ==> x[i] == p[i];
    assert forall i :: 0 <= i < |p'| ==> x[i] == p'[i];
    assert |p| == |p'|;
    assert p == x[..|p|] && p' == x[..|p|];
    assert q == x[|p| + 1..] && q' == x[|p| + 1..];
  }

  predicate Blank(s: string) {
    forall i :: 0 <= i < |s| ==> IsBlank(s[i])
  }

  /** Text that neither begins nor ends with a blank. */
  predicate Solid(s: string) {
    s != "" && !IsBlank(s[0]) && !IsBlank(s[|s| - 1])
  }

  /** Blanks around a text, and nothing else, are trimmed. */
  lemma {:induction false} TrimsBlanks(left: string, s: string, right: string)
    requires Blank(left) && Solid(s) && Blank(right)
    ensures Trim(left + s + right) == s
    decreases |left| + |right|
  {
    if left != "" {
      var whole := left + s + right;
      assert left == [left[0]] + left[1..];
      assert whole[1..] == left[1..] + s + right && whole[0] == left[0];
      TrimsBlanks(left[1..], s, right);
    } else {
      var whole := s + right;
      assert "" + s + right == whole;
      TrimsRight(s, right);
      assert TrimLeft(whole) == whole;
    }
  }

  lemma {:induction false} TrimsRight(s: string, right: string)
    requires Solid(s) && Blank(right)
    ensures TrimRight(s + right) == s
    decreases |right|
  {
    if right == "" {
      assert s + right == s;
    } else {
      var whole := s + right;
      assert whole[|whole| - 1] == right[|right| - 1];
      assert whole[..|whole| - 1] == s + right[..|right| - 1];
      TrimsRight(s, right[..|right| - 1]);
    }
  }

  /** The letters, and nothing else, change their case. */
  lemma Letters(c: char)
    ensures 'A' <= c <= 'Z' ==> Lower(c) as int - 'a' as int == c as int - 'A' as int && Upper(c) == c
    ensures 'a' <= c <= 'z' ==> Upper(c) as int - 'A' as int == c as int - 'a' as int && Lower(c) == c
    ensures !('A' <= c <= 'Z') && !('a' <= c <= 'z') ==> Lower(c) == c && Upper(c) == c
  {}
}
