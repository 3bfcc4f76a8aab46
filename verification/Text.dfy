/** The string operations of Python the services rely on: str.strip and str.replace. */
module Text {
  /** str.isspace for one character. */
  predicate IsSpace(c: char) {
    var n := c as int;
    || 0x09 <= n <= 0x0D || 0x1C <= n <= 0x20
    || n == 0x85 || n == 0xA0 || n == 0x1680 || 0x2000 <= n <= 0x200A
    || n == 0x2028 || n == 0x2029 || n == 0x202F || n == 0x205F || n == 0x3000
  }

  function StripLeft(s: string): string {
    if s != [] && IsSpace(s[0]) then StripLeft(s[1..]) else s
  }

  function StripRight(s: string): string {
    if s != [] && IsSpace(s[|s| - 1]) then StripRight(s[..|s| - 1]) else s
  }

  function Strip(s: string): string {
    StripRight(StripLeft(s))
  }

  lemma {:induction false} StripLeftTrims(s: string)
    ensures StripLeft(s) == [] || !IsSpace(StripLeft(s)[0])
  {
    if s != [] && IsSpace(s[0]) {
      StripLeftTrims(s[1..]);
    }
  }

  lemma {:induction false} StripRightTrims(s: string)
    ensures StripRight(s) <= s
    ensures StripRight(s) == [] || !IsSpace(StripRight(s)[|StripRight(s)| - 1])
  {
    if s != [] && IsSpace(s[|s| - 1]) {
      StripRightTrims(s[..|s| - 1]);
    }
  }

  ghost predicate AllSpace(s: string) {
    forall c | c in s :: IsSpace(c)
  }

  lemma {:induction false} StripLeftRemoves(s: string) returns (removed: string)
    ensures s == removed + StripLeft(s) && AllSpace(removed)
  {
    if s != [] && IsSpace(s[0]) {
      var rest := StripLeftRemoves(s[1..]);
      removed := [s[0]] + rest;
      assert s == [s[0]] + s[1..];
    } else {
      removed := [];
    }
  }

  lemma {:induction false} StripRightRemoves(s: string) returns (removed: string)
    ensures s == StripRight(s) + removed && AllSpace(removed)
  {
    if s != [] && IsSpace(s[|s| - 1]) {
      var rest := StripRightRemoves(s[..|s| - 1]);
      removed := rest + [s[|s| - 1]];
      assert s == s[..|s| - 1] + [s[|s| - 1]];
    } else {
      removed := [];
    }
  }

  /** strip takes whitespace off both ends, all of it and nothing else. */
  lemma StripRemoves(s: string) returns (before: string, after: string)
    ensures s == before + Strip(s) + after && AllSpace(before) && AllSpace(after)
    ensures Strip(s) == [] || (!IsSpace(Strip(s)[0]) && !IsSpace(Strip(s)[|Strip(s)| - 1]))
  {
    before := StripLeftRemoves(s);
    after := StripRightRemoves(StripLeft(s));
    StripLeftTrims(s);
    StripRightTrims(StripLeft(s));
  }

  /** Stripping twice is stripping once. */
  lemma StripIdempotent(s: string)
    ensures Strip(Strip(s)) == Strip(s)
  {
    StripLeftTrims(s);
    StripRightTrims(StripLeft(s));
  }

  /** str.replace: every occurrence of `pattern`, left to right, without overlaps. */
  function Replace(s: string, pattern: string, with: string): string
    requires pattern != []
  {
    if |s| < |pattern| then s
    else if pattern <= s then with + Replace(s[|pattern|..], pattern, with)
    else [s[0]] + Replace(s[1..], pattern, with)
  }

  /** Replacing a single character acts on each part of a text separately. */
  lemma {:induction false} ReplaceConcat(a: string, b: string, c: char, with: string)
    ensures Replace(a + b, [c], with) == Replace(a, [c], with) + Replace(b, [c], with)
  {
    if a == [] {
      assert a + b == b;
    } else {
      assert (a + b)[1..] == a[1..] + b;
      ReplaceConcat(a[1..], b, c, with);
      if a[0] == c {
        assert [c] <= a && [c] <= a + b;
      } else {
        assert !([c] <= a) && !([c] <= a + b);
      }
    }
  }

  lemma ReplaceOne(x: char, c: char, with: string)
    ensures Replace([x], [c], with) == if x == c then with else [x]
  {
    assert [x][1..] == [] && [x][..1] == [x];
    if [c] <= [x] {
      assert [c][0] == [x][0];
    }
  }

  /** Replacing a character that does not occur changes nothing. */
  lemma {:induction false} Inert(s: string, c: char, with: string)
    requires c !in s
    ensures Replace(s, [c], with) == s
  {
    if s != [] {
      assert s[0] in s && forall x | x in s[1..] :: x in s;
      Inert(s[1..], c, with);
    }
  }
}
