/** The string operations the attribute keys and session ids go through. */
module Text {
  /** The characters `str.strip` removes. */
  predicate IsSpace(c: char)
  {
    || '\U{0009}' <= c <= '\U{000D}' || '\U{001C}' <= c <= '\U{0020}'
    || c == '\U{0085}' || c == '\U{00A0}' || c == '\U{1680}' || '\U{2000}' <= c <= '\U{200A}'
    || c == '\U{2028}' || c == '\U{2029}' || c == '\U{202F}' || c == '\U{205F}' || c == '\U{3000}'
  }

  function StripLeft(s: string): string
  {
    if s != "" && IsSpace(s[0]) then StripLeft(s[1..]) else s
  }

  function StripRight(s: string): string
  {
    if s != "" && IsSpace(s[|s| - 1]) then StripRight(s[..|s| - 1]) else s
  }

  function Strip(s: string): string
  {
    StripRight(StripLeft(s))
  }

  /** Nothing left to strip at either end. */
  predicate Trimmed(s: string)
  {
    s != "" ==> !IsSpace(s[0]) && !IsSpace(s[|s| - 1])
  }

  lemma {:induction false} StripRightKeepsFirst(s: string)
    requires s == "" || !IsSpace(s[0])
    ensures Trimmed(StripRight(s))
    decreases |s|
  {
    if s != "" && IsSpace(s[|s| - 1]) {
      StripRightKeepsFirst(s[..|s| - 1]);
    }
  }

  /** What is left after stripping has nothing more to strip. */
  lemma {:induction false} StripIsTrimmed(s: string)
    ensures Trimmed(Strip(s)) && Strip(Strip(s)) == Strip(s)
    decreases |s|
  {
    if s != "" && IsSpace(s[0]) {
      StripIsTrimmed(s[1..]);
    } else {
      StripRightKeepsFirst(s);
    }
    StripTrimmed(Strip(s));
  }

  lemma StripTrimmed(s: string)
    requires Trimmed(s)
    ensures Strip(s) == s
  {
  }

  predicate AllSpace(s: string)
  {
    forall k :: 0 <= k < |s| ==> IsSpace(s[k])
  }

  lemma {:induction false} StripLeftParts(s: string) returns (left: string)
    ensures s == left + StripLeft(s) && AllSpace(left) && (StripLeft(s) != "" ==> !IsSpace(StripLeft(s)[0]))
    decreases |s|
  {
    left := "";
    if s != "" && IsSpace(s[0]) {
      var rest := StripLeftParts(s[1..]);
      left := [s[0]] + rest;
      assert s == [s[0]] + s[1..];
    }
  }

  lemma {:induction false} StripRightParts(s: string) returns (right: string)
    ensures s == StripRight(s) + right && AllSpace(right)
    decreases |s|
  {
    right := "";
    if s != "" && IsSpace(s[|s| - 1]) {
      var rest := StripRightParts(s[..|s| - 1]);
      right := rest + [s[|s| - 1]];
      assert s == s[..|s| - 1] + [s[|s| - 1]];
    }
  }

  /** Stripping removes spaces at both ends, and all of them. */
  lemma {:induction false} StripParts(s: string) returns (left: string, right: string)
    ensures s == left + Strip(s) + right && AllSpace(left) && AllSpace(right) && Trimmed(Strip(s))
  {
    left := StripLeftParts(s);
    right := StripRightParts(StripLeft(s));
    StripIsTrimmed(s);
  }

  lemma {:induction false} StripRightSpaces(s: string, right: string)
    requires AllSpace(right) && (s != "" ==> !IsSpace(s[|s| - 1]))
    ensures StripRight(s + right) == s
    decreases |right|
  {
    if right == "" {
      assert s + right == s;
    } else {
      assert (s + right)[..|s + right| - 1] == s + right[..|right| - 1];
      StripRightSpaces(s, right[..|right| - 1]);
    }
  }

  lemma {:induction false} StripLeftSpaces(left: string, s: string)
    requires AllSpace(left) && (s != "" ==> !IsSpace(s[0]))
    ensures StripLeft(left + s) == s
    decreases |left|
  {
    if left == "" {
      assert left + s == s;
    } else {
      assert (left + s)[1..] == left[1..] + s;
      StripLeftSpaces(left[1..], s);
    }
  }

  /** Text between spaces is what stripping leaves. */
  lemma {:induction false} StripBetween(left: string, s: string, right: string)
    requires AllSpace(left) && AllSpace(right) && Trimmed(s)
    ensures Strip(left + s + right) == s
  {
    if s == "" {
      assert AllSpace(left + right) && left + s + right == left + right + "";
      StripLeftSpaces(left + right, "");
    } else {
      assert left + s + right == left + (s + right);
      StripLeftSpaces(left, s + right);
      StripRightSpaces(s, right);
    }
  }
}
