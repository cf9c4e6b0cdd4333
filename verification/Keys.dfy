/** Attribute keys: a dotted key and the path of labels it stands for. */
module Keys {
  import opened Text

  /** A key segment: an all-digit segment is an integer, any other segment a name. */
  datatype Label = Idx(i: nat) | Name(s: string)

  type Path = seq<Label>

  // ---------------------------------------------------------------- decimal numerals

  predicate IsDigit(c: char)
  {
    '0' <= c <= '9'
  }

  predicate AllDigits(s: string)
  {
    s != "" && forall k :: 0 <= k < |s| ==> IsDigit(s[k])
  }

  function ToNat(s: string): nat
    requires forall k :: 0 <= k < |s| ==> IsDigit(s[k])
  {
    if s == "" then 0
    else
      var digit := s[|s| - 1];
      assert IsDigit(digit);
      10 * ToNat(s[..|s| - 1]) + (digit as int - '0' as int)
  }

  function Show(n: nat): string
  {
    if n < 10 then ['0' + n as char] else Show(n / 10) + ['0' + (n % 10) as char]
  }

  lemma {:induction false} ShowReads(n: nat)
    ensures AllDigits(Show(n)) && ToNat(Show(n)) == n
    decreases n
  {
    if n < 10 {
      assert Show(n)[..0] == "";
    } else {
      ShowReads(n / 10);
      assert Show(n)[..|Show(n)| - 1] == Show(n / 10);
    }
  }

  lemma DigitsPlain(s: string)
    requires AllDigits(s)
    ensures Trimmed(s) && '.' !in s
  {
  }

  // ---------------------------------------------------------------- reading a key

  /** `key.partition(".")`, without the separator. */
  function Partition(key: string): (r: (string, string))
    ensures |r.1| <= |key| && (r.1 != "" ==> |r.1| < |key|)
  {
    if key == "" then ("", "")
    else if key[0] == '.' then ("", key[1..])
    else
      var (prefix, suffix) := Partition(key[1..]);
      ([key[0]] + prefix, suffix)
  }

  function LabelOf(segment: string): Label
  {
    var s := Strip(segment);
    if AllDigits(s) then Idx(ToNat(s)) else Name(s)
  }

  function ParseKey(key: string): (p: Path)
    ensures p != []
    decreases |key|
  {
    var (prefix, suffix) := Partition(key);
    if suffix == "" then [LabelOf(prefix)] else [LabelOf(prefix)] + ParseKey(suffix)
  }

  // ---------------------------------------------------------------- writing a key

  function ShowLabel(l: Label): string
  {
    match l
    case Idx(i) => Show(i)
    case Name(s) => s
  }

  /** Extends a dotted prefix by one segment; an empty prefix disappears. */
  function Join(prefix: string, segment: string): string
  {
    if prefix == "" then segment else prefix + "." + segment
  }

  function ShowPath(p: Path): string
  {
    if p == [] then "" else Join(ShowPath(p[..|p| - 1]), ShowLabel(p[|p| - 1]))
  }

  /** A segment as reading produces it, possibly empty. */
  predicate CleanLabel(l: Label)
  {
    l.Name? ==> Trimmed(l.s) && '.' !in l.s && !AllDigits(l.s)
  }

  predicate CleanPath(p: Path)
  {
    forall k :: 0 <= k < |p| ==> CleanLabel(p[k])
  }

  const NO_NAME := Name("")

  /** A segment that reads back as itself wherever it stands. */
  predicate GoodLabel(l: Label)
  {
    CleanLabel(l) && l != NO_NAME
  }

  predicate GoodPath(p: Path)
  {
    forall k :: 0 <= k < |p| ==> GoodLabel(p[k])
  }

  lemma LabelReads(l: Label)
    requires CleanLabel(l)
    ensures '.' !in ShowLabel(l) && LabelOf(ShowLabel(l)) == l && (ShowLabel(l) == "" <==> l == NO_NAME)
  {
    if l.Idx? {
      ShowReads(l.i);
      DigitsPlain(Show(l.i));
    }
    StripTrimmed(ShowLabel(l));
  }

  lemma ShowPathLast(p: Path, l: Label)
    ensures ShowPath(p + [l]) == Join(ShowPath(p), ShowLabel(l))
  {
    assert (p + [l])[..|p|] == p;
  }

  lemma JoinAssociative(a: string, b: string, c: string)
    requires b != ""
    ensures Join(Join(a, b), c) == Join(a, Join(b, c))
  {
    assert a + "." + b + "." + c == a + "." + (b + "." + c);
  }

  /** Writing a longer path joins the written parts. */
  lemma {:induction false} ShowPathJoin(p: Path, q: Path)
    requires GoodPath(q) && q != []
    ensures ShowPath(p + q) == Join(ShowPath(p), ShowPath(q)) && ShowPath(q) != ""
    decreases |q|
  {
    var init, last := q[..|q| - 1], q[|q| - 1];
    LabelReads(last);
    AppendSplit(p, q);
    ShowPathLast(p + init, last);
    if init != [] {
      ShowPathJoin(p, init);
      JoinAssociative(ShowPath(p), ShowPath(init), ShowLabel(last));
    }
  }

  lemma AppendSplit(p: Path, q: Path)
    requires q != []
    ensures p + q == (p + q[..|q| - 1]) + [q[|q| - 1]]
    ensures q[..|q| - 1] == [] ==> p + q[..|q| - 1] == p
  {
  }

  /** The first segment of a written key comes out first again. */
  lemma ShowPathFirst(l: Label, p: Path)
    requires GoodLabel(l) && GoodPath(p)
    ensures ShowPath([l] + p) == if p == [] then ShowLabel(l) else ShowLabel(l) + "." + ShowPath(p)
    ensures p != [] ==> ShowPath(p) != ""
  {
    LabelReads(l);
    ShowPathLast([], l);
    assert [] + [l] == [l];
    if p == [] {
      assert [l] + p == [l];
    } else {
      ShowPathJoin([l], p);
    }
  }

  lemma {:induction false} PartitionJoined(a: string, b: string)
    requires '.' !in a
    ensures Partition(a + "." + b) == (a, b) && Partition(a) == (a, "")
    decreases |a|
  {
    if a == "" {
      assert a + "." + b == "." + b;
    } else {
      PartitionJoined(a[1..], b);
      assert (a + "." + b)[1..] == a[1..] + "." + b;
      assert [a[0]] + a[1..] == a;
    }
  }

  /** Reading undoes writing. */
  lemma {:induction false} ParseShow(p: Path)
    requires GoodPath(p) && p != []
    ensures ParseKey(ShowPath(p)) == p
    decreases |p|
  {
    LabelReads(p[0]);
    assert p == [p[0]] + p[1..];
    ShowPathFirst(p[0], p[1..]);
    PartitionJoined(ShowLabel(p[0]), ShowPath(p[1..]));
    if p[1..] != [] {
      ParseShow(p[1..]);
    }
  }

  // ---------------------------------------------------------------- reading never yields more than clean segments

  lemma {:induction false} StripKeeps(s: string, c: char)
    requires c in Strip(s)
    ensures c in s
    decreases |s|
  {
    if s != "" && IsSpace(s[0]) {
      StripKeeps(s[1..], c);
    } else if s != "" && IsSpace(s[|s| - 1]) {
      assert StripLeft(s[..|s| - 1]) == s[..|s| - 1];
      StripKeeps(s[..|s| - 1], c);
    }
  }

  lemma {:induction false} PartitionStops(key: string)
    ensures '.' !in Partition(key).0
    decreases |key|
  {
    if key != "" && key[0] != '.' {
      PartitionStops(key[1..]);
    }
  }

  lemma {:induction false} ParseKeyClean(key: string)
    ensures CleanPath(ParseKey(key))
    decreases |key|
  {
    var (prefix, suffix) := Partition(key);
    PartitionStops(key);
    StripIsTrimmed(prefix);
    if '.' in Strip(prefix) {
      StripKeeps(prefix, '.');
    }
    assert CleanLabel(LabelOf(prefix));
    if suffix != "" {
      ParseKeyClean(suffix);
    }
  }

  // ---------------------------------------------------------------- which paths print alike

  /** The path without its leading empty segments, which leave no trace in a printed key. */
  function Core(p: Path): (c: Path)
    ensures c != [] ==> c[0] != NO_NAME
  {
    if p != [] && p[0] == NO_NAME then Core(p[1..]) else p
  }

  /** All segments, with a dot between each two. */
  function Dotted(p: Path): string
    requires p != []
  {
    if |p| == 1 then ShowLabel(p[0]) else ShowLabel(p[0]) + "." + Dotted(p[1..])
  }

  lemma {:induction false} CoreLast(p: Path, l: Label)
    ensures Core(p + [l]) == if Core(p) == [] then Core([l]) else Core(p) + [l]
    decreases |p|
  {
    if p == [] {
      assert p + [l] == [l];
    } else if p[0] == NO_NAME {
      assert (p + [l])[1..] == p[1..] + [l];
      CoreLast(p[1..], l);
    }
  }

  lemma {:induction false} CoreClean(p: Path)
    requires CleanPath(p)
    ensures CleanPath(Core(p)) && (GoodPath(p) ==> Core(p) == p)
    decreases |p|
  {
    if p != [] && p[0] == NO_NAME {
      CoreClean(p[1..]);
    }
  }

  lemma {:induction false} DottedLast(p: Path, l: Label)
    requires p != []
    ensures Dotted(p + [l]) == Dotted(p) + "." + ShowLabel(l)
    decreases |p|
  {
    assert (p + [l])[1..] == p[1..] + [l];
    if |p| == 1 {
      assert p[1..] + [l] == [l];
    } else {
      DottedLast(p[1..], l);
      assert ShowLabel(p[0]) + "." + (Dotted(p[1..]) + "." + ShowLabel(l)) == Dotted(p) + "." + ShowLabel(l);
    }
  }

  lemma DottedShows(p: Path)
    requires p != [] && CleanLabel(p[0]) && p[0] != NO_NAME
    ensures Dotted(p) != ""
  {
    LabelReads(p[0]);
  }

  /** A printed key shows what follows the leading empty segments, and shows all of it. */
  lemma {:induction false} ShowPathCore(p: Path)
    requires CleanPath(p)
    ensures ShowPath(p) == if Core(p) == [] then "" else Dotted(Core(p))
    decreases |p|
  {
    if p != [] {
      var u, l := p[..|p| - 1], p[|p| - 1];
      assert p == u + [l];
      ShowPathCore(u);
      CoreLast(u, l);
      if Core(u) != [] {
        CoreClean(u);
        DottedShows(Core(u));
        DottedLast(Core(u), l);
      }
    }
  }

  lemma {:induction false} DottedInjective(p: Path, q: Path)
    requires CleanPath(p) && CleanPath(q) && p != [] && q != [] && Dotted(p) == Dotted(q)
    ensures p == q
    decreases |p|
  {
    FirstOfDotted(p);
    FirstOfDotted(q);
    if |p| > 1 {
      DottedInjective(p[1..], q[1..]);
      assert p == [p[0]] + p[1..] && q == [q[0]] + q[1..];
    }
  }

  /** The first segment and the rest can be told from the printed segments. */
  lemma FirstOfDotted(p: Path)
    requires CleanPath(p) && p != []
    ensures LabelOf(Partition(Dotted(p)).0) == p[0]
    ensures '.' in Dotted(p) <==> |p| > 1
    ensures |p| > 1 ==> Partition(Dotted(p)).1 == Dotted(p[1..])
  {
    LabelReads(p[0]);
    var first, rest := ShowLabel(p[0]), if |p| > 1 then Dotted(p[1..]) else "";
    PartitionJoined(first, rest);
    assert (first + "." + rest)[|first|] == '.';
  }

  /** Two paths print as the same key exactly when they agree after their leading empty segments. */
  lemma PrintAlike(p: Path, q: Path)
    requires CleanPath(p) && CleanPath(q)
    ensures ShowPath(p) == ShowPath(q) <==> Core(p) == Core(q)
  {
    ShowPathCore(p);
    ShowPathCore(q);
    CoreClean(p);
    CoreClean(q);
    if Core(p) != [] {
      DottedShows(Core(p));
    }
    if Core(q) != [] {
      DottedShows(Core(q));
    }
    if Core(p) != [] && Core(q) != [] && ShowPath(p) == ShowPath(q) {
      DottedInjective(Core(p), Core(q));
    }
  }

  lemma ShowInjective(p: Path, q: Path)
    requires GoodPath(p) && GoodPath(q) && ShowPath(p) == ShowPath(q)
    ensures p == q
  {
    PrintAlike(p, q);
    CoreClean(p);
    CoreClean(q);
  }

  /** A key in normal form: no empty segment, no padding, no leading zeros. */
  predicate Normal(key: string)
  {
    GoodPath(ParseKey(key)) && ShowPath(ParseKey(key)) == key
  }

  // ---------------------------------------------------------------- how any key is read

  lemma ParseLone(key: string)
    requires '.' !in key
    ensures ParseKey(key) == [LabelOf(key)]
  {
    PartitionJoined(key, "");
  }

  /** A key is read up to its first dot, and then on. */
  lemma ParseFirst(first: string, rest: string)
    requires '.' !in first && rest != ""
    ensures ParseKey(first + "." + rest) == [LabelOf(first)] + ParseKey(rest)
  {
    PartitionJoined(first, rest);
  }

  /** A key made of these segments. */
  function DotJoined(segments: seq<string>): string
    requires segments != []
  {
    if |segments| == 1 then segments[0] else segments[0] + "." + DotJoined(segments[1..])
  }

  /** An empty segment after the last dot does not count. */
  function Counted(segments: seq<string>): seq<string>
  {
    if |segments| > 1 && segments[|segments| - 1] == "" then segments[..|segments| - 1] else segments
  }

  function LabelsOf(segments: seq<string>): Path
  {
    seq(|segments|, k requires 0 <= k < |segments| => LabelOf(segments[k]))
  }

  lemma CountedMore(first: string, rest: seq<string>)
    requires rest != []
    ensures Counted([first] + rest) == if rest == [""] then [first] else [first] + Counted(rest)
  {
    var all := [first] + rest;
    assert all[..|all| - 1] == [first] + rest[..|rest| - 1];
  }

  lemma LabelsMore(first: string, rest: seq<string>)
    ensures LabelsOf([first] + rest) == [LabelOf(first)] + LabelsOf(rest)
  {
  }

  lemma NoSegments(segments: seq<string>)
    requires segments != []
    ensures DotJoined(segments) == "" <==> segments == [""]
  {
    if |segments| > 1 {
      assert |segments[0] + "." + DotJoined(segments[1..])| > 0;
    }
  }

  /** Every key is read segment by segment. */
  lemma {:induction false} SegmentsRead(segments: seq<string>)
    requires segments != [] && forall k :: 0 <= k < |segments| ==> '.' !in segments[k]
    ensures ParseKey(DotJoined(segments)) == LabelsOf(Counted(segments))
    decreases |segments|
  {
    var first, rest := segments[0], segments[1..];
    assert segments == [first] + rest;
    if |segments| == 1 {
      ParseLone(first);
    } else {
      SegmentsRead(rest);
      NoSegments(rest);
      CountedMore(first, rest);
      if rest == [""] {
        PartitionJoined(first, "");
      } else {
        ParseFirst(first, DotJoined(rest));
        LabelsMore(first, Counted(rest));
      }
    }
  }

  /** Every key has its segments. */
  lemma {:induction false} KeyHasSegments(key: string) returns (segments: seq<string>)
    ensures segments != [] && (forall k :: 0 <= k < |segments| ==> '.' !in segments[k]) && DotJoined(segments) == key
    decreases |key|
  {
    segments := [""];
    if key != "" {
      var rest := KeyHasSegments(key[1..]);
      assert key == [key[0]] + key[1..];
      if key[0] == '.' {
        segments := [""] + rest;
        assert segments[1..] == rest;
      } else {
        segments := [[key[0]] + rest[0]] + rest[1..];
        FirstLonger(key[0], rest);
      }
    }
  }

  lemma FirstLonger(c: char, segments: seq<string>)
    requires segments != []
    ensures DotJoined([[c] + segments[0]] + segments[1..]) == [c] + DotJoined(segments)
  {
    assert ([[c] + segments[0]] + segments[1..])[1..] == segments[1..];
    if |segments| > 1 {
      assert [c] + segments[0] + "." + DotJoined(segments[1..]) == [c] + (segments[0] + "." + DotJoined(segments[1..]));
    }
  }

  /** Spaces around a segment make no difference. */
  lemma PaddedReads(left: string, l: Label, right: string)
    requires CleanLabel(l) && AllSpace(left) && AllSpace(right)
    ensures LabelOf(left + ShowLabel(l) + right) == l
  {
    LabelReads(l);
    if l.Idx? {
      ShowReads(l.i);
      DigitsPlain(Show(l.i));
    }
    StripBetween(left, ShowLabel(l), right);
    StripTrimmed(ShowLabel(l));
  }

  /** Leading zeros make no difference to a number. */
  lemma {:induction false} ZerosRead(zeros: string, n: nat)
    requires forall k :: 0 <= k < |zeros| ==> zeros[k] == '0'
    ensures LabelOf(zeros + Show(n)) == Idx(n)
  {
    ZerosAdd(zeros, n);
    DigitsPlain(zeros + Show(n));
    StripTrimmed(zeros + Show(n));
  }

  lemma {:induction false} ZerosAdd(zeros: string, n: nat)
    requires forall k :: 0 <= k < |zeros| ==> zeros[k] == '0'
    ensures AllDigits(zeros + Show(n)) && ToNat(zeros + Show(n)) == n
    decreases n
  {
    var s := zeros + Show(n);
    ShowReads(n);
    if n < 10 {
      OnlyZeros(zeros);
      assert s[..|s| - 1] == zeros;
    } else {
      ZerosAdd(zeros, n / 10);
      assert s[..|s| - 1] == zeros + Show(n / 10);
    }
  }

  lemma {:induction false} OnlyZeros(zeros: string)
    requires forall k :: 0 <= k < |zeros| ==> zeros[k] == '0'
    ensures ToNat(zeros) == 0
    decreases |zeros|
  {
    if zeros != "" {
      OnlyZeros(zeros[..|zeros| - 1]);
    }
  }
}
