/** The parts of Go's `strings` package that several components use, on strings of code points. */
module Text {

  /** `unicode.IsSpace`. */
  predicate IsSpace(c: char) {
    var u := c as int;
    (9 <= u <= 13) || u == 0x20 || u == 0x85 || u == 0xA0 || u == 0x1680 || (0x2000 <= u <= 0x200A)
    || u == 0x2028 || u == 0x2029 || u == 0x202F || u == 0x205F || u == 0x3000
  }

  /** `strings.TrimFunc`: drops the longest run of unwanted characters at each end. */
  function Trim(s: string, drop: char -> bool): (t: string)
    ensures t != [] ==> !drop(t[0]) && !drop(t[|t| - 1])
    ensures (forall c :: c in t ==> c in s) && |t| <= |s|
    decreases |s|
  {
    if s == [] then []
    else if drop(s[0]) then Trim(s[1..], drop)
    else if drop(s[|s| - 1]) then Trim(s[..|s| - 1], drop)
    else s
  }

  function TrimSpace(s: string): string {
    Trim(s, IsSpace)
  }

  /** What is trimmed off is unwanted, so the rest of the text stands in place. */
  lemma {:induction false} TrimKeepsRest(s: string, drop: char -> bool, c: char)
    requires c in s && !drop(c)
    ensures c in Trim(s, drop)
    decreases |s|
  {
    if drop(s[0]) {
      TrimKeepsRest(s[1..], drop, c);
    } else if drop(s[|s| - 1]) {
      assert s == s[..|s| - 1] + [s[|s| - 1]];
      TrimKeepsRest(s[..|s| - 1], drop, c);
    }
  }

  lemma TrimTrimmed(s: string, drop: char -> bool)
    requires s != [] ==> !drop(s[0]) && !drop(s[|s| - 1])
    ensures Trim(s, drop) == s
  {
  }

  /** What `TrimSpace` takes away, character by character. */
  lemma SpacesAre(c: char)
    ensures TrimSpace([c]) == if c in " \t\n\r\U{B}\U{C}\U{85}\U{A0}\U{1680}\U{2000}\U{2001}\U{2002}\U{2003}\U{2004}\U{2005}"
                                      + "\U{2006}\U{2007}\U{2008}\U{2009}\U{200A}\U{2028}\U{2029}\U{202F}\U{205F}\U{3000}"
                              then "" else [c]
  {
    assert [c][1..] == "";
  }

  lemma SubSlice(s: string, i: nat, j: nat)
    requires i + j <= |s|
    ensures s[i..][j..] == s[i + j..] && s[i..][..j] == s[i..i + j]
  {
  }

  /** `strings.Join` with a one-character separator. */
  function Join(parts: seq<string>, sep: char): string {
    if parts == [] then ""
    else if |parts| == 1 then parts[0]
    else parts[0] + [sep] + Join(parts[1..], sep)
  }

  /** `strings.Split` with a one-character separator. */
  function Split(s: string, sep: char): (parts: seq<string>)
    ensures parts != []
  {
    if s == [] then [""]
    else
      var rest := Split(s[1..], sep);
      if s[0] == sep then [""] + rest else [[s[0]] + rest[0]] + rest[1..]
  }

  ghost predicate Without(parts: seq<string>, sep: char) {
    forall i :: 0 <= i < |parts| ==> sep !in parts[i]
  }

  lemma {:induction false} SplitAlone(part: string, sep: char)
    requires sep !in part
    ensures Split(part, sep) == [part]
    decreases |part|
  {
    if part != [] {
      SplitAlone(part[1..], sep);
      assert [part[0]] + part[1..] == part;
    }
  }

  lemma {:induction false} SplitPart(part: string, rest: string, sep: char)
    requires sep !in part
    ensures Split(part + [sep] + rest, sep) == [part] + Split(rest, sep)
    decreases |part|
  {
    var whole := part + [sep] + rest;
    if part == [] {
      assert whole[1..] == rest;
    } else {
      SplitPart(part[1..], rest, sep);
      assert whole[1..] == part[1..] + [sep] + rest;
      assert [part[0]] + part[1..] == part;
    }
  }

  /** Parts without the separator come back. */
  lemma {:induction false} SplitInvertsJoin(parts: seq<string>, sep: char)
    requires parts != [] && Without(parts, sep)
    ensures Split(Join(parts, sep), sep) == parts
    decreases |parts|
  {
    if |parts| == 1 {
      SplitAlone(parts[0], sep);
    } else {
      SplitPart(parts[0], Join(parts[1..], sep), sep);
      SplitInvertsJoin(parts[1..], sep);
    }
  }

  lemma {:induction false} JoinConcat(a: seq<string>, b: seq<string>, sep: char)
    requires a != [] && b != []
    ensures Join(a + b, sep) == Join(a, sep) + [sep] + Join(b, sep)
    decreases |a|
  {
    if |a| == 1 {
      assert (a + b)[1..] == b;
    } else {
      JoinConcat(a[1..], b, sep);
      assert (a + b)[1..] == a[1..] + b;
    }
  }

  /** A joined text extends another, separator included, iff its parts extend the other's. */
  lemma JoinExtends(a: seq<string>, b: seq<string>, sep: char)
    requires a != [] && b != [] && Without(a, sep) && Without(b, sep)
    ensures Join(a, sep) + [sep] <= Join(b, sep) <==> a < b
  {
    if a < b {
      var rest := b[|a|..];
      assert b == a + rest;
      JoinConcat(a, rest, sep);
    }
    if Join(a, sep) + [sep] <= Join(b, sep) {
      var rest := Join(b, sep)[|Join(a, sep)| + 1..];
      assert Join(b, sep) == Join(a, sep) + [sep] + rest;
      SplitJoined(a, rest, sep);
      SplitInvertsJoin(b, sep);
      assert a < b;
    }
  }

  lemma RegroupJoined(a: string, sep: string, b: string, c: string)
    ensures (a + sep + b) + sep + c == a + sep + (b + sep + c)
  {
  }

  lemma Prepend(a: seq<string>, b: seq<string>)
    requires a != []
    ensures [a[0]] + (a[1..] + b) == a + b
  {
  }

  lemma {:induction false} SplitJoined(a: seq<string>, rest: string, sep: char)
    requires a != [] && Without(a, sep)
    ensures Split(Join(a, sep) + [sep] + rest, sep) == a + Split(rest, sep)
    decreases |a|
  {
    if |a| == 1 {
      SplitPart(a[0], rest, sep);
    } else {
      var joined := Join(a[1..], sep);
      assert Join(a, sep) == a[0] + [sep] + joined;
      hide Split, Join;
      SplitJoined(a[1..], rest, sep);
      RegroupJoined(a[0], [sep], joined, rest);
      SplitPart(a[0], joined + [sep] + rest, sep);
      Prepend(a, Split(rest, sep));
    }
  }

  /** Joining the parts of a text gives it back; and no part holds the separator. */
  lemma {:induction false} JoinInvertsSplit(s: string, sep: char)
    ensures Join(Split(s, sep), sep) == s && Without(Split(s, sep), sep)
    decreases |s|
  {
    if s != [] {
      var rest := Split(s[1..], sep);
      JoinInvertsSplit(s[1..], sep);
      assert s == [s[0]] + s[1..];
      if s[0] == sep {
        assert ([""] + rest)[1..] == rest;
      } else {
        var parts := [[s[0]] + rest[0]] + rest[1..];
        assert parts[1..] == rest[1..];
      }
    }
  }

  /** The parts of two texts with a separator between are the parts of each. */
  lemma SplitConcat(a: string, b: string, sep: char)
    ensures Split(a + [sep] + b, sep) == Split(a, sep) + Split(b, sep)
  {
    JoinInvertsSplit(a, sep);
    SplitJoined(Split(a, sep), b, sep);
  }
}
