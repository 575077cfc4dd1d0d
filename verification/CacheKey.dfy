/** Tenant cache keys (internal/core/cache/key.go).

    `lower` is what `strings.ToLower` does to one character; nothing but the lemmas that say so depends on it. */
module CacheKey {
  import opened Digits
  import opened Text
  import opened Wrappers

  const DEFAULT_PREFIX := "zyad"
  const SEPARATOR := ':'

  // ---------- canonical segments ----------

  function Plain(c: char): char {
    if c == ':' || c == ' ' || c == '/' || c == '\\' then '_' else c
  }

  function Lowered(s: string, lower: char -> char): string {
    seq(|s|, i requires 0 <= i < |s| => Plain(lower(s[i])))
  }

  predicate PairAt(s: string, i: nat) {
    i + 1 < |s| && s[i] == '_' && s[i + 1] == '_'
  }

  /** `strings.ReplaceAll(s, "__", "_")`. */
  function ReplacePairs(s: string): (t: string)
    ensures |t| <= |s| && (t == [] <==> s == [])
    ensures (exists i :: PairAt(s, i)) ==> |t| < |s|
  {
    if s == [] then []
    else if PairAt(s, 0) then "_" + ReplacePairs(s[2..])
    else
      assert forall i :: i > 0 && PairAt(s, i) ==> PairAt(s[1..], i - 1);
      [s[0]] + ReplacePairs(s[1..])
  }

  /** `strings.Contains(s, "__")`. */
  predicate HasPair(s: string) {
    exists i :: 0 <= i < |s| && PairAt(s, i)
  }

  /** What the loop leaves: every underscore that follows one is dropped. */
  function Squeeze(s: string): string {
    if s == [] then []
    else if PairAt(s, 0) then Squeeze(s[1..])
    else [s[0]] + Squeeze(s[1..])
  }

  predicate IsUnderscore(c: char) {
    c == '_'
  }

  function CanonicalSegment(value: string, lower: char -> char): string {
    Trim(Squeeze(Lowered(TrimSpace(value), lower)), IsUnderscore)
  }

  lemma {:induction false} SqueezeUnderscores(s: string)
    requires s != [] && s[0] == '_'
    ensures Squeeze("_" + s) == Squeeze(s)
    ensures Squeeze(s) != [] && Squeeze(s)[0] == '_'
    decreases |s|
  {
    assert ("_" + s)[1..] == s;
    if PairAt(s, 0) {
      SqueezeUnderscores(s[1..]);
    }
  }

  /** Squeezing sees only whether what follows begins with an underscore. */
  lemma SqueezeHead(c: char, s: string, t: string)
    requires Squeeze(s) == Squeeze(t) && (s == [] <==> t == []) && (s != [] ==> s[0] == t[0])
    ensures Squeeze([c] + s) == Squeeze([c] + t)
  {
    assert ([c] + s)[1..] == s && ([c] + t)[1..] == t;
  }

  /** One round of replacing changes nothing that squeezing sees. */
  lemma {:induction false} SqueezeReplaced(s: string)
    ensures Squeeze(ReplacePairs(s)) == Squeeze(s)
    ensures s != [] ==> ReplacePairs(s)[0] == s[0]
    decreases |s|
  {
    if s != [] {
      if PairAt(s, 0) {
        SqueezeReplaced(s[2..]);
        SqueezeHead('_', ReplacePairs(s[2..]), s[2..]);
        assert s[1..] == "_" + s[2..];
        assert s[1..][1..] == s[2..];
      } else {
        SqueezeReplaced(s[1..]);
        SqueezeHead(s[0], ReplacePairs(s[1..]), s[1..]);
        assert s == [s[0]] + s[1..];
      }
    }
  }

  lemma {:induction false} SqueezeKeepsSqueezed(s: string)
    requires !HasPair(s)
    ensures Squeeze(s) == s
    decreases |s|
  {
    if s != [] {
      forall i | 0 <= i < |s[1..]| && PairAt(s[1..], i) ensures false {
        assert PairAt(s, i + 1);
      }
      SqueezeKeepsSqueezed(s[1..]);
    }
  }

  lemma {:induction false} SqueezedHasNoPair(s: string)
    ensures !HasPair(Squeeze(s))
    ensures s != [] ==> Squeeze(s) != [] && Squeeze(s)[0] == s[0]
    ensures forall c :: c in Squeeze(s) ==> c in s
    decreases |s|
  {
    if s != [] {
      SqueezedHasNoPair(s[1..]);
      if !PairAt(s, 0) {
        var rest := Squeeze(s[1..]);
        assert s[1..] == [] ==> rest == [];
        forall i | 0 <= i < |Squeeze(s)| ensures !PairAt(Squeeze(s), i) {
          assert i > 0 ==> !PairAt(rest, i - 1);
        }
      }
    }
  }

  method Canonical(value: string, lower: char -> char) returns (segment: string)
    ensures segment == CanonicalSegment(value, lower)
  {
    segment := Lowered(TrimSpace(value), lower);
    ghost var start := segment;
    while HasPair(segment)
      invariant Squeeze(segment) == Squeeze(start)
      decreases |segment|
    {
      SqueezeReplaced(segment);
      segment := ReplacePairs(segment);
    }
    SqueezeKeepsSqueezed(segment);
    segment := Trim(segment, IsUnderscore);
  }

  predicate IsBanned(c: char) {
    c == ':' || c == ' ' || c == '/' || c == '\\'
  }

  lemma {:induction false} TrimIsSlice(s: string, drop: char -> bool) returns (i: nat, j: nat)
    ensures i <= j <= |s| && Trim(s, drop) == s[i..j]
    decreases |s|
  {
    if s != [] && drop(s[0]) {
      i, j := TrimIsSlice(s[1..], drop);
      i, j := i + 1, j + 1;
    } else if s != [] && drop(s[|s| - 1]) {
      i, j := TrimIsSlice(s[..|s| - 1], drop);
    } else {
      i, j := 0, |s|;
    }
  }

  /** A canonical segment has none of the four replaced characters, no two underscores in a row, and none at its ends. */
  lemma CanonicalSegmentIsClean(value: string, lower: char -> char)
    ensures var c := CanonicalSegment(value, lower);
            && (forall x :: x in c ==> !IsBanned(x)) && !HasPair(c)
            && (c != [] ==> c[0] != '_' && c[|c| - 1] != '_')
  {
    var s := Lowered(TrimSpace(value), lower);
    SqueezedHasNoPair(s);
    var i, j := TrimIsSlice(Squeeze(s), IsUnderscore);
    var c := CanonicalSegment(value, lower);
    forall k | 0 <= k < |c| && PairAt(c, k) ensures false {
      assert PairAt(Squeeze(s), i + k);
    }
  }

  predicate Settled(lower: char -> char, s: string) {
    forall i :: 0 <= i < |s| ==> lower(s[i]) == s[i]
  }

  /** What `strings.ToLower` does satisfy: lowering twice is lowering once, and an underscore is no letter. */
  ghost predicate Lowers(lower: char -> char) {
    (forall c :: lower(lower(c)) == lower(c)) && lower('_') == '_'
  }

  lemma SqueezedCharacters(value: string, lower: char -> char, c: char)
    requires Lowers(lower) && c in CanonicalSegment(value, lower)
    ensures lower(c) == c
  {
    var s := Lowered(TrimSpace(value), lower);
    SqueezedHasNoPair(s);
    assert c in Squeeze(s);
    assert c in s;
    var i :| 0 <= i < |s| && s[i] == c;
    assert c == Plain(lower(TrimSpace(value)[i]));
  }

  predicate SpaceFree(c: string) {
    c == [] || (!IsSpace(c[0]) && !IsSpace(c[|c| - 1]))
  }

  lemma TrimDrops(s: string, drop: char -> bool)
    ensures |Trim(s, drop)| < |s| || Trim(s, drop) == s
  {
    var i, j := TrimIsSlice(s, drop);
    if j - i == |s| {
      assert s[i..j] == s;
    }
  }

  lemma TrimSpaceShrinks(c: string)
    requires !SpaceFree(c)
    ensures |TrimSpace(c)| < |c|
  {
    TrimDrops(c, IsSpace);
  }

  lemma CanonicalIsShorter(c: string, lower: char -> char)
    ensures |CanonicalSegment(c, lower)| <= |TrimSpace(c)|
  {
    var s := Lowered(TrimSpace(c), lower);
    SqueezeIsShorter(s);
    var i, j := TrimIsSlice(Squeeze(s), IsUnderscore);
  }

  lemma {:induction false} SqueezeKeepsLast(s: string)
    requires s != []
    ensures Squeeze(s) != [] && Squeeze(s)[|Squeeze(s)| - 1] == s[|s| - 1]
    decreases |s|
  {
    if |s| > 1 {
      SqueezeKeepsLast(s[1..]);
    }
  }

  lemma {:induction false} SqueezeOneMore(s: string, c: char)
    requires s != []
    ensures Squeeze(s + [c]) == if c == '_' && s[|s| - 1] == '_' then Squeeze(s) else Squeeze(s) + [c]
    decreases |s|
  {
    assert (s + [c])[1..] == s[1..] + [c];
    if |s| == 1 {
      assert s[1..] + [c] == [c];
    } else {
      SqueezeOneMore(s[1..], c);
      assert PairAt(s + [c], 0) <==> PairAt(s, 0);
    }
  }

  /** Squeezing and trimming may change places. */
  lemma {:induction false} TrimSqueezed(s: string)
    ensures Trim(Squeeze(s), IsUnderscore) == Squeeze(Trim(s, IsUnderscore))
    decreases |s|
  {
    if s != [] {
      var squeezed := Squeeze(s);
      SqueezedHasNoPair(s);
      if IsUnderscore(s[0]) {
        TrimSqueezed(s[1..]);
        assert !PairAt(s, 0) ==> squeezed[1..] == Squeeze(s[1..]);
      } else if IsUnderscore(s[|s| - 1]) {
        var front := s[..|s| - 1];
        assert s == front + ['_'];
        TrimSqueezed(front);
        SqueezeOneMore(front, '_');
        assert squeezed != Squeeze(front) ==> squeezed[..|squeezed| - 1] == Squeeze(front);
      } else {
        SqueezeKeepsLast(s);
        TrimTrimmed(s, IsUnderscore);
        TrimTrimmed(squeezed, IsUnderscore);
      }
    }
  }

  /** Canonicalizing again changes nothing iff no white space comes out at the ends of the text, trimmed and lowered, once the
      underscores there are dropped. */
  lemma CanonicalTwice(value: string, lower: char -> char)
    requires Lowers(lower)
    ensures var c := CanonicalSegment(value, lower);
            CanonicalSegment(c, lower) == c <==> SpaceFree(Trim(Lowered(TrimSpace(value), lower), IsUnderscore))
  {
    var s := Trim(Lowered(TrimSpace(value), lower), IsUnderscore);
    var c := CanonicalSegment(value, lower);
    TrimSqueezed(Lowered(TrimSpace(value), lower));
    assert c == Squeeze(s);
    SqueezedHasNoPair(s);
    assert SpaceFree(c) <==> SpaceFree(s) by {
      if s != [] {
        SqueezeKeepsLast(s);
      }
    }
    CanonicalSegmentIsClean(value, lower);
    forall i | 0 <= i < |c| ensures lower(c[i]) == c[i] {
      SqueezedCharacters(value, lower, c[i]);
    }
    hide CanonicalSegment, TrimSpace, SpaceFree, HasPair, Squeeze, Lowered;
    if SpaceFree(c) {
      SpaceFreeStays(c);
      CleanIsCanonical(c, lower);
    } else {
      TrimSpaceShrinks(c);
      CanonicalIsShorter(c, lower);
    }
  }

  /** A tab behind an underscore comes out at an end, and goes the second time. */
  lemma TabComesOut(lower: char -> char)
    requires lower('_') == '_' && lower('\t') == '\t' && lower('x') == 'x'
    ensures CanonicalSegment("_\tx", lower) == "\tx" && CanonicalSegment("\tx", lower) == "x"
  {
    var s := "_\tx";
    TrimTrimmed(s, IsSpace);
    assert Lowered(s, lower) == s && s[1..] == "\tx" && "\tx"[1..] == "x" && "x"[1..] == "";
    SqueezeKeepsSqueezed(s);
    TrimTrimmed("\tx", IsUnderscore);
    TrimTrimmed("x", IsSpace);
    assert Lowered("x", lower) == "x";
    SqueezeKeepsSqueezed("x");
    TrimTrimmed("x", IsUnderscore);
  }

  lemma SpaceFreeStays(c: string)
    requires SpaceFree(c)
    ensures TrimSpace(c) == c
  {
    TrimTrimmed(c, IsSpace);
  }

  lemma CleanIsCanonical(c: string, lower: char -> char)
    requires forall x :: x in c ==> !IsBanned(x)
    requires !HasPair(c) && (c != [] ==> c[0] != '_' && c[|c| - 1] != '_') && Settled(lower, c)
    requires TrimSpace(c) == c
    ensures CanonicalSegment(c, lower) == c
  {
    forall i | 0 <= i < |c| ensures Plain(lower(c[i])) == c[i] {
      assert c[i] in c;
    }
    assert Lowered(c, lower) == c;
    SqueezeKeepsSqueezed(c);
    TrimTrimmed(c, IsUnderscore);
  }

  lemma {:induction false} SqueezeIsShorter(s: string)
    ensures |Squeeze(s)| <= |s|
    decreases |s|
  {
    if s != [] {
      SqueezeIsShorter(s[1..]);
    }
  }

  // ---------- keys ----------

  /** `NewKeyBuilder`. */
  function BuilderPrefix(prefix: string, lower: char -> char): string {
    var p := CanonicalSegment(prefix, lower);
    if p == "" then DEFAULT_PREFIX else p
  }

  function Segments(values: seq<string>, lower: char -> char): seq<string> {
    seq(|values|, i requires 0 <= i < |values| => CanonicalSegment(values[i], lower))
  }

  predicate HasEmpty(parts: seq<string>) {
    exists i :: 0 <= i < |parts| && parts[i] == ""
  }

  /** The scope is valid when its organization id is not blank. */
  predicate ValidInput(org: string, namespace: string, values: seq<string>, lower: char -> char) {
    TrimSpace(org) != "" && CanonicalSegment(namespace, lower) != "" && !HasEmpty(Segments(values, lower))
  }

  function Parts(prefix: string, org: string, namespace: string, values: seq<string>, lower: char -> char): seq<string> {
    [prefix, "org", org, CanonicalSegment(namespace, lower)] + Segments(values, lower)
  }

  /** None stands for ErrInvalidKeyInput. */
  function TenantKey(prefix: string, org: string, namespace: string, values: seq<string>, lower: char -> char): Option<string> {
    if ValidInput(org, namespace, values, lower)
    then Some(Join(Parts(prefix, org, namespace, values, lower), SEPARATOR))
    else None
  }

  function InvalidationPrefix(prefix: string, org: string, namespace: string, lower: char -> char): Option<string> {
    TenantKey(prefix, org, namespace, [], lower)
  }

  method BuildTenantKey(prefix: string, org: string, namespace: string, values: seq<string>, lower: char -> char)
    returns (key: Option<string>)
    ensures key == TenantKey(prefix, org, namespace, values, lower)
  {
    hide CanonicalSegment, TrimSpace, Join;
    if TrimSpace(org) == "" {
      return None;
    }
    var ns := Canonical(namespace, lower);
    if ns == "" {
      return None;
    }
    var parts := [prefix, "org", org, ns];
    var i := 0;
    while i < |values|
      invariant 0 <= i <= |values|
      invariant parts == [prefix, "org", org, ns] + Segments(values, lower)[..i]
      invariant forall k :: 0 <= k < i ==> Segments(values, lower)[k] != ""
    {
      var segment := Canonical(values[i], lower);
      if segment == "" {
        assert Segments(values, lower)[i] == "";
        return None;
      }
      parts := parts + [segment];
      i := i + 1;
    }
    assert Segments(values, lower)[..i] == Segments(values, lower);
    return Some(Join(parts, SEPARATOR));
  }

  lemma PartsAreSeparable(prefix: string, org: string, namespace: string, values: seq<string>, lower: char -> char)
    requires SEPARATOR !in prefix && SEPARATOR !in org
    ensures Without(Parts(prefix, org, namespace, values, lower), SEPARATOR)
  {
    var parts := Parts(prefix, org, namespace, values, lower);
    CanonicalSegmentIsClean(namespace, lower);
    forall i | 0 <= i < |parts| ensures SEPARATOR !in parts[i] {
      if i >= 4 {
        CanonicalSegmentIsClean(values[i - 4], lower);
      }
    }
  }

  lemma BuilderPrefixIsSeparable(prefix: string, lower: char -> char)
    ensures SEPARATOR !in BuilderPrefix(prefix, lower)
  {
    CanonicalSegmentIsClean(prefix, lower);
  }

  /** The prefix is never empty: one without a canonical form gives way to the default. */
  lemma PrefixDefaults(prefix: string, lower: char -> char)
    ensures BuilderPrefix(prefix, lower) != ""
    ensures CanonicalSegment(prefix, lower) != "" ==> BuilderPrefix(prefix, lower) == CanonicalSegment(prefix, lower)
    ensures CanonicalSegment(prefix, lower) == "" ==> BuilderPrefix(prefix, lower) == "zyad"
  {
  }

  /** A key splits back into prefix, organization, namespace and segments. */
  lemma KeySplitsBack(prefix: string, org: string, namespace: string, values: seq<string>, lower: char -> char)
    requires SEPARATOR !in org && ValidInput(org, namespace, values, lower)
    ensures var p := BuilderPrefix(prefix, lower);
            var key := TenantKey(p, org, namespace, values, lower);
            key.Some? && Split(key.value, SEPARATOR) == [p, "org", org, CanonicalSegment(namespace, lower)] + Segments(values, lower)
  {
    var p := BuilderPrefix(prefix, lower);
    BuilderPrefixIsSeparable(prefix, lower);
    PartsAreSeparable(p, org, namespace, values, lower);
    SplitInvertsJoin(Parts(p, org, namespace, values, lower), SEPARATOR);
  }

  /** Two keys of one builder are equal iff organization, canonical namespace and canonical segments are. */
  lemma KeysAreEqualIff(prefix: string, org: string, namespace: string, values: seq<string>,
                        org': string, namespace': string, values': seq<string>, lower: char -> char)
    requires SEPARATOR !in org && SEPARATOR !in org'
    requires ValidInput(org, namespace, values, lower) && ValidInput(org', namespace', values', lower)
    ensures var p := BuilderPrefix(prefix, lower);
            TenantKey(p, org, namespace, values, lower) == TenantKey(p, org', namespace', values', lower) <==>
            && org == org' && CanonicalSegment(namespace, lower) == CanonicalSegment(namespace', lower)
            && Segments(values, lower) == Segments(values', lower)
  {
    var p := BuilderPrefix(prefix, lower);
    hide CanonicalSegment, Segments, BuilderPrefix, ValidInput, Split;
    KeySplitsBack(prefix, org, namespace, values, lower);
    KeySplitsBack(prefix, org', namespace', values', lower);
    PartsTell(p, org, CanonicalSegment(namespace, lower), Segments(values, lower),
              org', CanonicalSegment(namespace', lower), Segments(values', lower));
  }

  lemma PartsTell(p: string, a: string, b: string, more: seq<string>, a': string, b': string, more': seq<string>)
    ensures [p, "org", a, b] + more == [p, "org", a', b'] + more' <==> a == a' && b == b' && more == more'
  {
    var s, t := [p, "org", a, b] + more, [p, "org", a', b'] + more';
    assert s[2] == a && s[3] == b && s[4..] == more;
    assert t[2] == a' && t[3] == b' && t[4..] == more';
  }

  /** Deleting what starts with an invalidation prefix and a colon deletes exactly the keys of that organization and
      namespace that have segments. */
  lemma InvalidationIsExact(prefix: string, org: string, namespace: string,
                            org': string, namespace': string, values': seq<string>, lower: char -> char)
    requires SEPARATOR !in org && SEPARATOR !in org'
    requires ValidInput(org, namespace, [], lower) && ValidInput(org', namespace', values', lower)
    ensures var p := BuilderPrefix(prefix, lower);
            InvalidationPrefix(p, org, namespace, lower).value + [SEPARATOR]
              <= TenantKey(p, org', namespace', values', lower).value <==>
            && org == org' && CanonicalSegment(namespace, lower) == CanonicalSegment(namespace', lower)
            && values' != []
  {
    var p := BuilderPrefix(prefix, lower);
    BuilderPrefixIsSeparable(prefix, lower);
    var a, b := Parts(p, org, namespace, [], lower), Parts(p, org', namespace', values', lower);
    PartsAreSeparable(p, org, namespace, [], lower);
    PartsAreSeparable(p, org', namespace', values', lower);
    JoinExtends(a, b, SEPARATOR);
    assert a == [p, "org", org, CanonicalSegment(namespace, lower)];
    assert b[..4] == [p, "org", org', CanonicalSegment(namespace', lower)];
    assert a < b <==> |a| < |b| && a == b[..4];
    assert a == b[..4] <==> a[2] == b[2] && a[3] == b[3];
  }

  // ---------- organizations whose ids hold colons ----------

  /** What a non-empty canonical segment looks like. */
  predicate IsSegment(c: string, lower: char -> char) {
    && c != "" && (forall i :: 0 <= i < |c| ==> !IsBanned(c[i])) && !HasPair(c)
    && c[0] != '_' && c[|c| - 1] != '_' && Settled(lower, c)
  }

  lemma CanonicalIsSegment(value: string, lower: char -> char)
    requires Lowers(lower) && CanonicalSegment(value, lower) != ""
    ensures IsSegment(CanonicalSegment(value, lower), lower)
  {
    var c := CanonicalSegment(value, lower);
    CanonicalSegmentIsClean(value, lower);
    hide CanonicalSegment;
    forall i | 0 <= i < |c| ensures lower(c[i]) == c[i] && !IsBanned(c[i]) {
      assert c[i] in c;
      SqueezedCharacters(value, lower, c[i]);
    }
  }

  /** A text that canonicalizes to the segment, white space at its ends or not. */
  function Padded(c: string): string {
    "_" + c + "_"
  }

  lemma TrimPadded(c: string)
    requires c != "" && c[0] != '_' && c[|c| - 1] != '_'
    ensures Trim(Padded(c), IsUnderscore) == c
  {
    TrimTrimmed(c, IsUnderscore);
    assert Padded(c)[1..] == c + "_" && (c + "_")[..|c|] == c;
    assert Trim(c + "_", IsUnderscore) == Trim(c, IsUnderscore);
  }

  lemma PaddedHasNoPair(c: string)
    requires c != "" && !HasPair(c) && c[0] != '_' && c[|c| - 1] != '_'
    ensures !HasPair(Padded(c))
  {
    forall i | 0 <= i < |Padded(c)| ensures !PairAt(Padded(c), i) {
      assert 0 < i < |c| ==> !PairAt(c, i - 1);
    }
  }

  lemma PaddedIsCanonical(c: string, lower: char -> char)
    requires Lowers(lower) && IsSegment(c, lower)
    ensures CanonicalSegment(Padded(c), lower) == c
  {
    var v := Padded(c);
    TrimTrimmed(v, IsSpace);
    assert Lowered(v, lower) == v;
    hide Trim, Lowered, HasPair, Squeeze;
    PaddedHasNoPair(c);
    SqueezeKeepsSqueezed(v);
    TrimPadded(c);
  }

  ghost predicate AllSegments(parts: seq<string>, lower: char -> char) {
    forall i :: 0 <= i < |parts| ==> IsSegment(parts[i], lower)
  }

  /** `longer` is `org`, a colon, and canonical segments with colons between. */
  ghost predicate Extends(org: string, longer: string, lower: char -> char) {
    exists parts :: parts != [] && AllSegments(parts, lower) && longer == org + [SEPARATOR] + Join(parts, SEPARATOR)
  }

  ghost predicate SharesKey(p: string, org: string, namespace: string, values: seq<string>,
                            org': string, namespace': string, values': seq<string>, lower: char -> char) {
    && ValidInput(org, namespace, values, lower) && ValidInput(org', namespace', values', lower)
    && TenantKey(p, org, namespace, values, lower) == TenantKey(p, org', namespace', values', lower)
  }

  ghost predicate CanShareKeys(p: string, org: string, org': string, lower: char -> char) {
    exists namespace, values, namespace', values' :: SharesKey(p, org, namespace, values, org', namespace', values', lower)
  }

  function PaddedAll(parts: seq<string>): seq<string> {
    seq(|parts|, i requires 0 <= i < |parts| => Padded(parts[i]))
  }

  lemma SegmentsOfPadded(parts: seq<string>, lower: char -> char)
    requires Lowers(lower) && AllSegments(parts, lower)
    ensures Segments(PaddedAll(parts), lower) == parts && !HasEmpty(parts)
  {
    hide CanonicalSegment, IsSegment;
    forall i | 0 <= i < |parts| ensures CanonicalSegment(PaddedAll(parts)[i], lower) == parts[i] && parts[i] != "" {
      PaddedIsCanonical(parts[i], lower);
      SegmentIsNotEmpty(parts[i], lower);
    }
  }

  lemma SegmentIsNotEmpty(c: string, lower: char -> char)
    requires IsSegment(c, lower)
    ensures c != ""
  {
  }

  /** What follows the organization in a key, at least the namespace. */
  function Behind(namespace: string, values: seq<string>, lower: char -> char): seq<string> {
    [CanonicalSegment(namespace, lower)] + Segments(values, lower)
  }

  lemma KeyIsFlat(p: string, org: string, namespace: string, values: seq<string>, lower: char -> char)
    requires ValidInput(org, namespace, values, lower)
    ensures TenantKey(p, org, namespace, values, lower)
         == Some(Join([p, "org"], SEPARATOR) + [SEPARATOR] + (org + [SEPARATOR] + Join(Behind(namespace, values, lower), SEPARATOR)))
  {
    hide CanonicalSegment, Segments;
    var behind := Behind(namespace, values, lower);
    assert Parts(p, org, namespace, values, lower) == [p, "org"] + ([org] + behind);
    hide Join, Parts, Behind;
    JoinConcat([p, "org"], [org] + behind, SEPARATOR);
    JoinConcat([org], behind, SEPARATOR);
    JoinOne(org);
  }

  lemma JoinOne(part: string)
    ensures Join([part], SEPARATOR) == part
  {
  }

  /** Two organizations share a key iff what stands from the organization on is the same text. */
  lemma SharesIffFlat(p: string, org: string, namespace: string, values: seq<string>,
                      org': string, namespace': string, values': seq<string>, lower: char -> char)
    requires ValidInput(org, namespace, values, lower) && ValidInput(org', namespace', values', lower)
    ensures SharesKey(p, org, namespace, values, org', namespace', values', lower) <==>
            org + [SEPARATOR] + Join(Behind(namespace, values, lower), SEPARATOR)
            == org' + [SEPARATOR] + Join(Behind(namespace', values', lower), SEPARATOR)
  {
    hide Join, Behind, TenantKey, ValidInput;
    KeyIsFlat(p, org, namespace, values, lower);
    KeyIsFlat(p, org', namespace', values', lower);
    var head := Join([p, "org"], SEPARATOR) + [SEPARATOR];
    var a := org + [SEPARATOR] + Join(Behind(namespace, values, lower), SEPARATOR);
    var b := org' + [SEPARATOR] + Join(Behind(namespace', values', lower), SEPARATOR);
    SameTail(head, a, b);
  }

  lemma SameTail(head: string, a: string, b: string)
    ensures head + a == head + b <==> a == b
  {
    if head + a == head + b {
      assert (head + a)[|head|..] == a && (head + b)[|head|..] == b;
    }
  }

  lemma BehindIsSegments(org: string, namespace: string, values: seq<string>, lower: char -> char)
    requires Lowers(lower) && ValidInput(org, namespace, values, lower)
    ensures AllSegments(Behind(namespace, values, lower), lower) && Without(Behind(namespace, values, lower), SEPARATOR)
  {
    hide CanonicalSegment, IsSegment;
    var behind := Behind(namespace, values, lower);
    forall i | 0 <= i < |behind| ensures IsSegment(behind[i], lower) && SEPARATOR !in behind[i] {
      if i > 0 {
        assert behind[i] == Segments(values, lower)[i - 1];
      }
      var value := if i == 0 then namespace else values[i - 1];
      CanonicalIsSegment(value, lower);
      CanonicalSegmentIsClean(value, lower);
    }
  }

  lemma ExtendedShares(p: string, org: string, longer: string, lower: char -> char)
    requires Lowers(lower) && TrimSpace(org) != "" && TrimSpace(longer) != "" && Extends(org, longer, lower)
    ensures CanShareKeys(p, org, longer, lower) && CanShareKeys(p, longer, org, lower)
  {
    hide CanonicalSegment, IsSegment, TenantKey, TrimSpace;
    var parts :| parts != [] && AllSegments(parts, lower) && longer == org + [SEPARATOR] + Join(parts, SEPARATOR);
    var more := parts[1..] + [parts[0]];
    SegmentsOfPadded(more, lower);
    SegmentsOfPadded([], lower);
    PaddedIsCanonical(parts[0], lower);
    SegmentIsNotEmpty(parts[0], lower);
    var namespace, values := Padded(parts[0]), PaddedAll(more);
    assert Behind(namespace, values, lower) == parts + [parts[0]];
    assert Behind(namespace, PaddedAll([]), lower) == [parts[0]];
    JoinConcat(parts, [parts[0]], SEPARATOR);
    JoinOne(parts[0]);
    hide Join, Behind;
    SharesIffFlat(p, org, namespace, values, longer, namespace, PaddedAll([]), lower);
    assert org + [SEPARATOR] + (Join(parts, SEPARATOR) + [SEPARATOR] + parts[0]) == longer + [SEPARATOR] + parts[0];
    assert SharesKey(p, org, namespace, values, longer, namespace, PaddedAll([]), lower);
    assert SharesKey(p, longer, namespace, PaddedAll([]), org, namespace, values, lower);
  }

  /** The longer of two lists of parts that go on alike begins with the shorter, and goes on with what follows that. */
  lemma LongerExtends(org: string, behind: seq<string>, org': string, behind': seq<string>, lower: char -> char)
    requires Split(org, SEPARATOR) + behind == Split(org', SEPARATOR) + behind'
    requires AllSegments(behind, lower) && |Split(org, SEPARATOR)| < |Split(org', SEPARATOR)|
    ensures Extends(org, org', lower)
  {
    hide Split, Join, IsSegment;
    var s, s' := Split(org, SEPARATOR), Split(org', SEPARATOR);
    var parts := behind[..|s'| - |s|];
    assert s' == (s' + behind')[..|s'|];
    assert s' == s + parts;
    JoinInvertsSplit(org, SEPARATOR);
    JoinInvertsSplit(org', SEPARATOR);
    SplitIsNotEmpty(org);
    JoinConcat(s, parts, SEPARATOR);
  }

  lemma SplitIsNotEmpty(s: string)
    ensures Split(s, SEPARATOR) != []
  {
  }

  lemma SharingExtends(p: string, org: string, namespace: string, values: seq<string>,
                       org': string, namespace': string, values': seq<string>, lower: char -> char)
    requires Lowers(lower) && org != org' && SharesKey(p, org, namespace, values, org', namespace', values', lower)
    ensures Extends(org, org', lower) || Extends(org', org, lower)
  {
    hide Split, Join, Behind, TenantKey, ValidInput, Extends, Lowers;
    var behind, behind' := Behind(namespace, values, lower), Behind(namespace', values', lower);
    BehindIsSegments(org, namespace, values, lower);
    BehindIsSegments(org', namespace', values', lower);
    SharesIffFlat(p, org, namespace, values, org', namespace', values', lower);
    SplitConcat(org, Join(behind, SEPARATOR), SEPARATOR);
    SplitConcat(org', Join(behind', SEPARATOR), SEPARATOR);
    BehindIsNotEmpty(namespace, values, lower);
    BehindIsNotEmpty(namespace', values', lower);
    SplitInvertsJoin(behind, SEPARATOR);
    SplitInvertsJoin(behind', SEPARATOR);
    var s, s' := Split(org, SEPARATOR), Split(org', SEPARATOR);
    assert s + behind == s' + behind';
    if |s| < |s'| {
      LongerExtends(org, behind, org', behind', lower);
    } else if |s'| < |s| {
      LongerExtends(org', behind', org, behind, lower);
    } else {
      assert (s + behind)[..|s|] == s && (s' + behind')[..|s'|] == s';
      JoinInvertsSplit(org, SEPARATOR);
      JoinInvertsSplit(org', SEPARATOR);
    }
  }

  lemma BehindIsNotEmpty(namespace: string, values: seq<string>, lower: char -> char)
    ensures Behind(namespace, values, lower) != []
  {
  }

  /** Different organizations can share a key iff the id of one is the id of the other, a colon, and canonical segments with
      colons between. So ids without colons never do. */
  lemma OrganizationsShareKeysIff(p: string, org: string, org': string, lower: char -> char)
    requires Lowers(lower) && org != org' && TrimSpace(org) != "" && TrimSpace(org') != ""
    ensures CanShareKeys(p, org, org', lower) <==> Extends(org, org', lower) || Extends(org', org, lower)
  {
    hide Extends, Lowers, TrimSpace, SharesKey;
    if CanShareKeys(p, org, org', lower) {
      var namespace, values, namespace', values' :| SharesKey(p, org, namespace, values, org', namespace', values', lower);
      SharingExtends(p, org, namespace, values, org', namespace', values', lower);
    }
    if Extends(org, org', lower) {
      ExtendedShares(p, org, org', lower);
    }
    if Extends(org', org, lower) {
      ExtendedShares(p, org', org, lower);
    }
  }

  // ---------- versions ----------

  /** `versionSegment`. */
  function VersionSegment(word: string, version: nat): string {
    word + Decimal(version)
  }

  function EntitlementKey(prefix: string, org: string, feature: string, version: int, lower: char -> char): Option<string> {
    if version <= 0 then None
    else TenantKey(prefix, org, "entitlement", [feature, VersionSegment("v", version)], lower)
  }

  lemma VersionSegmentIsCanonical(version: nat, lower: char -> char)
    requires lower('v') == 'v' && forall c :: IsDigit(c) ==> lower(c) == c
    ensures CanonicalSegment(VersionSegment("v", version), lower) == VersionSegment("v", version)
  {
    var s := VersionSegment("v", version);
    assert forall i :: 0 <= i < |s| ==> s[i] == 'v' || IsDigit(s[i]);
    assert forall c :: c == 'v' || IsDigit(c) ==> !IsSpace(c) && c != '_';
    TrimTrimmed(s, IsSpace);
    CleanIsCanonical(s, lower);
  }

  lemma EntitlementIsCanonical(lower: char -> char)
    requires forall c :: 'a' <= c <= 'z' ==> lower(c) == c
    ensures CanonicalSegment("entitlement", lower) == "entitlement"
  {
    var s := "entitlement";
    assert forall c :: 'a' <= c <= 'z' ==> !IsSpace(c) && c != '_';
    TrimTrimmed(s, IsSpace);
    CleanIsCanonical(s, lower);
  }

  /** There is no entitlement key iff the version is not positive, the organization is blank or the feature has no canonical form;
      else it is these four, in this order, behind the prefix. */
  lemma EntitlementKeyIs(prefix: string, org: string, feature: string, version: int, lower: char -> char)
    requires forall c :: 'a' <= c <= 'z' || IsDigit(c) ==> lower(c) == c
    ensures EntitlementKey(prefix, org, feature, version, lower) ==
              if version <= 0 || TrimSpace(org) == "" || CanonicalSegment(feature, lower) == "" then None
              else Some(Join([prefix, "org", org, "entitlement", CanonicalSegment(feature, lower), "v" + Decimal(version)], ':'))
  {
    EntitlementIsCanonical(lower);
    if version > 0 {
      VersionSegmentIsCanonical(version, lower);
      var f, v := CanonicalSegment(feature, lower), VersionSegment("v", version);
      hide CanonicalSegment, TrimSpace, Join, Decimal;
      assert v != "";
      PairOfSegments(feature, v, lower);
      assert Parts(prefix, org, "entitlement", [feature, v], lower) == [prefix, "org", org, "entitlement", f, v];
    }
  }

  lemma PairOfSegments(a: string, b: string, lower: char -> char)
    ensures Segments([a, b], lower) == [CanonicalSegment(a, lower), CanonicalSegment(b, lower)]
    ensures HasEmpty(Segments([a, b], lower)) <==> CanonicalSegment(a, lower) == "" || CanonicalSegment(b, lower) == ""
  {
    hide CanonicalSegment;
    var s := Segments([a, b], lower);
    assert s[0] == CanonicalSegment(a, lower) && s[1] == CanonicalSegment(b, lower);
  }

  /** A new entitlement version never meets a key of an older one. */
  lemma VersionsSeparate(prefix: string, org: string, feature: string, version: int,
                         org': string, feature': string, version': int, lower: char -> char)
    requires SEPARATOR !in org && SEPARATOR !in org' && version > 0 && version' > 0
    requires lower('v') == 'v' && forall c :: IsDigit(c) ==> lower(c) == c
    requires ValidInput(org, "entitlement", [feature, VersionSegment("v", version)], lower)
    requires ValidInput(org', "entitlement", [feature', VersionSegment("v", version')], lower)
    ensures var p := BuilderPrefix(prefix, lower);
            EntitlementKey(p, org, feature, version, lower) == EntitlementKey(p, org', feature', version', lower) <==>
            org == org' && CanonicalSegment(feature, lower) == CanonicalSegment(feature', lower) && version == version'
  {
    hide CanonicalSegment, BuilderPrefix, ValidInput, Join, Decimal, TenantKey;
    var v, v' := VersionSegment("v", version), VersionSegment("v", version');
    KeysAreEqualIff(prefix, org, "entitlement", [feature, v], org', "entitlement", [feature', v'], lower);
    VersionSegmentIsCanonical(version, lower);
    VersionSegmentIsCanonical(version', lower);
    DecimalTellsApart(version, version');
    var s, t := Segments([feature, v], lower), Segments([feature', v'], lower);
    assert s[0] == CanonicalSegment(feature, lower) && s[1] == v && t[0] == CanonicalSegment(feature', lower) && t[1] == v';
    assert v[1..] == Decimal(version) && v'[1..] == Decimal(version');
    assert s == t <==> s[0] == t[0] && s[1] == t[1];
  }
}
