/** What rendering by rescanning means (internal/core/notification/template/renderer.go): when it is the simultaneous
    substitution of all placeholders, and when it is not. */
module Rescan {
  import opened Template
  import opened Text

  /** Every placeholder replaced at once by its payload value. */
  function Substitute(slots: seq<Slot>, tail: string, payload: map<string, string>): string {
    if slots == [] then tail
    else slots[0].literal + (ValueOf(payload, Key(slots[0])) + Substitute(slots[1..], tail, payload))
  }

  // ---------- what a pass finds ----------

  /** The first `{{raw}}` a pass finds in a text, whatever stands between the braces. */
  datatype Head = NoSlot | Slotted(literal: string, raw: string, rest: string)

  function HeadOf(s: string): (h: Head)
    ensures h.Slotted? ==> |h.rest| < |s| && |h.raw| < |s|
  {
    var open := Index(s, '{');
    if open < 0 then NoSlot
    else
      var after := s[open + 2..];
      var end := Index(after, '}');
      if end < 0 then NoSlot else Slotted(s[..open], after[..end], after[end + 2..])
  }

  lemma OpenSplits(s: string)
    requires Index(s, '{') >= 0
    ensures var open := Index(s, '{'); Quiet(s[..open]) && s == s[..open] + "{{" + s[open + 2..]
  {
    var open := Index(s, '{');
    IndexIsFirst(s, '{');
    hide Index;
    forall i | 0 <= i && i + 1 < open ensures !PairAt(s[..open], '{', i) {
      assert !PairAt(s, '{', i);
    }
    assert open > 0 ==> !PairAt(s, '{', open - 1);
    assert PairAt(s, '{', open);
    assert s[open..open + 2] == "{{";
  }

  lemma CloseSplits(s: string)
    requires Index(s, '}') >= 0
    ensures var end := Index(s, '}'); Enclosed(s[..end]) && s == s[..end] + "}}" + s[end + 2..]
  {
    var end := Index(s, '}');
    IndexIsFirst(s, '}');
    hide Index;
    var raw := s[..end];
    assert PairAt(s, '}', end);
    forall i | 0 <= i && i + 1 < |raw + "}"| ensures !PairAt(raw + "}", '}', i) {
      assert !PairAt(s, '}', i);
    }
    assert s[end..end + 2] == "}}";
  }

  lemma HeadParts(s: string)
    requires HeadOf(s).Slotted?
    ensures var h := HeadOf(s);
            Quiet(h.literal) && Enclosed(h.raw) && s == h.literal + (Braced(h.raw) + h.rest)
  {
    var after := s[Index(s, '{') + 2..];
    OpenSplits(s);
    CloseSplits(after);
    Nest(s[..Index(s, '{')], HeadOf(s).raw, HeadOf(s).rest);
  }

  lemma Nest(literal: string, raw: string, rest: string)
    ensures literal + "{{" + (raw + "}}" + rest) == literal + (Braced(raw) + rest)
  {
  }

  lemma HeadOfSlot(literal: string, raw: string, rest: string)
    requires Quiet(literal) && Enclosed(raw)
    ensures HeadOf(literal + (Braced(raw) + rest)) == Slotted(literal, raw, rest)
  {
    hide Index, Braced, Quiet, Enclosed;
    SlicesOfSlot(literal, raw, rest);
    FirstOpen(literal, raw + "}}" + rest);
    FirstClose(raw, rest);
  }

  lemma KeyIsEnclosed(raw: string)
    requires '}' !in raw
    ensures Enclosed(raw)
  {
  }

  function HeadBehind(q: string, h: Head): Head {
    match h
    case NoSlot => NoSlot
    case Slotted(literal, raw, rest) => Slotted(q + literal, raw, rest)
  }

  lemma OpenAfterQuiet(q: string, s: string)
    requires Quiet(q)
    ensures Index(q + s, '{') == if Index(s, '{') < 0 then -1 else |q| + Index(s, '{')
  {
    IndexIsFirst(s, '{');
    IndexIsFirst(q + s, '{');
    var open := Index(s, '{');
    hide Index;
    if open < 0 {
      QuietConcat(q, s);
    } else {
      forall j | 0 <= j < |q| + open ensures !PairAt(q + s, '{', j) {
        assert j + 1 < |q| ==> !PairAt(q, '{', j);
        assert j >= |q| ==> !PairAt(s, '{', j - |q|);
      }
      assert PairAt(s, '{', open);
      assert PairAt(q + s, '{', |q| + open);
      IndexAt(q + s, '{', |q| + open);
    }
  }

  /** Quiet text before a text only lengthens its first literal. */
  lemma HeadAfterQuiet(q: string, s: string)
    requires Quiet(q)
    ensures HeadOf(q + s) == HeadBehind(q, HeadOf(s))
  {
    hide Index, Quiet;
    OpenAfterQuiet(q, s);
    var open := Index(s, '{');
    if open >= 0 {
      assert (q + s)[|q| + open + 2..] == s[open + 2..];
      assert (q + s)[..|q| + open] == q + s[..open];
    }
  }

  lemma ReplaceFirst(literal: string, raw: string, rest: string, key: string, value: string)
    requires Quiet(literal) && Enclosed(raw)
    ensures Replace(literal + (Braced(raw) + rest), key, value)
         == literal + ((if TrimSpace(raw) == key then value else Braced(raw)) + Replace(rest, key, value))
  {
    hide TrimSpace, Index, Braced, Replace, Quiet, Enclosed;
    SlicesOfSlot(literal, raw, rest);
    FirstOpen(literal, raw + "}}" + rest);
    FirstClose(raw, rest);
    ReplaceUnfolds(literal + (Braced(raw) + rest), |literal|, |raw|, key, value);
    Regroup2(literal, if TrimSpace(raw) == key then value else Braced(raw), Replace(rest, key, value));
  }

  lemma ReplaceByHead(s: string, key: string, value: string)
    ensures HeadOf(s) == NoSlot ==> Replace(s, key, value) == s
    ensures var h := HeadOf(s);
            h.Slotted? ==>
              Replace(s, key, value)
              == h.literal + ((if TrimSpace(h.raw) == key then value else Braced(h.raw)) + Replace(h.rest, key, value))
  {
    hide TrimSpace, Index, Braced;
    if HeadOf(s).Slotted? {
      var h := HeadOf(s);
      hide HeadOf, Replace;
      HeadParts(s);
      ReplaceFirst(h.literal, h.raw, h.rest, key, value);
    }
  }

  lemma Regroup2(a: string, b: string, c: string)
    ensures a + b + c == a + (b + c)
  {
  }

  // ---------- closed text ----------

  /** Text after which a pass finds what follows just as it would alone: no `{{` is left open, and no `{` ends it. */
  predicate Closed(s: string)
    decreases |s|
  {
    match HeadOf(s)
    case NoSlot => Quiet(s)
    case Slotted(_, _, rest) => Closed(rest)
  }

  lemma QuietIsClosed(s: string)
    requires Quiet(s)
    ensures HeadOf(s) == NoSlot && Closed(s)
  {
    IndexIsFirst(s, '{');
  }

  lemma HeadOfConcat(a: string, s: string)
    requires HeadOf(a).Slotted?
    ensures var h := HeadOf(a); HeadOf(a + s) == Slotted(h.literal, h.raw, h.rest + s)
  {
    hide HeadOf;
    HeadParts(a);
    var h := HeadOf(a);
    HeadOfSlot(h.literal, h.raw, h.rest + s);
    assert a + s == h.literal + (Braced(h.raw) + (h.rest + s));
  }

  /** A pass over closed text and what follows is a pass over each. */
  lemma {:induction false} ReplaceConcat(a: string, s: string, key: string, value: string)
    requires Closed(a)
    ensures Replace(a + s, key, value) == Replace(a, key, value) + Replace(s, key, value)
    decreases |a|
  {
    hide Replace, TrimSpace, HeadOf, Braced, Quiet;
    ReplaceByHead(a, key, value);
    ReplaceByHead(a + s, key, value);
    if HeadOf(a).Slotted? {
      HeadOfConcat(a, s);
      var h := HeadOf(a);
      ReplaceConcat(h.rest, s, key, value);
      Regroup4(h.literal, if TrimSpace(h.raw) == key then value else Braced(h.raw), Replace(h.rest, key, value), Replace(s, key, value));
    } else {
      HeadAfterQuiet(a, s);
      ReplaceByHead(s, key, value);
      if HeadOf(s).Slotted? {
        var h := HeadOf(s);
        Regroup2(a, h.literal, (if TrimSpace(h.raw) == key then value else Braced(h.raw)) + Replace(h.rest, key, value));
      }
    }
  }

  lemma Regroup4(a: string, b: string, c: string, d: string)
    ensures a + (b + (c + d)) == a + (b + c) + d
  {
  }

  lemma ReplaceQuiet(s: string, key: string, value: string)
    requires Quiet(s)
    ensures Replace(s, key, value) == s
  {
    QuietIsClosed(s);
    ReplaceByHead(s, key, value);
  }

  lemma ReplaceSlot(raw: string, rest: string, key: string, value: string)
    requires Enclosed(raw)
    ensures Replace(Braced(raw) + rest, key, value)
         == (if TrimSpace(raw) == key then value else Braced(raw)) + Replace(rest, key, value)
  {
    hide Replace, TrimSpace, Braced;
    ReplaceFirst("", raw, rest, key, value);
    assert "" + (Braced(raw) + rest) == Braced(raw) + rest;
  }

  // ---------- passes over a template ----------

  /** A pass for `key` leaves the value of `k`, and what follows it, alone. */
  ghost predicate Independent(payload: map<string, string>, k: string, key: string) {
    Closed(ValueOf(payload, k)) && Replace(ValueOf(payload, k), key, ValueOf(payload, key)) == ValueOf(payload, k)
  }

  /** One pass fills exactly the placeholders of its variable, in a template of which some are filled already. */
  lemma {:induction false} ReplaceInFill(slots: seq<Slot>, tail: string, env: map<string, string>, key: string, value: string)
    requires WellFormed(slots, tail) && (key in env ==> env[key] == value)
    requires forall k :: k in env ==> Closed(env[k]) && Replace(env[k], key, value) == env[k]
    ensures Replace(Fill(slots, tail, env), key, value) == Fill(slots, tail, env[key := value])
    decreases |slots|
  {
    hide Replace, TrimSpace, Braced, Closed, ValidKey;
    if slots == [] {
      ReplaceTail(tail, key, value);
    } else {
      var slot, more := slots[0], slots[1..];
      assert slot in slots && GoodSlot(slot);
      var rest := Fill(more, tail, env);
      QuietIsClosed(slot.literal);
      ReplaceQuiet(slot.literal, key, value);
      ReplaceConcat(slot.literal, Piece(slot, env) + rest, key, value);
      ReplaceInFill(more, tail, env, key, value);
      if Key(slot) in env {
        ReplaceConcat(env[Key(slot)], rest, key, value);
      } else {
        KeyHasNoBraces(slot.raw, '}');
        KeyIsEnclosed(slot.raw);
        ReplaceSlot(slot.raw, rest, key, value);
      }
    }
  }

  lemma ReplaceTail(tail: string, key: string, value: string)
    requires Unpaired(tail, '{')
    ensures Replace(tail, key, value) == tail
  {
    IndexIsFirst(tail, '{');
  }

  lemma {:induction false} PassesFill(slots: seq<Slot>, tail: string, env: map<string, string>,
                                      variables: seq<string>, payload: map<string, string>)
    requires WellFormed(slots, tail)
    requires forall k :: k in env ==> env[k] == ValueOf(payload, k)
    requires forall slot :: slot in slots ==> Key(slot) in env || Key(slot) in variables
    requires forall i, k :: 0 <= i < |variables| && (k in env || k in variables[..i]) ==> Independent(payload, k, variables[i])
    ensures RenderPasses(Fill(slots, tail, env), variables, payload) == Substitute(slots, tail, payload)
    decreases |variables|
  {
    hide Replace, Closed, ValueOf, WellFormed, Fill, Substitute;
    if variables == [] {
      FilledIsSubstituted(slots, tail, env, payload);
    } else {
      var key := variables[0];
      var value := ValueOf(payload, key);
      forall k | k in env ensures Closed(env[k]) && Replace(env[k], key, value) == env[k] {
        assert Independent(payload, k, variables[0]);
      }
      ReplaceInFill(slots, tail, env, key, value);
      forall i, k | 0 <= i < |variables[1..]| && (k in env[key := value] || k in variables[1..][..i])
        ensures Independent(payload, k, variables[1..][i])
      {
        assert variables[..i + 1] == [key] + variables[1..][..i];
        assert Independent(payload, k, variables[i + 1]);
      }
      PassesFill(slots, tail, env[key := value], variables[1..], payload);
    }
  }

  lemma {:induction false} FilledIsSubstituted(slots: seq<Slot>, tail: string, env: map<string, string>,
                                               payload: map<string, string>)
    requires forall key :: key in env ==> env[key] == ValueOf(payload, key)
    requires forall slot :: slot in slots ==> Key(slot) in env
    ensures Fill(slots, tail, env) == Substitute(slots, tail, payload)
    decreases |slots|
  {
    if slots != [] {
      assert slots[0] in slots;
      FilledIsSubstituted(slots[1..], tail, env, payload);
    }
  }

  /** The variables of a text: each once, the keys of its placeholders and no other. */
  lemma {:induction false} KeysAre(slots: seq<Slot>, seen: seq<string>)
    requires forall i, j :: 0 <= i < j < |seen| ==> seen[i] != seen[j]
    ensures var keys := Keys(slots, seen);
            && (forall i, j :: 0 <= i < j < |keys| ==> keys[i] != keys[j])
            && (forall k :: k in keys <==> k in seen || exists slot :: slot in slots && Key(slot) == k)
    decreases |slots|
  {
    if slots != [] {
      KeysAre(slots[1..], if Key(slots[0]) in seen then seen else seen + [Key(slots[0])]);
      assert forall slot :: slot in slots <==> slot == slots[0] || slot in slots[1..];
    }
  }

  // ---------- values without braces that open ----------

  /** No value holds `{{` or ends in `{`. */
  ghost predicate QuietValues(payload: map<string, string>) {
    forall key :: key in payload ==> Quiet(payload[key])
  }

  /** For every accepted text and every payload of quiet values, substituting one variable after another by rescanning is
      substituting all of them at once; and any order or repetition of the variables does the same. */
  lemma RenderingIsSubstitution(text: string, payload: map<string, string>, order: seq<string>)
    requires Parse(text).Template? && QuietValues(payload)
    requires forall k :: k in Variables(text).value ==> k in order
    ensures RenderPasses(text, Variables(text).value, payload)
         == Substitute(Parse(text).slots, Parse(text).tail, payload)
         == RenderPasses(text, order, payload)
  {
    hide Replace, Closed;
    ParsedIsFlattened(text);
    var slots, tail := Parse(text).slots, Parse(text).tail;
    KeysAre(slots, []);
    forall k, key ensures Independent(payload, k, key) {
      QuietIsClosed(ValueOf(payload, k));
      ReplaceQuiet(ValueOf(payload, k), key, ValueOf(payload, key));
    }
    PassesFill(slots, tail, map[], Variables(text).value, payload);
    PassesFill(slots, tail, map[], order, payload);
  }

  lemma {:induction false} SubstitutedHasNoOpen(slots: seq<Slot>, tail: string, payload: map<string, string>)
    requires WellFormed(slots, tail) && QuietValues(payload)
    ensures Unpaired(Substitute(slots, tail, payload), '{')
    decreases |slots|
  {
    if slots != [] {
      var slot, value := slots[0], ValueOf(payload, Key(slots[0]));
      assert slot in slots && GoodSlot(slot);
      SubstitutedHasNoOpen(slots[1..], tail, payload);
      QuietConcat(value, Substitute(slots[1..], tail, payload));
      QuietConcat(slot.literal, value + Substitute(slots[1..], tail, payload));
    }
  }

  /** No placeholder survives rendering: the result has no `{{` at all, so no pass changes it any more. */
  lemma NothingLeftToRender(text: string, payload: map<string, string>)
    requires Parse(text).Template? && QuietValues(payload)
    ensures var out := RenderPasses(text, Variables(text).value, payload);
            Unpaired(out, '{') && forall key, value :: Replace(out, key, value) == out
  {
    hide Quiet;
    RenderingIsSubstitution(text, payload, Variables(text).value);
    ParsedIsFlattened(text);
    SubstitutedHasNoOpen(Parse(text).slots, Parse(text).tail, payload);
    var out := RenderPasses(text, Variables(text).value, payload);
    forall key, value ensures Replace(out, key, value) == out {
      ReplaceTail(out, key, value);
    }
  }

  // ---------- variables without a value ----------

  lemma {:induction false} SameValuesSamePasses(text: string, variables: seq<string>, a: map<string, string>, b: map<string, string>)
    requires forall k :: k in variables ==> ValueOf(a, k) == ValueOf(b, k)
    ensures RenderPasses(text, variables, a) == RenderPasses(text, variables, b)
    decreases |variables|
  {
    hide Replace, ValueOf;
    if variables != [] {
      SameValuesSamePasses(Replace(text, variables[0], ValueOf(a, variables[0])), variables[1..], a, b);
    }
  }

  /** A variable that the payload lacks renders as an empty one. */
  lemma MissingIsEmpty(text: string, known: set<string>, payload: map<string, string>, k: string)
    requires k !in payload
    ensures Rendered(text, known, payload) == Rendered(text, known, payload[k := ""])
  {
    hide RenderPasses, VariablesFor;
    if VariablesFor(text, known).Ok? {
      SameValuesSamePasses(text, VariablesFor(text, known).value, payload, payload[k := ""]);
    }
  }

  /** What stands between the placeholders. */
  function Literals(slots: seq<Slot>): string {
    if slots == [] then "" else slots[0].literal + Literals(slots[1..])
  }

  lemma {:induction false} EmptySubstitution(slots: seq<Slot>, tail: string)
    ensures Substitute(slots, tail, map[]) == Literals(slots) + tail
    decreases |slots|
  {
    if slots != [] {
      EmptySubstitution(slots[1..], tail);
      Regroup2(slots[0].literal, Literals(slots[1..]), tail);
      assert "" + Substitute(slots[1..], tail, map[]) == Substitute(slots[1..], tail, map[]);
    }
  }

  /** Without any values an accepted text renders as its literals. */
  lemma NoValuesLeaveLiterals(text: string, known: set<string>)
    requires VariablesFor(text, known).Ok?
    ensures Parse(text).Template?
    ensures Rendered(text, known, map[]) == Ok(Literals(Parse(text).slots) + Parse(text).tail)
  {
    hide RenderPasses, Parse, VariablesFor, Substitute;
    KnownVariables(text, known);
    VariablesAre(text);
    RenderingIsSubstitution(text, map[], Variables(text).value);
    EmptySubstitution(Parse(text).slots, Parse(text).tail);
  }

  lemma VariablesAre(text: string)
    requires Parse(text).Template?
    ensures Variables(text).Ok?
  {
  }

  // ---------- placeholders inside values ----------

  /** Every placeholder of `key` in the text is the value itself, so that a pass leaves the text alone. */
  predicate Stays(s: string, key: string, value: string)
    decreases |s|
  {
    match HeadOf(s)
    case NoSlot => true
    case Slotted(_, raw, rest) => (TrimSpace(raw) == key ==> value == Braced(raw)) && Stays(rest, key, value)
  }

  lemma {:induction false} StaysIsFixed(s: string, key: string, value: string)
    requires Stays(s, key, value)
    ensures Replace(s, key, value) == s
    decreases |s|
  {
    hide Replace, TrimSpace, HeadOf, Braced;
    ReplaceByHead(s, key, value);
    if HeadOf(s).Slotted? {
      HeadParts(s);
      StaysIsFixed(HeadOf(s).rest, key, value);
    }
  }

  /** How many placeholders of `key` a pass finds. */
  function Count(s: string, key: string): nat
    decreases |s|
  {
    match HeadOf(s)
    case NoSlot => 0
    case Slotted(_, raw, rest) => (if TrimSpace(raw) == key then 1 else 0) + Count(rest, key)
  }

  lemma {:induction false} CountConcat(a: string, s: string, key: string)
    requires Closed(a)
    ensures Count(a + s, key) == Count(a, key) + Count(s, key)
    decreases |a|
  {
    hide TrimSpace, HeadOf, Quiet;
    if HeadOf(a).Slotted? {
      HeadOfConcat(a, s);
      CountConcat(HeadOf(a).rest, s, key);
    } else {
      HeadAfterQuiet(a, s);
    }
  }

  lemma CountOfSlot(literal: string, raw: string, key: string)
    requires Quiet(literal) && Enclosed(raw)
    ensures Closed(literal + Braced(raw)) && Count(literal + Braced(raw), key) == if TrimSpace(raw) == key then 1 else 0
  {
    hide TrimSpace, Braced, Enclosed;
    HeadOfSlot(literal, raw, "");
    assert literal + (Braced(raw) + "") == literal + Braced(raw);
    QuietIsClosed("");
  }

  lemma CountOfQuiet(s: string, key: string)
    requires Quiet(s)
    ensures Count(s, key) == 0
  {
    QuietIsClosed(s);
  }

  /** A pass leaves as many placeholders of its key for each it replaces as the value holds. */
  lemma {:induction false} CountOfReplaced(s: string, key: string, value: string)
    requires Closed(s) && Closed(value)
    ensures Count(Replace(s, key, value), key) == Count(s, key) * Count(value, key)
    decreases |s|
  {
    hide Replace, TrimSpace, HeadOf, Braced, Quiet;
    ReplaceByHead(s, key, value);
    if HeadOf(s) == NoSlot {
      CountOfQuiet(s, key);
    } else {
      var h := HeadOf(s);
      HeadParts(s);
      var rest := Replace(h.rest, key, value);
      CountOfReplaced(h.rest, key, value);
      QuietIsClosed(h.literal);
      CountOfQuiet(h.literal, key);
      if TrimSpace(h.raw) == key {
        CountConcat(h.literal, value + rest, key);
        CountConcat(value, rest, key);
        Distribute(Count(h.rest, key), Count(value, key));
      } else {
        CountOfSlot(h.literal, h.raw, key);
        CountConcat(h.literal + Braced(h.raw), rest, key);
        Regroup2(h.literal, Braced(h.raw), rest);
      }
    }
  }

  lemma Distribute(n: nat, m: nat)
    ensures (1 + n) * m == m + n * m
  {
  }

  // ---------- where the first one stands ----------

  datatype Spot = Nowhere | At(place: nat, raw: string)

  /** The first placeholder of `key`. */
  function FirstSpot(s: string, key: string): Spot
    decreases |s|
  {
    match HeadOf(s)
    case NoSlot => Nowhere
    case Slotted(literal, raw, rest) =>
      if TrimSpace(raw) == key then At(|literal|, raw) else Shifted(|literal + Braced(raw)|, FirstSpot(rest, key))
  }

  function Shifted(distance: nat, spot: Spot): Spot {
    match spot
    case Nowhere => Nowhere
    case At(place, raw) => At(distance + place, raw)
  }

  lemma {:induction false} SpotIffCounted(s: string, key: string)
    ensures FirstSpot(s, key) == Nowhere <==> Count(s, key) == 0
    decreases |s|
  {
    hide TrimSpace, HeadOf;
    if HeadOf(s).Slotted? {
      SpotIffCounted(HeadOf(s).rest, key);
    }
  }

  lemma {:induction false} SpotOfConcat(a: string, s: string, key: string)
    requires Closed(a)
    ensures FirstSpot(a + s, key)
         == if FirstSpot(a, key) == Nowhere then Shifted(|a|, FirstSpot(s, key)) else FirstSpot(a, key)
    decreases |a|
  {
    hide TrimSpace, HeadOf, Quiet, Braced;
    if HeadOf(a).Slotted? {
      HeadParts(a);
      HeadOfConcat(a, s);
      SpotOfConcat(HeadOf(a).rest, s, key);
    } else {
      HeadAfterQuiet(a, s);
    }
  }

  lemma SpotOfSlot(literal: string, raw: string, key: string)
    requires Quiet(literal) && Enclosed(raw)
    ensures FirstSpot(literal + Braced(raw), key) == if TrimSpace(raw) == key then At(|literal|, raw) else Nowhere
  {
    hide TrimSpace, Braced, Enclosed;
    HeadOfSlot(literal, raw, "");
    assert literal + (Braced(raw) + "") == literal + Braced(raw);
    QuietIsClosed("");
  }

  /** If the value begins with a placeholder of `key`, a pass leaves the first placeholder where it was. */
  lemma {:induction false} SpotOfReplaced(s: string, key: string, value: string)
    requires Closed(value) && FirstSpot(value, key).At? && FirstSpot(value, key).place == 0
    requires FirstSpot(s, key).At?
    ensures FirstSpot(Replace(s, key, value), key) == At(FirstSpot(s, key).place, FirstSpot(value, key).raw)
    decreases |s|
  {
    hide Replace, TrimSpace, HeadOf, Braced, Quiet;
    ReplaceByHead(s, key, value);
    HeadParts(s);
    var h := HeadOf(s);
    var rest := Replace(h.rest, key, value);
    if TrimSpace(h.raw) == key {
      QuietIsClosed(h.literal);
      CountOfQuiet(h.literal, key);
      SpotIffCounted(h.literal, key);
      SpotOfConcat(h.literal, value + rest, key);
      SpotOfConcat(value, rest, key);
    } else {
      SpotOfReplaced(h.rest, key, value);
      CountOfSlot(h.literal, h.raw, key);
      SpotOfSlot(h.literal, h.raw, key);
      SpotOfConcat(h.literal + Braced(h.raw), rest, key);
      Regroup2(h.literal, Braced(h.raw), rest);
    }
  }

  lemma SpotAtZero(s: string, key: string)
    requires FirstSpot(s, key).At? && FirstSpot(s, key).place == 0
    ensures var h := HeadOf(s);
            h.Slotted? && h.literal == "" && h.raw == FirstSpot(s, key).raw && TrimSpace(h.raw) == key
            && s == Braced(h.raw) + h.rest
  {
    hide TrimSpace, HeadOf;
    HeadParts(s);
  }

  // ---------- what a pass leaves alone ----------

  /** A closed value with one placeholder of `key`, put in place of one at the start, cannot shift what follows. */
  lemma FirstIsValue(raw: string, rest: string, key: string, value: string)
    requires Closed(rest) && Closed(value) && Enclosed(raw) && TrimSpace(raw) == key && Count(value, key) == 1
    requires value + Replace(rest, key, value) == Braced(raw) + rest
    ensures value == Braced(raw)
  {
    hide Replace, TrimSpace, Braced, Closed, Enclosed;
    var replaced := Replace(rest, key, value);
    SpotIffCounted(value, key);
    SpotOfConcat(value, replaced, key);
    QuietEmpty();
    SpotOfSlot("", raw, key);
    CountOfSlot("", raw, key);
    assert "" + Braced(raw) == Braced(raw);
    SpotOfConcat(Braced(raw), rest, key);
    assert FirstSpot(value, key) == At(0, raw);
    SpotAtZero(value, key);
    var after := HeadOf(value).rest;
    assert value == Braced(raw) + after;
    RestCounts(value, key);
    Uncover(Braced(raw), after, replaced, rest);
    SpotIffCounted(after, key);
    SpotOfConcat(after, replaced, key);
    SpotIffCounted(rest, key);
    if FirstSpot(rest, key).At? {
      SpotOfReplaced(rest, key, value);
    } else {
      NoneStays(rest, key, value);
      StaysIsFixed(rest, key, value);
      assert |after| == 0;
    }
    assert after == "";
    assert Braced(raw) + "" == Braced(raw);
  }

  lemma QuietEmpty()
    ensures Quiet("")
  {
  }

  lemma RestCounts(s: string, key: string)
    requires Closed(s) && HeadOf(s).Slotted? && TrimSpace(HeadOf(s).raw) == key
    ensures Closed(HeadOf(s).rest) && Count(s, key) == 1 + Count(HeadOf(s).rest, key)
  {
  }

  lemma Uncover(a: string, b: string, c: string, d: string)
    requires (a + b) + c == a + d
    ensures b + c == d
  {
    assert (a + b) + c == a + (b + c);
    assert (a + (b + c))[|a|..] == b + c && (a + d)[|a|..] == d;
  }

  lemma {:induction false} NoneStays(s: string, key: string, value: string)
    requires Count(s, key) == 0
    ensures Stays(s, key, value)
    decreases |s|
  {
    hide TrimSpace, HeadOf;
    if HeadOf(s).Slotted? {
      NoneStays(HeadOf(s).rest, key, value);
    }
  }

  lemma OneEach(n: nat, m: nat)
    ensures (1 + n) * m == 1 + n ==> m == 1
  {
    if m >= 2 {
      assert (1 + n) * m == (1 + n) * (m - 2) + (1 + n) * 2;
    }
  }

  /** A pass with a closed value leaves closed text alone only if each placeholder it finds is the value itself. */
  lemma {:induction false} FixedStays(s: string, key: string, value: string)
    requires Closed(s) && Closed(value) && Replace(s, key, value) == s
    ensures Stays(s, key, value)
    decreases |s|
  {
    hide Replace, TrimSpace, HeadOf, Braced, Quiet, Enclosed;
    ReplaceByHead(s, key, value);
    if HeadOf(s).Slotted? {
      var h := HeadOf(s);
      HeadParts(s);
      var rest := Replace(h.rest, key, value);
      if TrimSpace(h.raw) == key {
        CountOfReplaced(s, key, value);
        OneEach(Count(h.rest, key), Count(value, key));
        SameStart(h.literal, value + rest, Braced(h.raw) + h.rest);
        FirstIsValue(h.raw, h.rest, key, value);
        SameStart(value, rest, h.rest);
      } else {
        SameStart(h.literal, Braced(h.raw) + rest, Braced(h.raw) + h.rest);
        SameStart(Braced(h.raw), rest, h.rest);
      }
      FixedStays(h.rest, key, value);
    }
  }

  lemma SameStart(a: string, b: string, c: string)
    requires a + b == a + c
    ensures b == c
  {
    assert (a + b)[|a|..] == b && (a + c)[|a|..] == c;
  }

  // ---------- the exact condition ----------

  /** Of any two variables of the registry, the value of the one leaves no brace open, and each placeholder of the other
      in it is the other's own value. */
  ghost predicate Harmless(payload: map<string, string>, known: set<string>) {
    forall a, b :: a in known && b in known && ValidKey(a) && ValidKey(b) && a != b ==>
      Closed(ValueOf(payload, a)) && Stays(ValueOf(payload, a), b, ValueOf(payload, b))
  }

  ghost predicate RendersBySubstitution(payload: map<string, string>, known: set<string>) {
    forall text :: VariablesFor(text, known).Ok? ==>
      Rendered(text, known, payload) == Ok(Substitute(Parse(text).slots, Parse(text).tail, payload))
  }

  lemma KnownVariables(text: string, known: set<string>)
    ensures VariablesFor(text, known).Ok? <==> Parse(text).Template? && forall k :: k in Variables(text).value ==> k in known
    ensures VariablesFor(text, known).Ok? ==> VariablesFor(text, known) == Variables(text)
  {
  }

  lemma HarmlessRenders(payload: map<string, string>, known: set<string>, text: string)
    requires Harmless(payload, known) && VariablesFor(text, known).Ok?
    ensures Parse(text).Template?
    ensures Rendered(text, known, payload) == Ok(Substitute(Parse(text).slots, Parse(text).tail, payload))
  {
    hide RenderPasses, Parse, VariablesFor, Harmless, Variables, Substitute;
    KnownVariables(text, known);
    PassesSubstitute(payload, known, text);
  }

  lemma VariablesOf(text: string)
    requires Parse(text).Template?
    ensures WellFormed(Parse(text).slots, Parse(text).tail) && Flatten(Parse(text).slots, Parse(text).tail) == text
    ensures Variables(text).Ok?
    ensures var variables := Variables(text).value;
            && (forall i, j :: 0 <= i < j < |variables| ==> variables[i] != variables[j])
            && (forall k :: k in variables ==> ValidKey(k))
            && (forall slot :: slot in Parse(text).slots ==> Key(slot) in variables)
  {
    hide Parse, ValidKey, TrimSpace, Quiet, Unpaired, Fill;
    ParsedIsFlattened(text);
    KeysAre(Parse(text).slots, []);
  }

  lemma PassesSubstitute(payload: map<string, string>, known: set<string>, text: string)
    requires Harmless(payload, known) && Parse(text).Template? && forall k :: k in Variables(text).value ==> k in known
    ensures RenderPasses(text, Variables(text).value, payload) == Substitute(Parse(text).slots, Parse(text).tail, payload)
  {
    hide Replace, Closed, Stays, ValidKey, Independent, Parse, Variables, WellFormed, RenderPasses, Substitute, ValueOf;
    VariablesOf(text);
    var variables := Variables(text).value;
    forall i, k | 0 <= i < |variables| && k in variables[..i] ensures Independent(payload, k, variables[i]) {
      assert k in variables && variables[i] in variables;
      StaysIsIndependent(payload, k, variables[i]);
    }
    PassesFill(Parse(text).slots, Parse(text).tail, map[], variables, payload);
  }

  lemma StaysIsIndependent(payload: map<string, string>, k: string, key: string)
    requires Closed(ValueOf(payload, k)) && Stays(ValueOf(payload, k), key, ValueOf(payload, key))
    ensures Independent(payload, k, key)
  {
    StaysIsFixed(ValueOf(payload, k), key, ValueOf(payload, key));
  }

  // ---------- texts of two placeholders ----------

  /** The text `{{a}}{{raw}}`, where `raw` is a second variable with any white space around it. */
  lemma PairParses(a: string, raw: string, payload: map<string, string>)
    requires ValidKey(a) && ValidKey(TrimSpace(raw)) && a != TrimSpace(raw)
    ensures var text := Braced(a) + Braced(raw);
            && Parse(text).Template? && Variables(text).value == [a, TrimSpace(raw)]
            && Substitute(Parse(text).slots, Parse(text).tail, payload) == ValueOf(payload, a) + ValueOf(payload, TrimSpace(raw))
  {
    hide ValidKey, TrimSpace, Braced, ValueOf, Parse, Flatten, Keys, Substitute;
    var slots := [Slot("", a), Slot("", raw)];
    KeyTrims(a);
    PairFlattens(a, raw);
    FlattenedIsParsed(slots, "");
    PairKeys(a, raw);
    PairSubstituted(a, raw, payload);
  }

  lemma PairKeys(a: string, raw: string)
    requires TrimSpace(a) == a && a != TrimSpace(raw)
    ensures Keys([Slot("", a), Slot("", raw)], []) == [a, TrimSpace(raw)]
  {
    hide TrimSpace;
    var slots, b := [Slot("", a), Slot("", raw)], TrimSpace(raw);
    assert slots[1..] == [Slot("", raw)] && slots[1..][1..] == [];
    assert [] + [a] == [a] && [a] + [b] == [a, b];
    assert Keys(slots[1..], [a]) == [a, b];
  }

  lemma PairSubstituted(a: string, raw: string, payload: map<string, string>)
    requires TrimSpace(a) == a
    ensures Substitute([Slot("", a), Slot("", raw)], "", payload) == ValueOf(payload, a) + ValueOf(payload, TrimSpace(raw))
  {
    hide TrimSpace, ValueOf;
    var slots, b := [Slot("", a), Slot("", raw)], TrimSpace(raw);
    assert slots[1..] == [Slot("", raw)] && slots[1..][1..] == [];
    assert Substitute(slots[1..], "", payload) == "" + (ValueOf(payload, b) + "");
    assert "" + (ValueOf(payload, b) + "") == ValueOf(payload, b);
    assert "" + (ValueOf(payload, a) + ValueOf(payload, b)) == ValueOf(payload, a) + ValueOf(payload, b);
  }

  lemma PairFlattens(a: string, raw: string)
    ensures Flatten([Slot("", a), Slot("", raw)], "") == Braced(a) + Braced(raw)
  {
    hide Braced, TrimSpace;
    var slots: seq<Slot>, env: map<string, string> := [Slot("", a), Slot("", raw)], map[];
    assert slots[1..] == [Slot("", raw)] && slots[1..][1..] == [];
    assert Fill(slots[1..][1..], "", env) == "";
    assert Piece(slots[0], env) == Braced(a) && Piece(slots[1], env) == Braced(raw);
    assert Fill(slots[1..], "", env) == "" + (Braced(raw) + "");
    assert "" + (Braced(raw) + "") == Braced(raw);
    assert Fill(slots, "", env) == "" + (Braced(a) + Braced(raw));
    assert "" + (Braced(a) + Braced(raw)) == Braced(a) + Braced(raw);
  }

  lemma KeyTrims(key: string)
    requires ValidKey(key)
    ensures TrimSpace(key) == key && Enclosed(key) && '{' !in key
  {
    TrimTrimmed(key, IsSpace);
  }

  lemma TwoPasses(text: string, first: string, second: string, payload: map<string, string>)
    ensures RenderPasses(text, [first, second], payload)
         == Replace(Replace(text, first, ValueOf(payload, first)), second, ValueOf(payload, second))
  {
    hide Replace;
    var t := Replace(text, first, ValueOf(payload, first));
    assert [first, second][1..] == [second] && [second][1..] == [];
    assert RenderPasses(t, [second], payload) == Replace(t, second, ValueOf(payload, second));
  }

  lemma PairFirstPass(a: string, raw: string, value: string)
    requires ValidKey(a) && ValidKey(TrimSpace(raw)) && a != TrimSpace(raw)
    ensures Replace(Braced(a) + Braced(raw), a, value) == value + Braced(raw)
    ensures Replace(Braced(raw), TrimSpace(raw), value) == value
  {
    hide Replace, TrimSpace, Braced, ValidKey;
    KeyTrims(a);
    KeyHasNoBraces(raw, '}');
    KeyIsEnclosed(raw);
    QuietEmpty();
    ReplaceQuiet("", a, value);
    ReplaceQuiet("", TrimSpace(raw), value);
    ReplaceSlot(a, Braced(raw), a, value);
    ReplaceSlot(raw, "", a, value);
    ReplaceSlot(raw, "", TrimSpace(raw), value);
    assert Braced(raw) + "" == Braced(raw) && value + "" == value;
  }

  /** Text that is left open swallows a placeholder that follows it, so a pass does not fill it. */
  lemma {:induction false} OpenHides(s: string, raw: string, value: string)
    requires !Closed(s) && ValidKey(TrimSpace(raw))
    ensures |Replace(s + Braced(raw), TrimSpace(raw), value)| > |raw|
    decreases |s|
  {
    hide Replace, TrimSpace, HeadOf, Braced, Quiet, ValidKey;
    var key := TrimSpace(raw);
    ReplaceByHead(s + Braced(raw), key, value);
    if HeadOf(s).Slotted? {
      HeadOfConcat(s, Braced(raw));
      OpenHides(HeadOf(s).rest, raw, value);
    } else {
      OpenSwallows(s, raw);
      BracedIsLonger(HeadOf(s + Braced(raw)).raw);
    }
  }

  lemma BracedIsLonger(raw: string)
    ensures |Braced(raw)| > |raw|
  {
  }

  /** What is left open takes the braces of the placeholder for its own, or shifts them by one. */
  lemma OpenSwallows(s: string, raw: string)
    requires HeadOf(s) == NoSlot && !Quiet(s) && ValidKey(TrimSpace(raw))
    ensures var h := HeadOf(s + Braced(raw)); h.Slotted? && TrimSpace(h.raw) != TrimSpace(raw) && |h.raw| >= |raw|
  {
    hide TrimSpace, ValidKey;
    KeyTrims(TrimSpace(raw));
    KeyHasNoBraces(raw, '}');
    KeyIsEnclosed(raw);
    IndexIsFirst(s, '{');
    var open := Index(s, '{');
    if open < 0 {
      EndSwallows(s, raw);
      HoldsBrace("{" + raw, TrimSpace(raw));
    } else {
      InsideSwallows(s, open, raw);
      HoldsBrace(s[open + 2..] + "{{" + raw, TrimSpace(raw));
    }
  }

  lemma HoldsBrace(raw: string, b: string)
    requires '{' in raw && '{' !in b
    ensures TrimSpace(raw) != b
  {
    TrimKeepsRest(raw, IsSpace, '{');
  }

  lemma FrontIsQuiet(s: string)
    requires Unpaired(s, '{') && s != [] && s[|s| - 1] == '{'
    ensures Quiet(s[..|s| - 1])
  {
    var front := s[..|s| - 1];
    forall i | 0 <= i && i + 1 < |front| ensures !PairAt(front, '{', i) {
      assert !PairAt(s, '{', i);
    }
    assert front != [] ==> !PairAt(s, '{', |s| - 2);
  }

  /** Text without closing braces, and then a `{`, stays enclosed in front of an enclosed one. */
  lemma EnclosedAfter(a: string, b: string)
    requires Unpaired(a, '}') && a != [] && a[|a| - 1] == '{' && Enclosed(b)
    ensures Enclosed(a + b)
  {
    var s := a + b + "}";
    forall i | 0 <= i && i + 1 < |s| ensures !PairAt(s, '}', i) {
      assert i + 1 < |a| ==> !PairAt(a, '}', i);
      assert i >= |a| ==> !PairAt(b + "}", '}', i - |a|);
    }
  }

  lemma EndSwallows(s: string, b: string)
    requires Unpaired(s, '{') && s != [] && s[|s| - 1] == '{' && Enclosed(b)
    ensures HeadOf(s + Braced(b)) == Slotted(s[..|s| - 1], "{" + b, "")
  {
    var front, raw := s[..|s| - 1], "{" + b;
    assert s == front + "{";
    FrontIsQuiet(s);
    EnclosedAfter("{", b);
    hide TrimSpace, HeadOf, Unpaired, Quiet, Enclosed, Braced;
    HeadOfSlot(front, raw, "");
    ShiftedByOne(front, b);
  }

  lemma ShiftedByOne(front: string, b: string)
    ensures front + "{" + Braced(b) == front + (Braced("{" + b) + "")
  {
    assert "{" + Braced(b) == Braced("{" + b) + "";
  }

  lemma InsideSwallows(s: string, open: nat, b: string)
    requires open == Index(s, '{') && Index(s[open + 2..], '}') < 0 && Enclosed(b)
    ensures HeadOf(s + Braced(b)) == Slotted(s[..open], s[open + 2..] + "{{" + b, "")
  {
    var after := s[open + 2..];
    OpenSplits(s);
    IndexIsFirst(after, '}');
    hide Index, TrimSpace, HeadOf, Quiet, Enclosed;
    NoCloseIn(after);
    EnclosedAfter(after + "{{", b);
    HeadOfSlot(s[..open], after + "{{" + b, "");
    Swallowed(s[..open], after, b);
  }

  lemma NoCloseIn(after: string)
    requires Unpaired(after, '}')
    ensures Unpaired(after + "{{", '}')
  {
    forall i | 0 <= i && i + 1 < |after + "{{"| ensures !PairAt(after + "{{", '}', i) {
      assert i + 1 < |after| ==> !PairAt(after, '}', i);
    }
  }

  lemma Swallowed(literal: string, after: string, b: string)
    ensures literal + "{{" + after + Braced(b) == literal + (Braced(after + "{{" + b) + "")
  {
  }

  // ---------- the other half ----------

  /** A variable with that much white space before it. */
  lemma {:induction false} Spaced(key: string, n: nat) returns (raw: string)
    requires ValidKey(key)
    ensures |raw| >= n && TrimSpace(raw) == key
  {
    if n == 0 {
      KeyTrims(key);
      raw := key;
    } else {
      raw := Spaced(key, n - 1);
      raw := " " + raw;
      assert raw[1..] == raw[1..][..];
    }
  }

  lemma Refutes(payload: map<string, string>, known: set<string>, a: string, raw: string)
    requires ValidKey(a) && ValidKey(TrimSpace(raw)) && a != TrimSpace(raw) && a in known && TrimSpace(raw) in known
    requires var va, vb := ValueOf(payload, a), ValueOf(payload, TrimSpace(raw));
             Replace(va + Braced(raw), TrimSpace(raw), vb) != va + vb
    ensures !RendersBySubstitution(payload, known)
  {
    hide Replace, ValidKey, TrimSpace, Parse, Variables, VariablesFor, Substitute, RenderPasses, ValueOf, Braced;
    var text := Braced(a) + Braced(raw);
    PairParses(a, raw, payload);
    KnownVariables(text, known);
    TwoPasses(text, a, TrimSpace(raw), payload);
    PairFirstPass(a, raw, ValueOf(payload, a));
  }

  /** A value left open hides the placeholder of any other variable, if that has enough white space in it. */
  lemma OpenValueFails(payload: map<string, string>, known: set<string>, a: string, b: string)
    requires a in known && b in known && ValidKey(a) && ValidKey(b) && a != b && !Closed(ValueOf(payload, a))
    ensures !RendersBySubstitution(payload, known)
  {
    var va, vb := ValueOf(payload, a), ValueOf(payload, b);
    var raw := Spaced(b, |va + vb|);
    hide Replace, ValidKey, TrimSpace, Closed, Braced, ValueOf;
    OpenHides(va, raw, vb);
    Refutes(payload, known, a, raw);
  }

  /** A placeholder of another variable in a value is replaced once that variable's turn comes. */
  lemma MovedValueFails(payload: map<string, string>, known: set<string>, a: string, b: string)
    requires a in known && b in known && ValidKey(a) && ValidKey(b) && a != b
    requires Closed(ValueOf(payload, a)) && Closed(ValueOf(payload, b))
    requires !Stays(ValueOf(payload, a), b, ValueOf(payload, b))
    ensures !RendersBySubstitution(payload, known)
  {
    var va, vb := ValueOf(payload, a), ValueOf(payload, b);
    hide Replace, ValidKey, TrimSpace, Closed, Stays, Braced, ValueOf;
    if Replace(va, b, vb) == va {
      FixedStays(va, b, vb);
    }
    KeyTrims(b);
    PairFirstPass(a, b, vb);
    ReplaceConcat(va, Braced(b), b, vb);
    SameEnd(Replace(va, b, vb), va, vb);
    Refutes(payload, known, a, b);
  }

  lemma SameEnd(a: string, b: string, c: string)
    ensures a + c == b + c ==> a == b
  {
    if a + c == b + c {
      assert |a| == |b|;
      assert (a + c)[..|a|] == a && (b + c)[..|b|] == b;
    }
  }

  /** Rendering is substitution, for every text the renderer accepts, iff the values are harmless to each other. */
  lemma RendersBySubstitutionIffHarmless(payload: map<string, string>, known: set<string>)
    ensures RendersBySubstitution(payload, known) <==> Harmless(payload, known)
  {
    hide Closed, Stays, ValidKey, Parse, Substitute, Rendered, VariablesFor, ValueOf;
    if Harmless(payload, known) {
      forall text | VariablesFor(text, known).Ok?
        ensures Parse(text).Template?
        ensures Rendered(text, known, payload) == Ok(Substitute(Parse(text).slots, Parse(text).tail, payload))
      {
        HarmlessRenders(payload, known, text);
      }
    } else if a, b :| a in known && b in known && ValidKey(a) && ValidKey(b) && a != b && !Closed(ValueOf(payload, a)) {
      OpenValueFails(payload, known, a, b);
    } else {
      var a, b :| a in known && b in known && ValidKey(a) && ValidKey(b) && a != b
                  && !(Closed(ValueOf(payload, a)) && Stays(ValueOf(payload, a), b, ValueOf(payload, b)));
      assert Closed(ValueOf(payload, b));
      MovedValueFails(payload, known, a, b);
    }
  }

  /** A value that holds a placeholder of another variable is substituted again, and then the order of the variables shows. */
  lemma BracesInValuesAreRescanned(a: string, b: string, x: string)
    requires ValidKey(a) && ValidKey(b) && a != b && Quiet(x)
    ensures var text, payload := Braced(a) + Braced(b), map[a := Braced(b), b := x];
            RenderPasses(text, [a, b], payload) == x + x && RenderPasses(text, [b, a], payload) == Braced(b) + x
  {
    hide Replace, TrimSpace, Braced, ValidKey, Quiet;
    var text, payload := Braced(a) + Braced(b), map[a := Braced(b), b := x];
    KeyTrims(a);
    KeyTrims(b);
    PairFirstPass(a, b, Braced(b));
    PairFirstPass(a, b, x);
    ReplaceSlot(b, Braced(b), b, x);
    ReplaceSlot(a, Braced(b), b, x);
    ReplaceSlot(a, x, a, Braced(b));
    ReplaceQuiet(x, a, Braced(b));
    TwoPasses(text, a, b, payload);
    TwoPasses(text, b, a, payload);
  }
}
