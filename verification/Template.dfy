/** The notification template parser and renderer (internal/core/notification/template).

    A template is text with `{{key}}` placeholders. The renderer substitutes one variable after another,
    each time scanning the text that the previous substitution produced. */
module Template {
  import opened Text

  datatype Reason = UnmatchedClosing | UnclosedOpening | EmptyVariable | NestedVariable | InvalidVariable
  datatype Error = MalformedVariable(reason: Reason) | UnknownVariable(key: string)
  datatype Result<T> = Ok(value: T) | Err(error: Error)

  predicate PairAt(s: string, c: char, i: int)
    requires 0 <= i && i + 1 < |s|
  {
    s[i] == c == s[i + 1]
  }

  /** `c` does not occur twice in a row. */
  predicate Unpaired(s: string, c: char) {
    forall i :: 0 <= i && i + 1 < |s| ==> !PairAt(s, c, i)
  }

  /** `strings.Index` for the two-character text `cc`: the first place where it starts, or -1. */
  function Index(s: string, c: char): (i: int)
    ensures -1 <= i && (i >= 0 ==> i + 1 < |s|)
  {
    if |s| < 2 then -1
    else if s[0] == c == s[1] then 0
    else
      var i := Index(s[1..], c);
      if i < 0 then -1 else i + 1
  }

  lemma {:induction false} IndexIsFirst(s: string, c: char)
    ensures var k := Index(s, c);
            if k < 0 then Unpaired(s, c) else PairAt(s, c, k) && forall i :: 0 <= i < k ==> !PairAt(s, c, i)
    decreases |s|
  {
    if |s| >= 2 && !PairAt(s, c, 0) {
      IndexIsFirst(s[1..], c);
      forall i | 0 < i && i + 1 < |s| ensures PairAt(s, c, i) == PairAt(s[1..], c, i - 1) {
      }
    }
  }

  lemma IndexAt(s: string, c: char, i: nat)
    requires i + 1 < |s| && PairAt(s, c, i) && forall j :: 0 <= j < i ==> !PairAt(s, c, j)
    ensures Index(s, c) == i
  {
    IndexIsFirst(s, c);
  }

  /** The pattern `^[a-z][a-z0-9_]*$`. */
  predicate ValidKey(key: string) {
    && key != [] && 'a' <= key[0] <= 'z'
    && forall i :: 0 <= i < |key| ==> 'a' <= key[i] <= 'z' || '0' <= key[i] <= '9' || key[i] == '_'
  }

  function Letters(): string {
    "abcdefghijklmnopqrstuvwxyz"
  }

  function KeyCharacters(): string {
    Letters() + "0123456789_"
  }

  /** The pattern, character by character. */
  lemma KeyPattern(key: string)
    ensures ValidKey(key) <==> key != "" && key[0] in Letters() && forall c :: c in key ==> c in KeyCharacters()
  {
    forall c ensures 'a' <= c <= 'z' <==> c in Letters() {
      InAlphabet(c);
    }
    forall c ensures 'a' <= c <= 'z' || '0' <= c <= '9' || c == '_' <==> c in KeyCharacters() {
      InAlphabet(c);
    }
    hide Letters, KeyCharacters;
    forall i | 0 <= i < |key| ensures key[i] in key {
    }
  }

  lemma InAlphabet(c: char)
    ensures 'a' <= c <= 'z' <==> c in Letters()
    ensures 'a' <= c <= 'z' || '0' <= c <= '9' || c == '_' <==> c in KeyCharacters()
  {
  }

  // ---------- what a template is ----------

  /** A placeholder `{{raw}}` with the text before it. */
  datatype Slot = Slot(literal: string, raw: string)

  datatype Parsed = Template(slots: seq<Slot>, tail: string) | Malformed(reason: Reason)

  function Braced(raw: string): string {
    "{{" + raw + "}}"
  }

  function Key(slot: Slot): string {
    TrimSpace(slot.raw)
  }

  /** What stands for a slot once the variables in `env` have been substituted. */
  function Piece(slot: Slot, env: map<string, string>): string {
    if Key(slot) in env then env[Key(slot)] else Braced(slot.raw)
  }

  /** The text of a template in which the variables in `env` have been substituted. */
  function Fill(slots: seq<Slot>, tail: string, env: map<string, string>): string {
    if slots == [] then tail else slots[0].literal + (Piece(slots[0], env) + Fill(slots[1..], tail, env))
  }

  function Flatten(slots: seq<Slot>, tail: string): string {
    Fill(slots, tail, map[])
  }

  /** Text that can stand before `{{` without forming or shifting it. */
  predicate Quiet(s: string) {
    Unpaired(s, '{') && (s != [] ==> s[|s| - 1] != '{')
  }

  predicate GoodSlot(slot: Slot) {
    Quiet(slot.literal) && Unpaired(slot.literal, '}') && ValidKey(Key(slot))
  }

  ghost predicate WellFormed(slots: seq<Slot>, tail: string) {
    (forall slot :: slot in slots ==> GoodSlot(slot)) && Unpaired(tail, '{') && Unpaired(tail, '}')
  }

  // ---------- the parser ----------

  datatype Round = Bad(reason: Reason) | Last | Found(slot: Slot, rest: string)

  /** One round of the parser's loop. */
  function NextSlot(text: string): (r: Round)
    ensures r.Found? ==> |r.rest| < |text|
  {
    var open, close := Index(text, '{'), Index(text, '}');
    if close >= 0 && (open < 0 || close < open) then Bad(UnmatchedClosing)
    else if open < 0 then Last
    else
      var after := text[open + 2..];
      var end := Index(after, '}');
      if end < 0 then Bad(UnclosedOpening)
      else
        var key := TrimSpace(after[..end]);
        if key == [] then Bad(EmptyVariable)
        else if Index(key, '{') >= 0 || Index(key, '}') >= 0 then Bad(NestedVariable)
        else if !ValidKey(key) then Bad(InvalidVariable)
        else Found(Slot(text[..open], after[..end]), after[end + 2..])
  }

  function Parse(text: string): Parsed
    decreases |text|
  {
    match NextSlot(text)
    case Bad(reason) => Malformed(reason)
    case Last => Template([], text)
    case Found(slot, rest) =>
      match Parse(rest)
      case Malformed(reason) => Malformed(reason)
      case Template(slots, tail) => Template([slot] + slots, tail)
  }

  /** The keys of the slots in order of first occurrence, after those in `seen`. */
  function Keys(slots: seq<Slot>, seen: seq<string>): seq<string> {
    if slots == [] then seen
    else Keys(slots[1..], if Key(slots[0]) in seen then seen else seen + [Key(slots[0])])
  }

  function VariablesFrom(text: string, seen: seq<string>): Result<seq<string>> {
    match Parse(text)
    case Malformed(reason) => Err(MalformedVariable(reason))
    case Template(slots, tail) => Ok(Keys(slots, seen))
  }

  function Variables(text: string): Result<seq<string>> {
    VariablesFrom(text, [])
  }

  function AfterRound(round: Round, seen: seq<string>): Result<seq<string>> {
    match round
    case Bad(reason) => Err(MalformedVariable(reason))
    case Last => Ok(seen)
    case Found(slot, rest) => VariablesFrom(rest, if Key(slot) in seen then seen else seen + [Key(slot)])
  }

  lemma VariablesRound(text: string, seen: seq<string>)
    ensures VariablesFrom(text, seen) == AfterRound(NextSlot(text), seen)
  {
    match NextSlot(text)
    case Bad(_) =>
    case Last =>
    case Found(slot, rest) =>
      if Parse(rest).Template? {
        assert ([slot] + Parse(rest).slots)[1..] == Parse(rest).slots;
      }
  }

  lemma RoundAt(text: string, offset: nat, seen: seq<string>)
    requires offset <= |text|
    ensures var open, close := Index(text[offset..], '{'), Index(text[offset..], '}');
            if close >= 0 && (open < 0 || close < open)
            then VariablesFrom(text[offset..], seen) == Err(MalformedVariable(UnmatchedClosing))
            else open < 0 ==> VariablesFrom(text[offset..], seen) == Ok(seen)
  {
    VariablesRound(text[offset..], seen);
  }

  lemma SlotAt(text: string, offset: nat, seen: seq<string>)
    requires offset <= |text| && Index(text[offset..], '{') >= 0
    requires !(0 <= Index(text[offset..], '}') < Index(text[offset..], '{'))
    ensures var result := VariablesFrom(text[offset..], seen);
            var start := offset + Index(text[offset..], '{') + 2;
            var end := start + Index(text[start..], '}');
            if end < start then result == Err(MalformedVariable(UnclosedOpening))
            else
              var key := TrimSpace(text[start..end]);
              if key == [] then result == Err(MalformedVariable(EmptyVariable))
              else if Index(key, '{') >= 0 || Index(key, '}') >= 0 then result == Err(MalformedVariable(NestedVariable))
              else if !ValidKey(key) then result == Err(MalformedVariable(InvalidVariable))
              else result == VariablesFrom(text[end + 2..], if key in seen then seen else seen + [key])
  {
    hide ValidKey, TrimSpace, Index, Unpaired, Parse, VariablesFrom;
    VariablesRound(text[offset..], seen);
    var open := Index(text[offset..], '{');
    SubSlice(text, offset, open + 2);
    var start := offset + open + 2;
    var end := Index(text[start..], '}');
    if end >= 0 {
      SubSlice(text, start, end);
      SubSlice(text, start, end + 2);
    }
  }

  lemma NoPairs(s: string)
    requires s == []
    ensures Index(s, '{') == -1 == Index(s, '}')
  {
  }

  method ParseVariables(text: string) returns (r: Result<seq<string>>)
    ensures r == Variables(text)
  {
    hide ValidKey, TrimSpace, Index, VariablesFrom;
    var variables: seq<string> := [];
    var offset := 0;
    assert text[0..] == text;
    while offset < |text|
      invariant 0 <= offset <= |text|
      invariant Variables(text) == VariablesFrom(text[offset..], variables)
      decreases |text| - offset
    {
      RoundAt(text, offset, variables);
      var nextOpen := Index(text[offset..], '{');
      var nextClose := Index(text[offset..], '}');
      if nextClose >= 0 && (nextOpen < 0 || nextClose < nextOpen) {
        return Err(MalformedVariable(UnmatchedClosing));
      }
      if nextOpen < 0 {
        return Ok(variables);
      }
      SlotAt(text, offset, variables);
      var start := offset + nextOpen;
      var endOffset := Index(text[start + 2..], '}');
      if endOffset < 0 {
        return Err(MalformedVariable(UnclosedOpening));
      }
      var end := start + 2 + endOffset;
      var rawKey := text[start + 2..end];
      var key := TrimSpace(rawKey);
      if key == [] {
        return Err(MalformedVariable(EmptyVariable));
      }
      if Index(key, '{') >= 0 || Index(key, '}') >= 0 {
        return Err(MalformedVariable(NestedVariable));
      }
      if !ValidKey(key) {
        return Err(MalformedVariable(InvalidVariable));
      }
      if key !in variables {
        variables := variables + [key];
      }
      offset := end + 2;
    }
    RoundAt(text, offset, variables);
    NoPairs(text[offset..]);
    return Ok(variables);
  }

  // ---------- accepted texts decompose uniquely ----------

  lemma KeyHasNoBraces(raw: string, c: char)
    requires ValidKey(TrimSpace(raw)) && (c == '{' || c == '}')
    ensures c !in raw
  {
    if c in raw {
      TrimKeepsRest(raw, IsSpace, c);
    }
  }

  lemma QuietConcat(a: string, b: string)
    requires Quiet(a) && Unpaired(b, '{')
    ensures Unpaired(a + b, '{')
    ensures Quiet(b) ==> Quiet(a + b)
  {
    forall i | 0 <= i && i + 1 < |a + b| ensures !PairAt(a + b, '{', i) {
      assert i + 1 < |a| ==> !PairAt(a, '{', i);
      assert i >= |a| ==> !PairAt(b, '{', i - |a|);
    }
  }

  /** A placeholder after quiet text is where the first `{{` is. */
  lemma FirstOpen(pre: string, rest: string)
    requires Quiet(pre)
    ensures Index(pre + "{{" + rest, '{') == |pre|
  {
    var s := pre + "{{" + rest;
    forall j | 0 <= j < |pre| ensures !PairAt(s, '{', j) {
      assert j + 1 < |pre| ==> !PairAt(pre, '{', j);
    }
    IndexAt(s, '{', |pre|);
  }

  /** Text that can stand between `{{` and `}}` without the closing braces coming sooner. */
  predicate Enclosed(raw: string) {
    Unpaired(raw + "}", '}')
  }

  lemma FirstClose(raw: string, rest: string)
    requires Enclosed(raw)
    ensures Index(raw + "}}" + rest, '}') == |raw|
  {
    var s := raw + "}}" + rest;
    forall j | 0 <= j < |raw| ensures !PairAt(s, '}', j) {
      assert !PairAt(raw + "}", '}', j);
    }
    IndexAt(s, '}', |raw|);
  }

  lemma NoCloseBefore(pre: string, rest: string)
    requires Unpaired(pre, '}')
    ensures !(0 <= Index(pre + "{{" + rest, '}') < |pre|)
  {
    var s := pre + "{{" + rest;
    IndexIsFirst(s, '}');
    forall j | 0 <= j < |pre| ensures !PairAt(s, '}', j) {
      assert j + 1 < |pre| ==> !PairAt(pre, '}', j);
    }
  }

  lemma SlicesOfSlot(pre: string, raw: string, rest: string)
    ensures var text := pre + (Braced(raw) + rest);
            && text == pre + "{{" + (raw + "}}" + rest)
            && text[..|pre|] == pre && text[|pre| + 2..] == raw + "}}" + rest
            && text[..|pre| + 2 + |raw| + 2] == pre + Braced(raw)
            && (raw + "}}" + rest)[..|raw|] == raw && (raw + "}}" + rest)[|raw| + 2..] == rest
  {
  }

  lemma ParseSlot(slot: Slot, rest: string)
    requires GoodSlot(slot)
    ensures NextSlot(slot.literal + (Braced(slot.raw) + rest)) == Found(slot, rest)
  {
    hide TrimSpace, Index, Braced, ValidKey;
    SlicesOfSlot(slot.literal, slot.raw, rest);
    FirstOpen(slot.literal, slot.raw + "}}" + rest);
    NoCloseBefore(slot.literal, slot.raw + "}}" + rest);
    KeyHasNoBraces(slot.raw, '}');
    FirstClose(slot.raw, rest);
    KeyIsUnpaired(Key(slot));
  }

  lemma KeyIsUnpaired(key: string)
    requires ValidKey(key)
    ensures key != [] && Index(key, '{') == -1 == Index(key, '}')
  {
    IndexIsFirst(key, '{');
    IndexIsFirst(key, '}');
  }

  lemma NoSlotIn(tail: string)
    requires Unpaired(tail, '{') && Unpaired(tail, '}')
    ensures NextSlot(tail) == Last
  {
    IndexIsFirst(tail, '{');
    IndexIsFirst(tail, '}');
  }

  lemma {:induction false} FlattenedIsParsed(slots: seq<Slot>, tail: string)
    requires WellFormed(slots, tail)
    ensures Parse(Flatten(slots, tail)) == Template(slots, tail)
    decreases |slots|
  {
    hide NextSlot, GoodSlot, Braced, Unpaired;
    if slots == [] {
      NoSlotIn(tail);
    } else {
      assert slots[0] in slots;
      ParseSlot(slots[0], Flatten(slots[1..], tail));
      FlattenedIsParsed(slots[1..], tail);
      assert [slots[0]] + slots[1..] == slots;
    }
  }

  lemma FoundSlot(text: string)
    requires NextSlot(text).Found?
    ensures var r := NextSlot(text); GoodSlot(r.slot) && text == r.slot.literal + (Braced(r.slot.raw) + r.rest)
  {
    hide TrimSpace, ValidKey, Index;
    var open := Index(text, '{');
    var after := text[open + 2..];
    var end := Index(after, '}');
    IndexIsFirst(text, '{');
    IndexIsFirst(text, '}');
    IndexIsFirst(after, '}');
    assert text == text[..open] + "{{" + after;
    assert after == after[..end] + "}}" + after[end + 2..];
    LiteralBefore(text, open);
    SlicesOfSlot(text[..open], after[..end], after[end + 2..]);
  }

  lemma LiteralBefore(text: string, open: nat)
    requires open + 1 < |text| && PairAt(text, '{', open)
    requires forall i :: 0 <= i < open ==> !PairAt(text, '{', i)
    requires forall i :: 0 <= i < open ==> !PairAt(text, '}', i)
    ensures Quiet(text[..open]) && Unpaired(text[..open], '}')
  {
    var s := text[..open];
    forall i, c | 0 <= i && i + 1 < |s| ensures PairAt(s, c, i) == PairAt(text, c, i) {
    }
    if open > 0 {
      assert !PairAt(text, '{', open - 1);
    }
  }

  lemma {:induction false} ParsedIsFlattened(text: string)
    requires Parse(text).Template?
    ensures WellFormed(Parse(text).slots, Parse(text).tail)
    ensures Flatten(Parse(text).slots, Parse(text).tail) == text
    decreases |text|
  {
    match NextSlot(text)
    case Last =>
      IndexIsFirst(text, '{');
      IndexIsFirst(text, '}');
    case Found(slot, rest) =>
      FoundSlot(text);
      ParsedIsFlattened(rest);
      assert ([slot] + Parse(rest).slots)[1..] == Parse(rest).slots;
  }

  /** The parser accepts exactly the texts that are well-formed templates, and a text is one in one way only. */
  lemma ParseIsUniqueDecomposition(text: string, slots: seq<Slot>, tail: string)
    ensures Parse(text) == Template(slots, tail) <==> WellFormed(slots, tail) && Flatten(slots, tail) == text
  {
    if Parse(text) == Template(slots, tail) {
      ParsedIsFlattened(text);
    } else if WellFormed(slots, tail) && Flatten(slots, tail) == text {
      FlattenedIsParsed(slots, tail);
    }
  }

  // ---------- the renderer ----------

  /** One pass of the renderer: every placeholder whose key is `key` becomes `value`, the rest stays as it is. */
  function Replace(text: string, key: string, value: string): string
    decreases |text|
  {
    var open := Index(text, '{');
    if open < 0 then text
    else
      var after := text[open + 2..];
      var end := Index(after, '}');
      if end < 0 then text
      else
        (if TrimSpace(after[..end]) == key then text[..open] + value else text[..open + 2 + end + 2])
        + Replace(after[end + 2..], key, value)
  }

  lemma ReplaceStops(text: string, offset: nat, key: string, value: string)
    requires offset <= |text|
    requires var open := Index(text[offset..], '{');
             open < 0 || Index(text[offset + open + 2..], '}') < 0
    ensures Replace(text[offset..], key, value) == text[offset..]
  {
    hide TrimSpace, Index;
    var open := Index(text[offset..], '{');
    if open >= 0 {
      SubSlice(text, offset, open + 2);
    }
  }

  lemma SlicesFrom(text: string, offset: nat, open: nat, end: nat)
    requires offset + open + 2 + end + 2 <= |text|
    ensures var rest, start := text[offset..], offset + open;
            && rest[open + 2..] == text[start + 2..]
            && rest[..open] == text[offset..start]
            && rest[..open + 2 + end + 2] == text[offset..start + 2 + end + 2]
            && text[start + 2..][..end] == text[start + 2..start + 2 + end]
            && text[start + 2..][end + 2..] == text[start + 2 + end + 2..]
  {
    SubSlice(text, offset, open + 2);
    SubSlice(text, offset, open);
    SubSlice(text, offset, open + 2 + end + 2);
    SubSlice(text, offset + open + 2, end);
    SubSlice(text, offset + open + 2, end + 2);
  }

  lemma ReplaceGoesOn(text: string, offset: nat, open: nat, end: nat, key: string, value: string)
    requires offset <= |text| && open == Index(text[offset..], '{')
    requires end == Index(text[offset + open + 2..], '}')
    ensures var start := offset + open;
            Replace(text[offset..], key, value) ==
              (if TrimSpace(text[start + 2..start + 2 + end]) == key then text[offset..start] + value
               else text[offset..start + 2 + end + 2])
              + Replace(text[start + 2 + end + 2..], key, value)
  {
    hide TrimSpace, Index, Replace;
    SlicesFrom(text, offset, open, end);
    ReplaceUnfolds(text[offset..], open, end, key, value);
  }

  lemma ReplaceUnfolds(text: string, open: nat, end: nat, key: string, value: string)
    requires open == Index(text, '{') && end == Index(text[open + 2..], '}')
    ensures var after := text[open + 2..];
            Replace(text, key, value) ==
              (if TrimSpace(after[..end]) == key then text[..open] + value else text[..open + 2 + end + 2])
              + Replace(after[end + 2..], key, value)
  {
  }

  lemma Regroup(a: string, b: string, c: string, d: string)
    ensures a + (b + c + d) == a + b + c + d
    ensures c == "" ==> b + c == b && a + b + c == a + b
  {
  }

  method ReplaceVariable(text: string, key: string, value: string) returns (builder: string)
    ensures builder == Replace(text, key, value)
  {
    hide Index, TrimSpace, Replace;
    builder := "";
    var offset := 0;
    assert text[0..] == text;
    while offset < |text|
      invariant 0 <= offset <= |text|
      invariant builder + Replace(text[offset..], key, value) == Replace(text, key, value)
      decreases |text| - offset
    {
      var startOffset := Index(text[offset..], '{');
      if startOffset < 0 {
        ReplaceStops(text, offset, key, value);
        builder := builder + text[offset..];
        return;
      }
      var start := offset + startOffset;
      var endOffset := Index(text[start + 2..], '}');
      if endOffset < 0 {
        ReplaceStops(text, offset, key, value);
        builder := builder + text[offset..];
        return;
      }
      var end := start + 2 + endOffset;
      var rawKey := text[start + 2..end];
      ReplaceGoesOn(text, offset, startOffset, endOffset, key, value);
      ghost var before, rest := builder, Replace(text[end + 2..], key, value);
      if TrimSpace(rawKey) == key {
        Regroup(before, text[offset..start], value, rest);
        builder := builder + text[offset..start];
        builder := builder + value;
      } else {
        Regroup(before, text[offset..end + 2], "", rest);
        builder := builder + text[offset..end + 2];
      }
      offset := end + 2;
    }
    NoPairs(text[offset..]);
    ReplaceStops(text, offset, key, value);
    assert text[offset..] == [];
  }

  /** One pass per variable, each over the text the previous pass produced. */
  function RenderPasses(text: string, variables: seq<string>, payload: map<string, string>): string
    decreases |variables|
  {
    if variables == [] then text
    else RenderPasses(Replace(text, variables[0], ValueOf(payload, variables[0])), variables[1..], payload)
  }

  /** `valueToString(payload[key])`: a missing value prints as nothing. */
  function ValueOf(payload: map<string, string>, key: string): string {
    if key in payload then payload[key] else ""
  }

  /** `ParseForTemplate`: parse, then reject the first variable the registry does not know. */
  function VariablesFor(text: string, known: set<string>): Result<seq<string>> {
    match Variables(text)
    case Err(e) => Err(e)
    case Ok(variables) =>
      var unknown := FirstUnknown(variables, known);
      if unknown < |variables| then Err(UnknownVariable(variables[unknown])) else Ok(variables)
  }

  function FirstUnknown(variables: seq<string>, known: set<string>): (i: nat)
    ensures i <= |variables|
    ensures forall j :: 0 <= j < i ==> variables[j] in known
    ensures i < |variables| ==> variables[i] !in known
  {
    if variables == [] || variables[0] !in known then 0 else 1 + FirstUnknown(variables[1..], known)
  }

  /** One pass per variable of the text, or the parser's error. */
  function Rendered(text: string, known: set<string>, payload: map<string, string>): Result<string> {
    match VariablesFor(text, known)
    case Err(e) => Err(e)
    case Ok(variables) => Ok(RenderPasses(text, variables, payload))
  }

  method RenderText(text: string, known: set<string>, payload: map<string, string>) returns (r: Result<string>)
    ensures r == Rendered(text, known, payload)
  {
    var parsed := ParseVariables(text);
    if parsed.Err? {
      return Err(parsed.error);
    }
    var variables := parsed.value;
    for i := 0 to |variables|
      invariant forall j :: 0 <= j < i ==> variables[j] in known
    {
      if variables[i] !in known {
        return Err(UnknownVariable(variables[i]));
      }
    }
    var rendered := text;
    assert variables[0..] == variables;
    for i := 0 to |variables|
      invariant RenderPasses(rendered, variables[i..], payload) == RenderPasses(text, variables, payload)
    {
      assert variables[i..][0] == variables[i] && variables[i..][1..] == variables[i + 1..];
      rendered := ReplaceVariable(rendered, variables[i], ValueOf(payload, variables[i]));
    }
    return Ok(rendered);
  }
}
