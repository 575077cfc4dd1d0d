/** The RouterOS reply limiter (internal/platform/mikrotik/binary_limit.go).

    A reply is a sequence of words, each a 1- to 5-byte length prefix followed by that many bytes.
    The limiter sees the stream in chunks of any size and fails before it lets through a prefix
    declaring more than 1 MiB, a control byte in prefix position, or more than 8 MiB in all. */
module FrameLimit {
  import opened Wrappers

  type byte = x: int | 0 <= x < 256

  const MAX_WORD_BYTES := 0x10_0000
  const MAX_RESPONSE_BYTES := 0x80_0000

  datatype Failure = TooLarge | Malformed

  function Min(a: int, b: int): int {
    if a < b then a else b
  }

  // ---------- length prefixes ----------

  /** How many bytes the prefix starting with `first` has; 0 for a control byte. */
  function PrefixLength(first: byte): nat {
    if first < 0x80 then 1
    else if first < 0xC0 then 2
    else if first < 0xE0 then 3
    else if first < 0xF0 then 4
    else if first == 0xF0 then 5
    else 0
  }

  predicate WholePrefix(p: seq<byte>) {
    p != [] && |p| == PrefixLength(p[0])
  }

  predicate PartialPrefix(p: seq<byte>) {
    p != [] ==> |p| < PrefixLength(p[0])
  }

  /** The masks and shifts of the source, as remainders and products of disjoint bit fields. */
  function DecodeLength(p: seq<byte>): nat
    requires 1 <= |p| <= 5
  {
    if |p| == 1 then p[0]
    else if |p| == 2 then Bits(p[0], 0x40) * 0x100 + p[1]
    else if |p| == 3 then Bits(p[0], 0x20) * 0x1_0000 + Bits(p[1], 0x100) * 0x100 + p[2]
    else if |p| == 4 then
      Bits(p[0], 0x10) * 0x100_0000 + Bits(p[1], 0x100) * 0x1_0000 + Bits(p[2], 0x100) * 0x100 + p[3]
    else
      Bits(p[1], 0x100) * 0x100_0000 + Bits(p[2], 0x100) * 0x1_0000 + Bits(p[3], 0x100) * 0x100 + p[4]
  }

  /** The bits of `b` below the power of two `m`. */
  function Bits(b: byte, m: int): int
    requires m == 0x10 || m == 0x20 || m == 0x40 || m == 0x100
  {
    if m == 0x10 then b % 0x10 else if m == 0x20 then b % 0x20 else if m == 0x40 then b % 0x40 else b
  }

  /** The shortest prefix for a length below 2^32. */
  function EncodeLength(n: nat): (p: seq<byte>)
    requires n < 0x1_0000_0000
    ensures WholePrefix(p)
  {
    if n < 0x80 then [n]
    else if n < 0x4000 then [0x80 + n / 0x100, n % 0x100]
    else if n < 0x20_0000 then [0xC0 + n / 0x1_0000, n / 0x100 % 0x100, n % 0x100]
    else if n < 0x1000_0000 then [0xE0 + n / 0x100_0000, n / 0x1_0000 % 0x100, n / 0x100 % 0x100, n % 0x100]
    else [0xF0, n / 0x100_0000, n / 0x1_0000 % 0x100, n / 0x100 % 0x100, n % 0x100]
  }

  lemma BytesOf(n: nat)
    ensures n == n / 0x100 * 0x100 + n % 0x100
    ensures n / 0x100 == n / 0x1_0000 * 0x100 + n / 0x100 % 0x100
    ensures n / 0x1_0000 == n / 0x100_0000 * 0x100 + n / 0x1_0000 % 0x100
  {
  }

  lemma ShortLengthsDecode(n: nat)
    requires n < 0x20_0000
    ensures DecodeLength(EncodeLength(n)) == n
  {
    BytesOf(n);
  }

  lemma LongLengthsDecode(n: nat)
    requires 0x20_0000 <= n < 0x1_0000_0000
    ensures DecodeLength(EncodeLength(n)) == n
  {
    BytesOf(n);
  }

  lemma DecodeInvertsEncode(n: nat)
    requires n < 0x1_0000_0000
    ensures DecodeLength(EncodeLength(n)) == n
  {
    hide DecodeLength, EncodeLength;
    if n < 0x20_0000 {
      ShortLengthsDecode(n);
    } else {
      LongLengthsDecode(n);
    }
  }

  /** Every length a prefix can declare is below 2^32, and no encoder could make that prefix shorter
      without changing what it declares. */
  lemma DecodedLengthHasShortestPrefix(p: seq<byte>)
    requires WholePrefix(p)
    ensures DecodeLength(p) < 0x1_0000_0000
    ensures |EncodeLength(DecodeLength(p))| <= |p|
  {
  }

  // ---------- the whole-stream reference decoder ----------

  /** `prefix` and `skip` are what the stream leaves open: a part of a prefix, or body bytes still to come. */
  datatype Outcome = Accepted(prefix: seq<byte>, skip: nat) | Rejected(failure: Failure)

  function Decode(s: seq<byte>): Outcome
    decreases |s|, 0
  {
    if PartialPrefix(s) then Accepted(s, 0)
    else
      var k := PrefixLength(s[0]);
      if k == 0 then Rejected(Malformed)
      else if DecodeLength(s[..k]) > MAX_WORD_BYTES then Rejected(TooLarge)
      else Body(DecodeLength(s[..k]), s[k..])
  }

  /** The rest of a stream that starts inside a word with `skip` body bytes to come. */
  function Body(skip: nat, s: seq<byte>): Outcome
    decreases |s|, 1
  {
    if |s| < skip then Accepted([], skip - |s|) else Decode(s[skip..])
  }

  /** Decoding goes on from what an earlier part of the stream left open. */
  function Resume(prefix: seq<byte>, skip: nat, s: seq<byte>): Outcome {
    if skip > 0 then Body(skip, s) else Decode(prefix + s)
  }

  /** One byte is a whole word's prefix, the start of a longer one, or a control byte. */
  lemma FirstByte(b: byte, s: seq<byte>)
    ensures Decode([b]) == if b <= 127 then Accepted([], b) else if b <= 240 then Accepted([b], 0) else Rejected(Malformed)
    ensures b > 240 ==> Decode([b] + s) == Rejected(Malformed)
  {
  }

  /** A word may have a mebibyte and no more. */
  lemma WordLimit(n: nat)
    requires n < 0x1_0000_0000
    ensures Decode(EncodeLength(n)) == if n <= 1_048_576 then Accepted([], n) else Rejected(TooLarge)
  {
    hide DecodeLength, EncodeLength;
    DecodeInvertsEncode(n);
    var p := EncodeLength(n);
    assert p[..|p|] == p && p[|p|..] == [];
  }

  /** Decoding a stream in two parts is decoding it whole, wherever the cut falls. */
  lemma {:induction false} DecodeInParts(s: seq<byte>, t: seq<byte>)
    ensures match Decode(s)
            case Accepted(prefix, skip) => Decode(s + t) == Resume(prefix, skip, t)
            case Rejected(f) => Decode(s + t) == Rejected(f)
    ensures Decode(s).Accepted? ==> PartialPrefix(Decode(s).prefix) && (Decode(s).skip > 0 ==> Decode(s).prefix == [])
    decreases |s|
  {
    if !PartialPrefix(s) && PrefixLength(s[0]) > 0 {
      var k := PrefixLength(s[0]);
      assert (s + t)[..k] == s[..k];
      assert (s + t)[k..] == s[k..] + t;
      var l := DecodeLength(s[..k]);
      if l <= |s[k..]| {
        assert (s[k..] + t)[l..] == s[k..][l..] + t;
        DecodeInParts(s[k..][l..], t);
      } else if l <= |s[k..] + t| {
        assert (s[k..] + t)[l..] == t[l - |s[k..]|..];
      }
    }
  }

  lemma DecodeAfterPrefix(p: seq<byte>, rest: seq<byte>)
    requires WholePrefix(p)
    ensures Decode(p + rest) ==
            if DecodeLength(p) > MAX_WORD_BYTES then Rejected(TooLarge) else Body(DecodeLength(p), rest)
  {
    var s := p + rest;
    assert s[0] == p[0] && s[..|p|] == p && s[|p|..] == rest;
  }

  lemma BodyThenRest(body: seq<byte>, rest: seq<byte>)
    ensures Body(|body|, body + rest) == Decode(rest)
  {
    assert (body + rest)[|body|..] == rest;
  }

  lemma SkipPart(skip: nat, s: seq<byte>, k: nat)
    requires k <= skip && k <= |s| && skip > 0
    ensures Body(skip, s) == Resume([], skip - k, s[k..])
  {
    assert skip <= |s| ==> s[skip..] == s[k..][skip - k..];
    assert [] + s[k..] == s[k..];
  }

  lemma ControlByte(s: seq<byte>)
    requires s != [] && PrefixLength(s[0]) == 0
    ensures Decode(s) == Rejected(Malformed)
  {
  }

  lemma OpenPrefix(prefix: seq<byte>)
    requires PartialPrefix(prefix)
    ensures Decode(prefix) == Accepted(prefix, 0)
  {
  }

  lemma OpenBody(skip: nat)
    requires skip > 0
    ensures Body(skip, []) == Accepted([], skip)
  {
  }

  lemma EmptyBody(s: seq<byte>)
    ensures Body(0, s) == Decode([] + s)
  {
    assert s[0..] == [] + s;
  }

  lemma MoveBytes(prefix: seq<byte>, b: seq<byte>, k: nat)
    requires k <= |b|
    ensures prefix + b == prefix + b[..k] + b[k..]
  {
  }

  // ---------- what the reference decoder accepts ----------

  datatype Word = Word(prefix: seq<byte>, body: seq<byte>)

  ghost predicate AllowedWord(w: Word) {
    WholePrefix(w.prefix) && DecodeLength(w.prefix) == |w.body| && |w.body| <= MAX_WORD_BYTES
  }

  ghost function Bytes(words: seq<Word>): seq<byte> {
    if words == [] then [] else words[0].prefix + words[0].body + Bytes(words[1..])
  }

  /** An unfinished end: part of a prefix, or an allowed prefix with part of its body. */
  ghost predicate Unfinished(tail: seq<byte>, prefix: seq<byte>, skip: nat) {
    if skip == 0 then PartialPrefix(tail) && prefix == tail
    else
      && prefix == [] && tail != [] && 0 < PrefixLength(tail[0]) <= |tail|
      && var k := PrefixLength(tail[0]);
         |tail| - k + skip == DecodeLength(tail[..k]) <= MAX_WORD_BYTES
  }

  lemma {:induction false} AllowedWordsAreAccepted(words: seq<Word>, tail: seq<byte>, prefix: seq<byte>, skip: nat)
    requires forall w :: w in words ==> AllowedWord(w)
    requires Unfinished(tail, prefix, skip)
    ensures Decode(Bytes(words) + tail) == Accepted(prefix, skip)
    decreases |words|
  {
    if words == [] {
      assert Bytes(words) + tail == tail;
      if skip > 0 {
        var k := PrefixLength(tail[0]);
        assert tail == tail[..k] + tail[k..];
        DecodeAfterPrefix(tail[..k], tail[k..]);
      }
    } else {
      var w := words[0];
      assert w in words && AllowedWord(w);
      var rest := Bytes(words[1..]) + tail;
      assert Bytes(words) + tail == w.prefix + (w.body + rest);
      DecodeAfterPrefix(w.prefix, w.body + rest);
      BodyThenRest(w.body, rest);
      AllowedWordsAreAccepted(words[1..], tail, prefix, skip);
    }
  }

  lemma {:induction false} AcceptedStreamIsAllowedWords(s: seq<byte>) returns (words: seq<Word>, tail: seq<byte>)
    requires Decode(s).Accepted?
    ensures forall w :: w in words ==> AllowedWord(w)
    ensures s == Bytes(words) + tail && Unfinished(tail, Decode(s).prefix, Decode(s).skip)
    decreases |s|
  {
    hide DecodeLength;
    if PartialPrefix(s) {
      return [], s;
    }
    var p, after := s[..PrefixLength(s[0])], s[PrefixLength(s[0])..];
    assert s == p + after;
    DecodeAfterPrefix(p, after);
    var l := DecodeLength(p);
    if |after| < l {
      return [], s;
    }
    var w := Word(p, after[..l]);
    assert after == w.body + after[l..];
    BodyThenRest(w.body, after[l..]);
    words, tail := AcceptedStreamIsAllowedWords(after[l..]);
    BytesOfCons(w, words, tail);
    words := [w] + words;
  }

  lemma BytesOfCons(w: Word, words: seq<Word>, tail: seq<byte>)
    ensures Bytes([w] + words) + tail == w.prefix + (w.body + (Bytes(words) + tail))
  {
    assert ([w] + words)[1..] == words;
  }

  /** A stream is accepted iff it is allowed words followed by an unfinished end, and the decoder reports that end. */
  lemma AcceptedIffAllowedWords(s: seq<byte>, prefix: seq<byte>, skip: nat)
    ensures Decode(s) == Accepted(prefix, skip) <==>
            exists words, tail :: (forall w :: w in words ==> AllowedWord(w))
                                  && s == Bytes(words) + tail && Unfinished(tail, prefix, skip)
  {
    if Decode(s) == Accepted(prefix, skip) {
      var words, tail := AcceptedStreamIsAllowedWords(s);
      assert s == Bytes(words) + tail;
    }
    forall words, tail | (forall w :: w in words ==> AllowedWord(w))
                         && s == Bytes(words) + tail && Unfinished(tail, prefix, skip)
      ensures Decode(s) == Accepted(prefix, skip)
    {
      AllowedWordsAreAccepted(words, tail, prefix, skip);
    }
  }

  // ---------- the limiter over a run of reads ----------

  datatype Limiter = Open(total: nat, prefix: seq<byte>, skip: nat) | Failed(failure: Failure)

  const FRESH := Open(0, [], 0)

  function AfterRead(c: Limiter, chunk: seq<byte>): Limiter {
    if c.Failed? then c
    else if c.total + |chunk| > MAX_RESPONSE_BYTES then Failed(TooLarge)
    else match Resume(c.prefix, c.skip, chunk)
      case Accepted(prefix, skip) => Open(c.total + |chunk|, prefix, skip)
      case Rejected(f) => Failed(f)
  }

  function AfterReads(chunks: seq<seq<byte>>): Limiter {
    if chunks == [] then FRESH else AfterRead(AfterReads(chunks[..|chunks| - 1]), chunks[|chunks| - 1])
  }

  function Concat(chunks: seq<seq<byte>>): seq<byte> {
    if chunks == [] then [] else Concat(chunks[..|chunks| - 1]) + chunks[|chunks| - 1]
  }

  /** However the stream is cut into chunks, the limiter stays open iff the whole stream is within 8 MiB and
      the reference decoder accepts it, and then it is in the reference decoder's final state. */
  lemma {:induction false} ChunkingIsIrrelevant(chunks: seq<seq<byte>>)
    ensures var s := Concat(chunks);
            if |s| <= 8_388_608 && Decode(s).Accepted?
            then AfterReads(chunks) == Open(|s|, Decode(s).prefix, Decode(s).skip)
            else AfterReads(chunks).Failed?
    decreases |chunks|
  {
    if chunks != [] {
      var front, last := chunks[..|chunks| - 1], chunks[|chunks| - 1];
      ChunkingIsIrrelevant(front);
      DecodeInParts(Concat(front), last);
    }
  }

  // ---------- the connection ----------

  datatype ReadError = NoError | Connection | Limit(failure: Failure)

  class LimitedConn {
    var total: nat
    var prefix: seq<byte>
    var need: nat
    var skip: nat
    var failure: Option<Failure>
    /** Everything `Read` has let through. */
    ghost var released: seq<byte>

    ghost predicate Consistent()
      reads this
    {
      PartialPrefix(prefix) && (prefix != [] ==> need == PrefixLength(prefix[0]) && skip == 0)
    }

    ghost predicate Valid()
      reads this
    {
      && |released| <= MAX_RESPONSE_BYTES
      && Decode(released).Accepted?
      && (failure == None ==> Consistent() && total == |released| && Decode(released) == Accepted(prefix, skip))
    }

    function View(): Limiter
      reads this
    {
      match failure
      case None => Open(total, prefix, skip)
      case Some(f) => Failed(f)
    }

    constructor ()
      ensures Valid() && View() == FRESH && released == []
    {
      total, prefix, need, skip, failure, released := 0, [], 0, 0, None, [];
    }

    method Scan(chunk: seq<byte>) returns (err: Option<Failure>)
      requires Consistent()
      modifies this`total, this`prefix, this`need, this`skip
      ensures match AfterRead(Open(old(total), old(prefix), old(skip)), chunk)
              case Failed(f) => err == Some(f)
              case Open(t, p, k) => err == None && Consistent() && total == t && prefix == p && skip == k
    {
      hide DecodeLength, Decode, Body;
      var b := chunk;
      total := total + |b|;
      if total > MAX_RESPONSE_BYTES {
        return Some(TooLarge);
      }
      while |b| > 0
        invariant Consistent() && total == old(total) + |chunk|
        invariant Resume(prefix, skip, b) == Resume(old(prefix), old(skip), chunk)
        decreases |b|
      {
        if skip > 0 {
          var k := Min(skip, |b|);
          SkipPart(skip, b, k);
          skip := skip - k;
          b := b[k..];
          continue;
        }
        if |prefix| == 0 {
          need := PrefixLength(b[0]);
          if need == 0 {
            ControlByte(b);
            assert prefix + b == b;
            return Some(Malformed);
          }
        }
        var k := Min(need - |prefix|, |b|);
        MoveBytes(prefix, b, k);
        prefix := prefix + b[..k];
        b := b[k..];
        if |prefix| < need {
          OpenPrefix(prefix);
          assert prefix + b == prefix;
          return None;
        }
        DecodeAfterPrefix(prefix, b);
        var l := DecodeLength(prefix);
        prefix := [];
        if l > MAX_WORD_BYTES {
          return Some(TooLarge);
        }
        EmptyBody(b);
        skip := l;
      }
      OpenPrefix(prefix);
      if skip > 0 {
        OpenBody(skip);
      }
      assert prefix + b == prefix;
      return None;
    }

    /** One read: `incoming` and `connErr` are what the underlying connection gives. The bytes reach the caller only
        if no limit trips, so what has been released is always a stream the reference decoder accepts. */
    method Read(incoming: seq<byte>, connErr: bool) returns (n: nat, err: ReadError)
      requires Valid()
      modifies this
      ensures Valid()
      ensures View() == if old(failure) == None then AfterRead(old(View()), incoming) else old(View())
      ensures View().Failed? ==> n == 0 && err == Limit(View().failure) && released == old(released)
      ensures View().Open? ==> n == |incoming| && released == old(released) + incoming
                               && err == if connErr then Connection else NoError
    {
      if failure != None {
        return 0, Limit(failure.value);
      }
      if |incoming| > 0 {
        var ferr := Scan(incoming);
        DecodeInParts(released, incoming);
        if ferr != None {
          failure := ferr;
          return 0, Limit(ferr.value);
        }
      } else {
        assert prefix + incoming == prefix;
        assert released + incoming == released;
        DecodeInParts(released, incoming);
      }
      released := released + incoming;
      return |incoming|, if connErr then Connection else NoError;
    }
  }
}
