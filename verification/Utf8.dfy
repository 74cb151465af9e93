/**
 UTF-8 (RFC 3629, section 3) as the Qt string converters read and write it. A string is a sequence of
 Unicode scalar values.
 */
module Utf8 {
  import opened Common

  const BOM: seq<byte> := [0xEF, 0xBB, 0xBF]
  const ZERO_WIDTH_NO_BREAK := '\U{FEFF}'
  const REPLACEMENT := '\U{FFFD}'

  function EncodeChar(c: char): (r: seq<byte>)
    ensures 1 <= |r| <= 4
  {
    var n := c as int;
    if n < 0x80 then [n]
    else if n < 0x800 then [0xC0 + n / 0x40, 0x80 + n % 0x40]
    else if n < 0x1_0000 then [0xE0 + n / 0x1000, 0x80 + n / 0x40 % 0x40, 0x80 + n % 0x40]
    else [0xF0 + n / 0x4_0000, 0x80 + n / 0x1000 % 0x40, 0x80 + n / 0x40 % 0x40, 0x80 + n % 0x40]
  }

  function Encode(s: string): seq<byte> {
    if s == [] then [] else EncodeChar(s[0]) + Encode(s[1..])
  }

  predicate Continuation(b: byte) { 0x80 <= b < 0xC0 }

  /** The six bits a continuation byte carries. */
  function Low(b: byte): int { b as int - 0x80 }

  predicate Scalar(n: int) { 0 <= n < 0xD800 || 0xE000 <= n < 0x11_0000 }

  /** What the converter makes of the front of its input. */
  datatype Step = Char(c: char, size: nat) | Bad | Unfinished

  function Accept(n: int, least: int, size: nat): Step {
    if n >= least && Scalar(n) then Char(n as char, size) else Bad
  }

  function Next(b: seq<byte>): (r: Step)
    requires b != []
    ensures r.Char? ==> 1 <= r.size <= |b|
  {
    var lead := b[0] as int;
    if lead < 0x80 then Accept(lead, 0, 1)
    else if lead < 0xC2 || lead >= 0xF5 then Bad
    else if lead < 0xE0 then
      if |b| < 2 then Unfinished
      else if !Continuation(b[1]) then Bad
      else Accept((lead - 0xC0) * 0x40 + Low(b[1]), 0x80, 2)
    else if lead < 0xF0 then
      if |b| > 1 && !Continuation(b[1]) then Bad
      else if |b| < 3 then Unfinished
      else if !Continuation(b[2]) then Bad
      else Accept((lead - 0xE0) * 0x1000 + Low(b[1]) * 0x40 + Low(b[2]), 0x800, 3)
    else
      if (|b| > 1 && !Continuation(b[1])) || (|b| > 2 && !Continuation(b[2])) then Bad
      else if |b| < 4 then Unfinished
      else if !Continuation(b[3]) then Bad
      else Accept((lead - 0xF0) * 0x4_0000 + Low(b[1]) * 0x1000 + Low(b[2]) * 0x40 + Low(b[3]),
                  0x1_0000, 4)
  }

  /** The start of a character: a lead byte, and fewer continuation bytes than it calls for. */
  ghost predicate Partial(b: seq<byte>) {
    || (|b| == 1 && 0xC2 <= b[0] < 0xF5)
    || (|b| == 2 && 0xE0 <= b[0] < 0xF5 && 0x80 <= b[1] < 0xC0)
    || (|b| == 3 && 0xF0 <= b[0] < 0xF5 && 0x80 <= b[1] < 0xC0 && 0x80 <= b[2] < 0xC0)
  }

  lemma UnfinishedIsPartial(b: seq<byte>)
    requires b != []
    ensures Next(b).Unfinished? <==> Partial(b)
  {
  }

  lemma NextOfEncoded(c: char, rest: seq<byte>)
    ensures Next(EncodeChar(c) + rest) == Char(c, |EncodeChar(c)|)
  {
    var n := c as int;
    SixBitGroups(n);
    if n >= 0x1_0000 {
      FourBytes(n, rest);
    }
  }

  lemma SixBitGroups(n: nat)
    ensures n == n / 0x40 * 0x40 + n % 0x40
    ensures n == n / 0x1000 * 0x1000 + n / 0x40 % 0x40 * 0x40 + n % 0x40
    ensures n == n / 0x4_0000 * 0x4_0000 + n / 0x1000 % 0x40 * 0x1000 + n / 0x40 % 0x40 * 0x40 + n % 0x40
  {
    Twice(n);
    Thrice(n);
    var a, b := n / 0x40, n / 0x1000;
    assert a == b * 0x40 + a % 0x40;
    assert b == n / 0x4_0000 * 0x40 + b % 0x40;
  }

  lemma Twice(n: nat)
    ensures n / 0x1000 == n / 0x40 / 0x40
  {
  }

  lemma Thrice(n: nat)
    ensures n / 0x4_0000 == n / 0x1000 / 0x40
  {
  }

  /** The four bytes of a character beyond the first plane are read as that character. */
  lemma FourBytes(n: nat, rest: seq<byte>)
    requires 0x1_0000 <= n < 0x11_0000
    ensures Next(EncodeChar(n as char) + rest) == Char(n as char, 4)
  {
    SixBitGroups(n);
    var a, b, c := n / 0x1000 % 0x40, n / 0x40 % 0x40, n % 0x40;
    var s := EncodeChar(n as char) + rest;
    assert s[0] == 0xF0 + n / 0x4_0000 < 0xF5;
    assert Low(s[1]) == a && Low(s[2]) == b && Low(s[3]) == c;
  }

  lemma SixBits(high: nat, a: nat, b: nat, c: nat)
    requires a < 0x40 && b < 0x40 && c < 0x40
    ensures var n := high * 0x4_0000 + a * 0x1000 + b * 0x40 + c;
            n % 0x40 == c && n / 0x40 % 0x40 == b && n / 0x1000 % 0x40 == a && n / 0x4_0000 == high
  {
    var n := high * 0x4_0000 + a * 0x1000 + b * 0x40 + c;
    assert n / 0x40 == high * 0x1000 + a * 0x40 + b;
    assert n / 0x1000 == high * 0x40 + a;
  }

  lemma EncodedOfNext(b: seq<byte>)
    requires b != [] && Next(b).Char?
    ensures b[..Next(b).size] == EncodeChar(Next(b).c)
  {
    match Next(b).size
    case 2 => SixBits(0, 0, b[0] - 0xC0, Low(b[1]));
    case 3 => ThreeOfNext(b);
    case 4 => FourOfNext(b);
    case _ =>
  }

  lemma ThreeOfNext(b: seq<byte>)
    requires b != [] && Next(b).Char? && Next(b).size == 3
    ensures b[..3] == EncodeChar(Next(b).c)
  {
    var n := Next(b).c as int;
    assert n == (b[0] as int - 0xE0) * 0x1000 + Low(b[1]) * 0x40 + Low(b[2]) && 0x800 <= n < 0x1_0000;
    SixBits(0, b[0] - 0xE0, Low(b[1]), Low(b[2]));
  }

  lemma FourOfNext(b: seq<byte>)
    requires b != [] && Next(b).Char? && Next(b).size == 4
    ensures b[..4] == EncodeChar(Next(b).c)
  {
    var n := Next(b).c as int;
    assert n == (b[0] as int - 0xF0) * 0x4_0000 + Low(b[1]) * 0x1000 + Low(b[2]) * 0x40 + Low(b[3]) && n >= 0x1_0000;
    SixBits(b[0] - 0xF0, Low(b[1]), Low(b[2]), Low(b[3]));
  }

  /**
   What a stateful decoder has after one call: the text, whether it met an error, and the unfinished
   sequence that it keeps for the next call without calling it an error.
   */
  datatype Decoded = Decoded(text: string, errors: bool, kept: seq<byte>)

  function Decode(b: seq<byte>): Decoded {
    if b == [] then Decoded([], false, [])
    else
      match Next(b)
      case Char(c, n) => var d := Decode(b[n..]); d.(text := [c] + d.text)
      case Bad => var d := Decode(b[1..]); Decoded([REPLACEMENT] + d.text, true, d.kept)
      case Unfinished => Decoded([], false, b)
  }

  /** The decoder skips one byte order mark at the start of its input. */
  function DecodeMarked(b: seq<byte>): Decoded {
    if BOM <= b then Decode(b[3..]) else Decode(b)
  }

  /** The stateless conversion: every byte that does not start a character becomes a replacement character. */
  function Lossy(b: seq<byte>): string {
    if b == [] then []
    else
      match Next(b)
      case Char(c, n) => [c] + Lossy(b[n..])
      case _ => [REPLACEMENT] + Lossy(b[1..])
  }

  function FromUtf8(b: seq<byte>): string {
    if BOM <= b then Lossy(b[3..]) else Lossy(b)
  }

  lemma EncodeFirst(c: char, s: string)
    ensures Encode([c] + s) == EncodeChar(c) + Encode(s)
  {
    assert ([c] + s)[1..] == s;
  }

  lemma Regroup(b: seq<byte>, n: nat, middle: seq<byte>, end: seq<byte>)
    requires n <= |b| && b[n..] == middle + end
    ensures b == b[..n] + middle + end
  {
    assert b == b[..n] + b[n..];
  }

  /** Decoding undoes encoding, for every string. */
  lemma {:induction false} DecodeEncode(s: string)
    ensures Decode(Encode(s)) == Decoded(s, false, [])
  {
    if s != [] {
      DecodeEncode(s[1..]);
      NextOfEncoded(s[0], Encode(s[1..]));
      assert Encode(s)[|EncodeChar(s[0])|..] == Encode(s[1..]);
    }
  }

  /** Input decoded without an error is the encoding of its text followed by what the decoder kept. */
  lemma {:induction false} EncodeDecode(b: seq<byte>)
    requires !Decode(b).errors
    ensures b == Encode(Decode(b).text) + Decode(b).kept
    decreases |b|
  {
    if b != [] && Next(b).Char? {
      var n := Next(b).size;
      EncodeDecode(b[n..]);
      EncodedOfNext(b);
      EncodeFirst(Next(b).c, Decode(b[n..]).text);
      Regroup(b, n, Encode(Decode(b[n..]).text), Decode(b).kept);
    }
  }

  /** What is kept is the start of a character, never a whole one. */
  lemma {:induction false} KeptUnfinished(b: seq<byte>)
    ensures var kept := Decode(b).kept; kept == [] || Partial(kept)
    ensures EndsWith(b, Decode(b).kept)
    decreases |b|
  {
    if b != [] {
      match Next(b)
      case Char(_, n) => KeptUnfinished(b[n..]);
      case Bad => KeptUnfinished(b[1..]);
      case Unfinished => UnfinishedIsPartial(b);
    }
  }

  ghost predicate Marked(s: string) {
    s != [] && s[0] == ZERO_WIDTH_NO_BREAK
  }

  /** The text without one leading U+FEFF. */
  ghost function WithoutMark(s: string): string {
    if Marked(s) then s[1..] else s
  }

  /** An encoding begins with a byte order mark exactly when its string begins with U+FEFF. */
  lemma EncodedMark(s: string)
    ensures BOM <= Encode(s) <==> Marked(s)
  {
    if s != [] {
      var e := EncodeChar(s[0]);
      NextOfEncoded(s[0], Encode(s[1..]));
      if BOM <= Encode(s) {
        assert Encode(s)[0] == 0xEF && Encode(s)[1] == 0xBB && Encode(s)[2] == 0xBF;
        assert Next(Encode(s)) == Char(ZERO_WIDTH_NO_BREAK, 3);
      }
      if s[0] == ZERO_WIDTH_NO_BREAK {
        assert e == BOM;
      }
    }
  }

  lemma {:induction false} LossyEncode(s: string)
    ensures Lossy(Encode(s)) == s
  {
    if s != [] {
      LossyEncode(s[1..]);
      NextOfEncoded(s[0], Encode(s[1..]));
      assert Encode(s)[|EncodeChar(s[0])|..] == Encode(s[1..]);
    }
  }

  /** What is encoded and read back with the stateless conversion loses a leading U+FEFF, and nothing else. */
  lemma FromEncoded(s: string)
    ensures FromUtf8(Encode(s)) == WithoutMark(s)
  {
    EncodedMark(s);
    LossyEncode(WithoutMark(s));
    if Marked(s) {
      assert EncodeChar(ZERO_WIDTH_NO_BREAK) == BOM;
      assert Encode(s)[3..] == Encode(s[1..]);
    }
  }

  lemma {:induction false} EncodeJoined(a: string, b: string)
    ensures Encode(a + b) == Encode(a) + Encode(b)
  {
    if a == [] {
      assert a + b == b;
    } else {
      EncodeJoined(a[1..], b);
      assert a + b == [a[0]] + (a[1..] + b);
      EncodeFirst(a[0], a[1..] + b);
      Associate(EncodeChar(a[0]), Encode(a[1..]), Encode(b));
    }
  }

  ghost function Last(b: seq<byte>, k: nat): seq<byte>
    requires k <= |b|
  {
    b[|b| - k..]
  }

  /** The bytes break off inside a character: some last one, two or three bytes are the start of one. */
  ghost predicate CutShort(b: seq<byte>) {
    exists k :: 1 <= k <= 3 && k <= |b| && Partial(Last(b, k))
  }

  lemma {:induction false} WholeCharacters(b: seq<byte>, k: nat)
    requires !Decode(b).errors && Decode(b).kept == [] && 1 <= k <= |b|
    ensures !Partial(Last(b, k))
    decreases |b|
  {
    var n := Next(b).size;
    if |b| - k >= n {
      WholeCharacters(b[n..], k);
      assert Last(b[n..], k) == Last(b, k);
    } else if |b| == k {
      assert Last(b, k) == b;
      UnfinishedIsPartial(b);
    } else {
      assert Continuation(b[|b| - k]);
    }
  }

  lemma KeptIffCutShort(b: seq<byte>)
    requires !Decode(b).errors
    ensures Decode(b).kept != [] <==> CutShort(b)
  {
    KeptUnfinished(b);
    var kept := Decode(b).kept;
    if kept == [] {
      forall k | 1 <= k <= |b| ensures !Partial(Last(b, k)) {
        WholeCharacters(b, k);
      }
    } else {
      assert Last(b, |kept|) == kept && |kept| <= 3;
    }
  }

  /** No unfinished character starts inside a mark, which is whole. */
  lemma MarkFinished(b: seq<byte>, k: nat)
    requires BOM <= b && |b| - 3 < k <= |b|
    ensures !Partial(Last(b, k))
  {
    var place := |b| - k;
    assert Last(b, k)[0] == b[place] == BOM[place];
    if place == 0 {
      assert Last(b, k) == b;
    }
  }

  lemma CutShortUnmarked(b: seq<byte>)
    requires BOM <= b
    ensures CutShort(b) <==> CutShort(b[3..])
  {
    var r := b[3..];
    forall k: nat | k <= |r| ensures Last(b, k) == Last(r, k) { }
    if k: nat :| 1 <= k <= 3 && k <= |b| && Partial(Last(b, k)) {
      if k > |r| {
        MarkFinished(b, k);
      }
      assert Partial(Last(r, k));
    }
    if k: nat :| 1 <= k <= 3 && k <= |r| && Partial(Last(r, k)) {
      assert Partial(Last(b, k));
    }
  }
}
