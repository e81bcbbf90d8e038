/** IPv6 text with a dotted tail, such as ::ffff:1.2.3.4, and what parse_ipv6 makes of it. */
module Ipv6Mixed {
  import opened Numerals
  import opened Ipv6

  // ---------------------------------------------------------------------------------------
  // The text and the address it denotes

  function Dec(v: nat): (s: string)
    ensures |s| >= 1 && AllDigits(s, 10)
  {
    Numeral(v, 10, false)
  }

  /** The last four bytes of an address. */
  datatype Quad = Quad(a: nat, b: nat, c: nat, d: nat)

  predicate IsQuad(q: Quad) {
    q.a <= 255 && q.b <= 255 && q.c <= 255 && q.d <= 255
  }

  function Rest(q: Quad): string {
    ['.'] + (Dec(q.b) + (['.'] + (Dec(q.c) + (['.'] + Dec(q.d)))))
  }

  function DottedText(q: Quad): string {
    Dec(q.a) + Rest(q)
  }

  /** Words, each with its colon. */
  function Colons(words: seq<nat>): string {
    if words == [] then [] else Hex(words[0]) + ([':'] + Colons(words[1..]))
  }

  /** Words, a double colon, words, and a dotted tail. */
  function MixedText(pre: seq<nat>, post: seq<nat>, q: Quad): string {
    Join(pre) + [':', ':'] + (Colons(post) + DottedText(q))
  }

  /** The address such a text denotes (section 2.2 of RFC 4291). */
  function Denoted(pre: seq<nat>, post: seq<nat>, q: Quad): seq<nat>
    requires |pre| + |post| <= 6
  {
    pre + Zeros(6 - |pre| - |post|) + post + [q.a * 256 + q.b, q.c * 256 + q.d]
  }

  /** The decimal digits of a number up to 255 taken as hexadecimal ones. */
  function AsHex(a: nat): nat {
    a / 100 * 256 + a / 10 % 10 * 16 + a % 10
  }

  // ---------------------------------------------------------------------------------------
  // Reading the pieces

  lemma OneDigit(v: nat, base: nat)
    requires v < 10 <= base <= 36
    ensures AllDigits([DigitChar(v, false)], base) && Value([DigitChar(v, false)], base) == v
  {
    ValueLast([], DigitChar(v, false), base);
    assert [] + [DigitChar(v, false)] == [DigitChar(v, false)];
  }

  lemma MoreDigits(v: nat)
    requires 10 <= v && AllDigits(Dec(v / 10), 16)
    ensures AllDigits(Dec(v), 16) && Value(Dec(v), 16) == 16 * Value(Dec(v / 10), 16) + v % 10
  {
    ValueLast(Dec(v / 10), DigitChar(v % 10, false), 16);
  }

  lemma Digits(v: nat)
    ensures v < 10 ==> Dec(v) == [DigitChar(v, false)]
  {
  }

  lemma DecAsHex(a: nat)
    requires a <= 255
    ensures AllDigits(Dec(a), 16) && Value(Dec(a), 16) == AsHex(a) <= 0x255
  {
    hide Value, Numeral;
    Digits(a);
    if a < 10 {
      OneDigit(a, 16);
    } else if a < 100 {
      OneDigit(a / 10, 16);
      Digits(a / 10);
      MoreDigits(a);
    } else {
      OneDigit(a / 100, 16);
      Digits(a / 10);
      Digits(a / 100);
      assert a / 10 / 10 == a / 100;
      MoreDigits(a / 10);
      MoreDigits(a);
    }
  }

  /** A decimal number in front of a dot or the end. */
  lemma DecRead(v: nat, rest: string)
    requires v <= 255 && (rest == [] || rest[0] == '.')
    ensures LongOf(Dec(v) + rest, 10) == (v, |Dec(v)|) && (Dec(v) + rest)[|Dec(v)|..] == rest
  {
    hide Locate, Value, Numeral;
    ValueOfNumeral(v, 10, false);
    NumberLocated(0, None, Dec(v), rest, 10);
    assert Repeat(' ', 0) + SignText(None) + Dec(v) + rest == Dec(v) + rest;
  }

  /** The same digits read by the loop of parse_ipv6. */
  lemma DecReadAsHex(v: nat, rest: string)
    requires v <= 255 && rest != [] && rest[0] == '.'
    ensures LongOf(Dec(v) + rest, 16) == (AsHex(v), |Dec(v)|) && (Dec(v) + rest)[|Dec(v)|..] == rest
    ensures (Dec(v) + rest)[0] != ':'
  {
    hide Locate, Value, Dec, AsHex;
    DecAsHex(v);
    NumberLocated(0, None, Dec(v), rest, 16);
    assert Repeat(' ', 0) + SignText(None) + Dec(v) + rest == Dec(v) + rest;
    assert IsDigit(Dec(v)[0], 16);
  }

  lemma PartRead(v: nat, rest: string)
    requires v <= 255
    ensures Part(Dec(v) + (['.'] + rest)) == (v, rest)
  {
    hide LongOf, Dec;
    var s := Dec(v) + (['.'] + rest);
    DecRead(v, ['.'] + rest);
    assert s[|Dec(v)|..] == ['.'] + rest;
    assert s[|Dec(v)| + 1..] == rest;
  }

  /** Called at the first dot, parse_ipv4 takes the first part as zero. */
  lemma EmptyPart(rest: string)
    ensures Part(['.'] + rest) == (0, rest)
  {
    var t := ['.'] + rest;
    assert t[0..] == t && t[1..] == rest;
  }

  lemma RestRead(q: Quad)
    requires IsQuad(q)
    ensures ParseIpv4(Rest(q)) == q.b * 0x1_0000 + q.c * 0x100 + q.d
  {
    hide LongOf, Part, Dec;
    var s3 := Dec(q.d);
    EmptyPart(Dec(q.b) + (['.'] + (Dec(q.c) + (['.'] + s3))));
    PartRead(q.b, Dec(q.c) + (['.'] + s3));
    PartRead(q.c, s3);
    DecRead(q.d, []);
    assert s3 + [] == s3;
  }

  /** The dotted tail: its first number has become a word, and the rest is read as 0.b.c.d. */
  lemma TailRead(q: Quad, w: seq<nat>, z: int)
    requires IsQuad(q) && -1 <= z <= |w| < 8
    ensures ParseWords(DottedText(q), w, z) ==
            if |w| > 5 then Fail else Finish([], w + [AsHex(q.a), q.b, q.c * 256 + q.d], z)
  {
    hide LongOf, Dec, AsHex, ParseIpv4, Finish;
    DecReadAsHex(q.a, Rest(q));
    DecAsHex(q.a);
    RestRead(q);
    var v := ParseIpv4(Rest(q));
    assert v / 0x1_0000 % 0x1_0000 == q.b && v % 0x1_0000 == q.c * 256 + q.d;
    assert w + [AsHex(q.a)] + [q.b, q.c * 256 + q.d] == w + [AsHex(q.a), q.b, q.c * 256 + q.d];
  }

  lemma {:induction false} ColonsRead(todo: seq<nat>, w: seq<nat>, z: int, tail: string)
    requires IsWords(todo) && -1 <= z <= |w| && |w| + |todo| <= 8
    ensures ParseWords(Colons(todo) + tail, w, z) == ParseWords(tail, w + todo, z)
    decreases |todo|
  {
    hide ParseWords, Hex;
    if todo == [] {
      assert Colons(todo) + tail == tail && w + todo == w;
    } else {
      var rest := [':'] + (Colons(todo[1..]) + tail);
      assert Colons(todo) + tail == Hex(todo[0]) + rest;
      assert rest[1..] == Colons(todo[1..]) + tail;
      WordStep(todo[0], rest, w, z);
      ColonsRead(todo[1..], w + [todo[0]], z, tail);
      assert w + [todo[0]] + todo[1..] == w + todo;
    }
  }

  lemma TailStart(post: seq<nat>, q: Quad)
    ensures !StartsWith(Colons(post) + DottedText(q), ':')
  {
    hide Hex, Dec;
    if post != [] {
      HexStart(post[0]);
    } else {
      assert IsDigit(Dec(q.a)[0], 10);
      assert Colons(post) + DottedText(q) == DottedText(q);
    }
  }

  // ---------------------------------------------------------------------------------------
  // With a double colon

  lemma MixedFront(pre: seq<nat>, post: seq<nat>, q: Quad)
    requires |pre| < 8 && IsWords(pre)
    ensures Parse(MixedText(pre, post, q)) == ParseWords(Colons(post) + DottedText(q), pre, |pre|)
  {
    hide Join, ParseWords, Parse, Colons, DottedText;
    var tail := Colons(post) + DottedText(q);
    TailStart(post, q);
    if pre == [] {
      EmptyJoin();
      assert Join(pre) + [':', ':'] + tail == [':', ':'] + tail;
      ParseFront(tail);
    } else {
      JoinStep(pre);
      ParseFront(Join(pre) + [':', ':'] + tail);
      JoinBeforeColons(pre, [], -1, tail);
      assert [] + pre == pre;
      GapRead(pre, tail);
    }
  }

  /** What parse_ipv6 yields for every text of this form. */
  lemma MixedRead(pre: seq<nat>, post: seq<nat>, q: Quad)
    requires IsWords(pre) && IsWords(post) && IsQuad(q) && |pre| + |post| <= 5
    ensures Parse(MixedText(pre, post, q))
         == Ok(pre + Zeros(5 - |pre| - |post|) + post + [AsHex(q.a), q.b, q.c * 256 + q.d])
  {
    hide ParseWords, Parse, MixedText, DottedText, AsHex;
    MixedFront(pre, post, q);
    ColonsRead(post, pre, |pre|, DottedText(q));
    TailRead(q, pre + post, |pre|);
    var w := pre + post + [AsHex(q.a), q.b, q.c * 256 + q.d];
    assert w[..|pre|] == pre && w[|pre|..] == post + [AsHex(q.a), q.b, q.c * 256 + q.d];
    assert Finish([], w, |pre|) == Ok(pre + Zeros(8 - |w|) + w[|pre|..]);
    assert pre + Zeros(8 - |w|) + w[|pre|..] == pre + Zeros(5 - |pre| - |post|) + post + [AsHex(q.a), q.b, q.c * 256 + q.d];
  }

  predicate AllZero(words: seq<nat>) {
    forall i :: 0 <= i < |words| ==> words[i] == 0
  }

  /** Moving words by one place past a zero changes nothing exactly if they are all zero. */
  lemma {:induction false} ShiftedIff(words: seq<nat>)
    ensures words + [0] == [0] + words <==> AllZero(words)
  {
    var l, r := words + [0], [0] + words;
    if l == r {
      AllEqual(words, |words|);
    }
  }

  lemma {:induction false} AllEqual(words: seq<nat>, n: nat)
    requires words + [0] == [0] + words && n <= |words|
    ensures forall i :: 0 <= i < n ==> words[i] == 0
  {
    if n > 0 {
      AllEqual(words, n - 1);
      assert (words + [0])[n - 1] == ([0] + words)[n - 1];
    }
  }

  /**
    The address is the one the text denotes exactly if its first dotted number and all words between
    the double colon and the dotted tail are zero.
   */
  lemma MixedReadIff(pre: seq<nat>, post: seq<nat>, q: Quad)
    requires IsWords(pre) && IsWords(post) && IsQuad(q) && |pre| + |post| <= 5
    ensures Parse(MixedText(pre, post, q)) == Ok(Denoted(pre, post, q)) <==> q.a == 0 && AllZero(post)
  {
    hide Parse, MixedText;
    MixedRead(pre, post, q);
    var n := 5 - |pre| - |post|;
    var got := pre + Zeros(n) + post + [AsHex(q.a), q.b, q.c * 256 + q.d];
    var meant := Denoted(pre, post, q);
    ShiftedIff(post);
    assert got[6] == q.b && meant[6] == q.a * 256 + q.b;
    assert Zeros(n + 1) == Zeros(n) + [0];
    if q.a == 0 {
      var front := pre + Zeros(n);
      assert got == front + (post + [0]) + [q.b, q.c * 256 + q.d];
      assert meant == front + ([0] + post) + [q.b, q.c * 256 + q.d];
      assert got[|front|..6] == post + [0] && meant[|front|..6] == [0] + post;
    }
  }

  /** ::ffff:1.2.3.4 becomes ::ffff:1:2:304. */
  lemma MappedAddress()
    ensures Parse(MixedText([], [0xffff], Quad(1, 2, 3, 4))) == Ok([0, 0, 0, 0, 0xffff, 1, 2, 0x304])
    ensures Denoted([], [0xffff], Quad(1, 2, 3, 4)) == [0, 0, 0, 0, 0, 0xffff, 0x102, 0x304]
  {
    hide Parse, MixedText;
    MixedRead([], [0xffff], Quad(1, 2, 3, 4));
    assert Zeros(4) == [0, 0, 0, 0] && Zeros(5) == [0, 0, 0, 0, 0];
  }

  // ---------------------------------------------------------------------------------------
  // Without a double colon

  /** Words and a dotted tail are accepted exactly if there are five of them, not the six they should be. */
  lemma WordsBeforeDots(pre: seq<nat>, q: Quad)
    requires IsWords(pre) && IsQuad(q)
    ensures Parse(Colons(pre) + DottedText(q)) != Fail <==> |pre| == 5
  {
    hide ParseWords, Parse, DottedText, Colons;
    TailStart(pre, q);
    ParseFront(Colons(pre) + DottedText(q));
    if |pre| < 8 {
      ColonsRead(pre, [], -1, DottedText(q));
      assert [] + pre == pre;
      TailRead(q, pre, -1);
    } else {
      TooManyWords(pre, q);
    }
  }

  lemma TooManyWords(pre: seq<nat>, q: Quad)
    requires IsWords(pre) && |pre| >= 8
    ensures ParseWords(Colons(pre) + DottedText(q), [], -1) == Fail
  {
    hide ParseWords, DottedText, Colons;
    var tail := Colons(pre[8..]) + DottedText(q);
    ColonsSplit(pre, 8);
    assert Colons(pre) + DottedText(q) == Colons(pre[..8]) + tail;
    ColonsRead(pre[..8], [], -1, tail);
    assert [] + pre[..8] == pre[..8];
    DottedLength(q);
    LeftOver(tail, pre[..8]);
  }

  lemma DottedLength(q: Quad)
    ensures DottedText(q) != []
  {
  }

  lemma {:induction false} ColonsSplit(words: seq<nat>, k: nat)
    requires k <= |words|
    ensures Colons(words) == Colons(words[..k]) + Colons(words[k..])
    decreases k
  {
    hide Hex, Colons;
    ColonsStep(words);
    ColonsStep(words[..k]);
    if k > 0 {
      ColonsSplit(words[1..], k - 1);
      assert words[1..][..k - 1] == words[..k][1..] && words[1..][k - 1..] == words[k..];
    } else {
      assert words[..0] == [] && words[0..] == words;
    }
  }

  lemma ColonsStep(words: seq<nat>)
    ensures Colons(words) == if words == [] then [] else Hex(words[0]) + ([':'] + Colons(words[1..]))
  {
  }

  lemma LeftOver(tail: string, w: seq<nat>)
    requires tail != [] && |w| == 8
    ensures ParseWords(tail, w, -1) == Fail
  {
  }
}
