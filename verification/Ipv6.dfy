/** The text form of IPv6 addresses: inet_ntop of inet_ntop.c and parse_ipv6 of inet_pton.c, on values. */
module Ipv6 {
  import opened Numerals

  // ---------------------------------------------------------------------------------------
  // Runs of zero words

  ghost predicate ZeroRun(words: seq<nat>, base: int, len: int) {
    0 <= base && 0 <= len && base + len <= |words| && forall i :: base <= i < base + len ==> words[i] == 0
  }

  /** No run of zeros is longer, and none as long starts earlier. */
  ghost predicate LeftmostLongest(words: seq<nat>, base: int, len: int) {
    && ZeroRun(words, base, len)
    && forall b, n :: ZeroRun(words, b, n) ==> n < len || (n == len && b >= base)
  }

  /** The elision rule: the leftmost longest run of at least two words, or none (-1). */
  ghost predicate Elided(words: seq<nat>, base: int, len: int) {
    if base == -1 then forall b, n :: ZeroRun(words, b, n) ==> n < 2
    else len >= 2 && LeftmostLongest(words, base, len)
  }

  /** The rule determines the run. */
  lemma ElisionIsUnique(words: seq<nat>, a: int, m: int, b: int, n: int)
    requires Elided(words, a, m) && Elided(words, b, n)
    ensures a == b && (a != -1 ==> m == n)
  {
    assert a != -1 ==> ZeroRun(words, a, m);
    assert b != -1 ==> ZeroRun(words, b, n);
  }

  // ---------------------------------------------------------------------------------------
  // The text

  ghost predicate IsWords(words: seq<nat>) {
    forall i :: 0 <= i < |words| ==> words[i] < 0x1_0000
  }

  function Hex(w: nat): (s: string)
    ensures |s| >= 1 && AllDigits(s, 16)
  {
    Numeral(w, 16, false)
  }

  function Join(words: seq<nat>): string {
    if words == [] then [] else Hex(words[0]) + if |words| == 1 then [] else [':'] + Join(words[1..])
  }

  /** What inet_ntop writes: a third colon if the elided run is at the end. */
  function Text(words: seq<nat>, base: int, len: int): string
    requires base == -1 || (0 <= base && 0 <= len && base + len <= |words|)
  {
    if base == -1 then Join(words)
    else Join(words[..base]) + [':', ':'] + Join(words[base + len..]) + (if base + len == |words| then [':'] else [])
  }

  /** 2001:db8::ff, a run elided in the middle. */
  lemma KnownAddress()
    ensures Text([0x2001, 0xdb8, 0, 0, 0, 0, 0, 0xff], 2, 5) == "2001:db8::ff"
  {
    var w := [0x2001, 0xdb8, 0, 0, 0, 0, 0, 0xff];
    assert w[..2] == [0x2001, 0xdb8] && w[7..] == [0xff] && [0x2001, 0xdb8][1..] == [0xdb8];
    assert Hex(0x2001) == "2001" && Hex(0xdb8) == "db8" && Hex(0xff) == "ff" by { KnownWords(); }
    hide Hex;
  }

  lemma KnownWords()
    ensures Hex(0x2001) == "2001" && Hex(0xdb8) == "db8" && Hex(0xff) == "ff"
  {
    assert Hex(2) == "2" && Hex(0x20) == "20" && Hex(0x200) == "200";
    assert Hex(0xd) == "d" && Hex(0xdb) == "db" && Hex(0xf) == "f";
  }

  // ---------------------------------------------------------------------------------------
  // Reading

  datatype Result = Fail | Ok(words: seq<nat>)

  function Zeros(n: nat): (s: seq<nat>)
    ensures |s| == n && forall i :: 0 <= i < n ==> s[i] == 0
  {
    if n == 0 then [] else Zeros(n - 1) + [0]
  }

  /** The words read so far, with the gap at z filled. */
  function Finish(s: string, w: seq<nat>, z: int): Result
    requires -1 <= z <= |w| <= 8
  {
    if s != [] || (z == -1 && |w| != 8) then Fail
    else if z == -1 then Ok(w)
    else Ok(w[..z] + Zeros(8 - |w|) + w[z..])
  }

  predicate StartsWith(s: string, c: char) {
    s != [] && s[0] == c
  }

  /** One part of a dotted address: its value, and the text after the dot; nothing if it is bad. */
  function Part(s: string): (r: (int, string))
    ensures r.0 >= 0 ==> r.0 <= 255
  {
    var (v, end) := LongOf(s, 10);
    if v < 0 || v > 255 || !StartsWith(s[end..], '.') then (-1, s) else (v, s[end + 1..])
  }

  /** parse_ipv4: -1 or the address as a number. */
  function ParseIpv4(s: string): int {
    var (a, s1) := Part(s);
    var (b, s2) := Part(s1);
    var (c, s3) := Part(s2);
    var (d, end) := LongOf(s3, 10);
    var t := s3[end..];
    if a < 0 || b < 0 || c < 0 || d < 0 || d > 255 || (t != [] && t[0] != ' ' && t[0] != '\t') then -1
    else a * 0x100_0000 + b * 0x1_0000 + c * 0x100 + d
  }

  /** The branch for a dotted tail: the text from the dot on is read as an address. */
  function Dotted(t: string, w: seq<nat>, z: int): Result
    requires -1 <= z <= |w|
  {
    if |w| > 6 || ParseIpv4(t) < 0 then Fail
    else Finish([], w + [ParseIpv4(t) / 0x1_0000 % 0x1_0000, ParseIpv4(t) % 0x1_0000], z)
  }

  /** The loop of parse_ipv6 and what follows it. */
  function ParseWords(s: string, w: seq<nat>, z: int): Result
    requires -1 <= z <= |w| <= 8
    decreases |s|
  {
    if s == [] || |w| == 8 then Finish(s, w, z)
    else if s[0] == ':' then
      if z != -1 || StartsWith(s[1..], ':') then Fail else ParseWords(s[1..], w, |w|)
    else
      var (v, end) := LongOf(s, 16);
      if v < 0 || v > 0xffff then Fail
      else
        var t := s[end..];
        if t == [] then ParseWords([], w + [v], z)
        else if t[0] == '.' then Dotted(t, w + [v], z)
        else if t[0] == ':' then ParseWords(t[1..], w + [v], z)
        else Fail
  }

  function Parse(s: string): Result {
    if !StartsWith(s, ':') then ParseWords(s, [], -1)
    else if !StartsWith(s[1..], ':') then Fail
    else ParseWords(s[2..], [], 0)
  }

  // ---------------------------------------------------------------------------------------
  // Reading what was written

  lemma HexRead(w: nat, rest: string)
    requires w < 0x1_0000 && (rest == [] || rest[0] == ':')
    ensures LongOf(Hex(w) + rest, 16) == (w, |Hex(w)|) && Hex(w)[0] != ':'
  {
    hide Locate, Value, Numeral;
    var d := Hex(w);
    assert IsDigit(d[0], 16);
    ValueOfNumeral(w, 16, false);
    NumberLocated(0, None, d, rest, 16);
    assert Repeat(' ', 0) + SignText(None) + d + rest == d + rest;
  }

  /** A word of the text followed by a colon or the end. */
  lemma WordStep(h: nat, rest: string, w: seq<nat>, z: int)
    requires h < 0x1_0000 && (rest == [] || rest[0] == ':') && -1 <= z <= |w| < 8
    ensures ParseWords(Hex(h) + rest, w, z) == ParseWords(if rest == [] then [] else rest[1..], w + [h], z)
  {
    hide Hex, LongOf, Dotted;
    HexRead(h, rest);
    assert (Hex(h) + rest)[|Hex(h)|..] == rest;
  }

  lemma JoinStep(words: seq<nat>)
    requires words != []
    ensures Join(words) == Hex(words[0]) + if |words| == 1 then [] else [':'] + Join(words[1..])
    ensures Join(words) != [] && Join(words)[0] != ':'
  {
    hide Hex;
    HexStart(words[0]);
  }

  lemma HexStart(w: nat)
    ensures Hex(w)[0] != ':' && Hex(w)[|Hex(w)| - 1] != ':'
  {
    hide Numeral;
    assert IsDigit(Hex(w)[0], 16) && IsDigit(Hex(w)[|Hex(w)| - 1], 16);
  }

  /** A list of words up to the end. */
  lemma {:induction false} JoinRead(todo: seq<nat>, w: seq<nat>, z: int)
    requires todo != [] && IsWords(todo) && -1 <= z <= |w| && |w| + |todo| <= 8
    ensures ParseWords(Join(todo), w, z) == Finish([], w + todo, z)
    decreases |todo|
  {
    hide Join, ParseWords, Finish;
    JoinStep(todo);
    var rest := if |todo| == 1 then [] else [':'] + Join(todo[1..]);
    WordStep(todo[0], rest, w, z);
    assert w + todo == w + [todo[0]] + todo[1..];
    if |todo| > 1 {
      assert rest[1..] == Join(todo[1..]);
      JoinRead(todo[1..], w + [todo[0]], z);
    } else {
      ParseEnd(w + [todo[0]], z);
      assert w + todo == w + [todo[0]];
    }
  }

  lemma ParseEnd(w: seq<nat>, z: int)
    requires -1 <= z <= |w| <= 8
    ensures ParseWords([], w, z) == Finish([], w, z)
  {
  }

  /** A list of words in front of a double colon: one of the colons ends the last word. */
  lemma {:induction false} JoinBeforeColons(todo: seq<nat>, w: seq<nat>, z: int, tail: string)
    requires todo != [] && IsWords(todo) && -1 <= z <= |w| && |w| + |todo| < 8
    ensures ParseWords(Join(todo) + [':', ':'] + tail, w, z) == ParseWords([':'] + tail, w + todo, z)
    decreases |todo|
  {
    hide Join, ParseWords;
    JoinStep(todo);
    assert w + todo == w + [todo[0]] + todo[1..];
    if |todo| > 1 {
      var more := Join(todo[1..]) + [':', ':'] + tail;
      var rest := [':'] + more;
      assert Join(todo) + [':', ':'] + tail == Hex(todo[0]) + rest;
      assert rest[1..] == more;
      WordStep(todo[0], rest, w, z);
      JoinBeforeColons(todo[1..], w + [todo[0]], z, tail);
    } else {
      var rest := [':', ':'] + tail;
      assert Join(todo) + [':', ':'] + tail == Hex(todo[0]) + rest;
      assert rest[1..] == [':'] + tail;
      WordStep(todo[0], rest, w, z);
      assert w + todo == w + [todo[0]];
    }
  }

  lemma GapRead(w: seq<nat>, tail: string)
    requires |w| < 8
    ensures ParseWords([':'] + tail, w, -1) == if StartsWith(tail, ':') then Fail else ParseWords(tail, w, |w|)
    ensures forall z :: 0 <= z <= |w| ==> ParseWords([':'] + tail, w, z) == Fail
  {
    assert ([':'] + tail)[1..] == tail;
  }

  lemma ParseFront(s: string)
    ensures !StartsWith(s, ':') ==> Parse(s) == ParseWords(s, [], -1)
    ensures Parse([':', ':'] + s) == ParseWords(s, [], 0)
  {
    var t := [':', ':'] + s;
    assert t[1..] == [':'] + s && t[2..] == s;
  }

  /**
    parse_ipv6 gives back the words exactly if no run is elided or the elided run stops before the
    last word; otherwise it rejects the text.
   */
  lemma RoundTripIff(words: seq<nat>, base: int, len: int)
    requires |words| == 8 && IsWords(words) && Elided(words, base, len)
    ensures base == -1 || base + len < 8 ==> Parse(Text(words, base, len)) == Ok(words)
    ensures base != -1 && base + len == 8 ==> Parse(Text(words, base, len)) == Fail
  {
    hide Join, ParseWords, Parse;
    if base == -1 {
      JoinStep(words);
      ParseFront(Join(words));
      JoinRead(words, [], -1);
      assert [] + words == words;
    } else {
      assert ZeroRun(words, base, len);
      AfterGap(words, base, len);
      GapText(words, base, len);
    }
  }

  /** The text up to the gap is read as the words in front of it. */
  lemma GapText(words: seq<nat>, base: int, len: int)
    requires |words| == 8 && IsWords(words) && ZeroRun(words, base, len) && len >= 2
    ensures var pre, tail := words[..base], Join(words[base + len..]) + if base + len == 8 then [':'] else [];
            Parse(Text(words, base, len))
            == if base > 0 && StartsWith(tail, ':') then Fail else ParseWords(tail, pre, base)
  {
    hide Join, ParseWords, Parse;
    var pre, tail := words[..base], Join(words[base + len..]) + if base + len == 8 then [':'] else [];
    assert Text(words, base, len) == Join(pre) + [':', ':'] + tail;
    if base == 0 {
      EmptyJoin();
      assert Join(pre) + [':', ':'] + tail == [':', ':'] + tail;
      ParseFront(tail);
    } else {
      JoinStep(pre);
      ParseFront(Join(pre) + [':', ':'] + tail);
      JoinBeforeColons(pre, [], -1, tail);
      assert [] + pre == pre;
      GapRead(pre, tail);
    }
  }

  lemma EmptyJoin()
    ensures Join([]) == []
  {
  }

  /** The text after the double colon. */
  lemma AfterGap(words: seq<nat>, base: int, len: int)
    requires |words| == 8 && IsWords(words) && ZeroRun(words, base, len) && len >= 2
    ensures var pre, post := words[..base], words[base + len..];
            if base + len == 8
            then StartsWith(Join(post) + [':'], ':') && (base == 0 ==> ParseWords(Join(post) + [':'], [], 0) == Fail)
            else !StartsWith(Join(post), ':') && ParseWords(Join(post) + [], pre, base) == Ok(words)
  {
    hide Join, ParseWords;
    var pre, post := words[..base], words[base + len..];
    EmptyJoin();
    if base + len == 8 {
      GapRead([], []);
      assert [':'] + [] == [':'];
      assert Join(post) + [':'] == [':'] + [];
    } else {
      JoinStep(post);
      JoinRead(post, pre, base);
      assert Join(post) + [] == Join(post);
      var w := pre + post;
      assert w[..base] == pre && w[base..] == post;
      assert pre + Zeros(8 - |w|) + post == words;
    }
  }
}
