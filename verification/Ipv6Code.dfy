/** inet_ntop for AF_INET6 and parse_ipv6. */
module Ipv6Code {
  import opened Numerals
  import opened Strto
  import opened Ipv6
  import ByteMemory

  const INET6_ADDRSTRLEN := 46

  // ---------------------------------------------------------------------------------------
  // Bytes and words

  function Word(high: nat, low: nat): nat {
    high * 256 + low
  }

  function WordsOf(bytes: seq<ByteMemory.Byte>): (words: seq<nat>)
    requires |bytes| == 16
    ensures |words| == 8 && IsWords(words)
  {
    seq(8, i requires 0 <= i < 8 => Word(bytes[2 * i], bytes[2 * i + 1]))
  }

  function BytesOf(words: seq<nat>): (bytes: seq<ByteMemory.Byte>)
    requires |words| == 8 && IsWords(words)
    ensures |bytes| == 16
  {
    seq(16, i requires 0 <= i < 16 => if i % 2 == 0 then words[i / 2] / 256 else words[i / 2] % 256)
  }

  lemma BytesOfWords(bytes: seq<ByteMemory.Byte>)
    requires |bytes| == 16
    ensures BytesOf(WordsOf(bytes)) == bytes
  {
    forall i | 0 <= i < 16
      ensures BytesOf(WordsOf(bytes))[i] == bytes[i]
    {
      var k := i / 2;
      assert WordsOf(bytes)[k] == Word(bytes[2 * k], bytes[2 * k + 1]);
      ByteOfWord(bytes[2 * k], bytes[2 * k + 1]);
      hide Word, WordsOf;
      assert i == 2 * k || i == 2 * k + 1;
    }
  }

  lemma ByteOfWord(high: nat, low: nat)
    requires low < 256
    ensures Word(high, low) / 256 == high && Word(high, low) % 256 == low
  {
  }

  // ---------------------------------------------------------------------------------------
  // inet_ntop

  /** The loop that looks for the run to elide. */
  method BestRun(words: seq<nat>) returns (base: int, len: int)
    requires |words| == 8
    ensures Elided(words, base, len)
  {
    var curBase, curLen := -1, 0;
    base, len := -1, 0;
    var i := 0;
    while i < 8
      invariant 0 <= i <= 8 && 0 <= len && 0 <= curLen && (base == -1 ==> len == 0)
      invariant base != -1 ==> ZeroRun(words, base, len) && 0 < len && base + len <= i
      invariant curBase == -1 ==> i == 0 || words[i - 1] != 0
      invariant curBase != -1 ==> 0 <= curBase && curBase + curLen == i && ZeroRun(words, curBase, curLen) && curLen > 0
      invariant curBase != -1 ==> curBase == 0 || words[curBase - 1] != 0
      invariant base != -1 && curBase != -1 ==> base < curBase
      invariant forall b, n :: ZeroRun(words, b, n) && n > 0 && b + n <= (if curBase == -1 then i else curBase) ==>
                  n < len || (n == len && b >= base)
    {
      if words[i] == 0 {
        if curBase == -1 {
          curBase, curLen := i, 1;
        } else {
          curLen := curLen + 1;
        }
      } else {
        if curBase != -1 {
          RunsUpTo(words, base, len, curBase, curLen, i);
          if curLen > len {
            base, len := curBase, curLen;
          }
          curBase, curLen := -1, 0;
        }
        EndsBefore(words, i);
      }
      i := i + 1;
    }
    if curBase != -1 {
      RunsUpTo(words, base, len, curBase, curLen, i);
    }
    if curBase != -1 && curLen > len {
      base, len := curBase, curLen;
    }
    if len < 2 {
      base := -1;
    }
  }

  /** A run up to position i that does not end before curBase lies in the current run. */
  lemma RunsUpTo(words: seq<nat>, base: int, len: int, curBase: int, curLen: int, i: int)
    requires 0 <= curBase && 0 < curLen && curBase + curLen == i <= |words| && (curBase == 0 || words[curBase - 1] != 0)
    requires forall b, n :: ZeroRun(words, b, n) && n > 0 && b + n <= curBase ==> n < len || (n == len && b >= base)
    ensures forall b, n :: ZeroRun(words, b, n) && n > 0 && b + n <= i ==>
              n < len || (n == len && b >= base) || (n < curLen || (n == curLen && b == curBase))
  {
    assert forall b, n :: ZeroRun(words, b, n) && n > 0 && b + n <= i ==> b + n <= curBase || b >= curBase;
  }

  lemma EndsBefore(words: seq<nat>, i: int)
    requires 0 <= i < |words| && words[i] != 0
    ensures forall b, n :: ZeroRun(words, b, n) && n > 0 && b + n <= i + 1 ==> b + n <= i
  {
  }

  /** *p++ = c. */
  method PutChar(buf: array<char>, p: nat, c: char) returns (p': nat)
    requires p < buf.Length
    modifies buf
    ensures p' == p + 1 && buf[..p'] == old(buf[..p]) + [c]
  {
    buf[p] := c;
    p' := p + 1;
  }

  /** Four bits of a word, 12, 8, 4 or 0 places up. */
  function Nibble(v: nat, i: nat): (d: nat)
    ensures d < 16
  {
    (if i == 12 then v / 4096 else if i == 8 then v / 256 else if i == 4 then v / 16 else v) % 16
  }

  /** The part of the word above those four bits. */
  function Above(v: nat, i: nat): nat {
    if i == 12 then v / 65536 else if i == 8 then v / 4096 else if i == 4 then v / 256 else v / 16
  }

  /** The digits of a number, none for zero. */
  function Leading(v: nat): string {
    if v == 0 then [] else Hex(v)
  }

  lemma LeadingGrow(v: nat, d: nat)
    requires d < 16
    ensures v > 0 || d > 0 ==> Leading(16 * v + d) == Leading(v) + [DigitChar(d, false)]
    ensures |Leading(16 * v + d)| <= |Leading(v)| + 1
  {
    NumeralStep(16 * v + d, 16, false);
  }

  method Hex16(buf: array<char>, p: nat, val: nat) returns (p': nat)
    requires val < 0x1_0000 && p + 4 <= buf.Length
    modifies buf
    ensures p < p' <= p + 4 && buf[..p'] == old(buf[..p]) + Hex(val)
  {
    hide Numeral, Hex, Leading, Above, Nibble, DigitChar;
    var started := false;
    p' := p;
    var i := 12;
    NextNibble(val, 12);
    assert old(buf[..p]) + Leading(0) == buf[..p];
    while i >= 0
      invariant i == 12 || i == 8 || i == 4 || i == 0 || i == -4
      invariant p <= p' <= buf.Length && (i >= 0 ==> p' <= p + (12 - i) / 4)
      invariant i >= 0 ==> buf[..p'] == old(buf[..p]) + Leading(Above(val, i)) && (started <==> Above(val, i) > 0)
      invariant i == -4 ==> p < p' <= p + 4 && buf[..p'] == old(buf[..p]) + Hex(val)
    {
      var d := Nibble(val, i);
      ghost var v := Above(val, i);
      NextNibble(val, i);
      LeadingGrow(v, d);
      if d != 0 || started || i == 0 {
        p' := PutChar(buf, p', DigitChar(d, false));
        started := true;
        assert old(buf[..p]) + Leading(v) + [DigitChar(d, false)] == old(buf[..p]) + (Leading(v) + [DigitChar(d, false)]);
      }
      i := i - 4;
    }
  }

  lemma NextNibble(val: nat, i: nat)
    requires val < 0x1_0000 && (i == 12 || i == 8 || i == 4 || i == 0)
    ensures i > 0 ==> Above(val, i - 4) == 16 * Above(val, i) + Nibble(val, i)
    ensures i == 0 ==> val == 16 * Above(val, 0) + Nibble(val, 0)
    ensures i == 12 ==> Above(val, i) == 0
    ensures val == 0 ==> Above(val, i) == 0 && Nibble(val, i) == 0 && Hex(val) == [DigitChar(0, false)]
    ensures val > 0 ==> Leading(val) == Hex(val)
    ensures Leading(0) == []
  {
    NumeralStep(0, 16, false);
  }

  /** The text when the loop of inet_ntop is at word i. */
  function Partial(words: seq<nat>, base: int, len: int, i: int): string
    requires 0 <= i <= |words| && (base == -1 || (0 <= base && 0 <= len && (i <= base || base + len <= i)))
  {
    if base == -1 || i <= base then Join(words[..i])
    else Join(words[..base]) + [':', ':'] + Join(words[base + len..i])
  }

  lemma {:induction false} JoinAppend(ws: seq<nat>, w: nat)
    ensures Join(ws + [w]) == Join(ws) + (if ws == [] then [] else [':']) + Hex(w)
  {
    hide Hex;
    var all := ws + [w];
    if ws == [] {
      assert all[1..] == [];
    } else {
      JoinAppend(ws[1..], w);
      assert all[1..] == ws[1..] + [w];
      if |ws| == 1 {
        assert ws[1..] == [];
      }
    }
  }

  lemma {:induction false} JoinLast(ws: seq<nat>)
    requires ws != []
    ensures Join(ws) != [] && Join(ws)[|Join(ws)| - 1] != ':'
  {
    hide Hex;
    HexStart(ws[0]);
    if |ws| > 1 {
      JoinLast(ws[1..]);
    }
  }

  lemma {:induction false} JoinShort(ws: seq<nat>)
    requires IsWords(ws)
    ensures |Join(ws)| <= 5 * |ws|
  {
    hide Hex;
    if ws != [] {
      HexShort(ws[0]);
      JoinShort(ws[1..]);
    }
  }

  lemma HexShort(w: nat)
    requires w < 0x1_0000
    ensures |Hex(w)| <= 4
  {
    NumeralStep(w, 16, false);
    NumeralStep(w / 16, 16, false);
    NumeralStep(w / 16 / 16, 16, false);
    NumeralStep(w / 16 / 16 / 16, 16, false);
  }

  /** One word more: a colon in front unless the text is empty or already ends in one. */
  lemma PartialStep(words: seq<nat>, base: int, len: int, i: int)
    requires 0 <= i < |words| && i != base && (base == -1 || (0 <= base && 2 <= len && (i <= base || base + len <= i)))
    ensures var t := Partial(words, base, len, i);
            && (i > 0 ==> t != [])
            && Partial(words, base, len, i + 1)
               == t + (if i > 0 && t[|t| - 1] != ':' then [':'] else []) + Hex(words[i])
  {
    hide Join, Hex;
    if base == -1 || i < base {
      assert words[..i + 1] == words[..i] + [words[i]];
      JoinAppend(words[..i], words[i]);
      if i > 0 {
        JoinLast(words[..i]);
      }
    } else {
      var post := words[base + len..i];
      assert words[base + len..i + 1] == post + [words[i]];
      JoinAppend(post, words[i]);
      EmptyJoin();
      if post != [] {
        JoinLast(post);
      }
    }
  }

  lemma PartialShort(words: seq<nat>, base: int, len: int, i: int)
    requires 0 <= i <= |words| && IsWords(words) && (base == -1 || (0 <= base && 2 <= len && (i <= base || base + len <= i)))
    ensures |Partial(words, base, len, i)| <= 5 * i + 2
  {
    hide Join;
    if base == -1 || i <= base {
      JoinShort(words[..i]);
    } else {
      JoinShort(words[..base]);
      JoinShort(words[base + len..i]);
    }
  }

  /** The output loop: the text fits the buffer of INET6_ADDRSTRLEN bytes. */
  method EmitText(words: seq<nat>, base: int, len: int) returns (text: string)
    requires |words| == 8 && IsWords(words)
    requires base == -1 || (0 <= base && 2 <= len && base + len <= 8)
    ensures text == Text(words, base, len) && |text| < INET6_ADDRSTRLEN
  {
    hide Join, Hex;
    var buf := new char[INET6_ADDRSTRLEN];
    var p: nat := 0;
    var i := 0;
    EmptyJoin();
    assert words[..0] == [];
    while i < 8
      invariant 0 <= i <= 8 && (base == -1 || i <= base || base + len <= i)
      invariant p <= buf.Length && buf[..p] == Partial(words, base, len, i)
    {
      PartialShort(words, base, len, i);
      if base == i {
        p := PutChar(buf, p, ':');
        p := PutChar(buf, p, ':');
        assert words[base + len..base + len] == [];
        i := i + len;
        continue;
      }
      PartialStep(words, base, len, i);
      ghost var t := buf[..p];
      if i > 0 && buf[p - 1] != ':' {
        p := PutChar(buf, p, ':');
      }
      p := Hex16(buf, p, words[i]);
      i := i + 1;
    }
    PartialShort(words, base, len, 8);
    assert words[..8] == words;
    if base != -1 && base + len == 8 {
      p := PutChar(buf, p, ':');
    }
    text := buf[..p];
    buf[p] := '\0';
    assert base != -1 ==> words[base + len..8] == words[base + len..];
  }

  /** inet_ntop for AF_INET6; `size` is the size of the destination. */
  method InetNtop6(bytes: seq<ByteMemory.Byte>, size: nat) returns (ok: bool, text: string, base: int, len: int)
    requires |bytes| == 16
    ensures ok <==> size >= INET6_ADDRSTRLEN
    ensures ok ==> Elided(WordsOf(bytes), base, len) && |text| < size
    ensures ok ==> (base == -1 || (0 <= base && 0 <= len && base + len <= 8)) && text == Text(WordsOf(bytes), base, len)
  {
    hide Join;
    ok, text, base, len := false, [], -1, 0;
    if size < INET6_ADDRSTRLEN {
      return;
    }
    var words := WordsOf(bytes);
    base, len := BestRun(words);
    text := EmitText(words, base, len);
    ok := true;
  }

  // ---------------------------------------------------------------------------------------
  // parse_ipv6

  method ParsePart(s: string) returns (v: int, rest: string)
    ensures (v, rest) == Part(s)
  {
    hide LongOf;
    var end;
    v, end := Strtol(s, 10);
    if v < 0 || v > 255 || end == |s| || s[end] != '.' {
      return -1, s;
    }
    assert s[end..][0] == s[end];
    rest := s[end + 1..];
  }

  method ParseIpv4Text(s: string) returns (v: int)
    ensures if ParseIpv4(s) < 0 then v < 0 else v == ParseIpv4(s)
  {
    hide LongOf, Part;
    var a, b, c, d, t, end;
    a, t := ParsePart(s);
    if a < 0 {
      return -1;
    }
    b, t := ParsePart(t);
    if b < 0 {
      return -1;
    }
    c, t := ParsePart(t);
    if c < 0 {
      return -1;
    }
    d, end := Strtol(t, 10);
    assert t[end..] != [] ==> t[end..][0] == t[end];
    if d < 0 || d > 255 || (end < |t| && t[end] != ' ' && t[end] != '\t') {
      return -1;
    }
    v := a * 0x100_0000 + b * 0x1_0000 + c * 0x100 + d;
  }

  /** The words behind the gap move up, the last one first. */
  method MoveUp(words: array<nat>, cur: nat, zpos: nat, fill: nat)
    requires cur + fill == words.Length && zpos <= cur
    modifies words
    ensures words[..zpos] == old(words[..zpos]) && words[zpos + fill..] == old(words[zpos..cur])
  {
    ghost var was := words[..];
    var i: int := cur - 1;
    while i >= zpos
      invariant zpos - 1 <= i < cur
      invariant words[..i + 1] == was[..i + 1] && words[i + 1 + fill..] == was[i + 1..cur]
    {
      ghost var up := words[i + 1 + fill..];
      assert words[i] == words[..i + 1][i];
      words[i + fill] := words[i];
      assert words[i + fill..] == [was[i]] + up;
      assert was[i..cur] == [was[i]] + was[i + 1..cur];
      assert words[..i] == was[..i + 1][..i];
      i := i - 1;
    }
  }

  method ClearGap(words: array<nat>, zpos: nat, fill: nat)
    requires zpos + fill <= words.Length
    modifies words
    ensures words[..] == old(words[..zpos]) + Zeros(fill) + old(words[zpos + fill..])
  {
    var i := zpos;
    while i < zpos + fill
      invariant zpos <= i <= zpos + fill
      invariant forall k :: zpos <= k < i ==> words[k] == 0
      invariant forall k :: 0 <= k < zpos || zpos + fill <= k < words.Length ==> words[k] == old(words[k])
    {
      words[i] := 0;
      i := i + 1;
    }
  }

  /** The gap is opened in place. */
  method Spread(words: array<nat>, cur: nat, zpos: nat)
    requires words.Length == 8 && zpos <= cur <= 8
    modifies words
    ensures words[..] == old(words[..zpos]) + Zeros(8 - cur) + old(words[zpos..cur])
  {
    hide Zeros;
    var fill := 8 - cur;
    MoveUp(words, cur, zpos, fill);
    ClearGap(words, zpos, fill);
  }

  /** Steps of the loop of parse_ipv6, stated on the text from position p on. */
  lemma ColonStep(s: string, p: nat, w: seq<nat>, z: int)
    requires p < |s| && s[p] == ':' && -1 <= z <= |w| < 8
    ensures ParseWords(s[p..], w, z)
            == if z != -1 || (p + 1 < |s| && s[p + 1] == ':') then Fail else ParseWords(s[p + 1..], w, |w|)
  {
    assert s[p..][1..] == s[p + 1..];
  }

  lemma NumberStep(s: string, p: nat, w: seq<nat>, z: int, v: int, q: nat)
    requires p < |s| && s[p] != ':' && -1 <= z <= |w| < 8 && p <= q <= |s| && LongOf(s[p..], 16) == (v, q - p)
    ensures ParseWords(s[p..], w, z)
            == if v < 0 || v > 0xffff then Fail
               else if q == |s| then ParseWords(s[q..], w + [v], z)
               else if s[q] == '.' then Dotted(s[q..], w + [v], z)
               else if s[q] == ':' then ParseWords(s[q + 1..], w + [v], z)
               else Fail
  {
    hide LongOf, Dotted;
    assert s[p..][q - p..] == s[q..];
    if q < |s| {
      assert s[q..][1..] == s[q + 1..] && s[q..][0] == s[q];
    } else {
      assert s[q..] == [];
    }
  }

  /** The loop of parse_ipv6: the words read, the place of the gap, and where the text was left. */
  method ReadWords(s: string, start: nat, gap: int, words: array<nat>) returns (ok: bool, cur: nat, zpos: int, p: nat)
    requires start <= |s| && words.Length == 8 && -1 <= gap <= 0
    modifies words
    ensures !ok ==> ParseWords(s[start..], [], gap) == Fail
    ensures ok ==> p <= |s| && -1 <= zpos <= cur <= 8 && IsWords(words[..cur])
    ensures ok ==> ParseWords(s[start..], [], gap) == Finish(s[p..], words[..cur], zpos)
  {
    hide LongOf, ParseWords, Finish, ParseIpv4;
    ok, cur, zpos, p := false, 0, gap, start;
    assert words[..0] == [];
    while p < |s| && cur < 8
      invariant p <= |s| && -1 <= zpos <= cur <= 8 && IsWords(words[..cur])
      invariant ParseWords(s[p..], words[..cur], zpos) == ParseWords(s[start..], [], gap)
      decreases |s| - p, 8 - cur
    {
      if s[p] == ':' {
        ColonStep(s, p, words[..cur], zpos);
        if zpos != -1 {
          return;
        }
        zpos := cur;
        p := p + 1;
        if p < |s| && s[p] == ':' {
          return;
        }
        continue;
      }
      var val, end := Strtol(s[p..], 16);
      LongEnd(s[p..], 16);
      NumberStep(s, p, words[..cur], zpos, val, p + end);
      if val < 0 || val > 0xffff {
        return;
      }
      ghost var w := words[..cur];
      words[cur] := val;
      assert words[..cur + 1] == w + [val];
      cur := cur + 1;
      p := p + end;
      if p < |s| && s[p] == '.' {
        ok, cur, p := TakeDotted(s, p, words, cur, zpos);
        return;
      }
      if p < |s| {
        if s[p] != ':' {
          return;
        }
        p := p + 1;
      }
    }
    LoopEnd(s[p..], words[..cur], zpos);
    ok := true;
  }

  lemma LongEnd(s: string, base: nat)
    requires base == 0 || 2 <= base <= 36
    ensures LongOf(s, base).1 <= |s|
  {
  }

  lemma LoopEnd(s: string, w: seq<nat>, z: int)
    requires -1 <= z <= |w| <= 8 && (s == [] || |w| == 8)
    ensures ParseWords(s, w, z) == Finish(s, w, z)
  {
  }

  /** The branch for a dotted tail. */
  method TakeDotted(s: string, p: nat, words: array<nat>, cur0: nat, ghost z: int) returns (ok: bool, cur: nat, p': nat)
    requires p <= |s| && words.Length == 8 && -1 <= z <= cur0 <= 8 && IsWords(words[..cur0])
    modifies words
    ensures !ok ==> Dotted(s[p..], old(words[..cur0]), z) == Fail
    ensures ok ==> p' <= |s| && z <= cur <= 8 && IsWords(words[..cur])
    ensures ok ==> Dotted(s[p..], old(words[..cur0]), z) == Finish(s[p'..], words[..cur], z)
  {
    hide Finish, ParseIpv4;
    ok, cur, p' := false, cur0, p;
    if cur > 6 {
      return;
    }
    var v := ParseIpv4Text(s[p..]);
    if v < 0 {
      return;
    }
    ghost var w := words[..cur];
    words[cur] := v / 0x1_0000 % 0x1_0000;
    words[cur + 1] := v % 0x1_0000;
    assert words[..cur + 2] == w + [v / 0x1_0000 % 0x1_0000, v % 0x1_0000];
    assert s[|s|..] == [];
    ok, cur, p' := true, cur + 2, |s|;
  }

  /** parse_ipv6. */
  method ParseIpv6(s: string) returns (ok: bool, out: seq<ByteMemory.Byte>)
    ensures ok <==> Parse(s).Ok?
    ensures ok ==> |Parse(s).words| == 8 && IsWords(Parse(s).words) && out == BytesOf(Parse(s).words)
  {
    hide ParseWords, BytesOf;
    ok, out := false, [];
    var words := new nat[8](_ => 0);
    var start, gap := 0, -1;
    assert s[0..] == s;
    if |s| > 0 && s[0] == ':' {
      assert |s| > 1 ==> s[1..][0] == s[1];
      if |s| == 1 || s[1] != ':' {
        return;
      }
      start, gap := 2, 0;
    }
    var read, cur, zpos, p := ReadWords(s, start, gap, words);
    if !read || p < |s| {
      return;
    }
    assert s[p..] == [];
    if zpos == -1 && cur != 8 {
      return;
    }
    FillGap(words, cur, zpos);
    ok := true;
    out := BytesOf(words[..]);
  }

  /** The words are completed to eight. */
  method FillGap(words: array<nat>, cur: nat, zpos: int)
    requires words.Length == 8 && -1 <= zpos <= cur <= 8 && (zpos == -1 ==> cur == 8) && IsWords(words[..cur])
    modifies words
    ensures IsWords(words[..]) && Finish([], old(words[..cur]), zpos) == Ok(words[..])
  {
    ghost var w := words[..cur];
    if zpos != -1 {
      Spread(words, cur, zpos);
      assert w[zpos..] == old(words[zpos..cur]) && w[..zpos] == old(words[..zpos]);
    } else {
      assert words[..cur] == words[..];
    }
  }

  /** An address printed and read back, on its sixteen bytes. */
  method PrintThenParse(bytes: seq<ByteMemory.Byte>) returns (ok: bool, out: seq<ByteMemory.Byte>, base: int, len: int)
    requires |bytes| == 16
    ensures Elided(WordsOf(bytes), base, len)
    ensures ok <==> base == -1 || base + len < 8
    ensures ok ==> out == bytes
  {
    hide Parse, Text, Elided, WordsOf, BytesOf;
    var printed, text;
    printed, text, base, len := InetNtop6(bytes, INET6_ADDRSTRLEN);
    ok, out := ParseIpv6(text);
    RoundTripIff(WordsOf(bytes), base, len);
    BytesOfWords(bytes);
  }
}
