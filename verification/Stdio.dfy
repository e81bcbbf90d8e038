/**
  Buffered streams of stdio.c over a descriptor.  The kernel is a script of answers: how many bytes
  the next write takes or the next read gives, an interruption, or a hard error.  A script that has
  run out answers every request in full, so every finite pattern of short transfers is covered.
 */
module Stdio {
  import opened ByteMemory
  import Calendar

  const WORD: nat := 0x1_0000_0000_0000_0000  // size_t

  datatype Answer = Transfer(n: nat) | Again | Hard

  function Min(a: nat, b: nat): nat {
    if a < b then a else b
  }

  /** size * nmemb in size_t. */
  function Total(size: nat, nmemb: nat): (t: nat)
    ensures size == 0 || nmemb == 0 ==> t == 0
  {
    size * nmemb % 0x1_0000_0000_0000_0000
  }

  /** Whole items in so many bytes. */
  function Items(bytes: nat, size: nat): nat {
    if size == 0 then 0 else bytes / size
  }

  /** A file descriptor: what was sent to it, what can still be read, and the kernel's answers. */
  class Descriptor {
    var sent: seq<Byte>
    var input: seq<Byte>
    var answers: seq<Answer>

    constructor (input: seq<Byte>, answers: seq<Answer>)
      ensures this.input == input && this.answers == answers && sent == []
    {
      this.sent, this.input, this.answers := [], input, answers;
    }

    /** write(2): the count taken, -2 for EINTR or EAGAIN, -1 for other errors. */
    method Write(data: seq<Byte>) returns (w: int)
      modifies `sent, `answers
      ensures -2 <= w <= |data|
      ensures sent == old(sent) + if w > 0 then data[..w] else []
      ensures answers == if old(answers) == [] then [] else old(answers)[1..]
      ensures w == if old(answers) == [] then |data|
                   else match old(answers)[0] case Transfer(n) => Min(n, |data|) case Again => -2 case Hard => -1
    {
      w := |data|;
      if answers != [] {
        match answers[0] {
          case Transfer(n) => w := Min(n, |data|);
          case Again => w := -2;
          case Hard => w := -1;
        }
        answers := answers[1..];
      }
      if w > 0 {
        sent := sent + data[..w];
      }
    }

    /** The loop of flush_buffer: write until all is taken, retrying interruptions. */
    method SendAll(data: seq<Byte>) returns (failed: bool)
      modifies `sent, `answers
      ensures var d := Drain(old(answers), |data|);
              failed == d.1 && answers == d.2 && sent == old(sent) + data[..d.0]
    {
      hide Drain;
      var off := 0;
      while off < |data|
        invariant 0 <= off <= |data| && sent == old(sent) + data[..off]
        invariant var d, e := Drain(old(answers), |data|), Drain(answers, |data| - off);
                  d.0 == off + e.0 && d.1 == e.1 && d.2 == e.2
        decreases |answers|, |data| - off
      {
        DrainStep(answers, |data| - off);
        DrainEnd([]);
        var w := Write(data[off..]);
        if w == -2 {
          continue;
        }
        if w < 0 {
          return true;
        }
        assert data[..off] + data[off..][..w] == data[..off + w];
        off := off + w;
      }
      DrainEnd(answers);
      return false;
    }

    /** read(2) of at most n bytes: the bytes given, or failure.  An interruption is a failure here. */
    method Read(n: nat) returns (failed: bool, data: seq<Byte>)
      modifies `input, `answers
      ensures |data| <= n && data + input == old(input) && (failed ==> data == [])
      ensures answers == if old(answers) == [] then [] else old(answers)[1..]
      ensures failed <==> old(answers) != [] && !old(answers)[0].Transfer?
      ensures !failed ==> |data| == Min(n, if old(answers) == [] then |old(input)| else Min(old(answers)[0].n, |old(input)|))
    {
      var k := |input|;
      failed, data := false, [];
      if answers != [] {
        var a := answers[0];
        answers := answers[1..];
        if !a.Transfer? {
          return true, [];
        }
        k := Min(a.n, k);
      }
      k := Min(n, k);
      data := input[..k];
      input := input[k..];
    }
  }

  // ---------------------------------------------------------------------------------------
  // How a flush of n bytes fares on a script

  /** Bytes taken, whether it ended in a hard error, and the answers left. */
  function Drain(answers: seq<Answer>, n: nat): (r: (nat, bool, seq<Answer>))
    ensures r.0 <= n && (!r.1 ==> r.0 == n)
  {
    if n == 0 then (0, false, answers)
    else if answers == [] then (n, false, [])
    else
      match answers[0]
      case Hard => (0, true, answers[1..])
      case Again => Drain(answers[1..], n)
      case Transfer(k) =>
        var r := Drain(answers[1..], n - Min(k, n));
        (Min(k, n) + r.0, r.1, r.2)
  }

  /** Short writes and interruptions alone never fail a flush. */
  lemma {:induction false} DrainSucceeds(answers: seq<Answer>, n: nat)
    requires Hard !in answers
    ensures !Drain(answers, n).1 && Hard !in Drain(answers, n).2
  {
    if n > 0 && answers != [] {
      match answers[0] {
        case Hard => {}
        case Again => { DrainSucceeds(answers[1..], n); }
        case Transfer(k) => { DrainSucceeds(answers[1..], n - Min(k, n)); }
      }
    }
  }

  /** The FILE structure, for streams on a descriptor. */
  class Stream {
    const fd: Descriptor
    var buf: array?<Byte>
    var bufpos: nat
    var buflen: nat
    var error: bool
    var eof: bool
    ghost var accepted: seq<Byte>   // all bytes taken by fwrite and its callers
    ghost var delivered: seq<Byte>  // all bytes handed out by fread
    ghost const whole: seq<Byte>    // what the descriptor had to give when the stream was opened

    constructor (fd: Descriptor, buf: array?<Byte>)
      requires buf != null ==> buf.Length > 0
      ensures this.fd == fd && this.buf == buf && !error && !eof && buflen == 0 && bufpos == 0
      ensures accepted == fd.sent && delivered == [] && whole == fd.input
      ensures Writing() && Reading()
    {
      this.fd, this.buf, bufpos, buflen, error, eof := fd, buf, 0, 0, false, false;
      accepted, delivered, whole := fd.sent, [], fd.input;
    }

    ghost predicate Shape()
      reads this, buf
    {
      if buf == null then buflen == 0 && bufpos == 0 else buf.Length > 0 && bufpos <= buflen <= buf.Length
    }

    /** Bytes in the buffer. */
    ghost function Pending(): seq<Byte>
      requires Shape()
      reads this, buf
    {
      if buf == null then [] else buf[..buflen]
    }

    /** Until a hard error: what was sent and what is pending is what was accepted. */
    ghost predicate Writing()
      reads this, buf, fd
    {
      Shape() && bufpos == 0 && (!error || buf == null ==> fd.sent + Pending() == accepted)
    }

    /** What was delivered, is in the buffer and can still be read is the whole input. */
    ghost predicate Reading()
      reads this, buf, fd
    {
      Shape() && delivered + (if buf == null then [] else buf[bufpos..buflen]) + fd.input == whole
    }

    /** flush_buffer on a descriptor stream. */
    method FlushBuffer() returns (r: int)
      requires Shape() && bufpos == 0
      modifies this`bufpos, this`buflen, this`error, fd`sent, fd`answers
      ensures Shape() && bufpos == 0
      ensures var d := Drain(old(fd.answers), |old(Pending())|);
              && r == (if d.1 then -1 else 0) && error == (old(error) || d.1) && fd.answers == d.2
              && fd.sent == old(fd.sent) + old(Pending())[..d.0]
              && buflen == (if d.1 then old(buflen) else 0)
              && (fd.sent + Pending() == old(fd.sent + Pending()) <==> !d.1 || d.0 == 0)
      ensures old(Writing()) && r == 0 ==> Writing()
    {
      hide Drain;
      ghost var d := Drain(fd.answers, |Pending()|);
      FailedFlush(fd.sent, Pending(), d.0);
      DrainEnd(fd.answers);
      if buf == null || buflen == 0 {
        return 0;
      }
      var failed := fd.SendAll(buf[..buflen]);
      if failed {
        error := true;
        return -1;
      }
      buflen, bufpos := 0, 0;
      return 0;
    }

    /** One round of the loop of fwrite on a buffered stream. */
    method BufferSome(data: seq<Byte>) returns (n: nat, ok: bool)
      requires Writing() && buf != null && data != []
      modifies this`bufpos, this`buflen, this`error, this`accepted, buf, fd`sent, fd`answers
      ensures Writing() && n <= |data| && accepted == old(accepted) + data[..n]
      ensures ok ==> n > 0 && error == old(error) && buflen < buf.Length
      ensures !ok ==> error && Hard in old(fd.answers)
      ensures Left(fd.answers, old(fd.answers))
    {
      hide Drain;
      DrainSuffix(fd.answers, buflen);
      if buflen == buf.Length {
        var r := FlushBuffer();
        if r < 0 {
          return 0, false;
        }
      }
      var avail := buf.Length - buflen;
      n := Min(|data|, avail);
      Append(data[..n]);
      ok := true;
      if buflen == buf.Length {
        DrainSuffix(fd.answers, buflen);
        var r := FlushBuffer();
        ok := r == 0;
      }
    }

    /** The memcpy of fwrite. */
    method Append(data: seq<Byte>)
      requires Writing() && buf != null && buflen + |data| <= buf.Length
      modifies this`buflen, this`accepted, buf
      ensures Writing() && buflen == old(buflen) + |data| && accepted == old(accepted) + data
    {
      ghost var was := Pending();
      CopyInto(buf, buflen, data);
      JoinSlices(buf[..], buflen, |data|);
      assert fd.sent + (was + data) == fd.sent + was + data;
      buflen := buflen + |data|;
      accepted := accepted + data;
    }

    /** fwrite: `data` holds at least size * nmemb bytes, the product taken in size_t. */
    method Fwrite(data: seq<Byte>, size: nat, nmemb: nat) returns (n: nat, ghost written: nat)
      requires Writing() && size < WORD && nmemb < WORD && |data| >= Total(size, nmemb)
      modifies this`bufpos, this`buflen, this`error, this`accepted, buf, fd`sent, fd`answers
      ensures Writing() && written <= |data| && accepted == old(accepted) + data[..written]
      ensures size > 0 ==> n * size <= written < (n + 1) * size
      ensures Total(size, nmemb) == size * nmemb % WORD && written <= Total(size, nmemb)
      ensures written < Total(size, nmemb) ==> error
      ensures error && !old(error) ==> old(fd.answers) != []
      ensures buf != null && Hard !in old(fd.answers) ==> error == old(error) && written == Total(size, nmemb)
      ensures Flowing(old(fd.answers)) ==> error == old(error) && written == Total(size, nmemb)
      ensures Left(fd.answers, old(fd.answers))
    {
      TotalIs(size, nmemb);
      hide Total, Writing, Flowing, Left, Shape, Items;
      NothingTaken(fd.answers);
      if size == 0 || nmemb == 0 {
        return 0, 0;
      }
      var total := Total(size, nmemb);
      var count := WriteAll(data[..total]);
      assert data[..total][..count] == data[..count];
      ItemsIn(count, size);
      return Items(count, size), count;
    }

    /** The loop of fwrite. */
    method WriteAll(data: seq<Byte>) returns (count: nat)
      requires Writing()
      modifies this`bufpos, this`buflen, this`error, this`accepted, buf, fd`sent, fd`answers
      ensures Writing() && count <= |data| && accepted == old(accepted) + data[..count]
      ensures count < |data| ==> error
      ensures error && !old(error) ==> old(fd.answers) != []
      ensures buf != null && Hard !in old(fd.answers) ==> error == old(error) && count == |data|
      ensures Flowing(old(fd.answers)) ==> error == old(error) && count == |data|
      ensures Left(fd.answers, old(fd.answers))
    {
      hide Writing;
      count := 0;
      while count < |data|
        invariant 0 <= count <= |data| && Writing() && accepted == old(accepted) + data[..count]
        invariant error == old(error) && Left(fd.answers, old(fd.answers))
      {
        var k, ok;
        if buf != null {
          k, ok := BufferSome(data[count..]);
        } else {
          k, ok := SendSome(data[count..]);
        }
        Joined(data, count, k);
        count := count + k;
        if !ok {
          break;
        }
      }
    }

    method Fputc(c: int) returns (r: int)
      requires Writing()
      modifies this`bufpos, this`buflen, this`error, this`accepted, buf, fd`sent, fd`answers
      ensures Writing() && Left(fd.answers, old(fd.answers))
      ensures if r == c % 256 then accepted == old(accepted) + [c % 256] else r == -1 && error && accepted == old(accepted)
      ensures buf != null && Hard !in old(fd.answers) ==> error == old(error) && r == c % 256
    {
      hide Writing;
      var ch: Byte := c % 256;
      assert [ch][..1] == [ch] && [ch][..0] == [];
      TotalOfOne(1);
      var n, written := Fwrite([ch], 1, 1);
      r := if n != 1 then -1 else ch;
    }

    method Fputs(s: seq<Byte>) returns (r: int)
      requires Writing() && |s| < WORD
      modifies this`bufpos, this`buflen, this`error, this`accepted, buf, fd`sent, fd`answers
      ensures Writing() && Left(fd.answers, old(fd.answers))
      ensures exists w: nat {:trigger s[..w]} :: w <= |s| && accepted == old(accepted) + s[..w]
                && r == (if w == |s| then Calendar.Int(w) else -1) && (w < |s| ==> error)
      ensures buf != null && Hard !in old(fd.answers) ==> error == old(error) && accepted == old(accepted) + s
    {
      hide Writing;
      TotalOfOne(|s|);
      var n, written := Fwrite(s, 1, |s|);
      assert n == written && s[..written] == s[..n] && s[..|s|] == s;
      r := if n == |s| then Calendar.Int(n) else -1;
    }

    /** fflush; `synced` is the answer of fsync. */
    method Fflush(synced: bool) returns (r: int)
      requires Writing()
      modifies this`bufpos, this`buflen, this`error, fd`sent, fd`answers
      ensures accepted == old(accepted) && Left(fd.answers, old(fd.answers)) && (error == old(error) ==> Writing())
      ensures Writing() && !error ==> fd.sent == accepted && Pending() == []
      ensures r == 0 <==> synced && !Drain(old(fd.answers), |old(Pending())|).1
      ensures error == (old(error) || Drain(old(fd.answers), |old(Pending())|).1)
      ensures Hard !in old(fd.answers) ==> error == old(error) && (r == 0 <==> synced)
    {
      hide Drain;
      DrainSuffix(fd.answers, buflen);
      r := FlushBuffer();
      if r < 0 {
        return -1;
      }
      r := if synced then 0 else -1;
    }

    /** One round of the loop of fread on a buffered stream. */
    method TakeSome(out: array<Byte>, copied: nat, total: nat) returns (n: nat, ok: bool)
      requires Reading() && buf != null && out != buf && copied < total <= out.Length
      modifies this`bufpos, this`buflen, this`error, this`eof, this`delivered, buf, out, fd`input, fd`answers
      ensures Reading() && n <= total - copied && out[..copied] == old(out[..copied])
      ensures delivered == old(delivered) + out[copied..copied + n]
      ensures if ok then n > 0 && error == old(error) && eof == old(eof) else n == 0 && Ended(old(fd.answers), old(error), old(eof))
      ensures !ok && Flowing(old(fd.answers)) ==> error == old(error) && delivered == whole
      ensures Left(fd.answers, old(fd.answers))
    {
      hide Reading;
      AtLeastShape();
      if bufpos >= buflen {
        var filled := Refill();
        if !filled {
          return 0, false;
        }
        AtLeastShape();
      }
      var avail := buflen - bufpos;
      n := Min(total - copied, avail);
      Hand(out, copied, n);
      ok := true;
    }

    /** Hand out n bytes of the buffer. */
    method Hand(out: array<Byte>, copied: nat, n: nat)
      requires Reading() && buf != null && out != buf && copied + n <= out.Length && bufpos + n <= buflen
      modifies this`bufpos, this`delivered, out
      ensures Reading() && out[..copied] == old(out[..copied])
      ensures delivered == old(delivered) + out[copied..copied + n]
    {
      ghost var all := buf[..];
      var data := buf[bufpos..bufpos + n];
      CopyInto(out, copied, data);
      assert buf[..] == all;
      CutInTwo(all, bufpos, n, buflen, delivered, fd.input);
      bufpos := bufpos + n;
      delivered := delivered + data;
    }

    lemma AtLeastShape()
      requires Reading()
      ensures Shape()
    {
    }

    /** After a read that gave nothing: an error exactly if it failed, else the end of the file. */
    ghost predicate Ended(answers: seq<Answer>, wasError: bool, wasEof: bool)
      reads this
    {
      var failed := answers != [] && !answers[0].Transfer?;
      error == (wasError || failed) && eof == (wasEof || !failed)
    }

    /** read into the empty buffer. */
    method Refill() returns (ok: bool)
      requires Reading() && buf != null && bufpos >= buflen
      modifies this`bufpos, this`buflen, this`error, this`eof, buf, fd`input, fd`answers
      ensures Reading() && Left(fd.answers, old(fd.answers))
      ensures if ok then bufpos < buflen && error == old(error) && eof == old(eof) else Ended(old(fd.answers), old(error), old(eof))
      ensures !ok && Flowing(old(fd.answers)) ==> error == old(error) && delivered == whole
    {
      var failed, data := fd.Read(buf.Length);
      if failed || data == [] {
        if failed {
          error := true;
        } else {
          eof := true;
        }
        return false;
      }
      CopyInto(buf, 0, data);
      buflen, bufpos := |data|, 0;
      return true;
    }

    /** One round of the loop of fread on an unbuffered stream. */
    method ReceiveSome(out: array<Byte>, copied: nat, total: nat) returns (n: nat, ok: bool)
      requires Reading() && buf == null && copied < total <= out.Length
      modifies this`error, this`eof, this`delivered, out, fd`input, fd`answers
      ensures Reading() && n <= total - copied && out[..copied] == old(out[..copied])
      ensures delivered == old(delivered) + out[copied..copied + n]
      ensures if ok then n > 0 && error == old(error) && eof == old(eof) else n == 0 && Ended(old(fd.answers), old(error), old(eof))
      ensures !ok && Flowing(old(fd.answers)) ==> error == old(error) && delivered == whole
      ensures Left(fd.answers, old(fd.answers))
    {
      var failed, data := fd.Read(total - copied);
      if failed || data == [] {
        if failed {
          error := true;
        } else {
          eof := true;
        }
        return 0, false;
      }
      CopyInto(out, copied, data);
      delivered := delivered + data;
      return |data|, true;
    }

    /** fread: `out` has room for size * nmemb bytes, the product taken in size_t. */
    method Fread(out: array<Byte>, size: nat, nmemb: nat) returns (n: nat, ghost copied: nat)
      requires Reading() && out != buf && size < WORD && nmemb < WORD && out.Length >= Total(size, nmemb)
      modifies this`bufpos, this`buflen, this`error, this`eof, this`delivered, buf, out, fd`input, fd`answers
      ensures Reading() && copied <= out.Length && delivered == old(delivered) + out[..copied]
      ensures size > 0 ==> n * size <= copied < (n + 1) * size
      ensures Total(size, nmemb) == size * nmemb % WORD && copied <= Total(size, nmemb)
      ensures if copied < Total(size, nmemb) then StoppedShort(old(fd.answers), old(error), old(eof))
              else error == old(error) && eof == old(eof)
      ensures Flowing(old(fd.answers)) ==>
                error == old(error) && (copied < Total(size, nmemb) ==> delivered == whole)
    {
      TotalIs(size, nmemb);
      NothingTotal(size, nmemb);
      hide Total, Reading, Flowing, Items, StoppedShort;
      if size == 0 || nmemb == 0 {
        return 0, 0;
      }
      var total := Total(size, nmemb);
      var count := ReadAll(out, total);
      ItemsIn(count, size);
      return Items(count, size), count;
    }

    /** Some read gave nothing. */
    ghost predicate StoppedShort(answers: seq<Answer>, wasError: bool, wasEof: bool)
      reads this
    {
      exists rest: seq<Answer> :: Left(rest, answers) && Ended(rest, wasError, wasEof)
    }

    /** One round of the loop of fread. */
    method ReadSome(out: array<Byte>, copied: nat, total: nat) returns (n: nat, ok: bool)
      requires Reading() && out != buf && copied < total <= out.Length
      modifies this`bufpos, this`buflen, this`error, this`eof, this`delivered, buf, out, fd`input, fd`answers
      ensures Reading() && n <= total - copied && out[..copied] == old(out[..copied])
      ensures delivered == old(delivered) + out[copied..copied + n]
      ensures if ok then n > 0 && error == old(error) && eof == old(eof) else n == 0 && Ended(old(fd.answers), old(error), old(eof))
      ensures !ok && Flowing(old(fd.answers)) ==> error == old(error) && delivered == whole
      ensures Left(fd.answers, old(fd.answers))
    {
      hide Reading, Flowing, Left, Ended;
      if buf != null {
        n, ok := TakeSome(out, copied, total);
      } else {
        n, ok := ReceiveSome(out, copied, total);
      }
    }

    /** The loop of fread. */
    method ReadAll(out: array<Byte>, total: nat) returns (count: nat)
      requires Reading() && out != buf && out.Length >= total
      modifies this`bufpos, this`buflen, this`error, this`eof, this`delivered, buf, out, fd`input, fd`answers
      ensures Reading() && count <= total && delivered == old(delivered) + out[..count]
      ensures if count < total then StoppedShort(old(fd.answers), old(error), old(eof))
              else error == old(error) && eof == old(eof)
      ensures Flowing(old(fd.answers)) ==> error == old(error) && (count < total ==> delivered == whole)
    {
      hide Reading, Flowing, Left, Ended;
      count := 0;
      NothingTaken(fd.answers);
      while count < total
        invariant 0 <= count <= total && Reading() && delivered == old(delivered) + out[..count]
        invariant error == old(error) && eof == old(eof) && Left(fd.answers, old(fd.answers))
      {
        var k, ok;
        ghost var was, before := out[..count], fd.answers;
        if Flowing(old(fd.answers)) {
          StillFlowing(before, old(fd.answers));
        }
        k, ok := ReadSome(out, count, total);
        LeftChain(fd.answers, before, old(fd.answers));
        JoinSlices(out[..], count, k);
        Regrouped(old(delivered), was, out[count..count + k]);
        count := count + k;
        if !ok {
          assert Left(before, old(fd.answers)) && Ended(before, old(error), old(eof));
          break;
        }
      }
    }

    /** One round of the loop of fwrite on an unbuffered stream: here an interruption is an error. */
    method SendSome(data: seq<Byte>) returns (n: nat, ok: bool)
      requires Writing() && buf == null && data != []
      modifies this`error, this`accepted, fd`sent, fd`answers
      ensures Writing() && n <= |data| && accepted == old(accepted) + data[..n]
      ensures ok ==> n > 0 && error == old(error)
      ensures !ok ==> n == 0 && error && old(fd.answers) != [] && !Flowing(old(fd.answers))
      ensures Left(fd.answers, old(fd.answers))
    {
      var w := fd.Write(data);
      if w <= 0 {
        error := true;
        return 0, false;
      }
      accepted := accepted + data[..w];
      return w, true;
    }
  }

  /** memcpy. */
  method CopyInto(dst: array<Byte>, at: nat, data: seq<Byte>)
    requires at + |data| <= dst.Length
    modifies dst
    ensures dst[..at] == old(dst[..at]) && dst[at..at + |data|] == data
  {
    var i := 0;
    while i < |data|
      invariant 0 <= i <= |data|
      invariant dst[..at] == old(dst[..at]) && forall k :: 0 <= k < i ==> dst[at + k] == data[k]
    {
      dst[at + i] := data[i];
      i := i + 1;
    }
  }

  /** Every call transfers something: no interruption, no error, no empty transfer. */
  ghost predicate Flowing(answers: seq<Answer>) {
    forall i :: 0 <= i < |answers| ==> answers[i].Transfer? && answers[i].n > 0
  }

  lemma TotalIs(size: nat, nmemb: nat)
    ensures Total(size, nmemb) == size * nmemb % WORD
  {
  }

  lemma Regrouped(a: seq<Byte>, b: seq<Byte>, c: seq<Byte>)
    ensures a + b + c == a + (b + c)
  {
  }

  lemma NothingTotal(size: nat, nmemb: nat)
    ensures size == 0 || nmemb == 0 ==> Total(size, nmemb) == 0
  {
  }

  lemma ItemsIn(bytes: nat, size: nat)
    requires size > 0
    ensures Items(bytes, size) * size <= bytes < (Items(bytes, size) + 1) * size
  {
    var q := bytes / size;
    assert (q + 1) * size == q * size + size;
  }

  lemma NothingTaken(answers: seq<Answer>)
    ensures Left(answers, answers)
  {
  }

  lemma NoHardLeft(rest: seq<Answer>, answers: seq<Answer>)
    requires Left(rest, answers) && Hard !in answers
    ensures Hard !in rest
  {
  }

  lemma LeftChain(a: seq<Answer>, b: seq<Answer>, c: seq<Answer>)
    requires Left(a, b) && Left(b, c)
    ensures Left(a, c)
  {
  }

  lemma StillFlowing(rest: seq<Answer>, answers: seq<Answer>)
    requires Left(rest, answers) && Flowing(answers)
    ensures Flowing(rest) && Hard !in answers
  {
    forall i | 0 <= i < |rest|
      ensures rest[i].Transfer? && rest[i].n > 0
    {
      assert rest[i] == answers[|answers| - |rest| + i];
    }
  }

  /** `rest` is what is left of `answers`. */
  ghost predicate Left(rest: seq<Answer>, answers: seq<Answer>) {
    |rest| <= |answers| && rest == answers[|answers| - |rest|..]
  }

  lemma TotalOfOne(n: nat)
    requires n < WORD
    ensures Total(1, n) == n
  {
  }

  lemma JoinSlices(s: seq<Byte>, a: nat, n: nat)
    requires a + n <= |s|
    ensures s[..a + n] == s[..a] + s[a..a + n]
  {
  }

  /** The part of the buffer handed out moves from the buffer to what was delivered. */
  lemma CutInTwo(s: seq<Byte>, a: nat, n: nat, b: nat, front: seq<Byte>, back: seq<Byte>)
    requires a + n <= b <= |s|
    ensures front + s[a..b] + back == front + s[a..a + n] + s[a + n..b] + back
  {
    assert s[a..b] == s[a..a + n] + s[a + n..b];
  }

  lemma Joined(data: seq<Byte>, count: nat, k: nat)
    requires count + k <= |data|
    ensures data[..count] + data[count..][..k] == data[..count + k]
  {
  }

  lemma FailedFlush(sent: seq<Byte>, pending: seq<Byte>, taken: nat)
    requires taken <= |pending|
    ensures sent + pending[..taken] + pending == sent + pending <==> taken == 0
    ensures sent + pending[..|pending|] + [] == sent + pending
  {
    if taken == 0 {
      assert pending[..0] == [];
    } else {
      assert |sent + pending[..taken] + pending| > |sent + pending|;
    }
  }

  lemma {:induction false} DrainSuffix(answers: seq<Answer>, n: nat)
    ensures Left(Drain(answers, n).2, answers)
    ensures Drain(answers, n).1 ==> Hard in answers
  {
    if n > 0 && answers != [] {
      match answers[0] {
        case Hard => {}
        case Again => { DrainSuffix(answers[1..], n); }
        case Transfer(k) => { DrainSuffix(answers[1..], n - Min(k, n)); }
      }
    }
  }

  lemma DrainEnd(answers: seq<Answer>)
    ensures Drain(answers, 0) == (0, false, answers)
  {
  }

  lemma DrainStep(answers: seq<Answer>, n: nat)
    requires n > 0
    ensures answers == [] ==> Drain(answers, n) == (n, false, [])
    ensures answers != [] && answers[0] == Hard ==> Drain(answers, n) == (0, true, answers[1..])
    ensures answers != [] && answers[0] == Again ==> Drain(answers, n) == Drain(answers[1..], n)
    ensures answers != [] && answers[0].Transfer? ==>
              var k := Min(answers[0].n, n);
              var r := Drain(answers[1..], n - k);
              Drain(answers, n) == (k + r.0, r.1, r.2)
  {
  }

  function Flatten(chunks: seq<seq<Byte>>): seq<Byte> {
    if chunks == [] then [] else Flatten(chunks[..|chunks| - 1]) + chunks[|chunks| - 1]
  }

  /**
    A whole session: however the bytes are cut into calls, whatever the size of the buffer, and
    however short the writes, the descriptor receives exactly those bytes.
   */
  method WriteSession(fd: Descriptor, buf: array<Byte>, chunks: seq<seq<Byte>>)
    requires buf.Length > 0 && Hard !in fd.answers
    requires forall i :: 0 <= i < |chunks| ==> |chunks[i]| < WORD
    modifies fd, buf
    ensures fd.sent == old(fd.sent) + Flatten(chunks)
  {
    hide Left, Drain, Stream.Writing, Stream.Reading;
    var stream := new Stream(fd, buf);
    var i := 0;
    assert chunks[..0] == [];
    while i < |chunks|
      invariant 0 <= i <= |chunks| && stream.fd == fd && stream.buf == buf && stream.Writing() && !stream.error
      invariant Hard !in fd.answers && stream.accepted == old(fd.sent) + Flatten(chunks[..i])
    {
      ghost var before := fd.answers;
      var r := stream.Fputs(chunks[i]);
      NoHardLeft(fd.answers, before);
      assert chunks[..i + 1][..i] == chunks[..i];
      assert old(fd.sent) + Flatten(chunks[..i]) + chunks[i] == old(fd.sent) + Flatten(chunks[..i + 1]);
      i := i + 1;
    }
    assert chunks[..i] == chunks;
    var r := stream.Fflush(true);
  }
}
