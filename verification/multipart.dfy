/** The multipart form-data parser of httplib in its body state: a compacting buffer scanned for CRLF--boundary. */
module Multipart {
  import opened Digits

  // ---- where the delimiter is ----

  predicate Occurs(s: seq<Byte>, i: nat, d: seq<Byte>) { i + |d| <= |s| && s[i..i + |d|] == d }

  /** The delimiter is nowhere in s. */
  ghost predicate Free(s: seq<Byte>, d: seq<Byte>) { forall i: nat :: !Occurs(s, i, d) }

  /** It is at k for the first time. */
  ghost predicate First(s: seq<Byte>, k: nat, d: seq<Byte>) { Occurs(s, k, d) && forall i: nat :: i < k ==> !Occurs(s, i, d) }

  lemma FirstUnique(s: seq<Byte>, k: nat, m: nat, d: seq<Byte>)
    requires First(s, k, d) && First(s, m, d)
    ensures k == m
  {
  }

  /** Positions in the tail of a sequence are positions in the sequence. */
  lemma OccursShift(a: seq<Byte>, b: seq<Byte>, i: nat, d: seq<Byte>)
    ensures Occurs(a + b, |a| + i, d) <==> Occurs(b, i, d)
  {
    if i + |d| <= |b| {
      assert (a + b)[|a| + i..|a| + i + |d|] == b[i..i + |d|];
    }
  }

  lemma OccursPrefix(a: seq<Byte>, b: seq<Byte>, i: nat, d: seq<Byte>)
    requires i + |d| <= |a|
    ensures Occurs(a + b, i, d) <==> Occurs(a, i, d)
  {
    assert (a + b)[i..i + |d|] == a[i..i + |d|];
  }

  /** More input does not move the first occurrence. */
  lemma FirstStays(a: seq<Byte>, b: seq<Byte>, k: nat, d: seq<Byte>)
    requires First(a, k, d)
    ensures First(a + b, k, d)
  {
    OccursPrefix(a, b, k, d);
    forall i: nat | i < k
      ensures !Occurs(a + b, i, d)
    {
      OccursPrefix(a, b, i, d);
    }
  }

  /**
   * The delivered bytes can be forgotten: if the delimiter was not in the input so far, and at least its length is
   * retained once anything was delivered, then with more input it can only show up in what is retained.
   */
  lemma NotInDelivered(delivered: seq<Byte>, window: seq<Byte>, more: seq<Byte>, d: seq<Byte>, i: nat)
    requires Free(delivered + window, d) && (delivered != [] ==> |d| <= |window|) && d != []
    requires i < |delivered|
    ensures !Occurs(delivered + (window + more), i, d)
  {
    var s := delivered + window;
    assert delivered + (window + more) == s + more;
    OccursPrefix(s, more, i, d);
  }

  lemma FreeWhole(delivered: seq<Byte>, window: seq<Byte>, more: seq<Byte>, d: seq<Byte>)
    requires Free(delivered + window, d) && (delivered != [] ==> |d| <= |window|) && d != []
    requires Free(window + more, d)
    ensures Free(delivered + (window + more), d)
  {
    forall i: nat
      ensures !Occurs(delivered + (window + more), i, d)
    {
      if i < |delivered| {
        NotInDelivered(delivered, window, more, d, i);
      } else {
        OccursShift(delivered, window + more, i - |delivered|, d);
      }
    }
  }

  lemma FirstWhole(delivered: seq<Byte>, window: seq<Byte>, more: seq<Byte>, d: seq<Byte>, k: nat)
    requires Free(delivered + window, d) && (delivered != [] ==> |d| <= |window|) && d != []
    requires First(window + more, k, d)
    ensures First(delivered + (window + more), |delivered| + k, d)
  {
    OccursShift(delivered, window + more, k, d);
    forall i: nat | i < |delivered| + k
      ensures !Occurs(delivered + (window + more), i, d)
    {
      if i < |delivered| {
        NotInDelivered(delivered, window, more, d, i);
      } else {
        OccursShift(delivered, window + more, i - |delivered|, d);
      }
    }
  }

  lemma TooShort(s: seq<Byte>, d: seq<Byte>)
    requires |s| < |d|
    ensures Free(s, d)
  {
  }

  // ---- the buffer ----

  class Buffer {
    var buf: array<Byte>
    var spos: nat
    var epos: nat

    ghost predicate Valid()
      reads this
    {
      spos <= epos <= buf.Length
    }

    /** The unread bytes. */
    ghost function Window(): seq<Byte>
      requires Valid()
      reads this, buf
    {
      buf[spos..epos]
    }

    constructor ()
      ensures Valid() && Window() == [] && fresh(buf)
    {
      buf, spos, epos := new Byte[0], 0, 0;
    }

    /** buf_append: moves the unread bytes to the front, makes room if needed and appends. */
    method Append(data: seq<Byte>)
      requires Valid()
      modifies this, buf
      ensures Valid() && Window() == old(Window()) + data && spos == 0 && (buf == old(buf) || fresh(buf))
    {
      Compact();
      Reserve(epos + |data|);
      CopyIn(data);
    }

    method CopyIn(data: seq<Byte>)
      requires Valid() && spos == 0 && epos + |data| <= buf.Length
      modifies this`epos, buf
      ensures Valid() && Window() == old(Window()) + data && spos == 0
    {
      var i := 0;
      while i < |data|
        invariant 0 <= i <= |data| && epos == old(epos)
        invariant forall j :: 0 <= j < epos ==> buf[j] == old(buf[j])
        invariant forall j :: 0 <= j < i ==> buf[epos + j] == data[j]
      {
        buf[epos + i] := data[i];
        i := i + 1;
      }
      epos := epos + |data|;
      forall j | 0 <= j < epos
        ensures buf[j] == (old(Window()) + data)[j]
      {
        if j >= old(epos) {
          assert buf[old(epos) + (j - old(epos))] == data[j - old(epos)];
        }
      }
    }

    method Compact()
      requires Valid()
      modifies this`spos, this`epos, buf
      ensures Valid() && Window() == old(Window()) && spos == 0
    {
      var remaining := epos - spos;
      if remaining > 0 && spos > 0 {
        var i := 0;
        while i < remaining
          invariant 0 <= i <= remaining && spos == old(spos) && epos == old(epos)
          invariant forall j :: 0 <= j < i ==> buf[j] == old(buf[spos + j])
          invariant forall j :: spos + i <= j < epos ==> buf[j] == old(buf[j])
        {
          buf[i] := buf[spos + i];
          i := i + 1;
        }
        assert buf[..remaining] == old(buf[spos..epos]);
      }
      spos, epos := 0, remaining;
    }

    method Reserve(size: nat)
      requires Valid() && spos == 0
      modifies this`buf
      ensures Valid() && Window() == old(Window()) && size <= buf.Length && (buf == old(buf) || fresh(buf))
    {
      if size > buf.Length {
        var bigger := new Byte[size];
        forall i | 0 <= i < epos {
          bigger[i] := buf[i];
        }
        assert bigger[..epos] == buf[..epos];
        buf := bigger;
      }
    }

    /** buf_erase. */
    method Erase(size: nat)
      requires Valid() && size <= epos - spos
      modifies this`spos
      ensures Valid() && Window() == old(Window())[size..]
    {
      spos := spos + size;
    }

    /** start_with at an absolute position. */
    method StartWith(pos: nat, d: seq<Byte>) returns (r: bool)
      requires Valid() && spos <= pos <= epos
      ensures r <==> Occurs(Window(), pos - spos, d)
    {
      if epos - pos < |d| {
        return false;
      }
      ghost var w := Window();
      var i := 0;
      while i < |d|
        invariant 0 <= i <= |d| && forall j :: 0 <= j < i ==> w[pos - spos + j] == d[j]
      {
        assert w[pos - spos + i] == buf[pos + i];
        if buf[pos + i] != d[i] {
          Differs(w, pos - spos, d, i);
          return false;
        }
        i := i + 1;
      }
      Matches(w, pos - spos, d);
      r := true;
    }

    /** buf_find: the first occurrence, or the size of the window. */
    method Find(d: seq<Byte>) returns (k: nat)
      requires Valid() && d != []
      ensures k < epos - spos ==> First(Window(), k, d)
      ensures k >= epos - spos ==> k == epos - spos && Free(Window(), d)
    {
      ghost var w := Window();
      var off := spos;
      while off < epos
        invariant spos <= off <= epos && forall i: nat :: i < off - spos ==> !Occurs(w, i, d)
      {
        var pos := off;
        while pos < epos && buf[pos] != d[0]
          invariant off <= pos <= epos && forall i: nat :: i < pos - spos ==> !Occurs(w, i, d)
        {
          NoMatchHere(w, pos - spos, d);
          pos := pos + 1;
        }
        if pos == epos || |d| > epos - pos {
          NoRoom(w, pos - spos, d);
          return epos - spos;
        }
        var here := StartWith(pos, d);
        if here {
          return pos - spos;
        }
        off := pos + 1;
      }
      NoRoom(w, off - spos, d);
      k := epos - spos;
    }
  }

  lemma Differs(w: seq<Byte>, k: nat, d: seq<Byte>, i: nat)
    requires k + |d| <= |w| && i < |d| && w[k + i] != d[i]
    ensures !Occurs(w, k, d)
  {
    assert w[k..k + |d|][i] == w[k + i];
  }

  lemma Matches(w: seq<Byte>, k: nat, d: seq<Byte>)
    requires k + |d| <= |w| && forall j :: 0 <= j < |d| ==> w[k + j] == d[j]
    ensures Occurs(w, k, d)
  {
    assert w[k..k + |d|] == d;
  }

  lemma NoMatchHere(w: seq<Byte>, i: nat, d: seq<Byte>)
    requires d != [] && i < |w| && w[i] != d[0]
    ensures !Occurs(w, i, d)
  {
    if i + |d| <= |w| {
      assert w[i..i + |d|][0] == w[i];
    }
  }

  lemma NoRoom(w: seq<Byte>, p: nat, d: seq<Byte>)
    requires d != [] && |d| > |w| - p && forall i: nat :: i < p ==> !Occurs(w, i, d)
    ensures Free(w, d)
  {
  }

  // ---- the body state ----

  class Body {
    const delimiter: seq<Byte>
    const buffer: Buffer
    /** What the content callback answers to its i-th call. */
    const accepts: (nat, seq<Byte>) -> bool
    var turn: nat
    var atBoundary: bool
    var isValid: bool

    /** Everything fed in, the pieces passed to the content callback, and these pieces together. */
    ghost var stream: seq<Byte>
    ghost var calls: seq<seq<Byte>>
    ghost var delivered: seq<Byte>

    /**
     * In the body, the input is what was delivered and what is retained, and the delimiter is not in it. Afterwards
     * what was delivered is exactly what precedes the first delimiter, and what follows it is in the buffer.
     */
    ghost predicate Valid()
      reads this, buffer, buffer.buf
    {
      && delimiter != [] && buffer.Valid() && CallsValid()
      && (!atBoundary ==> InBody(stream, delivered, buffer.Window(), delimiter))
      && (atBoundary ==> Split(stream, delivered, buffer.Window(), delimiter))
    }

    /** The parser is valid as long as no call was refused, and calls nothing after a refusal. */
    ghost predicate CallsValid()
      reads this
    {
      && turn == |calls| && delivered == Concat(calls)
      && (isValid <==> forall i :: 0 <= i < |calls| ==> accepts(i, calls[i]))
      && forall i :: 0 <= i < |calls| - 1 ==> accepts(i, calls[i])
    }

    constructor (delimiter: seq<Byte>, accepts: (nat, seq<Byte>) -> bool)
      requires delimiter != []
      ensures Valid() && this.delimiter == delimiter && this.accepts == accepts
      ensures stream == [] && calls == [] && !atBoundary && isValid && fresh(buffer) && fresh(buffer.buf)
    {
      this.delimiter, this.accepts, turn, atBoundary, isValid := delimiter, accepts, 0, false, true;
      buffer := new Buffer();
      stream, calls, delivered := [], [], [];
    }

    /**
     * parse() in state 3. It fails only if the content callback refuses what it is given; in any case that is what the
     * whole input so far has before its first delimiter, or all but a tail.
     */
    method Parse(data: seq<Byte>) returns (ok: bool)
      requires Valid() && !atBoundary && isValid
      modifies this, buffer, buffer.buf
      ensures stream == old(stream) + data && CallsValid() && old(calls) <= calls && ok == isValid
      ensures ok ==> Valid()
      ensures buffer.buf == old(buffer.buf) || fresh(buffer.buf)
      ensures DeliversBody(stream, delivered, !Free(stream, delimiter), delimiter) && (atBoundary <==> ok && !Free(stream, delimiter))
    {
      ghost var window := buffer.Window();
      buffer.Append(data);
      stream := stream + data;
      assert stream == delivered + (window + data);
      var size := buffer.epos - buffer.spos;
      if |delimiter| > size {
        TooShort(window + data, delimiter);
        FreeWhole(delivered, window, data, delimiter);
        return true;
      }
      var pos := buffer.Find(delimiter);
      if pos < size {
        FirstWhole(delivered, window, data, delimiter, pos);
        ok := AtDelimiter(pos, window + data);
      } else {
        FreeWhole(delivered, window, data, delimiter);
        ok := KeepTail(size - |delimiter|, window + data);
      }
    }

    /** The delimiter is at pos: what precedes it is content. */
    method AtDelimiter(pos: nat, ghost w: seq<Byte>) returns (ok: bool)
      requires buffer.Valid() && w == buffer.Window() && stream == delivered + w && isValid && delimiter != [] && CallsValid() && !atBoundary
      requires First(stream, |delivered| + pos, delimiter) && pos + |delimiter| <= |w|
      modifies this, buffer`spos
      ensures stream == old(stream) && CallsValid() && old(calls) <= calls && ok == isValid == atBoundary
      ensures ok ==> Valid()
      ensures !Free(stream, delimiter) && DeliversBody(stream, delivered, true, delimiter)
    {
      Delimited(delivered, w, pos, delimiter);
      assert delivered + w == delivered + w[..pos] + w[pos..];
      ok := Deliver(pos, w);
      if ok {
        buffer.Erase(pos + |delimiter|);
        atBoundary := true;
      }
    }

    /** No delimiter yet: all but the last bytes, which may be the beginning of one, are content. */
    method KeepTail(len: nat, ghost w: seq<Byte>) returns (ok: bool)
      requires buffer.Valid() && w == buffer.Window() && stream == delivered + w && isValid && !atBoundary && delimiter != [] && CallsValid()
      requires Free(stream, delimiter) && len + |delimiter| == |w|
      modifies this, buffer`spos
      ensures stream == old(stream) && CallsValid() && old(calls) <= calls && ok == isValid && !atBoundary
      ensures ok ==> Valid()
      ensures Free(stream, delimiter) && DeliversBody(stream, delivered, false, delimiter)
    {
      ok := true;
      assert delivered + w == (delivered + w[..len]) + w[len..];
      if len > 0 {
        ok := Deliver(len, w);
        if ok {
          buffer.Erase(len);
        }
      } else {
        assert w[len..] == w && delivered + w[..len] == delivered;
      }
    }

    /** Passes the first n unread bytes to the content callback. */
    method Deliver(n: nat, ghost w: seq<Byte>) returns (ok: bool)
      requires buffer.Valid() && w == buffer.Window() && n <= |w| && isValid && CallsValid()
      modifies this`delivered, this`isValid, this`calls, this`turn
      ensures CallsValid() && calls == old(calls) + [w[..n]] && delivered == old(delivered) + w[..n] && isValid == ok
    {
      var piece := buffer.buf[buffer.spos..buffer.spos + n];
      assert piece == w[..n];
      ok := accepts(turn, piece);
      isValid := ok;
      ConcatSnoc(calls, piece);
      turn, calls, delivered := turn + 1, calls + [piece], delivered + piece;
      assert calls[turn - 1] == piece;
    }
  }

  lemma {:induction false} ConcatSnoc(chunks: seq<seq<Byte>>, c: seq<Byte>)
    ensures Concat(chunks + [c]) == Concat(chunks) + c
    decreases chunks
  {
    if chunks == [] {
      assert chunks + [c] == [c] && Concat([c][1..]) == [];
    } else {
      assert (chunks + [c])[0] == chunks[0] && (chunks + [c])[1..] == chunks[1..] + [c];
      ConcatSnoc(chunks[1..], c);
    }
  }

  /** The window falls into content, delimiter and rest. */
  lemma Delimited(delivered: seq<Byte>, w: seq<Byte>, k: nat, d: seq<Byte>)
    requires First(delivered + w, |delivered| + k, d) && k + |d| <= |w|
    ensures Split(delivered + w, delivered + w[..k], w[k + |d|..], d)
  {
    OccursShift(delivered, w, k, d);
    assert w == w[..k] + d + w[k + |d|..];
    assert delivered + w == delivered + w[..k] + d + w[k + |d|..];
  }

  ghost predicate InBody(stream: seq<Byte>, delivered: seq<Byte>, window: seq<Byte>, d: seq<Byte>)
  {
    && stream == delivered + window && Free(stream, d)
    && (|stream| < |d| ==> delivered == []) && (|stream| >= |d| ==> |window| == |d|)
  }

  ghost predicate Split(stream: seq<Byte>, delivered: seq<Byte>, window: seq<Byte>, d: seq<Byte>)
  {
    stream == delivered + d + window && First(stream, |delivered|, d)
  }

  function Concat(chunks: seq<seq<Byte>>): seq<Byte> { if chunks == [] then [] else chunks[0] + Concat(chunks[1..]) }

  lemma {:induction false} ConcatSplit(chunks: seq<seq<Byte>>, i: nat)
    requires i <= |chunks|
    ensures Concat(chunks) == Concat(chunks[..i]) + Concat(chunks[i..])
    decreases i
  {
    if i == 0 {
      assert chunks[0..] == chunks;
    } else {
      ConcatSplit(chunks[1..], i - 1);
      assert chunks[..i][1..] == chunks[1..][..i - 1] && chunks[1..][i - 1..] == chunks[i..];
    }
  }

  /** What the content callback gets in all: the bytes before the first delimiter, or all but a tail of its length. */
  ghost predicate DeliversBody(input: seq<Byte>, delivered: seq<Byte>, found: bool, d: seq<Byte>)
  {
    && (found ==> First(input, |delivered|, d) && delivered == input[..|delivered|])
    && (!found ==> Free(input, d) && delivered == input[..if |input| < |d| then 0 else |input| - |d|])
  }

  /** The result depends on the input alone, not on how it was cut into pieces. */
  lemma SplitInvariant(input: seq<Byte>, d1: seq<Byte>, found1: bool, d2: seq<Byte>, found2: bool, d: seq<Byte>)
    requires DeliversBody(input, d1, found1, d) && DeliversBody(input, d2, found2, d)
    ensures d1 == d2 && found1 == found2
  {
    if found1 && found2 {
      FirstUnique(input, |d1|, |d2|, d);
    }
  }

  /**
   * Feeds the pieces of an input one by one until the delimiter has been seen. It fails exactly if the callback refuses
   * one of its calls, so never if it accepts everything.
   */
  method FeedAll(body: Body, chunks: seq<seq<Byte>>) returns (ok: bool, fed: nat)
    requires body.Valid() && body.stream == [] && body.calls == [] && !body.atBoundary && body.isValid
    modifies body, body.buffer, body.buffer.buf
    ensures ok <==> forall i :: 0 <= i < |body.calls| ==> body.accepts(i, body.calls[i])
    ensures body.delivered == Concat(body.calls) && fed <= |chunks|
    ensures ok ==> DeliversBody(Concat(chunks), body.delivered, body.atBoundary, body.delimiter)
    ensures !ok ==> DeliversBody(Concat(chunks[..fed]), body.delivered, !Free(Concat(chunks[..fed]), body.delimiter), body.delimiter)
    ensures ok && body.atBoundary ==>
              && body.buffer.Valid()
              && Concat(chunks) == body.delivered + body.delimiter + (body.buffer.Window() + Concat(chunks[fed..]))
  {
    ok, fed := true, 0;
    assert chunks[..0] == [];
    while fed < |chunks| && !body.atBoundary
      invariant 0 <= fed <= |chunks| && body.Valid() && body.isValid && ok && body.stream == Concat(chunks[..fed])
      invariant body.buffer.buf == old(body.buffer.buf) || fresh(body.buffer.buf)
    {
      ok := FeedOne(body, chunks, fed);
      fed := fed + 1;
      if !ok {
        return;
      }
    }
    ConcatSplit(chunks, fed);
    assert chunks[|chunks|..] == [];
    Finish(body, Concat(chunks[fed..]));
  }

  method FeedOne(body: Body, chunks: seq<seq<Byte>>, k: nat) returns (ok: bool)
    requires k < |chunks| && body.Valid() && !body.atBoundary && body.isValid && body.stream == Concat(chunks[..k])
    modifies body, body.buffer, body.buffer.buf
    ensures body.stream == Concat(chunks[..k + 1]) && body.CallsValid() && ok == body.isValid && (ok ==> body.Valid())
    ensures body.buffer.buf == old(body.buffer.buf) || fresh(body.buffer.buf)
    ensures DeliversBody(body.stream, body.delivered, !Free(body.stream, body.delimiter), body.delimiter)
    ensures !ok ==> !body.atBoundary
  {
    ConcatNext(chunks, k);
    ok := body.Parse(chunks[k]);
  }

  lemma ConcatNext(chunks: seq<seq<Byte>>, k: nat)
    requires k < |chunks|
    ensures Concat(chunks[..k + 1]) == Concat(chunks[..k]) + chunks[k]
  {
    assert chunks[..k + 1] == chunks[..k] + [chunks[k]];
    ConcatSnoc(chunks[..k], chunks[k]);
  }

  lemma Finish(body: Body, rest: seq<Byte>)
    requires body.Valid() && (!body.atBoundary ==> rest == [])
    ensures DeliversBody(body.stream + rest, body.delivered, body.atBoundary, body.delimiter)
    ensures body.atBoundary ==> body.stream + rest == body.delivered + body.delimiter + (body.buffer.Window() + rest)
  {
    if body.atBoundary {
      FirstStays(body.stream, rest, |body.delivered|, body.delimiter);
    } else {
      assert body.stream + rest == body.stream;
    }
  }
}
