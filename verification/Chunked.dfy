/** decode_chunked: chunked transfer coding (section 7.1 of RFC 9112), decoded within one buffer. */
module Chunked {
  import opened Bytes
  import opened JsonGrammar
  import JsonUnicode

  const FETCH_MAX_BODY := 65536
  const GUARD := 4096

  const CR: byte := 0x0D
  const LF: byte := 0x0A

  // ----- the coding -----

  /**
   A chunk as written: the size in hexadecimal, the rest of the line up to its LF, and the data, ended by CRLF or by a
   bare LF.  The chunks of section 7.1 are those whose line ends in CR and whose data ends in CRLF.
   */
  datatype Chunk = Chunk(digits: bytes, ext: bytes, data: bytes, crlf: bool)

  function Fold(value: nat, digits: bytes): nat
    requires forall k :: 0 <= k < |digits| ==> IsHex(digits[k])
    decreases |digits|
  {
    if digits == [] then value else Fold(value * 16 + HexValue(digits[0]), digits[1..])
  }

  predicate IsSize(digits: bytes) { 1 <= |digits| <= 8 && forall k :: 0 <= k < |digits| ==> IsHex(digits[k]) }

  predicate IsExt(ext: bytes) { LF !in ext && (ext != [] ==> !IsHex(ext[0])) }

  predicate IsChunk(c: Chunk) { IsSize(c.digits) && IsExt(c.ext) && c.data != [] && Fold(0, c.digits) == |c.data| }

  function HeadText(digits: bytes, ext: bytes): bytes { digits + ext + [LF] }

  function EndText(crlf: bool): bytes { if crlf then [CR, LF] else [LF] }

  function ChunkText(c: Chunk): bytes { HeadText(c.digits, c.ext) + c.data + EndText(c.crlf) }

  function ChunksText(cs: seq<Chunk>): bytes { if cs == [] then [] else ChunkText(cs[0]) + ChunksText(cs[1..]) }

  /** The content a sequence of chunks carries. */
  function Content(cs: seq<Chunk>): bytes { if cs == [] then [] else cs[0].data + Content(cs[1..]) }

  predicate AreChunks(cs: seq<Chunk>) { forall k :: 0 <= k < |cs| ==> IsChunk(cs[k]) }

  /** A last chunk: a size of zero. */
  predicate IsLast(digits: bytes, ext: bytes) { IsSize(digits) && IsExt(ext) && Fold(0, digits) == 0 }

  /** A size in hexadecimal, as a peer would print it. */
  function SizeText(n: nat): bytes
    decreases n
  {
    (if n < 16 then [] else SizeText(n / 16)) + [JsonUnicode.UPPER[n % 16]]
  }

  lemma {:induction false} FoldAppend(value: nat, digits: bytes, c: byte)
    requires (forall k :: 0 <= k < |digits| ==> IsHex(digits[k])) && IsHex(c)
    ensures Fold(value, digits + [c]) == 16 * Fold(value, digits) + HexValue(c)
    decreases |digits|
  {
    hide IsHex, HexValue;
    if digits == [] {
      assert digits + [c] == [c] && [c][1..] == [];
    } else {
      assert (digits + [c])[1..] == digits[1..] + [c];
      FoldAppend(value * 16 + HexValue(digits[0]), digits[1..], c);
    }
  }

  /** The number a size line says is the number that was printed. */
  lemma {:induction false} SizeBack(n: nat)
    ensures (forall k :: 0 <= k < |SizeText(n)| ==> IsHex(SizeText(n)[k])) && Fold(0, SizeText(n)) == n
    decreases n
  {
    hide IsHex, HexValue, Fold;
    var c := JsonUnicode.UPPER[n % 16];
    JsonUnicode.DigitIs(c, n % 16);
    if n >= 16 { SizeBack(n / 16); } else { NoDigits(); }
    FoldAppend(0, if n < 16 then [] else SizeText(n / 16), c);
  }

  lemma NoDigits()
    ensures Fold(0, []) == 0
  {
  }

  // ----- the decoder -----

  datatype Reply = TooLarge | BadReply | Done(body: bytes)

  datatype Size = Huge | Size(value: nat, digits: nat, next: nat)

  /** The digits from index i on, on top of those already read. */
  function ScanSize(s: bytes, i: nat, value: nat, digits: nat): (z: Size)
    requires i <= |s|
    ensures z.Size? ==> i <= z.next <= |s|
    decreases |s| - i
  {
    if i < |s| && IsHex(s[i]) then
      if value > FETCH_MAX_BODY / 16 then Huge else ScanSize(s, i + 1, value * 16 + HexValue(s[i]), digits + 1)
    else Size(value, digits, i)
  }

  function LineEnd(s: bytes, i: nat): (k: nat)
    requires i <= |s|
    ensures i <= k <= |s| && (k < |s| ==> s[k] == LF) && forall j :: i <= j < k ==> s[j] != LF
    decreases |s| - i
  {
    if i < |s| && s[i] != LF then LineEnd(s, i + 1) else i
  }

  datatype Head = Stop(reply: Reply) | Last | Data(from: nat, size: nat)

  /** The line with the size at `read`, when `written` bytes have been decoded. */
  function HeadAt(s: bytes, read: nat, written: nat): (h: Head)
    requires read <= |s|
    ensures h.Stop? ==> !h.reply.Done?
    ensures h.Data? ==> read < h.from && h.from + h.size <= |s| && h.size > 0 && written + h.size <= FETCH_MAX_BODY
  {
    var z := ScanSize(s, read, 0, 0);
    if z.Huge? then Stop(TooLarge)
    else if z.digits == 0 || z.digits > 8 then Stop(BadReply)
    else
      var e := LineEnd(s, z.next);
      if e >= |s| then Stop(BadReply)
      else if z.value == 0 then Last
      else if written + z.value > FETCH_MAX_BODY then Stop(TooLarge)
      else if z.value > |s| - (e + 1) then Stop(BadReply)
      else Data(e + 1, z.value)
  }

  /** Past the line end after a chunk's data: CRLF, or a bare LF. */
  function AfterData(s: bytes, r: nat): (n: Option<nat>)
    ensures n.Some? ==> r < n.value <= |s|
  {
    if r + 1 < |s| && s[r] == CR && s[r + 1] == LF then Some(r + 2)
    else if r < |s| && s[r] == LF then Some(r + 1)
    else None
  }

  function Decode(s: bytes, read: nat, out: bytes, guard: nat): Reply
    requires read <= |s|
    decreases guard
  {
    if guard == 0 then BadReply
    else
      match HeadAt(s, read, |out|)
      case Stop(reply) => reply
      case Last => Done(out)
      case Data(from, size) =>
        var next := AfterData(s, from + size);
        if next.None? then BadReply else Decode(s, next.value, out + s[from..from + size], guard - 1)
  }

  // ----- round trip -----

  lemma {:induction false} FoldGrows(value: nat, digits: bytes)
    requires forall k :: 0 <= k < |digits| ==> IsHex(digits[k])
    ensures Fold(value, digits) >= value && (digits != [] ==> Fold(value, digits) >= 16 * value)
    decreases |digits|
  {
    if digits != [] { FoldGrows(value * 16 + HexValue(digits[0]), digits[1..]); }
  }

  /** The digits of a size within the limit are read in full. */
  lemma {:induction false} SizeScanned(s: bytes, i: nat, d: bytes, value: nat, count: nat)
    requires At(s, i, d) && (forall k :: 0 <= k < |d| ==> IsHex(d[k])) && Fold(value, d) <= FETCH_MAX_BODY
    requires i + |d| < |s| ==> !IsHex(s[i + |d|])
    ensures i <= |s| && ScanSize(s, i, value, count) == Size(Fold(value, d), count + |d|, i + |d|)
    decreases |d|
  {
    hide At, IsHex;
    AtIs(s, i, d);
    if d != [] {
      AtIndex(s, i, d, 0);
      FoldGrows(value, d);
      assert d == [d[0]] + d[1..];
      AtConcat(s, i, [d[0]], d[1..]);
      SizeScanned(s, i + 1, d[1..], value * 16 + HexValue(d[0]), count + 1);
    }
  }

  lemma {:induction false} LineScanned(s: bytes, i: nat, t: bytes)
    requires At(s, i, t + [LF]) && LF !in t
    ensures i <= |s| && LineEnd(s, i) == i + |t|
    decreases |t|
  {
    hide At;
    AtIs(s, i, t + [LF]);
    AtIndex(s, i, t + [LF], 0);
    if t != [] {
      assert t + [LF] == [t[0]] + (t[1..] + [LF]);
      AtConcat(s, i, [t[0]], t[1..] + [LF]);
      LineScanned(s, i + 1, t[1..]);
    }
  }

  /** The line with the size. */
  lemma HeadScanned(s: bytes, i: nat, digits: bytes, ext: bytes)
    requires At(s, i, HeadText(digits, ext)) && IsSize(digits) && IsExt(ext) && Fold(0, digits) <= FETCH_MAX_BODY
    ensures i <= |s| && ScanSize(s, i, 0, 0) == Size(Fold(0, digits), |digits|, i + |digits|)
    ensures i + |digits| <= |s| && i + |HeadText(digits, ext)| <= |s|
    ensures LineEnd(s, i + |digits|) == i + |HeadText(digits, ext)| - 1
  {
    hide At, ScanSize, LineEnd, Fold;
    AtIs(s, i, HeadText(digits, ext));
    assert HeadText(digits, ext) == digits + (ext + [LF]);
    AtConcat(s, i, digits, ext + [LF]);
    AtIndex(s, i + |digits|, ext + [LF], 0);
    SizeScanned(s, i, digits, 0, 0);
    LineScanned(s, i + |digits|, ext);
  }

  lemma DataHead(s: bytes, i: nat, c: Chunk, written: nat)
    requires At(s, i, HeadText(c.digits, c.ext)) && IsChunk(c) && written + |c.data| <= FETCH_MAX_BODY
    requires i + |HeadText(c.digits, c.ext)| + |c.data| <= |s|
    ensures i <= |s| && HeadAt(s, i, written) == Data(i + |HeadText(c.digits, c.ext)|, |c.data|)
  {
    hide At, ScanSize, LineEnd, Fold, HeadText;
    HeadScanned(s, i, c.digits, c.ext);
  }

  lemma EndOfLine(s: bytes, r: nat, crlf: bool)
    requires At(s, r, EndText(crlf))
    ensures AfterData(s, r) == Some(r + |EndText(crlf)|)
  {
    hide At;
    AtIs(s, r, EndText(crlf));
    AtIndex(s, r, EndText(crlf), 0);
    if crlf { AtIndex(s, r, EndText(crlf), 1); }
  }

  lemma ChunkDecoded(s: bytes, i: nat, c: Chunk, out: bytes, guard: nat)
    requires At(s, i, ChunkText(c)) && IsChunk(c) && |out| + |c.data| <= FETCH_MAX_BODY && guard > 0
    ensures i + |ChunkText(c)| <= |s|
    ensures Decode(s, i, out, guard) == Decode(s, i + |ChunkText(c)|, out + c.data, guard - 1)
  {
    hide At, HeadAt, AfterData, Fold, HeadText;
    var head := HeadText(c.digits, c.ext);
    AtIs(s, i, ChunkText(c));
    AtConcat(s, i, head + c.data, EndText(c.crlf));
    AtConcat(s, i, head, c.data);
    AtIs(s, i + |head|, c.data);
    DataHead(s, i, c, |out|);
    EndOfLine(s, i + |head| + |c.data|, c.crlf);
  }

  lemma LastDecoded(s: bytes, i: nat, digits: bytes, ext: bytes, out: bytes, guard: nat)
    requires At(s, i, HeadText(digits, ext)) && IsLast(digits, ext) && guard > 0
    ensures i <= |s| && Decode(s, i, out, guard) == Done(out)
  {
    hide At, ScanSize, LineEnd, Fold, HeadText;
    HeadScanned(s, i, digits, ext);
  }

  lemma {:induction false} ChunksDecoded(s: bytes, i: nat, cs: seq<Chunk>, digits: bytes, ext: bytes, out: bytes, guard: nat)
    requires At(s, i, ChunksText(cs) + HeadText(digits, ext)) && AreChunks(cs) && IsLast(digits, ext)
    requires |out| + |Content(cs)| <= FETCH_MAX_BODY && guard > |cs|
    ensures i <= |s| && Decode(s, i, out, guard) == Done(out + Content(cs))
    decreases |cs|
  {
    hide At, Decode, IsChunk, ChunkText, HeadText, IsLast;
    if cs == [] {
      assert ChunksText(cs) + HeadText(digits, ext) == HeadText(digits, ext);
      LastDecoded(s, i, digits, ext, out, guard);
      assert out + [] == out;
    } else {
      var rest := ChunksText(cs[1..]) + HeadText(digits, ext);
      assert ChunksText(cs) + HeadText(digits, ext) == ChunkText(cs[0]) + rest;
      AtConcat(s, i, ChunkText(cs[0]), rest);
      ChunkDecoded(s, i, cs[0], out, guard);
      ChunksDecoded(s, i + |ChunkText(cs[0])|, cs[1..], digits, ext, out + cs[0].data, guard - 1);
      assert out + cs[0].data + Content(cs[1..]) == out + Content(cs);
    }
  }

  /** Up to 4095 chunks of any sizes, 64 KiB in all, decode to their content, whatever follows the last chunk. */
  lemma RoundTrip(cs: seq<Chunk>, digits: bytes, ext: bytes, after: bytes)
    requires AreChunks(cs) && IsLast(digits, ext) && |Content(cs)| <= FETCH_MAX_BODY && |cs| < GUARD
    ensures Decode(ChunksText(cs) + HeadText(digits, ext) + after, 0, [], GUARD) == Done(Content(cs))
  {
    hide At, Decode, ChunksText, HeadText, AreChunks, IsLast;
    var t := ChunksText(cs) + HeadText(digits, ext);
    var s := t + after;
    assert s[0..|t|] == t;
    AtSlice(s, 0, |t|);
    ChunksDecoded(s, 0, cs, digits, ext, [], GUARD);
    assert [] + Content(cs) == Content(cs);
  }

  /** What the scan of a size has read. */
  lemma {:induction false} ScanRead(s: bytes, i: nat, value: nat, digits: nat)
    requires i <= |s| && ScanSize(s, i, value, digits).Size?
    ensures var z := ScanSize(s, i, value, digits);
            && (forall k :: 0 <= k < z.next - i ==> IsHex(s[i..z.next][k]))
            && z.value == Fold(value, s[i..z.next]) && z.digits == digits + z.next - i
            && (z.next < |s| ==> !IsHex(s[z.next]))
    decreases |s| - i
  {
    hide IsHex;
    var z := ScanSize(s, i, value, digits);
    if i < |s| && IsHex(s[i]) {
      ScanRead(s, i + 1, value * 16 + HexValue(s[i]), digits + 1);
      assert s[i..z.next] == [s[i]] + s[i + 1..z.next];
    } else {
      assert s[i..z.next] == [];
    }
  }

  /** A line that was accepted is a size, more text, and LF. */
  lemma HeadRead(s: bytes, i: nat, written: nat) returns (digits: bytes, ext: bytes)
    requires i <= |s| && !HeadAt(s, i, written).Stop?
    ensures IsSize(digits) && IsExt(ext) && At(s, i, HeadText(digits, ext))
    ensures HeadAt(s, i, written).Last? ==> Fold(0, digits) == 0
    ensures HeadAt(s, i, written).Data? ==> HeadAt(s, i, written) == Data(i + |HeadText(digits, ext)|, Fold(0, digits))
  {
    hide ScanSize, LineEnd, Fold, At, IsHex;
    var z := ScanSize(s, i, 0, 0);
    ScanRead(s, i, 0, 0);
    var e := LineEnd(s, z.next);
    digits, ext := s[i..z.next], s[z.next..e];
    assert HeadText(digits, ext) == s[i..e + 1];
    AtSlice(s, i, e + 1);
    if ext != [] { assert ext[0] == s[z.next]; }
  }

  lemma EndRead(s: bytes, r: nat) returns (crlf: bool)
    requires AfterData(s, r).Some?
    ensures At(s, r, EndText(crlf)) && AfterData(s, r) == Some(r + |EndText(crlf)|)
  {
    crlf := s[r] == CR;
    assert s[r..r + |EndText(crlf)|] == EndText(crlf);
  }

  lemma NoChunks()
    ensures ChunksText([]) == [] && Content([]) == []
  {
  }

  lemma OneMore(c: Chunk, rest: seq<Chunk>, out: bytes, last: bytes)
    ensures ChunkText(c) + (ChunksText(rest) + last) == ChunksText([c] + rest) + last
    ensures out + c.data + Content(rest) == out + Content([c] + rest)
  {
    hide ChunkText;
    assert ([c] + rest)[1..] == rest;
  }

  lemma ChunkThere(s: bytes, i: nat, c: Chunk, rest: seq<Chunk>, last: bytes)
    requires var n := |HeadText(c.digits, c.ext)|;
             && At(s, i, HeadText(c.digits, c.ext)) && At(s, i + n, c.data) && At(s, i + n + |c.data|, EndText(c.crlf))
             && At(s, i + n + |c.data| + |EndText(c.crlf)|, ChunksText(rest) + last)
    ensures At(s, i, ChunkText(c) + (ChunksText(rest) + last))
  {
    hide At, HeadText, ChunksText;
    AtConcat(s, i, HeadText(c.digits, c.ext), c.data);
    AtConcat(s, i, HeadText(c.digits, c.ext) + c.data, EndText(c.crlf));
    AtConcat(s, i, ChunkText(c), ChunksText(rest) + last);
  }

  /** What is decoded is the content of chunks that stand in the text. */
  lemma {:induction false} DecodeSound(s: bytes, i: nat, out: bytes, guard: nat) returns (cs: seq<Chunk>, digits: bytes, ext: bytes)
    requires i <= |s| && Decode(s, i, out, guard).Done?
    ensures AreChunks(cs) && IsLast(digits, ext) && |cs| < guard && At(s, i, ChunksText(cs) + HeadText(digits, ext))
    ensures Decode(s, i, out, guard).body == out + Content(cs)
    ensures |out| <= FETCH_MAX_BODY ==> |out| + |Content(cs)| <= FETCH_MAX_BODY
    decreases guard
  {
    hide At, HeadAt, AfterData, HeadText, Fold, ScanSize, LineEnd, ChunkText, ChunksText, Content;
    NoChunks();
    var h := HeadAt(s, i, |out|);
    digits, ext := HeadRead(s, i, |out|);
    if h.Last? {
      cs := [];
      assert [] + HeadText(digits, ext) == HeadText(digits, ext) && out + [] == out;
    } else {
      var end := h.from + h.size;
      var crlf := EndRead(s, end);
      var c := Chunk(digits, ext, s[h.from..end], crlf);
      var rest;
      rest, digits, ext := DecodeSound(s, AfterData(s, end).value, out + c.data, guard - 1);
      cs := [c] + rest;
      assert cs[1..] == rest;
      AtSlice(s, h.from, end);
      ChunkThere(s, i, c, rest, HeadText(digits, ext));
      OneMore(c, rest, out, HeadText(digits, ext));
    }
  }

  // ----- within one buffer -----

  /** memmove within the buffer, towards the front. */
  method Move(body: array<byte>, to: nat, from: nat, size: nat)
    requires to <= from && from + size <= body.Length
    modifies body
    ensures body[..to] == old(body[..to]) && body[to..to + size] == old(body[from..from + size])
    ensures body[from + size..] == old(body[from + size..])
  {
    ghost var was := body[..];
    var k := 0;
    while k < size
      invariant 0 <= k <= size
      invariant forall j :: 0 <= j < to ==> body[j] == was[j]
      invariant forall j :: to <= j < to + k ==> body[j] == was[from + (j - to)]
      invariant forall j :: from + k <= j < body.Length ==> body[j] == was[j]
    {
      body[to + k] := body[from + k];
      k := k + 1;
    }
    ghost var moved, meant := body[to..to + size], was[from..from + size];
    forall j | 0 <= j < size ensures moved[j] == meant[j] {
      assert body[to + j] == was[from + ((to + j) - to)];
    }
    assert moved == meant && body[from + size..] == was[from + size..];
  }

  method ReadSize(body: array<byte>, start: nat) returns (z: Size)
    requires start <= body.Length
    ensures z == ScanSize(body[..], start, 0, 0)
  {
    var value, digits, read := 0, 0, start;
    while read < body.Length && IsHex(body[read])
      invariant start <= read <= body.Length && value >= 0 && digits >= 0
      invariant ScanSize(body[..], start, 0, 0) == ScanSize(body[..], read, value, digits)
    {
      if value > FETCH_MAX_BODY / 16 { return Huge; }
      value := value * 16 + HexValue(body[read]);
      digits := digits + 1;
      read := read + 1;
    }
    return Size(value, digits, read);
  }

  method SkipLine(body: array<byte>, start: nat) returns (read: nat)
    requires start <= body.Length
    ensures read == LineEnd(body[..], start)
  {
    read := start;
    while read < body.Length && body[read] != LF
      invariant start <= read <= body.Length && LineEnd(body[..], start) == LineEnd(body[..], read)
    {
      read := read + 1;
    }
  }

  /** Scans depend on what lies ahead only. */
  lemma {:induction false} ScanAhead(a: bytes, b: bytes, from: nat, i: nat, value: nat, digits: nat)
    requires |a| == |b| && from <= i <= |a| && a[from..] == b[from..]
    ensures ScanSize(a, i, value, digits) == ScanSize(b, i, value, digits)
    decreases |a| - i
  {
    if i < |a| {
      assert a[i] == a[from..][i - from] == b[i];
      if IsHex(a[i]) { ScanAhead(a, b, from, i + 1, value * 16 + HexValue(a[i]), digits + 1); }
    }
  }

  lemma {:induction false} LineAhead(a: bytes, b: bytes, from: nat, i: nat)
    requires |a| == |b| && from <= i <= |a| && a[from..] == b[from..]
    ensures LineEnd(a, i) == LineEnd(b, i)
    decreases |a| - i
  {
    if i < |a| {
      assert a[i] == a[from..][i - from] == b[i];
      LineAhead(a, b, from, i + 1);
    }
  }

  lemma HeadAhead(a: bytes, b: bytes, read: nat, written: nat)
    requires |a| == |b| && read <= |a| && a[read..] == b[read..]
    ensures HeadAt(a, read, written) == HeadAt(b, read, written)
  {
    hide ScanSize, LineEnd;
    ScanAhead(a, b, read, read, 0, 0);
    var z := ScanSize(a, read, 0, 0);
    if z.Size? { LineAhead(a, b, read, z.next); }
  }

  lemma AfterAhead(a: bytes, b: bytes, r: nat)
    requires |a| == |b| && r <= |a| && a[r..] == b[r..]
    ensures AfterData(a, r) == AfterData(b, r)
  {
    assert r < |a| ==> a[r] == a[r..][0] == b[r..][0] == b[r];
    assert r + 1 < |a| ==> a[r + 1] == a[r..][1] == b[r..][1] == b[r + 1];
  }

  method ReadHead(body: array<byte>, start: nat, write: nat) returns (h: Head)
    requires start <= body.Length
    ensures h == HeadAt(body[..], start, write)
  {
    hide ScanSize, LineEnd;
    var z := ReadSize(body, start);
    if z.Huge? { return Stop(TooLarge); }
    if z.digits == 0 || z.digits > 8 { return Stop(BadReply); }
    var read := SkipLine(body, z.next);
    if read >= body.Length { return Stop(BadReply); }
    read := read + 1;
    if z.value == 0 { return Last; }
    if z.value > body.Length - read || write + z.value > FETCH_MAX_BODY {
      return Stop(if write + z.value > FETCH_MAX_BODY then TooLarge else BadReply);
    }
    return Data(read, z.value);
  }

  method ReadEnd(body: array<byte>, read: nat) returns (n: Option<nat>)
    ensures n == AfterData(body[..], read)
  {
    if read + 1 >= body.Length || body[read] != CR || body[read + 1] != LF {
      if read < body.Length && body[read] == LF { return Some(read + 1); }
      return None;
    }
    return Some(read + 2);
  }

  /** One round of decode_chunked: a reply, or one more chunk moved to the front. */
  method Round(body: array<byte>, read: nat, write: nat, ghost s: bytes, ghost guard: nat)
    returns (reply: Option<Reply>, read': nat, write': nat)
    requires write <= read <= body.Length == |s| && body[read..] == s[read..] && guard > 0
    modifies body
    ensures write' <= read' <= body.Length && body[read'..] == s[read'..]
    ensures reply.Some? ==> reply.value == Decode(s, read, old(body[..write]), guard) && write' == write
                            && (reply.value.Done? ==> reply.value.body == body[..write])
    ensures reply.None? ==> Decode(s, read, old(body[..write]), guard) == Decode(s, read', body[..write'], guard - 1)
  {
    hide HeadAt, AfterData;
    ghost var out := body[..write];
    HeadAhead(body[..], s, read, write);
    var h := ReadHead(body, read, write);
    if h.Stop? { return Some(h.reply), read, write; }
    if h.Last? { return Some(Done(body[..write])), read, write; }
    var end := h.from + h.size;
    Ahead(body[..], s, read, h.from, end);
    Further(body[..], s, read, end);
    Move(body, write, h.from, h.size);
    write' := Moved(body, write, h, out, s);
    AfterAhead(body[..], s, end);
    var next := ReadEnd(body, end);
    if next.None? { return Some(BadReply), end, write; }
    Further(body[..], s, end, next.value);
    return None, next.value, write';
  }

  /** decode_chunked: the decoded bytes replace the front of the buffer, never ahead of what is still to be read. */
  method DecodeChunked(body: array<byte>) returns (r: Reply, write: nat)
    modifies body
    ensures r == Decode(old(body[..]), 0, [], GUARD)
    ensures r.Done? ==> write <= body.Length && body[..write] == r.body
  {
    hide Decode;
    ghost var s := body[..];
    var read, guard := 0, 0;
    write := 0;
    while guard < GUARD
      invariant 0 <= guard <= GUARD && write <= read <= body.Length
      invariant body[read..] == s[read..] && Decode(s, 0, [], GUARD) == Decode(s, read, body[..write], GUARD - guard)
    {
      var reply;
      reply, read, write := Round(body, read, write, s, GUARD - guard);
      if reply.Some? { return reply.value, write; }
      guard := guard + 1;
    }
    DecodeEnd(s, read, body[..write]);
    return BadReply, write;
  }

  lemma DecodeEnd(s: bytes, read: nat, out: bytes)
    requires read <= |s|
    ensures Decode(s, read, out, 0) == BadReply
  {
  }

  /** The write index after a move, and what stands before it. */
  method Moved(body: array<byte>, write: nat, h: Head, ghost out: bytes, ghost s: bytes) returns (w: nat)
    requires h.Data? && h.from + h.size <= |s| && write + h.size <= body.Length
    requires body[..write] == out && body[write..write + h.size] == s[h.from..h.from + h.size]
    ensures w == write + h.size && body[..w] == out + s[h.from..h.from + h.size]
  {
    w := write + h.size;
    assert body[..w] == body[..write] + body[write..w];
  }

  lemma Ahead(a: bytes, b: bytes, from: nat, lo: nat, hi: nat)
    requires |a| == |b| && from <= lo <= hi <= |a| && a[from..] == b[from..]
    ensures a[lo..hi] == b[lo..hi]
  {
    forall k | lo <= k < hi ensures a[k] == b[k] { assert a[from..][k - from] == b[from..][k - from]; }
  }

  lemma Further(a: bytes, b: bytes, from: nat, to: nat)
    requires |a| == |b| && from <= to <= |a| && a[from..] == b[from..]
    ensures a[to..] == b[to..]
  {
    forall k | to <= k < |a| ensures a[k] == b[k] { assert a[from..][k - from] == b[from..][k - from]; }
  }
}
