/**
 json_copy_str: the decoder of string tokens, into a separate buffer or over the
 token's own bytes.
 */
module JsonDecode {
  import opened Bytes
  import opened JsonGrammar
  import opened JsonMeaning
  import opened JsonScan

  /** utf8_encode: nothing when the value is out of range or does not fit. */
  function Encode(cp: nat, room: nat): (u: bytes)
    ensures |u| <= room && |u| <= 4
  {
    if cp < 0x110000 && |Utf8(cp)| <= room then Utf8(cp) else []
  }

  datatype Escape = Escape(cp: nat, next: nat)

  /** The value of the \u escape at i of raw, and the index after it. */
  function UnicodeEscape(raw: bytes, i: nat): (r: Option<Escape>)
    ensures r.Some? ==> i + 6 <= r.value.next <= |raw|
  {
    if !HexAt(raw, i + 2) then None
    else
      var first := HexOf(raw, i + 2);
      if IsHighSurrogate(first) && |raw| - (i + 6) >= 6 && raw[i + 6] == 0x5C && raw[i + 7] == 0x75 then
        if !HexAt(raw, i + 8) then None
        else Some(Escape(0x10000 + (first - 0xD800) * 0x400 + HexOf(raw, i + 8) - 0xDC00, i + 12))
      else Some(Escape(first, i + 6))
  }

  datatype Step = Stop | Emit(d: bytes, next: nat)

  /** One round of json_copy_str at index i of the raw bytes of a token, with room for `room` bytes. */
  function CopyStep(kind: Kind, raw: bytes, i: nat, room: nat): (s: Step)
    ensures s.Emit? ==> i < s.next <= |raw| && |s.d| <= room && |s.d| <= s.next - i
  {
    if i >= |raw| || room == 0 then Stop
    else if kind != STR || raw[i] != 0x5C then Emit([raw[i]], i + 1)
    else if i + 1 >= |raw| then Stop
    else if IsShortEscape(raw[i + 1]) then Emit([ShortValue(raw[i + 1])], i + 2)
    else if raw[i + 1] != 0x75 || UnicodeEscape(raw, i).None? then Stop
    else Emit(Encode(UnicodeEscape(raw, i).value.cp, room), UnicodeEscape(raw, i).value.next)
  }

  /** What json_copy_str writes for the raw bytes of a token from index i on. */
  function Copy(kind: Kind, raw: bytes, i: nat, room: nat): (d: bytes)
    ensures |d| <= room
    decreases |raw| - i
  {
    var s := CopyStep(kind, raw, i, room);
    if s.Stop? then [] else s.d + Copy(kind, raw, s.next, room - |s.d|)
  }

  /** What json_copy_str writes for token t of js into a buffer of outsz bytes, without the final NUL. */
  function Copied(js: bytes, t: Token, outsz: nat): (d: bytes)
    requires t.start >= 0 && t.end >= t.start ==> t.end <= |js|
    ensures outsz > 0 ==> |d| < outsz
  {
    if outsz == 0 || t.start < 0 || t.end < t.start then []
    else Copy(t.kind, js[t.start..t.end], 0, outsz - 1)
  }

  /** A member's name as duplicate_key and json_object_get compute it from the raw key. */
  function RawName(raw: bytes): bytes { CString(Copy(STR, raw, 0, MAX_KEY_BYTES - 1)) }

  // ----- the decoder agrees with the meaning of strings -----

  lemma PieceCopied(raw: bytes, i: nat, p: Piece, room: nat)
    requires IsPiece(p) && At(raw, i, PieceText(p)) && |PieceValue(p)| <= room
    ensures Copy(STR, raw, i, room) == PieceValue(p) + Copy(STR, raw, i + |PieceText(p)|, room - |PieceValue(p)|)
  {
    hide At, IsHex4, CopyStep;
    if p.Multi? {
      NoSolidus(p.u);
      PlainRun(raw, i, p.u, room);
    } else {
      PieceStep(raw, i, p, room);
    }
  }

  lemma NoSolidus(u: bytes)
    requires IsMultibyte(u)
    ensures 0x5C !in u
  {
  }

  lemma PieceStep(raw: bytes, i: nat, p: Piece, room: nat)
    requires IsPiece(p) && !p.Multi? && At(raw, i, PieceText(p)) && |PieceValue(p)| <= room
    ensures CopyStep(STR, raw, i, room) == Emit(PieceValue(p), i + |PieceText(p)|)
  {
    hide At, IsHex4;
    AtIs(raw, i, PieceText(p));
    AtIndex(raw, i, PieceText(p), 0);
    match p
    case Plain(b) =>
    case Short(c) => AtIndex(raw, i, PieceText(p), 1);
    case Unicode(h) =>
      FourDigits(h);
      AtIndex(raw, i, PieceText(p), 1);
      AtConcat(raw, i, [0x5C, 0x75], h);
      AtIs(raw, i + 2, h);
    case Surrogates(hi, lo) => SurrogatesStep(raw, i, hi, lo, room);
  }

  lemma SurrogatesStep(raw: bytes, i: nat, hi: bytes, lo: bytes, room: nat)
    requires var p := Surrogates(hi, lo); IsPiece(p) && At(raw, i, PieceText(p)) && |PieceValue(p)| <= room
    ensures var p := Surrogates(hi, lo); CopyStep(STR, raw, i, room) == Emit(PieceValue(p), i + |PieceText(p)|)
  {
    hide At, IsHex4, Utf8;
    SurrogatesParts(raw, i, hi, lo);
    assert HexAt(raw, i + 2) && HexAt(raw, i + 8);
    assert UnicodeEscape(raw, i) == Some(Escape(PairValue(Hex4Value(hi), Hex4Value(lo)), i + 12));
  }

  lemma PlainStep(raw: bytes, i: nat, room: nat)
    requires i < |raw| && raw[i] != 0x5C && room > 0
    ensures CopyStep(STR, raw, i, room) == Emit([raw[i]], i + 1)
  {
  }

  /** Bytes other than the reverse solidus are copied as they are. */
  lemma {:induction false} PlainRun(raw: bytes, i: nat, u: bytes, room: nat)
    requires At(raw, i, u) && 0x5C !in u && |u| <= room
    ensures Copy(STR, raw, i, room) == u + Copy(STR, raw, i + |u|, room - |u|)
    decreases |u|
  {
    hide At, CopyStep;
    AtIs(raw, i, u);
    if u == [] {
    } else {
      AtIndex(raw, i, u, 0);
      PlainStep(raw, i, room);
      assert u == [u[0]] + u[1..];
      AtConcat(raw, i, [u[0]], u[1..]);
      PlainRun(raw, i + 1, u[1..], room - 1);
      var rest := Copy(STR, raw, i + |u|, room - |u|);
      assert [u[0]] + (u[1..] + rest) == u + rest;
    }
  }

  /** Decoding a string token into a buffer that is large enough yields exactly the bytes it stands for. */
  lemma {:induction false} CopyIsDecoded(raw: bytes, i: nat, ps: seq<Piece>, room: nat)
    requires ArePieces(ps) && At(raw, i, StringText(ps)) && i + |StringText(ps)| == |raw|
    requires |Decoded(ps)| <= room
    ensures Copy(STR, raw, i, room) == Decoded(ps)
    decreases |ps|
  {
    hide At, IsPiece, PieceText, PieceValue, CopyStep;
    if ps == [] {
      CopyEnds(raw, i, room);
    } else {
      var head := PieceText(ps[0]);
      var tail := ps[1..];
      AtConcat(raw, i, head, StringText(tail));
      PieceCopied(raw, i, ps[0], room);
      CopyIsDecoded(raw, i + |head|, tail, room - |PieceValue(ps[0])|);
    }
  }

  lemma CopyEnds(raw: bytes, i: nat, room: nat)
    requires i >= |raw|
    ensures Copy(STR, raw, i, room) == []
  {
  }

  /** Keys within the limit are named by what they stand for. */
  lemma RawNameIsName(ps: seq<Piece>)
    requires ArePieces(ps) && |StringText(ps)| < MAX_KEY_BYTES
    ensures RawName(StringText(ps)) == Name(ps)
  {
    var raw := StringText(ps);
    AtSlice(raw, 0, |raw|);
    assert raw[0..|raw|] == raw;
    CopyIsDecoded(raw, 0, ps, MAX_KEY_BYTES - 1);
  }

  // ----- the decoder itself -----

  /** A round only looks at the bytes it has not passed yet. */
  lemma StepLooksAhead(kind: Kind, a: bytes, b: bytes, i: nat, room: nat)
    requires |a| == |b| && i <= |a| && a[i..] == b[i..]
    ensures CopyStep(kind, a, i, room) == CopyStep(kind, b, i, room)
  {
    hide IsHex4, Encode;
    forall k | i <= k < |a| ensures a[k] == b[k] {
      assert a[k] == a[i..][k - i] == b[i..][k - i];
    }
    if i + 6 <= |a| { assert a[i + 2..i + 6] == b[i + 2..i + 6]; }
    if i + 12 <= |a| { assert a[i + 8..i + 12] == b[i + 8..i + 12]; }
  }

  /** The reading half of a round: which bytes to write, and where to go on. */
  method Round(kind: Kind, raw: bytes, i: nat, room: nat) returns (s: Step)
    ensures s == CopyStep(kind, raw, i, room)
  {
    hide IsHex4, Encode, Hex4Value;
    if i >= |raw| || room == 0 { return Stop; }
    var c := raw[i];
    if kind != STR || c != 0x5C { return Emit([c], i + 1); }
    if i + 1 >= |raw| { return Stop; }
    c := raw[i + 1];
    if c == 0x62 { return Emit([0x08], i + 2); }
    if c == 0x66 { return Emit([0x0C], i + 2); }
    if c == 0x6E { return Emit([0x0A], i + 2); }
    if c == 0x72 { return Emit([0x0D], i + 2); }
    if c == 0x74 { return Emit([0x09], i + 2); }
    if c == 0x22 || c == 0x5C || c == 0x2F { return Emit([c], i + 2); }
    if c != 0x75 { return Stop; }
    assert raw[..|raw|] == raw;
    var first := ReadHex4(raw, |raw|, i + 2);
    if first.None? { return Stop; }
    var cp, next := first.value, i + 6;
    if 0xD800 <= first.value <= 0xDBFF && |raw| - next >= 6 && raw[next] == 0x5C && raw[next + 1] == 0x75 {
      var second := ReadHex4(raw, |raw|, next + 2);
      if second.None? { return Stop; }
      cp := 0x10000 + (first.value - 0xD800) * 0x400 + second.value - 0xDC00;
      next := next + 6;
    }
    return Emit(Encode(cp, room), next);
  }

  /** b with d written over it at index `at`. */
  function Overlay(b: bytes, at: nat, d: bytes): (r: bytes)
    requires at + |d| <= |b|
    ensures |r| == |b|
  {
    b[..at] + d + b[at + |d|..]
  }

  lemma OverlayAfter(b: bytes, at: nat, d: bytes, e: bytes)
    requires at + |d| + |e| <= |b|
    ensures Overlay(Overlay(b, at, d), at + |d|, e) == Overlay(b, at, d + e)
  {
  }

  method Put(out: array<byte>, at: nat, d: bytes)
    requires at + |d| <= out.Length
    modifies out
    ensures out[..] == Overlay(old(out[..]), at, d)
  {
    var k := 0;
    while k < |d|
      invariant 0 <= k <= |d|
      invariant out[..at] == old(out[..at]) && out[at..at + k] == d[..k] && out[at + k..] == old(out[at + k..])
    {
      out[at + k] := d[k];
      k := k + 1;
    }
    assert out[..] == out[..at] + out[at..at + |d|] + out[at + |d|..];
  }

  /**
   json_copy_str.  The output may be a separate buffer, or the token's own bytes.  Either way it ends up holding
   what the original bytes decode to and a NUL, and nothing else changes.
   */
  method CopyStr(src: array<byte>, t: Token, out: array<byte>, at: nat, outsz: nat)
    requires t.start >= 0 && t.end >= t.start ==> t.end <= src.Length
    requires at + outsz <= out.Length
    requires src == out ==> at == t.start
    modifies out
    ensures out[..] ==
            if outsz == 0 then old(out[..]) else Overlay(old(out[..]), at, Copied(old(src[..]), t, outsz) + [0])
  {
    hide Overlay, CopyStep, Copy;
    if outsz == 0 { return; }
    ghost var before := out[..];
    if t.start < 0 || t.end < t.start {
      assert Copied(src[..], t, outsz) + [0] == [0];
      Put(out, at, [0]);
      return;
    }
    ghost var js := src[..];
    ghost var raw := js[t.start..t.end];
    var i, o := 0, 0;
    ghost var done: bytes := [];
    OverlayNothing(before, at);
    while i < t.end - t.start && o + 1 < outsz
      invariant 0 <= i <= |raw| && 0 <= o < outsz && o <= i && |done| == o
      invariant out[..] == Overlay(before, at, done)
      invariant src != out ==> src[..] == js
      invariant Copied(js, t, outsz) == done + Copy(t.kind, raw, i, outsz - 1 - o)
      decreases |raw| - i
    {
      Unread(src[..], js, t, done, i, src == out);
      var s := Round(t.kind, src[..][t.start..t.end], i, outsz - 1 - o);
      StepLooksAhead(t.kind, src[..][t.start..t.end], raw, i, outsz - 1 - o);
      if s.Stop? { break; }
      Put(out, at + o, s.d);
      OverlayAfter(before, at, done, s.d);
      CopyGoesOn(t.kind, raw, i, outsz - 1 - o, done);
      done := done + s.d;
      i, o := s.next, o + |s.d|;
    }
    CopyOver(t.kind, raw, i, outsz - 1 - o);
    assert Copied(js, t, outsz) == done;
    Put(out, at + o, [0]);
    OverlayAfter(before, at, done, [0]);
  }

  lemma CopyGoesOn(kind: Kind, raw: bytes, i: nat, room: nat, done: bytes)
    requires CopyStep(kind, raw, i, room).Emit?
    ensures var s := CopyStep(kind, raw, i, room);
            done + Copy(kind, raw, i, room) == done + s.d + Copy(kind, raw, s.next, room - |s.d|)
  {
  }

  lemma OverlayNothing(b: bytes, at: nat)
    requires at <= |b|
    ensures Overlay(b, at, []) == b
  {
  }

  lemma CopyOver(kind: Kind, raw: bytes, i: nat, room: nat)
    requires CopyStep(kind, raw, i, room).Stop? || i >= |raw| || room == 0
    ensures Copy(kind, raw, i, room) == []
  {
  }

  /** Decoding over a token's own bytes never overwrites a byte before it is read. */
  lemma Unread(now: bytes, js: bytes, t: Token, done: bytes, i: nat, inPlace: bool)
    requires 0 <= t.start <= t.end <= |js| == |now| && i <= t.end - t.start && |done| <= i
    requires now == if inPlace then Overlay(js, t.start, done) else js
    ensures now[t.start..t.end][i..] == js[t.start..t.end][i..]
  {
    forall k | i <= k < t.end - t.start
      ensures now[t.start..t.end][k] == js[t.start..t.end][k]
    {
      assert now[t.start + k] == js[t.start + k];
    }
  }
}
