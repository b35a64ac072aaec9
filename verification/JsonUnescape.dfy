/** string_has_no_nul and unescape_in_place: decoding string tokens over their own bytes, one after another. */
module JsonUnescape {
  import opened Bytes
  import opened JsonGrammar
  import opened JsonMeaning
  import opened JsonScan
  import opened JsonDecode
  import opened JsonParserProof
  import opened JsonTree

  // ----- string_has_no_nul -----

  const ZEROS: bytes := [0x30, 0x30, 0x30, 0x30]

  predicate ZerosAt(raw: bytes, i: nat)
    requires i + 4 <= |raw|
  {
    raw[i] == 0x30 && raw[i + 1] == 0x30 && raw[i + 2] == 0x30 && raw[i + 3] == 0x30
  }

  /** The scan from index i of the raw bytes of a token. */
  predicate NoNul(raw: bytes, i: nat)
    decreases |raw| - i
  {
    if i >= |raw| then true
    else if raw[i] != 0x5C then NoNul(raw, i + 1)
    else if i + 1 >= |raw| then false
    else if raw[i + 1] != 0x75 then NoNul(raw, i + 2)
    else if |raw| - (i + 1) < 5 || ZerosAt(raw, i + 2) then false
    else NoNul(raw, i + 6)
  }

  method HasNoNul(js: bytes, t: Token) returns (ok: bool)
    requires 0 <= t.start <= t.end <= |js|
    ensures ok == NoNul(js[t.start..t.end], 0)
  {
    ghost var raw := js[t.start..t.end];
    var i := t.start;
    while i < t.end
      invariant t.start <= i && NoNul(raw, 0) == NoNul(raw, i - t.start)
      decreases t.end - i
    {
      if js[i] != 0x5C {
        i := i + 1;
        continue;
      }
      i := i + 1;
      if i >= t.end { return false; }
      if js[i] == 0x75 {
        if t.end - i < 5 { return false; }
        if js[i + 1] == 0x30 && js[i + 2] == 0x30 && js[i + 3] == 0x30 && js[i + 4] == 0x30 { return false; }
        i := i + 4;
      }
      i := i + 1;
    }
    return true;
  }

  lemma {:induction false} NoNulRun(raw: bytes, i: nat, u: bytes)
    requires At(raw, i, u) && 0x5C !in u
    ensures NoNul(raw, i) == NoNul(raw, i + |u|)
    decreases |u|
  {
    hide At;
    AtIs(raw, i, u);
    if u != [] {
      AtIndex(raw, i, u, 0);
      assert u == [u[0]] + u[1..];
      AtConcat(raw, i, [u[0]], u[1..]);
      NoNulRun(raw, i + 1, u[1..]);
    }
  }

  /** UTF-8 contains a zero byte only for the character NUL. */
  lemma ZeroOnly(h: bytes)
    requires IsHex4(h)
    ensures h == ZEROS <==> Hex4Value(h) == 0
    ensures 0 in Utf8(Hex4Value(h)) <==> Hex4Value(h) == 0
  {
    forall k | 0 <= k < 4 ensures HexValue(h[k]) == 0 <==> h[k] == 0x30 {}
    assert h == [h[0], h[1], h[2], h[3]];
  }

  lemma NoNulEscape(raw: bytes, i: nat, h: bytes)
    requires IsHex4(h) && At(raw, i, [0x5C, 0x75] + h)
    ensures NoNul(raw, i) == (h != ZEROS && NoNul(raw, i + 6))
  {
    hide At;
    AtIs(raw, i, [0x5C, 0x75] + h);
    AtIndex(raw, i, [0x5C, 0x75] + h, 0);
    AtIndex(raw, i, [0x5C, 0x75] + h, 1);
    AtConcat(raw, i, [0x5C, 0x75], h);
    AtIs(raw, i + 2, h);
    forall k | 0 <= k < 4 ensures raw[i + 2 + k] == h[k] { AtIndex(raw, i + 2, h, k); }
    assert raw[i + 2 + 0] == h[0] && raw[i + 2 + 1] == h[1] && raw[i + 2 + 2] == h[2] && raw[i + 2 + 3] == h[3];
    assert h == [h[0], h[1], h[2], h[3]];
  }

  lemma NoNulPiece(raw: bytes, i: nat, p: Piece)
    requires IsPiece(p) && At(raw, i, PieceText(p))
    ensures NoNul(raw, i) == (0 !in PieceValue(p) && NoNul(raw, i + |PieceText(p)|))
  {
    hide At, IsHex4, NoNul, Utf8;
    match p
    case Plain(b) => NoNulRun(raw, i, [b]);
    case Multi(u) => NoSolidus(u); NoNulRun(raw, i, u);
    case Short(c) => NoNulShort(raw, i, c);
    case Unicode(h) => FourDigits(h); NoNulEscape(raw, i, h); ZeroOnly(h);
    case Surrogates(hi, lo) => NoNulPair(raw, i, hi, lo);
  }

  lemma NoNulShort(raw: bytes, i: nat, c: byte)
    requires IsShortEscape(c) && At(raw, i, [0x5C, c])
    ensures NoNul(raw, i) == NoNul(raw, i + 2) && ShortValue(c) != 0
  {
    hide At;
    AtIs(raw, i, [0x5C, c]);
    AtIndex(raw, i, [0x5C, c], 0);
    AtIndex(raw, i, [0x5C, c], 1);
  }

  lemma NoNulPair(raw: bytes, i: nat, hi: bytes, lo: bytes)
    requires var p := Surrogates(hi, lo); IsPiece(p) && At(raw, i, PieceText(p))
    ensures var p := Surrogates(hi, lo); NoNul(raw, i) == NoNul(raw, i + |PieceText(p)|) && 0 !in PieceValue(p)
  {
    hide At, IsHex4, NoNul;
    FourDigits(hi);
    FourDigits(lo);
    assert PieceText(Surrogates(hi, lo)) == ([0x5C, 0x75] + hi) + ([0x5C, 0x75] + lo);
    AtConcat(raw, i, [0x5C, 0x75] + hi, [0x5C, 0x75] + lo);
    NoNulEscape(raw, i, hi);
    NoNulEscape(raw, i + 6, lo);
    ZeroOnly(hi);
    ZeroOnly(lo);
  }

  lemma NoNulEnd(raw: bytes, i: nat)
    requires i >= |raw|
    ensures NoNul(raw, i)
  {
  }

  /** A string passes the scan exactly when what it stands for has no NUL. */
  lemma {:induction false} NoNulIs(raw: bytes, i: nat, ps: seq<Piece>)
    requires ArePieces(ps) && At(raw, i, StringText(ps)) && i + |StringText(ps)| == |raw|
    ensures NoNul(raw, i) <==> 0 !in Decoded(ps)
    decreases |ps|
  {
    hide At, IsPiece, PieceText, PieceValue, NoNul;
    if ps == [] {
      NoNulEnd(raw, i);
    } else {
      var head := PieceText(ps[0]);
      AtConcat(raw, i, head, StringText(ps[1..]));
      NoNulPiece(raw, i, ps[0]);
      NoNulIs(raw, i + |head|, ps[1..]);
    }
  }

  // ----- unescape_in_place -----

  method UnescapeInPlace(js: array<byte>, t: Token) returns (ok: bool)
    requires t.kind == STR && 0 <= t.start <= t.end < js.Length
    modifies js
    ensures ok == NoNul(old(js[t.start..t.end]), 0)
    ensures js[..] == if ok then Overlay(old(js[..]), t.start, Copied(old(js[..]), t, t.end - t.start + 1) + [0])
                      else old(js[..])
  {
    hide NoNul, Copied, Overlay;
    assert js[..][t.start..t.end] == js[t.start..t.end];
    ok := HasNoNul(js[..], t);
    if ok { CopyStr(js, t, js, t.start, t.end - t.start + 1); }
  }

  /** On a string of the grammar: refused exactly when it stands for a NUL, and else decoded in full, never cut short. */
  lemma Unescaped(js: bytes, t: Token, ps: seq<Piece>)
    requires ArePieces(ps) && t.kind == STR && t.start >= 0 && At(js, t.start, StringText(ps))
    requires t.end == t.start + |StringText(ps)|
    ensures t.end <= |js| && (NoNul(js[t.start..t.end], 0) <==> 0 !in Decoded(ps))
    ensures Copied(js, t, t.end - t.start + 1) == Decoded(ps) && |Decoded(ps)| <= t.end - t.start
  {
    hide At, ArePieces, Copy, NoNul;
    AtIs(js, t.start, StringText(ps));
    var raw := js[t.start..t.end];
    AtSlice(raw, 0, |raw|);
    assert raw[0..|raw|] == raw;
    NoNulIs(raw, 0, ps);
    CopyIsDecoded(raw, 0, ps, |raw|);
  }

  // ----- the rest of the document -----

  predicate IsLeaf(t: Token) { t.kind == STR || t.kind == PRIM }

  /** Decoding one string leaves the bytes of every other leaf as they were. */
  lemma OthersStand(js: bytes, toks: seq<Token>, i: nat, j: nat, d: bytes)
    requires Laminar(toks) && i < |toks| && j < |toks| && i != j && IsLeaf(toks[i]) && IsLeaf(toks[j])
    requires 0 <= toks[i].start <= toks[i].end < |js| && 0 <= toks[j].start <= toks[j].end <= |js|
    requires |d| <= toks[i].end - toks[i].start + 1
    ensures Overlay(js, toks[i].start, d)[toks[j].start..toks[j].end] == js[toks[j].start..toks[j].end]
  {
    hide Laminar;
    LaminarPair(toks, i, j);
    var after := Overlay(js, toks[i].start, d);
    var a, b := toks[j].start, toks[j].end;
    forall k | a <= k < b ensures after[k] == js[k] {}
    assert |after[a..b]| == |js[a..b]|;
    forall k | 0 <= k < b - a ensures after[a..b][k] == js[a..b][k] { assert after[a + k] == js[a + k]; }
  }

  lemma LaminarPair(toks: seq<Token>, i: nat, j: nat)
    requires Laminar(toks) && i < |toks| && j < |toks| && i != j && IsLeaf(toks[i]) && IsLeaf(toks[j])
    ensures toks[i].end < toks[j].start || toks[j].end < toks[i].start
  {
    assert Apart(if i < j then toks[i] else toks[j], if i < j then toks[j] else toks[i]);
  }
}
